/** String helpers shared by the type-name code: joining with a separator, Rust's `str::split`
    on a non-empty pattern, and `str::replace` of one character by nothing. */
module Text {

  /** `parts.join(sep)`: the parts in order with `sep` between neighbours. */
  function Join(parts: seq<string>, sep: string): string
  {
    if |parts| == 0 then ""
    else if |parts| == 1 then parts[0]
    else parts[0] + sep + Join(parts[1..], sep)
  }

  /** Joining one more part onto a non-empty list puts one separator before it. */
  lemma {:induction false} JoinAppend(parts: seq<string>, last: string, sep: string)
    requires |parts| > 0
    ensures Join(parts + [last], sep) == Join(parts, sep) + sep + last
    decreases |parts|
  {
    if |parts| > 1 {
      assert (parts + [last])[1..] == parts[1..] + [last];
      JoinAppend(parts[1..], last, sep);
    }
  }

  /** `s.split(sep)` for a non-empty `sep`: the pieces between the matches of `sep`, found
      from left to right without overlap. There is always at least one piece. */
  function Split(s: string, sep: string): (parts: seq<string>)
    requires |sep| > 0
    ensures |parts| >= 1
    decreases |s|
  {
    if |s| < |sep| then [s]
    else if s[..|sep|] == sep then [""] + Split(s[|sep|..], sep)
    else
      var rest := Split(s[1..], sep);
      [[s[0]] + rest[0]] + rest[1..]
  }

  /** Extending the first part extends the joined text at its front. */
  lemma JoinExtendFirst(c: char, parts: seq<string>, sep: string)
    requires |parts| > 0
    ensures Join([[c] + parts[0]] + parts[1..], sep) == [c] + Join(parts, sep)
  {
    var longer := [[c] + parts[0]] + parts[1..];
    if |parts| > 1 {
      assert longer[1..] == parts[1..];
    }
  }

  /** The pieces of a split, joined back with the separator, give the original text. */
  lemma {:induction false} JoinSplit(s: string, sep: string)
    requires |sep| > 0
    ensures Join(Split(s, sep), sep) == s
    decreases |s|
  {
    if |s| < |sep| {
    } else if s[..|sep|] == sep {
      var rest := Split(s[|sep|..], sep);
      assert Join(rest, sep) == s[|sep|..] by {
        JoinSplit(s[|sep|..], sep);
      }
      assert Join([""] + rest, sep) == sep + Join(rest, sep) by {
        assert ([""] + rest)[1..] == rest;
      }
      assert s == sep + s[|sep|..];
    } else {
      var rest := Split(s[1..], sep);
      assert Join(rest, sep) == s[1..] by {
        JoinSplit(s[1..], sep);
      }
      JoinExtendFirst(s[0], rest, sep);
      assert s == [s[0]] + s[1..];
    }
  }

  /** `sep` occurs in `s` starting at index `i`. */
  predicate MatchesAt(s: string, sep: string, i: int)
  {
    0 <= i && i + |sep| <= |s| && s[i..i + |sep|] == sep
  }

  /** `s.split(sep).last()`, which always exists. */
  function LastPiece(s: string, sep: string): string
    requires |sep| > 0
  {
    var parts := Split(s, sep);
    parts[|parts| - 1]
  }

  /** The last piece contains no match of the separator. */
  lemma {:induction false} LastPieceHasNoSeparator(s: string, sep: string)
    requires |sep| > 0
    ensures forall i :: !MatchesAt(LastPiece(s, sep), sep, i)
    decreases |s|
  {
    var parts := Split(s, sep);
    if |s| < |sep| {
    } else if s[..|sep|] == sep {
      LastPieceHasNoSeparator(s[|sep|..], sep);
      assert LastPiece(s, sep) == LastPiece(s[|sep|..], sep);
    } else {
      var rest := Split(s[1..], sep);
      LastPieceHasNoSeparator(s[1..], sep);
      if |rest| == 1 {
        assert rest[0] == s[1..] by {
          JoinSplit(s[1..], sep);
        }
        assert LastPiece(s[1..], sep) == s[1..];
        assert LastPiece(s, sep) == [s[0]] + s[1..] == s;
        NoMatchExtends(s[0], s[1..], sep);
      } else {
        assert LastPiece(s, sep) == LastPiece(s[1..], sep);
      }
    }
  }

  /** A text with no match of `sep` keeps none when one character is put in front, unless
      the match starts at that character. */
  lemma NoMatchExtends(c: char, x: string, sep: string)
    requires |sep| > 0 && forall i :: !MatchesAt(x, sep, i)
    requires !MatchesAt([c] + x, sep, 0)
    ensures forall i :: !MatchesAt([c] + x, sep, i)
  {
    var p := [c] + x;
    forall i | 0 < i && MatchesAt(p, sep, i)
      ensures false
    {
      assert p[i..i + |sep|] == x[i - 1..i - 1 + |sep|];
      assert MatchesAt(x, sep, i - 1);
    }
  }

  /** A text with no match of the separator is one piece. */
  lemma {:induction false} SplitWithoutMatch(s: string, sep: string)
    requires |sep| > 0 && forall i :: !MatchesAt(s, sep, i)
    ensures Split(s, sep) == [s]
    decreases |s|
  {
    if |s| >= |sep| {
      assert !MatchesAt(s, sep, 0);
      forall i | MatchesAt(s[1..], sep, i)
        ensures false
      {
        assert s[1..][i..i + |sep|] == s[i + 1..i + 1 + |sep|];
        assert MatchesAt(s, sep, i + 1);
      }
      SplitWithoutMatch(s[1..], sep);
      assert [s[0]] + s[1..] == s;
    }
  }

  /** A text in which the separator's first character never occurs is one piece. */
  lemma SplitWithoutSeparator(s: string, sep: string)
    requires |sep| > 0 && sep[0] !in s
    ensures Split(s, sep) == [s]
  {
    forall i | MatchesAt(s, sep, i)
      ensures false
    {
    }
    SplitWithoutMatch(s, sep);
  }

  /** A piece free of the separator's first character, followed by the separator, is split
      off as the first piece. */
  lemma {:induction false} SplitAfterPiece(piece: string, sep: string, rest: string)
    requires |sep| > 0 && sep[0] !in piece
    ensures Split(piece + sep + rest, sep) == [piece] + Split(rest, sep)
    decreases |piece|
  {
    var s := piece + sep + rest;
    if |piece| == 0 {
      assert s == sep + rest;
      assert s[..|sep|] == sep;
      assert s[|sep|..] == rest;
    } else {
      assert s[..|sep|][0] == piece[0];
      assert s[1..] == piece[1..] + sep + rest;
      SplitAfterPiece(piece[1..], sep, rest);
      assert [piece[0]] + piece[1..] == piece;
    }
  }

  /** Splitting undoes joining when no part contains the separator's first character. */
  lemma {:induction false} SplitJoin(parts: seq<string>, sep: string)
    requires |parts| > 0 && |sep| > 0
    requires forall i :: 0 <= i < |parts| ==> sep[0] !in parts[i]
    ensures Split(Join(parts, sep), sep) == parts
    decreases |parts|
  {
    if |parts| == 1 {
      SplitWithoutSeparator(parts[0], sep);
    } else {
      SplitJoin(parts[1..], sep);
      SplitAfterPiece(parts[0], sep, Join(parts[1..], sep));
      assert [parts[0]] + parts[1..] == parts;
    }
  }

  /** `s.replace(c, "")`: the text with every occurrence of `c` deleted. */
  function Remove(s: string, c: char): (r: string)
    ensures c !in r
    ensures c !in s ==> r == s
    ensures |r| <= |s|
  {
    if |s| == 0 then ""
    else (if s[0] == c then "" else [s[0]]) + Remove(s[1..], c)
  }

  /** Every other character stays, as often as it occurs in the text. */
  lemma {:induction false} RemoveKeepsOthers(s: string, c: char)
    ensures multiset(Remove(s, c)) == multiset(s)[c := 0]
    decreases |s|
  {
    if |s| > 0 {
      RemoveKeepsOthers(s[1..], c);
      assert s == [s[0]] + s[1..];
    }
  }

  /** Deleting a character works piece by piece. */
  lemma {:induction false} RemoveConcat(a: string, b: string, c: char)
    ensures Remove(a + b, c) == Remove(a, c) + Remove(b, c)
    decreases |a|
  {
    if |a| == 0 {
      assert a + b == b;
    } else {
      assert (a + b)[0] == a[0];
      assert (a + b)[1..] == a[1..] + b;
      RemoveConcat(a[1..], b, c);
    }
  }
}
