/** The `listener_fn` attribute macro of `macros/src/lib.rs`: the checks it makes of the
    function it is applied to, and `get_type_string`, which renders the parameter's type as the
    command type the generated entry point compares against. The `syn` syntax tree is replaced
    by the small datatype below. */
module Macros {
  import opened Wrappers
  import opened Text

  /** A Rust type as `syn` parses it; every kind other than a path or a tuple is `TypeOther`. */
  datatype Type =
    | TypePath(segments: seq<PathSegment>)
    | TypeTuple(elems: seq<Type>)
    | TypeOther

  datatype PathSegment = PathSegment(ident: string, arguments: PathArguments)

  /** The arguments after a path segment: none, `<…>`, or the `(…) -> …` of a function trait. */
  datatype PathArguments = NoArguments | AngleBracketed(args: seq<GenericArgument>) | Parenthesized

  /** A generic argument: a type, or anything else (a lifetime, a constant, a binding). */
  datatype GenericArgument = TypeArgument(ty: Type) | OtherArgument

  /** The panics of `get_type_string`, each a compile-time error of the plugin. */
  datatype TypeError =
    | NotTypeParameter    // "listener_fn expects a type parameter, not …"
    | TupleNotEmpty       // "listener_fn expects a path or none, not a tuple"
    | NotAPath            // "listener_fn expects a path parameter, not …"

  /** The panics of the signature checks of `listener_fn`, then those of the type. */
  datatype MacroError =
    | NotPublic           // "listener_fn expects a public function"
    | NotOneParameter     // "listener_fn expects a function that accepts one parameter"
    | AppliedToMain       // "listener_fn must not be applied to a `main` function. …"
    | NoReturnValue       // "listener_fn expects a return value, …"
    | NotFnResult         // "listener_fn expects a function that returns FnResult"
    | BadType(error: TypeError)

  const PathSeparator := "::"
  const ArgumentSeparator := ", "

  // ---------------------------------------------------------------------------------------
  // Rendering a list of generic arguments: the first panic in order wins.
  // ---------------------------------------------------------------------------------------

  /** All renderings, or the first error among them. */
  function AllOk(parts: seq<Result<string, TypeError>>): Result<seq<string>, TypeError>
  {
    if parts == [] then Ok([])
    else match AllOk(parts[..|parts| - 1])
      case Err(e) => Err(e)
      case Ok(done) =>
        match parts[|parts| - 1]
        case Err(e) => Err(e)
        case Ok(s) => Ok(done + [s])
  }

  /** Every part rendered without a panic. */
  predicate AllRendered(parts: seq<Result<string, TypeError>>)
  {
    forall k :: 0 <= k < |parts| ==> parts[k].Ok?
  }

  function Rendered(parts: seq<Result<string, TypeError>>): seq<string>
    requires AllRendered(parts)
  {
    seq(|parts|, k requires 0 <= k < |parts| => parts[k].value)
  }

  /** `e` is the error of the first part that failed. */
  predicate FirstError(parts: seq<Result<string, TypeError>>, e: TypeError)
  {
    exists k :: 0 <= k < |parts| && parts[k] == Err(e) && AllRendered(parts[..k])
  }

  /** `AllOk` succeeds exactly when every part does, with their values in order; otherwise it
      reports the error of the first failing part. */
  lemma {:induction false} AllOkFirstError(parts: seq<Result<string, TypeError>>)
    ensures AllOk(parts).Ok? <==> AllRendered(parts)
    ensures AllOk(parts).Ok? ==> AllOk(parts).value == Rendered(parts)
    ensures AllOk(parts).Err? ==> FirstError(parts, AllOk(parts).error)
    decreases |parts|
  {
    if parts != [] {
      var front := parts[..|parts| - 1];
      AllOkFirstError(front);
      assert forall k :: 0 <= k < |front| ==> front[k] == parts[k];
      if AllOk(front).Err? {
        var k :| 0 <= k < |front| && front[k] == Err(AllOk(front).error) && AllRendered(front[..k]);
        assert front[..k] == parts[..k];
      } else if parts[|parts| - 1].Err? {
        assert parts[..|parts| - 1] == front;
      }
    }
  }

  /** Once a prefix fails, the whole list fails with the same error. */
  lemma {:induction false} AllOkPrefixError(parts: seq<Result<string, TypeError>>, n: nat)
    requires n <= |parts| && AllOk(parts[..n]).Err?
    ensures AllOk(parts) == AllOk(parts[..n])
    decreases |parts| - n
  {
    if n < |parts| {
      assert parts[..n + 1][..n] == parts[..n];
      AllOkPrefixError(parts, n + 1);
    } else {
      assert parts[..n] == parts;
    }
  }

  /** `<a1, a2, …>` after the segment when it has angle-bracketed arguments, else nothing. */
  function Generics(arguments: PathArguments, rendered: seq<string>): string
  {
    if arguments.AngleBracketed? then "<" + Join(rendered, ArgumentSeparator) + ">" else ""
  }

  // ---------------------------------------------------------------------------------------
  // `get_type_string` as written: the check at line 99 calls `next()`, not `peek()`.
  // ---------------------------------------------------------------------------------------

  /** The identifiers the loop writes: those of the segments at positions 0, 2, 4, …, because
      each turn consumes one more segment to test for the end. */
  function EvenIdents(segs: seq<PathSegment>): seq<string>
  {
    seq((|segs| + 1) / 2, k requires 0 <= k < (|segs| + 1) / 2 => segs[2 * k].ident)
  }

  /** `get_type_string`, stated by positions: the written identifiers joined by `"::"`; when
      the count of segments is even the consumed last segment leaves a trailing `"::"`, and
      when it is odd the last segment is the written one and its generic arguments follow. */
  function TypeString(ty: Type): Result<string, TypeError>
    decreases ty, 1
  {
    match ty
    case TypeTuple(elems) => if |elems| != 0 then Err(TupleNotEmpty) else Ok("()")
    case TypeOther => Err(NotAPath)
    case TypePath(segs) =>
      var head := Join(EvenIdents(segs), PathSeparator);
      if |segs| == 0 then Ok("")
      else if |segs| % 2 == 0 then Ok(head + PathSeparator)
      else
        match AllOk(ArgParts(ty))
        case Err(e) => Err(e)
        case Ok(rendered) => Ok(head + Generics(segs[|segs| - 1].arguments, rendered))
  }

  /** The renderings of the generic arguments of a path's last segment; any argument that is
      not a type panics. */
  function ArgParts(ty: Type): seq<Result<string, TypeError>>
    decreases ty, 0
  {
    match ty
    case TypePath(segs) =>
      if |segs| > 0 && segs[|segs| - 1].arguments.AngleBracketed? then
        var args := segs[|segs| - 1].arguments.args;
        seq(|args|, i requires 0 <= i < |args| =>
          match args[i]
          case TypeArgument(t) => TypeString(t)
          case OtherArgument => Err(NotTypeParameter))
      else []
    case _ => []
  }

  /** What `path` holds at the head of the loop once `n` segments (an even count) have been
      consumed. */
  function Written(segs: seq<PathSegment>, n: nat): string
    requires n <= |segs|
  {
    if n == 0 then "" else Join(EvenIdents(segs[..n]), PathSeparator) + PathSeparator
  }

  /** One turn of the loop over a segment that is not the last: its identifier is written and
      the following segment is consumed, leaving `"::"`. */
  lemma WrittenStep(segs: seq<PathSegment>, n: nat)
    requires n % 2 == 0 && n + 2 <= |segs|
    ensures Written(segs, n + 2) == Written(segs, n) + segs[n].ident + PathSeparator
  {
    var ids := EvenIdents(segs[..n]);
    assert EvenIdents(segs[..n + 2]) == ids + [segs[n].ident];
    if n > 0 {
      JoinAppend(ids, segs[n].ident, PathSeparator);
    }
  }

  /** The last turn over an odd count: the last identifier completes the joined head. */
  lemma WrittenLast(segs: seq<PathSegment>)
    requires |segs| % 2 == 1
    ensures Join(EvenIdents(segs), PathSeparator)
            == Written(segs, |segs| - 1) + segs[|segs| - 1].ident
  {
    var n := |segs| - 1;
    var ids := EvenIdents(segs[..n]);
    assert EvenIdents(segs) == ids + [segs[n].ident];
    if n > 0 {
      JoinAppend(ids, segs[n].ident, PathSeparator);
    }
  }

  /** `get_type_string` of `macros/src/lib.rs`, with its `while let` loop over a segment
      cursor that the end test advances a second time. A panic is an `Err`. */
  method GetTypeString(ty: Type) returns (r: Result<string, TypeError>)
    ensures r == TypeString(ty)
    decreases ty, 1
  {
    match ty {
      case TypeTuple(elems) =>
        if |elems| != 0 {
          return Err(TupleNotEmpty);
        }
        return Ok("()");
      case TypeOther =>
        return Err(NotAPath);
      case TypePath(segs) =>
        var next := 0;
        var path := "";
        while next < |segs|
          invariant next <= |segs|
          invariant next % 2 == 0 ==> path == Written(segs, next)
          invariant next % 2 == 1 ==> next == |segs| && TypeString(ty) == Ok(path)
          decreases |segs| - next
        {
          var segment := segs[next];
          ghost var at := next;
          next := next + 1;
          path := path + segment.ident;
          if next >= |segs| {
            WrittenLast(segs);
            assert segment == segs[|segs| - 1];
            if segment.arguments.AngleBracketed? {
              var rendered := RenderArguments(ty);
              if rendered.Err? {
                return Err(rendered.error);
              }
              path := path + "<" + Join(rendered.value, ArgumentSeparator) + ">";
              assert path == Join(EvenIdents(segs), PathSeparator)
                             + Generics(segment.arguments, rendered.value);
            } else {
              assert ArgParts(ty) == [];
              assert path == Join(EvenIdents(segs), PathSeparator) + Generics(segment.arguments, []);
            }
          } else {
            WrittenStep(segs, at);
            next := next + 1;
            path := path + PathSeparator;
          }
        }
        if next % 2 == 0 {
          assert segs[..|segs|] == segs;
        }
        return Ok(path);
    }
  }

  /** The `map(…).join(", ")` over the generic arguments of a path's last segment: each type
      argument is rendered by recursion, and any other argument panics. */
  method RenderArguments(ty: Type) returns (r: Result<seq<string>, TypeError>)
    requires ty.TypePath? && |ty.segments| > 0
    requires ty.segments[|ty.segments| - 1].arguments.AngleBracketed?
    ensures r == AllOk(ArgParts(ty))
    decreases ty, 0
  {
    var args := ty.segments[|ty.segments| - 1].arguments.args;
    ghost var parts := ArgParts(ty);
    assert |parts| == |args|;
    var rendered: seq<string> := [];
    var j := 0;
    while j < |args|
      invariant 0 <= j <= |args|
      invariant AllOk(parts[..j]) == Ok(rendered)
    {
      assert parts[..j + 1][..j] == parts[..j];
      match args[j] {
        case TypeArgument(t) =>
          var s := GetTypeString(t);
          assert parts[j] == s;
          if s.Err? {
            AllOkPrefixError(parts, j + 1);
            return Err(s.error);
          }
          rendered := rendered + [s.value];
        case OtherArgument =>
          assert parts[j] == Err(NotTypeParameter);
          AllOkPrefixError(parts, j + 1);
          return Err(NotTypeParameter);
      }
      j := j + 1;
    }
    assert parts[..j] == parts;
    return Ok(rendered);
  }

  // ---------------------------------------------------------------------------------------
  // What the code as written renders.
  // ---------------------------------------------------------------------------------------

  /** The segment after each written one is consumed and never rendered: replacing a segment
      at an odd position changes nothing. */
  lemma SkippedSegmentIgnored(segs: seq<PathSegment>, k: nat, other: PathSegment)
    requires k < |segs| && k % 2 == 1
    ensures TypeString(TypePath(segs[k := other])) == TypeString(TypePath(segs))
  {
    var segs' := segs[k := other];
    assert EvenIdents(segs') == EvenIdents(segs);
    if |segs| % 2 == 1 {
      assert segs'[|segs| - 1] == segs[|segs| - 1];
      assert ArgParts(TypePath(segs')) == ArgParts(TypePath(segs));
    }
  }

  /** With an even count of segments the rendering ends in `"::"` and never fails, whatever
      generic arguments the segments carry; split on `"::"` it gives the written identifiers
      and an empty last piece. */
  lemma EvenCountEndsWithSeparator(segs: seq<PathSegment>)
    requires |segs| > 0 && |segs| % 2 == 0
    ensures TypeString(TypePath(segs)) == Ok(Join(EvenIdents(segs), PathSeparator) + PathSeparator)
    ensures (forall i :: 0 <= i < |segs| ==> ':' !in segs[i].ident) ==>
              Split(TypeString(TypePath(segs)).value, PathSeparator) == EvenIdents(segs) + [""]
  {
    var ids := EvenIdents(segs);
    if forall i :: 0 <= i < |segs| ==> ':' !in segs[i].ident {
      var parts := ids + [""];
      JoinAppend(ids, "", PathSeparator);
      assert Join(ids, PathSeparator) + PathSeparator + "" == Join(ids, PathSeparator) + PathSeparator;
      forall k | 0 <= k < |parts|
        ensures PathSeparator[0] !in parts[k]
      {
        if k < |ids| {
          assert parts[k] == segs[2 * k].ident;
        }
      }
      SplitJoin(parts, PathSeparator);
    }
  }

  /** With an odd count the last segment is the written one: its arguments are rendered
      between `<` and `>`, separated by `", "`, and the first one that is not a type, or whose
      rendering panics, makes the whole rendering panic. */
  lemma OddCountRendersLastGenerics(segs: seq<PathSegment>)
    requires |segs| % 2 == 1
    ensures TypeString(TypePath(segs)).Ok? <==> AllRendered(ArgParts(TypePath(segs)))
    ensures AllRendered(ArgParts(TypePath(segs))) ==>
              TypeString(TypePath(segs))
              == Ok(Join(EvenIdents(segs), PathSeparator)
                    + Generics(segs[|segs| - 1].arguments, Rendered(ArgParts(TypePath(segs)))))
    ensures TypeString(TypePath(segs)).Err? ==>
              FirstError(ArgParts(TypePath(segs)), TypeString(TypePath(segs)).error)
    ensures segs[|segs| - 1].arguments.AngleBracketed? ==>
              ArgumentsRendered(segs[|segs| - 1].arguments.args, ArgParts(TypePath(segs)))
  {
    var parts := ArgParts(TypePath(segs));
    var head := Join(EvenIdents(segs), PathSeparator);
    AllOkFirstError(parts);
    assert |segs| != 0 && |segs| % 2 != 0;
    if AllOk(parts).Ok? {
      assert TypeString(TypePath(segs)) == Ok(head + Generics(segs[|segs| - 1].arguments, AllOk(parts).value));
    } else {
      assert TypeString(TypePath(segs)) == Err(AllOk(parts).error);
    }
  }

  /** One rendering per argument, in order: the argument's own rendering if it is a type, a
      panic otherwise. */
  predicate ArgumentsRendered(args: seq<GenericArgument>, parts: seq<Result<string, TypeError>>)
  {
    |parts| == |args| &&
    forall k :: 0 <= k < |parts| ==>
      parts[k] == (if args[k].TypeArgument? then TypeString(args[k].ty) else Err(NotTypeParameter))
  }

  /** A one-segment path renders as its identifier followed by its generic arguments. */
  lemma OneSegment(seg: PathSegment)
    ensures seg.arguments.NoArguments? ==> TypeString(TypePath([seg])) == Ok(seg.ident)
    ensures AllOk(ArgParts(TypePath([seg]))).Ok? ==>
              TypeString(TypePath([seg]))
              == Ok(seg.ident + Generics(seg.arguments, AllOk(ArgParts(TypePath([seg]))).value))
  {
    assert EvenIdents([seg]) == [seg.ident];
    assert Join(EvenIdents([seg]), PathSeparator) == seg.ident;
    OddCountRendersLastGenerics([seg]);
    var parts := ArgParts(TypePath([seg]));
    AllOkFirstError(parts);
    if seg.arguments.NoArguments? {
      assert parts == [];
      assert AllOk(parts) == Ok([]);
      assert Generics(seg.arguments, []) == "";
      assert TypeString(TypePath([seg])) == Ok(seg.ident + Generics(seg.arguments, []));
      assert seg.ident + "" == seg.ident;
    }
  }

  /** `Cron` renders as `Cron`, and `Foo<Bar>` as `Foo<Bar>`. */
  lemma OneSegmentExamples()
    ensures TypeString(TypePath([PathSegment("Cron", NoArguments)])) == Ok("Cron")
    ensures TypeString(TypePath([PathSegment("Foo", AngleBracketed([TypeArgument(
              TypePath([PathSegment("Bar", NoArguments)]))]))])) == Ok("Foo<Bar>")
  {
    OneSegment(PathSegment("Cron", NoArguments));
    var bar := TypePath([PathSegment("Bar", NoArguments)]);
    OneSegment(PathSegment("Bar", NoArguments));
    var seg := PathSegment("Foo", AngleBracketed([TypeArgument(bar)]));
    var parts := ArgParts(TypePath([seg]));
    assert parts == [Ok("Bar")];
    assert AllOk(parts) == Ok(["Bar"]) by {
      assert parts[..|parts| - 1] == [];
      assert AllOk(parts[..|parts| - 1]) == Ok([]);
      var none: seq<string> := [];
      assert none + ["Bar"] == ["Bar"];
    }
    OneSegment(seg);
    assert Join(["Bar"], ArgumentSeparator) == "Bar";
    assert Generics(seg.arguments, ["Bar"]) == "<Bar>";
    assert "Foo" + "<Bar>" == "Foo<Bar>";
  }

  /** `a::b::C` renders as `a::C`: the `b` is consumed by the end test. */
  lemma ThreeSegmentsLoseTheMiddle()
    ensures TypeString(TypePath([PathSegment("a", NoArguments), PathSegment("b", NoArguments),
                                 PathSegment("C", NoArguments)])) == Ok("a::C")
  {
    var segs := [PathSegment("a", NoArguments), PathSegment("b", NoArguments),
                 PathSegment("C", NoArguments)];
    assert EvenIdents(segs) == ["a", "C"];
    assert ["a", "C"][1..] == ["C"];
    assert Join(["a", "C"], PathSeparator) == "a::C";
    OddCountRendersLastGenerics(segs);
    assert ArgParts(TypePath(segs)) == [];
    assert Generics(NoArguments, []) == "";
    assert "a::C" + "" == "a::C";
  }

  /** `models::Foo` renders as `models::`: the type's own name is consumed. */
  lemma TwoSegmentsLoseTheName()
    ensures TypeString(TypePath([PathSegment("models", NoArguments), PathSegment("Foo", NoArguments)]))
            == Ok("models::")
  {
    var segs := [PathSegment("models", NoArguments), PathSegment("Foo", NoArguments)];
    assert EvenIdents(segs) == ["models"];
    assert Join(["models"], PathSeparator) + PathSeparator == "models::";
    EvenCountEndsWithSeparator(segs);
  }

  /** Two different types can get the same command type: `a::b::C` and `a::x::C`. */
  lemma DistinctTypesCollide()
    ensures var abc := TypePath([PathSegment("a", NoArguments), PathSegment("b", NoArguments),
                                 PathSegment("C", NoArguments)]);
            var axc := TypePath([PathSegment("a", NoArguments), PathSegment("x", NoArguments),
                                 PathSegment("C", NoArguments)]);
            abc != axc && TypeString(abc) == TypeString(axc)
  {
    var segs := [PathSegment("a", NoArguments), PathSegment("b", NoArguments),
                 PathSegment("C", NoArguments)];
    SkippedSegmentIgnored(segs, 1, PathSegment("x", NoArguments));
    assert segs[1 := PathSegment("x", NoArguments)]
        == [PathSegment("a", NoArguments), PathSegment("x", NoArguments), PathSegment("C", NoArguments)];
  }

  // ---------------------------------------------------------------------------------------
  // The rendering evidently intended: `peek()` at line 99, so every segment is written.
  // ---------------------------------------------------------------------------------------

  function Idents(segs: seq<PathSegment>): seq<string>
  {
    seq(|segs|, k requires 0 <= k < |segs| => segs[k].ident)
  }

  /** Every identifier joined by `"::"`, with the last segment's generic arguments. */
  function IntendedTypeString(ty: Type): Result<string, TypeError>
    decreases ty, 1
  {
    match ty
    case TypeTuple(elems) => if |elems| != 0 then Err(TupleNotEmpty) else Ok("()")
    case TypeOther => Err(NotAPath)
    case TypePath(segs) =>
      if |segs| == 0 then Ok("")
      else
        match AllOk(IntendedArgParts(ty))
        case Err(e) => Err(e)
        case Ok(rendered) =>
          Ok(Join(Idents(segs), PathSeparator) + Generics(segs[|segs| - 1].arguments, rendered))
  }

  function IntendedArgParts(ty: Type): seq<Result<string, TypeError>>
    decreases ty, 0
  {
    match ty
    case TypePath(segs) =>
      if |segs| > 0 && segs[|segs| - 1].arguments.AngleBracketed? then
        var args := segs[|segs| - 1].arguments.args;
        seq(|args|, i requires 0 <= i < |args| =>
          match args[i]
          case TypeArgument(t) => IntendedTypeString(t)
          case OtherArgument => Err(NotTypeParameter))
      else []
    case _ => []
  }

  /** The intended rendering of a path without generic arguments splits back into all of its
      identifiers, so different paths get different command types. */
  lemma IntendedKeepsEverySegment(segs: seq<PathSegment>)
    requires |segs| > 0 && segs[|segs| - 1].arguments.NoArguments?
    requires forall i :: 0 <= i < |segs| ==> ':' !in segs[i].ident
    ensures IntendedTypeString(TypePath(segs)).Ok?
    ensures Split(IntendedTypeString(TypePath(segs)).value, PathSeparator) == Idents(segs)
  {
    var ty := TypePath(segs);
    var ids := Idents(segs);
    assert IntendedArgParts(ty) == [];
    assert IntendedTypeString(ty) == Ok(Join(ids, PathSeparator) + Generics(NoArguments, []));
    assert Join(ids, PathSeparator) + "" == Join(ids, PathSeparator);
    forall i | 0 <= i < |ids|
      ensures PathSeparator[0] !in ids[i]
    {
      assert ids[i] == segs[i].ident;
    }
    SplitJoin(ids, PathSeparator);
  }

  /** The examples above, as intended. */
  lemma IntendedExamples()
    ensures IntendedTypeString(TypePath([PathSegment("a", NoArguments), PathSegment("b", NoArguments),
                                         PathSegment("C", NoArguments)])) == Ok("a::b::C")
    ensures IntendedTypeString(TypePath([PathSegment("models", NoArguments),
                                         PathSegment("Foo", NoArguments)])) == Ok("models::Foo")
  {
    var abc := [PathSegment("a", NoArguments), PathSegment("b", NoArguments),
                PathSegment("C", NoArguments)];
    assert Idents(abc) == ["a", "b", "C"];
    assert IntendedArgParts(TypePath(abc)) == [];
    assert Join(["a", "b", "C"], PathSeparator) == "a::b::C" by {
      assert ["a", "b", "C"][1..] == ["b", "C"];
      assert ["b", "C"][1..] == ["C"];
    }
    assert "a::b::C" + "" == "a::b::C";
    var foo := [PathSegment("models", NoArguments), PathSegment("Foo", NoArguments)];
    assert Idents(foo) == ["models", "Foo"];
    assert IntendedArgParts(TypePath(foo)) == [];
    assert Join(["models", "Foo"], PathSeparator) == "models::Foo" by {
      assert ["models", "Foo"][1..] == ["Foo"];
    }
    assert "models::Foo" + "" == "models::Foo";
  }

  /** Every path in the type, its generic arguments included, has at most one segment. */
  predicate ShortPaths(ty: Type)
    decreases ty
  {
    match ty
    case TypePath(segs) =>
      |segs| <= 1 &&
      (|segs| == 1 && segs[0].arguments.AngleBracketed? ==>
         forall i :: 0 <= i < |segs[0].arguments.args| ==>
           segs[0].arguments.args[i].TypeArgument? ==> ShortPaths(segs[0].arguments.args[i].ty))
    case _ => true
  }

  /** For imported names, where no path has more than one segment, the code as written agrees
      with the intended rendering. */
  lemma {:induction false} ShortPathsAgree(ty: Type)
    requires ShortPaths(ty)
    ensures TypeString(ty) == IntendedTypeString(ty)
    decreases ty
  {
    match ty
    case TypePath(segs) =>
      if |segs| == 1 {
        var seg := segs[0];
        assert EvenIdents(segs) == Idents(segs) == [seg.ident];
        if seg.arguments.AngleBracketed? {
          var args := seg.arguments.args;
          forall i | 0 <= i < |args|
            ensures ArgParts(ty)[i] == IntendedArgParts(ty)[i]
          {
            if args[i].TypeArgument? {
              ShortPathsAgree(args[i].ty);
            }
          }
        }
        assert ArgParts(ty) == IntendedArgParts(ty);
      }
    case _ =>
  }

  // ---------------------------------------------------------------------------------------
  // The checks `listener_fn` makes of the function it is applied to.
  // ---------------------------------------------------------------------------------------

  datatype Visibility = Public | Restricted | Inherited

  /** A parameter pattern: a plain identifier, or any other pattern (a tuple, `_`, …). */
  datatype Pattern = IdentPattern(name: string) | OtherPattern

  /** A parameter: typed, or the `self` receiver of a method. */
  datatype FnArg = Typed(pat: Pattern, ty: Type) | Receiver

  datatype ReturnType = DefaultReturn | ReturnsType(ty: Type)

  datatype ItemFn = ItemFn(vis: Visibility, name: string, inputs: seq<FnArg>, output: ReturnType)

  /** What the macro takes from an accepted function to generate its entry point. */
  datatype Listener = Listener(name: string, inputName: string, inputType: Type, commandType: string)

  /** There is exactly one parameter, typed and bound to a plain identifier. */
  predicate OneIdentParameter(inputs: seq<FnArg>)
  {
    |inputs| == 1 && inputs[0].Typed? && inputs[0].pat.IdentPattern?
  }

  /** A path return type must end in the segment `FnResult`; other return types pass. */
  predicate ReturnAccepted(t: Type)
  {
    t.TypePath? ==> |t.segments| > 0 && t.segments[|t.segments| - 1].ident == "FnResult"
  }

  /** The checks of `listener_fn`, in the order the source makes them; on success, the
      parameter's name and type and the command type rendered from that type. */
  function ListenerFn(f: ItemFn): (r: Result<Listener, MacroError>)
    ensures r.Ok? <==>
              && f.vis.Public?
              && OneIdentParameter(f.inputs)
              && f.name != "main"
              && f.output.ReturnsType? && ReturnAccepted(f.output.ty)
              && TypeString(f.inputs[0].ty).Ok?
    ensures r.Ok? ==>
              r.value == Listener(f.name, f.inputs[0].pat.name, f.inputs[0].ty,
                                  TypeString(f.inputs[0].ty).value)
    ensures r == Err(NotPublic) <==> !f.vis.Public?
    ensures r == Err(NotOneParameter) <==> f.vis.Public? && !OneIdentParameter(f.inputs)
    ensures r == Err(AppliedToMain) <==>
              f.vis.Public? && OneIdentParameter(f.inputs) && f.name == "main"
    ensures r == Err(NoReturnValue) <==>
              f.vis.Public? && OneIdentParameter(f.inputs) && f.name != "main" &&
              f.output.DefaultReturn?
    ensures r == Err(NotFnResult) <==>
              f.vis.Public? && OneIdentParameter(f.inputs) && f.name != "main" &&
              f.output.ReturnsType? && !ReturnAccepted(f.output.ty)
    ensures f.vis.Public? && OneIdentParameter(f.inputs) && f.name != "main" &&
            f.output.ReturnsType? && ReturnAccepted(f.output.ty) && TypeString(f.inputs[0].ty).Err? ==>
              r == Err(BadType(TypeString(f.inputs[0].ty).error))
  {
    if !f.vis.Public? then Err(NotPublic)
    else if |f.inputs| != 1 then Err(NotOneParameter)
    else
      match f.inputs[0]
      case Receiver => Err(NotOneParameter)
      case Typed(pat, ty) =>
        match pat
        case OtherPattern => Err(NotOneParameter)
        case IdentPattern(inputName) =>
          if f.name == "main" then Err(AppliedToMain)
          else
            match f.output
            case DefaultReturn => Err(NoReturnValue)
            case ReturnsType(t) =>
              if t.TypePath? && (|t.segments| == 0 || t.segments[|t.segments| - 1].ident != "FnResult")
              then Err(NotFnResult)
              else
                match TypeString(ty)
                case Err(e) => Err(BadType(e))
                case Ok(commandType) => Ok(Listener(f.name, inputName, ty, commandType))
  }
}
