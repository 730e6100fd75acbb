/** The plugin's input records of `src/io.rs`: the short type name stored in an entry, the
    entry constructor, and the request builder. */
module Io {
  import opened Wrappers
  import opened Text

  /** The separator between the segments of a Rust type name. */
  const PathSeparator := "::"

  /** `get_type`: the segment after the last `"::"` of a compiler-supplied type name, with
      every `'>'` deleted. The name, `std::any::type_name_of_val(&val)` in Rust, is an input. */
  function GetType(typeName: string): (r: string)
    ensures '>' !in r
  {
    Remove(LastPiece(typeName, PathSeparator), '>')
  }

  /** The stored name is the tail of the type name after the last of the `"::"` matches
      found from left to right without overlap (so `x:::a` keeps `:a`): what precedes it is
      empty or ends in `"::"`, and it holds no further `"::"`. */
  lemma GetTypeTakesLastSegment(typeName: string)
    ensures var piece := LastPiece(typeName, PathSeparator);
            && |piece| <= |typeName|
            && typeName[|typeName| - |piece|..] == piece
            && (var front := typeName[..|typeName| - |piece|];
                front == "" || (|front| >= 2 && front[|front| - 2..] == PathSeparator))
            && (forall i :: !MatchesAt(piece, PathSeparator, i))
            && GetType(typeName) == Remove(piece, '>')
  {
    var parts := Split(typeName, PathSeparator);
    var piece := parts[|parts| - 1];
    JoinSplit(typeName, PathSeparator);
    LastPieceHasNoSeparator(typeName, PathSeparator);
    if |parts| > 1 {
      var front := parts[..|parts| - 1];
      JoinAppend(front, piece, PathSeparator);
      assert front + [piece] == parts;
      assert typeName == (Join(front, PathSeparator) + PathSeparator) + piece;
    }
  }

  /** A name without `"::"` is kept whole, less its `'>'` characters. */
  lemma GetTypeOfUnqualifiedName(typeName: string)
    requires forall i :: !MatchesAt(typeName, PathSeparator, i)
    ensures GetType(typeName) == Remove(typeName, '>')
  {
    SplitWithoutMatch(typeName, PathSeparator);
  }

  /** The name of a type declared in nested modules is its own identifier. */
  lemma GetTypeOfQualifiedName(modules: seq<string>, name: string)
    requires forall i :: 0 <= i < |modules| ==> ':' !in modules[i]
    requires ':' !in name && '>' !in name
    ensures GetType(Join(modules + [name], PathSeparator)) == name
  {
    var parts := modules + [name];
    forall i | 0 <= i < |parts|
      ensures PathSeparator[0] !in parts[i]
    {
      if i < |modules| {
        assert parts[i] == modules[i];
      }
    }
    SplitJoin(parts, PathSeparator);
  }

  /** `test_get_type`: the compiler names the type of the argument, a reference to a struct
      `name` of the test module, `&contour_rust_pdk::io::tests::<name>`; the test's struct is
      `TestStruct`. */
  lemma TestStructName(name: string)
    requires ':' !in name && '>' !in name
    ensures GetType("&contour_rust_pdk::io::tests::" + name) == name
  {
    var tail := "tests" + PathSeparator + name;
    var middle := "io" + PathSeparator + tail;
    SplitWithoutSeparator(name, PathSeparator);
    SplitAfterPiece("tests", PathSeparator, name);
    SplitAfterPiece("io", PathSeparator, tail);
    SplitAfterPiece("&contour_rust_pdk", PathSeparator, middle);
    assert "&contour_rust_pdk::io::tests::" + name == "&contour_rust_pdk" + PathSeparator + middle;
  }

  /** `test_get_type_nested`: the argument has type
      `&contour_rust_pdk::io::ResourceInput<contour_rust_pdk::io::tests::<name>>`, written here
      as its `"::"`-separated pieces; its last segment is `<name>>`, whose `'>'` is deleted. */
  lemma NestedResourceName(name: string)
    requires ':' !in name && '>' !in name
    ensures GetType(Join(["&contour_rust_pdk", "io", "ResourceInput<contour_rust_pdk", "io", "tests",
                          name + ">"], PathSeparator))
            == name
  {
    var parts := ["&contour_rust_pdk", "io", "ResourceInput<contour_rust_pdk", "io", "tests", name + ">"];
    assert ':' !in name + ">";
    SplitJoin(parts, PathSeparator);
    RemoveConcat(name, ">", '>');
  }

  /** A calendar or clock value, carried as an opaque number. */
  datatype DateTimeRange = DateTimeRange(from: int, until: int)

  datatype Effective =
    | Date(day: int)
    | DateTime(instant: int)
    | DateTimeFixed(instant: int, offset: int)
    | Range(range: DateTimeRange)
    | MultiRange(ranges: seq<DateTimeRange>)

  /** A ledger line; identifiers and decimals are carried as opaque values. */
  datatype LineInput = LineInput(resourceId: nat, debit: int, credit: int, ratio: int,
                                 description: Option<string>, tags: seq<nat>)

  datatype EntryInput<E> = EntryInput(effective: Effective, sourceKey: string, entry: E,
                                      entryType: string, lines: seq<LineInput>)

  /** `EntryInput::new`: the entry is tagged with the short name of its type (`typeName` is
      the compiler's name for it), and every argument is stored as given. */
  function NewEntryInput<E>(effective: Effective, sourceKey: string, entry: E,
                            lines: seq<LineInput>, typeName: string): (r: EntryInput<E>)
    ensures r.entryType == GetType(typeName)
    ensures r.effective == effective && r.sourceKey == sourceKey && r.entry == entry
    ensures r.lines == lines
  {
    EntryInput(effective, sourceKey, entry, GetType(typeName), lines)
  }

  /** The request the plugin hands to the host. */
  datatype RequestInput<B> = RequestInput(domain: string, endpoint: string, httpMethod: string,
                                          parameters: seq<(string, string)>,
                                          headers: map<string, string>, body: Option<B>,
                                          responseType: string)

  /** `RequestBuilder<B>`: a by-value builder, each step returning the updated builder. */
  datatype RequestBuilder<B> = RequestBuilder(domain: string, endpoint: string, httpMethod: string,
                                              parameters: seq<(string, string)>,
                                              headers: map<string, string>, body: Option<B>,
                                              responseType: string)
  {
    /** `add_headers`: the whole header map is replaced, not merged; nothing else changes. */
    function AddHeaders(headers: map<string, string>): (r: RequestBuilder<B>)
      ensures r.headers == headers
      ensures r.(headers := this.headers) == this
    {
      this.(headers := headers)
    }

    /** `add_parameters`: the whole parameter list is replaced; nothing else changes. */
    function AddParameters(parameters: seq<(string, string)>): (r: RequestBuilder<B>)
      ensures r.parameters == parameters
      ensures r.(parameters := this.parameters) == this
    {
      this.(parameters := parameters)
    }

    /** `add_body`: the body is set; the step never fails. */
    function AddBody(body: B): (r: Result<RequestBuilder<B>, string>)
      ensures r.Ok? && r.value.body == Some(body)
      ensures r.Ok? ==> r.value.(body := this.body) == this
    {
      Ok(this.(body := Some(body)))
    }

    /** `build`: every field is carried unchanged into the request. */
    function Build(): (r: RequestInput<B>)
      ensures r.domain == domain && r.endpoint == endpoint && r.httpMethod == httpMethod
      ensures r.parameters == parameters && r.headers == headers && r.body == body
      ensures r.responseType == responseType
    {
      RequestInput(domain, endpoint, httpMethod, parameters, headers, body, responseType)
    }
  }

  /** `RequestBuilder::new`: the path becomes the endpoint; no parameters, headers or body. */
  function NewRequestBuilder<B>(domain: string, path: string, httpMethod: string,
                                responseType: string): (r: RequestBuilder<B>)
    ensures r.domain == domain && r.endpoint == path && r.httpMethod == httpMethod
    ensures r.responseType == responseType
    ensures r.parameters == [] && r.headers == map[] && r.body == None
  {
    RequestBuilder(domain, path, httpMethod, [], map[], None, responseType)
  }

  /** A request built by the full chain carries exactly what each step supplied, whatever the
      order of the steps, and a later step of the same kind overrides an earlier one. */
  lemma BuiltRequest<B>(domain: string, path: string, httpMethod: string, responseType: string,
                        headers: map<string, string>, parameters: seq<(string, string)>,
                        body: B, earlier: map<string, string>)
    ensures var b := NewRequestBuilder<B>(domain, path, httpMethod, responseType);
            && b.AddHeaders(earlier).AddHeaders(headers).AddParameters(parameters).AddBody(body).value.Build()
               == RequestInput(domain, path, httpMethod, parameters, headers, Some(body), responseType)
            && b.AddParameters(parameters).AddHeaders(headers)
               == b.AddHeaders(headers).AddParameters(parameters)
  {
  }
}
