/**
 The `info` op (`src/nrepl/ops.rs`): the request, the availability check
 made before anything is sent, and how the last response is read into a
 namespace or a symbol description with a composed doc string.
 */
module NreplInfo {

  import opened Base
  import opened Bytes
  import opened Bencode
  import opened Nrepl
  import opened Config
  import opened Assoc
  import opened NreplOps

  const INFO: Text := [105, 110, 102, 111] // "info"
  const SYMBOL: Text := [115, 121, 109, 98, 111, 108] // "symbol"
  const NS: Text := [110, 115] // "ns"
  const LINE: Text := [108, 105, 110, 101] // "line"
  const COLUMN: Text := [99, 111, 108, 117, 109, 110] // "column"
  const FILE: Text := [102, 105, 108, 101] // "file"
  const RESOURCE: Text := [114, 101, 115, 111, 117, 114, 99, 101] // "resource"
  const DOC: Text := [100, 111, 99] // "doc"
  const NAME: Text := [110, 97, 109, 101] // "name"
  const ARGLISTS: Text := [97, 114, 103, 108, 105, 115, 116, 115, 45, 115, 116, 114] // "arglists-str"
  const MACRO: Text := [109, 97, 99, 114, 111] // "macro"
  const SPEC: Text := [115, 112, 101, 99] // "spec"

  const SLASH: byte := 47
  const SPACE: byte := 32
  const OPEN_PAREN: byte := 40
  const CLOSE_PAREN: byte := 41

  /** `InfoResponse`. */
  datatype InfoResponse = InfoResponse(line: int, col: Option<int>, file: Text, resource: Text, doc: Text)

  /** `InfoResponseType`. */
  datatype InfoKind = Ns(resp: InfoResponse) | Symbol(resp: InfoResponse)

  /** The request of `Info::new(session, ns, symbol)`. */
  function InfoOp(session: Session, ns: Text, symbol: Text): (r: Op)
    ensures r.name == INFO && Keys(r.args) == {SYMBOL, NS, SESSION}
    ensures (SYMBOL, symbol) in r.args && (NS, ns) in r.args && (SESSION, Id(session)) in r.args
  {
    var args := [(SYMBOL, symbol), (NS, ns), (SESSION, Id(session))];
    assert Keys(args) == {SYMBOL, NS, SESSION} by {
      assert args[0].0 == SYMBOL && args[1].0 == NS && args[2].0 == SESSION;
    }
    Op(INFO, args)
  }

  /** `get_int_bencode`: an absent field is `None`, a present one must be a number. */
  function GetInt(resp: Resp, k: Text): (r: Result<Option<int>, OpError>)
    ensures r == Ok(None) <==> k !in resp
    ensures r.Ok? && r.value.Some? <==> k in resp && resp[k].Number?
    ensures r.Ok? && r.value.Some? ==> resp[k] == Number(r.value.value)
  {
    if k in resp then
      var n :- TryIntoInt(resp[k]);
      Ok(Some(n))
    else Ok(None)
  }

  /** `get_str_bencode`: an absent field is `None`, a present one must be a UTF-8 string. */
  function GetStr(resp: Resp, k: Text): (r: Result<Option<Text>, OpError>)
    ensures r == Ok(None) <==> k !in resp
    ensures r.Ok? && r.value.Some? <==> k in resp && IsString(resp[k])
    ensures r.Ok? && r.value.Some? ==> resp[k] == BBytes(r.value.value)
  {
    if k in resp then
      var s :- TryIntoString(resp[k]);
      Ok(Some(s))
    else Ok(None)
  }

  /** `get_str_list_bencode`: an absent field is `None`, a present one must be a list of strings. */
  function GetStrList(resp: Resp, k: Text): (r: Result<Option<seq<Text>>, OpError>)
    ensures r == Ok(None) <==> k !in resp
    ensures r.Ok? && r.value.Some? ==> k in resp && TryIntoStrVec(resp[k]) == Ok(r.value.value)
    ensures k in resp && TryIntoStrVec(resp[k]).Ok? ==> r.Ok?
  {
    if k in resp then
      var l :- TryIntoStrVec(resp[k]);
      Ok(Some(l))
    else Ok(None)
  }

  /** The values that are present, in order (`flat_map` over options). */
  function Present(xs: seq<Option<Text>>): (r: seq<Text>)
    ensures |r| <= |xs|
    ensures forall t :: t in r <==> Some(t) in xs
  {
    if xs == [] then []
    else
      var rest := Present(xs[1..]);
      assert forall t :: Some(t) in xs <==> xs[0] == Some(t) || Some(t) in xs[1..] by {
        assert xs == [xs[0]] + xs[1..];
      }
      if xs[0].Some? then [xs[0].value] + rest else rest
  }

  /** The non-empty strings, in order. */
  function NonEmpty(parts: seq<Text>): (r: seq<Text>)
    ensures |r| <= |parts|
    ensures forall t :: t in r <==> t in parts && t != []
  {
    if parts == [] then []
    else
      var rest := NonEmpty(parts[1..]);
      assert forall t :: t in parts <==> t == parts[0] || t in parts[1..] by {
        assert parts == [parts[0]] + parts[1..];
      }
      if parts[0] != [] then [parts[0]] + rest else rest
  }

  /** The doc of a namespace: its name and docstring, those present, one per line. */
  function NsDoc(ns: Option<Text>, doc: Option<Text>): Text {
    Join(Present([ns, doc]), [NEWLINE])
  }

  function Parenthesize(s: Text): (r: Text)
    ensures |r| == |s| + 2 && r[0] == OPEN_PAREN && r[|r| - 1] == CLOSE_PAREN
    ensures r[1..|r| - 1] == s
  {
    [OPEN_PAREN] + s + [CLOSE_PAREN]
  }

  /** Each line of the argument lists in parentheses; no argument lists read as one empty line. */
  function WrapLines(arglists: Option<Text>): (r: Text)
    ensures r != []
  {
    var lines := Split(if arglists.Some? then arglists.value else [], NEWLINE);
    var wrapped := seq(|lines|, i requires 0 <= i < |lines| => Parenthesize(lines[i]));
    JoinNonEmpty(wrapped, [NEWLINE]);
    Join(wrapped, [NEWLINE])
  }

  /** Joining at least one non-empty piece gives a non-empty string. */
  lemma {:induction false} JoinNonEmpty(parts: seq<Text>, sep: Text)
    requires |parts| >= 1 && parts[0] != []
    ensures Join(parts, sep) != []
  {
    if |parts| > 1 {
      assert Join(parts, sep) == parts[0] + sep + Join(parts[1..], sep);
    }
  }

  /** The doc of a symbol, one component per line, empty components left out. */
  function SymbolDoc(isMacro: bool, ns: Option<Text>, name: Option<Text>, arglists: Option<Text>,
                     doc: Option<Text>, spec: Option<Text>): Text
  {
    var components := [
      if isMacro then MACRO else [],
      Join(Present([ns, name]), [SLASH]),
      WrapLines(arglists),
      if doc.Some? then doc.value else [],
      if spec.Some? then spec.value else []
    ];
    Join(NonEmpty(components), [NEWLINE])
  }

  /** The namespace shape: a `line` but no `column`, `name` or `arglists-str`. */
  predicate IsNsShape(resp: Resp) {
    LINE in resp && COLUMN !in resp && NAME !in resp && ARGLISTS !in resp
  }

  /** `line` and `column`, when present, are numbers. */
  predicate PositionShaped(resp: Resp) {
    (LINE in resp ==> resp[LINE].Number?) && (COLUMN in resp ==> resp[COLUMN].Number?)
  }

  /** The Java-class answer: `file` holds a list. */
  predicate FileIsList(resp: Resp) {
    FILE in resp && resp[FILE].List?
  }

  /** Every field read as a string is absent or a UTF-8 string, `spec` absent or a list of them. */
  predicate TextShaped(resp: Resp) {
    (DOC in resp ==> IsString(resp[DOC])) && (NAME in resp ==> IsString(resp[NAME]))
    && (ARGLISTS in resp ==> IsString(resp[ARGLISTS])) && (NS in resp ==> IsString(resp[NS]))
    && (MACRO in resp ==> IsString(resp[MACRO]))
    && (SPEC in resp ==> TryIntoStrVec(resp[SPEC]).Ok?)
  }

  /** The string a field holds, if any. */
  function Field(resp: Resp, k: Text): Option<Text> {
    if k in resp && resp[k].BBytes? then Some(resp[k].bytes) else None
  }

  /** The `spec` list joined by spaces, if present and well shaped. */
  function SpecField(resp: Resp): Option<Text> {
    if SPEC in resp && TryIntoStrVec(resp[SPEC]).Ok? then Some(Join(TryIntoStrVec(resp[SPEC]).value, [SPACE]))
    else None
  }

  /** The optional string fields of an answer, as read. */
  datatype Docs = Docs(doc: Option<Text>, name: Option<Text>, arglists: Option<Text>,
                       ns: Option<Text>, isMacro: bool, spec: Option<Text>)

  /**
   Reads `doc`, `name`, `arglists-str`, `ns`, `macro` and `spec` in that
   order; the first one of the wrong shape fails the call. Only the
   presence of `macro` matters; `spec` is joined by spaces.
   */
  function ReadDocs(resp: Resp): (r: Result<Docs, OpError>)
    ensures r.Ok? <==> TextShaped(resp)
    ensures r.Ok? ==> r.value == Docs(Field(resp, DOC), Field(resp, NAME), Field(resp, ARGLISTS),
                                      Field(resp, NS), MACRO in resp, SpecField(resp))
  {
    var doc :- GetStr(resp, DOC);
    var name :- GetStr(resp, NAME);
    var arglists :- GetStr(resp, ARGLISTS);
    var ns :- GetStr(resp, NS);
    var isMacro :- GetStr(resp, MACRO);
    var specList :- GetStrList(resp, SPEC);
    var spec := if specList.Some? then Some(Join(specList.value, [SPACE])) else None;
    Ok(Docs(doc, name, arglists, ns, isMacro.Some?, spec))
  }

  /**
   Decides between a namespace and a symbol: a namespace has a line and
   no column, name or argument lists; a symbol must have a line.
   */
  function Classify(line: Option<int>, column: Option<int>, file: Text, resource: Text, d: Docs)
    : (r: Result<InfoKind, OpError>)
    ensures r.Ok? <==> line.Some?
    ensures r.Err? ==> r.error == NoLinePanic
    ensures r.Ok? ==> r.value.resp.line == line.value && r.value.resp.col == column
    ensures r.Ok? ==> r.value.resp.file == file && r.value.resp.resource == resource
    ensures r.Ok? ==> (r.value.Ns? <==> column.None? && d.name.None? && d.arglists.None?)
    ensures r.Ok? && r.value.Ns? ==> r.value.resp.doc == NsDoc(d.ns, d.doc)
    ensures r.Ok? && r.value.Symbol? ==>
      r.value.resp.doc == SymbolDoc(d.isMacro, d.ns, d.name, d.arglists, d.doc, d.spec)
  {
    if line.Some? && column.None? && d.name.None? && d.arglists.None? then
      Ok(Ns(InfoResponse(line.value, column, file, resource, NsDoc(d.ns, d.doc))))
    else if line.None? then Err(NoLinePanic)
    else
      var docstr := SymbolDoc(d.isMacro, d.ns, d.name, d.arglists, d.doc, d.spec);
      Ok(Symbol(InfoResponse(line.value, column, file, resource, docstr)))
  }

  /**
   The reading of the last response in `Info::send`. `line` and `column`
   are read first; a list under `file` means a Java class and no answer;
   `file` and `resource` are required; the rest decides the kind of
   answer.
   */
  function InfoFromResp(resp: Resp): (r: Result<Option<InfoKind>, OpError>)
    ensures r == Ok(None) <==> PositionShaped(resp) && FileIsList(resp)
    ensures PositionShaped(resp) && FILE !in resp ==> r == Err(FieldNotFound(INFO, FILE))
    ensures PositionShaped(resp) && FILE in resp && IsString(resp[FILE]) && RESOURCE !in resp ==>
      r == Err(FieldNotFound(INFO, RESOURCE))
    ensures r.Ok? && r.value.Some? ==> PositionShaped(resp) && TextShaped(resp)
    ensures r.Ok? && r.value.Some? ==>
      FILE in resp && resp[FILE] == BBytes(r.value.value.resp.file)
      && RESOURCE in resp && resp[RESOURCE] == BBytes(r.value.value.resp.resource)
  {
    var line :- GetInt(resp, LINE);
    var column :- GetInt(resp, COLUMN);
    if FileIsList(resp) then Ok(None)
    else
      var file :- GetStr(resp, FILE);
      if file.None? then Err(FieldNotFound(INFO, FILE))
      else
        var resource :- GetStr(resp, RESOURCE);
        if resource.None? then Err(FieldNotFound(INFO, RESOURCE))
        else
          var docs :- ReadDocs(resp);
          var kind :- Classify(line, column, file.value, resource.value, docs);
          Ok(Some(kind))
  }

  /**
   `Info::send`: without `info` among the session's ops the call fails
   before anything is sent; otherwise the request is sent once and its
   outcome `status` is read. Returns the answer and the requests sent.
   */
  function InfoSend(session: Session, ns: Text, symbol: Text, status: Result<Status, NreplError>)
    : (r: (Result<Option<InfoKind>, OpError>, seq<Op>))
    ensures !IsOpAvailable(session, INFO) <==> r.0 == Err(InfoOpUnavailable) && r.1 == []
    ensures IsOpAvailable(session, INFO) ==> r.1 == [InfoOp(session, ns, symbol)]
    ensures IsOpAvailable(session, INFO) ==> r.0 == InfoFromStatus(status)
  {
    if !IsOpAvailable(session, INFO) then (Err(InfoOpUnavailable), [])
    else (InfoFromStatus(status), [InfoOp(session, ns, symbol)])
  }

  /**
   The outcome of the `info` exchange: on `Done` or `State` only the last
   response is read (none at all aborts on `unwrap`); `NoInfo` is no
   answer; any other status is `BadStatus`.
   */
  function InfoFromStatus(status: Result<Status, NreplError>): (r: Result<Option<InfoKind>, OpError>)
    ensures status.Err? ==> r == Err(Exchange(status.error))
    ensures status.Ok? && status.value.NoInfo? ==> r == Ok(None)
    ensures status.Ok? && status.value.Other? ==> r == Err(BadStatus(status.value))
    ensures status.Ok? && (status.value.Done? || status.value.State?) && status.value.resps == [] ==>
      r == Err(NoResponsePanic)
    ensures r != Err(InfoOpUnavailable)
  {
    if status.Err? then Err(Exchange(status.error))
    else
      match status.value
      case Done(resps) => if resps == [] then Err(NoResponsePanic) else InfoFromResp(resps[|resps| - 1])
      case State(resps) => if resps == [] then Err(NoResponsePanic) else InfoFromResp(resps[|resps| - 1])
      case NoInfo(_) => Ok(None)
      case Other(_, _) => Err(BadStatus(status.value))
  }

  /** Only the last response matters: the ones before it, and `Done` against `State`, do not. */
  lemma InfoReadsOnlyLast(before: seq<Resp>, before': seq<Resp>, last: Resp)
    ensures InfoFromStatus(Ok(Done(before + [last]))) == InfoFromResp(last)
    ensures InfoFromStatus(Ok(State(before' + [last]))) == InfoFromResp(last)
  {
    assert (before + [last])[|before + [last]| - 1] == last;
    assert (before' + [last])[|before' + [last]| - 1] == last;
  }

  /**
   A successful answer is a namespace exactly when the response has the
   namespace shape; its position, file and doc come from the response.
   */
  lemma InfoKindOfResp(resp: Resp)
    requires InfoFromResp(resp).Ok? && InfoFromResp(resp).value.Some?
    ensures var k := InfoFromResp(resp).value.value;
      && (k.Ns? <==> IsNsShape(resp))
      && LINE in resp && resp[LINE] == Number(k.resp.line)
      && (COLUMN in resp <==> k.resp.col.Some?)
      && (k.resp.col.Some? ==> resp[COLUMN] == Number(k.resp.col.value))
      && (k.Ns? ==> k.resp.doc == NsDoc(Field(resp, NS), Field(resp, DOC)))
      && (k.Symbol? ==> k.resp.doc == SymbolDoc(MACRO in resp, Field(resp, NS), Field(resp, NAME),
                                                 Field(resp, ARGLISTS), Field(resp, DOC), SpecField(resp)))
  {
    var line := GetInt(resp, LINE);
    var column := GetInt(resp, COLUMN);
    var docs := ReadDocs(resp);
    var file := GetStr(resp, FILE);
    var resource := GetStr(resp, RESOURCE);
    var kind := Classify(line.value, column.value, file.value.value, resource.value.value, docs.value);
    assert InfoFromResp(resp) == Ok(Some(kind.value));
  }

  /** A symbol answer with no `line` aborts on its `unwrap`. */
  lemma SymbolNeedsLine(resp: Resp)
    requires PositionShaped(resp) && TextShaped(resp) && !FileIsList(resp)
    requires FILE in resp && IsString(resp[FILE]) && RESOURCE in resp && IsString(resp[RESOURCE])
    requires LINE !in resp
    ensures InfoFromResp(resp) == Err(NoLinePanic)
  {
    var docs := ReadDocs(resp);
    assert Classify(None, GetInt(resp, COLUMN).value, resp[FILE].bytes, resp[RESOURCE].bytes, docs.value)
      == Err(NoLinePanic);
  }

  /** A namespace's doc: both lines when both are present, else the one present, else empty. */
  lemma NsDocLines(ns: Text, doc: Text)
    ensures NsDoc(Some(ns), Some(doc)) == ns + [NEWLINE] + doc
    ensures NsDoc(Some(ns), None) == ns
    ensures NsDoc(None, Some(doc)) == doc
    ensures NsDoc(None, None) == []
  {
    var absent: Option<Text> := None;
    assert Present([absent]) == [] by {
      assert [absent][1..] == [];
    }
    assert Present([Some(doc)]) == [doc] by {
      assert [Some(doc)][1..] == [];
    }
    assert Present([Some(ns), Some(doc)]) == [ns, doc] by {
      assert [Some(ns), Some(doc)][1..] == [Some(doc)];
    }
    assert Present([Some(ns), absent]) == [ns] by {
      assert [Some(ns), absent][1..] == [absent];
    }
    assert Present([absent, Some(doc)]) == [doc] by {
      assert [absent, Some(doc)][1..] == [Some(doc)];
    }
    assert NsDoc(absent, Some(doc)) == Join([doc], [NEWLINE]);
    assert Present([absent, absent]) == [] by {
      assert [absent, absent][1..] == [absent];
    }
  }

  /** Absent argument lists still give the empty parameter line `()`. */
  lemma WrapLinesAbsent()
    ensures WrapLines(None) == [OPEN_PAREN, CLOSE_PAREN]
  {
    var empty: Text := [];
    var lines := Split(empty, NEWLINE);
    assert lines == [empty];
    var wrapped := seq(|lines|, i requires 0 <= i < |lines| => Parenthesize(lines[i]));
    assert Parenthesize(empty) == [OPEN_PAREN, CLOSE_PAREN];
    assert |wrapped| == 1 && wrapped[0] == Parenthesize(empty);
    assert wrapped == [[OPEN_PAREN, CLOSE_PAREN]];
  }

  /** The lines of the wrapped argument lists are the argument lists' lines, each parenthesized. */
  lemma WrapLinesSplit(arglists: Text)
    ensures var lines := Split(arglists, NEWLINE);
      Split(WrapLines(Some(arglists)), NEWLINE)
        == seq(|lines|, i requires 0 <= i < |lines| => Parenthesize(lines[i]))
  {
    var lines := Split(arglists, NEWLINE);
    var wrapped := seq(|lines|, i requires 0 <= i < |lines| => Parenthesize(lines[i]));
    forall k | 0 <= k < |wrapped| ensures NEWLINE !in wrapped[k] {
      assert wrapped[k] == [OPEN_PAREN] + lines[k] + [CLOSE_PAREN];
    }
    SplitJoin(wrapped, NEWLINE);
  }

  /** A symbol's doc always has its parameter line, so it is never empty. */
  lemma SymbolDocNeverEmpty(isMacro: bool, ns: Option<Text>, name: Option<Text>, arglists: Option<Text>,
                            doc: Option<Text>, spec: Option<Text>)
    ensures SymbolDoc(isMacro, ns, name, arglists, doc, spec) != []
  {
    var components := [
      if isMacro then MACRO else [],
      Join(Present([ns, name]), [SLASH]),
      WrapLines(arglists),
      if doc.Some? then doc.value else [],
      if spec.Some? then spec.value else []
    ];
    var kept := NonEmpty(components);
    assert components[2] in kept;
    NonEmptyJoin(kept, [NEWLINE]);
  }

  /** Joining pieces among which one is non-empty gives a non-empty string. */
  lemma {:induction false} NonEmptyJoin(parts: seq<Text>, sep: Text)
    requires exists k :: 0 <= k < |parts| && parts[k] != []
    ensures Join(parts, sep) != []
    decreases |parts|
  {
    if |parts| > 1 && parts[0] == [] {
      var k :| 0 <= k < |parts| && parts[k] != [];
      assert parts[1..][k - 1] != [];
      NonEmptyJoin(parts[1..], sep);
    }
  }

  /** A symbol with nothing but a position has the doc `()`. */
  lemma BareSymbolDoc()
    ensures SymbolDoc(false, None, None, None, None, None) == [OPEN_PAREN, CLOSE_PAREN]
  {
    WrapLinesAbsent();
    var empty: Text := [];
    var absent: Option<Text> := None;
    var components: seq<Text> := [empty, Join(Present([absent, absent]), [SLASH]), WrapLines(absent), empty, empty];
    assert Present([absent, absent]) == [] by {
      assert [absent, absent][1..] == [absent];
    }
    assert components == [empty, empty, [OPEN_PAREN, CLOSE_PAREN], empty, empty];
    assert NonEmpty(components) == [[OPEN_PAREN, CLOSE_PAREN]] by {
      assert |components[4..][1..]| == 0;
      assert |NonEmpty(components[4..])| == 0;
      assert components[3..][1..] == components[4..];
      assert |NonEmpty(components[3..])| == 0;
      assert components[2..][1..] == components[3..];
      assert NonEmpty(components[2..]) == [[OPEN_PAREN, CLOSE_PAREN]];
      assert components[1..][1..] == components[2..];
      assert NonEmpty(components[1..]) == [[OPEN_PAREN, CLOSE_PAREN]];
    }
  }

  /** Every piece is non-empty, so none is dropped. */
  lemma {:induction false} NonEmptyKeepsAll(parts: seq<Text>)
    requires forall k :: 0 <= k < |parts| ==> parts[k] != []
    ensures NonEmpty(parts) == parts
    decreases |parts|
  {
    if parts != [] {
      NonEmptyKeepsAll(parts[1..]);
      assert parts == [parts[0]] + parts[1..];
    }
  }

  /**
   With every component present, non-empty and on one line, the doc of a
   macro reads line by line as: `macro`, the qualified name, the
   parenthesized argument list, the docstring and the spec.
   */
  lemma SymbolDocLines(ns: Text, name: Text, arglists: Text, doc: Text, spec: Text)
    requires doc != [] && spec != []
    requires NEWLINE !in ns && NEWLINE !in name && NEWLINE !in arglists
    requires NEWLINE !in doc && NEWLINE !in spec
    ensures Split(SymbolDoc(true, Some(ns), Some(name), Some(arglists), Some(doc), Some(spec)), NEWLINE)
      == [MACRO, ns + [SLASH] + name, Parenthesize(arglists), doc, spec]
  {
    var qualified := ns + [SLASH] + name;
    assert Present([Some(ns), Some(name)]) == [ns, name] by {
      assert [Some(ns), Some(name)][1..] == [Some(name)];
      assert [Some(name)][1..] == [];
    }
    assert Join([ns, name], [SLASH]) == qualified by {
      assert [ns, name][1..] == [name];
    }
    assert WrapLines(Some(arglists)) == Parenthesize(arglists) by {
      assert Split(arglists, NEWLINE) == [arglists];
      var wrapped := seq(1, i requires 0 <= i < 1 => Parenthesize(arglists));
      assert wrapped == [Parenthesize(arglists)];
    }
    var components := [MACRO, qualified, Parenthesize(arglists), doc, spec];
    NonEmptyKeepsAll(components);
    forall k | 0 <= k < |components| ensures NEWLINE !in components[k] {
      if k == 1 {
        assert qualified == ns + [SLASH] + name;
      } else if k == 2 {
        assert Parenthesize(arglists) == [OPEN_PAREN] + arglists + [CLOSE_PAREN];
      }
    }
    SplitJoin(components, NEWLINE);
  }
}
