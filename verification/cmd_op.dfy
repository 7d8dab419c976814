/**
 The `op` command (`src/cmd/op.rs`): reading `key=value` op arguments and
 the port from the command line, and rendering each response field as
 JSON for printing.
 */
module CmdOp {

  import opened Base
  import opened Bytes
  import opened Decimal
  import opened Bencode
  import opened Nrepl
  import opened BencodeJson

  datatype OptsError =
      /** An op argument that is not one `key=value`, verbatim. */
    | BadOpArg(arg: Text)
      /** A port that is not a `u32`; the message text is not modelled. */
    | BadUserInput(port: Text)

  /** `Opts`: the op to send, its arguments in command-line order, and the port. */
  datatype Opts = Opts(op: Text, opArgs: seq<(Text, Text)>, port: nat)

  /**
   `parse_op_arg`: splits on `=` and accepts exactly two pieces, so an
   argument holds one `=` and either side may be empty.
   */
  function ParseOpArg(s: Text): (r: Option<(Text, Text)>)
    ensures r.Some? <==> Count(s, EQUALS) == 1
    ensures r.Some? ==> r.value.0 + [EQUALS] + r.value.1 == s
    ensures r.Some? ==> EQUALS !in r.value.0 && EQUALS !in r.value.1
  {
    var parts := Split(s, EQUALS);
    SplitCount(s, EQUALS);
    if |parts| == 2 then
      JoinSplit(s, EQUALS);
      assert Join(parts, [EQUALS]) == parts[0] + [EQUALS] + parts[1] by {
        assert parts[1..] == [parts[1]];
      }
      Some((parts[0], parts[1]))
    else None
  }

  /** Either side of the `=` may be empty; a second `=` or none at all is refused. */
  lemma ParseOpArgEdges()
    ensures ParseOpArg([97, 61]) == Some(([97], [])) // "a="
    ensures ParseOpArg([61, 98]) == Some(([], [98])) // "=b"
    ensures ParseOpArg([97, 61, 98, 61, 99]) == None // "a=b=c"
    ensures ParseOpArg([97, 98]) == None // "ab"
  {
    var a: Text := [97];
    var b: Text := [98];
    var empty: Text := [];
    assert [97, 61] == a + [EQUALS] + empty;
    ParseOpArgJoin(a, empty);
    assert [61, 98] == empty + [EQUALS] + b;
    ParseOpArgJoin(empty, b);
    CountTwo();
    CountNone();
  }

  /** A key and a value without `=`, joined by one `=`, parse back to themselves. */
  lemma ParseOpArgJoin(key: Text, value: Text)
    requires EQUALS !in key && EQUALS !in value
    ensures ParseOpArg(key + [EQUALS] + value) == Some((key, value))
  {
    SplitJoin([key, value], EQUALS);
    assert [key, value][1..] == [value];
    assert Join([key, value], [EQUALS]) == key + [EQUALS] + value;
  }

  lemma CountTwo()
    ensures Count([97, 61, 98, 61, 99], EQUALS) == 2
  {
    var s: Text := [97, 61, 98, 61, 99];
    assert s[1..] == [61, 98, 61, 99];
    assert s[1..][1..] == [98, 61, 99];
    assert s[1..][1..][1..] == [61, 99];
    assert s[1..][1..][1..][1..] == [99];
    assert s[1..][1..][1..][1..][1..] == [];
  }

  lemma CountNone()
    ensures Count([97, 98], EQUALS) == 0
  {
    var s: Text := [97, 98];
    assert s[1..] == [98];
    assert s[1..][1..] == [];
  }

  /**
   What folding the arguments gives: every pair, in order, when all of
   them parse; otherwise `BadOpArg` with the first one that does not.
   */
  predicate ArgsOutcome(args: seq<Text>, r: Result<seq<(Text, Text)>, OptsError>) {
    (r.Ok? <==> forall i :: 0 <= i < |args| ==> ParseOpArg(args[i]).Some?)
    && (r.Ok? ==> |r.value| == |args| && forall i :: 0 <= i < |args| ==> ParseOpArg(args[i]) == Some(r.value[i]))
    && (r.Err? ==> exists i :: 0 <= i < |args| && FirstBadArg(args, i) && r.error == BadOpArg(args[i]))
  }

  predicate FirstBadArg(args: seq<Text>, i: int) {
    0 <= i < |args| && ParseOpArg(args[i]).None?
    && forall j :: 0 <= j < i ==> ParseOpArg(args[j]).Some?
  }

  /** The outcome of the fold is determined by the arguments. */
  lemma OutcomeUnique(args: seq<Text>, a: Result<seq<(Text, Text)>, OptsError>,
                      b: Result<seq<(Text, Text)>, OptsError>)
    requires ArgsOutcome(args, a) && ArgsOutcome(args, b)
    ensures a == b
  {
    if a.Ok? {
      assert a.value == b.value;
    } else {
      var i :| FirstBadArg(args, i) && a.error == BadOpArg(args[i]);
      var j :| FirstBadArg(args, j) && b.error == BadOpArg(args[j]);
      assert FirstBadArg(args, i) && FirstBadArg(args, j);
      assert i == j;
    }
  }

  /** One step of the fold: an error is kept, otherwise the argument is parsed and appended. */
  function FoldStep(acc: Result<seq<(Text, Text)>, OptsError>, arg: Text): Result<seq<(Text, Text)>, OptsError>
  {
    if acc.Err? then acc
    else match ParseOpArg(arg)
      case Some(pair) => Ok(acc.value + [pair])
      case None => Err(BadOpArg(arg))
  }

  /** One step keeps the outcome of the arguments seen so far in step with one more argument. */
  lemma StepOutcome(seen: seq<Text>, arg: Text, acc: Result<seq<(Text, Text)>, OptsError>)
    requires ArgsOutcome(seen, acc)
    ensures ArgsOutcome(seen + [arg], FoldStep(acc, arg))
  {
    var all := seen + [arg];
    assert forall x :: 0 <= x < |seen| ==> all[x] == seen[x];
    if acc.Err? {
      var i :| 0 <= i < |seen| && FirstBadArg(seen, i) && acc.error == BadOpArg(seen[i]);
      assert FirstBadArg(all, i);
    } else if ParseOpArg(arg).None? {
      assert FirstBadArg(all, |seen|);
    }
  }

  /**
   The fold of `Opts::parse` over the op arguments: the accumulator starts
   as an empty list, each argument that parses is appended, and once an
   argument fails the error is carried through the rest unchanged.
   */
  method ParseOpArgs(args: seq<Text>) returns (r: Result<seq<(Text, Text)>, OptsError>)
    ensures ArgsOutcome(args, r)
  {
    r := Ok([]);
    var k := 0;
    while k < |args|
      invariant 0 <= k <= |args|
      invariant ArgsOutcome(args[..k], r)
    {
      StepOutcome(args[..k], args[k], r);
      assert args[..k] + [args[k]] == args[..k + 1];
      r := FoldStep(r, args[k]);
      k := k + 1;
    }
    assert args[..k] == args;
  }

  /**
   `Opts::parse` of `src/cmd/op.rs`: the port must parse as a `u32`, and
   is read before the op arguments are.
   */
  method ParseOpts(op: Text, port: Text, args: seq<Text>) returns (r: Result<Opts, OptsError>)
    ensures ParseU32(port).None? ==> r == Err(BadUserInput(port))
    ensures r.Ok? ==> r.value.op == op && Some(r.value.port) == ParseU32(port)
    ensures ParseU32(port).Some? ==>
      ArgsOutcome(args, if r.Ok? then Ok(r.value.opArgs) else Err(r.error))
  {
    var p := ParseU32(port);
    if p.None? {
      return Err(BadUserInput(port));
    }
    var parsed := ParseOpArgs(args);
    if parsed.Err? {
      return Err(parsed.error);
    }
    return Ok(Opts(op, parsed.value, p.value));
  }

  const BENCODE: Text := [66, 69, 78, 67, 79, 68, 69] // "BENCODE"
  const BENCODE_VALUE: Text := [66, 69, 78, 67, 79, 68, 69, 32, 86, 65, 76, 85, 69] // "BENCODE VALUE"

  /**
   Converting the bytes of a field with `from_utf8(..).unwrap()` aborts on
   invalid UTF-8; which field aborts first depends on the map's order.
   */
  datatype RenderError = Utf8Panic

  /** A list element as printed: its text, or `BENCODE` for anything but a byte string. */
  function ElementJson(e: Object): (r: Result<Json, RenderError>)
    ensures r.Ok? <==> !e.BBytes? || ValidUtf8(e.bytes)
    ensures r.Ok? ==> r.value.JString?
    ensures e.BBytes? && r.Ok? ==> r.value == JString(e.bytes)
    ensures !e.BBytes? ==> r == Ok(JString(BENCODE))
  {
    if e.BBytes? then
      if ValidUtf8(e.bytes) then Ok(JString(e.bytes)) else Err(Utf8Panic)
    else Ok(JString(BENCODE))
  }

  /** The elements of a list, each as printed; the first invalid byte string aborts. */
  function ElementsJson(items: seq<Object>): (r: Result<seq<Json>, RenderError>)
    ensures r.Ok? <==> forall i :: 0 <= i < |items| ==> ElementJson(items[i]).Ok?
    ensures r.Ok? ==> |r.value| == |items|
    ensures r.Ok? ==> forall i :: 0 <= i < |items| ==> ElementJson(items[i]) == Ok(r.value[i])
  {
    if items == [] then Ok([])
    else
      var head :- ElementJson(items[0]);
      var tail := ElementsJson(items[1..]);
      assert forall i :: 1 <= i < |items| ==> items[i] == items[1..][i - 1];
      if tail.Err? then Err(tail.error) else Ok([head] + tail.value)
  }

  /**
   A response field as `to_json_string` prints it: a byte string as text,
   a list as an array of texts, anything else as `BENCODE VALUE`.
   */
  function FieldJson(v: Object): (r: Result<Json, RenderError>)
    ensures v.BBytes? ==> (r.Ok? <==> ValidUtf8(v.bytes))
    ensures v.BBytes? && r.Ok? ==> r.value == JString(v.bytes)
    ensures v.List? && r.Ok? ==> r.value.JArray? && |r.value.items| == |v.items|
    ensures v.List? ==> (r.Ok? <==> forall i :: 0 <= i < |v.items| ==> ElementJson(v.items[i]).Ok?)
    ensures v.List? && r.Ok? ==> forall i :: 0 <= i < |v.items| ==> ElementJson(v.items[i]) == Ok(r.value.items[i])
    ensures v.Dict? || v.Number? ==> r == Ok(JString(BENCODE_VALUE))
  {
    match v
    case BBytes(b) => if ValidUtf8(b) then Ok(JString(b)) else Err(Utf8Panic)
    case List(items) =>
      var elements :- ElementsJson(items);
      Ok(JArray(elements))
    case _ => Ok(JString(BENCODE_VALUE))
  }

  /** Every field renders. */
  predicate FieldsRender(resp: Resp) {
    forall k :: k in resp ==> FieldJson(resp[k]).Ok?
  }

  /**
   The map `to_json_string` serializes: the same keys, each field rendered;
   it aborts when any field does not render. The JSON text itself is not
   modelled.
   */
  function ToJsonFields(resp: Resp): (r: Result<map<Text, Json>, RenderError>)
    ensures r.Ok? <==> FieldsRender(resp)
    ensures r.Ok? ==> r.value.Keys == resp.Keys
    ensures r.Ok? ==> forall k :: k in resp ==> FieldJson(resp[k]) == Ok(r.value[k])
  {
    if FieldsRender(resp) then
      Ok(map k | k in resp :: FieldJson(resp[k]).value)
    else Err(Utf8Panic)
  }

  /**
   Where both apply, the printed rendering agrees with `to_json_val`: for
   a byte string and for a list of byte strings.
   */
  lemma {:induction false} FieldJsonAgreesWithToJsonVal(v: Object)
    requires v.BBytes? || (v.List? && forall i :: 0 <= i < |v.items| ==> v.items[i].BBytes?)
    ensures FieldJson(v).Ok? <==> ToJsonVal(v).Ok?
    ensures FieldJson(v).Ok? ==> FieldJson(v).value == ToJsonVal(v).value
  {
    if v.List? {
      var items := v.items;
      ListConversion(items);
      var e := ElementsJson(items);
      assert e.Ok? <==> ListToJson(items).Ok?;
      if e.Ok? {
        assert e.value == ListToJson(items).value;
      }
    }
  }
}
