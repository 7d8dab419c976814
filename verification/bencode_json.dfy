/**
 The conversion of a decoded bencode value to JSON (`src/bencode/json.rs`):
 byte strings must be UTF-8 text, lists become arrays element by element,
 dicts become objects in which a later repeated key overwrites an earlier
 one, and the first failure anywhere aborts the whole conversion.
 */
module BencodeJson {

  import opened Base
  import opened Bytes
  import opened Bencode
  import opened Assoc

  /** A JSON value. Numbers keep their integer value. */
  datatype Json =
    | JString(s: Text)
    | JArray(items: seq<Json>)
    | JObject(fields: map<Text, Json>)
    | JNumber(n: int)

  datatype JsonError =
    | DictKeyDecodeError(key: Text)
    | StringDecodeError(bytes: Text)

  /** `to_json_val`. */
  function ToJsonVal(o: Object): (r: Result<Json, JsonError>)
    ensures o.BBytes? ==> (r.Ok? <==> ValidUtf8(o.bytes))
    ensures o.BBytes? && r.Ok? ==> r.value == JString(o.bytes)
    ensures o.BBytes? && r.Err? ==> r.error == StringDecodeError(o.bytes)
    ensures o.Number? ==> r == Ok(JNumber(o.n))
    ensures o.List? && r.Ok? ==> r.value.JArray? && |r.value.items| == |o.items|
    ensures o.Dict? && r.Ok? ==> r.value.JObject? && r.value.fields.Keys == Keys(o.pairs)
    decreases o
  {
    match o
    case List(items) =>
      var converted :- ListToJson(items);
      Ok(JArray(converted))
    case Dict(pairs) =>
      var converted :- PairsToJson(pairs);
      LastWinsKeepsLast(converted);
      assert Keys(converted) == Keys(pairs) by {
        forall k | k in Keys(pairs) ensures k in Keys(converted) {
          var i :| 0 <= i < |pairs| && pairs[i].0 == k;
          assert converted[i].0 == k;
        }
      }
      Ok(JObject(LastWins(converted)))
    case BBytes(b) =>
      if ValidUtf8(b) then Ok(JString(b)) else Err(StringDecodeError(b))
    case Number(n) => Ok(JNumber(n))
  }

  /** Element `i` is the first whose conversion fails. */
  predicate FirstFailing(items: seq<Object>, i: nat)
  {
    i < |items| && ToJsonVal(items[i]).Err?
    && forall j :: 0 <= j < i ==> ToJsonVal(items[j]).Ok?
  }

  /** The list loop: every element converted in order, or the first element's error. */
  function ListToJson(items: seq<Object>): (r: Result<seq<Json>, JsonError>)
    ensures r.Ok? <==> forall i :: 0 <= i < |items| ==> ToJsonVal(items[i]).Ok?
    ensures r.Ok? ==> |r.value| == |items|
    ensures r.Ok? ==> forall i :: 0 <= i < |items| ==> ToJsonVal(items[i]) == Ok(r.value[i])
    ensures r.Err? ==> exists i: nat :: FirstFailing(items, i) && r.error == ToJsonVal(items[i]).error
    decreases items
  {
    if items == [] then Ok([])
    else
      var head :- ToJsonVal(items[0]);
      var tail := ListToJson(items[1..]);
      if tail.Err? then
        var i: nat :| FirstFailing(items[1..], i) && tail.error == ToJsonVal(items[1..][i]).error;
        assert FirstFailing(items, i + 1);
        Err(tail.error)
      else
        assert forall i :: 1 <= i < |items| ==> items[i] == items[1..][i - 1];
        Ok([head] + tail.value)
  }

  /** Pair `i` is the first whose key is not UTF-8 or whose value fails to convert. */
  predicate FirstBadPair(pairs: seq<(Text, Object)>, i: nat)
  {
    i < |pairs| && !PairConverts(pairs[i])
    && forall j :: 0 <= j < i ==> PairConverts(pairs[j])
  }

  predicate PairConverts(p: (Text, Object))
    decreases p, 0
  {
    assert p.1 < p;
    ValidUtf8(p.0) && ToJsonVal(p.1).Ok?
  }

  /** `q` is what pair `p` converts to: the same key and the converted value. */
  predicate ConvertedPair(p: (Text, Object), q: (Text, Json))
    decreases p
  {
    assert p.1 < p;
    q.0 == p.0 && ToJsonVal(p.1) == Ok(q.1)
  }

  /** The error a bad pair raises: its key is checked before its value is converted. */
  function PairError(p: (Text, Object)): JsonError
    requires !PairConverts(p)
    decreases p, 1
  {
    assert p.1 < p;
    if !ValidUtf8(p.0) then DictKeyDecodeError(p.0) else ToJsonVal(p.1).error
  }

  /**
   The dict loop: each key checked and each value converted, in wire
   order; the pairs to insert, or the first pair's error.
   */
  function PairsToJson(pairs: seq<(Text, Object)>): (r: Result<seq<(Text, Json)>, JsonError>)
    ensures r.Ok? <==> forall i :: 0 <= i < |pairs| ==> PairConverts(pairs[i])
    ensures r.Ok? ==> |r.value| == |pairs|
    ensures r.Ok? ==> forall i :: 0 <= i < |pairs| ==> ConvertedPair(pairs[i], r.value[i])
    ensures r.Err? ==> exists i: nat :: FirstBadPair(pairs, i) && r.error == PairError(pairs[i])
    decreases pairs
  {
    if pairs == [] then Ok([])
    else
      var p := pairs[0];
      assert p.1 < p;
      if !ValidUtf8(p.0) then
        assert FirstBadPair(pairs, 0);
        Err(DictKeyDecodeError(p.0))
      else
        var v := ToJsonVal(p.1);
        if v.Err? then
          assert FirstBadPair(pairs, 0);
          Err(v.error)
        else
          var tail := PairsToJson(pairs[1..]);
          if tail.Err? then
            var i: nat :| FirstBadPair(pairs[1..], i) && tail.error == PairError(pairs[1..][i]);
            assert FirstBadPair(pairs, i + 1);
            Err(tail.error)
          else
            assert forall i :: 1 <= i < |pairs| ==> pairs[i] == pairs[1..][i - 1];
            Ok([(p.0, v.value)] + tail.value)
  }

  /**
   A list converts to an array of the same length, element by element in
   order, or fails with the error of its first element that fails.
   */
  lemma ListConversion(items: seq<Object>)
    ensures ToJsonVal(List(items)).Ok? <==> forall i :: 0 <= i < |items| ==> ToJsonVal(items[i]).Ok?
    ensures ToJsonVal(List(items)).Ok? ==> forall i :: 0 <= i < |items| ==>
      ToJsonVal(items[i]) == Ok(ToJsonVal(List(items)).value.items[i])
    ensures ToJsonVal(List(items)).Err? ==>
      exists i: nat :: FirstFailing(items, i) && ToJsonVal(List(items)).error == ToJsonVal(items[i]).error
  {
    var converted := ListToJson(items);
    if converted.Ok? {
      assert ToJsonVal(List(items)) == Ok(JArray(converted.value));
    }
  }

  /**
   A dict converts to an object with exactly its keys, each holding the
   converted value of its last occurrence; otherwise the conversion fails
   with the error of the first pair whose key is not UTF-8 or whose value
   fails.
   */
  lemma DictConversion(pairs: seq<(Text, Object)>)
    ensures ToJsonVal(Dict(pairs)).Ok? <==> forall i :: 0 <= i < |pairs| ==> PairConverts(pairs[i])
    ensures ToJsonVal(Dict(pairs)).Ok? ==> ToJsonVal(Dict(pairs)).value.fields.Keys == Keys(pairs)
    ensures ToJsonVal(Dict(pairs)).Ok? ==> forall i :: 0 <= i < |pairs| && IsLastOfKey(pairs, i) ==>
      ToJsonVal(pairs[i].1) == Ok(ToJsonVal(Dict(pairs)).value.fields[pairs[i].0])
    ensures ToJsonVal(Dict(pairs)).Err? ==>
      exists i: nat :: FirstBadPair(pairs, i) && ToJsonVal(Dict(pairs)).error == PairError(pairs[i])
  {
    var converted := PairsToJson(pairs);
    if converted.Ok? {
      var c := converted.value;
      LastWinsKeepsLast(c);
      assert ToJsonVal(Dict(pairs)) == Ok(JObject(LastWins(c)));
      forall i | 0 <= i < |pairs| && IsLastOfKey(pairs, i)
        ensures ToJsonVal(pairs[i].1) == Ok(LastWins(c)[pairs[i].0])
      {
        assert ConvertedPair(pairs[i], c[i]);
        assert IsLastOfKey(c, i);
      }
    }
  }

  /** The documented example: a list holding the bytes of `foobar` gives an array of that string. */
  lemma FoobarExample()
    ensures ToJsonVal(List([BBytes(FOOBAR)])) == Ok(JArray([JString(FOOBAR)]))
  {
    AsciiIsValidUtf8(FOOBAR);
    var items := [BBytes(FOOBAR)];
    assert ListToJson(items[1..]) == Ok([]);
    assert ToJsonVal(items[0]) == Ok(JString(FOOBAR));
    assert [JString(FOOBAR)] + [] == [JString(FOOBAR)];
    assert ListToJson(items) == Ok([JString(FOOBAR)]);
  }

  const FOOBAR: Text := [102, 111, 111, 98, 97, 114] // "foobar"
}
