/**
 The requests the client builds and how it reads their answers
 (`src/nrepl/ops.rs`): `clone`, `ls-sessions`, `describe` and the `eval`
 behind `GetNsName`. Each interpreter is given the classified outcome of
 the exchange, `Result<Status, NreplError>`.
 */
module NreplOps {

  import opened Base
  import opened Bytes
  import opened Bencode
  import opened Nrepl
  import opened Config
  import opened Assoc

  const SESSION: Text := [115, 101, 115, 115, 105, 111, 110] // "session"
  const NEW_SESSION: Text := [110, 101, 119, 45, 115, 101, 115, 115, 105, 111, 110] // "new-session"
  const SESSIONS: Text := [115, 101, 115, 115, 105, 111, 110, 115] // "sessions"
  const VALUE: Text := [118, 97, 108, 117, 101] // "value"
  const OPS: Text := [111, 112, 115] // "ops"
  const CODE: Text := [99, 111, 100, 101] // "code"
  const VERBOSE: Text := [118, 101, 114, 98, 111, 115, 101, 63] // "verbose?"
  const TRUE: Text := [116, 114, 117, 101] // "true"
  const LS_SESSIONS: Text := [108, 115, 45, 115, 101, 115, 115, 105, 111, 110, 115] // "ls-sessions"
  const DESCRIBE: Text := [100, 101, 115, 99, 114, 105, 98, 101] // "describe"
  const EVAL: Text := [101, 118, 97, 108] // "eval"

  /** The failures of the op layer; the last three are `unwrap`s that abort. */
  datatype OpError =
    | Exchange(cause: NreplError)
    | NoSessionIdInResponse(op: Text)
    | NoSessionsInResponse(op: Text)
    | FieldNotFound(op: Text, field: Text)
    | BadStatus(status: Status)
    | DuplicatedOpsInResponse
    | InfoOpUnavailable
      /** A `try_into_*` shape check rejected a field's value. */
    | BadShape(found: Object)
      /** An op name offered by `describe` is not UTF-8. */
    | OpNameNotUtf8(name: Text)
    | NoResponsePanic
    | NoOpsPanic
    | NoLinePanic

  /** `try_into_string`: a byte string that is valid UTF-8. */
  function TryIntoString(o: Object): (r: Result<Text, OpError>)
    ensures r.Ok? <==> o.BBytes? && ValidUtf8(o.bytes)
    ensures r.Ok? ==> o == BBytes(r.value)
    ensures r.Err? ==> r.error == BadShape(o)
  {
    if o.BBytes? && ValidUtf8(o.bytes) then Ok(o.bytes) else Err(BadShape(o))
  }

  predicate IsString(o: Object) {
    o.BBytes? && ValidUtf8(o.bytes)
  }

  /** `try_into_str_vec`: a list whose elements are all UTF-8 byte strings. */
  function TryIntoStrVec(o: Object): (r: Result<seq<Text>, OpError>)
    ensures r.Ok? <==> o.List? && forall i :: 0 <= i < |o.items| ==> IsString(o.items[i])
    ensures r.Ok? ==> |r.value| == |o.items|
    ensures r.Ok? ==> forall i :: 0 <= i < |o.items| ==> o.items[i] == BBytes(r.value[i])
    ensures r.Err? ==> r.error == BadShape(o)
  {
    if o.List? && forall i :: 0 <= i < |o.items| ==> IsString(o.items[i]) then
      Ok(seq(|o.items|, i requires 0 <= i < |o.items| => o.items[i].bytes))
    else Err(BadShape(o))
  }

  /** `try_into_int`. */
  function TryIntoInt(o: Object): (r: Result<int, OpError>)
    ensures r.Ok? <==> o.Number?
    ensures r.Ok? ==> o == Number(r.value)
    ensures r.Err? ==> r.error == BadShape(o)
  {
    if o.Number? then Ok(o.n) else Err(BadShape(o))
  }

  /** The request of `CloneSession::new(session)`. */
  function CloneOp(session: Option<Text>): (r: Op)
    ensures r.name == CLONE
    ensures (SESSION in Keys(r.args)) <==> session.Some?
    ensures session.Some? ==> r.args == [(SESSION, session.value)]
    ensures session.None? ==> r.args == []
  {
    if session.Some? then
      var args := [(SESSION, session.value)];
      assert args[0].0 == SESSION;
      Op(CLONE, args)
    else Op(CLONE, [])
  }

  /** `CloneSession::new(None)` is sent as `d2:op5:clonee`. */
  lemma CloneRequestEncoding()
    ensures EncodeOp(CloneOp(None)) == [100, 50, 58, 111, 112, 53, 58, 99, 108, 111, 110, 101, 101]
  {
    CloneEncoding();
  }

  /** The request of `LsSessions`: no arguments. */
  function LsSessionsOp(): (r: Op)
    ensures r.name == LS_SESSIONS && Keys(r.args) == {}
  {
    Op(LS_SESSIONS, [])
  }

  /** The request of `Describe::new(verbose)`. */
  function DescribeOp(verbose: bool): (r: Op)
    ensures r.name == DESCRIBE
    ensures (VERBOSE in Keys(r.args)) <==> verbose
    ensures verbose ==> r.args == [(VERBOSE, TRUE)]
    ensures !verbose ==> r.args == []
  {
    if verbose then
      var args := [(VERBOSE, TRUE)];
      assert args[0].0 == VERBOSE;
      Op(DESCRIBE, args)
    else Op(DESCRIBE, [])
  }

  /**
   The request of `GetNsName`: an `eval` of `code` in the session. The
   Clojure form, which reads the namespace declaration of the source file,
   is given.
   */
  function GetNsNameOp(code: Text, session: Session): (r: Op)
    ensures r.name == EVAL && Keys(r.args) == {CODE, SESSION}
    ensures (CODE, code) in r.args && (SESSION, Id(session)) in r.args
  {
    var args := [(CODE, code), (SESSION, Id(session))];
    assert Keys(args) == {CODE, SESSION} by {
      assert args[0].0 == CODE && args[1].0 == SESSION;
    }
    Op(EVAL, args)
  }

  /** Response `i` is the first one holding `key`. */
  predicate FirstHolding(resps: seq<Resp>, key: Text, i: nat) {
    i < |resps| && key in resps[i] && forall j :: 0 <= j < i ==> key !in resps[j]
  }

  /** The first response holding `key`, if any. */
  function FirstWith(resps: seq<Resp>, key: Text): (r: Option<nat>)
    ensures r.Some? ==> FirstHolding(resps, key, r.value)
    ensures r.None? <==> forall j :: 0 <= j < |resps| ==> key !in resps[j]
  {
    if resps == [] then None
    else if key in resps[0] then Some(0)
    else match FirstWith(resps[1..], key)
      case None => None
      case Some(i) =>
        assert forall j :: 1 <= j < i + 1 ==> resps[j] == resps[1..][j - 1];
        Some(i + 1)
  }

  /**
   `CloneSession::send`: on `Done`, the `new-session` of the first response
   holding one; `NoSessionIdInResponse` when none does; any other status is
   `BadStatus`.
   */
  function CloneResult(status: Result<Status, NreplError>): (r: Result<Text, OpError>)
    ensures status.Err? ==> r == Err(Exchange(status.error))
    ensures status.Ok? && !status.value.Done? ==> r == Err(BadStatus(status.value))
    ensures r.Ok? ==> status.Ok? && status.value.Done?
    ensures r.Ok? ==> exists i: nat ::
      FirstHolding(status.value.resps, NEW_SESSION, i) && status.value.resps[i][NEW_SESSION] == BBytes(r.value)
    ensures forall i: nat :: status.Ok? && status.value.Done? && FirstHolding(status.value.resps, NEW_SESSION, i) ==>
      r == TryIntoString(status.value.resps[i][NEW_SESSION])
    ensures r == Err(NoSessionIdInResponse(CLONE)) <==>
      status.Ok? && status.value.Done?
      && forall j :: 0 <= j < |status.value.resps| ==> NEW_SESSION !in status.value.resps[j]
  {
    if status.Err? then Err(Exchange(status.error))
    else if !status.value.Done? then Err(BadStatus(status.value))
    else
      var resps := status.value.resps;
      match FirstWith(resps, NEW_SESSION)
      case None => Err(NoSessionIdInResponse(CLONE))
      case Some(i) => TryIntoString(resps[i][NEW_SESSION])
  }

  /**
   `LsSessions::send`: on `Done`, the `sessions` list of the first response
   holding one; `NoSessionsInResponse` when none does; any other status is
   `BadStatus`.
   */
  function LsSessionsResult(status: Result<Status, NreplError>): (r: Result<seq<Text>, OpError>)
    ensures status.Err? ==> r == Err(Exchange(status.error))
    ensures status.Ok? && !status.value.Done? ==> r == Err(BadStatus(status.value))
    ensures r.Ok? ==> status.Ok? && status.value.Done?
    ensures r.Ok? ==> exists i: nat ::
      FirstHolding(status.value.resps, SESSIONS, i) && TryIntoStrVec(status.value.resps[i][SESSIONS]) == Ok(r.value)
    ensures forall i: nat :: status.Ok? && status.value.Done? && FirstHolding(status.value.resps, SESSIONS, i) ==>
      r == TryIntoStrVec(status.value.resps[i][SESSIONS])
    ensures r == Err(NoSessionsInResponse(LS_SESSIONS)) <==>
      status.Ok? && status.value.Done?
      && forall j :: 0 <= j < |status.value.resps| ==> SESSIONS !in status.value.resps[j]
  {
    if status.Err? then Err(Exchange(status.error))
    else if !status.value.Done? then Err(BadStatus(status.value))
    else
      var resps := status.value.resps;
      match FirstWith(resps, SESSIONS)
      case None => Err(NoSessionsInResponse(LS_SESSIONS))
      case Some(i) => TryIntoStrVec(resps[i][SESSIONS])
  }

  /** Response `i` is the last one holding `key`. */
  predicate LastHolding(resps: seq<Resp>, key: Text, i: nat) {
    i < |resps| && key in resps[i] && forall j :: i < j < |resps| ==> key !in resps[j]
  }

  /** Every `value` in the responses is a UTF-8 string. */
  predicate ValuesAreStrings(resps: seq<Resp>) {
    forall j :: 0 <= j < |resps| ==> VALUE in resps[j] ==> IsString(resps[j][VALUE])
  }

  /** The loop of `GetNsName::send`: each `value` met replaces the one kept so far. */
  function ValueLoop(resps: seq<Resp>, kept: Option<Text>): (r: Result<Option<Text>, OpError>)
    ensures r.Ok? <==> ValuesAreStrings(resps)
    decreases |resps|
  {
    if resps == [] then Ok(kept)
    else if VALUE in resps[0] then
      var v := TryIntoString(resps[0][VALUE]);
      if v.Err? then Err(v.error)
      else
        var r := ValueLoop(resps[1..], Some(v.value));
        assert ValuesAreStrings(resps) <==> ValuesAreStrings(resps[1..]) by {
          assert forall j :: 1 <= j < |resps| ==> resps[j] == resps[1..][j - 1];
        }
        r
    else
      var r := ValueLoop(resps[1..], kept);
      assert ValuesAreStrings(resps) <==> ValuesAreStrings(resps[1..]) by {
        assert forall j :: 1 <= j < |resps| ==> resps[j] == resps[1..][j - 1];
      }
      r
  }

  /** Without any `value`, the loop ends with what it started with. */
  lemma {:induction false} ValueLoopNoValue(resps: seq<Resp>, kept: Option<Text>)
    requires forall j :: 0 <= j < |resps| ==> VALUE !in resps[j]
    ensures ValueLoop(resps, kept) == Ok(kept)
    decreases |resps|
  {
    if resps != [] {
      ValueLoopNoValue(resps[1..], kept);
    }
  }

  /** When the loop succeeds it ends with the last `value` of the responses. */
  lemma {:induction false} ValueLoopLastWins(resps: seq<Resp>, kept: Option<Text>, i: nat)
    requires LastHolding(resps, VALUE, i)
    requires ValueLoop(resps, kept).Ok?
    ensures ValueLoop(resps, kept) == Ok(Some(resps[i][VALUE].bytes))
    decreases |resps|
  {
    var tail := resps[1..];
    var kept' := if VALUE in resps[0] then Some(resps[0][VALUE].bytes) else kept;
    assert ValueLoop(resps, kept) == ValueLoop(tail, kept');
    if i == 0 {
      ValueLoopNoValue(tail, kept');
    } else {
      assert LastHolding(tail, VALUE, i - 1);
      ValueLoopLastWins(tail, kept', i - 1);
    }
  }

  /**
   `GetNsName::send`: on `Done`, the last `value` across the responses, or
   `None` when there is none; a `value` that is not a string fails the
   call; any other status is `BadStatus`.
   */
  function GetNsNameResult(status: Result<Status, NreplError>): (r: Result<Option<Text>, OpError>)
    ensures status.Err? ==> r == Err(Exchange(status.error))
    ensures status.Ok? && !status.value.Done? ==> r == Err(BadStatus(status.value))
    ensures status.Ok? && status.value.Done? ==>
      (r.Ok? <==> ValuesAreStrings(status.value.resps))
  {
    if status.Err? then Err(Exchange(status.error))
    else if !status.value.Done? then Err(BadStatus(status.value))
    else ValueLoop(status.value.resps, None)
  }

  /** `GetNsName` answers with the last `value` sent, or `None` when no response holds one. */
  lemma GetNsNameLastValue(resps: seq<Resp>)
    requires ValuesAreStrings(resps)
    ensures (forall j :: 0 <= j < |resps| ==> VALUE !in resps[j]) ==>
      GetNsNameResult(Ok(Done(resps))) == Ok(None)
    ensures forall i: nat :: LastHolding(resps, VALUE, i) ==>
      GetNsNameResult(Ok(Done(resps))) == Ok(Some(resps[i][VALUE].bytes))
  {
    if forall j :: 0 <= j < |resps| ==> VALUE !in resps[j] {
      ValueLoopNoValue(resps, None);
    }
    forall i: nat | LastHolding(resps, VALUE, i)
      ensures GetNsNameResult(Ok(Done(resps))) == Ok(Some(resps[i][VALUE].bytes))
    {
      ValueLoopLastWins(resps, None, i);
    }
  }

  /** Holds when a sequence lists no name twice. */
  predicate NoDuplicates(names: seq<Text>) {
    forall i, j :: 0 <= i < j < |names| ==> names[i] != names[j]
  }

  /**
   The op names a `describe` answer offers: the keys of its `ops` dict,
   each once. The source collects them into a `HashSet`, whose order is
   unspecified; this lists them by last occurrence, one admissible order.
   */
  function OpNames(pairs: seq<(Text, Object)>): (r: Result<seq<Text>, OpError>)
    ensures r.Ok? <==> KeysAreUtf8(pairs)
    ensures r.Ok? ==> NoDuplicates(r.value)
    ensures r.Ok? ==> forall n :: n in r.value <==> n in Keys(pairs)
    ensures r.Err? ==> r.error.OpNameNotUtf8? && !ValidUtf8(r.error.name) && r.error.name in Keys(pairs)
  {
    if pairs == [] then Ok([])
    else
      var k := pairs[0].0;
      assert k in Keys(pairs);
      assert forall n :: n in Keys(pairs[1..]) ==> n in Keys(pairs) by {
        forall n | n in Keys(pairs[1..]) ensures n in Keys(pairs) {
          var i :| 0 <= i < |pairs[1..]| && pairs[1..][i].0 == n;
          assert pairs[i + 1].0 == n;
        }
      }
      if !ValidUtf8(k) then Err(OpNameNotUtf8(k))
      else
        var rest := OpNames(pairs[1..]);
        assert KeysAreUtf8(pairs) <==> KeysAreUtf8(pairs[1..]) by {
          assert forall i :: 1 <= i < |pairs| ==> pairs[i] == pairs[1..][i - 1];
        }
        if rest.Err? then Err(rest.error)
        else
          assert forall n :: n in Keys(pairs) ==> n == k || n in Keys(pairs[1..]) by {
            forall n | n in Keys(pairs) ensures n == k || n in Keys(pairs[1..]) {
              var i :| 0 <= i < |pairs| && pairs[i].0 == n;
              if i > 0 {
                assert pairs[1..][i - 1].0 == n;
              }
            }
          }
          Ok(if k in rest.value then rest.value else [k] + rest.value)
  }

  /** The response carries a dict under `ops`; any other `ops` value is ignored. */
  predicate HasOpsDict(resp: Resp) {
    OPS in resp && resp[OPS].Dict?
  }

  /** The loop of `Describe::send`, given the op names found so far. */
  function DescribeLoop(resps: seq<Resp>, found: Option<seq<Text>>): Result<Option<seq<Text>>, OpError>
    decreases |resps|
  {
    if resps == [] then Ok(found)
    else if HasOpsDict(resps[0]) then
      if found.Some? then Err(DuplicatedOpsInResponse)
      else
        var names := OpNames(resps[0][OPS].pairs);
        if names.Err? then Err(names.error)
        else DescribeLoop(resps[1..], Some(names.value))
    else DescribeLoop(resps[1..], found)
  }

  /**
   `Describe::send`: on `Done` or `State`, the op names of the one `ops`
   dict among the responses; the `unwrap` of the names aborts when there
   is none. Any other status is `BadStatus`.
   */
  function DescribeResult(status: Result<Status, NreplError>): (r: Result<seq<Text>, OpError>)
    ensures status.Err? ==> r == Err(Exchange(status.error))
    ensures status.Ok? && (status.value.NoInfo? || status.value.Other?) ==>
      r == Err(BadStatus(status.value))
    ensures r.Ok? ==> NoDuplicates(r.value)
  {
    if status.Err? then Err(Exchange(status.error))
    else if status.value.NoInfo? || status.value.Other? then Err(BadStatus(status.value))
    else
      var loop := DescribeLoop(status.value.resps, None);
      if loop.Err? then Err(loop.error)
      else if loop.value.None? then Err(NoOpsPanic)
      else
        DescribeLoopNames(status.value.resps);
        Ok(loop.value.value)
  }

  /** Without any `ops` dict, the loop ends with what it started with. */
  lemma {:induction false} DescribeLoopNone(resps: seq<Resp>, found: Option<seq<Text>>)
    requires forall j :: 0 <= j < |resps| ==> !HasOpsDict(resps[j])
    ensures DescribeLoop(resps, found) == Ok(found)
    decreases |resps|
  {
    if resps != [] {
      DescribeLoopNone(resps[1..], found);
    }
  }

  /** Once names have been found, any further `ops` dict is a duplicate. */
  lemma {:induction false} DescribeLoopSecond(resps: seq<Resp>, names: seq<Text>, j: nat)
    requires j < |resps| && HasOpsDict(resps[j])
    ensures DescribeLoop(resps, Some(names)) == Err(DuplicatedOpsInResponse)
    decreases |resps|
  {
    if !HasOpsDict(resps[0]) {
      DescribeLoopSecond(resps[1..], names, j - 1);
    }
  }

  /** Names the loop returns, when it starts with none, come from `OpNames`. */
  lemma {:induction false} DescribeLoopNames(resps: seq<Resp>)
    ensures DescribeLoop(resps, None).Ok? && DescribeLoop(resps, None).value.Some? ==>
      NoDuplicates(DescribeLoop(resps, None).value.value)
    decreases |resps|
  {
    if resps != [] && !HasOpsDict(resps[0]) {
      DescribeLoopNames(resps[1..]);
    } else if resps != [] {
      var names := OpNames(resps[0][OPS].pairs);
      if names.Ok? {
        DescribeLoopFound(resps[1..], names.value);
      }
    }
  }

  /** With names already found, the loop either keeps them or reports a duplicate. */
  lemma {:induction false} DescribeLoopFound(resps: seq<Resp>, names: seq<Text>)
    ensures DescribeLoop(resps, Some(names)).Ok? ==> DescribeLoop(resps, Some(names)) == Ok(Some(names))
    decreases |resps|
  {
    if resps != [] && !HasOpsDict(resps[0]) {
      DescribeLoopFound(resps[1..], names);
    }
  }

  /** Response `i` holds the only `ops` dict of the exchange. */
  predicate OnlyOpsDict(resps: seq<Resp>, i: nat) {
    i < |resps| && HasOpsDict(resps[i])
    && forall j :: 0 <= j < |resps| && j != i ==> !HasOpsDict(resps[j])
  }

  /** Response `i` holds the first `ops` dict of the exchange. */
  predicate FirstOpsDict(resps: seq<Resp>, i: nat) {
    i < |resps| && HasOpsDict(resps[i]) && forall j :: 0 <= j < i ==> !HasOpsDict(resps[j])
  }

  /** With no `ops` dict at all the names are unwrapped from nothing. */
  lemma DescribeWithoutOps(resps: seq<Resp>, done: bool)
    requires forall j :: 0 <= j < |resps| ==> !HasOpsDict(resps[j])
    ensures DescribeResult(Ok(if done then Done(resps) else State(resps))) == Err(NoOpsPanic)
  {
    DescribeLoopNone(resps, None);
  }

  /**
   With exactly one `ops` dict, `Describe` answers with its key set; the
   `ops` values that are not dicts do not matter.
   */
  lemma {:induction false} DescribeOnlyOps(resps: seq<Resp>, i: nat, done: bool)
    requires OnlyOpsDict(resps, i)
    ensures DescribeResult(Ok(if done then Done(resps) else State(resps)))
      == OpNames(resps[i][OPS].pairs)
    decreases |resps|
  {
    var names := OpNames(resps[i][OPS].pairs);
    if names.Ok? {
      OnlyOpsLoop(resps, i, names.value);
    } else {
      OnlyOpsLoopErr(resps, i);
    }
  }

  lemma {:induction false} OnlyOpsLoop(resps: seq<Resp>, i: nat, names: seq<Text>)
    requires OnlyOpsDict(resps, i)
    requires OpNames(resps[i][OPS].pairs) == Ok(names)
    ensures DescribeLoop(resps, None) == Ok(Some(names))
    decreases |resps|
  {
    if i == 0 {
      DescribeLoopNone(resps[1..], Some(names));
    } else {
      assert OnlyOpsDict(resps[1..], i - 1);
      OnlyOpsLoop(resps[1..], i - 1, names);
    }
  }

  lemma {:induction false} OnlyOpsLoopErr(resps: seq<Resp>, i: nat)
    requires FirstOpsDict(resps, i)
    requires OpNames(resps[i][OPS].pairs).Err?
    ensures DescribeLoop(resps, None) == Err(OpNames(resps[i][OPS].pairs).error)
    decreases |resps|
  {
    if i > 0 {
      assert FirstOpsDict(resps[1..], i - 1);
      OnlyOpsLoopErr(resps[1..], i - 1);
    }
  }

  /**
   A second `ops` dict after a first whose names convert is
   `DuplicatedOpsInResponse`; a first whose names do not convert fails
   with that conversion error.
   */
  lemma {:induction false} DescribeSecondOps(resps: seq<Resp>, i: nat, j: nat, done: bool)
    requires FirstOpsDict(resps, i) && i < j < |resps| && HasOpsDict(resps[j])
    ensures OpNames(resps[i][OPS].pairs).Ok? ==>
      DescribeResult(Ok(if done then Done(resps) else State(resps))) == Err(DuplicatedOpsInResponse)
    ensures OpNames(resps[i][OPS].pairs).Err? ==>
      DescribeResult(Ok(if done then Done(resps) else State(resps))) == OpNames(resps[i][OPS].pairs)
    decreases |resps|
  {
    if OpNames(resps[i][OPS].pairs).Ok? {
      SecondOpsLoop(resps, i, j);
    } else {
      OnlyOpsLoopErr(resps, i);
    }
  }

  lemma {:induction false} SecondOpsLoop(resps: seq<Resp>, i: nat, j: nat)
    requires FirstOpsDict(resps, i) && i < j < |resps| && HasOpsDict(resps[j])
    requires OpNames(resps[i][OPS].pairs).Ok?
    ensures DescribeLoop(resps, None) == Err(DuplicatedOpsInResponse)
    decreases |resps|
  {
    if i == 0 {
      DescribeLoopSecond(resps[1..], OpNames(resps[0][OPS].pairs).value, j - 1);
    } else {
      assert FirstOpsDict(resps[1..], i - 1);
      SecondOpsLoop(resps[1..], i - 1, j - 1);
    }
  }
}
