/**
 The nREPL exchange (`src/nrepl.rs`): how an `Op` is put on the wire, how a
 decoded response becomes a `Resp` map, and how the responses of one
 exchange are collected up to the final one. The socket is replaced by the
 outcome of the send and the sequence of values the server sends back.
 */
module Nrepl {

  import opened Base
  import opened Bytes
  import opened Decimal
  import opened Bencode
  import opened BencodeEncoding
  import opened PairSort
  import opened Assoc

  /** A request: the op name and its `(name, value)` arguments in the caller's order. */
  datatype Op = Op(name: Text, args: seq<(Text, Text)>)

  const OP: Text := [111, 112] // "op"
  const STATUS: Text := [115, 116, 97, 116, 117, 115] // "status"

  /**
   The pairs the op is emitted as: `op` → name and one pair per argument,
   sorted by key and then by value.
   */
  function OpPairs(op: Op): (r: seq<Pair>)
    ensures Sorted(r)
    ensures multiset(r) == multiset{(OP, op.name)} + multiset(op.args)
  {
    assert multiset([(OP, op.name)] + op.args) == multiset{(OP, op.name)} + multiset(op.args);
    Sort([(OP, op.name)] + op.args)
  }

  /** Pairs of strings as the entries of a bencode dict. */
  function DictEntries(pairs: seq<Pair>): (r: seq<(Text, Object)>)
    ensures |r| == |pairs|
    ensures forall i :: 0 <= i < |pairs| ==> r[i] == (pairs[i].0, BBytes(pairs[i].1))
  {
    if pairs == [] then [] else [(pairs[0].0, BBytes(pairs[0].1))] + DictEntries(pairs[1..])
  }

  /** The dict the op is sent as. */
  function OpObject(op: Op): Object {
    Dict(DictEntries(OpPairs(op)))
  }

  /** The bytes sent for an op. */
  function EncodeOp(op: Op): (r: Text)
    ensures |r| >= 2 && r[0] == CHAR_D && r[|r| - 1] == CHAR_E
  {
    Encode(OpObject(op))
  }

  lemma LexLeReflexive(a: Text)
    ensures LexLe(a, a)
  {
    LexLeTotal(a, a);
  }

  /** The keys of the sent dict appear in ascending byte order. */
  lemma OpKeysAscending(op: Op)
    ensures var ps := OpObject(op).pairs;
      forall i, j :: 0 <= i < j < |ps| ==> LexLe(ps[i].0, ps[j].0)
  {
    var ps := OpObject(op).pairs;
    var sorted := OpPairs(op);
    forall i, j | 0 <= i < j < |ps| ensures LexLe(ps[i].0, ps[j].0) {
      assert PairLe(sorted[i], sorted[j]);
      LexLeReflexive(sorted[i].0);
    }
  }

  /** The order in which the arguments were given does not change what is sent. */
  lemma EncodeOpPermutation(a: Op, b: Op)
    requires a.name == b.name && multiset(a.args) == multiset(b.args)
    ensures EncodeOp(a) == EncodeOp(b)
  {
    SortIgnoresOrder([(OP, a.name)] + a.args, [(OP, b.name)] + b.args);
  }

  /** Every string of the op fits a `u32` length prefix. */
  predicate OpFitsU32(op: Op) {
    |op.name| < U32_LIMIT
    && forall i :: 0 <= i < |op.args| ==> |op.args[i].0| < U32_LIMIT && |op.args[i].1| < U32_LIMIT
  }

  /**
   The bytes sent for an op decode, with the bencode decoder of this crate,
   to the dict of its sorted pairs, whatever follows them on the wire.
   */
  lemma EncodeOpDecodes(op: Op, rest: Text)
    requires OpFitsU32(op)
    ensures ReadObject(EncodeOp(op) + rest) == Ok((Some(OpObject(op)), rest))
  {
    OpObjectWellFormed(op);
    RoundTrip(OpObject(op), rest);
  }

  lemma OpObjectWellFormed(op: Op)
    requires OpFitsU32(op)
    ensures WellFormed(OpObject(op))
  {
    OpPairsFitU32(op);
    DictEntriesWellFormed(OpPairs(op));
  }

  lemma DictEntriesWellFormed(pairs: seq<Pair>)
    requires forall i :: 0 <= i < |pairs| ==> |pairs[i].0| < U32_LIMIT && |pairs[i].1| < U32_LIMIT
    ensures WellFormed(Dict(DictEntries(pairs)))
  {
    var ps := DictEntries(pairs);
    forall i | 0 <= i < |ps| ensures PairWellFormed(ps[i]) {
      assert ps[i] == (pairs[i].0, BBytes(pairs[i].1));
    }
  }

  lemma OpPairsFitU32(op: Op)
    requires OpFitsU32(op)
    ensures forall i :: 0 <= i < |OpPairs(op)| ==>
      |OpPairs(op)[i].0| < U32_LIMIT && |OpPairs(op)[i].1| < U32_LIMIT
  {
    var sorted := OpPairs(op);
    forall i | 0 <= i < |sorted| ensures |sorted[i].0| < U32_LIMIT && |sorted[i].1| < U32_LIMIT {
      assert sorted[i] in multiset(sorted);
      if sorted[i] != (OP, op.name) {
        assert sorted[i] in multiset(op.args);
        var k :| 0 <= k < |op.args| && op.args[k] == sorted[i];
      }
    }
  }

  const CLONE: Text := [99, 108, 111, 110, 101] // "clone"

  /** `Op("clone", [])` is sent as `d2:op5:clonee`. */
  lemma CloneEncoding()
    ensures EncodeOp(Op(CLONE, [])) == [100, 50, 58, 111, 112, 53, 58, 99, 108, 111, 110, 101, 101]
  {
    var op := Op(CLONE, []);
    var x: Pair := (OP, CLONE);
    assert [x] + [] == [x];
    assert Sort([x]) == [x] by {
      assert [x][1..] == [];
    }
    assert OpPairs(op) == [x];
    var entries := DictEntries([x]);
    assert entries == [(OP, BBytes(CLONE))];
    var p := entries[0];
    assert entries[1..] == [];
    assert EncodePairs(entries) == EncodeBytes(OP) + Encode(BBytes(CLONE));
    assert NatText(2) == [50] && NatText(5) == [53];
    assert EncodeBytes(OP) == [50, 58, 111, 112];
    assert Encode(BBytes(CLONE)) == [53, 58, 99, 108, 111, 110, 101];
    assert EncodeOp(op) == [CHAR_D] + EncodePairs(entries) + [CHAR_E];
  }

  /** A response: field name to value, one value per field. */
  type Resp = map<Text, Object>

  datatype RespError = ExpectedMap(found: Object)

  datatype NreplError =
    | IOError
    | BencodeEncodeError
    | BencodeFormatError(resp: RespError)
      /** The deserializer's result is unwrapped: a closed or garbled stream aborts. */
    | ReadPanic
      /** Response keys are converted with `from_utf8(..).unwrap()`. */
    | KeyNotUtf8Panic

  predicate KeysAreUtf8(pairs: seq<(Text, Object)>) {
    forall i :: 0 <= i < |pairs| ==> ValidUtf8(pairs[i].0)
  }

  /**
   `Resp::try_from`: a dict becomes a map in which a later duplicate key
   overwrites an earlier one; anything else is `ExpectedMap`.
   */
  function RespFromValue(v: Object): (r: Result<Resp, NreplError>)
    ensures !v.Dict? ==> r == Err(BencodeFormatError(ExpectedMap(v)))
    ensures v.Dict? ==> (r.Ok? <==> KeysAreUtf8(v.pairs))
    ensures v.Dict? && r.Err? ==> r.error == KeyNotUtf8Panic
  {
    match v
    case Dict(pairs) =>
      if KeysAreUtf8(pairs) then Ok(LastWins(pairs))
      else Err(KeyNotUtf8Panic)
    case _ => Err(BencodeFormatError(ExpectedMap(v)))
  }

  /**
   A converted response has exactly the keys of the dict, each with the
   value of its last occurrence.
   */
  lemma RespKeepsLastValue(v: Object)
    requires RespFromValue(v).Ok?
    ensures v.Dict?
    ensures RespFromValue(v).value.Keys == Keys(v.pairs)
    ensures forall i :: 0 <= i < |v.pairs| && IsLastOfKey(v.pairs, i) ==>
      RespFromValue(v).value[v.pairs[i].0] == v.pairs[i].1
  {
    LastWinsKeepsLast(v.pairs);
  }

  /** `is_final_resp`. */
  predicate IsFinal(resp: Resp) {
    STATUS in resp
  }

  /** A response with a `status` field is final, whatever the status holds; one without is not. */
  lemma FinalOnlyWithStatus(v: Object)
    ensures IsFinal(map[STATUS := v])
    ensures !IsFinal(map[[102, 111, 111] := v]) // "foo"
  {
    var foo: Text := [102, 111, 111];
    assert foo != STATUS;
  }

  /**
   `resps` is what reading until the first final response gives: the
   responses of a non-empty prefix of the replies, all successful, the last
   one final and no other final.
   */
  predicate Framed(resps: seq<Resp>, replies: seq<Result<Resp, NreplError>>) {
    1 <= |resps| <= |replies|
    && (forall i :: 0 <= i < |resps| ==> replies[i] == Ok(resps[i]))
    && IsFinal(resps[|resps| - 1])
    && (forall i :: 0 <= i < |resps| - 1 ==> !IsFinal(resps[i]))
  }

  /**
   Reads responses until a final one; the reference for `Exchange`. Each
   element of `replies` is what one `read_resp` call returns; running out of
   them is the stream ending, which the unwrapped deserializer turns into
   an abort.
   */
  function Collect(replies: seq<Result<Resp, NreplError>>): (r: Result<seq<Resp>, NreplError>)
    ensures r.Ok? ==> Framed(r.value, replies)
    decreases |replies|
  {
    if replies == [] then Err(ReadPanic)
    else if replies[0].Err? then Err(replies[0].error)
    else if IsFinal(replies[0].value) then Ok([replies[0].value])
    else
      var more := Collect(replies[1..]);
      if more.Err? then more
      else
        assert forall i :: 0 <= i < |more.value| ==> replies[1..][i] == Ok(more.value[i]);
        Ok([replies[0].value] + more.value)
  }

  /** Puts `done` in front of a successful result. */
  function After(done: seq<Resp>, r: Result<seq<Resp>, NreplError>): Result<seq<Resp>, NreplError> {
    if r.Ok? then Ok(done + r.value) else r
  }

  /** The first `k` replies were read and none of them was final. */
  predicate Pending(replies: seq<Result<Resp, NreplError>>, k: nat) {
    k <= |replies| && forall j :: 0 <= j < k ==> replies[j].Ok? && !IsFinal(replies[j].value)
  }

  /** Reply `k` is the first failed read, before any final response. */
  predicate FailsAt(replies: seq<Result<Resp, NreplError>>, k: nat) {
    k < |replies| && Pending(replies, k) && replies[k].Err?
  }

  /**
   Which error `Collect` returns: the first failed read when one comes
   before any final response, and `ReadPanic` when the replies run out
   first; nothing else.
   */
  lemma {:induction false} CollectErrors(replies: seq<Result<Resp, NreplError>>)
    ensures forall k: nat :: FailsAt(replies, k) ==> Collect(replies) == Err(replies[k].error)
    ensures Pending(replies, |replies|) ==> Collect(replies) == Err(ReadPanic)
    ensures Collect(replies).Err? ==>
      Pending(replies, |replies|) || exists k: nat :: FailsAt(replies, k)
    decreases |replies|
  {
    if replies != [] && replies[0].Ok? && !IsFinal(replies[0].value) {
      var later := replies[1..];
      CollectErrors(later);
      forall k: nat | FailsAt(replies, k) ensures Collect(replies) == Err(replies[k].error) {
        assert k > 0;
        assert FailsAt(later, k - 1) by {
          forall j | 0 <= j < k - 1 ensures later[j].Ok? && !IsFinal(later[j].value) {
            assert later[j] == replies[j + 1];
          }
        }
      }
      if Pending(replies, |replies|) {
        assert Pending(later, |later|) by {
          forall j | 0 <= j < |later| ensures later[j].Ok? && !IsFinal(later[j].value) {
            assert later[j] == replies[j + 1];
          }
        }
      }
      if Collect(replies).Err? {
        if Pending(later, |later|) {
          assert Pending(replies, |replies|) by {
            forall j | 0 <= j < |replies| ensures replies[j].Ok? && !IsFinal(replies[j].value) {
              if j > 0 {
                assert replies[j] == later[j - 1];
              }
            }
          }
        } else {
          var k: nat :| FailsAt(later, k);
          assert FailsAt(replies, k + 1) by {
            forall j | 0 <= j < k + 1 ensures replies[j].Ok? && !IsFinal(replies[j].value) {
              if j > 0 {
                assert replies[j] == later[j - 1];
              }
            }
          }
        }
      }
    } else if replies != [] && replies[0].Err? {
      assert FailsAt(replies, 0);
      forall k: nat | FailsAt(replies, k) ensures k == 0 {
      }
    }
  }

  /** Whenever a framing exists, `Collect` finds it. */
  lemma {:induction false} CollectFindsFraming(resps: seq<Resp>, replies: seq<Result<Resp, NreplError>>)
    requires Framed(resps, replies)
    ensures Collect(replies) == Ok(resps)
    decreases |replies|
  {
    if |resps| == 1 {
      assert resps == [resps[0]];
    } else {
      FramedTail(resps, replies);
      CollectFindsFraming(resps[1..], replies[1..]);
      assert resps == [resps[0]] + resps[1..];
    }
  }

  /** Dropping a non-final first response leaves a framing of the rest. */
  lemma FramedTail(resps: seq<Resp>, replies: seq<Result<Resp, NreplError>>)
    requires Framed(resps, replies) && |resps| > 1
    ensures Framed(resps[1..], replies[1..])
  {
    var tail := resps[1..];
    var later := replies[1..];
    forall i | 0 <= i < |tail| ensures later[i] == Ok(tail[i]) {
      assert later[i] == replies[i + 1] && tail[i] == resps[i + 1];
    }
    forall i | 0 <= i < |tail| - 1 ensures !IsFinal(tail[i]) {
      assert tail[i] == resps[i + 1];
    }
    assert tail[|tail| - 1] == resps[|resps| - 1];
  }

  /**
   The framing of the replies is unique: it is the shortest prefix that ends
   in a final response.
   */
  lemma FramingUnique(a: seq<Resp>, b: seq<Resp>, replies: seq<Result<Resp, NreplError>>)
    requires Framed(a, replies) && Framed(b, replies)
    ensures a == b
  {
    CollectFindsFraming(a, replies);
    CollectFindsFraming(b, replies);
  }

  /** An error result means no prefix of the replies frames an exchange. */
  lemma CollectErrorMeansNoFraming(replies: seq<Result<Resp, NreplError>>, resps: seq<Resp>)
    requires Collect(replies).Err?
    ensures !Framed(resps, replies)
  {
    if Framed(resps, replies) {
      CollectFindsFraming(resps, replies);
    }
  }

  lemma CollectStep(replies: seq<Result<Resp, NreplError>>, k: nat)
    requires k < |replies| && replies[k].Ok? && !IsFinal(replies[k].value)
    ensures Collect(replies[k..]) == After([replies[k].value], Collect(replies[k + 1..]))
  {
    assert replies[k..][0] == replies[k];
    assert replies[k..][1..] == replies[k + 1..];
  }

  lemma AfterAfter(a: seq<Resp>, b: seq<Resp>, r: Result<seq<Resp>, NreplError>)
    ensures After(a, After(b, r)) == After(a + b, r)
  {
    if r.Ok? {
      assert a + (b + r.value) == (a + b) + r.value;
    }
  }

  /**
   `NreplStream::op`: a failed send ends the exchange with its error;
   otherwise responses are read and kept until the first final one. A
   failed read ends it with that error and no partial list.
   */
  method Exchange(sent: Result<(), NreplError>, replies: seq<Result<Resp, NreplError>>)
    returns (r: Result<seq<Resp>, NreplError>)
    ensures sent.Err? ==> r == Err(sent.error)
    ensures sent.Ok? ==> r == Collect(replies)
    ensures r.Ok? ==> Framed(r.value, replies)
  {
    if sent.Err? {
      return Err(sent.error);
    }
    var resps: seq<Resp> := [];
    var k := 0;
    assert replies[0..] == replies;
    assert After([], Collect(replies)) == Collect(replies) by {
      if Collect(replies).Ok? {
        assert [] + Collect(replies).value == Collect(replies).value;
      }
    }
    while true
      invariant k == |resps| <= |replies|
      invariant Collect(replies) == After(resps, Collect(replies[k..]))
      decreases |replies| - k
    {
      if k == |replies| {
        return Err(ReadPanic);
      }
      var resp := replies[k];
      assert replies[k..][0] == resp;
      if resp.Err? {
        return Err(resp.error);
      }
      if IsFinal(resp.value) {
        return Ok(resps + [resp.value]);
      }
      CollectStep(replies, k);
      AfterAfter(resps, [resp.value], Collect(replies[k + 1..]));
      resps := resps + [resp.value];
      k := k + 1;
    }
  }

  /**
   How an exchange ended, as classified from the `status` values of its
   responses; each variant carries the responses.
   */
  datatype Status =
    | Done(resps: seq<Resp>)
    | State(resps: seq<Resp>)
    | NoInfo(resps: seq<Resp>)
    | Other(name: Text, resps: seq<Resp>)
}
