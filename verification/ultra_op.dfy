/**
 The `ultra-op` binary (`src/bin/ultra-op.rs`), which repeats the option
 parsing of the `op` command: the same `parse_op_arg` and the same fold
 over the op arguments, here read as the fold it is written as. Both
 readings give the same outcome.
 */
module UltraOp {

  import opened Base
  import opened Bytes
  import opened Decimal
  import opened CmdOp

  /** `fold` over the arguments from the left. */
  function FoldOpArgs(acc: Result<seq<(Text, Text)>, OptsError>, args: seq<Text>)
    : Result<seq<(Text, Text)>, OptsError>
    decreases |args|
  {
    if args == [] then acc else FoldOpArgs(FoldStep(acc, args[0]), args[1..])
  }

  lemma {:induction false} FoldOutcome(seen: seq<Text>, rest: seq<Text>, acc: Result<seq<(Text, Text)>, OptsError>)
    requires ArgsOutcome(seen, acc)
    ensures ArgsOutcome(seen + rest, FoldOpArgs(acc, rest))
    decreases |rest|
  {
    if rest == [] {
      assert seen + rest == seen;
    } else {
      StepOutcome(seen, rest[0], acc);
      FoldOutcome(seen + [rest[0]], rest[1..], FoldStep(acc, rest[0]));
      assert seen + [rest[0]] + rest[1..] == seen + rest;
    }
  }

  /**
   The fold gives every pair in order when all arguments parse, and
   otherwise `BadOpArg` of the first that does not: the outcome the loop
   of the `op` command computes, and no other.
   */
  lemma FoldMatchesCmdOp(args: seq<Text>)
    ensures ArgsOutcome(args, FoldOpArgs(Ok([]), args))
    ensures forall r :: ArgsOutcome(args, r) ==> r == FoldOpArgs(Ok([]), args)
  {
    var empty: seq<Text> := [];
    FoldOutcome(empty, args, Ok([]));
    assert empty + args == args;
    forall r | ArgsOutcome(args, r) ensures r == FoldOpArgs(Ok([]), args) {
      OutcomeUnique(args, r, FoldOpArgs(Ok([]), args));
    }
  }

  /** `Opts::parse` of `ultra-op`: the port must parse as a `u32` and is read first. */
  function ParseOpts(op: Text, port: Text, args: seq<Text>): (r: Result<Opts, OptsError>)
    ensures ParseU32(port).None? ==> r == Err(BadUserInput(port))
    ensures r.Ok? ==> r.value.op == op && Some(r.value.port) == ParseU32(port)
    ensures ParseU32(port).Some? ==>
      ArgsOutcome(args, if r.Ok? then Ok(r.value.opArgs) else Err(r.error))
  {
    match ParseU32(port)
    case None => Err(BadUserInput(port))
    case Some(p) =>
      FoldMatchesCmdOp(args);
      var opArgs :- FoldOpArgs(Ok([]), args);
      Ok(Opts(op, opArgs, p))
  }
}
