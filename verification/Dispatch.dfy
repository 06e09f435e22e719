// The opcode cascade of an interpreter and the jump table that skips into the middle of it: for
// which conditions the jump is safe, and why.
module Dispatch {

  // A block's condition: tests of the opcode byte, which the generator evaluates, and tests of
  // the rest of the machine, which it cannot.
  datatype Cond =
    | OpIn(ops: set<int>)
    | FetchIs(offset: int, value: int)
    | RepIs(value: int)
    | RexMask(mask: bv8)
    | Rex
    | Not(c: Cond)
    | And(l: Cond, r: Cond)
    | Or(l: Cond, r: Cond)

  // The instruction bytes by their distance from the opcode, the two prefixes, and all else.
  datatype Machine<R> = Machine(bytes: int -> int, rep: int, rex: bv8, rest: R)

  datatype Outcome<R> = Leave(value: int) | ToUnhandled(op: int, m: Machine<R>) | FallOut(op: int, m: Machine<R>)

  // A body may do anything to the machine and then return, give up, or fall out at the bottom.
  datatype Block<!R> = Block(cond: Cond, body: (int, Machine<R>) -> Outcome<R>)

  predicate Eval<R>(c: Cond, op: int, m: Machine<R>) {
    match c
    case OpIn(ops) => op in ops
    case FetchIs(offset, value) => m.bytes(offset) == value
    case RepIs(value) => m.rep == value
    case RexMask(mask) => m.rex & mask != 0
    case Rex => m.rex != 0
    case Not(x) => !Eval(x, op, m)
    case And(l, r) => Eval(l, op, m) && Eval(r, op, m)
    case Or(l, r) => Eval(l, op, m) || Eval(r, op, m)
  }

  // The generator's guess: every test of the machine, and every negated mask test, counts as
  // true; what is left is evaluated.
  predicate CouldMatch(c: Cond, v: int) {
    match c
    case OpIn(ops) => v in ops
    case FetchIs(_, _) => true
    case RepIs(_) => true
    case RexMask(_) => true
    case Rex => true
    case Not(x) => x.RexMask? || !CouldMatch(x, v)
    case And(l, r) => CouldMatch(l, v) && CouldMatch(r, v)
    case Or(l, r) => CouldMatch(l, v) || CouldMatch(r, v)
  }

  predicate OpcodeOnly(c: Cond) {
    match c
    case OpIn(_) => true
    case Not(x) => OpcodeOnly(x)
    case And(l, r) => OpcodeOnly(l) && OpcodeOnly(r)
    case Or(l, r) => OpcodeOnly(l) && OpcodeOnly(r)
    case _ => false
  }

  // Nothing but opcode tests and single mask tests is negated.
  predicate Plain(c: Cond) {
    match c
    case Not(x) => x.RexMask? || OpcodeOnly(x)
    case And(l, r) => Plain(l) && Plain(r)
    case Or(l, r) => Plain(l) && Plain(r)
    case _ => true
  }

  lemma {:induction false} OpcodeOnlyIsExact<R>(c: Cond, v: int, m: Machine<R>)
    requires OpcodeOnly(c)
    ensures CouldMatch(c, v) <==> Eval(c, v, m)
  {
    match c
    case OpIn(_) =>
    case Not(x) => OpcodeOnlyIsExact(x, v, m);
    case And(l, r) => OpcodeOnlyIsExact(l, v, m); OpcodeOnlyIsExact(r, v, m);
    case Or(l, r) => OpcodeOnlyIsExact(l, v, m); OpcodeOnlyIsExact(r, v, m);
  }

  // A plain condition that holds in some machine is never guessed away.
  lemma {:induction false} PlainIsCovered<R>(c: Cond, v: int, m: Machine<R>)
    requires Plain(c) && Eval(c, v, m)
    ensures CouldMatch(c, v)
  {
    match c
    case Not(x) => if OpcodeOnly(x) { OpcodeOnlyIsExact(x, v, m); }
    case And(l, r) => PlainIsCovered(l, v, m); PlainIsCovered(r, v, m);
    case Or(l, r) => if Eval(l, v, m) { PlainIsCovered(l, v, m); } else { PlainIsCovered(r, v, m); }
    case _ =>
  }

  // Every test of the machine turns out the way the generator guesses.
  predicate PassesTests<R>(c: Cond, m: Machine<R>) {
    match c
    case OpIn(_) => true
    case FetchIs(offset, value) => m.bytes(offset) == value
    case RepIs(value) => m.rep == value
    case RexMask(mask) => m.rex & mask != 0
    case Rex => m.rex != 0
    case Not(x) => if x.RexMask? then m.rex & x.mask == 0 else PassesTests(x, m)
    case And(l, r) => PassesTests(l, m) && PassesTests(r, m)
    case Or(l, r) => PassesTests(l, m) && PassesTests(r, m)
  }

  // On such a machine the guess is right both ways, whatever the condition: nothing is guessed
  // possible that no machine passing its tests would let through.
  lemma {:induction false} GuessIsExact<R>(c: Cond, v: int, m: Machine<R>)
    requires PassesTests(c, m)
    ensures CouldMatch(c, v) <==> Eval(c, v, m)
  {
    match c
    case Not(x) =>
      if x.RexMask? {
        NegatedMaskIsExact(c, v, m);
      } else {
        GuessIsExact(x, v, m);
      }
    case And(l, r) => GuessIsExact(l, v, m); GuessIsExact(r, v, m);
    case Or(l, r) => GuessIsExact(l, v, m); GuessIsExact(r, v, m);
    case _ =>
  }

  lemma NegatedMaskIsExact<R>(c: Cond, v: int, m: Machine<R>)
    requires c.Not? && c.c.RexMask? && PassesTests(c, m)
    ensures CouldMatch(c, v) && Eval(c, v, m)
  {
  }

  // --- Running the cascade ---------------------------------------------------------

  datatype Final<R> = Ended(value: int) | Unhandled(op: int, m: Machine<R>)

  function Run<R>(blocks: seq<Block<R>>, i: int, op: int, m: Machine<R>): Final<R>
    requires 0 <= i <= |blocks|
    decreases |blocks| - i
  {
    if i == |blocks| then Unhandled(op, m)
    else if Eval(blocks[i].cond, op, m) then
      match blocks[i].body(op, m)
      case Leave(value) => Ended(value)
      case ToUnhandled(op', m') => Unhandled(op', m')
      case FallOut(op', m') => Run(blocks, i + 1, op', m')
    else Run(blocks, i + 1, op, m)
  }

  // The cascade from block i on, run by itself.
  lemma {:induction false} RunFromBlock<R>(blocks: seq<Block<R>>, t: int, i: int, op: int, m: Machine<R>)
    requires 0 <= t <= i <= |blocks|
    ensures Run(blocks, i, op, m) == Run(blocks[t..], i - t, op, m)
    decreases |blocks| - i
  {
    if i < |blocks| {
      RunFromBlock(blocks, t, i + 1, op, m);
      var r := blocks[i].body(op, m);
      if r.FallOut? {
        RunFromBlock(blocks, t, i + 1, r.op, r.m);
      }
    }
  }

  // A block that does nothing makes no difference, wherever it stands: what falls out of a block goes
  // on with the next one as it is.
  lemma {:induction false} IdleBlocksDoNothing<R>(front: seq<Block<R>>, idle: Block<R>, rest: seq<Block<R>>,
                                                  i: int, op: int, m: Machine<R>)
    requires 0 <= i <= |front| && forall op, m :: idle.body(op, m) == FallOut(op, m)
    ensures Run(front + [idle] + rest, i, op, m) == Run(front + rest, i, op, m)
    decreases |front| - i
  {
    var n, with, without := |front|, front + [idle] + rest, front + rest;
    if i == n {
      assert with[n + 1..] == rest == without[n..] && with[n] == idle;
      RunFromBlock(with, n + 1, n + 1, op, m);
      RunFromBlock(without, n, n, op, m);
    } else {
      assert with[i] == front[i] == without[i];
      IdleBlocksDoNothing(front, idle, rest, i + 1, op, m);
      var r := front[i].body(op, m);
      if r.FallOut? {
        IdleBlocksDoNothing(front, idle, rest, i + 1, r.op, r.m);
      }
    }
  }

  // A block that gives up has what is left of the machine handled as if no block had taken it.
  lemma GivingUpGoesToTheTail<R>(blocks: seq<Block<R>>, i: int, op: int, m: Machine<R>)
    requires 0 <= i < |blocks| && Eval(blocks[i].cond, op, m) && blocks[i].body(op, m).ToUnhandled?
    ensures var r := blocks[i].body(op, m);
            Run(blocks, i, op, m) == Run(blocks, |blocks|, r.op, r.m)
  {
  }

  function Conds<R>(blocks: seq<Block<R>>): seq<Cond> {
    seq(|blocks|, i requires 0 <= i < |blocks| => blocks[i].cond)
  }

  // The first condition from i on that could match, or -1.
  function FirstMatch(conds: seq<Cond>, v: int, i: int): (t: int)
    requires 0 <= i <= |conds|
    ensures t == -1 || i <= t < |conds|
    ensures t != -1 ==> CouldMatch(conds[t], v)
    ensures forall k :: i <= k < (if t == -1 then |conds| else t) ==> !CouldMatch(conds[k], v)
    decreases |conds| - i
  {
    if i == |conds| then -1
    else if CouldMatch(conds[i], v) then i
    else FirstMatch(conds, v, i + 1)
  }

  // What the generated prologue does: straight to the target's label, or to the unhandled tail.
  function Jump<R>(blocks: seq<Block<R>>, target: seq<int>, op: int, m: Machine<R>): Final<R>
    requires 0 <= op < |target| && -1 <= target[op] < |blocks|
  {
    if target[op] == -1 then Unhandled(op, m) else Run(blocks, target[op], op, m)
  }

  // The table the generator computes, loop by loop.
  method BuildTargets(conds: seq<Cond>) returns (target: seq<int>)
    ensures |target| == 256
    ensures forall v :: 0 <= v < 256 ==> target[v] == FirstMatch(conds, v, 0)
  {
    target := [];
    for v := 0 to 256
      invariant |target| == v
      invariant forall u :: 0 <= u < v ==> target[u] == FirstMatch(conds, u, 0)
    {
      var t, bi := -1, 0;
      while bi < |conds|
        invariant 0 <= bi <= |conds| && t == -1
        invariant FirstMatch(conds, v, bi) == FirstMatch(conds, v, 0)
      {
        if CouldMatch(conds[bi], v) {
          t := bi;
          break;
        }
        bi := bi + 1;
      }
      target := target + [t];
    }
  }

  ghost predicate IsTargetTable(conds: seq<Cond>, target: seq<int>) {
    |target| == 256 && forall v :: 0 <= v < 256 ==> target[v] == FirstMatch(conds, v, 0)
  }

  // Where a jump for opcode v enters the cascade; past the end when it goes to the tail.
  function Entry(conds: seq<Cond>, v: int): (e: int)
    ensures 0 <= e <= |conds|
    ensures forall k :: 0 <= k < e ==> !CouldMatch(conds[k], v)
  {
    var t := FirstMatch(conds, v, 0);
    if t == -1 then |conds| else t
  }

  lemma JumpEnters<R>(blocks: seq<Block<R>>, target: seq<int>, op: int, m: Machine<R>)
    requires IsTargetTable(Conds(blocks), target) && 0 <= op < 256
    ensures -1 <= target[op] < |blocks|
    ensures Jump(blocks, target, op, m) == Run(blocks, Entry(Conds(blocks), op), op, m)
  {
  }

  // Blocks whose conditions fail can be skipped, whatever their bodies do.
  lemma {:induction false} SkipFailing<R>(blocks: seq<Block<R>>, e: int, op: int, m: Machine<R>)
    requires 0 <= e <= |blocks| && forall k :: 0 <= k < e ==> !Eval(blocks[k].cond, op, m)
    ensures Run(blocks, 0, op, m) == Run(blocks, e, op, m)
    decreases e
  {
    if e > 0 {
      SkipFailing(blocks, e - 1, op, m);
    }
  }

  // Nothing skipped can hold: no condition before the entry holds for its opcode in any machine.
  ghost predicate SkipsOnlyDead(conds: seq<Cond>) {
    forall v, k, m: Machine<()> :: 0 <= v < 256 && 0 <= k < Entry(conds, v) ==> !Eval(conds[k], v, m)
  }

  // Conditions do not see the rest of the machine.
  lemma {:induction false} EvalIgnoresRest<R>(c: Cond, op: int, m: Machine<R>)
    ensures Eval(c, op, m) <==> Eval(c, op, Machine(m.bytes, m.rep, m.rex, ()))
  {
    match c
    case Not(x) => EvalIgnoresRest(x, op, m);
    case And(l, r) => EvalIgnoresRest(l, op, m); EvalIgnoresRest(r, op, m);
    case Or(l, r) => EvalIgnoresRest(l, op, m); EvalIgnoresRest(r, op, m);
    case _ =>
  }

  lemma DeadCodeSkipped<R>(blocks: seq<Block<R>>, target: seq<int>, op: int, m: Machine<R>)
    requires IsTargetTable(Conds(blocks), target) && SkipsOnlyDead(Conds(blocks)) && 0 <= op < 256
    ensures -1 <= target[op] < |blocks| && Jump(blocks, target, op, m) == Run(blocks, 0, op, m)
  {
    var conds := Conds(blocks);
    var e := Entry(conds, op);
    forall k | 0 <= k < e ensures !Eval(blocks[k].cond, op, m) {
      EvalIgnoresRest(blocks[k].cond, op, m);
      assert !Eval(conds[k], op, Machine(m.bytes, m.rep, m.rex, ()));
    }
    JumpEnters(blocks, target, op, m);
    SkipFailing(blocks, e, op, m);
  }

  // The generator's promise, kept for plain conditions: jumping gives what the whole cascade
  // gives, for every opcode byte, machine and body.
  lemma DispatchPreserves<R>(blocks: seq<Block<R>>, target: seq<int>, op: int, m: Machine<R>)
    requires IsTargetTable(Conds(blocks), target) && 0 <= op < 256
    requires forall k :: 0 <= k < |blocks| ==> Plain(blocks[k].cond)
    ensures -1 <= target[op] < |blocks| && Jump(blocks, target, op, m) == Run(blocks, 0, op, m)
  {
    var conds := Conds(blocks);
    forall v, k, m': Machine<()> | 0 <= v < 256 && 0 <= k < Entry(conds, v) ensures !Eval(conds[k], v, m') {
      if Eval(conds[k], v, m') {
        PlainIsCovered(conds[k], v, m');
      }
    }
    DeadCodeSkipped(blocks, target, op, m);
  }

  // --- Exactly when the promise holds ------------------------------------------------

  // Blocks that return their own number.
  function Numbered<R>(conds: seq<Cond>): (blocks: seq<Block<R>>)
    ensures |blocks| == |conds| && Conds(blocks) == conds
  {
    var blocks := seq(|conds|, i requires 0 <= i < |conds| => Block(conds[i], (op: int, m: Machine<R>) => Leave(i)));
    assert Conds(blocks) == conds;
    blocks
  }

  // Such blocks return the number of the first one whose condition holds.
  lemma {:induction false} NumberedRuns<R>(conds: seq<Cond>, i: int, op: int, m: Machine<R>)
    requires 0 <= i <= |conds|
    ensures var r := Run(Numbered(conds), i, op, m);
            if r.Ended? then i <= r.value < |conds| && Eval(conds[r.value], op, m)
            else r == Unhandled(op, m) && forall k :: i <= k < |conds| ==> !Eval(conds[k], op, m)
    ensures forall k :: i <= k < |conds| && Eval(conds[k], op, m) ==>
              Run(Numbered(conds), i, op, m).Ended? && Run(Numbered(conds), i, op, m).value <= k
    decreases |conds| - i
  {
    if i < |conds| {
      NumberedRuns(conds, i + 1, op, m);
      assert Numbered<R>(conds)[i].cond == conds[i];
    }
  }

  // The jump agrees with the cascade for all bodies and all machines exactly when nothing skipped
  // can hold: if something can, then bodies that return their number already tell the difference.
  lemma DispatchPreservesIff<R>(conds: seq<Cond>, target: seq<int>, rest: R)
    requires IsTargetTable(conds, target)
    ensures (forall blocks: seq<Block<R>>, op, m {:trigger Run(blocks, 0, op, m)} ::
               Conds(blocks) == conds && 0 <= op < 256 ==>
               Jump(blocks, target, op, m) == Run(blocks, 0, op, m))
            <==> SkipsOnlyDead(conds)
  {
    if SkipsOnlyDead(conds) {
      forall blocks: seq<Block<R>>, op, m | Conds(blocks) == conds && 0 <= op < 256
        ensures -1 <= target[op] < |blocks| && Jump(blocks, target, op, m) == Run(blocks, 0, op, m)
      {
        DeadCodeSkipped(blocks, target, op, m);
      }
    } else {
      var v, k, m: Machine<()> :| 0 <= v < 256 && 0 <= k < Entry(conds, v) && Eval(conds[k], v, m);
      EvalIgnoresRest(conds[k], v, m);
      NumbersDiffer(conds, target, v, k, Machine(m.bytes, m.rep, m.rex, rest));
    }
  }

  lemma NumbersDiffer<R>(conds: seq<Cond>, target: seq<int>, v: int, k: int, m: Machine<R>)
    requires IsTargetTable(conds, target) && 0 <= v < 256 && 0 <= k < Entry(conds, v)
    requires Eval(conds[k], v, Machine(m.bytes, m.rep, m.rex, ()))
    ensures var blocks := Numbered<R>(conds);
            -1 <= target[v] < |blocks| && Jump(blocks, target, v, m) != Run(blocks, 0, v, m)
  {
    EvalIgnoresRest(conds[k], v, m);
    JumpEnters(Numbered<R>(conds), target, v, m);
    NumberedRuns(conds, 0, v, m);
    NumberedRuns(conds, Entry(conds, v), v, m);
  }

  // A negated prefix test that is not a mask test is beyond the generator: it counts as false,
  // and the one block for opcode 0x90 is never entered although it holds.
  lemma NegatedPrefixIsLost()
    ensures var conds := [And(OpIn({0x90}), Not(Rex))];
            !SkipsOnlyDead(conds) && Entry(conds, 0x90) == 1
  {
    var conds := [And(OpIn({0x90}), Not(Rex))];
    var m := Machine(i => 0, 0, 0, ());
    assert !CouldMatch(conds[0], 0x90);
    assert Entry(conds, 0x90) == 1;
    assert Eval(conds[0], 0x90, m);
  }
}
