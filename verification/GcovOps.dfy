/** The account of `GcovRun` in terms of the operations alone: what a counter holds is what was
counted since its unit was last cleared, and so what is written twice, lost and in no file can
be read off the calls a program makes. */
module GcovOps {
  import opened GcovFile
  import opened Prelude
  import opened GcovRun

  /** The unit has registered. */
  predicate Inits(ops: seq<Op>, unit: nat) {
    OpInit(unit, true) in ops
  }

  /** The `i`-th operation zeroes the unit's counters: a reset or flush that finds it listed. */
  predicate Clears(ops: seq<Op>, i: nat, unit: nat) {
    i < |ops| && (ops[i].OpReset? || ops[i].OpFlush?) && Inits(ops[..i], unit)
  }

  lemma {:induction false} SameBefore(ops: seq<Op>, unit: nat)
    requires ops != []
    ensures forall i: nat :: i < |ops| - 1 ==> (Clears(ops[..|ops| - 1], i, unit) <==> Clears(ops, i, unit))
  {
    forall i: nat | i < |ops| - 1
      ensures Clears(ops[..|ops| - 1], i, unit) <==> Clears(ops, i, unit)
    {
      assert ops[..|ops| - 1][..i] == ops[..i];
    }
  }

  /** The operations up to the last that zeroes the unit's counters. */
  function LastClear(ops: seq<Op>, unit: nat): (n: nat)
    ensures n <= |ops| && (n > 0 ==> Clears(ops, n - 1, unit))
    ensures forall i :: n <= i < |ops| ==> !Clears(ops, i, unit)
  {
    if ops == [] then 0 else
    var m := |ops| - 1;
    if Clears(ops, m, unit) then |ops| else
    SameBefore(ops, unit);
    LastClear(ops[..m], unit)
  }

  /** What a counter holds: the counts since its unit was last cleared, modulo 2^64. */
  function HeldIn(ops: seq<Op>, unit: nat, k: nat): nat {
    Counted(ops[LastClear(ops, unit)..], unit, k) % M
  }

  /** What the dumps among the operations write of a counter that goes on holding it. */
  function DoubledIn(ops: seq<Op>, unit: nat, k: nat): nat {
    if ops == [] then 0 else
    var n := |ops| - 1;
    DoubledIn(ops[..n], unit, k) + if ops[n].OpDump? && Inits(ops[..n], unit) then HeldIn(ops[..n], unit, k) else 0
  }

  /** What the resets among the operations take from a counter. */
  function LostIn(ops: seq<Op>, unit: nat, k: nat): nat {
    if ops == [] then 0 else
    var n := |ops| - 1;
    LostIn(ops[..n], unit, k) + if ops[n].OpReset? && Inits(ops[..n], unit) then HeldIn(ops[..n], unit, k) else 0
  }

  /** What is in no file when the program ends. */
  function UnwrittenIn(ops: seq<Op>, unit: nat, k: nat): nat {
    if DumpedLast(ops) || !Inits(ops, unit) then HeldIn(ops, unit, k) else 0
  }

  // ----- one operation more

  lemma {:induction false} RunSnoc(s: State, ops: seq<Op>, op: Op)
    requires Ok(s) && Run(s, ops + [op]).Some?
    ensures Run(s, ops).Some? && Legal(Run(s, ops).value, op)
    ensures Run(s, ops + [op]).value == Step(Run(s, ops).value, op)
    decreases ops
  {
    hide Step, Legal, Ok;
    var all := ops + [op];
    if ops == [] {
      assert all == [op] && all[1..] == [];
    } else {
      assert all[1..] == ops[1..] + [op];
      RunSnoc(Step(s, ops[0]), ops[1..], op);
    }
  }

  lemma {:induction false} CountedSnoc(ops: seq<Op>, op: Op, unit: nat, k: nat)
    ensures Counted(ops + [op], unit, k) == Counted(ops, unit, k) + CountedBy(op, unit, k)
  {
    hide CountedBy;
    var all := ops + [op];
    if ops == [] {
      assert all == [op] && all[1..] == [];
    } else {
      assert all[1..] == ops[1..] + [op];
      CountedSnoc(ops[1..], op, unit, k);
    }
  }

  lemma {:induction false} DoubledSnoc(s: State, ops: seq<Op>, op: Op, unit: nat, k: nat)
    requires Ok(s) && Run(s, ops + [op]).Some? && Run(s, ops).Some?
    ensures var held := HeldBy(Run(s, ops).value, unit, k);
      && Doubled(s, ops + [op], unit, k) == Doubled(s, ops, unit, k) + (if op.OpDump? then held else 0)
      && Lost(s, ops + [op], unit, k) == Lost(s, ops, unit, k) + (if op.OpReset? then held else 0)
    decreases ops
  {
    hide Step, Legal, Ok, HeldBy;
    var all := ops + [op];
    if ops == [] {
      assert all == [op] && all[1..] == [];
    } else {
      assert all[1..] == ops[1..] + [op];
      DoubledSnoc(Step(s, ops[0]), ops[1..], op, unit, k);
    }
  }

  /** The last clear is the new operation, or the one before. */
  lemma {:induction false} HeldSnoc(ops: seq<Op>, op: Op, unit: nat, k: nat)
    ensures HeldIn(ops + [op], unit, k) ==
      if (op.OpReset? || op.OpFlush?) && Inits(ops, unit) then 0
      else (HeldIn(ops, unit, k) + CountedBy(op, unit, k)) % M
  {
    hide CountedBy;
    var all, n := ops + [op], |ops|;
    assert all[..n] == ops && all[n] == op;
    if Clears(all, n, unit) {
      assert all[LastClear(all, unit)..] == [];
    } else {
      var c := LastClear(ops, unit);
      assert LastClear(all, unit) == c && all[c..] == ops[c..] + [op];
      CountedSnoc(ops[c..], op, unit, k);
      CountRest(Counted(ops[c..], unit, k), CountedBy(op, unit, k));
    }
  }

  lemma {:induction false} CountRest(a: nat, b: nat)
    ensures (a + b) % M == (a % M + b) % M
  {
    ModTwice(a);
    Refl(b);
    AddCongruent(a % M, a, b, b);
  }

  /** What the state of a run says, from its operations. */
  lemma {:induction false} StateOfOps(counters: seq<seq<u64>>, ops: seq<Op>, unit: nat, k: nat)
    requires unit < |counters| && k < |counters[unit]| && counters[unit][k] == 0
    requires Run(Start(counters), ops).Some?
    ensures var t := Run(Start(counters), ops).value;
      && (unit in t.units <==> Inits(ops, unit))
      && unit < |t.counters| && k < |t.counters[unit]| && t.counters[unit][k] == HeldIn(ops, unit, k)
      && Doubled(Start(counters), ops, unit, k) == DoubledIn(ops, unit, k)
      && Lost(Start(counters), ops, unit, k) == LostIn(ops, unit, k)
  {
    hide Run, Doubled, Lost, HeldIn, Inits, Step, Legal, CountedBy, LostIn, DoubledIn;
    var s := Start(counters);
    if ops == [] {
      NothingDone(counters, unit, k);
    } else {
      var n := |ops| - 1;
      var before, op := ops[..n], ops[n];
      assert ops == before + [op];
      RunSnoc(s, before, op);
      StateOfOps(counters, before, unit, k);
      DoubledSnoc(s, before, op, unit, k);
      HeldSnoc(before, op, unit, k);
      StepHolds(Run(s, before).value, op, unit, k);
      InitsSnoc(before, op, unit);
      AccountSnoc(before, op, unit, k);
    }
  }

  lemma {:induction false} NothingDone(counters: seq<seq<u64>>, unit: nat, k: nat)
    ensures Run(Start(counters), []) == Some(Start(counters)) && !Inits([], unit) && HeldIn([], unit, k) == 0
    ensures Doubled(Start(counters), [], unit, k) == DoubledIn([], unit, k) == 0
    ensures Lost(Start(counters), [], unit, k) == LostIn([], unit, k) == 0
  {
  }

  lemma {:induction false} AccountSnoc(ops: seq<Op>, op: Op, unit: nat, k: nat)
    ensures DoubledIn(ops + [op], unit, k) ==
      DoubledIn(ops, unit, k) + if op.OpDump? && Inits(ops, unit) then HeldIn(ops, unit, k) else 0
    ensures LostIn(ops + [op], unit, k) ==
      LostIn(ops, unit, k) + if op.OpReset? && Inits(ops, unit) then HeldIn(ops, unit, k) else 0
  {
    hide Inits, HeldIn;
    assert (ops + [op])[..|ops|] == ops;
  }

  lemma {:induction false} InitsSnoc(ops: seq<Op>, op: Op, unit: nat)
    ensures Inits(ops + [op], unit) <==> Inits(ops, unit) || op == OpInit(unit, true)
  {
  }

  /** Over any run of the program from its start, in terms of its operations alone: what the
      files written up to exit say of a counter, what resets took and what is in no file add up
      to the counts made and what dumps wrote twice. */
  lemma {:induction false} FilesAgainstOps(counters: seq<seq<u64>>, ops: seq<Op>, unit: nat, k: nat)
    requires unit < |counters| && k < |counters[unit]| && counters[unit][k] == 0
    requires Run(Start(counters), ops).Some?
    ensures Congruent(
      Emitted(AtExit(Run(Start(counters), ops).value).emitted, unit, k) +
        (UnwrittenIn(ops, unit, k) + LostIn(ops, unit, k)),
      Counted(ops, unit, k) + DoubledIn(ops, unit, k))
  {
    hide Congruent, Run, Counted, Lost, Doubled, AtExit, Emitted, HeldIn, LostIn, DoubledIn, Inits, DumpedLast;
    FilesAgainstCounts(counters, ops, unit, k);
    StateOfOps(counters, ops, unit, k);
  }
}
