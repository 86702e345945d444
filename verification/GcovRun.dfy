/** The life of the counters (lib/gcov/gcov.c, lines 321 to 361): units register, the program
counts, and the counters are dumped, reset and flushed, and dumped at exit. A unit is named
by its number among the program's units. */
module GcovRun {
  import opened Arith
  import opened GcovFile
  import opened Prelude

  const M := 0x1_0000_0000_0000_0000

  /** A unit's counters as a dump wrote them. */
  datatype Emission = Emission(unit: nat, counters: seq<u64>)

  /** `units` is the list g_units; `counters` are the static counters of every unit of the
      program, registered yet or not. */
  datatype State = State(
    units: seq<nat>,
    counters: seq<seq<u64>>,
    hooked: bool,
    dumped: bool,
    hooks: nat,
    emitted: seq<Emission>)

  /** The list names units of the program, each once, and the exit hook is registered once,
      with the first of them. */
  predicate Listed(units: seq<nat>, n: nat, hooked: bool, hooks: nat) {
    && (forall i :: 0 <= i < |units| ==> units[i] < n)
    && (forall i, j :: 0 <= i < j < |units| ==> units[i] != units[j])
    && (hooked <==> units != []) && hooks == (if hooked then 1 else 0)
  }

  predicate Ok(s: State) { Listed(s.units, |s.counters|, s.hooked, s.hooks) }

  function Start(counters: seq<seq<u64>>): State {
    State([], counters, false, false, 0, [])
  }

  // ----- the steps

  /** __embcc_gcov_init: a record with the wrong magic is passed over. */
  function Init(s: State, unit: nat, magicOk: bool): State {
    if !magicOk then s
    else s.(units := [unit] + s.units, hooked := true, hooks := if s.hooked then s.hooks else s.hooks + 1)
  }

  /** The instrumented program counts; counters wrap at 64 bits. */
  function Count(s: State, unit: nat, k: nat): State
    requires unit < |s.counters| && k < |s.counters[unit]|
  {
    var v: u64 := (s.counters[unit][k] + 1) % M;
    var c: seq<u64> := s.counters[unit][k := v];
    s.(counters := s.counters[unit := c])
  }

  function Emissions(units: seq<nat>, counters: seq<seq<u64>>): seq<Emission>
    requires forall i :: 0 <= i < |units| ==> units[i] < |counters|
  {
    if units == [] then [] else [Emission(units[0], counters[units[0]])] + Emissions(units[1..], counters)
  }

  function Dump(s: State): State
    requires Ok(s)
  {
    s.(emitted := s.emitted + Emissions(s.units, s.counters), dumped := true)
  }

  /** Every registered unit's counters are zero; the others keep theirs. */
  function Cleared(units: seq<nat>, counters: seq<seq<u64>>): (c: seq<seq<u64>>)
    ensures |c| == |counters|
    ensures forall u :: 0 <= u < |counters| ==> c[u] == if u in units then Filled(0, |counters[u]|) else counters[u]
  {
    seq(|counters|, u requires 0 <= u < |counters| => if u in units then Filled(0, |counters[u]|) else counters[u])
  }

  function Reset(s: State): State {
    s.(counters := Cleared(s.units, s.counters), dumped := false)
  }

  function Flush(s: State): State
    requires Ok(s)
  {
    Reset(Dump(s))
  }

  function AtExit(s: State): State
    requires Ok(s)
  {
    if s.dumped then s else Dump(s)
  }

  // ----- sums of what was emitted

  /** What the dumps say of one counter, added up. */
  function Emitted(es: seq<Emission>, unit: nat, k: nat): nat {
    if es == [] then 0
    else (if es[0].unit == unit && k < |es[0].counters| then es[0].counters[k] else 0) + Emitted(es[1..], unit, k)
  }

  lemma {:induction false} EmittedAppend(a: seq<Emission>, b: seq<Emission>, unit: nat, k: nat)
    ensures Emitted(a + b, unit, k) == Emitted(a, unit, k) + Emitted(b, unit, k)
  {
    if a == [] {
      assert a + b == b;
    } else {
      assert (a + b)[1..] == a[1..] + b;
      EmittedAppend(a[1..], b, unit, k);
    }
  }

  /** A dump writes each registered unit once. */
  lemma {:induction false} EmittedOnce(units: seq<nat>, counters: seq<seq<u64>>, unit: nat, k: nat)
    requires forall i :: 0 <= i < |units| ==> units[i] < |counters|
    requires forall i, j :: 0 <= i < j < |units| ==> units[i] != units[j]
    requires unit < |counters| && k < |counters[unit]|
    ensures Emitted(Emissions(units, counters), unit, k) == if unit in units then counters[unit][k] else 0
  {
    if units != [] {
      var es := Emissions(units, counters);
      assert es[1..] == Emissions(units[1..], counters);
      EmittedOnce(units[1..], counters, unit, k);
      assert unit in units <==> unit == units[0] || unit in units[1..];
    }
  }

  // ----- runs

  datatype Op = OpInit(unit: nat, magicOk: bool) | OpCount(unit: nat, k: nat) | OpDump | OpReset | OpFlush

  /** A unit's constructor registers it once; the program counts counters it has. */
  predicate Legal(s: State, op: Op) {
    match op
    case OpInit(unit, _) => unit < |s.counters| && unit !in s.units
    case OpCount(unit, k) => unit < |s.counters| && k < |s.counters[unit]|
    case _ => true
  }

  function Step(s: State, op: Op): (t: State)
    requires Ok(s) && Legal(s, op)
    ensures Ok(t)
  {
    match op
    case OpInit(unit, ok) => Init(s, unit, ok)
    case OpCount(unit, k) => Count(s, unit, k)
    case OpDump => Dump(s)
    case OpReset => Reset(s)
    case OpFlush => Flush(s)
  }

  /** The state a run reaches, if every step of it is legal. */
  function Run(s: State, ops: seq<Op>): (r: Option<State>)
    requires Ok(s)
    ensures r.Some? ==> Ok(r.value)
    decreases ops
  {
    if ops == [] then Some(s)
    else if !Legal(s, ops[0]) then None
    else Run(Step(s, ops[0]), ops[1..])
  }

  /** How often a run counts one counter. */
  function Counted(ops: seq<Op>, unit: nat, k: nat): nat {
    if ops == [] then 0 else CountedBy(ops[0], unit, k) + Counted(ops[1..], unit, k)
  }

  function CountedBy(op: Op, unit: nat, k: nat): nat { if op == OpCount(unit, k) then 1 else 0 }

  /** What a counter of a listed unit holds. */
  function HeldBy(s: State, unit: nat, k: nat): nat {
    if unit < |s.counters| && k < |s.counters[unit]| && unit in s.units then s.counters[unit][k] else 0
  }

  /** What dumps without a reset write of a counter that goes on holding it. */
  function Doubled(s: State, ops: seq<Op>, unit: nat, k: nat): nat
    requires Ok(s) && Run(s, ops).Some?
    decreases ops
  {
    if ops == [] then 0 else
    (if ops[0].OpDump? then HeldBy(s, unit, k) else 0) + Doubled(Step(s, ops[0]), ops[1..], unit, k)
  }

  /** What resets without a dump take from a counter. */
  function Lost(s: State, ops: seq<Op>, unit: nat, k: nat): nat
    requires Ok(s) && Run(s, ops).Some?
    decreases ops
  {
    if ops == [] then 0 else
    (if ops[0].OpReset? then HeldBy(s, unit, k) else 0) + Lost(Step(s, ops[0]), ops[1..], unit, k)
  }

  // ----- the order of the list

  /** A dump writes the listed units in the list's order, each with the counters it has. */
  lemma {:induction false} EmissionsAt(units: seq<nat>, counters: seq<seq<u64>>, i: nat)
    requires (forall j :: 0 <= j < |units| ==> units[j] < |counters|) && i < |units|
    ensures var es := Emissions(units, counters);
      |es| == |units| && es[i] == Emission(units[i], counters[units[i]])
  {
    if |units| > 1 {
      EmissionsAt(units[1..], counters, if i > 0 then i - 1 else 0);
    }
  }

  /** The units that a run registers, in order. */
  function RegisteredBy(ops: seq<Op>): seq<nat> {
    if ops == [] then []
    else (if ops[0].OpInit? && ops[0].magicOk then [ops[0].unit] else []) + RegisteredBy(ops[1..])
  }

  /** The list is the units registered, the latest first. */
  lemma {:induction false} LatestFirst(s: State, ops: seq<Op>)
    requires Ok(s) && Run(s, ops).Some?
    ensures var units, r := Run(s, ops).value.units, RegisteredBy(ops);
      && |units| == |r| + |s.units| && units[|r|..] == s.units
      && forall i :: 0 <= i < |r| ==> units[i] == r[|r| - 1 - i]
    decreases ops
  {
    hide Ok, Legal, Count, Dump, Reset;
    if ops != [] {
      var t := Step(s, ops[0]);
      UnitsAfter(s, ops[0]);
      LatestFirst(t, ops[1..]);
      var units, r, r' := Run(s, ops).value.units, RegisteredBy(ops), RegisteredBy(ops[1..]);
      assert units[|r'|..] == t.units;
      if ops[0].OpInit? && ops[0].magicOk {
        assert units[|r'|] == t.units[0];
        assert units[|r|..] == t.units[1..];
      } else {
        assert r == r';
      }
    }
  }

  lemma {:induction false} UnitsAfter(s: State, op: Op)
    requires Ok(s) && Legal(s, op)
    ensures Step(s, op).units == if op.OpInit? && op.magicOk then [op.unit] + s.units else s.units
  {
  }

  // ----- equal as far as a 64-bit counter can tell

  predicate Congruent(a: nat, b: nat) { a % M == b % M }

  lemma {:induction false} Refl(a: nat)
    ensures Congruent(a, a)
  {
  }

  lemma {:induction false} SumMod(a: nat, b: nat)
    ensures (a + b) % M == (a % M + b % M) % M
  {
    DivModBack(a, M);
    DivModBack(b, M);
    ModShift(a % M + b % M, a / M + b / M, M);
  }

  lemma {:induction false} AddCongruent(a: nat, b: nat, c: nat, d: nat)
    requires Congruent(a, b) && Congruent(c, d)
    ensures Congruent(a + c, b + d)
  {
    SumMod(a, c);
    SumMod(b, d);
  }

  lemma {:induction false} CountWraps(e: nat, c: nat)
    ensures Congruent(e + (c + 1) % M, e + c + 1)
  {
    ModTwice(c + 1);
    Refl(e);
    AddCongruent(e, e, (c + 1) % M, c + 1);
  }

  lemma {:induction false} ModTwice(a: nat)
    ensures Congruent(a % M, a)
  {
  }

  /** Two accounts one after the other. */
  lemma {:induction false} Chain(a: nat, b: nat, c: nat, l: nat, x: nat, l': nat, x': nat)
    requires Congruent(b + l, a + x) && Congruent(c + l', b + x')
    ensures Congruent(c + (l + l'), a + (x + x'))
  {
    Refl(l);
    Refl(x');
    AddCongruent(c + l', b + x', l, l);
    AddCongruent(b + l, a + x, x', x');
    Trans(c + l' + l, b + x' + l, a + x + x');
  }

  lemma {:induction false} Trans(a: nat, b: nat, c: nat)
    requires Congruent(a, b) && Congruent(b, c)
    ensures Congruent(a, c)
  {
  }

  // ----- the account

  /** What was emitted of a counter and what it still holds. */
  function Accounted(s: State, unit: nat, k: nat): nat
    requires unit < |s.counters| && k < |s.counters[unit]|
  {
    Emitted(s.emitted, unit, k) + s.counters[unit][k]
  }

  lemma {:induction false} CountEffect(s: State, u: nat, j: nat, unit: nat, k: nat)
    requires u < |s.counters| && j < |s.counters[u]| && unit < |s.counters| && k < |s.counters[unit]|
    ensures var t := Count(s, u, j);
      && t == s.(counters := t.counters) && unit < |t.counters| && k < |t.counters[unit]|
      && t.counters[unit][k] == if u == unit && j == k then (s.counters[unit][k] + 1) % M else s.counters[unit][k]
  {
  }

  lemma {:induction false} ResetEffect(s: State, unit: nat, k: nat)
    requires unit < |s.counters| && k < |s.counters[unit]|
    ensures var t := Reset(s);
      && t == s.(counters := t.counters, dumped := false) && unit < |t.counters| && k < |t.counters[unit]|
      && t.counters[unit][k] == if unit in s.units then 0 else s.counters[unit][k]
  {
  }

  lemma {:induction false} Small(c: u64)
    ensures c % M == c
  {
  }

  /** What one step does to a counter, to the list and to the files. */
  lemma {:induction false} StepHolds(s: State, op: Op, unit: nat, k: nat)
    requires Ok(s) && Legal(s, op) && unit < |s.counters| && k < |s.counters[unit]|
    ensures var t := Step(s, op);
      && (unit in t.units <==> unit in s.units || op == OpInit(unit, true))
      && unit < |t.counters| && k < |t.counters[unit]|
      && t.counters[unit][k] == (if (op.OpReset? || op.OpFlush?) && unit in s.units then 0
                                 else (s.counters[unit][k] + CountedBy(op, unit, k)) % M)
      && Emitted(t.emitted, unit, k) ==
         Emitted(s.emitted, unit, k) + if op.OpDump? || op.OpFlush? then HeldBy(s, unit, k) else 0
  {
    hide Emitted, Count, Reset, Emissions, HeldBy;
    Small(s.counters[unit][k]);
    match op
    case OpInit(_, _) =>
    case OpCount(u, j) => CountEffect(s, u, j, unit, k);
    case OpDump => DumpAccounts(s, unit, k);
    case OpReset => ResetEffect(s, unit, k);
    case OpFlush =>
      DumpAccounts(s, unit, k);
      ResetEffect(Dump(s), unit, k);
  }

  lemma {:induction false} StepAccounts(s: State, op: Op, unit: nat, k: nat)
    requires Ok(s) && Legal(s, op) && unit < |s.counters| && k < |s.counters[unit]|
    requires unit < |Step(s, op).counters| && k < |Step(s, op).counters[unit]|
    ensures Congruent(Accounted(Step(s, op), unit, k) + (if op.OpReset? then HeldBy(s, unit, k) else 0),
      Accounted(s, unit, k) + (CountedBy(op, unit, k) + if op.OpDump? then HeldBy(s, unit, k) else 0))
  {
    hide Congruent, Emitted, Step, Legal, Ok;
    var c, e := s.counters[unit][k], Emitted(s.emitted, unit, k);
    StepHolds(s, op, unit, k);
    Small(c);
    if op == OpCount(unit, k) {
      CountWraps(e, c);
    } else {
      Refl(Accounted(s, unit, k) + if op.OpDump? then HeldBy(s, unit, k) else 0);
    }
  }

  /** A dump writes what the counters hold once more. */
  lemma {:induction false} DumpAccounts(s: State, unit: nat, k: nat)
    requires Ok(s) && unit < |s.counters| && k < |s.counters[unit]|
    ensures Emitted(Dump(s).emitted, unit, k) == Emitted(s.emitted, unit, k) + HeldBy(s, unit, k)
  {
    hide Emitted, Emissions;
    EmittedOnce(s.units, s.counters, unit, k);
    EmittedAppend(s.emitted, Emissions(s.units, s.counters), unit, k);
  }

  /** The account of any run, at any point of it: what the files say of a counter, what it
      still holds and what resets took add up to the counts made and what dumps wrote twice. */
  lemma {:induction false} EverythingAccounted(s: State, ops: seq<Op>, unit: nat, k: nat)
    requires Ok(s) && Run(s, ops).Some? && unit < |s.counters| && k < |s.counters[unit]|
    ensures var t := Run(s, ops).value;
      && unit < |t.counters| && k < |t.counters[unit]|
      && Congruent(Accounted(t, unit, k) + Lost(s, ops, unit, k),
                   Accounted(s, unit, k) + (Counted(ops, unit, k) + Doubled(s, ops, unit, k)))
    decreases ops
  {
    hide Step, Legal, Ok, Accounted, Congruent, HeldBy, CountedBy;
    if ops == [] {
      Refl(Accounted(s, unit, k));
    } else {
      hide Run, Counted, Lost, Doubled;
      var op, t, rest := ops[0], Step(s, ops[0]), ops[1..];
      RunFirst(s, ops, unit, k);
      StepShape(s, op, unit, k);
      StepAccounts(s, op, unit, k);
      EverythingAccounted(t, rest, unit, k);
      Chain(Accounted(s, unit, k), Accounted(t, unit, k), Accounted(Run(t, rest).value, unit, k),
            if op.OpReset? then HeldBy(s, unit, k) else 0,
            CountedBy(op, unit, k) + (if op.OpDump? then HeldBy(s, unit, k) else 0),
            Lost(t, rest, unit, k), Counted(rest, unit, k) + Doubled(t, rest, unit, k));
    }
  }

  lemma {:induction false} RunFirst(s: State, ops: seq<Op>, unit: nat, k: nat)
    requires Ok(s) && ops != [] && Run(s, ops).Some?
    ensures Legal(s, ops[0]) && Run(s, ops) == Run(Step(s, ops[0]), ops[1..])
    ensures Counted(ops, unit, k) == CountedBy(ops[0], unit, k) + Counted(ops[1..], unit, k)
    ensures var t, rest := Step(s, ops[0]), ops[1..];
      && Lost(s, ops, unit, k) == (if ops[0].OpReset? then HeldBy(s, unit, k) else 0) + Lost(t, rest, unit, k)
      && Doubled(s, ops, unit, k) == (if ops[0].OpDump? then HeldBy(s, unit, k) else 0) + Doubled(t, rest, unit, k)
  {
    hide Step, Legal, HeldBy;
  }

  lemma {:induction false} StepShape(s: State, op: Op, unit: nat, k: nat)
    requires Ok(s) && Legal(s, op) && unit < |s.counters| && k < |s.counters[unit]|
    ensures var t := Step(s, op);
      Ok(t) && unit < |t.counters| && k < |t.counters[unit]|
  {
  }

  // ----- the two flags of a run

  /** No reset or flush from the `i`-th operation on. */
  predicate NoneClears(ops: seq<Op>, i: nat) {
    forall j :: i <= j < |ops| ==> !ops[j].OpReset? && !ops[j].OpFlush?
  }

  /** The last dump, flush or reset was a dump: the `i`-th operation, with no reset or flush after. */
  predicate DumpedLast(ops: seq<Op>) {
    exists i :: 0 <= i < |ops| && ops[i].OpDump? && NoneClears(ops, i + 1)
  }

  /** Exit finds a dump made exactly when the last dump, flush or reset was a dump, or there was
      none and the flag was set before. */
  lemma {:induction false} DumpedIffLast(s: State, ops: seq<Op>)
    requires Ok(s) && Run(s, ops).Some?
    ensures Run(s, ops).value.dumped <==> DumpedLast(ops) || (s.dumped && NoneClears(ops, 0))
    decreases ops
  {
    if ops != [] {
      DumpedIffLast(Step(s, ops[0]), ops[1..]);
      LastOfRest(ops);
    }
  }

  lemma {:induction false} LastOfRest(ops: seq<Op>)
    requires ops != []
    ensures NoneClears(ops, 1) <==> NoneClears(ops[1..], 0)
    ensures NoneClears(ops, 0) <==> !ops[0].OpReset? && !ops[0].OpFlush? && NoneClears(ops, 1)
    ensures DumpedLast(ops) <==> DumpedLast(ops[1..]) || (ops[0].OpDump? && NoneClears(ops, 1))
  {
    var rest := ops[1..];
    assert forall j :: 0 <= j < |rest| ==> rest[j] == ops[j + 1];
    assert forall i: nat :: i < |ops| ==> (NoneClears(ops, i + 1) <==> NoneClears(rest, i)) by {
      forall i: nat | i < |ops|
        ensures NoneClears(ops, i + 1) <==> NoneClears(rest, i)
      {
        SameClears(ops, i);
      }
    }
    if DumpedLast(ops) {
      var i :| 0 <= i < |ops| && ops[i].OpDump? && NoneClears(ops, i + 1);
      if i > 0 {
        assert rest[i - 1].OpDump? && NoneClears(rest, i - 1 + 1);
      }
    }
    if DumpedLast(rest) {
      var i :| 0 <= i < |rest| && rest[i].OpDump? && NoneClears(rest, i + 1);
      assert ops[i + 1].OpDump? && NoneClears(ops, i + 1 + 1);
    }
    if ops[0].OpDump? && NoneClears(ops, 1) {
      assert NoneClears(ops, 0 + 1);
    }
  }

  lemma {:induction false} SameClears(ops: seq<Op>, i: nat)
    requires i < |ops|
    ensures NoneClears(ops, i + 1) <==> NoneClears(ops[1..], i)
  {
    var rest := ops[1..];
    assert forall j :: i <= j < |rest| ==> rest[j] == ops[j + 1];
    if NoneClears(rest, i) {
      forall j | i + 1 <= j < |ops|
        ensures !ops[j].OpReset? && !ops[j].OpFlush?
      {
        assert ops[j] == rest[j - 1];
      }
    }
  }

  /** What is in no file when the program ends: a counter of a unit that is not listed, and any
      counter when exit finds a dump made already. */
  function Unwritten(t: State, unit: nat, k: nat): nat
    requires unit < |t.counters| && k < |t.counters[unit]|
  {
    if t.dumped || unit !in t.units then t.counters[unit][k] else 0
  }

  /** Over any run of the program from its start, registrations, counts, dumps, resets and
      flushes in any order, what the files written up to exit say of a counter, what resets
      took and what is in no file add up to the counts made and what dumps wrote twice. */
  lemma {:induction false} FilesAgainstCounts(counters: seq<seq<u64>>, ops: seq<Op>, unit: nat, k: nat)
    requires unit < |counters| && k < |counters[unit]| && counters[unit][k] == 0
    requires Run(Start(counters), ops).Some?
    ensures var s, t := Start(counters), Run(Start(counters), ops).value;
      && unit < |t.counters| && k < |t.counters[unit]| && (t.dumped <==> DumpedLast(ops))
      && Congruent(Emitted(AtExit(t).emitted, unit, k) + (Unwritten(t, unit, k) + Lost(s, ops, unit, k)),
                   Counted(ops, unit, k) + Doubled(s, ops, unit, k))
  {
    hide Congruent, Run, Counted, Lost, Doubled, Emissions;
    var s, t := Start(counters), Run(Start(counters), ops).value;
    EverythingAccounted(s, ops, unit, k);
    DumpedIffLast(s, ops);
    DumpAccounts(t, unit, k);
  }

  /** No dump or reset but those of flushes. */
  predicate FlushOnly(ops: seq<Op>) {
    forall i :: 0 <= i < |ops| ==> !ops[i].OpDump? && !ops[i].OpReset?
  }

  lemma {:induction false} FlushesAreExact(s: State, ops: seq<Op>, unit: nat, k: nat)
    requires Ok(s) && Run(s, ops).Some? && FlushOnly(ops)
    ensures Lost(s, ops, unit, k) == 0 && Doubled(s, ops, unit, k) == 0 && !DumpedLast(ops)
    decreases ops
  {
    if ops != [] {
      hide Step;
      FlushesAreExact(Step(s, ops[0]), ops[1..], unit, k);
    }
  }

  /** Over any run that dumps only by flushing, the files written by the flushes and at exit
      add up, for every counter of every listed unit, to exactly the counts made. */
  lemma {:induction false} CountsAreConserved(counters: seq<seq<u64>>, ops: seq<Op>, unit: nat, k: nat)
    requires unit < |counters| && k < |counters[unit]| && counters[unit][k] == 0
    requires Run(Start(counters), ops).Some? && FlushOnly(ops)
    requires unit in Run(Start(counters), ops).value.units
    ensures Congruent(Emitted(AtExit(Run(Start(counters), ops).value).emitted, unit, k), Counted(ops, unit, k))
  {
    hide Congruent, Run, Counted, Lost, Doubled, AtExit, Emitted;
    FilesAgainstCounts(counters, ops, unit, k);
    FlushesAreExact(Start(counters), ops, unit, k);
  }

  /** A run that fails to: registered, counted, dumped, and counted again. The files say 1. */
  lemma {:induction false} DumpThenCountAtAnInput()
    ensures var s, ops := Start([[0]]), [OpInit(0, true), OpCount(0, 0), OpDump, OpCount(0, 0)];
      && Run(s, ops).Some?
      && Emitted(AtExit(Run(s, ops).value).emitted, 0, 0) == 1 && Counted(ops, 0, 0) == 2
  {
    hide Run, Counted, Ok, Legal, Step, Emitted;
    var s, a, b, c := Start([[0]]), OpInit(0, true), OpCount(0, 0), OpDump;
    assert [a, b, c, b] == [a] + ([b] + ([c] + ([b] + [])));
    FourStates();
    RunOne(s, a, [b] + ([c] + ([b] + [])));
    RunOne(State([0], [[0]], true, false, 1, []), b, [c] + ([b] + []));
    RunOne(State([0], [[1]], true, false, 1, []), c, [b] + []);
    RunOne(State([0], [[1]], true, true, 1, [Emission(0, [1])]), b, []);
    RunNone(State([0], [[2]], true, true, 1, [Emission(0, [1])]));
    EmittedNow();
  }

  lemma {:induction false} RunOne(s: State, op: Op, rest: seq<Op>)
    requires Ok(s) && Legal(s, op)
    ensures Run(s, [op] + rest) == Run(Step(s, op), rest)
    ensures Counted([op] + rest, 0, 0) == CountedBy(op, 0, 0) + Counted(rest, 0, 0)
  {
    hide Step, Legal, Ok;
    assert ([op] + rest)[1..] == rest;
  }

  lemma {:induction false} RunNone(s: State)
    requires Ok(s)
    ensures Run(s, []) == Some(s) && Counted([], 0, 0) == 0
  {
  }

  lemma {:induction false} FourStates()
    ensures var s0, s1 := Start([[0]]), State([0], [[0]], true, false, 1, []);
      Ok(s0) && Legal(s0, OpInit(0, true)) && Step(s0, OpInit(0, true)) == s1
    ensures var s1, s2 := State([0], [[0]], true, false, 1, []), State([0], [[1]], true, false, 1, []);
      Ok(s1) && Legal(s1, OpCount(0, 0)) && Step(s1, OpCount(0, 0)) == s2
    ensures var s2, s3 := State([0], [[1]], true, false, 1, []), State([0], [[1]], true, true, 1, [Emission(0, [1])]);
      Ok(s2) && Legal(s2, OpDump) && Step(s2, OpDump) == s3
    ensures var s3, s4 := State([0], [[1]], true, true, 1, [Emission(0, [1])]),
                          State([0], [[2]], true, true, 1, [Emission(0, [1])]);
      Ok(s3) && Legal(s3, OpCount(0, 0)) && Step(s3, OpCount(0, 0)) == s4 && Ok(s4)
  {
    assert [0] + [] == [0] && [0][1..] == [];
    assert Emissions([0], [[1]]) == [Emission(0, [1])];
    assert [[0]][0 := [1]] == [[1]] && [[1]][0 := [2]] == [[2]] && [0][0 := 1] == [1] && [1][0 := 2] == [2];
  }

  lemma {:induction false} EmittedNow()
    ensures Emitted([Emission(0, [1])], 0, 0) == 1
  {
    assert [Emission(0, [1])][1..] == [];
  }
}
