/** The whole way of a count: from the instrumented program on a board, through the console, to
the .gcda file that the host's `--gcov-extract` keeps (src/ir/gcov.c, lines 1271 to 1344).
The host's files are a map from paths to bytes. */
module GcovHost {
  import opened Arith
  import opened Bytes
  import opened GcovFile
  import opened Prelude
  import opened GcovConsole
  import opened GcovRun
  import opened GcdaMerge
  import opened GcdaAccumulate
  import opened GcdaPacked
  import opened GcdaRuns
  import GcovExtract
  import Gcov

  // ----- what the host does with a log

  type Files = map<string, seq<byte>>

  /** Lines 1312 to 1333: a whole file is merged with the one there if they are of one
      program, and written; one that is cut short is not. */
  function Deposit(fs: Files, e: Entry): Files {
    match e
    case CutShort(_) => fs
    case Got(path, img) =>
      fs[path := Stored(Lookup(fs, path), img)]
  }

  function Lookup(fs: Files, path: string): Option<seq<byte>> { if path in fs then Some(fs[path]) else None }

  function DepositAll(fs: Files, es: seq<Entry>): Files {
    if es == [] then fs else Deposit(DepositAll(fs, es[..|es| - 1]), es[|es| - 1])
  }

  /** An entry that is cut short leaves the file of every path as it was; a whole one changes its
      own path's file alone. */
  lemma {:induction false} OnlyItsOwn(fs: Files, e: Entry, path: string)
    ensures Lookup(Deposit(fs, e), path) ==
      if e.Got? && path == e.path then Some(Stored(Lookup(fs, path), e.img)) else Lookup(fs, path)
  {
    hide Stored;
    if e.Got? && path == e.path {
      assert path in Deposit(fs, e).Keys;
    }
  }

  /** One entry written, the merge done in place on the new image. */
  method StoreEntry(fs: Files, e: Entry) returns (r: Files)
    ensures r == Deposit(fs, e)
    ensures e.CutShort? ==> r == fs
    ensures e.Got? ==> forall p :: p != e.path ==> Lookup(r, p) == Lookup(fs, p)
    ensures e.Got? ==> Lookup(r, e.path) == Some(Stored(Lookup(fs, e.path), e.img))
  {
    hide Mergeable, Merged;
    match e {
      case CutShort(_) => r := fs;
      case Got(path, img) =>
        var a := new byte[|img|](i requires 0 <= i < |img| => img[i]);
        assert a[..] == img;
        if path in fs {
          var merged := Merge(a, fs[path]);
        }
        r := fs[path := a[..]];
    }
  }

  /** gcov_extract on one log. */
  method StoreLog(fs: Files, log: string) returns (r: Files)
    ensures r == DepositAll(fs, Extract(log))
  {
    hide Deposit, Extract;
    var es := GcovExtract.ExtractLog(log);
    r := fs;
    for i := 0 to |es|
      invariant r == DepositAll(fs, es[..i])
    {
      assert es[..i + 1][..i] == es[..i];
      r := StoreEntry(r, es[i]);
    }
    assert es[..|es|] == es;
  }

  // ----- the emissions of one unit

  /** The counters a unit was emitted with, in order. */
  function PerUnit(es: seq<Emission>, u: nat): seq<seq<u64>> {
    if es == [] then [] else
    PerUnit(es[..|es| - 1], u) + if es[|es| - 1].unit == u then [es[|es| - 1].counters] else []
  }

  /** A program: its units, with as many counters as `counters` has, each file in its place. */
  predicate Program(infos: seq<Unit>, counters: seq<seq<u64>>) {
    && |infos| == |counters|
    && (forall u :: 0 <= u < |infos| ==>
          UnitOk(infos[u], counters[u]) && PlainPath(infos[u].path) && ImageSize(infos[u]) <= ULONG_MAX)
    && (forall u, v :: 0 <= u < v < |infos| ==> infos[u].path != infos[v].path)
  }

  predicate Shaped(counters: seq<seq<u64>>, es: seq<Emission>) {
    forall i :: 0 <= i < |es| ==> es[i].unit < |counters| && |es[i].counters| == |counters[es[i].unit]|
  }

  lemma {:induction false} PerUnitShape(counters: seq<seq<u64>>, es: seq<Emission>, u: nat)
    requires Shaped(counters, es) && u < |counters|
    ensures forall j :: 0 <= j < |PerUnit(es, u)| ==> |PerUnit(es, u)[j]| == |counters[u]|
  {
    if es != [] {
      PerUnitShape(counters, es[..|es| - 1], u);
    }
  }

  /** A unit's emissions are runs of it. */
  lemma {:induction false} PerUnitRuns(infos: seq<Unit>, counters: seq<seq<u64>>, es: seq<Emission>, u: nat)
    requires Program(infos, counters) && Shaped(counters, es) && u < |infos|
    ensures AllOk(infos[u], PerUnit(es, u))
    ensures PerUnit(es, u) != [] ==> RunsOk(infos[u], PerUnit(es, u)) && |PerUnit(es, u)[0]| == |counters[u]|
  {
    hide PerUnit;
    PerUnitShape(counters, es, u);
  }

  lemma {:induction false} InPerUnit(es: seq<Emission>, i: nat)
    requires i < |es|
    ensures PerUnit(es, es[i].unit) != []
  {
    if i < |es| - 1 {
      InPerUnit(es[..|es| - 1], i);
    }
  }

  lemma {:induction false} EmittedSingle(e: Emission, u: nat, k: nat)
    ensures Emitted([e], u, k) == if e.unit == u && k < |e.counters| then e.counters[k] else 0
  {
  }

  lemma {:induction false} SumSnoc(runs: seq<seq<u64>>, c: seq<u64>, k: nat)
    requires AllHave(runs, k) && k < |c|
    ensures AllHave(runs + [c], k) && SumAt(runs + [c], k) == c[k] + SumAt(runs, k)
  {
    var all := runs + [c];
    assert all[..|all| - 1] == runs && all[|all| - 1] == c;
  }

  lemma {:induction false} NoneEmitted(u: nat, k: nat)
    ensures PerUnit([], u) == [] && AllHave([], k) && SumAt([], k) == 0 && Emitted([], u, k) == 0
  {
  }

  lemma {:induction false} LastShaped(counters: seq<seq<u64>>, es: seq<Emission>)
    requires Shaped(counters, es) && es != []
    ensures Shaped(counters, es[..|es| - 1])
    ensures var e := es[|es| - 1]; e.unit < |counters| && |e.counters| == |counters[e.unit]|
  {
  }

  lemma {:induction false} PerUnitSnoc(es: seq<Emission>, e: Emission, u: nat)
    ensures PerUnit(es + [e], u) == if e.unit == u then PerUnit(es, u) + [e.counters] else PerUnit(es, u)
  {
    var all := es + [e];
    assert all[..|all| - 1] == es && all[|all| - 1] == e;
  }

  /** The sum over a unit's emissions is the sum over all that are its. */
  lemma {:induction false} SumOfUnit(counters: seq<seq<u64>>, es: seq<Emission>, u: nat, k: nat)
    requires Shaped(counters, es) && u < |counters| && k < |counters[u]|
    ensures AllHave(PerUnit(es, u), k) && SumAt(PerUnit(es, u), k) == Emitted(es, u, k)
  {
    hide Emitted, PerUnit, SumAt, Shaped, AllHave;
    if es == [] {
      NoneEmitted(u, k);
    } else {
      var n := |es| - 1;
      var before, e := es[..n], es[n];
      LastShaped(counters, es);
      assert es == before + [e];
      SumOfUnit(counters, before, u, k);
      EmittedAppend(before, [e], u, k);
      EmittedSingle(e, u, k);
      PerUnitSnoc(before, e, u);
      if e.unit == u {
        SumSnoc(PerUnit(before, u), e.counters, k);
      }
    }
  }

  // ----- the files the host keeps

  /** The files of the emissions, as the log has them. */
  function FilesOf(o: Order, infos: seq<Unit>, counters: seq<seq<u64>>, es: seq<Emission>): (fs: seq<Entry>)
    requires Program(infos, counters) && Shaped(counters, es)
    ensures |fs| == |es|
  {
    seq(|es|, i requires 0 <= i < |es| => Got(infos[es[i].unit].path, Image(o, infos[es[i].unit], es[i].counters, 1)))
  }

  /** What the host then has of a unit is its emissions accumulated on what it had; files of
      other units do not come into it. */
  lemma {:induction false} Deposited(o: Order, infos: seq<Unit>, counters: seq<seq<u64>>, es: seq<Emission>, u: nat,
                                     fs: Files)
    requires Program(infos, counters) && Shaped(counters, es) && u < |infos|
    ensures AllOk(infos[u], PerUnit(es, u))
    ensures Lookup(DepositAll(fs, FilesOf(o, infos, counters, es)), infos[u].path) ==
      Accumulated(o, infos[u], Lookup(fs, infos[u].path), PerUnit(es, u))
  {
    hide Image, UnitOk, Stored, Accumulated, AllOk, Even, FilesOf, DepositAll, PerUnit, Program, Shaped;
    var path := infos[u].path;
    PerUnitRuns(infos, counters, es, u);
    if es == [] {
      NothingYet(o, infos[u], Lookup(fs, path));
      NoEmission(o, infos, counters, fs, u);
    } else {
      var n := |es| - 1;
      var before, e := es[..n], es[n];
      assert es == before + [e];
      LastShaped(counters, es);
      FilesSnoc(o, infos, counters, before, e);
      DepositSnoc(fs, FilesOf(o, infos, counters, before),
        Got(infos[e.unit].path, Image(o, infos[e.unit], e.counters, 1)));
      Deposited(o, infos, counters, before, u, fs);
      PerUnitSnoc(before, e, u);
      if e.unit == u {
        AccumulatedSnoc(o, infos[u], Lookup(fs, path), PerUnit(before, u), e.counters);
      } else {
        PathsApart(infos, counters, e.unit, u);
      }
    }
  }

  lemma {:induction false} NoEmission(o: Order, infos: seq<Unit>, counters: seq<seq<u64>>, fs: Files, u: nat)
    requires Program(infos, counters)
    ensures Shaped(counters, []) && DepositAll(fs, FilesOf(o, infos, counters, [])) == fs && PerUnit([], u) == []
  {
  }

  lemma {:induction false} FilesSnoc(o: Order, infos: seq<Unit>, counters: seq<seq<u64>>, es: seq<Emission>,
                                     e: Emission)
    requires Program(infos, counters) && Shaped(counters, es) && Shaped(counters, es + [e])
    ensures e.unit < |infos| && UnitOk(infos[e.unit], e.counters)
    ensures FilesOf(o, infos, counters, es + [e]) ==
      FilesOf(o, infos, counters, es) + [Got(infos[e.unit].path, Image(o, infos[e.unit], e.counters, 1))]
  {
    hide Image, ImageSize, PlainPath;
    var all := es + [e];
    assert all[|es|] == e && forall i :: 0 <= i < |es| ==> all[i] == es[i];
  }

  lemma {:induction false} DepositSnoc(fs: Files, xs: seq<Entry>, x: Entry)
    ensures DepositAll(fs, xs + [x]) == Deposit(DepositAll(fs, xs), x)
  {
    hide Deposit;
    assert (xs + [x])[..|xs|] == xs;
  }

  lemma {:induction false} PathsApart(infos: seq<Unit>, counters: seq<seq<u64>>, u: nat, v: nat)
    requires Program(infos, counters) && u < |infos| && v < |infos| && u != v
    ensures infos[u].path != infos[v].path
  {
    hide UnitOk, PlainPath, ImageSize;
  }

  // ----- runs of the program

  /** What a run leaves: every unit has its counters, and every emission is of one of them. */
  predicate Sound(counters: seq<seq<u64>>, s: State) {
    && |s.counters| == |counters| && (forall u :: 0 <= u < |counters| ==> |s.counters[u]| == |counters[u]|)
    && Shaped(counters, s.emitted)
  }

  lemma {:induction false} DumpShaped(counters: seq<seq<u64>>, s: State)
    requires Ok(s) && Sound(counters, s)
    ensures Shaped(counters, s.emitted + Emissions(s.units, s.counters))
  {
    EmissionsAt(s.units, s.counters);
  }

  lemma {:induction false} EmissionsAt(units: seq<nat>, counters: seq<seq<u64>>)
    requires forall i :: 0 <= i < |units| ==> units[i] < |counters|
    ensures var es := Emissions(units, counters);
      |es| == |units| && forall i :: 0 <= i < |es| ==> es[i] == Emission(units[i], counters[units[i]])
  {
    if units != [] {
      EmissionsAt(units[1..], counters);
    }
  }

  lemma {:induction false} StepSound(counters: seq<seq<u64>>, s: State, op: Op)
    requires Ok(s) && Legal(s, op) && Sound(counters, s)
    ensures Sound(counters, Step(s, op))
  {
    if op.OpFlush? || op.OpDump? {
      DumpShaped(counters, s);
    }
  }

  lemma {:induction false} RunSound(counters: seq<seq<u64>>, s: State, ops: seq<Op>)
    requires Ok(s) && Sound(counters, s) && Run(s, ops).Some?
    ensures Sound(counters, Run(s, ops).value)
    decreases ops
  {
    if ops != [] {
      hide Step, Sound;
      StepSound(counters, s, ops[0]);
      RunSound(counters, Step(s, ops[0]), ops[1..]);
    }
  }

  predicate Executes(counters: seq<seq<u64>>, ops: seq<Op>) {
    Run(Start(counters), ops).Some?
  }

  /** What an execution emits, its exit included. */
  function EmittedBy(counters: seq<seq<u64>>, ops: seq<Op>): seq<Emission>
    requires Executes(counters, ops)
  {
    AtExit(Run(Start(counters), ops).value).emitted
  }

  predicate Registers(counters: seq<seq<u64>>, ops: seq<Op>, unit: nat)
    requires Executes(counters, ops)
  {
    unit in Run(Start(counters), ops).value.units
  }

  /** Executions of the program, each from its start, in which `unit` registers and dumps are
      made only by flushing and at exit. */
  predicate Executions(counters: seq<seq<u64>>, execs: seq<seq<Op>>, unit: nat) {
    forall i :: 0 <= i < |execs| ==>
      Executes(counters, execs[i]) && Registers(counters, execs[i], unit) && FlushOnly(execs[i])
  }

  /** Any execution's emissions, its dumps and resets included, are of the program's units. */
  lemma {:induction false} EmissionsShaped(counters: seq<seq<u64>>, ops: seq<Op>)
    requires Executes(counters, ops)
    ensures Shaped(counters, EmittedBy(counters, ops))
  {
    hide Run;
    var t := Run(Start(counters), ops).value;
    RunSound(counters, Start(counters), ops);
    DumpShaped(counters, t);
  }

  function AllEmitted(counters: seq<seq<u64>>, execs: seq<seq<Op>>, unit: nat): seq<Emission>
    requires Executions(counters, execs, unit)
  {
    if execs == [] then [] else
    var n := |execs| - 1;
    AllEmitted(counters, execs[..n], unit) + EmittedBy(counters, execs[n])
  }

  /** How often the executions count a counter. */
  function CountedIn(execs: seq<seq<Op>>, unit: nat, k: nat): nat {
    if execs == [] then 0 else CountedIn(execs[..|execs| - 1], unit, k) + Counted(execs[|execs| - 1], unit, k)
  }

  lemma {:induction false} OneExecution(counters: seq<seq<u64>>, ops: seq<Op>, unit: nat)
    requires Executes(counters, ops) && Registers(counters, ops, unit) && FlushOnly(ops)
    ensures var es := EmittedBy(counters, ops);
      Shaped(counters, es) && exists i :: 0 <= i < |es| && es[i].unit == unit
  {
    hide Run;
    var t := Run(Start(counters), ops).value;
    EmissionsShaped(counters, ops);
    DumpedIffLast(Start(counters), ops);
    EmissionsAt(t.units, t.counters);
    var i :| 0 <= i < |t.units| && t.units[i] == unit;
    assert AtExit(t).emitted[|t.emitted| + i].unit == unit;
  }

  lemma {:induction false} Joined(counters: seq<seq<u64>>, a: seq<Emission>, b: seq<Emission>, unit: nat)
    requires Shaped(counters, a) && Shaped(counters, b) && exists i :: 0 <= i < |b| && b[i].unit == unit
    ensures Shaped(counters, a + b) && PerUnit(a + b, unit) != []
  {
    hide PerUnit;
    var i :| 0 <= i < |b| && b[i].unit == unit;
    assert (a + b)[|a| + i].unit == unit;
    InPerUnit(a + b, |a| + i);
  }

  lemma {:induction false} AllShaped(counters: seq<seq<u64>>, execs: seq<seq<Op>>, unit: nat)
    requires Executions(counters, execs, unit)
    ensures Shaped(counters, AllEmitted(counters, execs, unit))
    ensures execs != [] ==> PerUnit(AllEmitted(counters, execs, unit), unit) != []
  {
    hide Executes, Registers, EmittedBy, PerUnit;
    if execs != [] {
      hide Shaped;
      var n := |execs| - 1;
      AllShaped(counters, execs[..n], unit);
      OneExecution(counters, execs[n], unit);
      Joined(counters, AllEmitted(counters, execs[..n], unit), EmittedBy(counters, execs[n]), unit);
    }
  }

  lemma {:induction false} OneConserved(counters: seq<seq<u64>>, ops: seq<Op>, unit: nat, k: nat)
    requires Executes(counters, ops) && Registers(counters, ops, unit) && FlushOnly(ops)
    requires unit < |counters| && k < |counters[unit]| && counters[unit][k] == 0
    ensures Congruent(Emitted(EmittedBy(counters, ops), unit, k), Counted(ops, unit, k))
  {
    hide Run, Emitted, Counted, Congruent;
    CountsAreConserved(counters, ops, unit, k);
  }

  lemma {:induction false} AllConserved(counters: seq<seq<u64>>, execs: seq<seq<Op>>, unit: nat, k: nat)
    requires Executions(counters, execs, unit)
    requires unit < |counters| && k < |counters[unit]| && counters[unit][k] == 0
    ensures Congruent(Emitted(AllEmitted(counters, execs, unit), unit, k), CountedIn(execs, unit, k))
  {
    hide Executes, Registers, EmittedBy, Counted, Congruent;
    if execs == [] {
      Refl(0);
    } else {
      var n := |execs| - 1;
      AllConserved(counters, execs[..n], unit, k);
      OneConserved(counters, execs[n], unit, k);
      var a, b := AllEmitted(counters, execs[..n], unit), EmittedBy(counters, execs[n]);
      EmittedAppend(a, b, unit, k);
      AddCongruent(Emitted(a, unit, k), CountedIn(execs[..n], unit, k), Emitted(b, unit, k),
        Counted(execs[n], unit, k));
    }
  }

  // ----- the whole way

  /** The log: each emission's file as the board prints it, among other console text. */
  predicate Transcript(o: Order, infos: seq<Unit>, counters: seq<seq<u64>>, es: seq<Emission>, first: string,
                       ds: seq<Dump>)
    requires Program(infos, counters)
  {
    && Shaped(counters, es) && Quiet(first) && |ds| == |es|
    && forall i :: 0 <= i < |es| ==>
      ds[i].path == infos[es[i].unit].path && ds[i].img == Image(o, infos[es[i].unit], es[i].counters, 1) &&
        Quiet(ds[i].after)
  }

  lemma {:induction false} LogSnoc(first: string, ds: seq<Dump>, d: Dump)
    ensures LogOf(first, ds + [d]) == LogOf(first, ds) + Printed(d.path, d.img) + d.after
    decreases ds
  {
    hide Printed;
    if ds == [] {
      assert ds + [d] == [d] && [d][1..] == [];
    } else {
      var p, rest := first + Printed(ds[0].path, ds[0].img), LogOf(ds[0].after, ds[1..]);
      assert (ds + [d])[1..] == ds[1..] + [d];
      LogSnoc(ds[0].after, ds[1..], d);
      Assoc(p, rest + Printed(d.path, d.img), d.after);
      Assoc(p, rest, Printed(d.path, d.img));
    }
  }

  function DumpsOf(o: Order, infos: seq<Unit>, counters: seq<seq<u64>>, es: seq<Emission>): (ds: seq<Dump>)
    requires Program(infos, counters) && Shaped(counters, es)
    ensures |ds| == |es|
  {
    seq(|es|, i requires 0 <= i < |es| => Dump(infos[es[i].unit].path, Image(o, infos[es[i].unit], es[i].counters, 1),
      ""))
  }

  /** The console of a board that prints nothing else is such a log. */
  lemma {:induction false} ConsoleIsLog(o: Order, infos: seq<Unit>, counters: seq<seq<u64>>, es: seq<Emission>)
    requires Program(infos, counters) && Shaped(counters, es)
    ensures Transcript(o, infos, counters, es, "", DumpsOf(o, infos, counters, es))
    ensures Gcov.TextOf(o, infos, es) == LogOf("", DumpsOf(o, infos, counters, es))
  {
    hide Image, Printed, LogOf, ImageSize, UnitOk, PlainPath, Quiet;
    ShortIsQuiet("");
    if es == [] {
      EmptyLog();
    } else {
      var n := |es| - 1;
      var ds := DumpsOf(o, infos, counters, es);
      ConsoleIsLog(o, infos, counters, es[..n]);
      assert ds[..n] == DumpsOf(o, infos, counters, es[..n]) && ds == ds[..n] + [ds[n]];
      LogSnoc("", ds[..n], ds[n]);
    }
  }

  lemma {:induction false} EmptyLog()
    ensures LogOf("", []) == ""
  {
  }

  lemma {:induction false} EntriesAt(ds: seq<Dump>)
    ensures |Entries(ds)| == |ds| && forall i :: 0 <= i < |ds| ==> Entries(ds)[i] == Got(ds[i].path, ds[i].img)
  {
    if ds != [] {
      EntriesAt(ds[1..]);
    }
  }

  lemma {:induction false} ImageIsDump(o: Order, u: Unit, c: seq<u64>)
    requires UnitOk(u, c) && ImageSize(u) <= ULONG_MAX
    ensures OrderOf(Image(o, u, c, 1)) == Some(o) && |Image(o, u, c, 1)| <= ULONG_MAX
  {
    hide FileWords, ImageSize, OrderOf;
    FileLength(u, c, 1);
    OrderBack(o, FileWords(u, c, 1));
    SizeIsExact(o, u, c, 1);
  }

  /** The extractor finds exactly the emissions' files. */
  lemma {:induction false} LogHolds(o: Order, infos: seq<Unit>, counters: seq<seq<u64>>, es: seq<Emission>,
                                    first: string, ds: seq<Dump>)
    requires Program(infos, counters) && Transcript(o, infos, counters, es, first, ds)
    ensures Shaped(counters, es) && Extract(LogOf(first, ds)) == FilesOf(o, infos, counters, es)
  {
    hide Image, Quiet, Extract, LogOf, Entries, OrderOf, ImageSize, UnitOk, PlainPath;
    forall i | 0 <= i < |ds|
      ensures DumpOk(ds[i])
    {
      UnitOkAt(infos, counters, es, i);
      ImageIsDump(o, infos[es[i].unit], es[i].counters);
    }
    ExtractsWhatWasPrinted(first, ds);
    EntriesAt(ds);
  }

  lemma {:induction false} UnitOkAt(infos: seq<Unit>, counters: seq<seq<u64>>, es: seq<Emission>, i: nat)
    requires Program(infos, counters) && Shaped(counters, es) && i < |es|
    ensures es[i].unit < |infos| && UnitOk(infos[es[i].unit], es[i].counters)
  {
  }

  // ----- the sums in the file

  predicate AsLong(prior: seq<seq<u64>>, n: nat) { forall j :: 0 <= j < |prior| ==> |prior[j]| == n }

  /** The counts of `prior` runs and `more`, as 64-bit counters hold them. */
  ghost function Totals(prior: seq<seq<u64>>, more: nat -> nat, n: nat): (t: seq<u64>)
    requires AsLong(prior, n)
    ensures |t| == n
  {
    seq(n, k requires 0 <= k < n => (SumAt(prior, k) + more(k)) % M)
  }

  lemma {:induction false} SumSplits(a: seq<seq<u64>>, b: seq<seq<u64>>, k: nat)
    requires AllHave(a, k) && AllHave(b, k)
    ensures AllHave(a + b, k) && SumAt(a + b, k) == SumAt(a, k) + SumAt(b, k)
    decreases b
  {
    if b == [] {
      assert a + b == a;
    } else {
      hide SumAt;
      var n := |b| - 1;
      assert b == b[..n] + [b[n]] && a + b == (a + b[..n]) + [b[n]];
      SumSplits(a, b[..n], k);
      SumSnoc(b[..n], b[n], k);
      SumSnoc(a + b[..n], b[n], k);
    }
  }

  lemma {:induction false} TotalsOfRuns(prior: seq<seq<u64>>, runs: seq<seq<u64>>, more: nat -> nat, n: nat)
    requires AsLong(prior, n) && AsLong(runs, n) && runs != [] && Even(prior + runs)
    requires forall k :: 0 <= k < n ==> AllHave(runs, k) && Congruent(SumAt(runs, k), more(k))
    ensures TotalCounts(prior + runs) == Totals(prior, more, n)
  {
    hide TotalCounts, SumAt, Congruent;
    var all := prior + runs;
    assert all[|prior|] == runs[0];
    forall k | 0 <= k < n
      ensures TotalCounts(all)[k] == (SumAt(prior, k) + more(k)) % M
    {
      TotalIsSum(all, k);
      SumSplits(prior, runs, k);
      Refl(SumAt(prior, k));
      AddCongruent(SumAt(prior, k), SumAt(prior, k), SumAt(runs, k), more(k));
      Unfold(SumAt(prior, k) + SumAt(runs, k), SumAt(prior, k) + more(k));
    }
  }

  lemma {:induction false} Unfold(a: nat, b: nat)
    requires Congruent(a, b)
    ensures a % M == b % M
  {
  }

  /** A count for each of the unit's own places, by places in the file's order. */
  function AtPlaces(u: Unit, more: nat -> nat): nat -> nat { (i: nat) => more(PlaceOf(u, i)) }

  lemma {:induction false} SumPacked(u: Unit, runs: seq<seq<u64>>, i: nat)
    requires AllOk(u, runs) && i < Size(u) && AllHave(runs, PlaceOf(u, i))
    ensures AllHave(PackAll(u, runs), i) && SumAt(PackAll(u, runs), i) == SumAt(runs, PlaceOf(u, i))
  {
    hide Size, PlaceOf, UnitOk;
    if runs != [] {
      hide SumAt, PackAll;
      var n := |runs| - 1;
      var before, c := runs[..n], runs[n];
      assert runs == before + [c];
      PackAllSnoc(u, before, c);
      SumPacked(u, before, i);
      SumSnoc(before, c, PlaceOf(u, i));
      SumSnoc(PackAll(u, before), Pack(u, c), i);
    }
  }

  lemma {:induction false} PackedSums(u: Unit, n: nat, runs: seq<seq<u64>>, more: nat -> nat, i: nat)
    requires AllOk(u, runs) && runs != [] && |runs[0]| == n && i < Size(u)
    requires forall k :: 0 <= k < n ==> AllHave(runs, k) && Congruent(SumAt(runs, k), more(k))
    ensures AllHave(PackAll(u, runs), i) && Congruent(SumAt(PackAll(u, runs), i), AtPlaces(u, more)(i))
  {
    hide Size, PlaceOf, UnitOk, SumAt, PackAll, Congruent, AllHave;
    PlacesInside(u, runs[0], i);
    SumPacked(u, runs, i);
  }

  /** The host's file of a unit after a log, whatever bytes were there before: the image of what
      was emitted for the unit on top of the counters that a merge reads in those bytes. Foreign
      ones, as of another program or build, are replaced, and a unit that the log does not name
      is left alone. */
  lemma {:induction false} FileHoldsTheLog(o: Order, infos: seq<Unit>, counters: seq<seq<u64>>, es: seq<Emission>,
                                           unit: nat, more: nat -> nat, first: string, ds: seq<Dump>, fs: Files)
    requires Program(infos, counters) && Transcript(o, infos, counters, es, first, ds)
    requires unit < |infos| && Covered(infos[unit], |counters[unit]|)
    requires forall k :: 0 <= k < |counters[unit]| ==> Congruent(Emitted(es, unit, k), more(k))
    ensures var u, was := infos[unit], Lookup(fs, infos[unit].path);
      var now := Lookup(DepositAll(fs, Extract(LogOf(first, ds))), u.path);
      var n, t := |PerUnit(es, unit)|, Totals(Prior(o, u, was), AtPlaces(u, more), Size(u));
      && (n == 0 ==> now == was)
      && (n > 0 ==> UnitOk(PackedUnit(u), t) &&
                    now == Some(Image(o, PackedUnit(u), t, AddRuns(PriorRuns(o, u, was), Wrapped(n)))))
  {
    hide Image, Extract, LogOf, DepositAll, Transcript, PerUnit, Accumulated, FilesOf, UnitOk, ImageSize, PlainPath,
      Covered, AllOk, Even, TotalCounts, Wrapped, AddRuns, Congruent, Emitted, SumAt, AllHave, Totals, Prior, PriorRuns,
      PackAll, PackedUnit, Size, AtPlaces;
    var u, runs, was := infos[unit], PerUnit(es, unit), Lookup(fs, infos[unit].path);
    LogHolds(o, infos, counters, es, first, ds);
    Deposited(o, infos, counters, es, unit, fs);
    if runs == [] {
      NothingYet(o, u, was);
    } else {
      PerUnitRuns(infos, counters, es, unit);
      FileHoldsAllRuns(o, u, was, runs);
      forall k | 0 <= k < |counters[unit]|
        ensures AllHave(runs, k) && Congruent(SumAt(runs, k), more(k))
      {
        SumOfUnit(counters, es, unit, k);
      }
      forall i | 0 <= i < Size(u)
        ensures AllHave(PackAll(u, runs), i) && Congruent(SumAt(PackAll(u, runs), i), AtPlaces(u, more)(i))
      {
        PackedSums(u, |counters[unit]|, runs, more, i);
      }
      TotalsOfRuns(Prior(o, u, was), PackAll(u, runs), AtPlaces(u, more), Size(u));
    }
  }

  /** How often the executions count each counter of a unit. */
  function CountsOf(execs: seq<seq<Op>>, unit: nat): nat -> nat { (k: nat) => CountedIn(execs, unit, k) }

  /** Over any number of executions of the program, with any flushes and any other console text
      among the dumps, and whatever bytes were at its place, the file the host keeps for a unit is
      byte for byte the image of the counts made in all of them, on top of the counters that a
      merge reads in those bytes, and reads back as those. */
  lemma {:induction false} CountsReachTheFile(o: Order, infos: seq<Unit>, counters: seq<seq<u64>>,
                                              execs: seq<seq<Op>>, unit: nat, first: string, ds: seq<Dump>, fs: Files)
    requires Program(infos, counters) && execs != [] && Executions(counters, execs, unit)
    requires unit < |infos| && Covered(infos[unit], |counters[unit]|)
    requires forall k :: 0 <= k < |counters[unit]| ==> counters[unit][k] == 0
    requires Transcript(o, infos, counters, AllEmitted(counters, execs, unit), first, ds)
    ensures var u, v, was := infos[unit], PackedUnit(infos[unit]), Lookup(fs, infos[unit].path);
      var t := Totals(Prior(o, u, was), AtPlaces(u, CountsOf(execs, unit)), Size(u));
      var r := AddRuns(PriorRuns(o, u, was), Wrapped(|PerUnit(AllEmitted(counters, execs, unit), unit)|));
      var now := Lookup(DepositAll(fs, Extract(LogOf(first, ds))), u.path);
      && UnitOk(v, t) && now == Some(Image(o, v, t, r))
      && ReadImage(now.value) ==
         Some(File(u.version, u.stamp, if BytesFormat(u.version) then u.checksum else 0, FnDataFrom(v, t, 0)))
  {
    hide Image, Extract, LogOf, DepositAll, Transcript, AllEmitted, PerUnit, Executions, ReadImage, Totals, Prior,
      PriorRuns, CountedIn, UnitOk, ImageSize, PlainPath, BytesFormat, FnDataFrom, Covered, Congruent, Emitted,
      Wrapped, AddRuns, Size, AtPlaces;
    var es, more, u, was := AllEmitted(counters, execs, unit), CountsOf(execs, unit), infos[unit],
      Lookup(fs, infos[unit].path);
    AllShaped(counters, execs, unit);
    forall k | 0 <= k < |counters[unit]|
      ensures Congruent(Emitted(es, unit, k), more(k))
    {
      AllConserved(counters, execs, unit, k);
    }
    FileHoldsTheLog(o, infos, counters, es, unit, more, first, ds, fs);
    ImageReadsBack(o, PackedUnit(u), Totals(Prior(o, u, was), AtPlaces(u, more), Size(u)),
      AddRuns(PriorRuns(o, u, was), Wrapped(|PerUnit(es, unit)|)));
  }

  /** A unit laid out as the compiler does, on a host that has no file of it or one of another
      program: the file is the unit's own image of exactly the counts made. */
  lemma {:induction false} FreshFileHoldsTheCounts(o: Order, infos: seq<Unit>, counters: seq<seq<u64>>,
                                                   execs: seq<seq<Op>>, unit: nat, first: string, ds: seq<Dump>,
                                                     fs: Files)
    requires Program(infos, counters) && execs != [] && Executions(counters, execs, unit)
    requires unit < |infos| && InOrder(infos[unit]) && |counters[unit]| == Size(infos[unit])
    requires forall k :: 0 <= k < |counters[unit]| ==> counters[unit][k] == 0
    requires Transcript(o, infos, counters, AllEmitted(counters, execs, unit), first, ds)
    requires var was := Lookup(fs, infos[unit].path); was.None? || Foreign(o, infos[unit], was.value)
    ensures var u, t := infos[unit], Totals([], CountsOf(execs, unit), |counters[unit]|);
      && UnitOk(u, t)
      && Lookup(DepositAll(fs, Extract(LogOf(first, ds))), u.path) ==
         Some(Image(o, u, t, Wrapped(|PerUnit(AllEmitted(counters, execs, unit), unit)|)))
  {
    hide Image, Extract, LogOf, DepositAll, Transcript, AllEmitted, PerUnit, Executions, ReadImage, Foreign,
      CountedIn, ImageSize, PlainPath, BytesFormat, FnDataFrom, Wrapped, Size, CountsOf, AddRuns, PlaceOf;
    var u, n, more := infos[unit], |counters[unit]|, CountsOf(execs, unit);
    InOrderIsPacked(u, counters[unit]);
    PackedFits(u, counters[unit]);
    CountsReachTheFile(o, infos, counters, execs, unit, first, ds, fs);
    var t := Totals([], AtPlaces(u, more), n);
    forall i: nat | i < n
      ensures t[i] == Totals([], more, n)[i]
    {
      OwnPlace(u, i);
    }
    assert t == Totals([], more, n);
    RunsFromNone(|PerUnit(AllEmitted(counters, execs, unit), unit)|);
  }

  lemma {:induction false} RunsFromNone(n: nat)
    ensures AddRuns(0, Wrapped(n)) == Wrapped(n)
  {
  }
}
