/** What the file of a unit holds after any number of runs, whatever was at its place before
(lib/gcov/gcov.c, lines 256 to 276, and src/ir/gcov.c, lines 1319 to 1324). */
module GcdaRuns {
  import opened Arith
  import opened Bytes
  import opened GcovFile
  import opened Prelude
  import opened GcdaMerge
  import opened GcdaAccumulate
  import opened GcdaPacked

  // ----- what was there before

  /** No image of the unit is merged with these bytes. */
  ghost predicate Foreign(o: Order, u: Unit, q: seq<byte>) {
    forall c: seq<u64>, r: u32 :: UnitOk(u, c) ==> !Mergeable(Image(o, u, c, r), q)
  }

  /** A file of another program, or of another byte order, is foreign, and one of this program
      is not. */
  lemma {:induction false} ForeignIffOther(o: Order, u: Unit, c: seq<u64>, o': Order, v: Unit, d: seq<u64>, r': u32)
    requires UnitOk(u, c) && UnitOk(v, d)
    ensures Foreign(o, u, Image(o', v, d, r')) <==> !(o == o' && SameProgram(u, v))
  {
    hide Image, Mergeable, SameProgram, UnitOk;
    forall c': seq<u64>, r: u32 | UnitOk(u, c')
      ensures Mergeable(Image(o, u, c', r), Image(o', v, d, r')) <==> o == o' && SameProgram(u, v)
    {
      MergeableIffSameProgram(o, u, c', r, o', v, d, r');
    }
    MergeableIffSameProgram(o, u, c, 1, o', v, d, r');
    assert Foreign(o, u, Image(o', v, d, r')) ==> !Mergeable(Image(o, u, c, 1), Image(o', v, d, r'));
  }

  /** Bytes that are no .gcda file are foreign. */
  lemma {:induction false} NoFileIsForeign(o: Order, u: Unit, q: seq<byte>)
    requires OrderOf(q) == None
    ensures Foreign(o, u, q)
  {
  }

  /** Whether bytes are merged with a unit's image does not depend on the image's counters and
      runs: they are foreign, or every image is merged with them. */
  lemma {:induction false} ForeignOrNot(o: Order, u: Unit, c: seq<u64>, r: u32, q: seq<byte>)
    requires UnitOk(u, c)
    ensures Mergeable(Image(o, u, c, r), q) <==> !Foreign(o, u, q)
  {
    hide Image, Mergeable, SameProgram, UnitOk;
    if !Foreign(o, u, q) {
      var c': seq<u64>, r': u32 :| UnitOk(u, c') && Mergeable(Image(o, u, c', r'), q);
      MergeableIffSameProgram(o, u, c', r', o, u, c, r);
      SameItself(u);
      MergeableAlike(Image(o, u, c', r'), Image(o, u, c, r), q);
    }
  }

  lemma {:induction false} NativeRoom(o: Order, u: Unit, q: seq<byte>)
    requires !Foreign(o, u, q)
    ensures FirstRecord(u) <= |q| && Room(u, q, 0, FirstRecord(u))
  {
    hide Image, Mergeable, UnitOk, Room;
    var c: seq<u64>, r: u32 :| UnitOk(u, c) && Mergeable(Image(o, u, c, r), q);
    MergeableRoom(o, u, c, r, q);
  }

  /** What the bytes at the place count for: nothing when they are foreign, else the counters
      that a merge reads in them. */
  ghost function Prior(o: Order, u: Unit, was: Option<seq<byte>>): (prior: seq<seq<u64>>)
    ensures forall j :: 0 <= j < |prior| ==> |prior[j]| == Size(u)
  {
    if was.None? || Foreign(o, u, was.value) then []
    else NativeRoom(o, u, was.value); [ReadAll(o, u, was.value)]
  }

  /** ...and the runs. */
  ghost function PriorRuns(o: Order, u: Unit, was: Option<seq<byte>>): u32 {
    if was.None? || Foreign(o, u, was.value) then 0
    else NativeRoom(o, u, was.value); RunsIn(o, u, was.value)
  }

  /** An image of the unit counts for its own counters and runs. */
  lemma {:induction false} PriorImage(o: Order, u: Unit, d: seq<u64>, r: u32)
    requires UnitOk(u, d)
    ensures Prior(o, u, Some(Image(o, u, d, r))) == [Pack(u, d)] && PriorRuns(o, u, Some(Image(o, u, d, r))) == r
  {
    hide Image, Foreign, SameProgram, UnitOk, Pack, Room, ReadAll, RunsIn;
    ForeignIffOther(o, u, d, o, u, d, r);
    SameItself(u);
    ImageReads(o, u, d, r);
  }

  // ----- any number of runs

  /** Runs with as many counters each. */
  predicate Even(runs: seq<seq<u64>>) {
    runs != [] && forall i :: 0 <= i < |runs| ==> |runs[i]| == |runs[0]|
  }

  predicate AllOk(u: Unit, runs: seq<seq<u64>>) {
    forall i :: 0 <= i < |runs| ==> UnitOk(u, runs[i])
  }

  function TotalCounts(runs: seq<seq<u64>>): seq<u64>
    requires Even(runs)
    ensures |TotalCounts(runs)| == |runs[0]|
  {
    if |runs| == 1 then runs[0] else Sums(runs[|runs| - 1], TotalCounts(runs[..|runs| - 1]))
  }

  lemma {:induction false} TotalSnoc(runs: seq<seq<u64>>, c: seq<u64>)
    requires Even(runs) && |c| == |runs[0]|
    ensures Even(runs + [c]) && TotalCounts(runs + [c]) == Sums(c, TotalCounts(runs))
  {
    var all := runs + [c];
    assert all[..|all| - 1] == runs && all[|all| - 1] == c;
  }

  /** The file after a program ran several times, each run's image merging what is there. */
  function Accumulated(o: Order, u: Unit, was: Option<seq<byte>>, runs: seq<seq<u64>>): Option<seq<byte>>
    requires AllOk(u, runs)
  {
    if runs == [] then was else
    var k := |runs| - 1;
    Some(Stored(Accumulated(o, u, was, runs[..k]), Image(o, u, runs[k], 1)))
  }

  function Wrapped(n: nat): u32 {
    n % 0x1_0000_0000
  }

  lemma {:induction false} OneMoreRun(r: u32, k: nat)
    ensures AddRuns(1, AddRuns(r, Wrapped(k))) == AddRuns(r, Wrapped(k + 1))
  {
    AddRest(r, k);
    AddRest(1, r + k);
    AddRest(r, k + 1);
  }

  lemma {:induction false} AddRest(a: nat, b: nat)
    ensures (a + b % 0x1_0000_0000) % 0x1_0000_0000 == (a + b) % 0x1_0000_0000
  {
    DivModBack(b, 0x1_0000_0000);
    ModShift(a + b % 0x1_0000_0000, b / 0x1_0000_0000, 0x1_0000_0000);
  }

  lemma {:induction false} NoRun(r: u32)
    ensures AddRuns(r, Wrapped(0)) == r
  {
  }

  predicate RunsOk(u: Unit, runs: seq<seq<u64>>) {
    Even(runs) && AllOk(u, runs)
  }

  /** Each run's counters in the file's order. */
  function PackAll(u: Unit, runs: seq<seq<u64>>): (ps: seq<seq<u64>>)
    requires AllOk(u, runs)
    ensures |ps| == |runs| && forall j :: 0 <= j < |ps| ==> |ps[j]| == Size(u)
  {
    seq(|runs|, i requires 0 <= i < |runs| => Pack(u, runs[i]))
  }

  lemma {:induction false} PackAllSnoc(u: Unit, runs: seq<seq<u64>>, c: seq<u64>)
    requires AllOk(u, runs) && AllOk(u, runs + [c])
    ensures UnitOk(u, c) && PackAll(u, runs + [c]) == PackAll(u, runs) + [Pack(u, c)]
  {
    hide Pack, UnitOk;
    var all := runs + [c];
    assert all[|runs|] == c && forall i :: 0 <= i < |runs| ==> all[i] == runs[i];
  }

  /** What is at the place stands for `packs` and `r` runs. */
  ghost predicate StandsFor(o: Order, u: Unit, was: Option<seq<byte>>, packs: seq<seq<u64>>, r: u32) {
    if packs == [] then r == 0 && (was.None? || Foreign(o, u, was.value))
    else
      && Even(packs) && |packs[0]| == Size(u) && was.Some?
      && ((UnitOk(PackedUnit(u), TotalCounts(packs)) && was.value == Image(o, PackedUnit(u), TotalCounts(packs), r)) ||
          (packs == Prior(o, u, was) && r == PriorRuns(o, u, was)))
  }

  lemma {:induction false} StandsAtFirst(o: Order, u: Unit, was: Option<seq<byte>>)
    ensures StandsFor(o, u, was, Prior(o, u, was), PriorRuns(o, u, was))
  {
    hide Foreign, Image, UnitOk, ReadAll, RunsIn, TotalCounts;
  }

  /** One more run's image meets what is there. */
  lemma {:induction false} OneMoreImage(o: Order, u: Unit, was: Option<seq<byte>>, packs: seq<seq<u64>>, r: u32,
                                        c: seq<u64>)
    requires UnitOk(u, c) && Covered(u, |c|) && StandsFor(o, u, was, packs, r)
    ensures Even(packs + [Pack(u, c)]) && UnitOk(PackedUnit(u), TotalCounts(packs + [Pack(u, c)]))
    ensures Stored(was, Image(o, u, c, 1)) ==
      Image(o, PackedUnit(u), TotalCounts(packs + [Pack(u, c)]), AddRuns(1, r))
  {
    hide Image, Mergeable, Merged, UnitOk, Sums, Covered, Foreign, Pack, PackedUnit, ReadAll, RunsIn, AddRuns;
    var p, v := Pack(u, c), PackedUnit(u);
    PackedImage(o, u, c, 1);
    PackedFits(u, c);
    if packs == [] {
      assert packs + [p] == [p];
      if was.Some? {
        ForeignOrNot(o, u, c, 1, was.value);
      }
      AddNone();
    } else {
      TotalSnoc(packs, p);
      if packs == Prior(o, u, was) && r == PriorRuns(o, u, was) {
        ForeignOrNot(o, u, c, 1, was.value);
        MergedWithAny(o, u, c, 1, was.value);
      } else {
        RunsAccumulate(o, v, p, TotalCounts(packs), 1, r);
      }
    }
  }

  lemma {:induction false} AddNone()
    ensures AddRuns(1, 0) == 1
  {
  }

  lemma {:induction false} RunsSplit(u: Unit, before: seq<seq<u64>>, c: seq<u64>)
    requires RunsOk(u, before + [c])
    ensures AllOk(u, before) && AllOk(u, before + [c]) && UnitOk(u, c) && |(before + [c])[0]| == |c|
    ensures before != [] ==> RunsOk(u, before) && |before[0]| == |c|
  {
    hide UnitOk;
    var all := before + [c];
    assert c == all[|all| - 1] && forall i :: 0 <= i < |before| ==> before[i] == all[i];
  }

  lemma {:induction false} AccumulatedSnoc(o: Order, u: Unit, was: Option<seq<byte>>, runs: seq<seq<u64>>, c: seq<u64>)
    requires AllOk(u, runs) && AllOk(u, runs + [c])
    ensures UnitOk(u, c)
    ensures Accumulated(o, u, was, runs + [c]) == Some(Stored(Accumulated(o, u, was, runs), Image(o, u, c, 1)))
  {
    hide Stored, Image;
    var all := runs + [c];
    assert all[..|all| - 1] == runs && all[|all| - 1] == c;
  }

  /** However often the program ran, and whatever bytes were there, the file is that of all its
      counts on top of the counters that a merge reads in those bytes; foreign ones are replaced. */
  lemma {:induction false} FileHoldsAllRuns(o: Order, u: Unit, was: Option<seq<byte>>, runs: seq<seq<u64>>)
    requires runs != [] && RunsOk(u, runs) && Covered(u, |runs[0]|)
    ensures var all := Prior(o, u, was) + PackAll(u, runs);
      && Even(all) && |all[0]| == Size(u) && UnitOk(PackedUnit(u), TotalCounts(all))
      && Accumulated(o, u, was, runs) ==
         Some(Image(o, PackedUnit(u), TotalCounts(all), AddRuns(PriorRuns(o, u, was), Wrapped(|runs|))))
    decreases runs
  {
    hide Image, UnitOk, Covered, Wrapped, AddRuns, Stored, Accumulated, Foreign, TotalCounts, AllOk, Even, Pack,
      PackAll, Prior, PriorRuns, StandsFor, PackedUnit;
    var k, r := |runs| - 1, PriorRuns(o, u, was);
    var before, c, prior := runs[..k], runs[k], Prior(o, u, was);
    assert runs == before + [c];
    RunsSplit(u, before, c);
    AccumulatedSnoc(o, u, was, before, c);
    PackAllSnoc(u, before, c);
    Assoc(prior, PackAll(u, before), [Pack(u, c)]);
    OneMoreRun(r, k);
    EvenLong(u, prior, PackAll(u, runs));
    if k == 0 {
      NoRun(r);
      NothingYet(o, u, was);
      assert before == [] && prior + [] == prior;
      StandsAtFirst(o, u, was);
      OneMoreImage(o, u, was, prior, r, c);
    } else {
      FileHoldsAllRuns(o, u, was, before);
      EvenLong(u, prior, PackAll(u, before));
      StandsLater(o, u, Accumulated(o, u, was, before).value, prior + PackAll(u, before), AddRuns(r, Wrapped(k)));
      OneMoreImage(o, u, Accumulated(o, u, was, before), prior + PackAll(u, before), AddRuns(r, Wrapped(k)), c);
    }
  }

  lemma {:induction false} EvenLong(u: Unit, a: seq<seq<u64>>, b: seq<seq<u64>>)
    requires (forall j :: 0 <= j < |a| ==> |a[j]| == Size(u)) && (forall j :: 0 <= j < |b| ==> |b[j]| == Size(u))
    ensures a + b != [] ==> Even(a + b) && |(a + b)[0]| == Size(u)
  {
    hide Size;
    assert forall j :: 0 <= j < |a + b| ==> (a + b)[j] == if j < |a| then a[j] else b[j - |a|];
  }

  lemma {:induction false} StandsLater(o: Order, u: Unit, q: seq<byte>, packs: seq<seq<u64>>, r: u32)
    requires Even(packs) && |packs[0]| == Size(u) && UnitOk(PackedUnit(u), TotalCounts(packs))
    requires q == Image(o, PackedUnit(u), TotalCounts(packs), r)
    ensures StandsFor(o, u, Some(q), packs, r)
  {
    hide Image, Foreign, UnitOk, TotalCounts;
  }

  lemma {:induction false} NothingYet(o: Order, u: Unit, was: Option<seq<byte>>)
    ensures AllOk(u, []) && Accumulated(o, u, was, []) == was && PackAll(u, []) == []
  {
  }

  predicate AllHave(runs: seq<seq<u64>>, i: nat) {
    forall j :: 0 <= j < |runs| ==> i < |runs[j]|
  }

  /** Every run's value of counter `i` added up. */
  function SumAt(runs: seq<seq<u64>>, i: nat): nat
    requires AllHave(runs, i)
  {
    if runs == [] then 0 else runs[|runs| - 1][i] + SumAt(runs[..|runs| - 1], i)
  }

  lemma {:induction false} AddWrapped(a: u64, s: nat)
    ensures Add64(a, s % 0x1_0000_0000_0000_0000) == (a + s) % 0x1_0000_0000_0000_0000
  {
  }

  /** The accumulated counters are the plain sums, modulo the counter's width. */
  lemma {:induction false} TotalIsSum(runs: seq<seq<u64>>, i: nat)
    requires Even(runs) && i < |runs[0]|
    ensures TotalCounts(runs)[i] == SumAt(runs, i) % 0x1_0000_0000_0000_0000
  {
    hide Add64;
    var k := |runs| - 1;
    var before := runs[..k];
    if k == 0 {
      assert before == [];
    } else {
      TotalIsSum(before, i);
      AddWrapped(runs[k][i], SumAt(before, i));
    }
  }
}
