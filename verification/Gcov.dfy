/** The runtime's registry (lib/gcov/gcov.c, lines 56 and 57 and 321 to 361) for a target
that prints its files: the unit list, the two flags, the counters and the console. */
module Gcov {
  import opened Arith
  import opened GcovFile
  import opened Prelude
  import opened GcovConsole
  import opened GcovWriter
  import R = GcovRun

  /** The console text of emitted files. */
  function TextOf(order: Order, infos: seq<Unit>, es: seq<R.Emission>): string
    requires forall i :: 0 <= i < |es| ==> es[i].unit < |infos| && UnitOk(infos[es[i].unit], es[i].counters)
  {
    if es == [] then "" else
    var e := es[|es| - 1];
    TextOf(order, infos, es[..|es| - 1]) + Printed(infos[e.unit].path, Image(order, infos[e.unit], e.counters, 1))
  }

  class Gcov {
    const order: Order
    const infos: seq<Unit>             // every unit of the program
    var counters: seq<seq<u64>>        // and its counters
    var units: seq<nat>                // g_units
    var hooked: bool                   // g_hooked
    var dumped: bool                   // g_dumped
    var hooks: nat                     // how often at_exit was registered
    var console: string
    ghost var emitted: seq<R.Emission>

    ghost function State(): R.State
      reads this
    {
      R.State(units, counters, hooked, dumped, hooks, emitted)
    }

    ghost predicate Valid()
      reads this
    {
      && R.Ok(State()) && |infos| == |counters|
      && (forall u :: 0 <= u < |infos| ==>
            UnitOk(infos[u], counters[u]) && ImageSize(infos[u]) < 0x1_0000_0000_0000_0000)
      && (forall i :: 0 <= i < |emitted| ==>
            emitted[i].unit < |infos| && UnitOk(infos[emitted[i].unit], emitted[i].counters))
      && console == TextOf(order, infos, emitted)
    }

    constructor (order: Order, infos: seq<Unit>, counters: seq<seq<u64>>)
      requires |infos| == |counters|
      requires forall u :: 0 <= u < |infos| ==>
        UnitOk(infos[u], counters[u]) && ImageSize(infos[u]) < 0x1_0000_0000_0000_0000
      ensures Valid() && State() == R.Start(counters) && this.infos == infos && this.order == order
    {
      this.order, this.infos, this.counters := order, infos, counters;
      units, hooked, dumped, hooks, console, emitted := [], false, false, 0, "", [];
    }

    /** __embcc_gcov_init. */
    method Init(unit: nat, magicOk: bool)
      requires Valid() && unit < |infos| && unit !in units
      modifies this`units, this`hooked, this`hooks
      ensures Valid() && State() == R.Init(old(State()), unit, magicOk)
    {
      hide UnitOk, ImageSize, TextOf;
      if !magicOk {
        return;
      }
      units := [unit] + units;
      if !hooked {
        hooked := true;
        hooks := hooks + 1;
      }
    }

    /** __gcov_dump: every registered unit's file, in the list's order. */
    method Dump()
      requires Valid()
      modifies this`dumped, this`console, this`emitted
      ensures Valid() && State() == R.Dump(old(State()))
    {
      hide UnitOk, ImageSize, TextOf, R.Listed;
      assert InRange(0) by { Range(); }
      ghost var all := emitted + R.Emissions(units, counters);
      assert units[0..] == units;
      for i := 0 to |units|
        invariant Valid() && dumped == old(dumped) && InRange(i)
        invariant emitted + R.Emissions(units[i..], counters) == all
      {
        ghost var e, rest := R.Emission(units[i], counters[units[i]]), R.Emissions(units[i + 1..], counters);
        assert units[i..][1..] == units[i + 1..];
        Assoc(emitted, [e], rest);
        DumpOne(units[i]);
      }
      assert units[|units|..] == [] && emitted + [] == emitted;
      dumped := true;
    }

    ghost predicate InRange(i: nat)
      reads this
    {
      && (forall j :: 0 <= j < |units| ==> units[j] < |counters|)
      && forall j :: i <= j < |units| ==> units[j] < |infos|
    }

    lemma {:induction false} Range()
      requires Valid()
      ensures InRange(0)
    {
    }

    /** dump_one, on the console. */
    method DumpOne(u: nat)
      requires Valid() && u < |infos|
      modifies this`console, this`emitted
      ensures Valid() && emitted == old(emitted) + [R.Emission(u, counters[u])]
    {
      hide Printed, Image, ImageSize, UnitOk, R.Listed;
      console := DumpStreamed(order, infos[u], counters[u], console);
      ghost var e := R.Emission(u, counters[u]);
      assert (emitted + [e])[..|emitted|] == emitted;
      emitted := emitted + [e];
    }

    /** __gcov_reset. */
    method Reset()
      requires Valid()
      modifies this`counters, this`dumped
      ensures Valid() && State() == R.Reset(old(State()))
    {
      hide ImageSize, TextOf, UnitOk, R.Listed;
      ghost var c0 := counters;
      assert InRange(0) by { Range(); }
      for i := 0 to |units|
        invariant |counters| == |c0| && dumped == old(dumped) && InRange(0)
        invariant forall u :: 0 <= u < |c0| ==> counters[u] == if u in units[..i] then Filled(0, |c0[u]|) else c0[u]
      {
        var u := units[i];
        assert units[..i + 1] == units[..i] + [u];
        var z := Zeroed(counters[u]);
        counters := counters[u := z];
      }
      assert units[..|units|] == units;
      dumped := false;
      assert counters == R.Cleared(units, c0);
      forall u | 0 <= u < |infos|
        ensures UnitOk(infos[u], counters[u])
      {
        SameLength(infos[u], c0[u], counters[u]);
      }
    }

    static lemma {:induction false} SameLength(u: Unit, c: seq<u64>, d: seq<u64>)
      requires UnitOk(u, c) && |c| == |d|
      ensures UnitOk(u, d)
    {
    }

    /** Lines 334 and 335. */
    static method Zeroed(c: seq<u64>) returns (z: seq<u64>)
      ensures z == Filled(0, |c|)
    {
      z := c;
      for k := 0 to |c|
        invariant |z| == |c| && forall j :: 0 <= j < k ==> z[j] == 0
      {
        z := z[k := 0];
      }
    }

    /** __gcov_flush. */
    method Flush()
      requires Valid()
      modifies this`counters, this`dumped, this`console, this`emitted
      ensures Valid() && State() == R.Flush(old(State()))
    {
      Dump();
      Reset();
    }

    /** at_exit. */
    method AtExit()
      requires Valid()
      modifies this`dumped, this`console, this`emitted
      ensures Valid() && State() == R.AtExit(old(State()))
    {
      if !dumped {
        Dump();
      }
    }
  }
}
