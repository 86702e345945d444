/** The exit-time registrations of lib/avr/exit.c: a fixed table filled by __cxa_atexit and
atexit and emptied by exit, last first, while the handlers themselves may register more. */
module ExitStack {
  import opened Prelude

  /** A registered function and argument. `calls` are the registrations it makes when it
      runs; a handler that would register without end never lets exit finish. */
  datatype Handler = Handler(fn: nat, arg: nat, calls: seq<Handler>)

  function Size(h: Handler): (n: nat)
    ensures n > 0
    decreases h, 1
  {
    1 + SizeAll(h.calls)
  }

  function SizeAll(hs: seq<Handler>): nat
    decreases hs, 0
  {
    if hs == [] then 0 else Size(hs[|hs| - 1]) + SizeAll(hs[..|hs| - 1])
  }

  lemma {:induction false} SizeAppend(hs: seq<Handler>, h: Handler)
    ensures SizeAll(hs + [h]) == SizeAll(hs) + Size(h)
  {
    assert (hs + [h])[..|hs|] == hs;
  }

  // ----- what a run should look like

  datatype Event = Registered(h: Handler) | Refused(h: Handler) | Ran(h: Handler)

  /** The stack after `events`, if they follow the rules: a registration is taken unless `max`
      are pending, and what runs is the last one pending. */
  function Replay(max: nat, events: seq<Event>, stack: seq<Handler>): Option<seq<Handler>>
    decreases events
  {
    if events == [] then Some(stack)
    else match events[0]
      case Registered(h) => if |stack| < max then Replay(max, events[1..], stack + [h]) else None
      case Refused(_) => if |stack| == max then Replay(max, events[1..], stack) else None
      case Ran(h) =>
        if stack != [] && stack[|stack| - 1] == h then Replay(max, events[1..], stack[..|stack| - 1]) else None
  }

  lemma {:induction false} ReplayAppend(max: nat, a: seq<Event>, b: seq<Event>, stack: seq<Handler>)
    ensures Replay(max, a + b, stack) ==
      if Replay(max, a, stack).None? then None else Replay(max, b, Replay(max, a, stack).value)
    decreases a
  {
    if a == [] {
      assert a + b == b;
    } else {
      assert (a + b)[1..] == a[1..] + b;
      match a[0]
      case Registered(h) => ReplayAppend(max, a[1..], b, stack + [h]);
      case Refused(_) => ReplayAppend(max, a[1..], b, stack);
      case Ran(h) => if stack != [] { ReplayAppend(max, a[1..], b, stack[..|stack| - 1]); }
    }
  }

  lemma {:induction false} OneRan(max: nat, stack: seq<Handler>, h: Handler)
    ensures Replay(max, [Ran(h)], stack + [h]) == Some(stack)
  {
    assert [Ran(h)][1..] == [] && (stack + [h])[..|stack|] == stack;
  }

  function Registrations(events: seq<Event>, h: Handler): nat {
    if events == [] then 0 else (if events[0] == Registered(h) then 1 else 0) + Registrations(events[1..], h)
  }

  function Runs(events: seq<Event>, h: Handler): nat {
    if events == [] then 0 else (if events[0] == Ran(h) then 1 else 0) + Runs(events[1..], h)
  }

  /** In a run that follows the rules to an empty stack, everything that was pending or taken
      has run exactly as often as it was registered. */
  lemma {:induction false} RunsAsOftenAsRegistered(max: nat, events: seq<Event>, stack: seq<Handler>, h: Handler)
    requires Replay(max, events, stack).Some?
    ensures multiset(stack)[h] + Registrations(events, h) ==
      Runs(events, h) + multiset(Replay(max, events, stack).value)[h]
    decreases events
  {
    if events != [] {
      match events[0]
      case Registered(g) => RunsAsOftenAsRegistered(max, events[1..], stack + [g], h);
      case Refused(_) => RunsAsOftenAsRegistered(max, events[1..], stack, h);
      case Ran(g) =>
        assert stack == stack[..|stack| - 1] + [g];
        RunsAsOftenAsRegistered(max, events[1..], stack[..|stack| - 1], h);
    }
  }

  // ----- what the handlers do

  /** The registrations `calls`, each taken or refused, in order and nothing else. */
  predicate Makes(events: seq<Event>, calls: seq<Handler>) {
    && |events| == |calls|
    && forall k :: 0 <= k < |calls| ==> events[k] == Registered(calls[k]) || events[k] == Refused(calls[k])
  }

  lemma {:induction false} MakesMore(events: seq<Event>, calls: seq<Handler>, e: Event, h: Handler)
    requires Makes(events, calls) && (e == Registered(h) || e == Refused(h))
    ensures Makes(events + [e], calls + [h])
  {
  }

  /** Exit's own events: each handler that runs makes exactly its own registrations, in order,
      before the next one runs. */
  predicate Unwinds(events: seq<Event>)
    decreases |events|
  {
    events == [] ||
    (events[0].Ran? &&
     var n := |events[0].h.calls|;
     1 + n <= |events| && Makes(events[1..1 + n], events[0].h.calls) && Unwinds(events[1 + n..]))
  }

  lemma {:induction false} UnwindsMore(events: seq<Event>, h: Handler, made: seq<Event>)
    requires Unwinds(events) && Makes(made, h.calls)
    ensures Unwinds(events + ([Ran(h)] + made))
    decreases |events|
  {
    var all, last := events + ([Ran(h)] + made), [Ran(h)] + made;
    if events == [] {
      assert |made| == |h.calls| && all == last && last[1..1 + |made|] == made && last[1 + |made|..] == [];
    } else {
      hide Makes;
      var n := |events[0].h.calls|;
      assert all[1..1 + n] == events[1..1 + n] && all[1 + n..] == events[1 + n..] + last;
      UnwindsMore(events[1 + n..], h, made);
    }
  }

  /** Which of a handler's registrations are taken is settled by the room there is. */
  lemma {:induction false} OneWayToMake(max: nat, a: seq<Event>, b: seq<Event>, calls: seq<Handler>,
                                        stack: seq<Handler>)
    requires Makes(a, calls) && Makes(b, calls)
    requires Replay(max, a, stack).Some? && Replay(max, b, stack).Some?
    ensures a == b
    decreases calls
  {
    if calls != [] {
      assert a[0] == b[0];
      OneWayToMake(max, a[1..], b[1..], calls[1..], if a[0].Registered? then stack + [calls[0]] else stack);
      assert a == [a[0]] + a[1..] && b == [b[0]] + b[1..];
    }
  }

  lemma {:induction false} Pieces(max: nat, events: seq<Event>, n: nat, stack: seq<Handler>)
    requires 1 + n <= |events| && events[0].Ran? && Replay(max, events, stack).Some?
    ensures stack != [] && stack[|stack| - 1] == events[0].h
    ensures var mid := Replay(max, events[1..1 + n], stack[..|stack| - 1]);
      mid.Some? && Replay(max, events[1 + n..], mid.value) == Replay(max, events, stack)
  {
    assert events[1..] == events[1..1 + n] + events[1 + n..];
    ReplayAppend(max, events[1..1 + n], events[1 + n..], stack[..|stack| - 1]);
  }

  /** What is pending when exit starts settles every event up to its end. */
  lemma {:induction false} OneWayToExit(max: nat, a: seq<Event>, b: seq<Event>, stack: seq<Handler>)
    requires Unwinds(a) && Replay(max, a, stack) == Some([])
    requires Unwinds(b) && Replay(max, b, stack) == Some([])
    ensures a == b
    decreases |a|
  {
    if a != [] && b != [] {
      hide Replay, Makes;
      var n, m := |a[0].h.calls|, |b[0].h.calls|;
      Pieces(max, a, n, stack);
      Pieces(max, b, m, stack);
      OneWayToMake(max, a[1..1 + n], b[1..1 + n], a[0].h.calls, stack[..|stack| - 1]);
      OneWayToExit(max, a[1 + n..], b[1 + n..], Replay(max, a[1..1 + n], stack[..|stack| - 1]).value);
      assert a == [a[0]] + a[1..1 + n] + a[1 + n..] && b == [b[0]] + b[1..1 + n] + b[1 + n..];
    }
  }

  /** Handlers that register nothing run in the reverse order of their registration, each once. */
  lemma {:induction false} LastRegisteredFirst(max: nat, events: seq<Event>, stack: seq<Handler>)
    requires Unwinds(events) && Replay(max, events, stack) == Some([])
    requires forall k :: 0 <= k < |stack| ==> stack[k].calls == []
    ensures |events| == |stack|
    ensures forall k :: 0 <= k < |stack| ==> events[k] == Ran(stack[|stack| - 1 - k])
    decreases |events|
  {
    if events != [] {
      hide Replay, Makes;
      var rest := stack[..|stack| - 1];
      Pieces(max, events, 0, stack);
      NoneReplayed(max, rest);
      assert events[1..1] == [];
      LastRegisteredFirst(max, events[1..], rest);
      assert forall k :: 1 <= k < |stack| ==> events[k] == events[1..][k - 1];
    } else {
      NoneReplayed(max, stack);
    }
  }

  lemma {:induction false} NoneReplayed(max: nat, stack: seq<Handler>)
    ensures Replay(max, [], stack) == Some(stack)
  {
  }

  // ----- the table

  class Table {
    const max: nat              // EMB_AVR_ATEXIT_MAX
    const tab: array<Handler>
    var ntab: nat               // a uint8_t
    ghost var events: seq<Event>

    ghost predicate Valid()
      reads this, tab
    {
      tab.Length == max <= 255 && ntab <= max && Replay(max, events, []) == Some(tab[..ntab])
    }

    constructor (max: nat)
      requires max <= 255
      ensures Valid() && fresh(tab) && ntab == 0 && events == [] && this.max == max
    {
      this.max := max;
      tab := new Handler[max](_ => Handler(0, 0, []));
      ntab, events := 0, [];
    }

    /** __cxa_atexit: -1 when the table is full, and then nothing changes. */
    method CxaAtexit(h: Handler) returns (r: int)
      requires Valid()
      modifies this`ntab, this`events, tab
      ensures Valid()
      ensures r == if old(ntab) == max then -1 else 0
      ensures r == 0 ==> tab[..ntab] == old(tab[..ntab]) + [h] && events == old(events) + [Registered(h)]
      ensures r != 0 ==> ntab == old(ntab) && tab[..] == old(tab[..]) && events == old(events) + [Refused(h)]
    {
      if ntab == max {
        ReplayAppend(max, events, [Refused(h)], []);
        events := events + [Refused(h)];
        return -1;
      }
      ReplayAppend(max, events, [Registered(h)], []);
      ghost var t0 := tab[..ntab];
      assert [Registered(h)][1..] == [] && Replay(max, [Registered(h)], t0) == Some(t0 + [h]);
      tab[ntab] := h;
      ntab := ntab + 1;
      assert tab[..ntab] == t0 + [h];
      events := events + [Registered(h)];
      return 0;
    }

    /** What a handler does while it runs: its registrations, one after another. */
    method RunHandler(h: Handler)
      requires Valid()
      modifies this`ntab, this`events, tab
      ensures Valid() && old(events) <= events
      ensures Makes(events[|old(events)|..], h.calls)
      ensures SizeAll(tab[..ntab]) <= old(SizeAll(tab[..ntab])) + SizeAll(h.calls)
    {
      hide Replay, Makes, SizeAll;
      ghost var before, size := events, SizeAll(tab[..ntab]);
      NoneMade();
      assert events[|before|..] == [] && h.calls[..0] == [];
      for k := 0 to |h.calls|
        invariant Valid() && before <= events
        invariant Makes(events[|before|..], h.calls[..k])
        invariant SizeAll(tab[..ntab]) <= size + SizeAll(h.calls[..k])
      {
        ghost var t0, es := tab[..ntab], events;
        assert h.calls[..k + 1] == h.calls[..k] + [h.calls[k]];
        SizeAppend(h.calls[..k], h.calls[k]);
        SizeAppend(t0, h.calls[k]);
        var r := CxaAtexit(h.calls[k]);
        assert events[|before|..] == es[|before|..] + [events[|es|]];
        MakesMore(es[|before|..], h.calls[..k], events[|es|], h.calls[k]);
      }
      assert h.calls[..|h.calls|] == h.calls;
    }

    /** exit, up to its call of _exit. Every pending registration, those made by handlers on
        the way included, has run, in stack order, and none is left. Each handler made its own
        registrations when it ran; by `OneWayToExit` these clauses settle the whole of exit. */
    method Exit()
      requires Valid()
      modifies this`ntab, this`events, tab
      ensures Valid() && ntab == 0 && old(events) <= events
      ensures Unwinds(events[|old(events)|..])
      ensures Replay(max, events[|old(events)|..], old(tab[..ntab])) == Some([])
      ensures forall h :: Registrations(events, h) == Runs(events, h)
    {
      hide Replay, Unwinds, Makes, SizeAll, Registrations, Runs;
      ghost var before := events;
      NothingYet();
      assert before == before + [];
      while ntab > 0
        invariant Valid() && before <= events && Unwinds(events[|before|..])
        decreases SizeAll(tab[..ntab])
      {
        var h := tab[ntab - 1];
        ghost var t0, es := tab[..ntab], events;
        assert t0 == t0[..ntab - 1] + [h];
        SizeAppend(t0[..ntab - 1], h);
        ReplayAppend(max, events, [Ran(h)], []);
        OneRan(max, t0[..ntab - 1], h);
        ntab := ntab - 1;
        events := events + [Ran(h)];
        assert tab[..ntab] == t0[..ntab];
        RunHandler(h);
        ghost var made := events[|es| + 1..];
        UnwindsMore(es[|before|..], h, made);
        assert events[|before|..] == es[|before|..] + ([Ran(h)] + made);
      }
      assert events == before + events[|before|..];
      ReplayAppend(max, before, events[|before|..], []);
      forall h
        ensures Registrations(events, h) == Runs(events, h)
      {
        RunsAsOftenAsRegistered(max, events, [], h);
      }
    }

    static lemma {:induction false} NoneMade()
      ensures Makes([], []) && SizeAll([]) == 0
    {
    }

    static lemma {:induction false} NothingYet()
      ensures Unwinds([])
    {
    }
  }
}
