/**
 * The debounce in front of the scan: every subtree-modified notification
 * cancels the pending scan and schedules a new one a quiet period later.
 * Time is an abstract integer clock; a `Tick` is the event loop looking at
 * the clock and running a timer that is due.
 */
module Debounce {
  import opened Wrappers
  import opened Dropdowns
  import opened Scan

  /** The delay between the last notification and the scan. */
  const QuietPeriod: int := 1000

  /** What the watcher sees: a notification, or the clock reaching a time. */
  datatype Event = Notify(at: int) | Tick(at: int)

  /** The pending deadline after one event, and whether the scan ran. */
  datatype StepResult = StepResult(pending: Option<int>, fired: bool)

  /**
   * One event: a notification replaces any pending deadline by `at` plus
   * the quiet period; a tick at or after the deadline runs the scan and
   * leaves nothing pending.
   */
  function Step(pending: Option<int>, e: Event): (r: StepResult)
    ensures e.Notify? ==> r == StepResult(Some(e.at + QuietPeriod), false)
    ensures e.Tick? ==> (r.fired <==> pending.Some? && e.at >= pending.value)
    ensures e.Tick? ==> r.pending == if r.fired then None else pending
  {
    match e
    case Notify(at) => StepResult(Some(at + QuietPeriod), false)
    case Tick(at) =>
      if pending.Some? && at >= pending.value then StepResult(None, true)
      else StepResult(pending, false)
  }

  /** The state after a sequence of events, and the times at which the scan ran. */
  datatype RunResult = RunResult(pending: Option<int>, firings: seq<int>)

  function Run(pending: Option<int>, es: seq<Event>): (r: RunResult)
    ensures |r.firings| <= |es|
    ensures r.pending.Some? ==> pending.Some? || exists i :: 0 <= i < |es| && es[i].Notify?
    decreases |es|
  {
    if es == [] then RunResult(pending, [])
    else
      var s := Step(pending, es[0]);
      var rest := Run(s.pending, es[1..]);
      RunResult(rest.pending, (if s.fired then [es[0].at] else []) + rest.firings)
  }

  /** One unfolding of `Run` at the first event. */
  lemma RunCons(pending: Option<int>, e: Event, es: seq<Event>)
    ensures Run(pending, [e] + es) ==
      RunResult(Run(Step(pending, e).pending, es).pending,
                (if Step(pending, e).fired then [e.at] else []) + Run(Step(pending, e).pending, es).firings)
  {
    assert ([e] + es)[0] == e && ([e] + es)[1..] == es;
  }

  /** Running two traces one after the other. */
  lemma {:induction false} RunAppend(pending: Option<int>, a: seq<Event>, b: seq<Event>)
    ensures Run(pending, a + b) ==
      RunResult(Run(Run(pending, a).pending, b).pending,
                Run(pending, a).firings + Run(Run(pending, a).pending, b).firings)
    decreases |a|
  {
    if a == [] {
      assert a + b == b;
    } else {
      var e, tail := a[0], a[1..];
      assert a == [e] + tail;
      assert a + b == [e] + (tail + b);
      var next := Step(pending, e).pending;
      RunCons(pending, e, tail + b);
      RunCons(pending, e, tail);
      RunAppend(next, tail, b);
      var head := if Step(pending, e).fired then [e.at] else [];
      assert head + (Run(next, tail).firings + Run(Run(next, tail).pending, b).firings)
          == (head + Run(next, tail).firings) + Run(Run(next, tail).pending, b).firings;
    }
  }

  /** The clock never goes back. */
  predicate Monotone(es: seq<Event>)
  {
    forall i, j :: 0 <= i < j < |es| ==> es[i].at <= es[j].at
  }

  predicate NoNotify(es: seq<Event>)
  {
    forall i :: 0 <= i < |es| ==> es[i].Tick?
  }

  /**
   * Every notification of `es` comes less than the quiet period after the
   * notification before it; `last` is the time of the notification before
   * `es`, if there was one.
   */
  predicate Dense(last: Option<int>, es: seq<Event>)
    decreases |es|
  {
    if es == [] then true
    else match es[0]
      case Notify(at) => (last.Some? ==> at < last.value + QuietPeriod) && Dense(Some(at), es[1..])
      case Tick(_) => Dense(last, es[1..])
  }

  /** A burst: notifications in clock order, each less than the quiet period after the one before. */
  predicate Burst(es: seq<Event>)
  {
    Monotone(es) && Dense(None, es)
  }

  lemma MonotoneTail(es: seq<Event>)
    requires Monotone(es) && es != []
    ensures Monotone(es[1..])
    ensures forall i :: 0 <= i < |es[1..]| ==> es[0].at <= es[1..][i].at
  {
    forall i | 0 <= i < |es[1..]| ensures es[0].at <= es[1..][i].at {
      assert es[1..][i] == es[i + 1];
    }
  }

  /** With nothing pending and no notification, no scan runs. */
  lemma {:induction false} IdleStaysIdle(es: seq<Event>)
    requires NoNotify(es)
    ensures Run(None, es) == RunResult(None, [])
  {
    if es != [] {
      assert NoNotify(es[1..]) by {
        forall i | 0 <= i < |es[1..]| ensures es[1..][i].Tick? {
          assert es[1..][i] == es[i + 1];
        }
      }
      IdleStaysIdle(es[1..]);
    }
  }

  /** Once the quiet period after the last notification has passed, no notification of a burst can follow. */
  lemma {:induction false} NoLateNotify(last: int, es: seq<Event>)
    requires Dense(Some(last), es)
    requires forall i :: 0 <= i < |es| ==> es[i].at >= last + QuietPeriod
    ensures NoNotify(es)
  {
    if es != [] {
      assert es[0].Tick?;
      forall i | 0 <= i < |es[1..]| ensures es[1..][i].at >= last + QuietPeriod {
        assert es[1..][i] == es[i + 1];
      }
      NoLateNotify(last, es[1..]);
      forall i | 0 <= i < |es| ensures es[i].Tick? {
        if i > 0 {
          assert es[i] == es[1..][i - 1];
        }
      }
    }
  }

  /** The deadline that belongs to the last notification. */
  function Deadline(last: Option<int>): (d: Option<int>)
    ensures d.Some? <==> last.Some?
    ensures d.Some? ==> d.value - QuietPeriod == last.value
  {
    match last
    case None => None
    case Some(t) => Some(t + QuietPeriod)
  }

  lemma {:induction false} BurstAtMostOnce(pending: Option<int>, last: Option<int>, es: seq<Event>)
    requires Monotone(es) && Dense(last, es)
    requires pending.Some? ==> pending == Deadline(last)
    ensures |Run(pending, es).firings| <= 1
    decreases |es|
  {
    if es != [] {
      MonotoneTail(es);
      var s := Step(pending, es[0]);
      var rest := es[1..];
      match es[0]
      case Notify(at) =>
        BurstAtMostOnce(s.pending, Some(at), rest);
      case Tick(at) =>
        if s.fired {
          NoLateNotify(last.value, rest);
          IdleStaysIdle(rest);
        } else {
          BurstAtMostOnce(s.pending, last, rest);
        }
    }
  }

  /** A burst of notifications, with clock ticks anywhere in it, runs the scan at most once. */
  lemma DebounceCollapsesBurst(es: seq<Event>)
    requires Burst(es)
    ensures |Run(None, es).firings| <= 1
  {
    BurstAtMostOnce(None, None, es);
  }

  /** Within a burst that ends with a notification no tick runs the scan, and the last deadline is pending. */
  lemma {:induction false} BurstArms(pending: Option<int>, last: Option<int>, es: seq<Event>)
    requires Monotone(es) && Dense(last, es)
    requires pending == Deadline(last)
    requires es != [] && es[|es| - 1].Notify?
    ensures Run(pending, es) == RunResult(Some(es[|es| - 1].at + QuietPeriod), [])
    decreases |es|
  {
    var e, rest := es[0], es[1..];
    assert es == [e] + rest;
    RunCons(pending, e, rest);
    if rest != [] {
      assert rest[|rest| - 1] == es[|es| - 1];
      MonotoneTail(es);
      if e.Notify? {
        BurstArms(Some(e.at + QuietPeriod), Some(e.at), rest);
      } else {
        if last.Some? {
          TickBeforeNextNotify(last.value, e.at, rest);
        }
        BurstArms(pending, last, rest);
      }
    }
  }

  /** A tick that a later notification of the burst follows comes before the pending deadline. */
  lemma TickBeforeNextNotify(last: int, at: int, rest: seq<Event>)
    requires Dense(Some(last), rest)
    requires rest != [] && rest[|rest| - 1].Notify?
    requires forall i :: 0 <= i < |rest| ==> at <= rest[i].at
    ensures at < last + QuietPeriod
  {
    if at >= last + QuietPeriod {
      NoLateNotify(last, rest);
      assert false;
    }
  }

  /** Ticks alone, from a pending deadline: the first tick at or after it runs the scan, once. */
  lemma {:induction false} TicksAfter(deadline: int, ticks: seq<Event>)
    requires NoNotify(ticks)
    ensures |Run(Some(deadline), ticks).firings| <= 1
    ensures forall k :: 0 <= k < |Run(Some(deadline), ticks).firings| ==>
      Run(Some(deadline), ticks).firings[k] >= deadline
    ensures |Run(Some(deadline), ticks).firings| == 1 <==>
      exists i :: 0 <= i < |ticks| && ticks[i].at >= deadline
  {
    if ticks != [] {
      var rest := ticks[1..];
      assert ticks == [ticks[0]] + rest;
      RunCons(Some(deadline), ticks[0], rest);
      assert NoNotify(rest) by {
        forall i | 0 <= i < |rest| ensures rest[i].Tick? {
          assert rest[i] == ticks[i + 1];
        }
      }
      if ticks[0].at >= deadline {
        IdleStaysIdle(rest);
      } else {
        TicksAfter(deadline, rest);
        if exists i :: 0 <= i < |ticks| && ticks[i].at >= deadline {
          var i :| 0 <= i < |ticks| && ticks[i].at >= deadline;
          assert rest[i - 1] == ticks[i];
        }
        if exists i :: 0 <= i < |rest| && rest[i].at >= deadline {
          var i :| 0 <= i < |rest| && rest[i].at >= deadline;
          assert ticks[i + 1] == rest[i];
        }
      }
    }
  }

  /**
   * A burst ending with a notification at `last`, followed by clock ticks:
   * the scan runs exactly once if some tick reaches `last` plus the quiet
   * period, never otherwise, and never earlier than that.
   */
  lemma DebounceFiresOnceAfterQuiet(burst: seq<Event>, last: int, ticks: seq<Event>)
    requires Burst(burst + [Notify(last)])
    requires NoNotify(ticks)
    ensures |Run(None, burst + [Notify(last)] + ticks).firings| <= 1
    ensures forall k :: 0 <= k < |Run(None, burst + [Notify(last)] + ticks).firings| ==>
      Run(None, burst + [Notify(last)] + ticks).firings[k] >= last + QuietPeriod
    ensures |Run(None, burst + [Notify(last)] + ticks).firings| == 1 <==>
      exists i :: 0 <= i < |ticks| && ticks[i].at >= last + QuietPeriod
  {
    var armed := burst + [Notify(last)];
    BurstArms(None, None, armed);
    RunAppend(None, armed, ticks);
    TicksAfter(last + QuietPeriod, ticks);
  }

  /**
   * The watcher of the content table: at most one scan is pending, as a
   * deadline on the clock.
   */
  class Watcher {
    var pending: Option<int>
    /** The time of the last notification, which the pending deadline belongs to. */
    ghost var lastNotified: Option<int>

    ghost predicate Valid()
      reads this
    {
      pending.Some? ==> pending == Deadline(lastNotified)
    }

    constructor ()
      ensures Valid() && pending == None && lastNotified == None
    {
      pending := None;
      lastNotified := None;
    }

    /** A subtree-modified notification: cancel what is pending, schedule a scan a quiet period from now. */
    method HandleSubtreeModified(now: int)
      requires Valid()
      modifies this
      ensures Valid()
      ensures pending == Step(old(pending), Notify(now)).pending
      ensures pending == Some(now + QuietPeriod) && lastNotified == Some(now)
    {
      pending := Some(now + QuietPeriod);
      lastNotified := Some(now);
    }

    /**
     * The clock reads `now`: a due scan runs over the tiles the page holds
     * at that moment. A scan runs only a full quiet period after the last
     * notification.
     */
    method Tick(now: int, rows: seq<Tile>, cells: seq<Tile>) returns (fired: bool)
      requires Valid()
      modifies this, Menus(rows), Menus(cells)
      ensures Valid() && lastNotified == old(lastNotified)
      ensures StepResult(pending, fired) == Step(old(pending), Event.Tick(now))
      ensures fired ==> old(lastNotified).Some? && now >= old(lastNotified).value + QuietPeriod
      ensures forall m :: m in Menus(rows) + Menus(cells) ==>
        m.entries == if fired then ScanResult(old(m.entries), rows, cells, m) else old(m.entries)
    {
      fired := pending.Some? && now >= pending.value;
      if fired {
        pending := None;
        AddPreviewButton(rows, cells);
      }
    }
  }

  /**
   * One row with an empty dropdown. A notification, then the quiet period:
   * the dropdown holds the row's preview entry. A second notification, then
   * the quiet period again: the dropdown is as it was, with no duplicate.
   */
  method TwoMutationsScenario()
  {
    var menu := new DropdownMenu([]);
    var row := Tile("row7", Some(menu));
    var rows := [row];
    assert rows[0].menu.value == menu;
    assert menu in Menus(rows) + Menus([]);
    OneRowScenario(menu, "row7");
    var scanned := ScanResult([], rows, [], menu);
    ScanIdempotent([], rows, [], menu);
    var watcher := new Watcher();
    watcher.HandleSubtreeModified(0);
    var early := watcher.Tick(999, rows, []);
    assert !early && menu.entries == [];
    var fired := watcher.Tick(1000, rows, []);
    assert fired && menu.entries == scanned;
    assert menu.entries == [PreviewEntry("row7")];
    assert menu.entries[0].href == "http://localhost/row7";
    watcher.HandleSubtreeModified(1500);
    var again := watcher.Tick(2500, rows, []);
    assert again && menu.entries == ScanResult(scanned, rows, [], menu);
    assert again && menu.entries == [PreviewEntry("row7")];
  }
}
