/** `TimerManager`: an ordered set of timers and the flag that the sleeper was notified. The clock is
    a non-decreasing input; `listExpiredCb` is one step. */
module Timers {
  import opened Bytes

  /** A timer. `live` is a non-null `m_cb`; `detached` records a `reset` from now on whose deadline
      no longer fits the interval. Identities stand for the addresses of the timer objects. */
  datatype Timer = Timer(ms: nat, next: int, live: bool, recurring: bool, detached: bool)

  /** `Timer::Comparator`: by deadline, then by identity. */
  predicate Before(next1: int, id1: nat, next2: int, id2: nat) {
    next1 < next2 || (next1 == next2 && id1 < id2)
  }

  ghost predicate Sorted(recs: map<nat, Timer>, order: seq<nat>) {
    && (forall id :: id in order ==> id in recs)
    && (forall i, j :: 0 <= i < j < |order| ==> Before(recs[order[i]].next, order[i], recs[order[j]].next, order[j]))
  }

  class TimerManager {
    var recs: map<nat, Timer>
    var timers: seq<nat>
    var tickled: bool
    ghost var clock: int
    /** The deadline behind the last answer of `getNextTimer`; none means it promised to sleep. */
    ghost var reported: Option<int>

    /** The set is strictly sorted, every stored timer still has its callback, and unless detached
        its deadline is within its interval from now. */
    ghost predicate Valid()
      reads this
    {
      && Sorted(recs, timers)
      && (forall id :: id in timers ==> recs[id].live)
      && (forall id :: id in recs && !recs[id].detached ==> recs[id].next <= clock + recs[id].ms)
    }

    /** Whenever some deadline is earlier than the reported one, the sleeper was notified. */
    ghost predicate WakeSafe()
      requires Valid()
      reads this
    {
      tickled || forall id :: id in timers ==> reported.Some? && reported.value <= recs[id].next
    }

    constructor (now: int)
      ensures Valid() && timers == [] && recs == map[] && !tickled && clock == now && reported == None
    {
      recs, timers, tickled, clock, reported := map[], [], false, now, None;
    }

    /** Position of the first stored timer after the key `(next, id)`. */
    method UpperBound(next: int, id: nat) returns (k: nat)
      requires Sorted(recs, timers)
      ensures k <= |timers|
      ensures forall i :: 0 <= i < k ==> !Before(next, id, recs[timers[i]].next, timers[i])
      ensures forall i :: k <= i < |timers| ==> Before(next, id, recs[timers[i]].next, timers[i])
    {
      k := 0;
      while k < |timers| && !Before(next, id, recs[timers[k]].next, timers[k])
        invariant k <= |timers|
        invariant forall i :: 0 <= i < k ==> !Before(next, id, recs[timers[i]].next, timers[i])
      {
        k := k + 1;
      }
      if k < |timers| {
        forall i | k < i < |timers|
          ensures Before(next, id, recs[timers[i]].next, timers[i])
        {
          assert Before(recs[timers[k]].next, timers[k], recs[timers[i]].next, timers[i]);
        }
      }
    }

    /** `m_timers.insert`. */
    method Insert(id: nat) returns (front: bool)
      requires Sorted(recs, timers) && id in recs && id !in timers
      modifies `timers
      ensures Sorted(recs, timers)
      ensures forall x :: x in timers <==> x == id || x in old(timers)
      ensures front == (timers[0] == id)
      ensures !front ==> old(timers) != [] && timers[0] == old(timers)[0] && recs[timers[0]].next <= recs[id].next
    {
      var k := UpperBound(recs[id].next, id);
      var before, after := timers[..k], timers[k..];
      timers := before + [id] + after;
      InsertKeepsSorted(recs, old(timers), id, k);
      assert old(timers) == before + after;
      front := k == 0;
    }

    /** Erase a stored timer. */
    method Erase(id: nat)
      requires Sorted(recs, timers) && id in timers
      modifies `timers
      ensures Sorted(recs, timers)
      ensures forall x :: x in timers <==> x != id && x in old(timers)
      ensures timers == [] || old(timers)[0] == timers[0] || old(timers)[0] == id
    {
      var k := 0;
      while timers[k] != id
        invariant k < |timers| && id !in timers[..k]
        decreases |timers| - k
      {
        k := k + 1;
      }
      EraseKeepsSorted(recs, timers, k);
      timers := timers[..k] + timers[k + 1..];
    }

    /** The protected `addTimer`: insert, and notify the sleeper if this is the new earliest timer
        and nobody has notified it yet. */
    method PushTimer(id: nat) returns (notify: bool)
      requires Valid() && id in recs && id !in timers && recs[id].live
      modifies `timers, `tickled
      ensures Valid()
      ensures forall x :: x in timers <==> x == id || x in old(timers)
      ensures notify <==> timers[0] == id && !old(tickled)
      ensures tickled == (old(tickled) || notify)
      ensures old(WakeSafe()) ==> WakeSafe()
    {
      var front := Insert(id);
      notify := front && !tickled;
      if notify {
        tickled := true;
      }
    }

    /** `addTimer`. */
    method AddTimer(id: nat, ms: nat, recurring: bool, now: int) returns (notify: bool)
      requires Valid() && id !in recs && clock <= now
      modifies this
      ensures Valid() && clock == now && reported == old(reported)
      ensures recs == old(recs)[id := Timer(ms, now + ms, true, recurring, false)]
      ensures forall x :: x in timers <==> x == id || x in old(timers)
      ensures (notify <==> timers[0] == id && !old(tickled)) && tickled == (old(tickled) || notify)
      ensures old(WakeSafe()) ==> WakeSafe()
    {
      recs := recs[id := Timer(ms, now + ms, true, recurring, false)];
      clock := now;
      SortedFrame(old(recs), recs, timers);
      notify := PushTimer(id);
    }

    /** `Timer::cancel`. */
    method Cancel(id: nat) returns (ok: bool)
      requires Valid() && id in recs
      modifies `recs, `timers
      ensures Valid()
      ensures ok <==> id in old(timers)
      ensures recs == old(recs)[id := old(recs)[id].(live := false)]
      ensures forall x :: x in timers <==> x != id && x in old(timers)
      ensures old(WakeSafe()) ==> WakeSafe()
    {
      ok := false;
      if recs[id].live {
        if id in timers {
          Erase(id);
          ok := true;
        }
      }
      ghost var before := recs;
      recs := recs[id := recs[id].(live := false)];
      SortedFrame(before, recs, timers);
    }

    /** `Timer::refresh` restarts the interval but never notifies: the sleeper stays safe exactly
        when it was notified before or the new deadline is no earlier than the reported one. */
    method Refresh(id: nat, now: int) returns (ok: bool)
      requires Valid() && id in recs && clock <= now
      modifies this
      ensures Valid() && tickled == old(tickled) && reported == old(reported) && clock == now
      ensures ok <==> id in old(timers)
      ensures ok ==> recs == old(recs)[id := old(recs)[id].(next := now + old(recs)[id].ms, detached := false)]
      ensures !ok ==> recs == old(recs)
      ensures forall x :: x in timers <==> x in old(timers)
      ensures old(WakeSafe()) ==>
                (WakeSafe() <==> !ok || tickled || (reported.Some? && reported.value <= now + old(recs)[id].ms))
      ensures old(WakeSafe()) && !old(recs)[id].detached ==> WakeSafe()
    {
      clock := now;
      if !recs[id].live || id !in timers { return false; }
      Erase(id);
      recs := recs[id := recs[id].(next := now + recs[id].ms, detached := false)];
      SortedFrame(old(recs), recs, timers);
      var _ := Insert(id);
      ok := true;
    }

    /** `Timer::reset`: the new interval is `ms`. From now on, the deadline is the old interval away;
        otherwise the timer keeps the point from which its interval counts. */
    method Reset(id: nat, ms: nat, fromNow: bool, now: int) returns (ok: bool)
      requires Valid() && id in recs && clock <= now
      modifies this
      ensures Valid() && reported == old(reported) && clock == now
      ensures ok <==> id in old(timers)
      ensures !ok ==> recs == old(recs)
      ensures ok ==> recs.Keys == old(recs).Keys && forall x :: x in recs && x != id ==> recs[x] == old(recs)[x]
      ensures ok ==> var t, t' := old(recs)[id], recs[id];
                && t'.ms == ms && t'.live == t.live && t'.recurring == t.recurring
                && (if fromNow then t'.next - now == t.ms else t'.next - t'.ms == t.next - t.ms)
                && (t'.detached <==> if fromNow then ms < t.ms else t.detached)
      ensures forall x :: x in timers <==> x in old(timers)
      ensures tickled == (old(tickled) || (ok && timers[0] == id))
      ensures old(WakeSafe()) ==> WakeSafe()
    {
      hide Sorted;
      clock := now;
      if !recs[id].live || id !in timers { return false; }
      var t := recs[id];
      var next := if fromNow then now + t.ms else t.next - t.ms + ms;
      Replace(id, Timer(ms, next, t.live, t.recurring, if fromNow then ms < t.ms else t.detached));
      ok := true;
    }

    /** The part of `reset` between the search and the return: erase, change and `addTimer`. */
    method Replace(id: nat, t: Timer)
      requires Valid() && id in recs && id in timers && t.live && (!t.detached ==> t.next <= clock + t.ms)
      modifies `recs, `timers, `tickled
      ensures Valid() && recs == old(recs)[id := t] && (forall x :: x in timers <==> x in old(timers))
      ensures tickled == (old(tickled) || timers[0] == id)
      ensures old(WakeSafe()) ==> WakeSafe()
    {
      Erase(id);
      recs := recs[id := t];
      SortedFrame(old(recs), recs, timers);
      var _ := PushTimer(id);
    }

    /** `getNextTimer`: clears the flag and promises to sleep until the earliest deadline. */
    method GetNextTimer(now: int) returns (sleep: Option<nat>)
      requires Valid() && clock <= now
      modifies `tickled, `clock, `reported
      ensures Valid() && WakeSafe() && !tickled && clock == now
      ensures sleep.None? <==> timers == []
      ensures reported == if timers == [] then None else Some(recs[timers[0]].next)
      ensures sleep.Some? ==> sleep.value == if now < reported.value then reported.value - now else 0
    {
      tickled, clock := false, now;
      if timers == [] {
        reported := None;
        return None;
      }
      var next := recs[timers[0]].next;
      reported := Some(next);
      sleep := Some(if now < next then next - now else 0);
    }

    /** `listExpiredCb`. `probe` is the identity of the temporary timer that carries the current
        time; it only decides about timers due exactly now. */
    method ListExpired(now: int, probe: nat) returns (cbs: seq<nat>)
      requires Valid() && clock <= now
      modifies `recs, `timers, `clock
      ensures Valid() && clock == now
      ensures Delivers(old(recs), old(timers), cbs, now, probe) && Rearmed(old(recs), recs, cbs, now)
      ensures Stays(recs, old(timers), timers, cbs)
      ensures old(WakeSafe()) ==> WakeSafe()
    {
      hide Sorted, Before, Rearmed, Delivers, Stays, Split;
      clock := now;
      if timers == [] {
        NothingExpires(recs, now, probe);
        return [];
      }
      var k := UpperBound(now, probe);
      ghost var before, order := recs, timers;
      var expired := timers[..k];
      SplitSorted(recs, order, k);
      PrefixIsDue(recs, order, k, now, probe);
      SplitApart(recs, order, expired, order[k..]);
      timers := timers[k..];
      cbs := DeliverAndRearm(expired, now);
      RearmedStays(before, recs, order, order[k..], timers, cbs, now);
      RearmedValid(before, recs, order, timers, cbs, now);
      RearmedSafe(before, recs, order, timers, cbs, now, probe, reported);
    }

    /** The second half of `listExpiredCb`, over the timers already taken out of the set. */
    method DeliverAndRearm(expired: seq<nat>, now: int) returns (cbs: seq<nat>)
      requires Sorted(recs, timers)
      requires forall i :: 0 <= i < |expired| ==> expired[i] in recs && expired[i] !in timers
      requires forall i, j :: 0 <= i < j < |expired| ==> expired[i] != expired[j]
      modifies `recs, `timers
      ensures cbs == expired && Sorted(recs, timers) && Rearmed(old(recs), recs, cbs, now)
      ensures forall x :: x in timers <==> x in old(timers) || (x in cbs && recs[x].recurring)
    {
      cbs := [];
      while |cbs| < |expired|
        invariant cbs <= expired
        invariant Rearmed(old(recs), recs, cbs, now) && Sorted(recs, timers)
        invariant forall x :: x in timers <==> x in old(timers) || (x in cbs && recs[x].recurring)
      {
        var id := expired[|cbs|];
        assert id !in cbs && id !in timers;
        cbs := cbs + [id];
        if recs[id].recurring {
          ghost var before := recs;
          recs := recs[id := recs[id].(next := now + recs[id].ms, detached := false)];
          SortedFrame(before, recs, timers);
          var _ := Insert(id);
        }
      }
    }
  }

  /** The timers delivered: an initial part of the set, exactly the timers due before now and of those
      due now the ones not behind the probe, by deadline and then by identity. */
  ghost predicate Delivers(recs: map<nat, Timer>, order: seq<nat>, cbs: seq<nat>, now: int, probe: nat) {
    && cbs <= order
    && (forall id :: id in cbs ==> id in recs && recs[id].live)
    && (forall id :: id in order && id in recs ==>
          (id in cbs <==> recs[id].next < now || (recs[id].next == now && id <= probe)))
    && (forall i, j :: 0 <= i < j < |cbs| && cbs[i] in recs && cbs[j] in recs ==>
          recs[cbs[i]].next < recs[cbs[j]].next || (recs[cbs[i]].next == recs[cbs[j]].next && cbs[i] < cbs[j]))
  }

  /** Of the delivered timers the recurring ones stay in the set, and all others stay as well. */
  ghost predicate Stays(recs: map<nat, Timer>, order: seq<nat>, timers: seq<nat>, cbs: seq<nat>) {
    forall x :: x in timers <==> x in order && (x in cbs ==> x in recs && recs[x].recurring)
  }

  /** Two parts of the set with nothing in common and no repetition in the first. */
  ghost predicate Split(recs: map<nat, Timer>, order: seq<nat>, first: seq<nat>, rest: seq<nat>) {
    && (forall x :: x in order <==> x in first || x in rest)
    && (forall i :: 0 <= i < |first| ==> first[i] in recs && first[i] !in rest)
    && (forall i, j :: 0 <= i < j < |first| ==> first[i] != first[j])
  }

  lemma NothingExpires(recs: map<nat, Timer>, now: int, probe: nat)
    ensures Delivers(recs, [], [], now, probe) && Rearmed(recs, recs, [], now) && Stays(recs, [], [], [])
  {
  }

  lemma SplitApart(recs: map<nat, Timer>, order: seq<nat>, first: seq<nat>, rest: seq<nat>)
    requires Split(recs, order, first, rest)
    ensures forall i :: 0 <= i < |first| ==> first[i] in recs && first[i] !in rest
    ensures forall i, j :: 0 <= i < j < |first| ==> first[i] != first[j]
  {
  }

  lemma RearmedStays(recs: map<nat, Timer>, recs': map<nat, Timer>, order: seq<nat>, rest: seq<nat>,
                     timers: seq<nat>, cbs: seq<nat>, now: int)
    requires Split(recs, order, cbs, rest) && Rearmed(recs, recs', cbs, now)
    requires forall x :: x in timers <==> x in rest || (x in cbs && x in recs' && recs'[x].recurring)
    ensures Stays(recs', order, timers, cbs)
  {
  }

  lemma RearmedValid(recs: map<nat, Timer>, recs': map<nat, Timer>, order: seq<nat>, timers: seq<nat>, cbs: seq<nat>,
                     now: int)
    requires Rearmed(recs, recs', cbs, now) && Stays(recs', order, timers, cbs)
    requires forall id :: id in order ==> id in recs && recs[id].live
    requires forall id :: id in recs && !recs[id].detached ==> recs[id].next <= now + recs[id].ms
    ensures forall id :: id in timers ==> id in recs' && recs'[id].live
    ensures forall id :: id in recs' && !recs'[id].detached ==> recs'[id].next <= now + recs'[id].ms
  {
  }

  lemma RearmedSafe(recs: map<nat, Timer>, recs': map<nat, Timer>, order: seq<nat>, timers: seq<nat>, cbs: seq<nat>,
                    now: int, probe: nat, reported: Option<int>)
    requires Rearmed(recs, recs', cbs, now) && Stays(recs', order, timers, cbs)
    requires Delivers(recs, order, cbs, now, probe)
    requires forall id :: id in order ==> id in recs
    ensures (forall id :: id in order ==> reported.Some? && reported.value <= recs[id].next) ==>
              (forall id :: id in timers ==> id in recs' && reported.Some? && reported.value <= recs'[id].next)
  {
  }

  /** Exactly the delivered recurring timers got a new deadline, one interval from now. */
  ghost predicate Rearmed(recs: map<nat, Timer>, recs': map<nat, Timer>, cbs: seq<nat>, now: int) {
    && recs'.Keys == recs.Keys
    && forall id :: id in recs ==>
         recs'[id] == if id in cbs && recs[id].recurring then recs[id].(next := now + recs[id].ms, detached := false)
                      else recs[id]
  }

  /** What lies before the upper bound of `(now, probe)` is exactly what is due. */
  lemma PrefixIsDue(recs: map<nat, Timer>, order: seq<nat>, k: nat, now: int, probe: nat)
    requires Sorted(recs, order) && k <= |order| && forall id :: id in order ==> recs[id].live
    requires forall i :: 0 <= i < k ==> !Before(now, probe, recs[order[i]].next, order[i])
    requires forall i :: k <= i < |order| ==> Before(now, probe, recs[order[i]].next, order[i])
    ensures Delivers(recs, order, order[..k], now, probe)
  {
    forall id | id in order && !Before(now, probe, recs[id].next, id)
      ensures id in order[..k]
    {
      var i :| 0 <= i < |order| && order[i] == id;
      assert i < k && order[..k][i] == id;
    }
    forall i, j | 0 <= i < j < k
      ensures Before(recs[order[i]].next, order[i], recs[order[j]].next, order[j])
    {
      assert Before(recs[order[i]].next, order[i], recs[order[j]].next, order[j]);
    }
  }

  /** Cutting a strictly sorted set gives two sorted parts with nothing in common and no repetition. */
  lemma SplitSorted(recs: map<nat, Timer>, order: seq<nat>, k: nat)
    requires Sorted(recs, order) && k <= |order|
    ensures Sorted(recs, order[k..]) && Split(recs, order, order[..k], order[k..])
  {
    forall i, j | 0 <= i < j < |order|
      ensures order[i] != order[j]
    {
      assert Before(recs[order[i]].next, order[i], recs[order[j]].next, order[j]);
    }
    assert order == order[..k] + order[k..];
    assert forall j :: 0 <= j < |order| - k ==> order[k..][j] == order[k + j];
  }

  // ----- whole runs

  datatype Op =
    | Add(id: nat, ms: nat, recurring: bool)
    | Drop(id: nat)
    | Restart(id: nat)
    | Change(id: nat, ms: nat, fromNow: bool)
    | Sleep
    | Expire(probe: nat)

  datatype Event = Cancelled(id: nat) | Delivered(id: nat)

  /** The timers, the set and the flag between two calls. */
  datatype Snap = Snap(recs: map<nat, Timer>, timers: seq<nat>, tickled: bool)

  ghost function SnapOf(tm: TimerManager): Snap
    reads tm
  {
    Snap(tm.recs, tm.timers, tm.tickled)
  }

  /** What a call at time `now` does to the manager, and which events it causes. A call on an unknown
      timer, or for an identity already taken, is not made. */
  ghost predicate Step(s: Snap, op: Op, now: int, s': Snap, out: seq<Event>) {
    match op
    case Add(id, ms, recurring) =>
      if id in s.recs then s' == s && out == []
      else
        && s'.recs == s.recs[id := Timer(ms, now + ms, true, recurring, false)] && out == []
        && (forall x :: x in s'.timers <==> x == id || x in s.timers)
        && s'.tickled == (s.tickled || IsFront(s'.timers, id))
    case Drop(id) =>
      if id !in s.recs then s' == s && out == []
      else
        && s'.recs == s.recs[id := s.recs[id].(live := false)] && s'.tickled == s.tickled
        && (forall x :: x in s'.timers <==> x != id && x in s.timers)
        && out == if id in s.timers then [Cancelled(id)] else []
    case Restart(id) =>
      && s'.tickled == s.tickled && out == [] && (forall x :: x in s'.timers <==> x in s.timers)
      && s'.recs == if id in s.recs && id in s.timers
                    then s.recs[id := s.recs[id].(next := now + s.recs[id].ms, detached := false)] else s.recs
    case Change(id, ms, fromNow) =>
      && out == [] && (forall x :: x in s'.timers <==> x in s.timers)
      && (if id in s.recs && id in s.timers then Moved(s.recs, s'.recs, id, ms, fromNow, now) else s'.recs == s.recs)
      && s'.tickled == (s.tickled || (id in s.recs && id in s.timers && IsFront(s'.timers, id)))
    case Sleep => s' == s.(tickled := false) && out == []
    case Expire(probe) =>
      && s'.tickled == s.tickled && out == Deliveries(Ids(out))
      && Delivers(s.recs, s.timers, Ids(out), now, probe) && Rearmed(s.recs, s'.recs, Ids(out), now)
      && Stays(s'.recs, s.timers, s'.timers, Ids(out))
  }

  /** Only timer `id` changed: it has the new interval, and its deadline is the old interval from now, or
      stands as far behind the new interval as it stood behind the old one. */
  ghost predicate Moved(recs: map<nat, Timer>, recs': map<nat, Timer>, id: nat, ms: nat, fromNow: bool, now: int)
    requires id in recs
  {
    && recs'.Keys == recs.Keys && (forall x :: x in recs && x != id ==> recs'[x] == recs[x])
    && var t, t' := recs[id], recs'[id];
       && t'.ms == ms && t'.live == t.live && t'.recurring == t.recurring
       && (if fromNow then t'.next - now == t.ms else t'.next - t'.ms == t.next - t.ms)
       && (t'.detached <==> if fromNow then ms < t.ms else t.detached)
  }

  predicate IsFront(timers: seq<nat>, id: nat) { timers != [] && timers[0] == id }

  function Deliveries(ids: seq<nat>): (out: seq<Event>)
    ensures |out| == |ids|
  {
    seq(|ids|, i requires 0 <= i < |ids| => Delivered(ids[i]))
  }

  function Ids(out: seq<Event>): (ids: seq<nat>)
    ensures |ids| == |out|
  {
    seq(|out|, i requires 0 <= i < |out| => out[i].id)
  }

  /** The call refreshes a timer whose deadline was set before its interval was shortened. */
  predicate RefreshesShortened(s: Snap, op: Op) {
    op.Restart? && op.id in s.recs && s.recs[op.id].detached
  }

  /** The time of call `n`: the start and all waits before it. */
  function Clock(start: int, ops: seq<(Op, nat)>, n: nat): int
    requires n <= |ops|
  {
    if n == 0 then start else Clock(start, ops, n - 1) + ops[n - 1].1
  }

  function Flat(outs: seq<seq<Event>>): seq<Event> {
    if outs == [] then [] else Flat(outs[..|outs| - 1]) + outs[|outs| - 1]
  }

  /** One call. */
  method Perform(tm: TimerManager, op: Op, now: int) returns (out: seq<Event>)
    requires tm.Valid() && tm.clock <= now
    modifies tm
    ensures tm.Valid() && tm.clock <= now && Step(old(SnapOf(tm)), op, now, SnapOf(tm), out)
    ensures old(tm.WakeSafe()) && !RefreshesShortened(old(SnapOf(tm)), op) ==> tm.WakeSafe()
  {
    hide Sorted, Delivers, Rearmed, Stays, Moved;
    out := [];
    match op
    case Add(id, ms, recurring) =>
      if id !in tm.recs {
        var _ := tm.AddTimer(id, ms, recurring, now);
        assert id in tm.timers;
      }
    case Drop(id) =>
      if id in tm.recs {
        var ok := tm.Cancel(id);
        if ok { out := [Cancelled(id)]; }
      }
    case Restart(id) =>
      if id in tm.recs { var _ := tm.Refresh(id, now); }
    case Change(id, ms, fromNow) =>
      PerformChange(tm, id, ms, fromNow, now);
    case Sleep => var _ := tm.GetNextTimer(now);
    case Expire(probe) =>
      var cbs := tm.ListExpired(now, probe);
      out := Deliveries(cbs);
      assert Ids(out) == cbs;
  }

  method PerformChange(tm: TimerManager, id: nat, ms: nat, fromNow: bool, now: int)
    requires tm.Valid() && tm.clock <= now
    modifies tm
    ensures tm.Valid() && tm.clock <= now && Step(old(SnapOf(tm)), Change(id, ms, fromNow), now, SnapOf(tm), [])
    ensures old(tm.WakeSafe()) ==> tm.WakeSafe()
  {
    hide Sorted;
    if id in tm.recs {
      var _ := tm.Reset(id, ms, fromNow, now);
      assert id in tm.timers <==> id in old(tm.timers);
    }
  }

  /** Any sequence of calls with any non-decreasing clock. `trace` has the states between the calls and
      `outs` the events of each. A timer is never delivered after a cancel that returned true, and
      unless some shortened timer was refreshed, the sleeper is always notified of an earlier
      deadline. */
  method Run(start: int, ops: seq<(Op, nat)>)
      returns (tm: TimerManager, log: seq<Event>, clean: bool, ghost trace: seq<Snap>, ghost outs: seq<seq<Event>>)
    ensures tm.Valid()
    ensures Recorded(start, ops, |ops|, trace, outs) && trace[|ops|] == SnapOf(tm) && log == Flat(outs)
    ensures clean == Clean(ops, |ops|, trace)
    ensures clean ==> tm.WakeSafe()
    ensures forall i, j, id :: 0 <= i < j < |log| && log[i] == Cancelled(id) ==> log[j] != Delivered(id)
  {
    hide Step, Sorted, Clock, Recorded, Clean, CancelledAreDead, NoneAfterCancel, RefreshesShortened;
    tm := new TimerManager(start);
    log, clean := [], true;
    trace, outs := [SnapOf(tm)], [];
    NoEvents(tm.recs);
    RecordBegins(start, ops);
    var now := start;
    for n := 0 to |ops|
      invariant fresh(tm) && tm.Valid() && tm.clock <= now == Clock(start, ops, n)
      invariant clean ==> tm.WakeSafe()
      invariant |trace| == n + 1 && |outs| == n && Recorded(start, ops, n, trace, outs) && trace[n] == SnapOf(tm)
      invariant log == Flat(outs) && clean == Clean(ops, n, trace)
      invariant CancelledAreDead(log, tm.recs) && NoneAfterCancel(log)
    {
      now := now + ops[n].1;
      clean := clean && !RefreshesShortened(Snap(tm.recs, tm.timers, tm.tickled), ops[n].0);
      ghost var before := SnapOf(tm);
      var out := Perform(tm, ops[n].0, now);
      LogGrows(log, before, ops[n].0, now, SnapOf(tm), out);
      FlatMore(outs, out);
      RecordGrows(start, ops, n, trace, outs, SnapOf(tm), out);
      log := log + out;
      trace, outs := trace + [SnapOf(tm)], outs + [out];
    }
    NeverAfter(log);
  }

  /** The states and events of the first `n` calls: each follows from the one before by its call, and the
      set is sorted throughout. */
  ghost predicate Recorded(start: int, ops: seq<(Op, nat)>, n: nat, trace: seq<Snap>, outs: seq<seq<Event>>)
    requires n <= |ops|
  {
    && |trace| == n + 1 && |outs| == n && trace[0] == Snap(map[], [], false)
    && (forall i :: 0 <= i < n ==> Step(trace[i], ops[i].0, Clock(start, ops, i + 1), trace[i + 1], outs[i]))
    && (forall i :: 0 <= i <= n ==> Sorted(trace[i].recs, trace[i].timers))
  }

  /** None of the first `n` calls refreshes a shortened timer. */
  ghost predicate Clean(ops: seq<(Op, nat)>, n: nat, trace: seq<Snap>)
    requires n <= |ops| && n < |trace|
  {
    forall i :: 0 <= i < n ==> !RefreshesShortened(trace[i], ops[i].0)
  }

  lemma RecordBegins(start: int, ops: seq<(Op, nat)>)
    ensures Recorded(start, ops, 0, [Snap(map[], [], false)], []) && Clean(ops, 0, [Snap(map[], [], false)])
    ensures Clock(start, ops, 0) == start
  {
  }

  lemma RecordGrows(start: int, ops: seq<(Op, nat)>, n: nat, trace: seq<Snap>, outs: seq<seq<Event>>,
                    s': Snap, out: seq<Event>)
    requires n < |ops| && |trace| == n + 1 && |outs| == n && Recorded(start, ops, n, trace, outs)
    requires Step(trace[n], ops[n].0, Clock(start, ops, n) + ops[n].1, s', out) && Sorted(s'.recs, s'.timers)
    ensures Recorded(start, ops, n + 1, trace + [s'], outs + [out])
    ensures Clock(start, ops, n + 1) == Clock(start, ops, n) + ops[n].1
    ensures Clean(ops, n + 1, trace + [s']) <==> Clean(ops, n, trace) && !RefreshesShortened(trace[n], ops[n].0)
  {
    hide Step, Sorted, RefreshesShortened;
    var longer := trace + [s'];
    assert forall i :: 0 <= i <= n ==> longer[i] == trace[i];
  }

  lemma FlatMore(outs: seq<seq<Event>>, out: seq<Event>)
    ensures Flat(outs + [out]) == Flat(outs) + out
  {
    assert (outs + [out])[..|outs|] == outs;
  }

  lemma NoEvents(recs: map<nat, Timer>)
    ensures CancelledAreDead([], recs) && NoneAfterCancel([])
  {
  }

  /** A delivered timer was live, a cancelled one is not, and none comes back to life. */
  lemma LogGrows(log: seq<Event>, s: Snap, op: Op, now: int, s': Snap, out: seq<Event>)
    requires CancelledAreDead(log, s.recs) && NoneAfterCancel(log) && Step(s, op, now, s', out)
    ensures CancelledAreDead(log + out, s'.recs) && NoneAfterCancel(log + out)
  {
    hide Delivers, Stays, Moved;
    DeadStay(s, op, now, s', out);
    if op.Expire? { LiveDelivered(s.recs, s.timers, Ids(out), now, op.probe); }
  }

  lemma DeadStay(s: Snap, op: Op, now: int, s': Snap, out: seq<Event>)
    requires Step(s, op, now, s', out)
    ensures forall id :: id in s.recs && !s.recs[id].live ==> id in s'.recs && !s'.recs[id].live
  {
  }

  lemma LiveDelivered(recs: map<nat, Timer>, order: seq<nat>, cbs: seq<nat>, now: int, probe: nat)
    requires Delivers(recs, order, cbs, now, probe)
    ensures forall i :: 0 <= i < |cbs| ==> cbs[i] in recs && recs[cbs[i]].live
  {
  }

  lemma NeverAfter(log: seq<Event>)
    requires NoneAfterCancel(log)
    ensures forall i, j, id :: 0 <= i < j < |log| && log[i] == Cancelled(id) ==> log[j] != Delivered(id)
  {
  }

  ghost predicate CancelledAreDead(log: seq<Event>, recs: map<nat, Timer>) {
    forall i :: 0 <= i < |log| && log[i].Cancelled? ==> log[i].id in recs && !recs[log[i].id].live
  }

  ghost predicate NoneAfterCancel(log: seq<Event>) {
    forall i, j :: 0 <= i < j < |log| && log[i].Cancelled? ==> log[j] != Delivered(log[i].id)
  }

  /** Sortedness looks only at the deadlines of stored timers. */
  lemma SortedFrame(recs: map<nat, Timer>, recs': map<nat, Timer>, order: seq<nat>)
    requires Sorted(recs, order)
    requires forall id :: id in order ==> id in recs' && recs'[id].next == recs[id].next
    ensures Sorted(recs', order)
  {
  }

  lemma InsertKeepsSorted(recs: map<nat, Timer>, order: seq<nat>, id: nat, k: nat)
    requires Sorted(recs, order) && id in recs && id !in order && k <= |order|
    requires forall i :: 0 <= i < k ==> !Before(recs[id].next, id, recs[order[i]].next, order[i])
    requires forall i :: k <= i < |order| ==> Before(recs[id].next, id, recs[order[i]].next, order[i])
    ensures Sorted(recs, order[..k] + [id] + order[k..])
  {
    var whole := order[..k] + [id] + order[k..];
    assert forall i :: 0 <= i < |whole| ==> whole[i] == if i < k then order[i] else if i == k then id else order[i - 1];
    forall i, j | 0 <= i < j < |whole|
      ensures Before(recs[whole[i]].next, whole[i], recs[whole[j]].next, whole[j])
    {
      if j == k { assert order[i] != id; }
    }
  }

  lemma EraseKeepsSorted(recs: map<nat, Timer>, order: seq<nat>, k: nat)
    requires Sorted(recs, order) && k < |order|
    ensures Sorted(recs, order[..k] + order[k + 1..])
    ensures forall x :: x in order[..k] + order[k + 1..] <==> x != order[k] && x in order
  {
    var rest := order[..k] + order[k + 1..];
    assert forall i :: 0 <= i < |rest| ==> rest[i] == if i < k then order[i] else order[i + 1];
    forall x | x in order && x != order[k]
      ensures x in rest
    {
      var i :| 0 <= i < |order| && order[i] == x;
      assert rest[if i < k then i else i - 1] == x;
    }
  }

  /** The exception is real: shorten a timer with `reset (ms, true)`, let the sleeper report, then
      refresh. The timer is now due before the sleeper wakes up, and nobody has notified it. */
  method RefreshAfterShortening(start: int) returns (tm: TimerManager)
    ensures tm.Valid() && !tm.WakeSafe()
  {
    tm := new TimerManager(start);
    var _ := tm.AddTimer(0, 100, false, start);
    var _ := tm.Reset(0, 1, true, start);
    var _ := tm.GetNextTimer(start);
    var _ := tm.Refresh(0, start);
    assert 0 in tm.timers;
  }
}
