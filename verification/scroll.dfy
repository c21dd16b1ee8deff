/**
 The scroll-driven pieces: the reveal registry fed by the viewport
 intersection callback, and the scroll-to-top button's visibility rule.

 Animated elements are named by their position in the page's list of
 targets. The host timer that later adds the reveal class is represented by
 the `Timer` it is asked to start.
 */
module Scroll {

  /** Delay step between consecutive targets, in milliseconds. */
  const DelayStep: nat := 60

  /** Vertical offset beyond which the scroll-to-top button shows. */
  const ShowThreshold: real := 400.0

  /** The delay written on target `index` at start-up. */
  function Delay(index: nat): (d: nat)
    ensures d % DelayStep == 0 && d / DelayStep == index
  {
    index * DelayStep
  }

  /** One entry of an intersection callback batch. */
  datatype Entry = Entry(target: nat, isIntersecting: bool)

  /** A reveal scheduled for `target` after `delay` milliseconds. */
  datatype Timer = Timer(target: nat, delay: nat)

  /** The registry after start-up: every target 0 .. count-1 is observed. */
  function Observe(count: nat): (observed: set<nat>)
    ensures forall t: nat :: t in observed <==> t < count
  {
    if count == 0 then {} else Observe(count - 1) + {count - 1}
  }

  function IntersectingTargets(entries: seq<Entry>): set<nat>
  {
    set i | 0 <= i < |entries| && entries[i].isIntersecting :: entries[i].target
  }

  /** The callback for one batch, entries in delivery order: an intersecting
      entry starts a reveal timer with its target's delay and unobserves the
      target; other entries are ignored. */
  function Callback(observed: set<nat>, entries: seq<Entry>): (r: (set<nat>, seq<Timer>))
    ensures r.0 == observed - IntersectingTargets(entries)
    ensures forall k :: 0 <= k < |r.1| ==> r.1[k].target in IntersectingTargets(entries)
    ensures forall k :: 0 <= k < |r.1| ==> r.1[k].delay == Delay(r.1[k].target)
    ensures forall t :: t in IntersectingTargets(entries) ==> exists k :: 0 <= k < |r.1| && r.1[k].target == t
    decreases |entries|
  {
    if entries == [] then (observed, [])
    else
      var e := entries[0];
      var rest := Callback(if e.isIntersecting then observed - {e.target} else observed, entries[1..]);
      IntersectingSplit(entries);
      if e.isIntersecting then
        var r := (rest.0, [Timer(e.target, Delay(e.target))] + rest.1);
        assert forall t :: t in IntersectingTargets(entries[1..]) ==>
          exists k :: 0 <= k < |r.1| && r.1[k].target == t by {
          forall t | t in IntersectingTargets(entries[1..])
            ensures exists k :: 0 <= k < |r.1| && r.1[k].target == t
          {
            var k :| 0 <= k < |rest.1| && rest.1[k].target == t;
            assert r.1[k + 1] == rest.1[k];
          }
        }
        assert r.1[0].target == e.target;
        r
      else rest
  }

  /** The intersecting targets of a batch are those of its first entry and
      those of the rest. */
  lemma IntersectingSplit(entries: seq<Entry>)
    requires entries != []
    ensures IntersectingTargets(entries) ==
      (if entries[0].isIntersecting then {entries[0].target} else {}) + IntersectingTargets(entries[1..])
  {
    var e := entries[0];
    forall t | t in IntersectingTargets(entries)
      ensures t in (if e.isIntersecting then {e.target} else {}) + IntersectingTargets(entries[1..])
    {
      var i :| 0 <= i < |entries| && entries[i].isIntersecting && entries[i].target == t;
      if i > 0 {
        assert entries[1..][i - 1] == entries[i];
      }
    }
    forall t | t in IntersectingTargets(entries[1..])
      ensures t in IntersectingTargets(entries)
    {
      var i :| 0 <= i < |entries[1..]| && entries[1..][i].isIntersecting && entries[1..][i].target == t;
      assert entries[i + 1] == entries[1..][i];
    }
  }

  /** What the host hands the callback: entries only for targets still
      observed, at most one entry per target. */
  predicate Deliverable(observed: set<nat>, entries: seq<Entry>)
  {
    && (forall i :: 0 <= i < |entries| ==> entries[i].target in observed)
    && (forall i, j :: 0 <= i < j < |entries| ==> entries[i].target != entries[j].target)
  }

  /** A run of callback batches as the host delivers them. */
  predicate HostRun(observed: set<nat>, batches: seq<seq<Entry>>)
    decreases |batches|
  {
    batches != [] ==>
      && Deliverable(observed, batches[0])
      && HostRun(Callback(observed, batches[0]).0, batches[1..])
  }

  /** The registry and all reveal timers started after a run of batches. */
  function Schedule(observed: set<nat>, batches: seq<seq<Entry>>): (r: (set<nat>, seq<Timer>))
    ensures r.0 <= observed
    decreases |batches|
  {
    if batches == [] then (observed, [])
    else
      var first := Callback(observed, batches[0]);
      var rest := Schedule(first.0, batches[1..]);
      (rest.0, first.1 + rest.1)
  }

  /** No two timers reveal the same target. */
  predicate OncePerTarget(timers: seq<Timer>)
  {
    forall k, l :: 0 <= k < l < |timers| ==> timers[k].target != timers[l].target
  }

  /** Every timer's target was observed before and is unobserved after. */
  predicate Unobserved(timers: seq<Timer>, before: set<nat>, after: set<nat>)
  {
    forall k :: 0 <= k < |timers| ==> timers[k].target in before && timers[k].target !in after
  }

  /** One batch starts at most one timer per target, each for an observed
      target that the batch then unobserves. */
  lemma {:induction false} CallbackOncePerTarget(observed: set<nat>, entries: seq<Entry>)
    requires Deliverable(observed, entries)
    ensures Unobserved(Callback(observed, entries).1, observed, Callback(observed, entries).0)
    ensures OncePerTarget(Callback(observed, entries).1)
    decreases |entries|
  {
    if entries != [] {
      var e := entries[0];
      var obs1 := if e.isIntersecting then observed - {e.target} else observed;
      assert Deliverable(obs1, entries[1..]) by {
        forall i | 0 <= i < |entries[1..]|
          ensures entries[1..][i].target in obs1
        {
          assert entries[1..][i] == entries[i + 1];
        }
      }
      CallbackOncePerTarget(obs1, entries[1..]);
      var rest := Callback(obs1, entries[1..]);
      var r := Callback(observed, entries);
      if e.isIntersecting {
        assert r == (rest.0, [Timer(e.target, Delay(e.target))] + rest.1);
        PrependTimer(observed, Timer(e.target, Delay(e.target)), rest.1, rest.0);
      } else {
        assert r == rest;
      }
    }
  }

  /** A timer for an observed target, put in front of timers that all avoid
      it, keeps every target revealed once. */
  lemma PrependTimer(observed: set<nat>, t: Timer, timers: seq<Timer>, after: set<nat>)
    requires t.target in observed && t.target !in after
    requires Unobserved(timers, observed - {t.target}, after)
    requires OncePerTarget(timers)
    ensures Unobserved([t] + timers, observed, after)
    ensures OncePerTarget([t] + timers)
  {
  }

  /** However many batches the host delivers, every target gets at most one
      reveal timer, and only targets observed at the start get one. */
  lemma {:induction false} RevealAtMostOnce(observed: set<nat>, batches: seq<seq<Entry>>)
    requires HostRun(observed, batches)
    ensures Unobserved(Schedule(observed, batches).1, observed, Schedule(observed, batches).0)
    ensures OncePerTarget(Schedule(observed, batches).1)
    decreases |batches|
  {
    if batches != [] {
      var first := Callback(observed, batches[0]);
      CallbackOncePerTarget(observed, batches[0]);
      RevealAtMostOnce(first.0, batches[1..]);
      var rest := Schedule(first.0, batches[1..]);
      var all := first.1 + rest.1;
      assert Schedule(observed, batches) == (rest.0, all);
      forall k | 0 <= k < |all|
        ensures all[k].target in observed && all[k].target !in rest.0
      {
        if k >= |first.1| {
          assert all[k] == rest.1[k - |first.1|];
        } else {
          assert all[k] == first.1[k];
        }
      }
      forall k, l | 0 <= k < l < |all|
        ensures all[k].target != all[l].target
      {
        if l < |first.1| {
          assert all[k] == first.1[k] && all[l] == first.1[l];
        } else if k < |first.1| {
          assert all[k] == first.1[k];
          assert all[l] == rest.1[l - |first.1|];
        } else {
          assert all[k] == rest.1[k - |first.1|];
          assert all[l] == rest.1[l - |first.1|];
        }
      }
    }
  }

  /** The scroll handler: given whether the scroll-to-top button is showing
      and the page's vertical offset, whether it shows afterwards. It shows
      exactly when the page is scrolled strictly further down than the
      threshold, whatever it showed before. */
  function OnScroll(showing: bool, scrollY: real): (show: bool)
    ensures show <==> scrollY > ShowThreshold
  {
    if scrollY > ShowThreshold then true else false
  }

  /** Scrolling further down never hides the button. */
  lemma OnScrollMonotone(a: bool, b: bool, y1: real, y2: real)
    requires y1 <= y2
    ensures OnScroll(a, y1) ==> OnScroll(b, y2)
  {
  }

  lemma ScrollTopBoundary()
    ensures !OnScroll(true, 399.0) && !OnScroll(true, 400.0) && OnScroll(false, 401.0)
  {
  }
}
