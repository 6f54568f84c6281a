/**
 Dependency tracking: dependencies list their subscribers, watchers list their dependencies in
 two buffers that are swapped after every evaluation.
 */
module VueDeps {
  import opened Options


  /** A reactive source.  Removed subscribers leave a hole until the next cleanup. */
  class Dep {
    const id: nat
    var subs: seq<Watcher?>
    var pending: bool

    constructor (id: nat)
      ensures this.id == id && subs == [] && !pending
    {
      this.id := id;
      subs := [];
      pending := false;
    }
  }

  class Watcher {
    var active: bool
    var deps: seq<Dep>
    var newDeps: seq<Dep>
    var depIds: set<nat>
    var newDepIds: set<nat>

    constructor ()
      ensures active && deps == [] && newDeps == [] && depIds == {} && newDepIds == {}
    {
      active := true;
      deps := [];
      newDeps := [];
      depIds := {};
      newDepIds := {};
    }
  }

  ghost predicate NoRepeat<T>(s: seq<T>) {
    forall i, j :: 0 <= i < j < |s| ==> s[i] != s[j]
  }

  ghost function Ids(s: seq<Dep>): set<nat> {
    set d | d in s :: d.id
  }

  /** Position of the first entry equal to w, or the length if there is none. */
  function IndexOf(s: seq<Watcher?>, w: Watcher): (i: nat)
    ensures i <= |s| && (i < |s| ==> s[i] == w) && (i == |s| ==> w !in s)
  {
    if s == [] then 0 else if s[0] == w then 0 else 1 + IndexOf(s[1..], w)
  }

  function Present(s: seq<Watcher?>): seq<Watcher> {
    if s == [] then []
    else
      var x := s[0];
      if x == null then Present(s[1..]) else [x] + Present(s[1..])
  }

  /** Dropping the holes keeps every subscriber as often as it was. */
  lemma {:induction false} PresentKeepsCounts(s: seq<Watcher?>, w: Watcher)
    ensures multiset(Present(s))[w] == multiset(s)[w]
    decreases |s|
  {
    if s != [] {
      PresentKeepsCounts(s[1..], w);
      assert s == [s[0]] + s[1..];
    }
  }

  /** How often w subscribes to d. */
  ghost function Subscriptions(d: Dep, w: Watcher): nat
    reads d
  {
    multiset(d.subs)[w]
  }

  /** The dependency w records for d, in either buffer. */
  ghost predicate Records(w: Watcher, d: Dep)
    reads w
  {
    d in w.deps || d in w.newDeps
  }

  ghost predicate Mirrors(w: Watcher, known: set<Dep>)
    reads w
  {
    && (forall d :: d in w.deps ==> d in known) && (forall d :: d in w.newDeps ==> d in known)
    && NoRepeat(w.deps) && NoRepeat(w.newDeps)
    && w.depIds == Ids(w.deps) && w.newDepIds == Ids(w.newDeps)
  }

  class Tracker {
    ghost var allDeps: set<Dep>
    ghost var allWatchers: set<Watcher>
    var pendingCleanup: seq<Dep>
    var targets: seq<Watcher>

    constructor ()
      ensures Valid() && allDeps == {} && allWatchers == {} && pendingCleanup == [] && targets == []
    {
      allDeps := {};
      allWatchers := {};
      pendingCleanup := [];
      targets := [];
    }

    /** The identifiers name dependencies, and each watcher's id sets mirror its lists. */
    ghost predicate Indexed()
      reads this`allDeps, this`allWatchers, allDeps, allWatchers
    {
      && (forall c, d :: c in allDeps && d in allDeps && c.id == d.id ==> c == d)
      && (forall w :: w in allWatchers ==> Mirrors(w, allDeps))
    }

    /** The two-way index: an active watcher subscribes once to what it records, and to nothing else. */
    ghost predicate Agrees()
      reads this`allDeps, this`allWatchers, allDeps, allWatchers
    {
      forall w :: w in allWatchers ==> AgreesFor(w)
    }

    ghost predicate AgreesFor(w: Watcher)
      reads this`allDeps, allDeps, w
    {
      w.active ==> forall d :: d in allDeps ==> Subscriptions(d, w) == if Records(w, d) then 1 else 0
    }

    ghost predicate Valid()
      reads this, allDeps, allWatchers
    {
      Indexed() && Agrees() && Queued() && (forall w :: w in targets ==> w in allWatchers)
    }

    /** Exactly the pending dependencies wait for cleanup, and only they have holes. */
    ghost predicate Queued()
      reads this`allDeps, this`pendingCleanup, allDeps
    {
      && (forall d :: d in pendingCleanup ==> d in allDeps)
      && (forall d :: d in allDeps ==> (d.pending <==> d in pendingCleanup) && (null in d.subs ==> d.pending))
    }
  
    /** Nobody but w sees a change. */
    twostate predicate OthersKeep(w: Watcher)
      reads this, allDeps, allWatchers
    {
      && allDeps == old(allDeps) && allWatchers == old(allWatchers)
      && forall v, d :: v in allWatchers && v != w && d in allDeps ==> Subscriptions(d, v) == old(Subscriptions(d, v))
    }

    lemma SameId(w: Watcher, d: Dep)
      requires Indexed() && w in allWatchers && d in allDeps
      ensures d.id in w.newDepIds <==> d in w.newDeps
      ensures d.id in w.depIds <==> d in w.deps
    {
    }

    /** Watchers whose subscriptions and records stay the same keep agreeing. */
    twostate lemma OthersStillAgree(w: Watcher)
      requires old(Agrees()) && OthersKeep(w)
      requires forall v :: v in allWatchers && v != w ==> unchanged(v)
      ensures forall v :: v in allWatchers && v != w ==> AgreesFor(v)
    {
      hide Subscriptions, Records;
      forall v | v in allWatchers && v != w
        ensures AgreesFor(v)
      {
        assert old(AgreesFor(v));
        assert forall d :: d in allDeps ==> Records(v, d) == old(Records(v, d));
      }
    }

    method AddSub(d: Dep, w: Watcher)
      requires Queued() && d in allDeps
      modifies d
      ensures Queued()
      ensures forall v :: v in allWatchers ==> Subscriptions(d, v) == old(Subscriptions(d, v)) + if v == w then 1 else 0
    {
      d.subs := d.subs + [w];
    }

    /** `addDep`: the first touch in an evaluation records d, and subscribes unless it already was. */
    method AddDep(w: Watcher, d: Dep)
      requires Valid() && w in allWatchers && d in allDeps
      modifies w, d
      ensures Valid() && OthersKeep(w)
      ensures w.deps == old(w.deps) && w.active == old(w.active)
      ensures w.newDeps == if d in old(w.newDeps) then old(w.newDeps) else old(w.newDeps) + [d]
    {
      SameId(w, d);
      if d.id !in w.newDepIds {
        assert AgreesFor(w);
        w.newDepIds := w.newDepIds + {d.id};
        w.newDeps := w.newDeps + [d];
        assert Mirrors(w, allDeps);
        if d.id !in w.depIds {
          AddSub(d, w);
        }
        assert AgreesFor(w);
        assert OthersKeep(w);
        assert Indexed() && Agrees() by {
          hide Subscriptions, Records, Mirrors, AgreesFor;
          OthersStillAgree(w);
        }
      }
    }

    /** `removeSub`: leaves a hole and queues the dependency for cleanup. */
    method RemoveSub(d: Dep, w: Watcher)
      requires Queued() && d in allDeps
      modifies d, this`pendingCleanup
      ensures Queued() && d.subs == WithHole(old(d.subs), w)
      ensures forall v :: v in allWatchers && v != w ==> Subscriptions(d, v) == old(Subscriptions(d, v))
      ensures Subscriptions(d, w) == if old(Subscriptions(d, w)) > 0 then old(Subscriptions(d, w)) - 1 else 0
    {
      HoleCounts(d.subs, w);
      var i := IndexOf(d.subs, w);
      if i < |d.subs| {
        d.subs := d.subs[i := null];
      }
      if !d.pending {
        d.pending := true;
        pendingCleanup := pendingCleanup + [d];
      }
    }

    /** Whether d is still subscribed to once entries i and up of the old list were looked at. */
    ghost predicate StillWanted(oldDeps: seq<Dep>, newDeps: seq<Dep>, i: nat, d: Dep) {
      d in newDeps || d in oldDeps[..if i <= |oldDeps| then i else |oldDeps|]
    }

    /** The loop of `cleanupDeps`: unsubscribe from what was not touched again. */
    method DropStale(w: Watcher)
      requires Valid() && w in allWatchers
      modifies allDeps, this`pendingCleanup
      ensures Indexed() && Queued() && OthersKeep(w) && targets == old(targets)
      ensures forall v :: v in allWatchers && v != w ==> AgreesFor(v)
      ensures w.active ==> forall d :: d in allDeps ==> Subscriptions(d, w) == if d in w.newDeps then 1 else 0
    {
      hide Subscriptions, WithHole, Ids;
      ghost var oldDeps, newDeps := w.deps, w.newDeps;
      assert AgreesFor(w);
      hide Agrees;
      var i := |w.deps|;
      while i > 0
        invariant 0 <= i <= |oldDeps|
        invariant OthersKeep(w) && targets == old(targets) && Queued()
        invariant w.active ==> forall d :: d in allDeps ==>
          Subscriptions(d, w) == if StillWanted(oldDeps, newDeps, i, d) then 1 else 0
      {
        hide Subscriptions, WithHole, Ids, Agrees, Records;
        i := i - 1;
        var d := w.deps[i];
        SameId(w, d);
        if d.id !in w.newDepIds {
          RemoveSub(d, w);
        }
        Shrinks(oldDeps, newDeps, i);
      }
      OthersStillAgree(w);
    }

    /** `cleanupDeps`: drop what was not touched again, then swap the buffers. */
    method CleanupDeps(w: Watcher)
      requires Valid() && w in allWatchers
      modifies w, allDeps, this`pendingCleanup
      ensures Valid() && OthersKeep(w) && targets == old(targets)
      ensures w.deps == old(w.newDeps) && w.newDeps == [] && w.active == old(w.active)
    {
      DropStale(w);
      SwapBuffers(w);
    }

    method SwapBuffers(w: Watcher)
      requires Indexed() && w in allWatchers && forall v :: v in allWatchers && v != w ==> AgreesFor(v)
      requires w.active ==> forall d :: d in allDeps ==> Subscriptions(d, w) == if d in w.newDeps then 1 else 0
      modifies w
      ensures Indexed() && Agrees()
      ensures w.deps == old(w.newDeps) && w.newDeps == [] && w.active == old(w.active)
    {
      hide Subscriptions;
      w.depIds, w.newDepIds := w.newDepIds, w.depIds;
      w.newDepIds := {};
      w.deps, w.newDeps := w.newDeps, w.deps;
      w.newDeps := [];
      assert Mirrors(w, allDeps);
      assert forall d :: Records(w, d) <==> d in w.deps;
    }

    /** `cleanupSubs`: the queued dependencies lose their holes; nobody's subscriptions change. */
    method CleanupSubs()
      requires Valid()
      modifies allDeps, this`pendingCleanup
      ensures Valid() && pendingCleanup == [] && allDeps == old(allDeps) && allWatchers == old(allWatchers)
      ensures forall v, d :: v in allWatchers && d in allDeps ==> Subscriptions(d, v) == old(Subscriptions(d, v))
      ensures forall d :: d in allDeps ==> null !in d.subs && !d.pending
    {
      var t := 0;
      while t < |pendingCleanup|
        invariant 0 <= t <= |pendingCleanup|
        invariant pendingCleanup == old(pendingCleanup) && allDeps == old(allDeps) && allWatchers == old(allWatchers)
        invariant targets == old(targets)
        invariant forall v, d :: v in allWatchers && d in allDeps ==> Subscriptions(d, v) == old(Subscriptions(d, v))
        invariant forall d :: d in allDeps && d !in pendingCleanup[t..] ==> null !in d.subs && !d.pending
      {
        hide Subscriptions;
        var d := pendingCleanup[t];
        assert pendingCleanup[t..] == [d] + pendingCleanup[t + 1..];
        FillHoles(d);
        t := t + 1;
      }
      pendingCleanup := [];
      assert Agrees() by {
        hide Subscriptions;
        assert forall v :: v in allWatchers ==> old(AgreesFor(v));
      }
    }

    method FillHoles(d: Dep)
      modifies d
      ensures null !in d.subs && !d.pending
      ensures forall v :: v in allWatchers ==> Subscriptions(d, v) == old(Subscriptions(d, v))
    {
      ghost var before := d.subs;
      var present := Present(d.subs);
      d.subs := present;
      d.pending := false;
      WidenCounts(present, d.subs);
      forall v: Watcher
        ensures multiset(d.subs)[v] == multiset(before)[v]
      {
        PresentKeepsCounts(before, v);
      }
    }

    lemma WidenCounts(s: seq<Watcher>, t: seq<Watcher?>)
      requires s == t
      ensures null !in t
      ensures forall v: Watcher :: multiset(t)[v] == multiset(s)[v]
    {
    }

    /** What a torn-down watcher is subscribed to once entries i and up of its list were removed. */
    ghost predicate StillKept(oldDeps: seq<Dep>, newDeps: seq<Dep>, i: nat, d: Dep) {
      if d in oldDeps then d in oldDeps[..if i <= |oldDeps| then i else |oldDeps|] else d in newDeps
    }

    /**
     `teardown`: the watcher unsubscribes from everything its last evaluation recorded.  Only
     dependencies first touched by an evaluation that is still going on keep it.
     */
    method Teardown(w: Watcher)
      requires Valid() && w in allWatchers
      modifies w, allDeps, this`pendingCleanup
      ensures Valid() && OthersKeep(w) && !w.active && targets == old(targets)
      ensures w.deps == old(w.deps) && w.newDeps == old(w.newDeps)
      ensures old(w.active) ==> forall d :: d in allDeps ==>
        Subscriptions(d, w) == if d in w.newDeps && d !in w.deps then 1 else 0
    {
      if w.active {
        DropAll(w);
        w.active := false;
        assert Mirrors(w, allDeps);
      }
    }

    /** The loop of `teardown`. */
    method DropAll(w: Watcher)
      requires Valid() && w in allWatchers && w.active
      modifies allDeps, this`pendingCleanup
      ensures Indexed() && Queued() && OthersKeep(w) && targets == old(targets)
      ensures forall v :: v in allWatchers && v != w ==> AgreesFor(v)
      ensures forall d :: d in allDeps ==> Subscriptions(d, w) == if d in w.newDeps && d !in w.deps then 1 else 0
    {
      ghost var oldDeps, newDeps := w.deps, w.newDeps;
      assert AgreesFor(w);
      var i := |w.deps|;
      while i > 0
        invariant 0 <= i <= |oldDeps|
        invariant OthersKeep(w) && targets == old(targets) && Queued()
        invariant forall d :: d in allDeps ==> Subscriptions(d, w) == if StillKept(oldDeps, newDeps, i, d) then 1 else 0
      {
        hide Subscriptions, WithHole, Ids, Agrees, Records;
        i := i - 1;
        var d := w.deps[i];
        RemoveSub(d, w);
        KeptShrinks(oldDeps, newDeps, i);
      }
      OthersStillAgree(w);
    }

    lemma KeptShrinks(oldDeps: seq<Dep>, newDeps: seq<Dep>, i: nat)
      requires i < |oldDeps| && NoRepeat(oldDeps)
      ensures StillKept(oldDeps, newDeps, i + 1, oldDeps[i])
      ensures forall d :: d in oldDeps || d in newDeps ==>
        (StillKept(oldDeps, newDeps, i, d) <==> StillKept(oldDeps, newDeps, i + 1, d) && d != oldDeps[i])
    {
      assert oldDeps[..i + 1] == oldDeps[..i] + [oldDeps[i]];
    }

    /** Entry i is the only one that the shorter prefix no longer has. */
    lemma Shrinks(oldDeps: seq<Dep>, newDeps: seq<Dep>, i: nat)
      requires i < |oldDeps| && NoRepeat(oldDeps)
      ensures forall d :: d in oldDeps ==>
        (StillWanted(oldDeps, newDeps, i, d) <==>
           StillWanted(oldDeps, newDeps, i + 1, d) && (d != oldDeps[i] || d in newDeps))
    {
      assert oldDeps[..i + 1] == oldDeps[..i] + [oldDeps[i]];
    }

    // ---- evaluations ----

    /** Watchers that are not being evaluated have an empty second buffer. */
    ghost predicate AtRest(open: set<Watcher>)
      reads this, allWatchers
    {
      forall v :: v in allWatchers && v !in open ==> v.newDeps == []
    }

    /** The watchers in `open` are as they were. */
    twostate predicate OpenKeep(open: set<Watcher>)
      reads this, allDeps, allWatchers
    {
      && allDeps == old(allDeps) && allWatchers == old(allWatchers) && targets == old(targets)
      && forall v :: v in open && v in allWatchers ==>
        v.deps == old(v.deps) && v.newDeps == old(v.newDeps) && v.active == old(v.active)
    }

    /**
     What a run did to another watcher: if it was evaluated meanwhile, however deep, its last run has
     recorded what that run touched itself; otherwise nothing of it has changed.
     */
    twostate predicate LeftBy(v: Watcher, events: seq<Event>)
      reads v, this`allDeps, allDeps
    {
      && v.active == old(v.active)
      && var last := LastRun(v, events);
        if last.Some? then v.deps == FirstTouches([], Touched(last.value))
        else v.deps == old(v.deps) && forall d :: d in allDeps && d in old(allDeps) ==>
          Subscriptions(d, v) == old(Subscriptions(d, v))
    }

    /**
     `get`: the watcher becomes the target, its getter runs, and the buffers are swapped.
     Afterwards an active watcher subscribes, once, to exactly what this run touched itself.  So does
     every watcher that was evaluated meanwhile, with respect to its own last run; all others keep
     what they record and subscribe to.
     */
    method Evaluate(w: Watcher, events: seq<Event>, ghost open: set<Watcher>)
      requires Valid() && w in allWatchers && w !in open
      requires Runs(events, open + {w}, allDeps, allWatchers) && AtRest(open)
      modifies this`targets, this`pendingCleanup, allDeps, allWatchers
      ensures Valid() && OpenKeep(open) && AtRest(open)
      ensures w.deps == FirstTouches([], Touched(events)) && w.newDeps == [] && w.active == old(w.active)
      ensures w.active ==> forall d :: d in allDeps ==> Subscriptions(d, w) == if d in Touched(events) then 1 else 0
      ensures forall v :: v in allWatchers && v != w ==> LeftBy(v, events)
      ensures forall v :: v in allWatchers && v != w && v !in open && v.active && LastRun(v, events).Some? ==>
        forall d :: d in allDeps ==> Subscriptions(d, v) == if d in Touched(LastRun(v, events).value) then 1 else 0
      decreases events, 1
    {
      hide Indexed, Agrees, Subscriptions, FirstTouches, Touched, Runs, LastRun;
      targets := targets + [w];
      assert Valid();
      NothingTouched(events);
      NothingRun(events);
      var k := 0;
      while k < |events|
        invariant 0 <= k <= |events|
        invariant Valid() && targets == old(targets) + [w] && allDeps == old(allDeps) && allWatchers == old(allWatchers)
        invariant forall v :: v in open && v in allWatchers ==>
          v.deps == old(v.deps) && v.newDeps == old(v.newDeps) && v.active == old(v.active)
        invariant AtRest(open + {w}) && w.active == old(w.active)
        invariant w.newDeps == FirstTouches([], Touched(events[..k]))
        invariant forall v :: v in allWatchers && v != w ==> LeftBy(v, events[..k])
      {
        TouchedNext(events, k);
        RunsAt(events, k, open + {w}, allDeps, allWatchers);
        label Before:
        RunEvent(w, events[k], open);
        forall v | v in allWatchers && v != w
          ensures LeftBy(v, events[..k + 1])
        {
          LastRunNext(v, events, k);
          assert old@Before(allDeps) == allDeps;
        }
        k := k + 1;
      }
      assert events[..k] == events;
      targets := targets[..|targets| - 1];
      assert Valid();
      CleanupDeps(w);
      FirstTouchesSet([], Touched(events));
      SubscribedToDeps(w, FirstTouches([], Touched(events)));
      forall v | v in allWatchers && v != w && v !in open && LastRun(v, events).Some?
        ensures v.active ==> forall d :: d in allDeps ==>
          Subscriptions(d, v) == if d in Touched(LastRun(v, events).value) then 1 else 0
      {
        var touched := Touched(LastRun(v, events).value);
        FirstTouchesSet([], touched);
        SubscribedToDeps(v, FirstTouches([], touched));
      }
    }

    /** One step of a getter: the touch of a property, or the evaluation of another watcher. */
    method RunEvent(w: Watcher, event: Event, ghost open: set<Watcher>)
      requires Valid() && w in allWatchers && w !in open && AtRest(open + {w})
      requires |targets| > 0 && targets[|targets| - 1] == w
      requires RunsEvent(event, open + {w}, allDeps, allWatchers)
      modifies this`targets, this`pendingCleanup, allDeps, allWatchers
      ensures Valid() && OpenKeep(open) && AtRest(open + {w}) && w.active == old(w.active)
      ensures w.newDeps == (match event
                            case Touch(d) => (if d in old(w.newDeps) then old(w.newDeps) else old(w.newDeps) + [d])
                            case Nested(_, _) => old(w.newDeps))
      ensures forall v :: v in allWatchers && v != w ==> LeftBy(v, [event])
      decreases event, 2
    {
      hide Indexed, Agrees, Subscriptions, FirstTouches, Touched, Runs;
      RunOfOne(event);
      match event {
        case Touch(d) =>
          AddDep(targets[|targets| - 1], d);
        case Nested(v, inner) =>
          Evaluate(v, inner, open + {w});
      }
    }

    /** At rest, an active watcher subscribes to its first buffer. */
    lemma SubscribedToDeps(w: Watcher, deps: seq<Dep>)
      requires Agrees() && w in allWatchers && w.deps == deps && w.newDeps == []
      ensures w.active ==> forall d :: d in allDeps ==> Subscriptions(d, w) == if d in deps then 1 else 0
    {
      hide Subscriptions;
      assert forall d :: Records(w, d) <==> d in deps;
    }

    /** `notify`: an active watcher is updated once if it records the dependency, and otherwise not at all. */
    method Notify(d: Dep) returns (updated: seq<Watcher>)
      requires Valid() && d in allDeps
      ensures forall w :: w in allWatchers && w.active ==> multiset(updated)[w] == if Records(w, d) then 1 else 0
    {
      updated := Present(d.subs);
      forall w | w in allWatchers && w.active
        ensures multiset(updated)[w] == if Records(w, d) then 1 else 0
      {
        PresentKeepsCounts(d.subs, w);
        assert Subscriptions(d, w) == if Records(w, d) then 1 else 0;
      }
    }
  }

  /** What a getter does: touch a dependency, or have another watcher evaluated meanwhile. */
  datatype Event = Touch(d: Dep) | Nested(w: Watcher, events: seq<Event>)

  /** Everything in the run is known, and no watcher is evaluated while it is being evaluated. */
  ghost predicate Runs(events: seq<Event>, open: set<Watcher>, deps: set<Dep>, watchers: set<Watcher>) {
    forall k :: 0 <= k < |events| ==> RunsEvent(events[k], open, deps, watchers)
  }

  ghost predicate RunsEvent(event: Event, open: set<Watcher>, deps: set<Dep>, watchers: set<Watcher>) {
    match event
    case Touch(d) => d in deps
    case Nested(v, inner) => v in watchers && v !in open && Runs(inner, open + {v}, deps, watchers)
  }

  /** The last run of v that a run contains, at any depth. */
  function LastRun(v: Watcher, events: seq<Event>): Option<seq<Event>> {
    if events == [] then None
    else
      var last := events[|events| - 1];
      var run :=
        if last.Touch? then None
        else if last.w == v then Some(last.events)
        else LastRun(v, last.events);
      if run.Some? then run else LastRun(v, events[..|events| - 1])
  }

  lemma NothingRun(events: seq<Event>)
    ensures forall v :: LastRun(v, events[..0]) == None
  {
  }

  lemma RunOfOne(event: Event)
    ensures forall v ::
      (LastRun(v, [event]) ==
       if event.Touch? then None else if event.w == v then Some(event.events) else LastRun(v, event.events))
  {
    assert [event][..0] == [];
  }

  lemma LastRunNext(v: Watcher, events: seq<Event>, k: nat)
    requires k < |events|
    ensures LastRun(v, events[..k + 1]) ==
      if LastRun(v, [events[k]]).Some? then LastRun(v, [events[k]]) else LastRun(v, events[..k])
  {
    var s := events[..k + 1];
    assert s[..|s| - 1] == events[..k] && s[|s| - 1] == events[k];
    assert [events[k]][..0] == [];
  }

  lemma RunsAt(events: seq<Event>, k: nat, open: set<Watcher>, deps: set<Dep>, watchers: set<Watcher>)
    requires k < |events| && Runs(events, open, deps, watchers)
    ensures RunsEvent(events[k], open, deps, watchers)
  {
  }

  /** The dependencies a run touches itself. */
  function Touched(events: seq<Event>): seq<Dep> {
    if events == [] then []
    else
      var before, last := Touched(events[..|events| - 1]), events[|events| - 1];
      if last.Touch? then before + [last.d] else before
  }

  lemma NothingTouched(events: seq<Event>)
    ensures FirstTouches([], Touched(events[..0])) == []
  {
  }

  /** Touches in order, each dependency once. */
  function FirstTouches(acc: seq<Dep>, touches: seq<Dep>): seq<Dep> {
    if touches == [] then acc
    else
      var before, d := FirstTouches(acc, touches[..|touches| - 1]), touches[|touches| - 1];
      if d in before then before else before + [d]
  }

  lemma TouchedNext(events: seq<Event>, k: nat)
    requires k < |events|
    ensures (var before := FirstTouches([], Touched(events[..k]));
      FirstTouches([], Touched(events[..k + 1])) ==
        (match events[k]
         case Touch(d) => (if d in before then before else before + [d])
         case Nested(_, _) => before))
  {
    var s := events[..k + 1];
    assert s[..|s| - 1] == events[..k] && s[|s| - 1] == events[k];
    if events[k].Touch? {
      var t := Touched(events[..k]);
      assert (t + [events[k].d])[..|t|] == t;
    }
  }

  /** The recorded dependencies are the touched ones. */
  lemma {:induction false} FirstTouchesSet(acc: seq<Dep>, touches: seq<Dep>)
    ensures forall d :: d in FirstTouches(acc, touches) <==> d in acc || d in touches
    decreases |touches|
  {
    if touches != [] {
      var n := |touches| - 1;
      FirstTouchesSet(acc, touches[..n]);
      assert touches == touches[..n] + [touches[n]];
    }
  }

  /** One subscription of w replaced by a hole. */
  function WithHole(s: seq<Watcher?>, w: Watcher): seq<Watcher?> {
    if IndexOf(s, w) < |s| then s[IndexOf(s, w) := null] else s
  }

  lemma HoleCounts(s: seq<Watcher?>, w: Watcher)
    ensures forall v: Watcher :: v != w ==> multiset(WithHole(s, w))[v] == multiset(s)[v]
    ensures multiset(WithHole(s, w))[w] == if multiset(s)[w] > 0 then multiset(s)[w] - 1 else 0
  {
    var i := IndexOf(s, w);
    if i < |s| {
      assert s == s[..i] + [w] + s[i + 1..];
      assert s[i := null] == s[..i] + [null] + s[i + 1..];
    } else {
      assert w !in s;
    }
  }
}
