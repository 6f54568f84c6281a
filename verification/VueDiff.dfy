/**
 The two-ended diff that turns the rendered children of an element into new ones.  Old and new
 lists are the arrays the source works on: old entries are cleared when they are consumed out
 of order, new ones receive the element they are rendered with.
 */
module VueDiff {
  import opened Options
  import opened DomList

  /** A node's key: none, `null`, or a string or number with its spelling. */
  datatype Key = Undefined | Null | Named(isNumber: bool, name: string)

  /** The parts of a virtual node the diff looks at. */
  datatype VNode = VNode(
    key: Key, asyncFactory: int, factoryFailed: bool, isAsyncPlaceholder: bool,
    tag: string, isComment: bool, hasData: bool, inputType: string,
    elm: Option<Elm>)

  predicate IsTextInputType(t: string) {
    t == "text" || t == "number" || t == "password" || t == "search" || t == "email" || t == "tel" || t == "url"
  }

  predicate SameInputType(t: VNode, e: VNode) {
    t.tag != "input" || t.inputType == e.inputType || (IsTextInputType(t.inputType) && IsTextInputType(e.inputType))
  }

  /** `sameVnode`: whether e may be rendered with t's element. */
  predicate SameVnode(t: VNode, e: VNode) {
    && t.key == e.key && t.asyncFactory == e.asyncFactory
    && ((t.tag == e.tag && t.isComment == e.isComment && t.hasData == e.hasData && SameInputType(t, e))
        || (t.isAsyncPlaceholder && !e.factoryFailed))
  }

  /** Property names every object literal inherits; reading one never yields `undefined`. */
  const INHERITED: set<string> := {
    "constructor", "__proto__", "hasOwnProperty", "isPrototypeOf", "propertyIsEnumerable", "toString",
    "valueOf", "toLocaleString", "__defineGetter__", "__defineSetter__", "__lookupGetter__", "__lookupSetter__"}

  /** The result of `table[name]` on a table built from an empty object literal. */
  datatype Entry = Own(index: nat) | Inherited | Missing

  function Lookup(table: map<string, nat>, name: string): Entry {
    if name in table then Own(table[name]) else if name in INHERITED then Inherited else Missing
  }

  /** Keys must be unique among siblings. */
  predicate DistinctKeys(s: seq<VNode>) {
    forall i, j :: 0 <= i < j < |s| && s[i].key.Named? && s[j].key.Named? ==> s[i].key.name != s[j].key.name
  }

  function ElmOf(v: VNode): Elm { if v.elm.Some? then v.elm.value else 0 }

  function Elms(s: seq<VNode>): (r: seq<Elm>)
    ensures |r| == |s|
  {
    seq(|s|, i requires 0 <= i < |s| => ElmOf(s[i]))
  }

  /** The elements of the entries of [lo, hi) that are still there. */
  function Live(slots: seq<Option<VNode>>, lo: nat, hi: nat): seq<Elm>
    requires lo <= hi <= |slots|
    decreases hi - lo
  {
    if lo == hi then []
    else (if slots[lo].Some? then [ElmOf(slots[lo].value)] else []) + Live(slots, lo + 1, hi)
  }

  lemma {:induction false} LiveSplit(slots: seq<Option<VNode>>, lo: nat, mid: nat, hi: nat)
    requires lo <= mid <= hi <= |slots|
    ensures Live(slots, lo, hi) == Live(slots, lo, mid) + Live(slots, mid, hi)
    decreases mid - lo
  {
    if lo < mid {
      LiveSplit(slots, lo + 1, mid, hi);
    }
  }

  lemma {:induction false} LiveSame(s: seq<Option<VNode>>, t: seq<Option<VNode>>, lo: nat, hi: nat)
    requires lo <= hi <= |s| == |t| && s[lo..hi] == t[lo..hi]
    ensures Live(s, lo, hi) == Live(t, lo, hi)
    decreases hi - lo
  {
    if lo < hi {
      assert s[lo] == s[lo..hi][0] == t[lo..hi][0] == t[lo];
      assert s[lo + 1..hi] == s[lo..hi][1..] == t[lo + 1..hi];
      LiveSame(s, t, lo + 1, hi);
    }
  }

  lemma LiveLast(slots: seq<Option<VNode>>, lo: nat, hi: nat)
    requires lo < hi <= |slots| && slots[hi - 1].Some?
    ensures var w := Live(slots, lo, hi); w != [] && w[|w| - 1] == ElmOf(slots[hi - 1].value)
  {
    LiveSplit(slots, lo, hi - 1, hi);
    LiveOne(slots, hi - 1);
  }

  /** Clearing one live entry. */
  lemma LiveCleared(slots: seq<Option<VNode>>, lo: nat, i: nat, hi: nat)
    requires lo <= i < hi <= |slots| && slots[i].Some?
    ensures Live(slots, lo, hi) == Live(slots, lo, i) + ([ElmOf(slots[i].value)] + Live(slots, i + 1, hi))
    ensures Live(slots[i := None], lo, hi) == Live(slots, lo, i) + Live(slots, i + 1, hi)
  {
    var t := slots[i := None];
    LiveSplit(slots, lo, i, hi);
    LiveSplit(t, lo, i, hi);
    assert slots[lo..i] == t[lo..i] && slots[i + 1..hi] == t[i + 1..hi];
    LiveSame(slots, t, lo, i);
    LiveSame(slots, t, i + 1, hi);
    assert Live(t, i, hi) == [] + Live(t, i + 1, hi) == Live(t, i + 1, hi);
  }

  /** One entry alone. */
  lemma LiveOne(slots: seq<Option<VNode>>, i: nat)
    requires i < |slots|
    ensures Live(slots, i, i + 1) == if slots[i].Some? then [ElmOf(slots[i].value)] else []
  {
    assert Live(slots, i + 1, i + 1) == [];
  }

  lemma {:induction false} LiveAll(old0: seq<VNode>, slots: seq<Option<VNode>>, lo: nat)
    requires |slots| == |old0| && lo <= |old0| && forall i :: 0 <= i < |old0| ==> slots[i] == Some(old0[i])
    ensures Live(slots, lo, |slots|) == Elms(old0[lo..])
    decreases |old0| - lo
  {
    if lo < |old0| {
      LiveAll(old0, slots, lo + 1);
      assert Elms(old0[lo..]) == [ElmOf(old0[lo])] + Elms(old0[lo + 1..]);
    }
  }

  /**
   The state between iterations.  The old window is [p, q), the unfinished new nodes are
   [h, z).  `taken` and `source` record which old node each reused element came from.
   */
  datatype State = State(
    slots: seq<Option<VNode>>, nodes: seq<VNode>, p: nat, q: nat, h: nat, z: nat,
    children: seq<Elm>, nextElm: Elm, taken: map<nat, nat>, source: map<nat, nat>)

  ghost predicate Finished(s: State, j: nat) { j < |s.nodes| && (j < s.h || j >= s.z) }

  ghost predicate Consumed(s: State, i: nat) { i < |s.slots| && (i < s.p || i >= s.q || s.slots[i].None?) }

  ghost predicate Shape(old0: seq<VNode>, new0: seq<VNode>, s: State) {
    && s.p <= s.q <= |s.slots| == |old0| && s.h <= s.z <= |s.nodes| == |new0|
    && (forall i :: 0 <= i < |old0| ==> s.slots[i].None? || s.slots[i] == Some(old0[i]))
    && (forall j :: 0 <= j < |new0| ==> s.nodes[j].(elm := new0[j].elm) == new0[j])
  }

  /** The children are the finished prefix, the live old window and the finished suffix. */
  ghost predicate Layout(s: State)
    requires s.p <= s.q <= |s.slots| && s.h <= s.z <= |s.nodes|
  {
    s.children == Elms(s.nodes[..s.h]) + Live(s.slots, s.p, s.q) + Elms(s.nodes[s.z..])
  }

  /** An old node is consumed exactly when it is recorded as taken by a new one. */
  ghost predicate TakenOk(s: State) {
    && (forall i: nat :: i < |s.slots| ==> (Consumed(s, i) <==> i in s.taken))
    && (forall i :: i in s.taken ==> s.taken[i] in s.source && s.source[s.taken[i]] == i)
  }

  /** A reused element comes from a matching old node, and no two come from the same one. */
  ghost predicate SourceOk(old0: seq<VNode>, new0: seq<VNode>, s: State)
    requires |s.slots| == |old0| && |s.nodes| == |new0|
  {
    forall j :: j in s.source ==>
      && j < |new0| && Finished(s, j) && s.source[j] < |old0| && s.source[j] in s.taken && s.taken[s.source[j]] == j
      && SameVnode(old0[s.source[j]], new0[j]) && s.nodes[j].elm == old0[s.source[j]].elm
  }

  /** Every other finished new node has an element created during the diff. */
  ghost predicate FreshOk(fresh0: Elm, s: State) {
    forall j: nat :: j < |s.nodes| && Finished(s, j) && j !in s.source ==>
      s.nodes[j].elm.Some? && s.nodes[j].elm.value >= fresh0
  }

  ghost predicate Bookkeeping(old0: seq<VNode>, new0: seq<VNode>, fresh0: Elm, s: State)
    requires |s.slots| == |old0| && |s.nodes| == |new0|
  {
    TakenOk(s) && SourceOk(old0, new0, s) && FreshOk(fresh0, s)
  }

  ghost predicate OldRendered(old0: seq<VNode>, fresh0: Elm) {
    && (forall i :: 0 <= i < |old0| ==> old0[i].elm.Some? && old0[i].elm.value < fresh0)
    && NoDup(Elms(old0))
  }

  ghost predicate Inv(old0: seq<VNode>, new0: seq<VNode>, fresh0: Elm, s: State) {
    && Shape(old0, new0, s) && Layout(s) && Bookkeeping(old0, new0, fresh0, s)
    && Tidy(s.children, s.nextElm) && fresh0 <= s.nextElm
  }

  // ---- one step at a time ----

  /** Recording that old node i now renders new node j. */
  function Reuse(s: State, i: nat, j: nat): State
    requires i < |s.slots| && s.slots[i].Some? && j < |s.nodes|
  {
    s.(nodes := s.nodes[j := s.nodes[j].(elm := s.slots[i].value.elm)],
       taken := s.taken[i := j], source := s.source[j := i])
  }

  /** Old entry i leaves the window at an end or by being cleared. */
  ghost predicate Leaves(s: State, s': State, i: nat) {
    && s.p <= i < s.q <= |s.slots| && s.slots[i].Some?
    && (|| (i == s.p && s'.p == s.p + 1 && s'.q == s.q && s'.slots == s.slots)
        || (i == s.q - 1 && s'.p == s.p && s'.q == s.q - 1 && s'.slots == s.slots)
        || (s'.p == s.p && s'.q == s.q && s'.slots == s.slots[i := None]))
  }

  /** New node j is finished at one end of the unfinished ones. */
  ghost predicate Finishes(s: State, s': State, j: nat) {
    && s.h <= j < s.z <= |s.nodes|
    && (|| (j == s.h && s'.h == s.h + 1 && s'.z == s.z)
        || (j == s.z - 1 && s'.h == s.h && s'.z == s.z - 1))
  }

  lemma LeavesConsumed(s: State, s': State, i: nat)
    requires Leaves(s, s', i)
    ensures !Consumed(s, i)
    ensures forall k: nat :: Consumed(s', k) <==> Consumed(s, k) || k == i
  {
  }

  lemma FinishesFinished(s: State, s': State, j: nat)
    requires Finishes(s, s', j) && |s'.nodes| == |s.nodes|
    ensures !Finished(s, j)
    ensures forall k: nat :: Finished(s', k) <==> Finished(s, k) || k == j
  {
  }

  /** Consuming i by j keeps shape and bookkeeping, wherever the windows move. */
  lemma ReuseKeeps(old0: seq<VNode>, new0: seq<VNode>, fresh0: Elm, s: State, i: nat, j: nat, s': State)
    requires Shape(old0, new0, s) && Bookkeeping(old0, new0, fresh0, s)
    requires Leaves(s, s', i) && Finishes(s, s', j)
    requires SameVnode(s.slots[i].value, s.nodes[j])
    requires s'.nodes == Reuse(s, i, j).nodes && s'.taken == s.taken[i := j] && s'.source == s.source[j := i]
    ensures Shape(old0, new0, s') && Bookkeeping(old0, new0, fresh0, s')
  {
    hide Consumed, Finished, SourceOk, TakenOk, FreshOk;
    LeavesConsumed(s, s', i);
    FinishesFinished(s, s', j);
    SameForOriginal(s.slots[i].value, s.nodes[j], new0[j]);
    NotRecorded(old0, new0, s, i, j);
    ReuseTaken(s, i, j, s');
    ReuseSource(old0, new0, s, i, j, s');
    ReuseFresh(fresh0, s, j, s');
  }

  lemma SameForOriginal(t: VNode, e: VNode, e0: VNode)
    requires SameVnode(t, e) && e.(elm := e0.elm) == e0
    ensures SameVnode(t, e0)
  {
  }

  lemma NotRecorded(old0: seq<VNode>, new0: seq<VNode>, s: State, i: nat, j: nat)
    requires |s.slots| == |old0| && |s.nodes| == |new0| && TakenOk(s) && SourceOk(old0, new0, s)
    requires i < |old0| && !Consumed(s, i) && !Finished(s, j)
    ensures i !in s.taken && j !in s.source
  {
    hide SameVnode, Finished, Consumed;
  }

  lemma ReuseTaken(s: State, i: nat, j: nat, s': State)
    requires TakenOk(s) && i < |s.slots| == |s'.slots| && i !in s.taken && j !in s.source
    requires s'.taken == s.taken[i := j] && s'.source == s.source[j := i]
    requires forall k: nat :: Consumed(s', k) <==> Consumed(s, k) || k == i
    ensures TakenOk(s')
  {
    hide Consumed;
    forall k | k in s'.taken
      ensures s'.taken[k] in s'.source && s'.source[s'.taken[k]] == k
    {
      assert k != i ==> k in s.taken && s.taken[k] in s.source;
    }
  }

  lemma ReuseSource(old0: seq<VNode>, new0: seq<VNode>, s: State, i: nat, j: nat, s': State)
    requires |s.slots| == |s'.slots| == |old0| && |s.nodes| == |s'.nodes| == |new0| && i < |old0| && j < |new0|
    requires SourceOk(old0, new0, s) && i !in s.taken && j !in s.source
    requires s'.taken == s.taken[i := j] && s'.source == s.source[j := i]
    requires s'.nodes == s.nodes[j := s.nodes[j].(elm := old0[i].elm)] && SameVnode(old0[i], new0[j])
    requires forall k: nat :: Finished(s', k) <==> Finished(s, k) || k == j
    ensures SourceOk(old0, new0, s')
  {
    hide SameVnode, Finished;
    forall k | k in s'.source
      ensures k < |new0| && Finished(s', k) && s'.source[k] < |old0| && s'.source[k] in s'.taken
      ensures s'.taken[s'.source[k]] == k
      ensures SameVnode(old0[s'.source[k]], new0[k]) && s'.nodes[k].elm == old0[s'.source[k]].elm
    {
      if k != j {
        assert k in s.source && s.source[k] in s.taken && s.taken[s.source[k]] == k;
      }
    }
  }

  lemma ReuseFresh(fresh0: Elm, s: State, j: nat, s': State)
    requires FreshOk(fresh0, s) && |s.nodes| == |s'.nodes| && j < |s.nodes|
    requires s'.source.Keys == s.source.Keys + {j}
    requires forall k: nat :: k < |s.nodes| && k != j ==> s'.nodes[k] == s.nodes[k]
    requires forall k: nat :: Finished(s', k) <==> Finished(s, k) || k == j
    ensures FreshOk(fresh0, s')
  {
    hide Finished;
    forall k: nat | k < |s'.nodes| && Finished(s', k) && k !in s'.source
      ensures s'.nodes[k].elm.Some? && s'.nodes[k].elm.value >= fresh0
    {
      assert k != j && Finished(s, k) && k !in s.source;
    }
  }

  /** Windows may move without consuming or finishing anything. */
  lemma BookkeepingSame(old0: seq<VNode>, new0: seq<VNode>, fresh0: Elm, s: State, s': State)
    requires |s.slots| == |s'.slots| == |old0| && |s.nodes| == |new0| && Bookkeeping(old0, new0, fresh0, s)
    requires s'.nodes == s.nodes && s'.taken == s.taken && s'.source == s.source
    requires forall k: nat :: Consumed(s', k) <==> Consumed(s, k)
    requires forall k: nat :: Finished(s', k) <==> Finished(s, k)
    ensures Bookkeeping(old0, new0, fresh0, s')
  {
    hide Consumed, Finished, SameVnode;
  }

  /** The window leaves out its first, cleared, entry. */
  function DropHead(s: State): State { s.(p := s.p + 1) }

  /** The window leaves out its last, cleared, entry. */
  function DropTail(s: State): State
    requires s.q > 0
  {
    s.(q := s.q - 1)
  }

  lemma DropConsumed(s: State, s': State)
    requires s.p < s.q <= |s.slots|
    requires (s' == DropHead(s) && s.slots[s.p].None?) || (s' == DropTail(s) && s.slots[s.q - 1].None?)
    ensures forall k: nat :: Consumed(s', k) <==> Consumed(s, k)
    ensures forall k: nat :: Finished(s', k) <==> Finished(s, k)
  {
  }

  lemma SkipLeft(old0: seq<VNode>, new0: seq<VNode>, fresh0: Elm, s: State)
    requires Inv(old0, new0, fresh0, s) && s.p < s.q && s.slots[s.p].None?
    ensures Inv(old0, new0, fresh0, DropHead(s))
  {
    hide Bookkeeping, Consumed, Finished, Tidy;
    assert Live(s.slots, s.p, s.q) == [] + Live(s.slots, s.p + 1, s.q) == Live(s.slots, s.p + 1, s.q);
    DropConsumed(s, DropHead(s));
    BookkeepingSame(old0, new0, fresh0, s, DropHead(s));
  }

  lemma SkipRight(old0: seq<VNode>, new0: seq<VNode>, fresh0: Elm, s: State)
    requires Inv(old0, new0, fresh0, s) && s.p < s.q && s.slots[s.q - 1].None?
    ensures Inv(old0, new0, fresh0, DropTail(s))
  {
    hide Bookkeeping, Consumed, Finished, Tidy;
    LiveSplit(s.slots, s.p, s.q - 1, s.q);
    LiveOne(s.slots, s.q - 1);
    assert Live(s.slots, s.p, s.q - 1) + [] == Live(s.slots, s.p, s.q - 1);
    DropConsumed(s, DropTail(s));
    BookkeepingSame(old0, new0, fresh0, s, DropTail(s));
  }

  /** The finished prefix grows by new node h with element e. */
  lemma PrefixGrows(nodes: seq<VNode>, h: nat, z: nat, e: Elm)
    requires h < z <= |nodes|
    ensures var n := nodes[h := nodes[h].(elm := Some(e))];
      Elms(n[..h + 1]) == Elms(nodes[..h]) + [e] && Elms(n[z..]) == Elms(nodes[z..])
  {
  }

  /** The finished suffix grows by new node z - 1 with element e. */
  lemma SuffixGrows(nodes: seq<VNode>, h: nat, z: nat, e: Elm)
    requires h < z <= |nodes|
    ensures var n := nodes[z - 1 := nodes[z - 1].(elm := Some(e))];
      Elms(n[z - 1..]) == [e] + Elms(nodes[z..]) && Elms(n[..h]) == Elms(nodes[..h])
  {
  }

  /** The element of the window's entry i. */
  function SlotElm(s: State, i: nat): Elm
    requires i < |s.slots|
  {
    if s.slots[i].Some? then ElmOf(s.slots[i].value) else 0
  }

  lemma NodesElm(old0: seq<VNode>, new0: seq<VNode>, fresh0: Elm, s: State, i: nat)
    requires Shape(old0, new0, s) && OldRendered(old0, fresh0) && i < |old0| && s.slots[i].Some?
    ensures s.slots[i].value == old0[i] && old0[i].elm == Some(SlotElm(s, i)) && SlotElm(s, i) < fresh0
  {
  }

  lemma HeadHead(old0: seq<VNode>, new0: seq<VNode>, fresh0: Elm, s: State)
    requires Inv(old0, new0, fresh0, s) && OldRendered(old0, fresh0) && s.p < s.q && s.h < s.z
    requires s.slots[s.p].Some? && SameVnode(s.slots[s.p].value, s.nodes[s.h])
    ensures Inv(old0, new0, fresh0, Reuse(s, s.p, s.h).(p := s.p + 1, h := s.h + 1))
  {
    hide SameVnode, Bookkeeping, Consumed, Finished, Tidy;
    var e := SlotElm(s, s.p);
    NodesElm(old0, new0, fresh0, s, s.p);
    var s' := Reuse(s, s.p, s.h).(p := s.p + 1, h := s.h + 1);
    PrefixGrows(s.nodes, s.h, s.z, e);
    ReuseKeeps(old0, new0, fresh0, s, s.p, s.h, s');
    assert s'.children == Elms(s'.nodes[..s'.h]) + Live(s.slots, s'.p, s.q) + Elms(s'.nodes[s.z..]);
  }

  lemma TailTail(old0: seq<VNode>, new0: seq<VNode>, fresh0: Elm, s: State)
    requires Inv(old0, new0, fresh0, s) && OldRendered(old0, fresh0) && s.p < s.q && s.h < s.z
    requires s.slots[s.q - 1].Some? && SameVnode(s.slots[s.q - 1].value, s.nodes[s.z - 1])
    ensures Inv(old0, new0, fresh0, Reuse(s, s.q - 1, s.z - 1).(q := s.q - 1, z := s.z - 1))
  {
    hide SameVnode, Bookkeeping, Consumed, Finished, Tidy;
    var e := SlotElm(s, s.q - 1);
    NodesElm(old0, new0, fresh0, s, s.q - 1);
    var s' := Reuse(s, s.q - 1, s.z - 1).(q := s.q - 1, z := s.z - 1);
    SuffixGrows(s.nodes, s.h, s.z, e);
    LiveSplit(s.slots, s.p, s.q - 1, s.q);
    LiveOne(s.slots, s.q - 1);
    ReuseKeeps(old0, new0, fresh0, s, s.q - 1, s.z - 1, s');
    assert s'.children == Elms(s'.nodes[..s.h]) + Live(s.slots, s.p, s'.q) + Elms(s'.nodes[s'.z..]);
  }

  /** The first and last elements of a window with live ends. */
  lemma WindowEnds(s: State)
    requires s.p < s.q <= |s.slots| && s.h <= s.z <= |s.nodes| && s.slots[s.p].Some? && s.slots[s.q - 1].Some?
    ensures Live(s.slots, s.p, s.q) == [SlotElm(s, s.p)] + Live(s.slots, s.p + 1, s.q)
    ensures Live(s.slots, s.p, s.q) == Live(s.slots, s.p, s.q - 1) + [SlotElm(s, s.q - 1)]
  {
    LiveSplit(s.slots, s.p, s.q - 1, s.q);
    LiveOne(s.slots, s.q - 1);
  }

  /** The old head moves behind the window to become the new tail. */
  function HeadToTail(s: State): State
    requires s.p < s.q <= |s.slots| && s.h < s.z <= |s.nodes| && s.slots[s.p].Some?
  {
    Reuse(s, s.p, s.z - 1).(p := s.p + 1, z := s.z - 1,
      children := InsertBefore(s.children, SlotElm(s, s.p), NextSibling(s.children, SlotElm(s, s.q - 1))))
  }

  lemma HeadTail(old0: seq<VNode>, new0: seq<VNode>, fresh0: Elm, s: State)
    requires Inv(old0, new0, fresh0, s) && OldRendered(old0, fresh0) && s.p + 1 < s.q && s.h < s.z
    requires s.slots[s.p].Some? && s.slots[s.q - 1].Some? && SameVnode(s.slots[s.p].value, s.nodes[s.z - 1])
    ensures Inv(old0, new0, fresh0, HeadToTail(s))
  {
    hide SameVnode, InsertBefore, NextSibling, Bookkeeping, Consumed, Finished, Tidy, Live;
    var e, s' := SlotElm(s, s.p), HeadToTail(s);
    var a, w, c := Elms(s.nodes[..s.h]), Live(s.slots, s.p + 1, s.q), Elms(s.nodes[s.z..]);
    NodesElm(old0, new0, fresh0, s, s.p);
    WindowEnds(s);
    LiveLast(s.slots, s.p + 1, s.q);
    MoveBehind(s.children, a, e, w, c, s.nextElm);
    SuffixGrows(s.nodes, s.h, s.z, e);
    ReuseKeeps(old0, new0, fresh0, s, s.p, s.z - 1, s');
  }

  /** The old tail moves in front of the window to become the new head. */
  function TailToHead(s: State): State
    requires s.p < s.q <= |s.slots| && s.h < s.z <= |s.nodes| && s.slots[s.q - 1].Some?
  {
    Reuse(s, s.q - 1, s.h).(q := s.q - 1, h := s.h + 1,
      children := InsertBefore(s.children, SlotElm(s, s.q - 1), Some(SlotElm(s, s.p))))
  }

  lemma TailHead(old0: seq<VNode>, new0: seq<VNode>, fresh0: Elm, s: State)
    requires Inv(old0, new0, fresh0, s) && OldRendered(old0, fresh0) && s.p + 1 < s.q && s.h < s.z
    requires s.slots[s.p].Some? && s.slots[s.q - 1].Some? && SameVnode(s.slots[s.q - 1].value, s.nodes[s.h])
    ensures Inv(old0, new0, fresh0, TailToHead(s))
  {
    hide SameVnode, InsertBefore, Bookkeeping, Consumed, Finished, Tidy;
    var e, s' := SlotElm(s, s.q - 1), TailToHead(s);
    var a, w, c := Elms(s.nodes[..s.h]), Live(s.slots, s.p, s.q - 1), Elms(s.nodes[s.z..]);
    NodesElm(old0, new0, fresh0, s, s.q - 1);
    WindowEnds(s);
    assert w == [SlotElm(s, s.p)] + Live(s.slots, s.p + 1, s.q - 1);
    assert w + [e] == w + ([e] + []) && w + [] == w;
    MoveAhead(s.children, a, w, e, [], c, s.nextElm);
    PrefixGrows(s.nodes, s.h, s.z, e);
    ReuseKeeps(old0, new0, fresh0, s, s.q - 1, s.h, s');
  }

  /** An entry inside the window is cleared and its element moves in front of the window. */
  function InnerToHead(s: State, i: nat): State
    requires s.p <= i < s.q <= |s.slots| && s.h < s.z <= |s.nodes| && s.slots[i].Some?
  {
    Reuse(s, i, s.h).(slots := s.slots[i := None], h := s.h + 1,
      children := InsertBefore(s.children, SlotElm(s, i), Some(SlotElm(s, s.p))))
  }

  lemma InnerHead(old0: seq<VNode>, new0: seq<VNode>, fresh0: Elm, s: State, i: nat)
    requires Inv(old0, new0, fresh0, s) && OldRendered(old0, fresh0) && s.p < i < s.q && s.h < s.z
    requires s.slots[s.p].Some? && s.slots[i].Some? && SameVnode(s.slots[i].value, s.nodes[s.h])
    ensures Inv(old0, new0, fresh0, InnerToHead(s, i))
  {
    hide SameVnode, InsertBefore, Bookkeeping, Consumed, Finished, Tidy;
    var e, s' := SlotElm(s, i), InnerToHead(s, i);
    var a, w, u, c := Elms(s.nodes[..s.h]), Live(s.slots, s.p, i), Live(s.slots, i + 1, s.q), Elms(s.nodes[s.z..]);
    NodesElm(old0, new0, fresh0, s, i);
    LiveCleared(s.slots, s.p, i, s.q);
    assert w == [SlotElm(s, s.p)] + Live(s.slots, s.p + 1, i);
    MoveAhead(s.children, a, w, e, u, c, s.nextElm);
    PrefixGrows(s.nodes, s.h, s.z, e);
    ReuseKeeps(old0, new0, fresh0, s, i, s.h, s');
  }

  /** A fresh element for new node h goes in front of ref. */
  function CreateAt(s: State, ref: Option<Elm>): State
    requires s.h < s.z <= |s.nodes|
  {
    s.(nodes := s.nodes[s.h := s.nodes[s.h].(elm := Some(s.nextElm))], nextElm := s.nextElm + 1, h := s.h + 1,
       children := InsertBefore(s.children, s.nextElm, ref))
  }

  lemma CreateHead(old0: seq<VNode>, new0: seq<VNode>, fresh0: Elm, s: State)
    requires Inv(old0, new0, fresh0, s) && s.h < s.z
    ensures Inv(old0, new0, fresh0, CreateAt(s, Head(Live(s.slots, s.p, s.q) + Elms(s.nodes[s.z..]))))
  {
    hide InsertBefore, Bookkeeping, Consumed, Finished, SameVnode, Tidy;
    var a, b := Elms(s.nodes[..s.h]), Live(s.slots, s.p, s.q) + Elms(s.nodes[s.z..]);
    var x, s' := s.nextElm, CreateAt(s, Head(b));
    assert s.children == a + b;
    InsertFresh(x, a, b);
    PrefixGrows(s.nodes, s.h, s.z, x);
    assert a + [x] + b == (a + [x]) + Live(s.slots, s.p, s.q) + Elms(s.nodes[s.z..]);
    CreateBookkeeping(old0, new0, fresh0, s, s');
  }

  lemma CreateBookkeeping(old0: seq<VNode>, new0: seq<VNode>, fresh0: Elm, s: State, s': State)
    requires Shape(old0, new0, s) && Bookkeeping(old0, new0, fresh0, s) && s.h < s.z && fresh0 <= s.nextElm
    requires s' == s.(nodes := s'.nodes, nextElm := s'.nextElm, h := s.h + 1, children := s'.children)
    requires s'.nodes == s.nodes[s.h := s.nodes[s.h].(elm := Some(s.nextElm))]
    ensures Shape(old0, new0, s') && Bookkeeping(old0, new0, fresh0, s')
  {
    hide SameVnode, Consumed, Finished;
    CreateFinishes(s, s');
  }

  lemma CreateFinishes(s: State, s': State)
    requires s.h < s.z <= |s.nodes| == |s'.nodes| && s'.h == s.h + 1 && s'.z == s.z
    requires s'.slots == s.slots && s'.p == s.p && s'.q == s.q
    ensures forall k: nat :: Consumed(s', k) <==> Consumed(s, k)
    ensures !Finished(s, s.h)
    ensures forall k: nat :: Finished(s', k) <==> Finished(s, k) || k == s.h
  {
  }

  // ---- the key table ----

  const PROTO: string := "__proto__"

  /** Every keyed entry of [lo, hi) is found under its name, the last one if names repeat. */
  ghost predicate TableOk(old0: seq<VNode>, table: map<string, nat>, lo: nat, hi: nat)
    requires lo <= hi <= |old0|
  {
    && (forall n :: n in table ==> lo <= table[n] < hi && old0[table[n]].key.Named? && old0[table[n]].key.name == n)
    && (forall i :: lo <= i < hi && old0[i].key.Named? && old0[i].key.name != PROTO ==>
      old0[i].key.name in table && i <= table[old0[i].key.name])
    && PROTO !in table
  }

  /** `createKeyToOldIdx`; assigning a number to `__proto__` has no effect. */
  method CreateKeyToOldIdx(oldCh: array<Option<VNode>>, lo: nat, hi: nat, ghost old0: seq<VNode>)
    returns (table: map<string, nat>)
    requires lo <= hi <= oldCh.Length == |old0|
    requires forall i :: lo <= i < hi ==> oldCh[i] == Some(old0[i])
    ensures TableOk(old0, table, lo, hi)
  {
    table := map[];
    var r := lo;
    while r < hi
      invariant lo <= r <= hi
      invariant TableOk(old0, table, lo, r)
    {
      var key := oldCh[r].value.key;
      if key.Named? && key.name != PROTO {
        table := table[key.name := r];
      }
      r := r + 1;
    }
  }

  /** `findIdxInOld`: the first live entry of [lo, hi) that the new node, compared as the first of the two, matches. */
  method FindIdxInOld(node: VNode, oldCh: array<Option<VNode>>, lo: nat, hi: nat) returns (r: Option<nat>)
    requires lo <= hi <= oldCh.Length
    ensures match r
      case Some(i) => lo <= i < hi && oldCh[i].Some? && SameVnode(node, oldCh[i].value)
                      && forall k :: lo <= k < i && oldCh[k].Some? ==> !SameVnode(node, oldCh[k].value)
      case None => forall i :: lo <= i < hi && oldCh[i].Some? ==> !SameVnode(node, oldCh[i].value)
  {
    hide SameVnode;
    var s := lo;
    while s < hi
      invariant lo <= s <= hi
      invariant forall i :: lo <= i < s && oldCh[i].Some? ==> !SameVnode(node, oldCh[i].value)
    {
      if oldCh[s].Some? && SameVnode(node, oldCh[s].value) {
        return Some(s);
      }
      s := s + 1;
    }
    return None;
  }

  lemma SameKey(t: VNode, e: VNode)
    requires SameVnode(t, e)
    ensures t.key == e.key
  {
  }

  /** With unique keys, an old node that shares its name with an unfinished new node is still there. */
  lemma NamedIsLive(old0: seq<VNode>, new0: seq<VNode>, s: State, i: nat, j: nat)
    requires |s.slots| == |old0| && |s.nodes| == |new0| && TakenOk(s) && SourceOk(old0, new0, s)
    requires DistinctKeys(new0) && i < |old0| && j < |new0| && !Finished(s, j)
    requires old0[i].key.Named? && new0[j].key.Named? && old0[i].key.name == new0[j].key.name
    ensures !Consumed(s, i)
  {
    if Consumed(s, i) {
      SameKey(old0[i], new0[s.taken[i]]);
    }
  }

  /** A finished keyed new node that matches an old node was rendered with its element. */
  ghost predicate KeyedOk(old0: seq<VNode>, new0: seq<VNode>, s: State)
    requires |s.nodes| == |new0|
  {
    forall i: nat, j: nat ::
      i < |old0| && j < |new0| && Finished(s, j) && new0[j].key.Named? && SameVnode(old0[i], new0[j]) ==>
        j in s.source && s.source[j] == i
  }

  lemma KeyedReuse(old0: seq<VNode>, new0: seq<VNode>, s: State, i: nat, j: nat, s': State)
    requires |s.nodes| == |s'.nodes| == |new0| && DistinctKeys(old0) && KeyedOk(old0, new0, s)
    requires i < |old0| && j < |new0| && SameVnode(old0[i], new0[j]) && s'.source == s.source[j := i]
    requires forall k: nat :: Finished(s', k) <==> Finished(s, k) || k == j
    ensures KeyedOk(old0, new0, s')
  {
    hide SameVnode, Finished;
    forall i': nat, k: nat | i' < |old0| && k < |new0| && Finished(s', k) && new0[k].key.Named?
      && SameVnode(old0[i'], new0[k])
      ensures k in s'.source && s'.source[k] == i'
    {
      SameKey(old0[i'], new0[k]);
      if k == j {
        SameKey(old0[i], new0[j]);
      }
    }
  }

  lemma KeyedCreate(old0: seq<VNode>, new0: seq<VNode>, s: State, j: nat, s': State)
    requires |s.nodes| == |s'.nodes| == |new0| && KeyedOk(old0, new0, s) && s'.source == s.source && j < |new0|
    requires forall k: nat :: Finished(s', k) <==> Finished(s, k) || k == j
    requires new0[j].key.Named? ==> forall i :: 0 <= i < |old0| ==> !SameVnode(old0[i], new0[j])
    ensures KeyedOk(old0, new0, s')
  {
    hide SameVnode, Finished;
  }

  /** If the table has no matching entry for a keyed new node, no old node matches it. */
  lemma NoMatchInTable(old0: seq<VNode>, new0: seq<VNode>, s: State, table: map<string, nat>, lo: nat, hi: nat)
    requires |s.slots| == |old0| && |s.nodes| == |new0| && TakenOk(s) && SourceOk(old0, new0, s)
    requires DistinctKeys(old0) && DistinctKeys(new0) && s.h < s.z <= |new0|
    requires lo <= s.p && s.q <= hi <= |old0| && lo <= hi && TableOk(old0, table, lo, hi)
    requires new0[s.h].key.Named? && new0[s.h].key.name != PROTO
    requires new0[s.h].key.name in table ==> !SameVnode(old0[table[new0[s.h].key.name]], new0[s.h])
    ensures forall i :: 0 <= i < |old0| ==> !SameVnode(old0[i], new0[s.h])
  {
    hide SameVnode;
    forall i | 0 <= i < |old0|
      ensures !SameVnode(old0[i], new0[s.h])
    {
      if SameVnode(old0[i], new0[s.h]) {
        SameKey(old0[i], new0[s.h]);
        assert !Finished(s, s.h);
        NamedIsLive(old0, new0, s, i, s.h);
      }
    }
  }

  /** The same when the old window is empty. */
  lemma NoMatchInEmptyWindow(old0: seq<VNode>, new0: seq<VNode>, s: State)
    requires |s.slots| == |old0| && |s.nodes| == |new0| && TakenOk(s) && SourceOk(old0, new0, s)
    requires DistinctKeys(new0) && s.h < s.z <= |new0| && s.p >= s.q && new0[s.h].key.Named?
    ensures forall i :: 0 <= i < |old0| ==> !SameVnode(old0[i], new0[s.h])
  {
    hide SameVnode;
    forall i | 0 <= i < |old0|
      ensures !SameVnode(old0[i], new0[s.h])
    {
      if SameVnode(old0[i], new0[s.h]) {
        SameKey(old0[i], new0[s.h]);
        assert !Finished(s, s.h);
        NamedIsLive(old0, new0, s, i, s.h);
      }
    }
  }

  // ---- whole iterations ----

  /** What the caller provides: rendered old nodes and unique keys on both sides. */
  ghost predicate Inputs(old0: seq<VNode>, new0: seq<VNode>, fresh0: Elm) {
    OldRendered(old0, fresh0) && DistinctKeys(old0) && DistinctKeys(new0)
  }

  ghost predicate Good(old0: seq<VNode>, new0: seq<VNode>, fresh0: Elm, s: State) {
    Inv(old0, new0, fresh0, s) && KeyedOk(old0, new0, s)
  }

  lemma GoodReuse(old0: seq<VNode>, new0: seq<VNode>, fresh0: Elm, s: State, i: nat, j: nat, s': State)
    requires Inputs(old0, new0, fresh0) && Good(old0, new0, fresh0, s) && Inv(old0, new0, fresh0, s')
    requires Leaves(s, s', i) && Finishes(s, s', j) && SameVnode(s.slots[i].value, s.nodes[j])
    requires s'.source == s.source[j := i]
    ensures Good(old0, new0, fresh0, s') && forall k: nat :: Finished(s', k) ==> Finished(s, k) || k in s'.source
  {
    hide KeyedOk, Bookkeeping, Layout, Finished, DistinctKeys;
    FinishesFinished(s, s', j);
    SameForOriginal(s.slots[i].value, s.nodes[j], new0[j]);
    KeyedReuse(old0, new0, s, i, j, s');
  }

  lemma StepHeadHead(old0: seq<VNode>, new0: seq<VNode>, fresh0: Elm, s: State) returns (s': State)
    requires Inputs(old0, new0, fresh0) && Good(old0, new0, fresh0, s) && s.p < s.q && s.h < s.z
    requires s.slots[s.p].Some? && SameVnode(s.slots[s.p].value, s.nodes[s.h])
    ensures s' == Reuse(s, s.p, s.h).(p := s.p + 1, h := s.h + 1) && Good(old0, new0, fresh0, s')
    ensures forall k: nat :: Finished(s', k) ==> Finished(s, k) || k in s'.source
    ensures s'.source == Recorded(s.source, PlaceOf(s), PlaceOf(s'))
  {
    hide Layout, Bookkeeping, Tidy, KeyedOk, SameVnode, Finished;
    s' := Reuse(s, s.p, s.h).(p := s.p + 1, h := s.h + 1);
    HeadHead(old0, new0, fresh0, s);
    GoodReuse(old0, new0, fresh0, s, s.p, s.h, s');
  }

  lemma StepTailTail(old0: seq<VNode>, new0: seq<VNode>, fresh0: Elm, s: State) returns (s': State)
    requires Inputs(old0, new0, fresh0) && Good(old0, new0, fresh0, s) && s.p < s.q && s.h < s.z
    requires s.slots[s.q - 1].Some? && SameVnode(s.slots[s.q - 1].value, s.nodes[s.z - 1])
    ensures s' == Reuse(s, s.q - 1, s.z - 1).(q := s.q - 1, z := s.z - 1) && Good(old0, new0, fresh0, s')
    ensures forall k: nat :: Finished(s', k) ==> Finished(s, k) || k in s'.source
    ensures s'.source == Recorded(s.source, PlaceOf(s), PlaceOf(s'))
  {
    hide Layout, Bookkeeping, Tidy, KeyedOk, SameVnode, Finished;
    s' := Reuse(s, s.q - 1, s.z - 1).(q := s.q - 1, z := s.z - 1);
    TailTail(old0, new0, fresh0, s);
    GoodReuse(old0, new0, fresh0, s, s.q - 1, s.z - 1, s');
  }

  lemma StepHeadTail(old0: seq<VNode>, new0: seq<VNode>, fresh0: Elm, s: State) returns (s': State)
    requires Inputs(old0, new0, fresh0) && Good(old0, new0, fresh0, s) && s.p + 1 < s.q && s.h < s.z
    requires s.slots[s.p].Some? && s.slots[s.q - 1].Some? && SameVnode(s.slots[s.p].value, s.nodes[s.z - 1])
    ensures s' == HeadToTail(s) && Good(old0, new0, fresh0, s')
    ensures forall k: nat :: Finished(s', k) ==> Finished(s, k) || k in s'.source
    ensures s'.source == Recorded(s.source, PlaceOf(s), PlaceOf(s'))
  {
    hide Layout, Bookkeeping, Tidy, KeyedOk, SameVnode, InsertBefore, NextSibling, Finished;
    s' := HeadToTail(s);
    HeadTail(old0, new0, fresh0, s);
    GoodReuse(old0, new0, fresh0, s, s.p, s.z - 1, s');
  }

  lemma StepTailHead(old0: seq<VNode>, new0: seq<VNode>, fresh0: Elm, s: State) returns (s': State)
    requires Inputs(old0, new0, fresh0) && Good(old0, new0, fresh0, s) && s.p + 1 < s.q && s.h < s.z
    requires s.slots[s.p].Some? && s.slots[s.q - 1].Some? && SameVnode(s.slots[s.q - 1].value, s.nodes[s.h])
    ensures s' == TailToHead(s) && Good(old0, new0, fresh0, s')
    ensures forall k: nat :: Finished(s', k) ==> Finished(s, k) || k in s'.source
    ensures s'.source == Recorded(s.source, PlaceOf(s), PlaceOf(s'))
  {
    hide Layout, Bookkeeping, Tidy, KeyedOk, SameVnode, InsertBefore, Finished;
    s' := TailToHead(s);
    TailHead(old0, new0, fresh0, s);
    GoodReuse(old0, new0, fresh0, s, s.q - 1, s.h, s');
  }

  lemma StepInner(old0: seq<VNode>, new0: seq<VNode>, fresh0: Elm, s: State, i: nat) returns (s': State)
    requires Inputs(old0, new0, fresh0) && Good(old0, new0, fresh0, s) && s.p < i < s.q && s.h < s.z
    requires s.slots[s.p].Some? && s.slots[i].Some? && SameVnode(s.slots[i].value, s.nodes[s.h])
    ensures s' == InnerToHead(s, i) && Good(old0, new0, fresh0, s')
  {
    hide Layout, Bookkeeping, Tidy, KeyedOk, SameVnode, InsertBefore;
    s' := InnerToHead(s, i);
    InnerHead(old0, new0, fresh0, s, i);
    GoodReuse(old0, new0, fresh0, s, i, s.h, s');
  }

  lemma StepSkip(old0: seq<VNode>, new0: seq<VNode>, fresh0: Elm, s: State, left: bool) returns (s': State)
    requires Good(old0, new0, fresh0, s) && s.p < s.q
    requires s.slots[if left then s.p else s.q - 1].None?
    ensures s' == (if left then DropHead(s) else DropTail(s)) && Good(old0, new0, fresh0, s')
  {
    hide Layout, Bookkeeping, Tidy, SameVnode, Finished;
    s' := if left then DropHead(s) else DropTail(s);
    if left {
      SkipLeft(old0, new0, fresh0, s);
    } else {
      SkipRight(old0, new0, fresh0, s);
    }
    DropConsumed(s, s');
  }

  /** Creating is right when no old node matches a keyed new node. */
  lemma StepCreate(old0: seq<VNode>, new0: seq<VNode>, fresh0: Elm, s: State, ref: Option<Elm>) returns (s': State)
    requires Good(old0, new0, fresh0, s) && s.h < s.z
    requires new0[s.h].key.Named? ==> forall i :: 0 <= i < |old0| ==> !SameVnode(old0[i], new0[s.h])
    requires ref == Head(Live(s.slots, s.p, s.q) + Elms(s.nodes[s.z..]))
    ensures s' == CreateAt(s, ref) && Good(old0, new0, fresh0, s')
  {
    hide KeyedOk, SameVnode, Finished, InsertBefore, Bookkeeping, Layout;
    s' := CreateAt(s, ref);
    CreateHead(old0, new0, fresh0, s);
    CreateFinishes(s, s');
    KeyedCreate(old0, new0, s, s.h, s');
  }

  // ---- the walk over both lists ----

  /** Where the diff stands: the old entries that are left, and both windows. */
  datatype Place = Place(slots: seq<Option<VNode>>, p: nat, q: nat, h: nat, z: nat)

  function PlaceOf(s: State): Place { Place(s.slots, s.p, s.q, s.h, s.z) }

  predicate Open(w: Place, nodes: seq<VNode>) { w.p < w.q <= |w.slots| && w.h < w.z <= |nodes| }

  /** Where a cleared end or one of the four comparisons of ends leads, if any does. */
  function EndMove(nodes: seq<VNode>, w: Place): Option<Place>
    requires Open(w, nodes)
  {
    var a, b := w.slots[w.p], w.slots[w.q - 1];
    if a.None? then Some(w.(p := w.p + 1))
    else if b.None? then Some(w.(q := w.q - 1))
    else if SameVnode(a.value, nodes[w.h]) then Some(w.(p := w.p + 1, h := w.h + 1))
    else if SameVnode(b.value, nodes[w.z - 1]) then Some(w.(q := w.q - 1, z := w.z - 1))
    else if SameVnode(a.value, nodes[w.z - 1]) then Some(w.(p := w.p + 1, z := w.z - 1))
    else if SameVnode(b.value, nodes[w.h]) then Some(w.(q := w.q - 1, h := w.h + 1))
    else None
  }

  /**
   Whether the search for an old node to render v with stops at t.  A keyed node is looked up by
   its name; any other is compared with t, the new node being the first of the two.
   */
  predicate Candidate(t: VNode, v: VNode) {
    if v.key.Named? then t.key.Named? && t.key.name == v.key.name else SameVnode(v, t)
  }

  /** The first live entry of [lo, hi) the search stops at. */
  function FirstCandidate(slots: seq<Option<VNode>>, lo: nat, hi: nat, v: VNode): (r: Option<nat>)
    requires hi <= |slots|
    ensures r.Some? ==> lo <= r.value < hi && slots[r.value].Some?
    decreases hi - lo
  {
    if lo >= hi then None
    else if slots[lo].Some? && Candidate(slots[lo].value, v) then Some(lo)
    else FirstCandidate(slots, lo + 1, hi, v)
  }

  lemma {:induction false} FirstCandidateIs(slots: seq<Option<VNode>>, lo: nat, hi: nat, v: VNode, i: nat)
    requires lo <= i < hi <= |slots| && slots[i].Some? && Candidate(slots[i].value, v)
    requires forall k :: lo <= k < i && slots[k].Some? ==> !Candidate(slots[k].value, v)
    ensures FirstCandidate(slots, lo, hi, v) == Some(i)
    decreases i - lo
  {
    hide Candidate;
    if lo < i {
      FirstCandidateIs(slots, lo + 1, hi, v, i);
    }
  }

  lemma {:induction false} FirstCandidateNone(slots: seq<Option<VNode>>, lo: nat, hi: nat, v: VNode)
    requires hi <= |slots| && forall k :: lo <= k < hi && slots[k].Some? ==> !Candidate(slots[k].value, v)
    ensures FirstCandidate(slots, lo, hi, v) == None
    decreases hi - lo
  {
    hide Candidate;
    if lo < hi {
      FirstCandidateNone(slots, lo + 1, hi, v);
    }
  }

  /**
   The entry of [lo, hi) that v is rendered with, if any: the one the search stops at, provided
   that it also matches as the first of the two.  Only keys are searched up to the last entry.
   */
  function Reused(slots: seq<Option<VNode>>, lo: nat, hi: nat, v: VNode): (r: Option<nat>)
    requires lo < hi <= |slots|
    ensures r.Some? ==> lo <= r.value < hi && slots[r.value].Some? && SameVnode(slots[r.value].value, v)
  {
    var c := FirstCandidate(slots, lo, if v.key.Named? then hi else hi - 1, v);
    if c.Some? && SameVnode(slots[c.value].value, v) then c else None
  }

  /** Where the search for the first new node leads: a reused entry is cleared, and the node is finished. */
  function SearchMove(nodes: seq<VNode>, w: Place): Place
    requires Open(w, nodes)
  {
    var i := Reused(w.slots, w.p, w.q, nodes[w.h]);
    w.(slots := if i.Some? then w.slots[i.value := None] else w.slots, h := w.h + 1)
  }

  /** A name every object inherits and no old node has: looking it up yields an inherited property. */
  ghost predicate BadName(old0: seq<VNode>, name: string) {
    name in INHERITED && forall i :: 0 <= i < |old0| && old0[i].key.Named? ==> old0[i].key.name != name
  }

  ghost predicate Bad(old0: seq<VNode>, v: VNode) {
    v.key.Named? && BadName(old0, v.key.name)
  }

  /** Looking the key of v up in the table yields an inherited property. */
  ghost predicate Fatal(old0: seq<VNode>, v: VNode) {
    v.key.Named? && (v.key.name == PROTO || BadName(old0, v.key.name))
  }

  /** Whether the walk from w on looks up a fatal key. */
  ghost predicate Meets(old0: seq<VNode>, nodes: seq<VNode>, w: Place)
    requires w.q <= |w.slots| && w.z <= |nodes|
    decreases w.q - w.p, w.z - w.h
  {
    Open(w, nodes) &&
    (match EndMove(nodes, w)
     case Some(next) => Meets(old0, nodes, next)
     case None => Fatal(old0, nodes[w.h]) || Meets(old0, nodes, SearchMove(nodes, w)))
  }

  /** The new node that a comparison of ends finishes, if any, recorded with the old node it takes. */
  function Recorded(source: map<nat, nat>, w: Place, next: Place): map<nat, nat>
    requires w.q > 0 && w.z > 0
  {
    if next.h == w.h && next.z == w.z then source
    else source[(if next.h > w.h then w.h else w.z - 1) := (if next.p > w.p then w.p else w.q - 1)]
  }

  /** Which old node each new node takes on the walk from w on. */
  function Takes(nodes: seq<VNode>, w: Place): map<nat, nat>
    requires w.q <= |w.slots| && w.z <= |nodes|
    decreases w.q - w.p, w.z - w.h
  {
    if !Open(w, nodes) then map[]
    else match EndMove(nodes, w)
      case Some(next) => Recorded(Takes(nodes, next), w, next)
      case None =>
        var rest := Takes(nodes, SearchMove(nodes, w));
        var i := Reused(w.slots, w.p, w.q, nodes[w.h]);
        if i.Some? then rest[w.h := i.value] else rest
  }

  lemma {:induction false} TakesKeys(nodes: seq<VNode>, w: Place)
    requires w.q <= |w.slots| && w.z <= |nodes|
    ensures forall j :: j in Takes(nodes, w) ==> w.h <= j < w.z
    decreases w.q - w.p, w.z - w.h
  {
    hide SameVnode, Reused;
    if Open(w, nodes) {
      match EndMove(nodes, w) {
        case Some(next) => TakesKeys(nodes, next);
        case None => TakesKeys(nodes, SearchMove(nodes, w));
      }
    }
  }

  /** What is recorded and what the walk still takes are together the same before and after a step. */
  lemma TakesStep(new0: seq<VNode>, nodes: seq<VNode>, w: Place, source: map<nat, nat>, after: map<nat, nat>)
    requires Open(w, nodes) && |nodes| == |new0| && forall j :: 0 <= j < |new0| ==>
      nodes[j].(elm := new0[j].elm) == new0[j]
    requires (match EndMove(nodes, w)
              case Some(next) => after == Recorded(source, w, next)
              case None => after == SearchRecorded(source, nodes, w))
    ensures (match EndMove(nodes, w)
             case Some(next) => next.q <= |next.slots| && next.z <= |new0|
               && source + Takes(new0, w) == after + Takes(new0, next)
             case None => source + Takes(new0, w) == after + Takes(new0, SearchMove(nodes, w)))
  {
    hide SameVnode, Reused, Takes, EndMove, Recorded, SearchRecorded, SearchMove;
    EndSame(new0, nodes, w);
    if EndMove(nodes, w).Some? {
      TakesEnd(new0, w, source);
    } else {
      SearchSame(new0, nodes, w);
      SearchRecordedSame(new0, nodes, w, source);
      TakesSearch(new0, w, source);
    }
  }

  lemma TakesEnd(new0: seq<VNode>, w: Place, source: map<nat, nat>)
    requires Open(w, new0) && EndMove(new0, w).Some?
    ensures (var next := EndMove(new0, w).value;
      next.q <= |next.slots| && next.z <= |new0|
      && source + Takes(new0, w) == Recorded(source, w, next) + Takes(new0, next))
  {
    hide SameVnode, Reused;
    TakesKeys(new0, EndMove(new0, w).value);
  }

  lemma TakesSearch(new0: seq<VNode>, w: Place, source: map<nat, nat>)
    requires Open(w, new0) && EndMove(new0, w).None?
    ensures source + Takes(new0, w) == SearchRecorded(source, new0, w) + Takes(new0, SearchMove(new0, w))
    ensures (var i := Reused(w.slots, w.p, w.q, new0[w.h]);
      if i.Some? then w.h in Takes(new0, w) && Takes(new0, w)[w.h] == i.value else w.h !in Takes(new0, w))
  {
    hide SameVnode, Reused, EndMove;
    TakesKeys(new0, SearchMove(new0, w));
  }

  lemma SearchRecordedSame(new0: seq<VNode>, nodes: seq<VNode>, w: Place, source: map<nat, nat>)
    requires Open(w, nodes) && |nodes| == |new0| && nodes[w.h].(elm := new0[w.h].elm) == new0[w.h]
    ensures SearchRecorded(source, nodes, w) == SearchRecorded(source, new0, w)
  {
    ReusedSame(new0, nodes, w);
    hide Reused;
  }

  /** The same for the node that the search finishes. */
  function SearchRecorded(source: map<nat, nat>, nodes: seq<VNode>, w: Place): map<nat, nat>
    requires Open(w, nodes)
  {
    var i := Reused(w.slots, w.p, w.q, nodes[w.h]);
    if i.Some? then source[w.h := i.value] else source
  }

  // ---- the same without holes and windows ----

  /** Position of the first old node the search for v stops at, or the length. */
  function Found(old0: seq<VNode>, v: VNode, left: seq<nat>): (k: nat)
    requires forall i :: 0 <= i < |left| ==> left[i] < |old0|
    ensures k <= |left|
  {
    if left == [] || Candidate(old0[left[0]], v) then 0 else 1 + Found(old0, v, left[1..])
  }

  /**
     The reference: which old node each of the new nodes h to z takes, if `left` lists the old nodes
     that are still there, in order.  Heads are compared first, then tails, then the old head with
     the new tail and the old tail with the new head; then the new head is looked up or searched for.
   */
  function Matching(old0: seq<VNode>, new0: seq<VNode>, left: seq<nat>, h: nat, z: nat): map<nat, nat>
    requires z <= |new0| && forall i :: 0 <= i < |left| ==> left[i] < |old0|
    decreases z - h
  {
    if left == [] || h >= z then map[]
    else
      var n := |left| - 1;
      var a, b := left[0], left[n];
      if SameVnode(old0[a], new0[h]) then Matching(old0, new0, left[1..], h + 1, z)[h := a]
      else if SameVnode(old0[b], new0[z - 1]) then Matching(old0, new0, left[..n], h, z - 1)[z - 1 := b]
      else if SameVnode(old0[a], new0[z - 1]) then Matching(old0, new0, left[1..], h, z - 1)[z - 1 := a]
      else if SameVnode(old0[b], new0[h]) then Matching(old0, new0, left[..n], h + 1, z)[h := b]
      else
        var searched := if new0[h].key.Named? then left else left[..n];
        var k := Found(old0, new0[h], searched);
        if k < |searched| && SameVnode(old0[left[k]], new0[h])
        then Matching(old0, new0, left[..k] + left[k + 1..], h + 1, z)[h := left[k]]
        else Matching(old0, new0, left, h + 1, z)
  }

  /** The old nodes of [lo, hi) that are still there. */
  function LeftOf(slots: seq<Option<VNode>>, lo: nat, hi: nat): (r: seq<nat>)
    requires lo <= hi <= |slots|
    ensures forall k :: 0 <= k < |r| ==> lo <= r[k] < hi
    decreases hi - lo
  {
    if lo == hi then []
    else (if slots[lo].Some? then [lo] else []) + LeftOf(slots, lo + 1, hi)
  }

  lemma {:induction false} LeftSplit(slots: seq<Option<VNode>>, lo: nat, mid: nat, hi: nat)
    requires lo <= mid <= hi <= |slots|
    ensures LeftOf(slots, lo, hi) == LeftOf(slots, lo, mid) + LeftOf(slots, mid, hi)
    decreases mid - lo
  {
    if lo < mid {
      LeftSplit(slots, lo + 1, mid, hi);
    }
  }

  lemma {:induction false} LeftSame(s: seq<Option<VNode>>, t: seq<Option<VNode>>, lo: nat, hi: nat)
    requires lo <= hi <= |s| == |t| && forall i :: lo <= i < hi ==> s[i] == t[i]
    ensures LeftOf(s, lo, hi) == LeftOf(t, lo, hi)
    decreases hi - lo
  {
    if lo < hi {
      LeftSame(s, t, lo + 1, hi);
    }
  }

  /** The window's last entry is the last of the list. */
  lemma LeftLast(slots: seq<Option<VNode>>, lo: nat, hi: nat)
    requires lo < hi <= |slots|
    ensures LeftOf(slots, lo, hi) == LeftOf(slots, lo, hi - 1) + if slots[hi - 1].Some? then [hi - 1] else []
  {
    LeftSplit(slots, lo, hi - 1, hi);
    assert LeftOf(slots, hi, hi) == [];
    assert LeftOf(slots, hi - 1, hi) == if slots[hi - 1].Some? then [hi - 1] else [];
  }

  /** Clearing an entry takes it out of the list. */
  lemma LeftCleared(slots: seq<Option<VNode>>, lo: nat, i: nat, hi: nat)
    requires lo <= i < hi <= |slots| && slots[i].Some?
    ensures LeftOf(slots, lo, hi) == LeftOf(slots, lo, i) + [i] + LeftOf(slots, i + 1, hi)
    ensures LeftOf(slots[i := None], lo, hi) == LeftOf(slots, lo, i) + LeftOf(slots, i + 1, hi)
  {
    LeftSplit(slots, lo, i, hi);
    LeftSplit(slots[i := None], lo, i, hi);
    LeftSame(slots, slots[i := None], lo, i);
    LeftSame(slots, slots[i := None], i + 1, hi);
  }

  /** Searching the window and searching the list end at the same old node. */
  lemma {:induction false} FoundIs(old0: seq<VNode>, slots: seq<Option<VNode>>, lo: nat, hi: nat, v: VNode)
    requires lo <= hi <= |slots| == |old0| && forall i :: lo <= i < hi ==> slots[i].None? || slots[i] == Some(old0[i])
    ensures (var c, left := FirstCandidate(slots, lo, hi, v), LeftOf(slots, lo, hi);
      var k := Found(old0, v, left);
      if c.Some? then k < |left| && left[k] == c.value && left[..k] == LeftOf(slots, lo, c.value) else k == |left|)
    decreases hi - lo
  {
    hide Candidate, Found, LeftOf;
    LeftFirst(slots, lo, hi);
    if lo == hi {
      FoundNone(old0, v);
    } else {
      FoundIs(old0, slots, lo + 1, hi, v);
      var rest := LeftOf(slots, lo + 1, hi);
      if slots[lo].Some? {
        FoundFirst(old0, v, lo, rest);
        var c := FirstCandidate(slots, lo, hi, v);
        if c.Some? && c.value > lo {
          LeftFirst(slots, lo, c.value);
          var k := Found(old0, v, rest);
          assert ([lo] + rest)[..k + 1] == [lo] + rest[..k];
        } else if c.Some? {
          LeftFirst(slots, lo, lo);
        }
      } else if FirstCandidate(slots, lo, hi, v).Some? {
        LeftFirst(slots, lo, FirstCandidate(slots, lo, hi, v).value);
      }
    }
  }

  lemma LeftFirst(slots: seq<Option<VNode>>, lo: nat, hi: nat)
    requires lo <= hi <= |slots|
    ensures lo == hi ==> LeftOf(slots, lo, hi) == []
    ensures lo < hi && slots[lo].Some? ==> LeftOf(slots, lo, hi) == [lo] + LeftOf(slots, lo + 1, hi)
    ensures lo < hi && slots[lo].None? ==> LeftOf(slots, lo, hi) == LeftOf(slots, lo + 1, hi)
  {
  }

  lemma FoundNone(old0: seq<VNode>, v: VNode)
    ensures Found(old0, v, []) == 0
  {
  }

  lemma FoundFirst(old0: seq<VNode>, v: VNode, x: nat, rest: seq<nat>)
    requires x < |old0| && forall i :: 0 <= i < |rest| ==> rest[i] < |old0|
    ensures Found(old0, v, [x] + rest) == if Candidate(old0[x], v) then 0 else 1 + Found(old0, v, rest)
  {
    hide Candidate;
    assert ([x] + rest)[1..] == rest;
  }

  /** All old nodes, in order. */
  function AllOf(old0: seq<VNode>): (r: seq<nat>)
    ensures |r| == |old0| && forall i :: 0 <= i < |r| ==> r[i] == i
  {
    seq(|old0|, i => i)
  }

  lemma {:induction false} AllLeft(slots: seq<Option<VNode>>, lo: nat)
    requires lo <= |slots| && forall i :: lo <= i < |slots| ==> slots[i].Some?
    ensures |LeftOf(slots, lo, |slots|)| == |slots| - lo
    ensures forall k :: 0 <= k < |slots| - lo ==> LeftOf(slots, lo, |slots|)[k] == lo + k
    decreases |slots| - lo
  {
    if lo < |slots| {
      AllLeft(slots, lo + 1);
    }
  }

  lemma StartIsMatching(old0: seq<VNode>, new0: seq<VNode>, w: Place)
    requires AllLive(old0, w) && w == Place(w.slots, 0, |old0|, 0, |new0|)
    ensures Takes(new0, w) == Matching(old0, new0, AllOf(old0), 0, |new0|)
  {
    hide Takes, Matching;
    AllLeft(w.slots, 0);
    assert LeftOf(w.slots, 0, |old0|) == AllOf(old0);
    TakesIsMatching(old0, new0, w);
  }

  ghost predicate SlotsOf(old0: seq<VNode>, w: Place) {
    |w.slots| == |old0| && forall i :: 0 <= i < |old0| ==> w.slots[i].None? || w.slots[i] == Some(old0[i])
  }

  /** The walk over windows with holes takes what the reference takes. */
  lemma {:induction false} TakesIsMatching(old0: seq<VNode>, new0: seq<VNode>, w: Place)
    requires SlotsOf(old0, w) && w.p <= w.q <= |old0| && w.h <= w.z <= |new0|
    ensures Takes(new0, w) == Matching(old0, new0, LeftOf(w.slots, w.p, w.q), w.h, w.z)
    decreases w.q - w.p, w.z - w.h, 1
  {
    hide SameVnode, Matching, Takes, EndMove, SearchMove, Reused;
    if Open(w, new0) {
      if EndMove(new0, w).Some? {
        EndIsMatching(old0, new0, w);
      } else {
        SearchIsMatching(old0, new0, w);
      }
    } else {
      NothingTaken(old0, new0, w);
    }
  }

  lemma NothingTaken(old0: seq<VNode>, new0: seq<VNode>, w: Place)
    requires w.p <= w.q <= |w.slots| == |old0| && w.h <= w.z <= |new0| && !Open(w, new0)
    ensures Takes(new0, w) == map[] == Matching(old0, new0, LeftOf(w.slots, w.p, w.q), w.h, w.z)
  {
  }

  /** A live first entry is the head of the list, a live last one its tail; cleared ones are not in it. */
  lemma LeftEnds(slots: seq<Option<VNode>>, p: nat, q: nat)
    requires p < q <= |slots|
    ensures (var left := LeftOf(slots, p, q); var n := |left| - 1;
      && (if slots[p].None? then left == LeftOf(slots, p + 1, q)
          else n >= 0 && left[0] == p && left[1..] == LeftOf(slots, p + 1, q))
      && (if slots[q - 1].None? then left == LeftOf(slots, p, q - 1)
          else n >= 0 && left[n] == q - 1 && left[..n] == LeftOf(slots, p, q - 1)))
  {
    LeftLast(slots, p, q);
    if slots[p].None? {
      assert [] + LeftOf(slots, p + 1, q) == LeftOf(slots, p + 1, q);
    }
  }

  lemma EndIsMatching(old0: seq<VNode>, new0: seq<VNode>, w: Place)
    requires SlotsOf(old0, w) && w.q <= |old0| && w.z <= |new0| && Open(w, new0) && EndMove(new0, w).Some?
    ensures Takes(new0, w) == Matching(old0, new0, LeftOf(w.slots, w.p, w.q), w.h, w.z)
    decreases w.q - w.p, w.z - w.h, 0
  {
    hide SameVnode, LeftOf, Matching, Takes, EndMove, Recorded;
    var next := EndMove(new0, w).value;
    TakesEndUnfold(new0, w);
    NextWindow(old0, new0, w);
    TakesIsMatching(old0, new0, next);
    if w.slots[w.p].None? || w.slots[w.q - 1].None? {
      SkipKeepsLeft(new0, w, Takes(new0, next));
    } else {
      CompareMatches(old0, new0, w, Takes(new0, next));
    }
  }

  lemma TakesEndUnfold(new0: seq<VNode>, w: Place)
    requires Open(w, new0) && EndMove(new0, w).Some?
    ensures (var next := EndMove(new0, w).value;
      next.q <= |next.slots| && next.z <= |new0| && Takes(new0, w) == Recorded(Takes(new0, next), w, next))
  {
    hide SameVnode, Reused, SearchMove;
  }

  lemma NextWindow(old0: seq<VNode>, new0: seq<VNode>, w: Place)
    requires SlotsOf(old0, w) && Open(w, new0) && EndMove(new0, w).Some?
    ensures (var next := EndMove(new0, w).value;
      && SlotsOf(old0, next) && next.slots == w.slots && w.p <= next.p <= next.q <= w.q
        && w.h <= next.h <= next.z <= w.z
      && next.q - next.p == w.q - w.p - 1)
  {
    hide SameVnode;
  }

  lemma SkipKeepsLeft(new0: seq<VNode>, w: Place, rest: map<nat, nat>)
    requires Open(w, new0) && EndMove(new0, w).Some? && (w.slots[w.p].None? || w.slots[w.q - 1].None?)
    ensures (var next := EndMove(new0, w).value;
      && next.p <= next.q <= |next.slots| && Recorded(rest, w, next) == rest && next.h == w.h && next.z == w.z
      && LeftOf(next.slots, next.p, next.q) == LeftOf(w.slots, w.p, w.q))
  {
    hide SameVnode, LeftOf;
    LeftEnds(w.slots, w.p, w.q);
  }

  lemma CompareMatches(old0: seq<VNode>, new0: seq<VNode>, w: Place, rest: map<nat, nat>)
    requires SlotsOf(old0, w) && w.q <= |old0| && Open(w, new0) && EndMove(new0, w).Some?
    requires w.slots[w.p].Some? && w.slots[w.q - 1].Some?
    requires (var next := EndMove(new0, w).value;
      && next.p <= next.q <= |next.slots| && next.slots == w.slots && next.z <= |new0| && next.q <= |old0|
      && rest == Matching(old0, new0, LeftOf(w.slots, next.p, next.q), next.h, next.z))
    ensures Recorded(rest, w, EndMove(new0, w).value) == Matching(old0, new0, LeftOf(w.slots, w.p, w.q), w.h, w.z)
  {
    hide SameVnode, LeftOf, Matching;
    LeftEnds(w.slots, w.p, w.q);
    MatchingEnds(old0, new0, LeftOf(w.slots, w.p, w.q), w.h, w.z);
  }

  /** The four comparisons of the reference, by themselves. */
  lemma MatchingEnds(old0: seq<VNode>, new0: seq<VNode>, left: seq<nat>, h: nat, z: nat)
    requires z <= |new0| && (forall i :: 0 <= i < |left| ==> left[i] < |old0|) && left != [] && h < z
    ensures (var n := |left| - 1; var a, b := left[0], left[n];
      && (SameVnode(old0[a], new0[h]) ==>
            Matching(old0, new0, left, h, z) == Matching(old0, new0, left[1..], h + 1, z)[h := a])
      && (!SameVnode(old0[a], new0[h]) && SameVnode(old0[b], new0[z - 1]) ==>
            Matching(old0, new0, left, h, z) == Matching(old0, new0, left[..n], h, z - 1)[z - 1 := b])
      && (!SameVnode(old0[a], new0[h]) && !SameVnode(old0[b], new0[z - 1]) && SameVnode(old0[a], new0[z - 1]) ==>
            Matching(old0, new0, left, h, z) == Matching(old0, new0, left[1..], h, z - 1)[z - 1 := a])
      && (!SameVnode(old0[a], new0[h]) && !SameVnode(old0[b], new0[z - 1]) && !SameVnode(old0[a], new0[z - 1])
          && SameVnode(old0[b], new0[h]) ==>
            Matching(old0, new0, left, h, z) == Matching(old0, new0, left[..n], h + 1, z)[h := b]))
  {
    hide SameVnode, Found;
  }

  lemma MatchingSearch(old0: seq<VNode>, new0: seq<VNode>, left: seq<nat>, h: nat, z: nat)
    requires z <= |new0| && (forall i :: 0 <= i < |left| ==> left[i] < |old0|) && left != [] && h < z
    requires (var a, b := old0[left[0]], old0[left[|left| - 1]];
      && !SameVnode(a, new0[h]) && !SameVnode(b, new0[z - 1]) && !SameVnode(a, new0[z - 1]) && !SameVnode(b, new0[h]))
    ensures (var searched := if new0[h].key.Named? then left else left[..|left| - 1];
      var k := Found(old0, new0[h], searched);
      Matching(old0, new0, left, h, z) ==
        if k < |searched| && SameVnode(old0[left[k]], new0[h])
        then Matching(old0, new0, left[..k] + left[k + 1..], h + 1, z)[h := left[k]]
        else Matching(old0, new0, left, h + 1, z))
  {
    hide SameVnode, Found;
  }

  lemma SearchIsMatching(old0: seq<VNode>, new0: seq<VNode>, w: Place)
    requires SlotsOf(old0, w) && w.q <= |old0| && w.z <= |new0| && Open(w, new0) && EndMove(new0, w).None?
    ensures Takes(new0, w) == Matching(old0, new0, LeftOf(w.slots, w.p, w.q), w.h, w.z)
    decreases w.q - w.p, w.z - w.h, 0
  {
    hide SameVnode, Matching, LeftOf, Reused, Takes, SearchMove, EndMove;
    TakesUnfold(new0, w);
    SearchKeepsSlots(old0, new0, w);
    TakesIsMatching(old0, new0, SearchMove(new0, w));
    MatchingSearched(old0, new0, w);
  }

  /** The search of the reference, in terms of what is reused. */
  lemma MatchingSearched(old0: seq<VNode>, new0: seq<VNode>, w: Place)
    requires SlotsOf(old0, w) && w.q <= |old0| && w.z <= |new0| && Open(w, new0) && EndMove(new0, w).None?
    ensures (var i := Reused(w.slots, w.p, w.q, new0[w.h]);
      Matching(old0, new0, LeftOf(w.slots, w.p, w.q), w.h, w.z) ==
        if i.Some? then Matching(old0, new0, LeftOf(w.slots[i.value := None], w.p, w.q), w.h + 1, w.z)[w.h := i.value]
        else Matching(old0, new0, LeftOf(w.slots, w.p, w.q), w.h + 1, w.z))
  {
    hide SameVnode, Matching, LeftOf, Found, Reused, EndMove;
    NoEndMatches(old0, new0, w);
    MatchingSearch(old0, new0, LeftOf(w.slots, w.p, w.q), w.h, w.z);
    ReusedIsFound(old0, w, new0[w.h]);
    hide SlotsOf;
  }

  lemma NoEndMatches(old0: seq<VNode>, new0: seq<VNode>, w: Place)
    requires SlotsOf(old0, w) && w.q <= |old0| && Open(w, new0) && EndMove(new0, w).None?
    ensures w.slots[w.p].Some? && w.slots[w.q - 1].Some?
    ensures LeftOf(w.slots, w.p, w.q) != []
    ensures (var left := LeftOf(w.slots, w.p, w.q);
      var a, b := old0[left[0]], old0[left[|left| - 1]];
      && !SameVnode(a, new0[w.h]) && !SameVnode(b, new0[w.z - 1])
      && !SameVnode(a, new0[w.z - 1]) && !SameVnode(b, new0[w.h]))
  {
    hide SameVnode, LeftOf;
    LeftEnds(w.slots, w.p, w.q);
  }

  lemma TakesUnfold(new0: seq<VNode>, w: Place)
    requires Open(w, new0) && EndMove(new0, w).None?
    ensures (var i, rest := Reused(w.slots, w.p, w.q, new0[w.h]), Takes(new0, SearchMove(new0, w));
      Takes(new0, w) == if i.Some? then rest[w.h := i.value] else rest)
  {
    hide Reused, EndMove, SearchMove;
  }

  lemma SearchKeepsSlots(old0: seq<VNode>, new0: seq<VNode>, w: Place)
    requires SlotsOf(old0, w) && Open(w, new0)
    ensures (var next, i := SearchMove(new0, w), Reused(w.slots, w.p, w.q, new0[w.h]);
      && SlotsOf(old0, next) && next.p == w.p && next.q == w.q && next.h == w.h + 1 && next.z == w.z
      && next.slots == if i.Some? then w.slots[i.value := None] else w.slots)
  {
    hide Reused;
  }

  /** What is reused is what the reference finds, and clearing it takes it out of the list. */
  lemma ReusedIsFound(old0: seq<VNode>, w: Place, v: VNode)
    requires SlotsOf(old0, w) && w.p < w.q <= |old0| && w.slots[w.q - 1].Some?
    ensures (var left, i := LeftOf(w.slots, w.p, w.q), Reused(w.slots, w.p, w.q, v);
      && left != [] && var searched := if v.key.Named? then left else left[..|left| - 1];
      var k := Found(old0, v, searched);
      if k < |searched| && SameVnode(old0[left[k]], v)
      then i == Some(left[k]) && LeftOf(w.slots[left[k] := None], w.p, w.q) == left[..k] + left[k + 1..]
      else i == None)
  {
    hide SameVnode, Candidate, LeftOf, Found, FirstCandidate;
    LeftEnds(w.slots, w.p, w.q);
    var hi := if v.key.Named? then w.q else w.q - 1;
    FoundIs(old0, w.slots, w.p, hi, v);
    var c := FirstCandidate(w.slots, w.p, hi, v);
    if c.Some? {
      LeftCleared(w.slots, w.p, c.value, w.q);
      FoundInAll(old0, w.slots, w.p, hi, w.q, v);
    }
  }

  lemma FoundInAll(old0: seq<VNode>, slots: seq<Option<VNode>>, lo: nat, hi: nat, q: nat, v: VNode)
    requires lo <= hi <= q <= |slots| == |old0|
    requires forall i :: lo <= i < q ==> slots[i].None? || slots[i] == Some(old0[i])
    requires FirstCandidate(slots, lo, hi, v).Some?
    ensures (var c, left := FirstCandidate(slots, lo, hi, v).value, LeftOf(slots, lo, q);
      var k := Found(old0, v, LeftOf(slots, lo, hi));
      k < |left| && left[k] == c && left[..k] == LeftOf(slots, lo, c) && left[k + 1..] == LeftOf(slots, c + 1, q))
  {
    hide Candidate, FirstCandidate, Found, LeftOf;
    FoundIs(old0, slots, lo, hi, v);
    LeftSplit(slots, lo, hi, q);
    var c := FirstCandidate(slots, lo, hi, v).value;
    LeftCleared(slots, lo, c, q);
  }

  // ---- the first moves ----

  /** How many leading nodes match pairwise, counted from k on. */
  function Heads(old0: seq<VNode>, new0: seq<VNode>, k: nat): (n: nat)
    requires k <= |old0| && k <= |new0|
    ensures k <= n <= |old0| && n <= |new0|
    ensures forall i :: k <= i < n ==> SameVnode(old0[i], new0[i])
    ensures n < |old0| && n < |new0| ==> !SameVnode(old0[n], new0[n])
    decreases |old0| - k
  {
    if k < |old0| && k < |new0| && SameVnode(old0[k], new0[k]) then Heads(old0, new0, k + 1) else k
  }

  /** Where the trailing nodes that match pairwise begin in the old list, behind the first k and up to q. */
  function Tails(old0: seq<VNode>, new0: seq<VNode>, k: nat, q: nat): (r: nat)
    requires k <= q <= |old0| && k <= q - |old0| + |new0|
    ensures k <= r <= q && k <= r - |old0| + |new0|
    ensures forall i :: r <= i < q ==> SameVnode(old0[i], new0[i - |old0| + |new0|])
    ensures k < r && k < r - |old0| + |new0| ==> !SameVnode(old0[r - 1], new0[r - 1 - |old0| + |new0|])
    decreases q
  {
    if k < q && k < q - |old0| + |new0| && SameVnode(old0[q - 1], new0[q - 1 - |old0| + |new0|])
    then Tails(old0, new0, k, q - 1) else q
  }

  /** Matching leading nodes keep their elements, and so do matching trailing ones of what these leave. */
  ghost predicate EndsKept(old0: seq<VNode>, new0: seq<VNode>, nodes: seq<VNode>)
    requires |nodes| == |new0|
  {
    var k := Heads(old0, new0, 0);
    && (forall i :: 0 <= i < k ==> nodes[i].elm == old0[i].elm)
    && (forall i :: Tails(old0, new0, k, |old0|) <= i < |old0| ==> nodes[i - |old0| + |new0|].elm == old0[i].elm)
  }

  /**
     What becomes of the first node h to p of the old nodes and h to z of the new ones that are left,
     if neither heads nor tails match: an old head that matches the new tail is taken by it, otherwise
     an old tail that matches the new head, and otherwise the new head takes what the search finds.
   */
  ghost predicate NextMoved(old0: seq<VNode>, new0: seq<VNode>, fresh0: Elm, nodes: seq<VNode>, k: nat, q: nat, z: nat)
    requires |nodes| == |new0| && k < q <= |old0| && k < z <= |new0|
  {
    if SameVnode(old0[k], new0[z - 1]) then nodes[z - 1].elm == old0[k].elm
    else if SameVnode(old0[q - 1], new0[k]) then nodes[k].elm == old0[q - 1].elm
    else new0[k].key.Named? || SearchTaken(old0, new0[k], fresh0, nodes[k], k, q)
  }

  /**
     The search of a node v without a key looks at all old nodes from k on but the last, the new node
     being the first of the two compared.  It ends at the first match, which is taken if it also
     matches as the first of the two.  Otherwise the node is new.
   */
  ghost predicate SearchTaken(old0: seq<VNode>, v: VNode, fresh0: Elm, node: VNode, k: nat, q: nat)
    requires k < q <= |old0|
  {
    && (forall i ::
          k <= i < q - 1 && SameVnode(v, old0[i]) && (forall i' :: k <= i' < i ==> !SameVnode(v, old0[i'])) ==>
            if SameVnode(old0[i], v) then node.elm == old0[i].elm else node.elm.Some? && node.elm.value >= fresh0)
    && ((forall i :: k <= i < q - 1 ==> !SameVnode(v, old0[i])) ==> node.elm.Some? && node.elm.value >= fresh0)
  }

  ghost predicate FirstMovesRight(old0: seq<VNode>, new0: seq<VNode>, fresh0: Elm, nodes: seq<VNode>)
    requires |nodes| == |new0|
  {
    var k := Heads(old0, new0, 0);
    var q := Tails(old0, new0, k, |old0|);
    var z := q - |old0| + |new0|;
    EndsKept(old0, new0, nodes) && (k < q && k < z ==> NextMoved(old0, new0, fresh0, nodes, k, q, z))
  }

  /** New nodes of [lo, hi) have the element of the old node they take, or a new one. */
  ghost predicate TakenElms(old0: seq<VNode>, fresh0: Elm, nodes: seq<VNode>, taken: map<nat, nat>, lo: nat, hi: nat) {
    forall j: nat :: lo <= j < hi <= |nodes| ==>
      if j in taken then taken[j] < |old0| && nodes[j].elm == old0[taken[j]].elm
      else nodes[j].elm.Some? && nodes[j].elm.value >= fresh0
  }

  ghost predicate AllLive(old0: seq<VNode>, w: Place) {
    |w.slots| == |old0| && forall i :: 0 <= i < |old0| ==> w.slots[i] == Some(old0[i])
  }

  lemma {:induction false} HeadsTaken(old0: seq<VNode>, new0: seq<VNode>, w: Place, k: nat)
    requires AllLive(old0, w) && w.p == w.h <= k <= w.q <= |old0| && k <= w.z <= |new0|
    requires forall i :: w.p <= i < k ==> SameVnode(old0[i], new0[i])
    ensures forall i: nat :: w.p <= i < k ==> i in Takes(new0, w) && Takes(new0, w)[i] == i
    ensures (var rest := Takes(new0, w.(p := k, h := k)); forall j: nat :: j >= k ==>
      (j in Takes(new0, w) <==> j in rest) && (j in Takes(new0, w) ==> Takes(new0, w)[j] == rest[j]))
    decreases k - w.p
  {
    hide SameVnode, EndMove, Takes;
    if w.p < k {
      var next := w.(p := w.p + 1, h := w.h + 1);
      HeadMove(old0, new0, w);
      TakesKeys(new0, next);
      HeadsTaken(old0, new0, next, k);
    }
  }

  lemma HeadMove(old0: seq<VNode>, new0: seq<VNode>, w: Place)
    requires AllLive(old0, w) && w.p < w.q <= |old0| && w.h < w.z <= |new0| && SameVnode(old0[w.p], new0[w.h])
    ensures Takes(new0, w) == Takes(new0, w.(p := w.p + 1, h := w.h + 1))[w.h := w.p]
  {
    hide SameVnode;
  }

  lemma TailMove(old0: seq<VNode>, new0: seq<VNode>, w: Place)
    requires AllLive(old0, w) && w.p < w.q <= |old0| && w.h < w.z <= |new0|
    requires !SameVnode(old0[w.p], new0[w.h]) && SameVnode(old0[w.q - 1], new0[w.z - 1])
    ensures Takes(new0, w) == Takes(new0, w.(q := w.q - 1, z := w.z - 1))[w.z - 1 := w.q - 1]
  {
    hide SameVnode;
  }

  lemma {:induction false} TailsTaken(old0: seq<VNode>, new0: seq<VNode>, w: Place, q: nat, z: nat)
    requires AllLive(old0, w) && w.p <= q <= w.q <= |old0| && w.h <= z <= w.z <= |new0| && w.q - q == w.z - z
    requires w.p < w.q && w.h < w.z ==> !SameVnode(old0[w.p], new0[w.h])
    requires forall i :: q <= i < w.q ==> SameVnode(old0[i], new0[i - q + z])
    ensures forall j: nat :: z <= j < w.z ==> j in Takes(new0, w) && Takes(new0, w)[j] == j - z + q
    ensures (var rest := Takes(new0, w.(q := q, z := z)); forall j: nat :: j < z ==>
      (j in Takes(new0, w) <==> j in rest) && (j in Takes(new0, w) ==> Takes(new0, w)[j] == rest[j]))
    decreases w.q - q
  {
    hide SameVnode, EndMove, Takes;
    if q < w.q {
      var next := w.(q := w.q - 1, z := w.z - 1);
      assert SameVnode(old0[w.q - 1], new0[w.z - 1]);
      TailMove(old0, new0, w);
      TakesKeys(new0, next);
      TailsTaken(old0, new0, next, q, z);
    }
  }

  lemma NextTaken(old0: seq<VNode>, new0: seq<VNode>, fresh0: Elm, nodes: seq<VNode>, w: Place)
    requires AllLive(old0, w) && |nodes| == |new0| && w.p == w.h < w.q <= |old0| && w.h < w.z <= |new0|
    requires !SameVnode(old0[w.p], new0[w.h]) && !SameVnode(old0[w.q - 1], new0[w.z - 1])
    requires TakenElms(old0, fresh0, nodes, Takes(new0, w), w.h, w.z)
    ensures NextMoved(old0, new0, fresh0, nodes, w.h, w.q, w.z)
  {
    hide SameVnode, Reused, SearchTaken, SearchMove;
    if EndMove(new0, w).Some? {
      CrossTaken(new0, w);
    } else if !new0[w.h].key.Named? {
      TakesSearch(new0, w, map[]);
      SearchElm(old0, w, new0[w.h], fresh0, nodes[w.h]);
    }
  }

  /** A comparison of ends records the new node it finishes. */
  lemma CrossTaken(new0: seq<VNode>, w: Place)
    requires Open(w, new0) && EndMove(new0, w).Some?
    ensures (var next := EndMove(new0, w).value;
      next.h != w.h || next.z != w.z ==>
        (var j, i := (if next.h > w.h then w.h else w.z - 1), (if next.p > w.p then w.p else w.q - 1);
         j in Takes(new0, w) && Takes(new0, w)[j] == i))
  {
    hide SameVnode, Reused;
  }

  lemma SearchElm(old0: seq<VNode>, w: Place, v: VNode, fresh0: Elm, node: VNode)
    requires AllLive(old0, w) && w.p < w.q <= |old0| && !v.key.Named?
    requires (var i := Reused(w.slots, w.p, w.q, v);
      if i.Some? then i.value < |old0| && node.elm == old0[i.value].elm else node.elm.Some? && node.elm.value >= fresh0)
    ensures SearchTaken(old0, v, fresh0, node, w.p, w.q)
  {
    SearchFirst(old0, w, v);
    hide SameVnode, Reused;
  }

  /** While all old nodes are there, what the search yields for a node without a key. */
  lemma SearchFirst(old0: seq<VNode>, w: Place, v: VNode)
    requires AllLive(old0, w) && w.p < w.q <= |old0| && !v.key.Named?
    ensures forall i: nat ::
      w.p <= i < w.q - 1 && SameVnode(v, old0[i]) && (forall i' :: w.p <= i' < i ==> !SameVnode(v, old0[i'])) ==>
        Reused(w.slots, w.p, w.q, v) == if SameVnode(old0[i], v) then Some(i) else None
    ensures (forall i :: w.p <= i < w.q - 1 ==> !SameVnode(v, old0[i])) ==> Reused(w.slots, w.p, w.q, v) == None
  {
    hide SameVnode;
    forall i: nat | w.p <= i < w.q - 1 && SameVnode(v, old0[i])
      && (forall i' :: w.p <= i' < i ==> !SameVnode(v, old0[i']))
      ensures FirstCandidate(w.slots, w.p, w.q - 1, v) == Some(i)
    {
      FirstCandidateIs(w.slots, w.p, w.q - 1, v, i);
    }
    if forall i :: w.p <= i < w.q - 1 ==> !SameVnode(v, old0[i]) {
      FirstCandidateNone(w.slots, w.p, w.q - 1, v);
    }
  }

  /** What the walk takes first, said in terms of the two lists alone. */
  lemma FirstMoves(old0: seq<VNode>, new0: seq<VNode>, fresh0: Elm, nodes: seq<VNode>, w: Place)
    requires |nodes| == |new0| && AllLive(old0, w) && w == Place(w.slots, 0, |old0|, 0, |new0|)
    requires TakenElms(old0, fresh0, nodes, Takes(new0, w), 0, |nodes|)
    ensures FirstMovesRight(old0, new0, fresh0, nodes)
  {
    hide SameVnode, Takes, NextMoved, TakenElms;
    assert |w.slots| == |old0|;
    hide AllLive;
    var k := Heads(old0, new0, 0);
    var q := Tails(old0, new0, k, |old0|);
    MovesBetween(old0, new0, fresh0, nodes, w, Place(w.slots, k, q, k, q - |old0| + |new0|));
  }

  /** The same once it is known how far heads and tails match: up to the windows of w2. */
  lemma MovesBetween(old0: seq<VNode>, new0: seq<VNode>, fresh0: Elm, nodes: seq<VNode>, w: Place, w2: Place)
    requires |nodes| == |new0| && AllLive(old0, w) && w == Place(w.slots, 0, |w.slots|, 0, |new0|)
    requires |w.slots| == |old0| && TakenElms(old0, fresh0, nodes, Takes(new0, w), 0, |nodes|)
    requires w2 == Place(w.slots, w2.p, w2.q, w2.p, w2.z) && w2.p <= w2.q <= |old0| && w2.p <= w2.z <= |new0|
    requires |old0| - w2.q == |new0| - w2.z
    requires forall i :: 0 <= i < w2.p ==> SameVnode(old0[i], new0[i])
    requires forall i :: w2.q <= i < |old0| ==> SameVnode(old0[i], new0[i - |old0| + |new0|])
    requires w2.p < |old0| && w2.p < |new0| ==> !SameVnode(old0[w2.p], new0[w2.p])
    requires w2.p < w2.q && w2.p < w2.z ==> !SameVnode(old0[w2.q - 1], new0[w2.z - 1])
    ensures forall i :: 0 <= i < w2.p ==> nodes[i].elm == old0[i].elm
    ensures forall i :: w2.q <= i < |old0| ==> nodes[i - |old0| + |new0|].elm == old0[i].elm
    ensures w2.p < w2.q && w2.p < w2.z ==> NextMoved(old0, new0, fresh0, nodes, w2.p, w2.q, w2.z)
  {
    hide SameVnode, Takes, NextMoved, TakenElms, TakenBefore, AllLive;
    EndsTaken(old0, new0, w, w2);
    TakenAt(old0, fresh0, nodes, Takes(new0, w), Takes(new0, w2), w2);
    if w2.p < w2.q && w2.p < w2.z {
      LiveStill(old0, w, w2);
      NextTaken(old0, new0, fresh0, nodes, w2);
    }
  }

  lemma LiveStill(old0: seq<VNode>, w: Place, w2: Place)
    requires AllLive(old0, w) && w2.slots == w.slots
    ensures AllLive(old0, w2)
  {
  }

  /** What the walk takes before it reaches w2, and what it still takes from there on. */
  ghost predicate TakenBefore(all: map<nat, nat>, rest: map<nat, nat>, w2: Place, z: nat) {
    && (forall i: nat :: i < w2.h ==> i in all && all[i] == i)
    && (forall j: nat :: w2.z <= j < z ==> j in all && all[j] == j - w2.z + w2.q)
    && (forall j: nat :: w2.h <= j < w2.z ==> (j in all <==> j in rest) && (j in all ==> all[j] == rest[j]))
  }

  lemma EndsTaken(old0: seq<VNode>, new0: seq<VNode>, w: Place, w2: Place)
    requires AllLive(old0, w) && w == Place(w.slots, 0, |old0|, 0, |new0|)
    requires w2 == Place(w.slots, w2.p, w2.q, w2.p, w2.z) && w2.p <= w2.q <= |old0| && w2.p <= w2.z <= |new0|
    requires |old0| - w2.q == |new0| - w2.z
    requires forall i :: 0 <= i < w2.p ==> SameVnode(old0[i], new0[i])
    requires forall i :: w2.q <= i < |old0| ==> SameVnode(old0[i], new0[i - w2.q + w2.z])
    requires w2.p < |old0| && w2.p < |new0| ==> !SameVnode(old0[w2.p], new0[w2.p])
    ensures TakenBefore(Takes(new0, w), Takes(new0, w2), w2, |new0|)
  {
    hide SameVnode, Takes, AllLive, TakenBefore;
    var w1 := w.(p := w2.p, h := w2.p);
    LiveStill(old0, w, w1);
    HeadsTaken(old0, new0, w, w2.p);
    TailsTaken(old0, new0, w1, w2.q, w2.z);
    assert w1.(q := w2.q, z := w2.z) == w2;
    TakenJoin(Takes(new0, w), Takes(new0, w1), Takes(new0, w2), w2, |new0|);
  }

  lemma TakenJoin(all: map<nat, nat>, mid: map<nat, nat>, rest: map<nat, nat>, w2: Place, z: nat)
    requires w2.h <= w2.z
    requires forall i: nat :: i < w2.h ==> i in all && all[i] == i
    requires forall j: nat :: j >= w2.h ==> (j in all <==> j in mid) && (j in all ==> all[j] == mid[j])
    requires forall j: nat :: w2.z <= j < z ==> j in mid && mid[j] == j - w2.z + w2.q
    requires forall j: nat :: j < w2.z ==> (j in mid <==> j in rest) && (j in mid ==> mid[j] == rest[j])
    ensures TakenBefore(all, rest, w2, z)
  {
  }

  lemma TakenAt(old0: seq<VNode>, fresh0: Elm, nodes: seq<VNode>, all: map<nat, nat>, rest: map<nat, nat>, w2: Place)
    requires TakenElms(old0, fresh0, nodes, all, 0, |nodes|) && TakenBefore(all, rest, w2, |nodes|)
    requires w2.h <= w2.z <= |nodes| && w2.h <= w2.q <= |old0| && |old0| - w2.q == |nodes| - w2.z
    ensures forall i :: 0 <= i < w2.h ==> nodes[i].elm == old0[i].elm
    ensures forall i :: w2.q <= i < |old0| ==> nodes[i - |old0| + |nodes|].elm == old0[i].elm
    ensures TakenElms(old0, fresh0, nodes, rest, w2.h, w2.z)
  {
    forall i | w2.q <= i < |old0|
      ensures nodes[i - |old0| + |nodes|].elm == old0[i].elm
    {
      var j: nat := i - |old0| + |nodes|;
      assert j in all && all[j] == i;
    }
  }

  // ---- the diff itself ----

  datatype Outcome = Done | Thrown

  /** The arrays, counters and child list are in state s. */
  ghost predicate Holds(s: State, oldCh: array<Option<VNode>>, newCh: array<VNode>, dom: Dom, p: int, m: int, h: int,
    y: int)
    reads oldCh, newCh, dom
  {
    && s.slots == oldCh[..] && s.nodes == newCh[..]
    && s.p == p && s.q == m + 1 && s.h == h && s.z == y + 1
    && s.children == dom.children && s.nextElm == dom.nextElm
  }

  lemma GoodBounds(old0: seq<VNode>, new0: seq<VNode>, fresh0: Elm, s: State)
    requires Good(old0, new0, fresh0, s)
    ensures s.p <= s.q <= |s.slots| == |old0| && s.h <= s.z <= |s.nodes| == |new0|
    ensures forall i :: 0 <= i < |old0| && s.slots[i].Some? ==> s.slots[i] == Some(old0[i])
    ensures forall j :: 0 <= j < |new0| ==> s.nodes[j].(elm := new0[j].elm) == new0[j]
  {
  }

  /** A live entry at the front is not matched from inside: the search never returns it. */
  method Inner(oldCh: array<Option<VNode>>, newCh: array<VNode>, dom: Dom, p: nat, h: nat, i: nat, ghost s: State)
    requires s.slots == oldCh[..] && s.nodes == newCh[..] && s.children == dom.children && s.nextElm == dom.nextElm
    requires s.p == p <= i < s.q <= oldCh.Length && s.h == h < s.z <= newCh.Length
    requires oldCh[p].Some? && oldCh[i].Some? && oldCh[p].value.elm.Some? && oldCh[i].value.elm.Some?
    modifies oldCh, newCh, dom
    ensures var s' := InnerToHead(s, i);
      && s'.slots == oldCh[..] && s'.nodes == newCh[..] && s'.children == dom.children && s'.nextElm == dom.nextElm
  {
    hide InsertBefore;
    var e, g := oldCh[i].value.elm.value, oldCh[p].value.elm.value;
    newCh[h] := newCh[h].(elm := oldCh[i].value.elm);
    oldCh[i] := None;
    dom.Insert(e, Some(g));
  }

  /** `createElm` for new node h in front of ref. */
  method CreateElm(newCh: array<VNode>, dom: Dom, h: nat, ref: Option<Elm>, ghost s: State)
    requires s.nodes == newCh[..] && s.children == dom.children && s.nextElm == dom.nextElm
    requires s.h == h < s.z <= newCh.Length
    modifies newCh, dom
    ensures var s' := CreateAt(s, ref);
      s'.nodes == newCh[..] && s'.children == dom.children && s'.nextElm == dom.nextElm
  {
    hide InsertBefore;
    var x := dom.Create();
    newCh[h] := newCh[h].(elm := Some(x));
    dom.Insert(x, ref);
  }

  /** The table built once, at an earlier and therefore larger window. */
  ghost predicate TableFits(old0: seq<VNode>, table: Option<map<string, nat>>, s: State) {
    match table
    case None => |s.slots| == |old0| && forall i :: 0 <= i < |s.slots| ==> s.slots[i].Some?
    case Some(t) => exists lo: nat, hi: nat :: lo <= s.p && s.q <= hi <= |old0| && lo <= hi && TableOk(old0, t, lo, hi)
  }

  /** Windows only shrink, so the table keeps fitting. */
  lemma TableKeeps(old0: seq<VNode>, table: Option<map<string, nat>>, s: State, s': State)
    requires TableFits(old0, table, s) && s.p <= s'.p && s'.q <= s.q
    requires table.None? ==> s'.slots == s.slots
    ensures TableFits(old0, table, s')
  {
    hide TableOk;
    if table.Some? {
      var lo: nat, hi: nat :| lo <= s.p && s.q <= hi <= |old0| && lo <= hi && TableOk(old0, table.value, lo, hi);
      assert lo <= s'.p && s'.q <= hi;
    }
  }

  /** Nodes with such a key are never finished while old nodes are left. */
  ghost predicate NoBadFinished(old0: seq<VNode>, new0: seq<VNode>, s: State) {
    forall j: nat :: j < |new0| && Finished(s, j) ==> !Bad(old0, new0[j])
  }

  lemma ReusedIsNotBad(old0: seq<VNode>, new0: seq<VNode>, fresh0: Elm, s: State, s': State)
    requires Good(old0, new0, fresh0, s') && NoBadFinished(old0, new0, s)
    requires forall j: nat :: Finished(s', j) ==>
      Finished(s, j) || j in s'.source || (j < |new0| && !Bad(old0, new0[j]))
    ensures NoBadFinished(old0, new0, s')
  {
    hide SameVnode, Layout, Tidy, KeyedOk, INHERITED, Finished;
    forall j: nat | j < |new0| && Finished(s', j)
      ensures !Bad(old0, new0[j])
    {
      if j in s'.source {
        SameKey(old0[s'.source[j]], new0[j]);
      }
    }
  }

  /** What looking a keyed new node up in the table tells about the old nodes. */
  lemma LookupMeaning(old0: seq<VNode>, new0: seq<VNode>, fresh0: Elm, s: State, t: map<string, nat>)
    requires Inputs(old0, new0, fresh0) && Good(old0, new0, fresh0, s) && s.p < s.q && s.h < s.z
    requires TableFits(old0, Some(t), s) && new0[s.h].key.Named?
    ensures match Lookup(t, new0[s.h].key.name)
      case Own(i) =>
        && s.p <= i < s.q && s.slots[i] == Some(old0[i]) && !Fatal(old0, new0[s.h])
        && old0[i].key.Named? && old0[i].key.name == new0[s.h].key.name
        && (!SameVnode(old0[i], new0[s.h]) ==> forall k :: 0 <= k < |old0| ==> !SameVnode(old0[k], new0[s.h]))
      case Missing =>
        && !Fatal(old0, new0[s.h])
        && (forall k :: 0 <= k < |old0| && old0[k].key.Named? ==> old0[k].key.name != new0[s.h].key.name)
        && (forall k :: 0 <= k < |old0| ==> !SameVnode(old0[k], new0[s.h]))
      case Inherited => Fatal(old0, new0[s.h])
  {
    hide SameVnode, KeyedOk, Layout, Tidy, INHERITED;
    var name := new0[s.h].key.name;
    var lo: nat, hi: nat :| lo <= s.p && s.q <= hi <= |old0| && lo <= hi && TableOk(old0, t, lo, hi);
    ProtoInherited();
    if name in t {
      assert !Finished(s, s.h);
      NamedIsLive(old0, new0, s, t[name], s.h);
      if !SameVnode(old0[t[name]], new0[s.h]) {
        NoMatchInTable(old0, new0, s, t, lo, hi);
      }
    } else if name != PROTO {
      NoMatchInTable(old0, new0, s, t, lo, hi);
      NotNamedInOld(old0, new0, s, t, lo, hi);
    }
  }

  /** A name missing from the table belongs to no old node. */
  lemma NotNamedInOld(old0: seq<VNode>, new0: seq<VNode>, s: State, t: map<string, nat>, lo: nat, hi: nat)
    requires |s.slots| == |old0| && |s.nodes| == |new0| && TakenOk(s) && SourceOk(old0, new0, s)
    requires DistinctKeys(new0) && s.h < s.z <= |new0| && new0[s.h].key.Named?
    requires lo <= s.p && s.q <= hi <= |old0| && lo <= hi && TableOk(old0, t, lo, hi)
    requires new0[s.h].key.name != PROTO && new0[s.h].key.name !in t
    ensures forall i :: 0 <= i < |old0| && old0[i].key.Named? ==> old0[i].key.name != new0[s.h].key.name
  {
    hide SameVnode;
    forall i | 0 <= i < |old0| && old0[i].key.Named?
      ensures old0[i].key.name != new0[s.h].key.name
    {
      if old0[i].key.name == new0[s.h].key.name {
        assert !Finished(s, s.h);
        NamedIsLive(old0, new0, s, i, s.h);
      }
    }
  }

  lemma ProtoInherited()
    ensures PROTO in INHERITED
  {
  }

  /** The four comparisons of ends, when both end entries are live. */
  method CompareEnds(oldCh: array<Option<VNode>>, newCh: array<VNode>, dom: Dom, p: int, m: int, h: int, y: int,
                     ghost old0: seq<VNode>, ghost new0: seq<VNode>, ghost fresh0: Elm, ghost s: State)
    returns (hit: bool, p': int, m': int, h': int, y': int, ghost s': State)
    requires Inputs(old0, new0, fresh0) && Good(old0, new0, fresh0, s) && Holds(s, oldCh, newCh, dom, p, m, h, y)
    requires 0 <= p <= m < oldCh.Length && 0 <= h <= y < newCh.Length && oldCh[p].Some? && oldCh[m].Some?
    modifies newCh, dom
    ensures Good(old0, new0, fresh0, s') && Holds(s', oldCh, newCh, dom, p', m', h', y')
    ensures s'.slots == s.slots && s.p <= s'.p && s'.q <= s.q
    ensures forall j: nat :: Finished(s', j) ==> Finished(s, j) || j in s'.source
    ensures hit ==> (m' - p') + (y' - h') < (m - p) + (y - h) && p' <= m' + 1 && h' <= y' + 1
    ensures !hit ==> (s', p', m', h', y') == (s, p, m, h, y)
    ensures Open(PlaceOf(s), s.nodes) && EndMove(s.nodes, PlaceOf(s)) == if hit then Some(PlaceOf(s')) else None
    ensures hit ==> s'.source == Recorded(s.source, PlaceOf(s), PlaceOf(s'))
  {
    hide Inputs, Inv, KeyedOk, SameVnode, InsertBefore, NextSibling, Finished, Recorded;
    GoodBounds(old0, new0, fresh0, s);
    RenderedElms(old0, new0, fresh0, s);
    hit, p', m', h', y', s' := true, p, m, h, y, s;
    var g, v := oldCh[p].value, oldCh[m].value;
    if SameVnode(g, newCh[h]) {
      s' := StepHeadHead(old0, new0, fresh0, s);
      newCh[h] := newCh[h].(elm := g.elm);
      p', h' := p + 1, h + 1;
    } else if SameVnode(v, newCh[y]) {
      s' := StepTailTail(old0, new0, fresh0, s);
      newCh[y] := newCh[y].(elm := v.elm);
      m', y' := m - 1, y - 1;
    } else if SameVnode(g, newCh[y]) {
      s' := StepHeadTail(old0, new0, fresh0, s);
      newCh[y] := newCh[y].(elm := g.elm);
      dom.Insert(g.elm.value, NextSibling(dom.children, v.elm.value));
      p', y' := p + 1, y - 1;
    } else if SameVnode(v, newCh[h]) {
      s' := StepTailHead(old0, new0, fresh0, s);
      newCh[h] := newCh[h].(elm := v.elm);
      dom.Insert(v.elm.value, Some(g.elm.value));
      m', h' := m - 1, h + 1;
    } else {
      hit := false;
    }
  }

  /** One pass through the branches that need no table. */
  method Ends(oldCh: array<Option<VNode>>, newCh: array<VNode>, dom: Dom, p: int, m: int, h: int, y: int,
              ghost old0: seq<VNode>, ghost new0: seq<VNode>, ghost fresh0: Elm, ghost s: State)
    returns (hit: bool, p': int, m': int, h': int, y': int, ghost s': State)
    requires Inputs(old0, new0, fresh0) && Good(old0, new0, fresh0, s) && Holds(s, oldCh, newCh, dom, p, m, h, y)
    requires p <= m && h <= y
    modifies newCh, dom
    ensures Good(old0, new0, fresh0, s') && Holds(s', oldCh, newCh, dom, p', m', h', y')
    ensures s'.slots == s.slots && s.p <= s'.p && s'.q <= s.q
    ensures forall j: nat :: Finished(s', j) ==> Finished(s, j) || j in s'.source
    ensures hit ==> (m' - p') + (y' - h') < (m - p) + (y - h) && p' <= m' + 1 && h' <= y' + 1
    ensures !hit ==> (s', p', m', h', y') == (s, p, m, h, y)
    ensures !hit ==> s.slots[p].Some? && s.slots[m].Some?
    ensures Open(PlaceOf(s), s.nodes) && EndMove(s.nodes, PlaceOf(s)) == if hit then Some(PlaceOf(s')) else None
    ensures hit ==> s'.source == Recorded(s.source, PlaceOf(s), PlaceOf(s'))
  {
    hide Inputs, Inv, KeyedOk, SameVnode, InsertBefore, NextSibling;
    GoodBounds(old0, new0, fresh0, s);
    hit, p', m', h', y', s' := true, p, m, h, y, s;
    if oldCh[p].None? {
      s' := StepSkip(old0, new0, fresh0, s, true);
      p' := p + 1;
    } else if oldCh[m].None? {
      s' := StepSkip(old0, new0, fresh0, s, false);
      m' := m - 1;
    } else {
      hit, p', m', h', y', s' := CompareEnds(oldCh, newCh, dom, p, m, h, y, old0, new0, fresh0, s);
    }
  }

  lemma NoEndMoved(nodes: seq<VNode>, w: Place)
    requires Open(w, nodes) && EndMove(nodes, w).None?
    ensures w.slots[w.p].Some? && w.slots[w.q - 1].Some?
    ensures !SameVnode(w.slots[w.p].value, nodes[w.h]) && !SameVnode(w.slots[w.q - 1].value, nodes[w.h])
  {
    hide SameVnode;
  }

  lemma RenderedElms(old0: seq<VNode>, new0: seq<VNode>, fresh0: Elm, s: State)
    requires Inputs(old0, new0, fresh0) && Good(old0, new0, fresh0, s)
    ensures forall i :: 0 <= i < |s.slots| && s.slots[i].Some? ==> s.slots[i].value.elm.Some?
  {
    hide Layout, Bookkeeping, Tidy, KeyedOk, DistinctKeys, SameVnode;
  }

  /** The last branch: find an old node for new node h by key or by search, or create one. */
  method Middle(oldCh: array<Option<VNode>>, newCh: array<VNode>, dom: Dom, p: int, m: int, h: int, y: int,
                table: Option<map<string, nat>>,
                ghost old0: seq<VNode>, ghost new0: seq<VNode>, ghost fresh0: Elm, ghost s: State)
    returns (r: Outcome, table': Option<map<string, nat>>, ghost s': State)
    requires Inputs(old0, new0, fresh0) && Good(old0, new0, fresh0, s) && Holds(s, oldCh, newCh, dom, p, m, h, y)
    requires TableFits(old0, table, s) && p <= m && h <= y
    requires Open(PlaceOf(s), s.nodes) && EndMove(s.nodes, PlaceOf(s)).None?
    modifies oldCh, newCh, dom
    ensures r == Done ==>
      Good(old0, new0, fresh0, s') && Holds(s', oldCh, newCh, dom, p, m, h + 1, y) && TableFits(old0, table', s')
    ensures r == Done ==> forall j: nat :: Finished(s', j) ==>
      Finished(s, j) || j in s'.source || (j < |new0| && !Bad(old0, new0[j]))
    ensures r == Thrown <==> Fatal(old0, new0[h])
    ensures r == Done ==> PlaceOf(s') == SearchMove(s.nodes, PlaceOf(s))
    ensures r == Done ==> s'.source == SearchRecorded(s.source, s.nodes, PlaceOf(s))
  {
    hide Inputs, Inv, KeyedOk, SameVnode, InsertBefore, TableFits, BadName, FirstCandidate, EndMove, Fatal;
    NoEndMoved(s.nodes, PlaceOf(s));
    GoodBounds(old0, new0, fresh0, s);
    RenderedElms(old0, new0, fresh0, s);
    SameForUnfinished(old0, new0, s, h);
    s' := s;
    var found;
    r, table', found := FindOld(oldCh, newCh[h], p, m, table, old0, new0, fresh0, s);
    if r == Thrown {
      return;
    }
    if found.Some? {
      s' := StepInner(old0, new0, fresh0, s, found.value);
      Inner(oldCh, newCh, dom, p, h, found.value, s);
    } else {
      ghost var ref := Head(Live(s.slots, s.p, s.q) + Elms(s.nodes[s.z..]));
      FirstLive(s);
      s' := StepCreate(old0, new0, fresh0, s, ref);
      CreateElm(newCh, dom, h, oldCh[p].value.elm, s);
    }
    TableKeeps(old0, table', s, s');
  }

  /** The old node to reuse: by key through the table, which is built on first need, or by search. */
  method FindOld(oldCh: array<Option<VNode>>, node: VNode, p: int, m: int, table: Option<map<string, nat>>,
                 ghost old0: seq<VNode>, ghost new0: seq<VNode>, ghost fresh0: Elm, ghost s: State)
    returns (r: Outcome, table': Option<map<string, nat>>, found: Option<nat>)
    requires Inputs(old0, new0, fresh0) && Good(old0, new0, fresh0, s) && s.slots == oldCh[..]
    requires TableFits(old0, table, s) && s.p == p <= m && s.q == m + 1 && s.h < s.z
    requires node == s.nodes[s.h] && node.key == new0[s.h].key
    requires forall t :: SameVnode(t, node) <==> SameVnode(t, new0[s.h])
    requires s.slots[p].Some? && s.slots[m].Some?
    requires !SameVnode(s.slots[p].value, node) && !SameVnode(s.slots[m].value, node)
    ensures r == Done ==> table'.Some? && TableFits(old0, table', s)
    ensures r == Thrown <==> Fatal(old0, new0[s.h])
    ensures r == Done ==> !Bad(old0, new0[s.h]) && found == Reused(s.slots, s.p, s.q, node)
    ensures r == Done && found.Some? ==>
      s.p < found.value < s.q && s.slots[found.value].Some? && SameVnode(s.slots[found.value].value, node)
    ensures r == Done && found.None? && node.key.Named? ==> forall i :: 0 <= i < |old0| ==>
      !SameVnode(old0[i], new0[s.h])
  {
    hide Inputs, Inv, KeyedOk, SameVnode, TableFits, TableOk, BadName, INHERITED, Candidate, FirstCandidate;
    GoodBounds(old0, new0, fresh0, s);
    r, table', found := Done, table, None;
    if table'.None? {
      AllThere(old0, s);
      var t := CreateKeyToOldIdx(oldCh, p, m + 1, old0);
      table' := Some(t);
      FreshTable(old0, t, s);
    }
    var c: Option<nat> := None;
    if node.key.Named? {
      LookupMeaning(old0, new0, fresh0, s, table'.value);
      match Lookup(table'.value, node.key.name) {
        case Inherited =>
          r := Thrown;
          return;
        case Missing =>
          NoNamedCandidate(old0, s.slots, s.p, s.q, node);
        case Own(i) =>
          c := Some(i);
          InputsKeys(old0, new0, fresh0);
          OnlyNamedCandidate(old0, s.slots, s.p, s.q, node, i);
      }
    } else {
      c := FindIdxInOld(node, oldCh, p, m);
      SearchIsFirst(s.slots, s.p, s.q - 1, node, c);
    }
    if c.Some? && SameVnode(oldCh[c.value].value, node) {
      found := c;
    }
  }

  lemma InputsKeys(old0: seq<VNode>, new0: seq<VNode>, fresh0: Elm)
    requires Inputs(old0, new0, fresh0)
    ensures DistinctKeys(old0)
  {
  }

  lemma NoNamedCandidate(old0: seq<VNode>, slots: seq<Option<VNode>>, lo: nat, hi: nat, v: VNode)
    requires hi <= |slots| == |old0| && forall k :: 0 <= k < |old0| && slots[k].Some? ==> slots[k] == Some(old0[k])
    requires v.key.Named? && forall k :: 0 <= k < |old0| && old0[k].key.Named? ==> old0[k].key.name != v.key.name
    ensures FirstCandidate(slots, lo, hi, v) == None
  {
    FirstCandidateNone(slots, lo, hi, v);
  }

  /** Keys being unique, no other entry has the name of the one found by it. */
  lemma OnlyNamedCandidate(old0: seq<VNode>, slots: seq<Option<VNode>>, lo: nat, hi: nat, v: VNode, i: nat)
    requires hi <= |slots| == |old0| && forall k :: 0 <= k < |old0| && slots[k].Some? ==> slots[k] == Some(old0[k])
    requires DistinctKeys(old0) && v.key.Named? && lo <= i < hi && slots[i].Some?
    requires old0[i].key.Named? && old0[i].key.name == v.key.name
    ensures FirstCandidate(slots, lo, hi, v) == Some(i)
  {
    hide SameVnode;
    FirstCandidateIs(slots, lo, hi, v, i);
  }

  lemma SearchIsFirst(slots: seq<Option<VNode>>, lo: nat, hi: nat, v: VNode, found: Option<nat>)
    requires hi <= |slots| && !v.key.Named?
    requires match found
      case Some(i) => lo <= i < hi && slots[i].Some? && SameVnode(v, slots[i].value)
                      && forall k :: lo <= k < i && slots[k].Some? ==> !SameVnode(v, slots[k].value)
      case None => forall i :: lo <= i < hi && slots[i].Some? ==> !SameVnode(v, slots[i].value)
    ensures FirstCandidate(slots, lo, hi, v) == found
  {
    hide SameVnode;
    if found.Some? {
      FirstCandidateIs(slots, lo, hi, v, found.value);
    } else {
      FirstCandidateNone(slots, lo, hi, v);
    }
  }

  /** Between nodes that are no placeholders the order of the comparison does not matter. */
  lemma SameIsSymmetric(t: VNode, e: VNode)
    requires !t.isAsyncPlaceholder && !e.isAsyncPlaceholder
    ensures SameVnode(t, e) <==> SameVnode(e, t)
  {
  }

  /**
   Without placeholders an unkeyed node that the last entry does not match is rendered with the
   first live entry of the window that matches it, if there is one.
   */
  lemma ReusedIsFirst(slots: seq<Option<VNode>>, lo: nat, hi: nat, v: VNode)
    requires lo < hi <= |slots| && !v.key.Named? && slots[hi - 1].Some? && !SameVnode(slots[hi - 1].value, v)
    requires !v.isAsyncPlaceholder && forall k :: lo <= k < hi && slots[k].Some? ==> !slots[k].value.isAsyncPlaceholder
    ensures var i := Reused(slots, lo, hi, v);
      && (i.None? ==> forall k :: lo <= k < hi && slots[k].Some? ==> !SameVnode(slots[k].value, v))
      && (i.Some? ==> forall k :: lo <= k < i.value && slots[k].Some? ==> !SameVnode(slots[k].value, v))
  {
    hide SameVnode;
    forall k | lo <= k < hi && slots[k].Some?
      ensures SameVnode(slots[k].value, v) <==> Candidate(slots[k].value, v)
    {
      SameIsSymmetric(slots[k].value, v);
    }
    FirstCandidateSkips(slots, lo, hi - 1, v);
  }

  lemma {:induction false} FirstCandidateSkips(slots: seq<Option<VNode>>, lo: nat, hi: nat, v: VNode)
    requires hi <= |slots|
    ensures var c := FirstCandidate(slots, lo, hi, v);
      && (c.Some? ==> Candidate(slots[c.value].value, v))
      && forall k :: lo <= k < (if c.Some? then c.value else hi) && slots[k].Some? ==> !Candidate(slots[k].value, v)
    decreases hi - lo
  {
    hide Candidate;
    if lo < hi && !(slots[lo].Some? && Candidate(slots[lo].value, v)) {
      FirstCandidateSkips(slots, lo + 1, hi, v);
    }
  }

  /** Matching does not look at the element a new node has or lacks. */
  lemma SameForUnfinished(old0: seq<VNode>, new0: seq<VNode>, s: State, h: nat)
    requires |s.nodes| == |new0| && h < |new0| && s.nodes[h].(elm := new0[h].elm) == new0[h]
    ensures s.nodes[h].key == new0[h].key
    ensures forall t :: SameVnode(t, s.nodes[h]) <==> SameVnode(t, new0[h])
  {
  }

  lemma AllThere(old0: seq<VNode>, s: State)
    requires TableFits(old0, None, s) && |s.slots| == |old0|
    requires forall i :: 0 <= i < |old0| && s.slots[i].Some? ==> s.slots[i] == Some(old0[i])
    ensures forall i :: 0 <= i < |old0| ==> s.slots[i] == Some(old0[i])
  {
  }

  lemma FreshTable(old0: seq<VNode>, t: map<string, nat>, s: State)
    requires s.p <= s.q <= |old0| && TableOk(old0, t, s.p, s.q)
    ensures TableFits(old0, Some(t), s)
  {
    hide TableOk;
  }

  lemma FirstLive(s: State)
    requires s.p < s.q <= |s.slots| && s.z <= |s.nodes| && s.slots[s.p].Some? && s.slots[s.p].value.elm.Some?
    ensures Head(Live(s.slots, s.p, s.q) + Elms(s.nodes[s.z..])) == s.slots[s.p].value.elm
  {
  }

  /** `addVnodes`: the new nodes that are left go in front of the finished suffix. */
  method AddRest(newCh: array<VNode>, dom: Dom, h0: int, y: int,
                 ghost old0: seq<VNode>, ghost new0: seq<VNode>, ghost fresh0: Elm, ghost s0: State)
    returns (ghost s: State)
    requires Inputs(old0, new0, fresh0) && Good(old0, new0, fresh0, s0) && s0.p == s0.q
    requires s0.nodes == newCh[..] && s0.h == h0 && s0.z == y + 1 && s0.children == dom.children
    requires s0.nextElm == dom.nextElm
    modifies newCh, dom
    ensures Good(old0, new0, fresh0, s) && s.h == s.z == y + 1 && s.p == s.q
    ensures s.nodes == newCh[..] && s.children == dom.children && s.nextElm == dom.nextElm && s.source == s0.source
  {
    hide Inputs, Inv, KeyedOk, SameVnode, InsertBefore;
    GoodBounds(old0, new0, fresh0, s0);
    s := s0;
    var ref := if y + 1 < newCh.Length then Some(ElmOf(newCh[y + 1])) else None;
    var h := h0;
    while h <= y
      invariant h0 <= h <= y + 1 <= newCh.Length
      invariant Good(old0, new0, fresh0, s) && s.p == s.q && s.h == h && s.z == y + 1
      invariant s.nodes == newCh[..] && s.children == dom.children && s.nextElm == dom.nextElm
      invariant s.nodes[y + 1..] == s0.nodes[y + 1..] && s.source == s0.source
    {
      GoodBounds(old0, new0, fresh0, s);
      SuffixHead(s, y + 1);
      assert y + 1 < newCh.Length ==> s.nodes[y + 1] == s.nodes[y + 1..][0] == s0.nodes[y + 1..][0] == s0.nodes[y + 1];
      NoneLeft(old0, new0, fresh0, s);
      ghost var s1 := StepCreate(old0, new0, fresh0, s, ref);
      CreateElm(newCh, dom, h, ref, s);
      s := s1;
      h := h + 1;
    }
    GoodBounds(old0, new0, fresh0, s);
  }

  lemma SuffixHead(s: State, z: nat)
    requires s.p == s.q <= |s.slots| && z <= |s.nodes|
    ensures Head(Live(s.slots, s.p, s.q) + Elms(s.nodes[z..])) == if z < |s.nodes| then Some(ElmOf(s.nodes[z]))
      else None
  {
  }

  lemma NoneLeft(old0: seq<VNode>, new0: seq<VNode>, fresh0: Elm, s: State)
    requires Inputs(old0, new0, fresh0) && Good(old0, new0, fresh0, s) && s.p == s.q && s.h < s.z
    ensures new0[s.h].key.Named? ==> forall i :: 0 <= i < |old0| ==> !SameVnode(old0[i], new0[s.h])
  {
    hide SameVnode, KeyedOk, Layout, Tidy, DistinctKeys;
    if new0[s.h].key.Named? {
      NoMatchInEmptyWindow(old0, new0, s);
    }
  }

  /** `removeVnodes`: the elements still in the window leave the child list. */
  method RemoveRest(oldCh: array<Option<VNode>>, dom: Dom, p: int, m: int, ghost a: seq<Elm>, ghost c: seq<Elm>)
    requires 0 <= p <= m + 1 <= oldCh.Length
    requires forall i :: p <= i <= m && oldCh[i].Some? ==> oldCh[i].value.elm.Some?
    requires dom.children == a + Live(oldCh[..], p, m + 1) + c && NoDup(dom.children)
    modifies dom
    ensures dom.children == a + c && NoDup(dom.children)
  {
    hide Without, NoDup;
    var k := p;
    while k <= m
      invariant p <= k <= m + 1
      invariant dom.children == a + Live(oldCh[..], k, m + 1) + c && NoDup(dom.children)
    {
      if oldCh[k].Some? {
        ghost var w := Live(oldCh[..], k + 1, m + 1);
        ghost var e := oldCh[k].value.elm.value;
        RemoveFirst(dom.children, a, e, w, c);
        dom.Remove(oldCh[k].value.elm.value);
      } else {
        assert Live(oldCh[..], k, m + 1) == [] + Live(oldCh[..], k + 1, m + 1) == Live(oldCh[..], k + 1, m + 1);
      }
      k := k + 1;
    }
  }

  lemma RemoveFirst(s: seq<Elm>, a: seq<Elm>, e: Elm, w: seq<Elm>, c: seq<Elm>)
    requires s == a + ([e] + w) + c && NoDup(s)
    ensures Without(s, e) == a + w + c && NoDup(a + w + c)
  {
    assert s == a + [e] + (w + c);
    WithoutMiddle(a, e, w + c);
    NoDupParts(a, e, w + c);
    assert a + (w + c) == a + w + c;
  }

  /**
   The rendering of the new list: every node has an element, reused from a matching old node
   or created now, and keyed nodes are reused whenever that is possible.
   */
  ghost predicate Rendered(old0: seq<VNode>, new0: seq<VNode>, fresh0: Elm, nodes: seq<VNode>)
    requires |nodes| == |new0|
  {
    && (forall j :: 0 <= j < |new0| ==> nodes[j].elm.Some? && nodes[j].(elm := new0[j].elm) == new0[j])
    && (forall j :: 0 <= j < |new0| ==>
      || nodes[j].elm.value >= fresh0
      || exists i :: 0 <= i < |old0| && SameVnode(old0[i], new0[j]) && nodes[j].elm == old0[i].elm)
    && (forall i, j :: 0 <= i < |old0| && 0 <= j < |new0| && new0[j].key.Named? && SameVnode(old0[i], new0[j]) ==>
      nodes[j].elm == old0[i].elm)
  }

  lemma FinalRendering(old0: seq<VNode>, new0: seq<VNode>, fresh0: Elm, s: State)
    requires Inputs(old0, new0, fresh0) && Good(old0, new0, fresh0, s) && s.h == s.z
    ensures Rendered(old0, new0, fresh0, s.nodes)
  {
    hide SameVnode, Layout, Tidy, DistinctKeys;
    forall j: nat | j < |new0|
      ensures s.nodes[j].elm.Some?
      ensures s.nodes[j].elm.value >= fresh0
        || exists i :: 0 <= i < |old0| && SameVnode(old0[i], new0[j]) && s.nodes[j].elm == old0[i].elm
    {
      assert Finished(s, j);
      if j in s.source {
        var i := s.source[j];
        assert 0 <= i < |old0| && SameVnode(old0[i], new0[j]) && s.nodes[j].elm == old0[i].elm;
      }
    }
    forall i: nat, j: nat | i < |old0| && j < |new0| && new0[j].key.Named? && SameVnode(old0[i], new0[j])
      ensures s.nodes[j].elm == old0[i].elm
    {
      assert Finished(s, j);
    }
  }

  lemma FinalElms(old0: seq<VNode>, new0: seq<VNode>, fresh0: Elm, s: State)
    requires Good(old0, new0, fresh0, s) && s.h == s.z
    ensures TakenElms(old0, fresh0, s.nodes, s.source, 0, |s.nodes|)
  {
    hide SameVnode, Layout, Tidy, KeyedOk;
    assert forall j: nat :: j < |s.nodes| ==> Finished(s, j);
  }

  /**
   `updateChildren`.  With unique keys it either renders the new list, leaving exactly its
   elements as children, in order; or it throws.  It throws exactly if the walk over both lists
   looks up a key that names a property every object inherits and no old node has.
   */
  method UpdateChildren(oldCh: array<Option<VNode>>, newCh: array<VNode>, dom: Dom,
                        ghost old0: seq<VNode>, ghost new0: seq<VNode>) returns (r: Outcome)
    requires |old0| == oldCh.Length && forall i :: 0 <= i < |old0| ==> oldCh[i] == Some(old0[i])
    requires new0 == newCh[..] && DistinctKeys(old0) && DistinctKeys(new0)
    requires dom.Valid() && dom.children == Elms(old0) && OldRendered(old0, dom.nextElm)
    modifies oldCh, newCh, dom
    ensures r == Done ==>
      && Rendered(old0, new0, old(dom.nextElm), newCh[..])
      && dom.children == Elms(newCh[..]) && NoDup(dom.children)
    ensures r == Thrown <==> Meets(old0, new0, Place(old(oldCh[..]), 0, |old0|, 0, |new0|))
    ensures r == Thrown ==> exists j :: 0 <= j < |new0| && Fatal(old0, new0[j])
    ensures r == Done ==>
      || (forall j :: 0 <= j < |new0| ==> !Bad(old0, new0[j]))
      || (forall i :: 0 <= i < |old0| ==> !Unmatched(old0[i], new0))
    ensures r == Done ==> FirstMovesRight(old0, new0, old(dom.nextElm), newCh[..])
    ensures r == Done ==>
      TakenElms(old0, old(dom.nextElm), newCh[..], Matching(old0, new0, AllOf(old0), 0, |new0|), 0, |new0|)
  {
    hide Matching, LeftOf, AllOf;
    hide FirstMovesRight, Takes, Recorded, SearchRecorded, TakenElms;
    hide Inv, KeyedOk, SameVnode, TableFits, Rendered, OldRendered, DistinctKeys, BadName, NoBadFinished, Meets, Fatal,
      EndMove, SearchMove;
    ghost var fresh0 := dom.nextElm;
    var p, m, h, y := 0, oldCh.Length - 1, 0, newCh.Length - 1;
    var table: Option<map<string, nat>> := None;
    ghost var s := State(oldCh[..], newCh[..], 0, oldCh.Length, 0, newCh.Length, dom.children, dom.nextElm, map[],
      map[]);
    ghost var start := PlaceOf(s);
    StartGood(old0, new0, fresh0, s);
    while p <= m && h <= y
      invariant Inputs(old0, new0, fresh0) && Good(old0, new0, fresh0, s) && Holds(s, oldCh, newCh, dom, p, m, h, y)
      invariant TableFits(old0, table, s) && p <= m + 1 && h <= y + 1 && NoBadFinished(old0, new0, s)
      invariant s.q <= |s.slots| && s.z <= |new0| && (Meets(old0, new0, PlaceOf(s)) <==> Meets(old0, new0, start))
      invariant s.source + Takes(new0, PlaceOf(s)) == Takes(new0, start)
      decreases (m - p) + (y - h)
    {
      var hit;
      ghost var s1;
      GoodBounds(old0, new0, fresh0, s);
      hit, p, m, h, y, s1 := Ends(oldCh, newCh, dom, p, m, h, y, old0, new0, fresh0, s);
      GoodBounds(old0, new0, fresh0, s1);
      WalkStep(old0, new0, s.nodes, PlaceOf(s));
      TableKeeps(old0, table, s, s1);
      ReusedIsNotBad(old0, new0, fresh0, s, s1);
      if hit {
        TakesStep(new0, s.nodes, PlaceOf(s), s.source, s1.source);
      }
      s := s1;
      if !hit {
        GoodBounds(old0, new0, fresh0, s);
        r, table, s1 := Middle(oldCh, newCh, dom, p, m, h, y, table, old0, new0, fresh0, s);
        if r == Thrown {
          return;
        }
        ReusedIsNotBad(old0, new0, fresh0, s, s1);
        TakesStep(new0, s.nodes, PlaceOf(s), s.source, s1.source);
        s := s1;
        h := h + 1;
      }
    }
    GoodBounds(old0, new0, fresh0, s);
    WalkEnds(old0, new0, PlaceOf(s));
    assert s.source == Takes(new0, start);
    WhenDone(old0, new0, fresh0, s);
    if p > m {
      s := AddRest(newCh, dom, h, y, old0, new0, fresh0, s);
      NothingLeft(old0, new0, fresh0, s);
    } else {
      RenderedElms(old0, new0, fresh0, s);
      FinalLayout(old0, new0, fresh0, s);
      RemoveRest(oldCh, dom, p, m, Elms(s.nodes[..s.h]), Elms(s.nodes[s.z..]));
    }
    FinalRendering(old0, new0, fresh0, s);
    FinalElms(old0, new0, fresh0, s);
    FirstMoves(old0, new0, fresh0, s.nodes, start);
    StartIsMatching(old0, new0, start);
    ElmsJoin(s.nodes, s.h);
    r := Done;
  }

  /** The walk does not depend on the elements that new nodes have received meanwhile. */
  lemma WalkStep(old0: seq<VNode>, new0: seq<VNode>, nodes: seq<VNode>, w: Place)
    requires Open(w, nodes) && |nodes| == |new0| && forall j :: 0 <= j < |new0| ==>
      nodes[j].(elm := new0[j].elm) == new0[j]
    ensures (Meets(old0, new0, w) <==>
             (match EndMove(nodes, w)
              case Some(next) => Meets(old0, new0, next)
              case None => Fatal(old0, new0[w.h]) || Meets(old0, new0, SearchMove(nodes, w))))
  {
    hide Fatal, EndMove, SearchMove, SameVnode;
    EndSame(new0, nodes, w);
    SearchSame(new0, nodes, w);
  }

  lemma EndSame(new0: seq<VNode>, nodes: seq<VNode>, w: Place)
    requires Open(w, nodes) && |nodes| == |new0| && forall j :: 0 <= j < |new0| ==>
      nodes[j].(elm := new0[j].elm) == new0[j]
    ensures EndMove(nodes, w) == EndMove(new0, w)
  {
    SameNodes(new0[w.h], nodes[w.h]);
    SameNodes(new0[w.z - 1], nodes[w.z - 1]);
    hide SameVnode;
  }

  lemma SearchSame(new0: seq<VNode>, nodes: seq<VNode>, w: Place)
    requires Open(w, nodes) && |nodes| == |new0| && nodes[w.h].(elm := new0[w.h].elm) == new0[w.h]
    ensures SearchMove(nodes, w) == SearchMove(new0, w)
  {
    ReusedSame(new0, nodes, w);
    hide Reused;
  }

  lemma ReusedSame(new0: seq<VNode>, nodes: seq<VNode>, w: Place)
    requires Open(w, nodes) && |nodes| == |new0| && nodes[w.h].(elm := new0[w.h].elm) == new0[w.h]
    ensures Reused(w.slots, w.p, w.q, nodes[w.h]) == Reused(w.slots, w.p, w.q, new0[w.h])
  {
    SameNodes(new0[w.h], nodes[w.h]);
    hide SameVnode, Candidate;
    CandidateSame(w.slots, w.p, w.q, new0[w.h], nodes[w.h]);
    CandidateSame(w.slots, w.p, w.q - 1, new0[w.h], nodes[w.h]);
  }

  lemma SameNodes(v: VNode, node: VNode)
    requires node.(elm := v.elm) == v
    ensures forall t :: SameVnode(t, node) <==> SameVnode(t, v)
    ensures forall t :: Candidate(t, node) <==> Candidate(t, v)
  {
  }

  lemma {:induction false} CandidateSame(slots: seq<Option<VNode>>, lo: nat, hi: nat, v: VNode, node: VNode)
    requires hi <= |slots| && forall t :: Candidate(t, node) <==> Candidate(t, v)
    ensures FirstCandidate(slots, lo, hi, node) == FirstCandidate(slots, lo, hi, v)
    decreases hi - lo
  {
    hide Candidate;
    if lo < hi {
      CandidateSame(slots, lo + 1, hi, v, node);
    }
  }

  lemma WalkEnds(old0: seq<VNode>, new0: seq<VNode>, w: Place)
    requires w.q <= |w.slots| && w.z <= |new0| && !Open(w, new0)
    ensures !Meets(old0, new0, w) && Takes(new0, w) == map[]
  {
  }

  /** No new node is rendered with old node t. */
  ghost predicate Unmatched(t: VNode, new0: seq<VNode>) {
    forall j :: 0 <= j < |new0| ==> !SameVnode(t, new0[j])
  }

  /** The loop ends with all old nodes reused, or without having met a bad key. */
  lemma WhenDone(old0: seq<VNode>, new0: seq<VNode>, fresh0: Elm, s: State)
    requires Good(old0, new0, fresh0, s) && NoBadFinished(old0, new0, s) && (s.p == s.q || s.h == s.z)
    ensures s.p == s.q ==> forall i :: 0 <= i < |old0| ==> !Unmatched(old0[i], new0)
    ensures s.h == s.z ==> forall j :: 0 <= j < |new0| ==> !Bad(old0, new0[j])
  {
    hide SameVnode, Layout, Tidy, KeyedOk, BadName;
    if s.p == s.q {
      forall i: nat | i < |old0|
        ensures !Unmatched(old0[i], new0)
      {
        assert Consumed(s, i);
        assert SameVnode(old0[s.source[s.taken[i]]], new0[s.taken[i]]);
      }
    }
    if s.h == s.z {
      forall j: nat | j < |new0|
        ensures !Bad(old0, new0[j])
      {
        assert Finished(s, j);
      }
    }
  }

  lemma StartGood(old0: seq<VNode>, new0: seq<VNode>, fresh0: Elm, s: State)
    requires OldRendered(old0, fresh0) && DistinctKeys(old0) && DistinctKeys(new0)
    requires |s.slots| == |old0| && forall i :: 0 <= i < |old0| ==> s.slots[i] == Some(old0[i])
    requires s == State(s.slots, new0, 0, |old0|, 0, |new0|, Elms(old0), fresh0, map[], map[])
    requires Tidy(Elms(old0), fresh0)
    ensures Inputs(old0, new0, fresh0) && Good(old0, new0, fresh0, s) && TableFits(old0, None, s)
    ensures NoBadFinished(old0, new0, s)
  {
    hide SameVnode, DistinctKeys, OldRendered;
    LiveAll(old0, s.slots, 0);
    assert old0[0..] == old0;
    assert Elms(s.nodes[..0]) + Elms(old0) + Elms(s.nodes[|new0|..]) == Elms(old0);
  }

  lemma NothingLeft(old0: seq<VNode>, new0: seq<VNode>, fresh0: Elm, s: State)
    requires Good(old0, new0, fresh0, s) && s.p == s.q
    ensures s.children == Elms(s.nodes[..s.h]) + Elms(s.nodes[s.z..]) && NoDup(s.children)
  {
  }

  lemma FinalLayout(old0: seq<VNode>, new0: seq<VNode>, fresh0: Elm, s: State)
    requires Good(old0, new0, fresh0, s)
    ensures s.children == Elms(s.nodes[..s.h]) + Live(s.slots, s.p, s.q) + Elms(s.nodes[s.z..]) && NoDup(s.children)
  {
  }

  lemma ElmsJoin(nodes: seq<VNode>, h: nat)
    requires h <= |nodes|
    ensures Elms(nodes[..h]) + Elms(nodes[h..]) == Elms(nodes)
  {
  }

  /** Replacing a child keyed "a" by one keyed "constructor" makes the diff throw. */
  method ConstructorKeyThrows(dom: Dom) returns (r: Outcome)
    requires dom.Valid() && dom.children == [0]
    modifies dom
    ensures r == Thrown
  {
    var a := VNode(Named(false, "a"), 0, false, false, "li", false, true, "", Some(0));
    var b := VNode(Named(false, "constructor"), 0, false, false, "li", false, true, "", None);
    var oldCh, newCh := new Option<VNode>[1](_ => Some(a)), new VNode[1](_ => b);
    assert newCh[..] == [b];
    assert Elms([a]) == [0] && 0 in dom.children;
    InheritedConstructor();
    assert "a"[0] != "constructor"[0];
    assert Bad([a], [b][0]) && Unmatched([a][0], [b]);
    r := UpdateChildren(oldCh, newCh, dom, [a], [b]);
  }

  /** A node without data. */
  function Plain(key: Key, factory: int, placeholder: bool, tag: string): VNode {
    VNode(key, factory, false, placeholder, tag, placeholder, false, "", None)
  }

  /**
   A placeholder of an async component matches the component's node that replaces it, but not the
   other way round.  So the search, which has the new node first, misses it away from the ends:
   the node is created although the placeholder matches, and the placeholder keeps the old window
   open until the key "constructor" is looked up.  Without an old node for that key the diff
   throws, although every old node matches a new one.
   */
  lemma PlaceholderIsMissed(a: VNode, p: VNode, b: VNode, n: VNode, c: VNode)
    requires a == Plain(Named(false, "a"), 0, false, "li") && b == Plain(Named(false, "b"), 0, false, "li")
    requires p == Plain(Undefined, 7, true, "") && n == Plain(Undefined, 7, false, "div")
    requires c == Plain(Named(false, "constructor"), 0, false, "li")
    ensures SameVnode(p, n) && !SameVnode(n, p) && !Unmatched(a, [n, a, b, c]) && !Unmatched(p, [n, a, b, c])
    ensures !Unmatched(b, [n, a, b, c])
    ensures Meets([a, p, b], [n, a, b, c], Place([Some(a), Some(p), Some(b)], 0, 3, 0, 4))
  {
    var slots, nodes := [Some(a), Some(p), Some(b)], [n, a, b, c];
    assert "a"[0] != "constructor"[0] && "a"[0] != "b"[0] && "b"[0] != "constructor"[0];
    assert SameVnode(a, nodes[1]) && SameVnode(p, nodes[0]) && SameVnode(b, nodes[2]);
    assert !SameVnode(a, n) && !SameVnode(a, c) && !SameVnode(b, n) && !SameVnode(b, c) && !SameVnode(p, b)
      && !SameVnode(p, c);
    assert !Candidate(a, n) && !Candidate(p, n);
    InheritedConstructor();
    hide SameVnode, Candidate, INHERITED;
    FirstCandidateNone(slots, 0, 2, n);
    var w0 := Place(slots, 0, 3, 0, 4);
    var w1, w2, w3 := w0.(h := 1), Place(slots, 1, 3, 2, 4), Place(slots, 1, 2, 3, 4);
    assert EndMove(nodes, w0) == None && SearchMove(nodes, w0) == w1;
    assert EndMove(nodes, w1) == Some(w2) && EndMove(nodes, w2) == Some(w3) && EndMove(nodes, w3) == None;
    assert Fatal([a, p, b], nodes[3]);
    assert Meets([a, p, b], nodes, w3);
    assert Meets([a, p, b], nodes, w2);
    assert Meets([a, p, b], nodes, w1);
  }

  lemma InheritedConstructor()
    ensures "constructor" in INHERITED
  {
  }
}
