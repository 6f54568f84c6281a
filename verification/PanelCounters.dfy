/**
 Reading Xray's counters: every counter is assigned to the entry of its tag or user, and the
 entries are handed on in any order.
 */
module PanelCounters {
  import opened Options
  import opened PanelModel
  import opened PanelStore
  import opened PanelTraffic
  import opened PanelTickLaws

  /** A counter by its parsed name. */
  datatype Counter =
    | OfTag(isInbound: bool, tag: string, isDown: bool, value: int)
    | OfUser(email: string, isDown: bool, value: int)
    | Unmatched

  /** The last value reported for a user and direction, 0 if there is none. */
  function UserValue(counters: seq<Counter>, email: string, isDown: bool): int {
    if counters == [] then 0
    else
      var c := counters[|counters| - 1];
      if c.OfUser? && c.email == email && c.isDown == isDown then c.value
      else UserValue(counters[..|counters| - 1], email, isDown)
  }

  predicate HasUser(counters: seq<Counter>, email: string) {
    exists k :: 0 <= k < |counters| && counters[k].OfUser? && counters[k].email == email
  }

  function TagValue(counters: seq<Counter>, tag: string, isDown: bool): int {
    if counters == [] then 0
    else
      var c := counters[|counters| - 1];
      if c.OfTag? && c.tag == tag && c.isDown == isDown then c.value
      else TagValue(counters[..|counters| - 1], tag, isDown)
  }

  /** The direction of the first counter with the tag: an inbound and an outbound share one entry. */
  function FirstIsInbound(counters: seq<Counter>, tag: string): Option<bool> {
    if counters == [] then None
    else
      var before, c := FirstIsInbound(counters[..|counters| - 1], tag), counters[|counters| - 1];
      if before.None? && c.OfTag? && c.tag == tag then Some(c.isInbound) else before
  }

  ghost predicate UsersRead(counters: seq<Counter>, m: map<string, Usage>) {
    forall e: string ::
      && (e in m <==> HasUser(counters, e))
      && (e in m ==> m[e] == Usage(e, UserValue(counters, e, false), UserValue(counters, e, true)))
      && (e !in m ==> UserValue(counters, e, false) == 0 && UserValue(counters, e, true) == 0)
  }

  ghost predicate TagsRead(counters: seq<Counter>, m: map<string, Traffic>) {
    forall t: string ::
      && (t in m <==> t != "api" && FirstIsInbound(counters, t).Some?)
      && (t in m ==>
            var up, down := TagValue(counters, t, false), TagValue(counters, t, true);
            m[t] == Traffic(FirstIsInbound(counters, t).value, t, up, down))
      && (t != "api" && t !in m ==> TagValue(counters, t, false) == 0 && TagValue(counters, t, true) == 0)
  }

  /** `processTraffic` */
  method ProcessTraffic(c: Counter, m: map<string, Traffic>) returns (r: map<string, Traffic>)
    requires c.OfTag?
    ensures (if c.tag == "api" then r == m
             else (var entry := if c.tag in m then m[c.tag] else Traffic(c.isInbound, c.tag, 0, 0);
                   r == m[c.tag := if c.isDown then entry.(down := c.value) else entry.(up := c.value)]))
  {
    r := m;
    if c.tag == "api" {
      return;
    }
    if c.tag !in r {
      r := r[c.tag := Traffic(c.isInbound, c.tag, 0, 0)];
    }
    if c.isDown {
      r := r[c.tag := r[c.tag].(down := c.value)];
    } else {
      r := r[c.tag := r[c.tag].(up := c.value)];
    }
  }

  /** `processClientTraffic` */
  method ProcessClientTraffic(c: Counter, m: map<string, Usage>) returns (r: map<string, Usage>)
    requires c.OfUser?
    ensures (var entry := if c.email in m then m[c.email] else Usage(c.email, 0, 0);
      r == m[c.email := if c.isDown then entry.(down := c.value) else entry.(up := c.value)])
  {
    r := m;
    if c.email !in r {
      r := r[c.email := Usage(c.email, 0, 0)];
    }
    if c.isDown {
      r := r[c.email := r[c.email].(down := c.value)];
    } else {
      r := r[c.email := r[c.email].(up := c.value)];
    }
  }

  lemma UserNext(counters: seq<Counter>, k: nat, e: string)
    requires k < |counters|
    ensures (var c := counters[k];
      && (HasUser(counters[..k + 1], e) <==> HasUser(counters[..k], e) || (c.OfUser? && c.email == e))
      && UserValue(counters[..k + 1], e, false) ==
         (if c.OfUser? && c.email == e && !c.isDown then c.value else UserValue(counters[..k], e, false))
      && UserValue(counters[..k + 1], e, true) ==
         (if c.OfUser? && c.email == e && c.isDown then c.value else UserValue(counters[..k], e, true)))
  {
    var next := counters[..k + 1];
    assert next[..k] == counters[..k] && next[k] == counters[k];
    if HasUser(counters[..k], e) {
      var j :| 0 <= j < k && counters[..k][j].OfUser? && counters[..k][j].email == e;
      assert next[j] == counters[..k][j];
    }
    if HasUser(next, e) {
      var j :| 0 <= j < k + 1 && next[j].OfUser? && next[j].email == e;
      if j < k {
        assert counters[..k][j] == next[j];
      }
    }
  }

  lemma TagNext(counters: seq<Counter>, k: nat, t: string)
    requires k < |counters|
    ensures (var c := counters[k];
      && FirstIsInbound(counters[..k + 1], t) ==
         (if FirstIsInbound(counters[..k], t).None? && c.OfTag? && c.tag == t then Some(c.isInbound)
          else FirstIsInbound(counters[..k], t))
      && TagValue(counters[..k + 1], t, false) ==
         (if c.OfTag? && c.tag == t && !c.isDown then c.value else TagValue(counters[..k], t, false))
      && TagValue(counters[..k + 1], t, true) ==
         (if c.OfTag? && c.tag == t && c.isDown then c.value else TagValue(counters[..k], t, true)))
  {
    var next := counters[..k + 1];
    assert next[..k] == counters[..k] && next[k] == counters[k];
  }

  /** The counter loop of `GetTraffic`. */
  method ReadCounters(counters: seq<Counter>) returns (tags: map<string, Traffic>, users: map<string, Usage>)
    ensures TagsRead(counters, tags) && UsersRead(counters, users)
  {
    hide UserValue, TagValue, FirstIsInbound, HasUser;
    tags, users := map[], map[];
    NothingRead();
    for k := 0 to |counters|
      invariant TagsRead(counters[..k], tags) && UsersRead(counters[..k], users)
    {
      ghost var tagsBefore, usersBefore := tags, users;
      match counters[k] {
        case OfTag(_, _, _, _) => tags := ProcessTraffic(counters[k], tags);
        case OfUser(_, _, _) => users := ProcessClientTraffic(counters[k], users);
        case Unmatched =>
      }
      ReadNext(counters, k, tagsBefore, tags, usersBefore, users);
    }
    assert counters[..|counters|] == counters;
  }

  lemma NothingRead()
    ensures TagsRead([], map[]) && UsersRead([], map[])
  {
  }

  lemma ReadNext(counters: seq<Counter>, k: nat, tags: map<string, Traffic>, tagsAfter: map<string, Traffic>,
                 users: map<string, Usage>, usersAfter: map<string, Usage>)
    requires k < |counters| && TagsRead(counters[..k], tags) && UsersRead(counters[..k], users)
    requires (var c := counters[k];
      if c.OfTag? && c.tag != "api" then
        (var entry := if c.tag in tags then tags[c.tag] else Traffic(c.isInbound, c.tag, 0, 0);
         tagsAfter == tags[c.tag := if c.isDown then entry.(down := c.value) else entry.(up := c.value)])
      else tagsAfter == tags)
    requires (var c := counters[k];
      if c.OfUser? then
        (var entry := if c.email in users then users[c.email] else Usage(c.email, 0, 0);
         usersAfter == users[c.email := if c.isDown then entry.(down := c.value) else entry.(up := c.value)])
      else usersAfter == users)
    ensures TagsRead(counters[..k + 1], tagsAfter) && UsersRead(counters[..k + 1], usersAfter)
  {
    hide UserValue, TagValue, FirstIsInbound, HasUser;
    forall t: string
      ensures (t in tagsAfter <==> t != "api" && FirstIsInbound(counters[..k + 1], t).Some?)
      ensures t in tagsAfter ==> tagsAfter[t] == Traffic(FirstIsInbound(counters[..k + 1], t).value, t,
        TagValue(counters[..k + 1], t, false), TagValue(counters[..k + 1], t, true))
      ensures t != "api" && t !in tagsAfter ==>
        TagValue(counters[..k + 1], t, false) == 0 && TagValue(counters[..k + 1], t, true) == 0
    {
      TagNext(counters, k, t);
    }
    forall e: string
      ensures (e in usersAfter <==> HasUser(counters[..k + 1], e))
      ensures e in usersAfter ==>
        usersAfter[e] == Usage(e, UserValue(counters[..k + 1], e, false), UserValue(counters[..k + 1], e, true))
      ensures e !in usersAfter ==>
        UserValue(counters[..k + 1], e, false) == 0 && UserValue(counters[..k + 1], e, true) == 0
    {
      UserNext(counters, k, e);
    }
  }

  /** `mapToSlice`: every entry once, in any order. */
  method MapToSlice<T>(m: map<string, T>) returns (entries: seq<T>, ghost keys: seq<string>)
    ensures |entries| == |m|
    ensures (forall key :: key in m ==> m[key] in entries)
    ensures (forall x :: x in entries ==> exists key :: key in m && m[key] == x)
    ensures |keys| == |entries| && forall k :: 0 <= k < |keys| ==> keys[k] in m && entries[k] == m[keys[k]]
    ensures forall i, j :: 0 <= i < j < |keys| ==> keys[i] != keys[j]
    ensures forall key :: key in m ==> key in keys
  {
    entries, keys := [], [];
    var todo := m.Keys;
    while todo != {}
      invariant |keys| == |entries| == |m.Keys| - |todo| && todo <= m.Keys
      invariant forall k :: 0 <= k < |keys| ==> keys[k] in m && entries[k] == m[keys[k]] && keys[k] !in todo
      invariant forall i, j :: 0 <= i < j < |keys| ==> keys[i] != keys[j]
      invariant forall key :: key in m ==> key in keys || key in todo
    {
      var key :| key in todo;
      entries, keys := entries + [m[key]], keys + [key];
      todo := todo - {key};
    }
  }

  /** The slice offers every user's entry, whatever the order. */
  lemma {:induction false} SliceFinds(usages: seq<Usage>, e: string)
    requires forall i, j :: 0 <= i < j < |usages| ==> usages[i].email != usages[j].email
    ensures forall k :: 0 <= k < |usages| && usages[k].email == e ==> FirstUsage(usages, e) == Some(usages[k])
    ensures (forall k :: 0 <= k < |usages| ==> usages[k].email != e) ==> FirstUsage(usages, e) == None
  {
    if usages != [] {
      SliceFinds(usages[1..], e);
      assert usages == [usages[0]] + usages[1..];
      forall k | 0 <= k < |usages| && usages[k].email == e
        ensures FirstUsage(usages, e) == Some(usages[k])
      {
        if k > 0 {
          assert usages[1..][k - 1] == usages[k];
        }
      }
    }
  }

  /** The entries of all tags but api, each once: the direction seen first, and the last value of either direction. */
  ghost predicate Listed(counters: seq<Counter>, traffics: seq<Traffic>) {
    && (forall t :: t in traffics ==>
          t.tag != "api"
          && t.isInbound == (FirstIsInbound(counters, t.tag) == Some(true))
          && t.up == TagValue(counters, t.tag, false) && t.down == TagValue(counters, t.tag, true))
    && (forall tag: string :: tag != "api" && FirstIsInbound(counters, tag).Some? ==> HasEntry(traffics, tag))
    && (forall i, j :: 0 <= i < j < |traffics| ==> traffics[i].tag != traffics[j].tag)
  }

  predicate HasEntry(traffics: seq<Traffic>, tag: string) {
    exists i :: 0 <= i < |traffics| && traffics[i].tag == tag
  }

  /** `GetTraffic`: what accounting finds for a user is what Xray's counters say, in whatever order they are listed. */
  method GetTraffic(counters: seq<Counter>) returns (traffics: seq<Traffic>, usages: seq<Usage>)
    ensures forall e: string ::
      UsedUp(FirstUsage(usages, e)) == UserValue(counters, e, false)
        && UsedDown(FirstUsage(usages, e)) == UserValue(counters, e, true)
    ensures forall e: string :: FirstUsage(usages, e).Some? <==> HasUser(counters, e)
    ensures Listed(counters, traffics)
  {
    hide UserValue, TagValue, FirstIsInbound, HasUser, FirstUsage, HasEntry;
    var tags, users := ReadCounters(counters);
    ghost var tagKeys, userKeys;
    traffics, tagKeys := MapToSlice(tags);
    usages, userKeys := MapToSlice(users);
    assert forall k :: 0 <= k < |traffics| ==> traffics[k].tag == tagKeys[k];
    forall tag: string | tag != "api" && FirstIsInbound(counters, tag).Some?
      ensures HasEntry(traffics, tag)
    {
      TagListed(traffics, tagKeys, tag);
    }
    assert forall k :: 0 <= k < |usages| ==> usages[k].email == userKeys[k];
    forall e: string
      ensures FirstUsage(usages, e) == if e in users then Some(users[e]) else None
    {
      UserListed(usages, userKeys, users, e);
    }
  }

  lemma TagListed(traffics: seq<Traffic>, keys: seq<string>, tag: string)
    requires |keys| == |traffics| && tag in keys && forall k :: 0 <= k < |keys| ==> traffics[k].tag == keys[k]
    ensures HasEntry(traffics, tag)
  {
    var k :| 0 <= k < |keys| && keys[k] == tag;
    assert traffics[k].tag == tag;
  }

  lemma UserListed(usages: seq<Usage>, keys: seq<string>, users: map<string, Usage>, e: string)
    requires |keys| == |usages| && forall k :: 0 <= k < |keys| ==> usages[k].email == keys[k]
    requires forall k :: 0 <= k < |keys| ==> keys[k] in users && usages[k] == users[keys[k]]
    requires forall i, j :: 0 <= i < j < |keys| ==> keys[i] != keys[j]
    requires e in users ==> e in keys
    ensures FirstUsage(usages, e) == if e in users then Some(users[e]) else None
  {
    hide FirstUsage;
    SliceFinds(usages, e);
    if e in users {
      var k :| 0 <= k < |keys| && keys[k] == e;
      assert usages[k].email == e;
    }
  }

  /** With one counter per user and direction, that counter is the user's traffic. */
  lemma {:induction false} OnlyCounterCounts(counters: seq<Counter>, k: nat)
    requires k < |counters| && counters[k].OfUser?
    requires forall j :: 0 <= j < |counters| && j != k && counters[j].OfUser? ==>
      counters[j].email != counters[k].email || counters[j].isDown != counters[k].isDown
    ensures UserValue(counters, counters[k].email, counters[k].isDown) == counters[k].value
    decreases |counters|
  {
    var n := |counters| - 1;
    if k < n {
      assert counters[..n][k] == counters[k];
      OnlyCounterCounts(counters[..n], k);
    }
  }

  // ---- inbounds get their own traffic, or not ----

  /** What an inbound itself reported last, 0 if nothing. */
  function InboundValue(counters: seq<Counter>, tag: string, isDown: bool): int {
    if counters == [] then 0
    else
      var c := counters[|counters| - 1];
      if c.OfTag? && c.isInbound && c.tag == tag && c.isDown == isDown then c.value
      else InboundValue(counters[..|counters| - 1], tag, isDown)
  }

  /** The last counter with the tag and direction, of an inbound or an outbound. */
  function LastOf(counters: seq<Counter>, tag: string, isDown: bool): Option<Counter> {
    if counters == [] then None
    else
      var c := counters[|counters| - 1];
      if c.OfTag? && c.tag == tag && c.isDown == isDown then Some(c)
      else LastOf(counters[..|counters| - 1], tag, isDown)
  }

  /**
     The first counter of the tag and the last one of the direction are the inbound's, or those of an
     outbound happen to make no difference.  The tag api is never accounted.
   */
  predicate OwnTraffic(counters: seq<Counter>, tag: string, isDown: bool) {
    if tag == "api" || FirstIsInbound(counters, tag) == Some(false) then InboundValue(counters, tag, isDown) == 0
    else
      var last := LastOf(counters, tag, isDown);
      last.None? || (last.value.OfTag?
        && (last.value.isInbound || last.value.value == InboundValue(counters, tag, isDown)))
  }

  lemma {:induction false} LastIsTagValue(counters: seq<Counter>, tag: string, isDown: bool)
    ensures (match LastOf(counters, tag, isDown)
             case None => TagValue(counters, tag, isDown) == 0 && InboundValue(counters, tag, isDown) == 0
             case Some(c) =>
               && c.OfTag? && c.tag == tag && c.value == TagValue(counters, tag, isDown)
               && (c.isInbound ==> InboundValue(counters, tag, isDown) == c.value))
    decreases |counters|
  {
    if counters != [] {
      LastIsTagValue(counters[..|counters| - 1], tag, isDown);
    }
  }

  lemma {:induction false} NoFirstNoValue(counters: seq<Counter>, tag: string, isDown: bool)
    requires FirstIsInbound(counters, tag).None?
    ensures LastOf(counters, tag, isDown).None?
    decreases |counters|
  {
    if counters != [] {
      NoFirstNoValue(counters[..|counters| - 1], tag, isDown);
    }
  }

  /** With one entry for each tag, the sum over a tag is the one entry's amount. */
  lemma {:induction false} SumIsEntry(traffics: seq<Traffic>, tag: string, isDown: bool)
    requires forall i, j :: 0 <= i < j < |traffics| ==> traffics[i].tag != traffics[j].tag
    ensures forall k :: 0 <= k < |traffics| && traffics[k].tag == tag ==>
      TagSum(traffics, tag, isDown) == if traffics[k].isInbound then Amount(traffics[k], isDown) else 0
    ensures !HasEntry(traffics, tag) ==> TagSum(traffics, tag, isDown) == 0
    decreases |traffics|
  {
    if traffics != [] {
      var n := |traffics| - 1;
      SumIsEntry(traffics[..n], tag, isDown);
      if traffics[n].tag == tag {
        assert !HasEntry(traffics[..n], tag);
      } else {
        assert HasEntry(traffics[..n], tag) ==> HasEntry(traffics, tag) by {
          if i :| 0 <= i < n && traffics[..n][i].tag == tag { assert traffics[i].tag == tag; }
        }
        forall k | 0 <= k < |traffics| && traffics[k].tag == tag
          ensures TagSum(traffics, tag, isDown) == if traffics[k].isInbound then Amount(traffics[k], isDown) else 0
        {
          assert traffics[..n][k] == traffics[k];
        }
      }
    }
  }

  /** What accounting adds to the inbounds of a tag. */
  lemma SumOfTag(counters: seq<Counter>, traffics: seq<Traffic>, tag: string, isDown: bool)
    requires Listed(counters, traffics)
    ensures TagSum(traffics, tag, isDown) ==
      if tag != "api" && FirstIsInbound(counters, tag) == Some(true) then TagValue(counters, tag, isDown) else 0
  {
    hide TagSum, TagValue, FirstIsInbound;
    SumIsEntry(traffics, tag, isDown);
    if HasEntry(traffics, tag) {
      var k :| 0 <= k < |traffics| && traffics[k].tag == tag;
      assert traffics[k] in traffics;
    }
  }

  /**
     An inbound is charged with exactly what it reported itself if and only if the counters of its tag
     are its own, or those of an outbound make no difference.
   */
  lemma ChargedWithOwn(counters: seq<Counter>, traffics: seq<Traffic>, tag: string, isDown: bool)
    requires Listed(counters, traffics)
    ensures TagSum(traffics, tag, isDown) == InboundValue(counters, tag, isDown) <==> OwnTraffic(counters, tag, isDown)
  {
    hide TagSum, TagValue, FirstIsInbound, InboundValue, LastOf, Listed;
    SumOfTag(counters, traffics, tag, isDown);
    LastIsTagValue(counters, tag, isDown);
    if FirstIsInbound(counters, tag).None? {
      NoFirstNoValue(counters, tag, isDown);
      assert LastOf(counters, tag, isDown).None?;
    } else if tag != "api" && FirstIsInbound(counters, tag) == Some(true) {
      assert TagSum(traffics, tag, isDown) == TagValue(counters, tag, isDown);
      if LastOf(counters, tag, isDown).Some? {
        assert LastOf(counters, tag, isDown).value.value == TagValue(counters, tag, isDown);
      }
    } else {
      var first := FirstIsInbound(counters, tag).value;
      assert tag == "api" || !first;
      assert FirstIsInbound(counters, tag) == Some(first);
    }
  }

  /** No outbound reports under the tag. */
  predicate OnlyInbound(counters: seq<Counter>, tag: string) {
    forall k :: 0 <= k < |counters| && counters[k].OfTag? && counters[k].tag == tag ==> counters[k].isInbound
  }

  /** A tag that no outbound shares is charged right, in any order of the counters. */
  lemma UnsharedIsOwn(counters: seq<Counter>, tag: string, isDown: bool)
    requires OnlyInbound(counters, tag) && tag != "api"
    ensures OwnTraffic(counters, tag, isDown)
  {
    UnsharedFirstAndLast(counters, tag, isDown);
  }

  lemma {:induction false} UnsharedFirstAndLast(counters: seq<Counter>, tag: string, isDown: bool)
    requires OnlyInbound(counters, tag)
    ensures FirstIsInbound(counters, tag) != Some(false)
    ensures LastOf(counters, tag, isDown).Some? ==>
      LastOf(counters, tag, isDown).value.OfTag? && LastOf(counters, tag, isDown).value.isInbound
    decreases |counters|
  {
    if counters != [] {
      var n := |counters| - 1;
      assert forall k :: 0 <= k < n ==> counters[..n][k] == counters[k];
      UnsharedFirstAndLast(counters[..n], tag, isDown);
    }
  }

  /** What the inbounds of a list reported together. */
  function ReportedBy(inbounds: seq<Inbound>, counters: seq<Counter>, isDown: bool): int {
    if inbounds == [] then 0
    else
      var n := |inbounds| - 1;
      ReportedBy(inbounds[..n], counters, isDown) + InboundValue(counters, inbounds[n].tag, isDown)
  }

  /**
     From Xray's counters to the table: if every inbound's counters are its own, each one grows by what
     it reported, and with distinct tags what the list delivered is what they reported together.
   */
  lemma CountersReachInbounds(counters: seq<Counter>, traffics: seq<Traffic>, inbounds: seq<Inbound>, isDown: bool)
    requires Listed(counters, traffics) && TagsApart(inbounds)
    requires forall i :: 0 <= i < |inbounds| ==> OwnTraffic(counters, inbounds[i].tag, isDown)
    ensures forall i :: 0 <= i < |inbounds| ==>
      (var after := Counted(inbounds, traffics)[i];
       (if isDown then after.down - inbounds[i].down else after.up - inbounds[i].up)
         == InboundValue(counters, inbounds[i].tag, isDown))
    ensures TotalOf(Counted(inbounds, traffics), isDown)
      == TotalOf(inbounds, isDown) + ReportedBy(inbounds, counters, isDown)
    ensures Delivered(inbounds, traffics, isDown) == ReportedBy(inbounds, counters, isDown)
  {
    hide TagSum, OwnTraffic, Listed, InboundValue, Delivered, TotalOf, ReportedBy;
    forall i | 0 <= i < |inbounds|
      ensures TagSum(traffics, inbounds[i].tag, isDown) == InboundValue(counters, inbounds[i].tag, isDown)
    {
      ChargedWithOwn(counters, traffics, inbounds[i].tag, isDown);
    }
    TotalReported(counters, traffics, inbounds, isDown);
    InboundTrafficConserved(inbounds, traffics, isDown);
  }

  /** The same from Xray's counters to the store after the tick, whatever calls fail that do not undo it. */
  lemma TickReachesInbounds(counters: seq<Counter>, traffics: seq<Traffic>, s: Store, usages: seq<Usage>, clock: Clock,
    fails: set<Stage>, isDown: bool)
    requires InboundUpdate !in fails && ClientLoad !in fails && InboundDisabling !in fails
    requires Listed(counters, traffics) && TagsApart(s.inbounds)
    requires forall i :: 0 <= i < |s.inbounds| ==> OwnTraffic(counters, s.inbounds[i].tag, isDown)
    ensures (var after := Outcome(s, traffics, usages, clock, fails).1.inbounds;
      && |after| == |s.inbounds|
      && (forall i :: 0 <= i < |after| ==>
            (if isDown then after[i].down - s.inbounds[i].down else after[i].up - s.inbounds[i].up)
              == InboundValue(counters, s.inbounds[i].tag, isDown))
      && TotalOf(after, isDown) == TotalOf(s.inbounds, isDown) + ReportedBy(s.inbounds, counters, isDown))
  {
    hide Outcome, OwnTraffic, Listed, InboundValue, Delivered, TotalOf, ReportedBy, TagSum;
    CountersReachInbounds(counters, traffics, s.inbounds, isDown);
    InboundsCharged(s, traffics, usages, clock, fails);
    TickTotals(s, traffics, usages, clock, fails, isDown);
  }

  lemma {:induction false} TotalReported(counters: seq<Counter>, traffics: seq<Traffic>, inbounds: seq<Inbound>,
    isDown: bool)
    requires forall i :: 0 <= i < |inbounds| ==>
      TagSum(traffics, inbounds[i].tag, isDown) == InboundValue(counters, inbounds[i].tag, isDown)
    ensures TotalOf(Counted(inbounds, traffics), isDown)
      == TotalOf(inbounds, isDown) + ReportedBy(inbounds, counters, isDown)
    decreases |inbounds|
  {
    hide TagSum, InboundValue;
    if inbounds != [] {
      var n := |inbounds| - 1;
      TotalReported(counters, traffics, inbounds[..n], isDown);
      LastCounted(inbounds, n, traffics, isDown);
    }
  }

  /** Shared tags are mixed either way: the inbound gets the outbound's traffic, or nothing. */
  lemma SharedTagMixes(tag: string, inboundUp: int, outboundUp: int)
    ensures (var own, other := OfTag(true, tag, false, inboundUp), OfTag(false, tag, false, outboundUp);
      && FirstIsInbound([own, other], tag) == Some(true) && TagValue([own, other], tag, false) == outboundUp
      && FirstIsInbound([other, own], tag) == Some(false))
  {
    var own, other := OfTag(true, tag, false, inboundUp), OfTag(false, tag, false, outboundUp);
    assert FirstIsInbound([], tag) == None;
    assert [own][..0] == [] && [other][..0] == [];
    assert FirstIsInbound([own], tag) == Some(true) && FirstIsInbound([other], tag) == Some(false);
    assert [own, other][..1] == [own] && [other, own][..1] == [other];
  }
}
