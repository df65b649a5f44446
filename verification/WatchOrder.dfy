/** When the two ways of computing deltas tell their events in the same order. */
module WatchOrder {
  import opened Octets
  import opened Ids
  import opened WatchLedger

  // --------------------------------------------------------------- the tale

  /** The changes told, in the order they are told. */
  function Tale(events: seq<Event>): (t: seq<Change>)
    ensures |t| == |events|
    ensures forall i :: 0 <= i < |t| ==> t[i] == ChangeOf(events[i])
  {
    seq(|events|, i requires 0 <= i < |events| => ChangeOf(events[i]))
  }

  lemma TaleAppend(a: seq<Event>, b: seq<Event>)
    ensures Tale(a + b) == Tale(a) + Tale(b)
  {
  }

  lemma {:induction false} TaleChanges(events: seq<Event>)
    ensures multiset(Tale(events)) == Changes(events)
  {
    hide ChangeOf;
    if events != [] {
      var init, last := events[..|events| - 1], events[|events| - 1];
      TaleChanges(init);
      assert Tale(events) == Tale(init) + [ChangeOf(last)];
    }
  }

  // -------------------------------------------------------------- the order

  function FirstCover(ranges: seq<Range>, u: Uid): (i: nat)
    ensures i <= |ranges|
    ensures forall k :: 0 <= k < i ==> !(ranges[k].lo <= u <= ranges[k].hi)
    ensures i < |ranges| ==> ranges[i].lo <= u <= ranges[i].hi
  {
    if ranges == [] || ranges[0].lo <= u <= ranges[0].hi then 0 else 1 + FirstCover(ranges[1..], u)
  }

  function FirstReport(changed: seq<seq<DataItem>>, u: Uid): (i: nat)
    ensures i <= |changed|
    ensures forall k :: 0 <= k < i ==> UidOf(changed[k]) != Some(u)
    ensures i < |changed| ==> UidOf(changed[i]) == Some(u)
  {
    if changed == [] || UidOf(changed[0]) == Some(u) then 0 else 1 + FirstReport(changed[1..], u)
  }

  /** How a path goes through the mailbox: by UID, or as an answer lists it. */
  datatype Walk = ByUid | ByAnswer(ranges: seq<Range>, changed: seq<seq<DataItem>>)

  function RemovalRank(w: Walk, u: Uid): nat {
    if w.ByUid? then 0 else FirstCover(w.ranges, u)
  }

  function ReportRank(w: Walk, u: Uid): nat {
    if w.ByUid? then u else FirstReport(w.changed, u)
  }

  /** Removals first, upwards within a range; then each message as it is
      reported, what it gained before what it lost. */
  predicate Before(w: Walk, c: Change, d: Change) {
    if c.Vanished? && d.Vanished? then
      RemovalRank(w, c.uid) < RemovalRank(w, d.uid) || (RemovalRank(w, c.uid) == RemovalRank(w, d.uid) && c.uid < d.uid)
    else if c.Vanished? || d.Vanished? then c.Vanished?
    else ReportRank(w, c.uid) < ReportRank(w, d.uid) || (c.uid == d.uid && c.Gained? && d.Lost?)
  }

  ghost predicate Ordered(w: Walk, t: seq<Change>) {
    forall i, j :: 0 <= i < j < |t| ==> Before(w, t[i], t[j])
  }

  lemma OrderedAppend(w: Walk, t: seq<Change>, more: seq<Change>)
    requires Ordered(w, t) && Ordered(w, more)
    requires forall c, d :: c in t && d in more ==> Before(w, c, d)
    ensures Ordered(w, t + more)
  {
    hide Before;
    var all := t + more;
    forall i, j | 0 <= i < j < |all| ensures Before(w, all[i], all[j]) {
      if i < |t| <= j {
        assert all[i] in t && all[j] in more;
      }
    }
  }

  lemma OrderedTail(w: Walk, t: seq<Change>)
    requires t != [] && Ordered(w, t)
    ensures Ordered(w, t[1..])
  {
    hide Before;
  }

  lemma SameFirst(w: Walk, s: seq<Change>, t: seq<Change>)
    requires s != [] && t != [] && Ordered(w, s) && Ordered(w, t) && multiset(s) == multiset(t)
    ensures s[0] == t[0]
  {
    hide Before;
    assert s[0] in multiset(t) && t[0] in multiset(s);
    var i :| 0 <= i < |t| && t[i] == s[0];
    var j :| 0 <= j < |s| && s[j] == t[0];
    if i > 0 {
      assert Before(w, t[0], t[i]);
      BeforeAsymmetric(w, t[0], s[0]);
    }
  }

  lemma BeforeAsymmetric(w: Walk, c: Change, d: Change)
    requires Before(w, c, d)
    ensures !Before(w, d, c) && c != d
  {
    hide RemovalRank, ReportRank;
  }

  /** The changes told, once each, have one order only. */
  lemma {:induction false} OrderedUnique(w: Walk, s: seq<Change>, t: seq<Change>)
    requires Ordered(w, s) && Ordered(w, t) && multiset(s) == multiset(t)
    ensures s == t
  {
    hide Ordered;
    assert |s| == |multiset(s)| == |multiset(t)| == |t|;
    if s != [] {
      SameFirst(w, s, t);
      OrderedTail(w, s);
      OrderedTail(w, t);
      MultisetRest(s, t);
      OrderedUnique(w, s[1..], t[1..]);
      assert s == [s[0]] + s[1..] && t == [t[0]] + t[1..];
    }
  }

  // ------------------------------------------------------ each path's order

  /** What one report adds to the tale. */
  function Added(l: Ledger, u: Uid, items: seq<DataItem>): seq<Event> {
    if u in l.shadow then FlagEvents(u, l.shadow[u], FlagsOf(items)) else [EnvelopeAdded(u, items)]
  }

  lemma AddedOrdered(w: Walk, l: Ledger, u: Uid, items: seq<DataItem>)
    ensures var more := Tale(Added(l, u, items));
            Ordered(w, more) && forall d :: d in more ==> d.uid == u && !d.Vanished?
  {
    hide Minus, FlagsOf, ReportRank, RemovalRank;
  }

  lemma AbsorbOrdered(w: Walk, l: Ledger, u: Uid, items: seq<DataItem>)
    requires Ordered(w, Tale(l.events))
    requires forall c :: c in Tale(l.events) ==> c.Vanished? || ReportRank(w, c.uid) < ReportRank(w, u)
    ensures var t := Tale(Absorb(l, u, items).events);
            Ordered(w, t) && forall c :: c in t ==> c in Tale(l.events) || (c.uid == u && !c.Vanished?)
  {
    hide Ordered, Tale, FlagEvents, FlagsOf, ReportRank, RemovalRank;
    var t, more := Tale(l.events), Tale(Added(l, u, items));
    TaleAppend(l.events, Added(l, u, items));
    AddedOrdered(w, l, u, items);
    forall c, d | c in t && d in more ensures Before(w, c, d) {
    }
    OrderedAppend(w, t, more);
  }

  /** A report that says nothing new tells nothing. */
  lemma AbsorbSilent(l: Ledger, u: Uid, items: seq<DataItem>)
    requires u in l.shadow && Set(l.shadow[u]) == Set(FlagsOf(items))
    ensures Absorb(l, u, items).events == l.events
  {
    var was, now := l.shadow[u], FlagsOf(items);
    EmptySet(Minus(now, was));
    EmptySet(Minus(was, now));
    assert Set(Minus(now, was)) == {} && Set(Minus(was, now)) == {};
  }

  lemma {:induction false} DropAllOrdered(w: Walk, l: Ledger, uids: seq<Uid>, k: nat)
    requires Ordered(w, Tale(l.events))
    requires forall c :: c in Tale(l.events) ==> c.Vanished? && RemovalRank(w, c.uid) < k
    requires forall u :: u in uids ==> RemovalRank(w, u) == k
    requires forall i, j :: 0 <= i < j < |uids| ==> uids[i] < uids[j]
    ensures var t := Tale(DropAll(l, uids).events);
            Ordered(w, t) && forall c :: c in t ==> c in Tale(l.events) || (c.Vanished? && c.uid in uids)
  {
    hide Ordered, Tale, RemovalRank;
    if uids != [] {
      var init, last := uids[..|uids| - 1], uids[|uids| - 1];
      DropAllOrdered(w, l, init, k);
      var l' := DropAll(l, init);
      var t := Tale(l'.events);
      TaleAppend(l'.events, [EnvelopeRemoved(last)]);
      TaleOne(w, EnvelopeRemoved(last));
      assert last in uids;
      forall c, d | c in t && d in [Vanished(last)] ensures Before(w, c, d) {
        if c !in Tale(l.events) {
          assert c.uid in init && c.uid in uids && c.uid < last;
        }
      }
      OrderedAppend(w, t, [Vanished(last)]);
    }
  }

  lemma TaleOne(w: Walk, e: Event)
    ensures Tale([e]) == [ChangeOf(e)] && Ordered(w, Tale([e]))
  {
  }

  lemma {:induction false} DropRangesOrdered(w: Walk, shadow: Shadow, n: nat)
    requires w.ByAnswer? && n <= |w.ranges|
    ensures var t := Tale(DropRanges(Ledger(shadow, []), w.ranges[..n]).events);
            Ordered(w, t) && forall c :: c in t ==> c.Vanished? && RemovalRank(w, c.uid) < n
  {
    hide Ordered, Tale, DropAll;
    if n == 0 {
      TaleNone(w);
    } else {
      var init, r := w.ranges[..n - 1], w.ranges[n - 1];
      assert w.ranges[..n][..n - 1] == init;
      DropRangesOrdered(w, shadow, n - 1);
      VanishedMeaning(shadow, init);
      var l := DropRanges(Ledger(shadow, []), init);
      var uids := Ascending(Within(l.shadow, r.lo, r.hi));
      forall u | u in uids ensures RemovalRank(w, u) == n - 1 {
        FirstCoverAt(w.ranges, n - 1, u);
      }
      DropAllOrdered(w, l, uids, n - 1);
    }
  }

  lemma FirstCoverAt(ranges: seq<Range>, k: nat, u: Uid)
    requires k < |ranges| && ranges[k].lo <= u <= ranges[k].hi && !Covered(ranges[..k], u)
    ensures FirstCover(ranges, u) == k
  {
    forall j | 0 <= j < k ensures !(ranges[j].lo <= u <= ranges[j].hi) {
      assert ranges[..k][j] == ranges[j];
    }
  }

  lemma TaleNone(w: Walk)
    ensures Tale([]) == [] && Ordered(w, [])
  {
  }

  lemma {:induction false} ReportedMeaning(changed: seq<seq<DataItem>>, n: nat, u: Uid)
    requires n <= |changed|
    ensures u in Reported(changed[..n]) <==> FirstReport(changed, u) < n
  {
    hide UidOf;
    if n > 0 {
      assert changed[..n][..n - 1] == changed[..n - 1];
      ReportedMeaning(changed, n - 1, u);
    }
  }

  /** The QRESYNC path after the first `n` reports. */
  function After(shadow: Shadow, w: Walk, n: nat): Ledger
    requires w.ByAnswer? && n <= |w.changed|
  {
    AbsorbFetches(DropRanges(Ledger(shadow, []), w.ranges), w.changed[..n])
  }

  lemma AfterProgress(shadow: Shadow, snapshot: Snapshot, w: Walk, n: nat)
    requires w.ByAnswer? && n <= |w.changed| && Truthful(shadow, snapshot, w.ranges, w.changed)
    ensures var old', new' := ViewOf(shadow), SnapshotView(snapshot);
            Progress(old', new', CoveredIn(old', w.ranges) + Reported(w.changed[..n]), After(shadow, w, n))
  {
    var old', new' := ViewOf(shadow), SnapshotView(snapshot);
    StartProgress(shadow, new');
    DropRangesProgress(old', new', Ledger(shadow, []), w.ranges);
    AbsorbFetchesProgress(old', new', CoveredIn(old', w.ranges), DropRanges(Ledger(shadow, []), w.ranges), w.changed[..n]);
  }

  lemma {:induction false} AbsorbFetchesOrdered(shadow: Shadow, snapshot: Snapshot, w: Walk, n: nat)
    requires w.ByAnswer? && n <= |w.changed| && Truthful(shadow, snapshot, w.ranges, w.changed)
    ensures var t := Tale(After(shadow, w, n).events);
            Ordered(w, t) && forall c :: c in t ==> c.Vanished? || ReportRank(w, c.uid) < n
  {
    hide Ordered, Tale, Absorb, DropRanges;
    if n == 0 {
      assert w.ranges[..|w.ranges|] == w.ranges;
      DropRangesOrdered(w, shadow, |w.ranges|);
    } else {
      var l, items := After(shadow, w, n - 1), w.changed[n - 1];
      AbsorbFetchesOrdered(shadow, snapshot, w, n - 1);
      assert w.changed[..n][..n - 1] == w.changed[..n - 1];
      assert items in w.changed;
      var u := UidOf(items).value;
      ReportedMeaning(w.changed, n - 1, u);
      if u in Reported(w.changed[..n - 1]) {
        ReportedAgain(shadow, snapshot, w, n - 1);
        AbsorbSilent(l, u, items);
      } else {
        AbsorbOrdered(w, l, u, items);
      }
    }
  }

  lemma ReportedAgain(shadow: Shadow, snapshot: Snapshot, w: Walk, n: nat)
    requires w.ByAnswer? && n < |w.changed| && Truthful(shadow, snapshot, w.ranges, w.changed)
    requires UidOf(w.changed[n]).Some? && UidOf(w.changed[n]).value in Reported(w.changed[..n])
    ensures var l, items := After(shadow, w, n), w.changed[n];
            UidOf(items).value in l.shadow && Set(l.shadow[UidOf(items).value]) == Set(FlagsOf(items))
  {
    hide Told, After, UidOf, FlagsOf;
    var old', new', items := ViewOf(shadow), SnapshotView(snapshot), w.changed[n];
    AfterProgress(shadow, snapshot, w, n);
    var u := UidOf(items).value;
    assert items in w.changed && Reports(new', items);
    assert SameAt(ViewOf(After(shadow, w, n).shadow), new', u);
  }

  lemma {:induction false} AbsorbSnapshotOrdered(l: Ledger, snapshot: Snapshot, uids: seq<Uid>)
    requires Ordered(ByUid, Tale(l.events)) && forall c :: c in Tale(l.events) ==> c.Vanished?
    requires forall u :: u in uids ==> u in snapshot
    requires forall i, j :: 0 <= i < j < |uids| ==> uids[i] < uids[j]
    ensures var t := Tale(AbsorbSnapshot(l, snapshot, uids).events);
            Ordered(ByUid, t) && forall c :: c in t ==> c.Vanished? || c.uid in uids
  {
    hide Ordered, Tale, Absorb;
    if uids != [] {
      var init, last := uids[..|uids| - 1], uids[|uids| - 1];
      AbsorbSnapshotOrdered(l, snapshot, init);
      AbsorbOrdered(ByUid, AbsorbSnapshot(l, snapshot, init), last, snapshot[last]);
      assert last in uids;
    }
  }

  lemma SnapshotOrdered(shadow: Shadow, snapshot: Snapshot)
    ensures Ordered(ByUid, Tale(SnapshotDeltas(Ledger(shadow, []), snapshot).events))
  {
    hide Ordered, Tale, AbsorbSnapshot, DropAll;
    var gone := Ascending(shadow.Keys - snapshot.Keys);
    TaleNone(ByUid);
    DropAllOrdered(ByUid, Ledger(shadow, []), gone, 0);
    AbsorbSnapshotOrdered(DropAll(Ledger(shadow, []), gone), snapshot, Ascending(snapshot.Keys));
  }

  lemma QresyncOrdered(shadow: Shadow, snapshot: Snapshot, ranges: seq<Range>, changed: seq<seq<DataItem>>)
    requires Truthful(shadow, snapshot, ranges, changed)
    ensures Ordered(ByAnswer(ranges, changed), Tale(QresyncDeltas(Ledger(shadow, []), ranges, changed).events))
  {
    hide Ordered, Tale;
    assert changed[..|changed|] == changed;
    AbsorbFetchesOrdered(shadow, snapshot, ByAnswer(ranges, changed), |changed|);
  }

  // --------------------------------------------------------- when they agree

  /** Of two known messages the answer names as gone, the lower is named no later. */
  ghost predicate RemovalsAscend(shadow: Shadow, ranges: seq<Range>) {
    forall u, v :: u in shadow && v in shadow && u < v && Covered(ranges, u) && Covered(ranges, v) ==>
      FirstCover(ranges, u) <= FirstCover(ranges, v)
  }

  /** Of two present messages that differ, the lower is reported first. */
  ghost predicate ReportsAscend(shadow: Shadow, snapshot: Snapshot, changed: seq<seq<DataItem>>) {
    var old', new' := ViewOf(shadow), SnapshotView(snapshot);
    forall u, v :: u in snapshot && v in snapshot && u < v && Difference(old', new', u) != {} && Difference(old', new', v) != {} ==>
      FirstReport(changed, u) < FirstReport(changed, v)
  }

  /** The tale of a truthful answer holds exactly the differences. */
  lemma Tells(shadow: Shadow, snapshot: Snapshot, ranges: seq<Range>, changed: seq<seq<DataItem>>, c: Change)
    requires Truthful(shadow, snapshot, ranges, changed)
    ensures c in Tale(QresyncDeltas(Ledger(shadow, []), ranges, changed).events)
       <==> c in Difference(ViewOf(shadow), SnapshotView(snapshot), c.uid)
  {
    hide Truthful, Tale, Changes, QresyncDeltas, Difference;
    var events := QresyncDeltas(Ledger(shadow, []), ranges, changed).events;
    QresyncMeaning(shadow, snapshot, ranges, changed);
    TaleChanges(events);
    assert c in Tale(events) <==> c in multiset(Tale(events));
  }

  /** Where a change of a truthful answer comes from. */
  lemma Source(shadow: Shadow, snapshot: Snapshot, ranges: seq<Range>, changed: seq<seq<DataItem>>, c: Change)
    requires Truthful(shadow, snapshot, ranges, changed)
    requires c in Difference(ViewOf(shadow), SnapshotView(snapshot), c.uid)
    ensures if c.Vanished? then c.uid in shadow && Covered(ranges, c.uid) else c.uid in snapshot
  {
    hide Covered, Reported, FlagsOf;
    assert c.Vanished? ==> c.uid in ViewOf(shadow);
  }

  lemma AscendingAnswer(shadow: Shadow, snapshot: Snapshot, ranges: seq<Range>, changed: seq<seq<DataItem>>, c: Change, d: Change)
    requires Truthful(shadow, snapshot, ranges, changed)
    requires c in Difference(ViewOf(shadow), SnapshotView(snapshot), c.uid)
    requires d in Difference(ViewOf(shadow), SnapshotView(snapshot), d.uid)
    ensures (RemovalsAscend(shadow, ranges) && ReportsAscend(shadow, snapshot, changed)
             && Before(ByAnswer(ranges, changed), c, d)) ==> Before(ByUid, c, d)
  {
    hide Truthful, FirstCover, FirstReport, Covered, Difference;
    Source(shadow, snapshot, ranges, changed, c);
    Source(shadow, snapshot, ranges, changed, d);
  }

  lemma RemovalsToldAscending(shadow: Shadow, snapshot: Snapshot, ranges: seq<Range>, changed: seq<seq<DataItem>>,
                              t: seq<Change>)
    requires Truthful(shadow, snapshot, ranges, changed)
    requires Ordered(ByUid, t) && Ordered(ByAnswer(ranges, changed), t)
    requires forall c :: c in t <==> c in Difference(ViewOf(shadow), SnapshotView(snapshot), c.uid)
    ensures RemovalsAscend(shadow, ranges)
  {
    hide Ordered, FirstCover, Covered, SnapshotView;
    var w := ByAnswer(ranges, changed);
    forall u, v | u in shadow && v in shadow && u < v && Covered(ranges, u) && Covered(ranges, v)
      ensures FirstCover(ranges, u) <= FirstCover(ranges, v)
    {
      assert u in ViewOf(shadow) && v in ViewOf(shadow);
      assert Vanished(u) in t && Vanished(v) in t;
      BothOrders(w, t, Vanished(u), Vanished(v));
    }
  }

  lemma ReportsToldAscending(shadow: Shadow, snapshot: Snapshot, ranges: seq<Range>, changed: seq<seq<DataItem>>,
                             t: seq<Change>)
    requires Ordered(ByUid, t) && Ordered(ByAnswer(ranges, changed), t)
    requires forall c :: c in t <==> c in Difference(ViewOf(shadow), SnapshotView(snapshot), c.uid)
    ensures ReportsAscend(shadow, snapshot, changed)
  {
    hide Ordered, FirstReport, FlagsOf;
    var old', new', w := ViewOf(shadow), SnapshotView(snapshot), ByAnswer(ranges, changed);
    forall u, v | u in snapshot && v in snapshot && u < v && Difference(old', new', u) != {} && Difference(old', new', v) != {}
      ensures FirstReport(changed, u) < FirstReport(changed, v)
    {
      PresentDifference(old', new', u);
      PresentDifference(old', new', v);
      var c :| c in Difference(old', new', u);
      var d :| d in Difference(old', new', v);
      assert c in t && d in t;
      BothOrders(w, t, c, d);
    }
  }

  lemma PresentDifference(old': View, new': View, u: Uid)
    requires u in new'
    ensures forall c :: c in Difference(old', new', u) ==> c.uid == u && !c.Vanished?
  {
  }

  /** Two changes of one tale, ordered one way by UID, are not ordered the other
      way by the answer. */
  lemma BothOrders(w: Walk, t: seq<Change>, c: Change, d: Change)
    requires Ordered(ByUid, t) && Ordered(w, t) && c in t && d in t && Before(ByUid, c, d)
    ensures Before(w, c, d)
  {
    hide Before;
    BeforeAsymmetric(ByUid, c, d);
    var i :| 0 <= i < |t| && t[i] == c;
    var j :| 0 <= j < |t| && t[j] == d;
  }

  /** For every truthful answer, the two paths tell the same changes in the same
      order if and only if the answer names removals upwards and reports
      differing messages upwards. */
  lemma SameOrder(shadow: Shadow, snapshot: Snapshot, ranges: seq<Range>, changed: seq<seq<DataItem>>)
    requires Truthful(shadow, snapshot, ranges, changed)
    ensures Tale(QresyncDeltas(Ledger(shadow, []), ranges, changed).events)
         == Tale(SnapshotDeltas(Ledger(shadow, []), snapshot).events)
       <==> RemovalsAscend(shadow, ranges) && ReportsAscend(shadow, snapshot, changed)
  {
    hide Truthful, Tale, Before, QresyncDeltas, SnapshotDeltas, Difference, RemovalsAscend, ReportsAscend;
    var w := ByAnswer(ranges, changed);
    var q, s := QresyncDeltas(Ledger(shadow, []), ranges, changed).events, SnapshotDeltas(Ledger(shadow, []), snapshot).events;
    QresyncOrdered(shadow, snapshot, ranges, changed);
    SnapshotOrdered(shadow, snapshot);
    PathsAgree(shadow, snapshot, ranges, changed);
    TaleChanges(q);
    TaleChanges(s);
    forall c ensures c in Tale(q) <==> c in Difference(ViewOf(shadow), SnapshotView(snapshot), c.uid) {
      Tells(shadow, snapshot, ranges, changed, c);
    }
    if RemovalsAscend(shadow, ranges) && ReportsAscend(shadow, snapshot, changed) {
      var t := Tale(q);
      forall i, j | 0 <= i < j < |t| ensures Before(ByUid, t[i], t[j]) {
        assert t[i] in t && t[j] in t;
        AscendingAnswer(shadow, snapshot, ranges, changed, t[i], t[j]);
      }
      OrderedUnique(ByUid, t, Tale(s));
    }
    if Tale(q) == Tale(s) {
      RemovalsToldAscending(shadow, snapshot, ranges, changed, Tale(q));
      ReportsToldAscending(shadow, snapshot, ranges, changed, Tale(q));
    }
  }

  // ------------------------------------------------------ when they are equal

  /** The report a path tells of a message: the first of the answer, or the
      snapshot's own. */
  function ReportOf(snapshot: Snapshot, w: Walk, u: Uid): seq<DataItem> {
    match w
    case ByUid => if u in snapshot then snapshot[u] else []
    case ByAnswer(_, changed) =>
      var i := FirstReport(changed, u);
      if i < |changed| then changed[i] else []
  }

  function FlagsBefore(shadow: Shadow, u: Uid): seq<Flag> {
    if u in shadow then shadow[u] else []
  }

  /** The event a change is told by, given the report it comes from. */
  function EventFor(shadow: Shadow, c: Change, items: seq<DataItem>): Event {
    match c
    case Appeared(u, _) => EnvelopeAdded(u, items)
    case Gained(u, _) => FlagsAdded(u, Minus(FlagsOf(items), FlagsBefore(shadow, u)))
    case Lost(u, _) => FlagsRemoved(u, Minus(FlagsBefore(shadow, u), FlagsOf(items)))
    case Vanished(u) => EnvelopeRemoved(u)
  }

  ghost predicate Carries(shadow: Shadow, snapshot: Snapshot, w: Walk, events: seq<Event>) {
    forall e :: e in events ==> e == EventFor(shadow, ChangeOf(e), ReportOf(snapshot, w, e.uid))
  }

  /** Messages not reported yet are as they were. */
  ghost predicate Untouched(shadow: Shadow, l: Ledger, done: set<Uid>) {
    forall u :: u in l.shadow && u !in done ==> u in shadow && l.shadow[u] == shadow[u]
  }

  lemma AbsorbCarries(shadow: Shadow, snapshot: Snapshot, w: Walk, l: Ledger, done: set<Uid>, u: Uid)
    requires Carries(shadow, snapshot, w, l.events) && Untouched(shadow, l, done) && u !in done
    ensures var l' := Absorb(l, u, ReportOf(snapshot, w, u));
            Carries(shadow, snapshot, w, l'.events) && Untouched(shadow, l', done + {u})
  {
    hide Minus, FlagsOf, ReportOf;
  }

  lemma {:induction false} DropAllCarries(shadow: Shadow, snapshot: Snapshot, w: Walk, l: Ledger, uids: seq<Uid>)
    requires Carries(shadow, snapshot, w, l.events) && Untouched(shadow, l, {})
    ensures var l' := DropAll(l, uids);
            Carries(shadow, snapshot, w, l'.events) && Untouched(shadow, l', {})
  {
    hide ReportOf;
    if uids != [] {
      DropAllCarries(shadow, snapshot, w, l, uids[..|uids| - 1]);
    }
  }

  lemma {:induction false} DropRangesCarries(shadow: Shadow, snapshot: Snapshot, w: Walk, ranges: seq<Range>)
    ensures var l := DropRanges(Ledger(shadow, []), ranges);
            Carries(shadow, snapshot, w, l.events) && Untouched(shadow, l, {})
  {
    hide Carries, DropAll;
    if ranges == [] {
      NothingCarries(shadow, snapshot, w);
    } else {
      var init, r := ranges[..|ranges| - 1], ranges[|ranges| - 1];
      DropRangesCarries(shadow, snapshot, w, init);
      var l := DropRanges(Ledger(shadow, []), init);
      DropAllCarries(shadow, snapshot, w, l, Ascending(Within(l.shadow, r.lo, r.hi)));
    }
  }

  lemma NothingCarries(shadow: Shadow, snapshot: Snapshot, w: Walk)
    ensures Carries(shadow, snapshot, w, [])
  {
  }

  lemma {:induction false} AfterCarries(shadow: Shadow, snapshot: Snapshot, w: Walk, n: nat)
    requires w.ByAnswer? && n <= |w.changed| && Truthful(shadow, snapshot, w.ranges, w.changed)
    ensures var l := After(shadow, w, n);
            Carries(shadow, snapshot, w, l.events) && Untouched(shadow, l, Reported(w.changed[..n]))
  {
    hide Carries, Absorb, DropRanges, UidOf, Truthful, Untouched, Reported, After;
    AfterStart(shadow, w);
    if n == 0 {
      DropRangesCarries(shadow, snapshot, w, w.ranges);
    } else {
      var l, done, items := After(shadow, w, n - 1), Reported(w.changed[..n - 1]), w.changed[n - 1];
      AfterCarries(shadow, snapshot, w, n - 1);
      AfterNext(shadow, snapshot, w, n - 1);
      var u := UidOf(items).value;
      if u in done {
        ReportedAgain(shadow, snapshot, w, n - 1);
        AbsorbAgain(shadow, l, done, u, items);
      } else {
        AbsorbCarries(shadow, snapshot, w, l, done, u);
      }
    }
  }

  lemma AfterStart(shadow: Shadow, w: Walk)
    requires w.ByAnswer?
    ensures After(shadow, w, 0) == DropRanges(Ledger(shadow, []), w.ranges) && Reported(w.changed[..0]) == {}
  {
  }

  lemma AfterNext(shadow: Shadow, snapshot: Snapshot, w: Walk, n: nat)
    requires w.ByAnswer? && n < |w.changed| && Truthful(shadow, snapshot, w.ranges, w.changed)
    ensures UidOf(w.changed[n]).Some?
    ensures var u := UidOf(w.changed[n]).value;
            After(shadow, w, n + 1) == Absorb(After(shadow, w, n), u, w.changed[n])
            && Reported(w.changed[..n + 1]) == Reported(w.changed[..n]) + {u}
            && (u !in Reported(w.changed[..n]) ==> ReportOf(snapshot, w, u) == w.changed[n])
  {
    hide Absorb, DropRanges, UidOf, FlagsOf;
    assert w.changed[..n + 1][..n] == w.changed[..n];
    assert w.changed[n] in w.changed && Reports(SnapshotView(snapshot), w.changed[n]);
    var u := UidOf(w.changed[n]).value;
    ReportedMeaning(w.changed, n, u);
    ReportedMeaning(w.changed, n + 1, u);
  }

  lemma AbsorbAgain(shadow: Shadow, l: Ledger, done: set<Uid>, u: Uid, items: seq<DataItem>)
    requires Untouched(shadow, l, done) && u in done
    requires u in l.shadow && Set(l.shadow[u]) == Set(FlagsOf(items))
    ensures Absorb(l, u, items).events == l.events && Untouched(shadow, Absorb(l, u, items), done + {u})
  {
    AbsorbSilent(l, u, items);
  }

  lemma {:induction false} AbsorbSnapshotCarries(shadow: Shadow, snapshot: Snapshot, l: Ledger, uids: seq<Uid>)
    requires Carries(shadow, snapshot, ByUid, l.events) && Untouched(shadow, l, {})
    requires forall u :: u in uids ==> u in snapshot
    requires forall i, j :: 0 <= i < j < |uids| ==> uids[i] < uids[j]
    ensures var l' := AbsorbSnapshot(l, snapshot, uids);
            Carries(shadow, snapshot, ByUid, l'.events) && Untouched(shadow, l', Set(uids))
  {
    hide Carries, Absorb;
    if uids != [] {
      var init, last := uids[..|uids| - 1], uids[|uids| - 1];
      AbsorbSnapshotCarries(shadow, snapshot, l, init);
      SetSnoc(uids);
      assert last in uids && last !in init;
      AbsorbCarries(shadow, snapshot, ByUid, AbsorbSnapshot(l, snapshot, init), Set(init), last);
    }
  }

  lemma SnapshotCarries(shadow: Shadow, snapshot: Snapshot)
    ensures Carries(shadow, snapshot, ByUid, SnapshotDeltas(Ledger(shadow, []), snapshot).events)
  {
    hide Carries, AbsorbSnapshot, DropAll;
    var gone := Ascending(shadow.Keys - snapshot.Keys);
    NothingCarries(shadow, snapshot, ByUid);
    DropAllCarries(shadow, snapshot, ByUid, Ledger(shadow, []), gone);
    AbsorbSnapshotCarries(shadow, snapshot, DropAll(Ledger(shadow, []), gone), Ascending(snapshot.Keys));
  }

  /** The report of a new message is the snapshot's, and that of a known one
      lists the flags gained in the snapshot's order. */
  ghost predicate ReportMatches(shadow: Shadow, snapshot: Snapshot, first: seq<DataItem>, u: Uid)
    requires u in snapshot
  {
    if u in shadow then Minus(FlagsOf(first), shadow[u]) == Minus(FlagsOf(snapshot[u]), shadow[u]) else first == snapshot[u]
  }

  ghost predicate ReportsMatch(shadow: Shadow, snapshot: Snapshot, changed: seq<seq<DataItem>>) {
    forall u :: u in snapshot && Difference(ViewOf(shadow), SnapshotView(snapshot), u) != {} ==>
      ReportMatches(shadow, snapshot, ReportOf(snapshot, ByAnswer([], changed), u), u)
  }

  /** Two lists of events telling the same tale from their own reports. */
  lemma SameTale(shadow: Shadow, snapshot: Snapshot, w: Walk, q: seq<Event>, s: seq<Event>)
    requires Carries(shadow, snapshot, w, q) && Carries(shadow, snapshot, ByUid, s) && Tale(q) == Tale(s)
    ensures q == s <==> forall c :: c in Tale(q) ==>
              EventFor(shadow, c, ReportOf(snapshot, w, c.uid)) == EventFor(shadow, c, ReportOf(snapshot, ByUid, c.uid))
  {
    hide EventFor, ReportOf;
    assert |q| == |Tale(q)| == |s|;
    forall i | 0 <= i < |q|
      ensures Tale(q)[i] in Tale(q)
      ensures q[i] == EventFor(shadow, Tale(q)[i], ReportOf(snapshot, w, Tale(q)[i].uid))
      ensures s[i] == EventFor(shadow, Tale(q)[i], ReportOf(snapshot, ByUid, Tale(q)[i].uid))
    {
      assert q[i] in q && s[i] in s;
      assert Tale(q)[i] == ChangeOf(q[i]) == ChangeOf(s[i]);
    }
  }

  lemma {:induction false} MinusSet(a: seq<Flag>, b: seq<Flag>, b': seq<Flag>)
    requires Set(b) == Set(b')
    ensures Minus(a, b) == Minus(a, b')
  {
    if a != [] {
      MinusSet(a[..|a| - 1], b, b');
      assert a[|a| - 1] in b <==> a[|a| - 1] in Set(b);
    }
  }

  /** What a truthful answer and the snapshot report of a message that differs. */
  lemma ReportsAlike(shadow: Shadow, snapshot: Snapshot, ranges: seq<Range>, changed: seq<seq<DataItem>>, u: Uid)
    requires Truthful(shadow, snapshot, ranges, changed)
    requires u in snapshot && Difference(ViewOf(shadow), SnapshotView(snapshot), u) != {}
    ensures Set(FlagsOf(ReportOf(snapshot, ByAnswer(ranges, changed), u))) == Set(FlagsOf(snapshot[u]))
  {
    hide FlagsOf, UidOf, Covered;
    var old', new' := ViewOf(shadow), SnapshotView(snapshot);
    assert !SameAt(old', new', u);
    assert changed[..|changed|] == changed;
    ReportedMeaning(changed, |changed|, u);
    var items := changed[FirstReport(changed, u)];
    assert items in changed && Reports(new', items);
  }

  /** One message: its changes are told by equal events exactly when its two
      reports match. */
  lemma MatchOne(shadow: Shadow, snapshot: Snapshot, u: Uid, first: seq<DataItem>)
    requires u in snapshot && Set(FlagsOf(first)) == Set(FlagsOf(snapshot[u]))
    requires Difference(ViewOf(shadow), SnapshotView(snapshot), u) != {}
    ensures (forall c :: c in Difference(ViewOf(shadow), SnapshotView(snapshot), u) ==>
               EventFor(shadow, c, first) == EventFor(shadow, c, snapshot[u]))
       <==> ReportMatches(shadow, snapshot, first, u)
  {
    hide FlagsOf, Minus;
    var old', new' := ViewOf(shadow), SnapshotView(snapshot);
    if u in shadow {
      var was, now, now' := shadow[u], FlagsOf(first), FlagsOf(snapshot[u]);
      MinusSet(was, now, now');
      EmptySet(Minus(now, was));
      EmptySet(Minus(now', was));
      assert Set(Minus(now, was)) == new'[u] - old'[u] == Set(Minus(now', was));
      if new'[u] - old'[u] != {} {
        assert Gained(u, new'[u] - old'[u]) in Difference(old', new', u);
      }
    } else {
      assert Appeared(u, new'[u]) in Difference(old', new', u);
    }
  }

  /** For every truthful answer, the events of the two paths are identical if
      and only if the answer goes upwards and its reports match the snapshot's. */
  lemma Identical(shadow: Shadow, snapshot: Snapshot, ranges: seq<Range>, changed: seq<seq<DataItem>>)
    requires Truthful(shadow, snapshot, ranges, changed)
    ensures QresyncDeltas(Ledger(shadow, []), ranges, changed).events == SnapshotDeltas(Ledger(shadow, []), snapshot).events
       <==> RemovalsAscend(shadow, ranges) && ReportsAscend(shadow, snapshot, changed) && ReportsMatch(shadow, snapshot, changed)
  {
    hide Truthful, Tale, QresyncDeltas, SnapshotDeltas, Difference, RemovalsAscend, ReportsAscend, Carries, EventFor, Minus, FlagsOf;
    var old', new', w := ViewOf(shadow), SnapshotView(snapshot), ByAnswer(ranges, changed);
    var q, s := QresyncDeltas(Ledger(shadow, []), ranges, changed).events, SnapshotDeltas(Ledger(shadow, []), snapshot).events;
    SameOrder(shadow, snapshot, ranges, changed);
    QresyncCarries(shadow, snapshot, ranges, changed);
    SnapshotCarries(shadow, snapshot);
    forall c ensures c in Tale(q) <==> c in Difference(old', new', c.uid) {
      Tells(shadow, snapshot, ranges, changed, c);
    }
    if Tale(q) == Tale(s) {
      SameTale(shadow, snapshot, w, q, s);
      MatchAll(shadow, snapshot, ranges, changed, Tale(q));
    }
  }

  lemma QresyncCarries(shadow: Shadow, snapshot: Snapshot, ranges: seq<Range>, changed: seq<seq<DataItem>>)
    requires Truthful(shadow, snapshot, ranges, changed)
    ensures Carries(shadow, snapshot, ByAnswer(ranges, changed), QresyncDeltas(Ledger(shadow, []), ranges, changed).events)
  {
    hide Carries;
    assert changed[..|changed|] == changed;
    AfterCarries(shadow, snapshot, ByAnswer(ranges, changed), |changed|);
  }

  /** A message's two reports, told of by equal events. */
  ghost predicate ToldAlike(shadow: Shadow, snapshot: Snapshot, w: Walk, u: Uid) {
    forall c :: c in Difference(ViewOf(shadow), SnapshotView(snapshot), u) ==>
      EventFor(shadow, c, ReportOf(snapshot, w, u)) == EventFor(shadow, c, ReportOf(snapshot, ByUid, u))
  }

  lemma ToldAlikeMeaning(shadow: Shadow, snapshot: Snapshot, ranges: seq<Range>, changed: seq<seq<DataItem>>, u: Uid)
    requires Truthful(shadow, snapshot, ranges, changed)
    ensures ToldAlike(shadow, snapshot, ByAnswer(ranges, changed), u)
       <==> (u in snapshot && Difference(ViewOf(shadow), SnapshotView(snapshot), u) != {} ==>
               ReportMatches(shadow, snapshot, ReportOf(snapshot, ByAnswer(ranges, changed), u), u))
  {
    hide Truthful, EventFor, Minus, FlagsOf, FirstReport, Difference, ViewOf;
    var old', new', w := ViewOf(shadow), SnapshotView(snapshot), ByAnswer(ranges, changed);
    if u in snapshot && Difference(old', new', u) != {} {
      ReportsAlike(shadow, snapshot, ranges, changed, u);
      MatchOne(shadow, snapshot, u, ReportOf(snapshot, w, u));
    } else {
      forall c | c in Difference(old', new', u)
        ensures EventFor(shadow, c, ReportOf(snapshot, w, u)) == EventFor(shadow, c, ReportOf(snapshot, ByUid, u))
      {
        GoneEvent(shadow, c, ReportOf(snapshot, w, u), ReportOf(snapshot, ByUid, u), new', u);
      }
    }
  }

  lemma MatchAll(shadow: Shadow, snapshot: Snapshot, ranges: seq<Range>, changed: seq<seq<DataItem>>, t: seq<Change>)
    requires Truthful(shadow, snapshot, ranges, changed)
    requires forall c :: c in t <==> c in Difference(ViewOf(shadow), SnapshotView(snapshot), c.uid)
    ensures ReportsMatch(shadow, snapshot, changed) <==> forall c :: c in t ==>
              EventFor(shadow, c, ReportOf(snapshot, ByAnswer(ranges, changed), c.uid))
              == EventFor(shadow, c, ReportOf(snapshot, ByUid, c.uid))
  {
    hide Truthful, EventFor, ReportMatches, FirstReport, Difference, ReportOf;
    var w := ByAnswer(ranges, changed);
    forall u ensures ReportOf(snapshot, w, u) == ReportOf(snapshot, ByAnswer([], changed), u) {
      ReportsIgnoreRanges(snapshot, ranges, changed, u);
    }
    forall u ensures ToldAlike(shadow, snapshot, w, u)
                <==> (u in snapshot && Difference(ViewOf(shadow), SnapshotView(snapshot), u) != {} ==>
                        ReportMatches(shadow, snapshot, ReportOf(snapshot, w, u), u)) {
      ToldAlikeMeaning(shadow, snapshot, ranges, changed, u);
    }
    if ReportsMatch(shadow, snapshot, changed) {
      forall c | c in t
        ensures EventFor(shadow, c, ReportOf(snapshot, w, c.uid)) == EventFor(shadow, c, ReportOf(snapshot, ByUid, c.uid))
      {
        assert ToldAlike(shadow, snapshot, w, c.uid);
      }
    }
    if forall c :: c in t ==>
         EventFor(shadow, c, ReportOf(snapshot, w, c.uid)) == EventFor(shadow, c, ReportOf(snapshot, ByUid, c.uid)) {
      forall u ensures ToldAlike(shadow, snapshot, w, u) {
        DifferenceOf(ViewOf(shadow), SnapshotView(snapshot), u);
      }
    }
  }

  lemma ReportsIgnoreRanges(snapshot: Snapshot, ranges: seq<Range>, changed: seq<seq<DataItem>>, u: Uid)
    ensures ReportOf(snapshot, ByAnswer(ranges, changed), u) == ReportOf(snapshot, ByAnswer([], changed), u)
  {
  }

  lemma DifferenceOf(old': View, new': View, u: Uid)
    ensures forall c :: c in Difference(old', new', u) ==> c.uid == u
  {
  }

  lemma GoneEvent(shadow: Shadow, c: Change, items: seq<DataItem>, items': seq<DataItem>, new': View, u: Uid)
    requires c in Difference(ViewOf(shadow), new', u) && u !in new'
    ensures EventFor(shadow, c, items) == EventFor(shadow, c, items')
  {
  }
}
