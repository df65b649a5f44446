/** The mailbox watcher's shadow and event queue: what each delta does to
    them, and what the events mean to whoever replays them. */
module WatchLedger {
  import opened Octets
  import opened Ids

  type Uid = Id
  const MAX_UID: Uid := MAX_ID
  type Flag = string

  /** A flag as FETCH reports it; `\Recent` is not a settable flag. */
  datatype FlagFetch = Settable(flag: Flag) | Recent

  datatype DataItem = UidItem(uid: Uid) | FlagsItem(flags: seq<FlagFetch>) | OtherItem(name: string)

  datatype Event =
    | EnvelopeAdded(uid: Uid, items: seq<DataItem>)
    | FlagsAdded(uid: Uid, flags: seq<Flag>)
    | FlagsRemoved(uid: Uid, flags: seq<Flag>)
    | EnvelopeRemoved(uid: Uid)

  type Shadow = map<Uid, seq<Flag>>
  type View = map<Uid, set<Flag>>
  type Snapshot = map<Uid, seq<DataItem>>

  datatype Ledger = Ledger(shadow: Shadow, events: seq<Event>)

  // ------------------------------------------------------------- FETCH items

  function Settables(fs: seq<FlagFetch>): seq<Flag> {
    if fs == [] then []
    else (if fs[0].Settable? then [fs[0].flag] else []) + Settables(fs[1..])
  }

  /** The last UID item decides, and the last FLAGS item. */
  function UidOf(items: seq<DataItem>): Option<Uid> {
    if items == [] then None
    else
      var last := items[|items| - 1];
      if last.UidItem? then Some(last.uid) else UidOf(items[..|items| - 1])
  }

  function FlagsOf(items: seq<DataItem>): seq<Flag> {
    if items == [] then []
    else
      var last := items[|items| - 1];
      if last.FlagsItem? then Settables(last.flags) else FlagsOf(items[..|items| - 1])
  }

  /** Settable flags are kept, in order; `\Recent` is not. */
  lemma {:induction false} SettablesMeaning(fs: seq<FlagFetch>, more: seq<FlagFetch>, f: Flag)
    ensures Settables(fs + more) == Settables(fs) + Settables(more)
    ensures Settables([Settable(f)]) == [f] && Settables([Recent]) == []
    ensures f in Settables(fs) <==> Settable(f) in fs
  {
    assert [Settable(f)][1..] == [] && [Recent][1..] == [];
    if fs == [] {
      assert fs + more == more;
    } else {
      SettablesMeaning(fs[1..], more, f);
      assert (fs + more)[1..] == fs[1..] + more;
      assert fs == [fs[0]] + fs[1..];
    }
  }

  /** Of several UIDs, and of several lists of flags, the last one counts. */
  lemma {:induction false} LastCounts(items: seq<DataItem>, i: nat)
    requires i < |items|
    ensures items[i].UidItem? && (forall j :: i < j < |items| ==> !items[j].UidItem?) ==> UidOf(items) == Some(items[i].uid)
    ensures items[i].FlagsItem? && (forall j :: i < j < |items| ==> !items[j].FlagsItem?) ==>
              FlagsOf(items) == Settables(items[i].flags)
  {
    var init := items[..|items| - 1];
    if i < |init| {
      assert forall j :: 0 <= j < |init| ==> init[j] == items[j];
      LastCounts(init, i);
    }
  }

  lemma {:induction false} NoneCounts(items: seq<DataItem>)
    ensures (forall i :: 0 <= i < |items| ==> !items[i].UidItem?) ==> UidOf(items) == None
    ensures (forall i :: 0 <= i < |items| ==> !items[i].FlagsItem?) ==> FlagsOf(items) == []
  {
    if items != [] {
      var init := items[..|items| - 1];
      assert forall j :: 0 <= j < |init| ==> init[j] == items[j];
      NoneCounts(init);
    }
  }

  method ExtractUidFlags(items: seq<DataItem>) returns (uid: Option<Uid>, flags: seq<Flag>)
    ensures uid == UidOf(items) && flags == FlagsOf(items)
  {
    uid, flags := None, [];
    for i := 0 to |items|
      invariant uid == UidOf(items[..i]) && flags == FlagsOf(items[..i])
    {
      assert items[..i + 1][..i] == items[..i];
      match items[i]
      case UidItem(u) => uid := Some(u);
      case FlagsItem(fs) => flags := Settables(fs);
      case OtherItem(_) =>
    }
    assert items[..|items|] == items;
  }

  // ------------------------------------------------------------------ deltas

  /** The flags of `a` absent from `b`, in order. */
  function Minus(a: seq<Flag>, b: seq<Flag>): (r: seq<Flag>)
    ensures Set(r) == Set(a) - Set(b)
  {
    if a == [] then []
    else
      var rest := Minus(a[..|a| - 1], b);
      var last := a[|a| - 1];
      assert Set(a) == Set(a[..|a| - 1]) + {last} by { SetSnoc(a); }
      if last in b then rest
      else
        assert Set(rest + [last]) == Set(rest) + {last} by { SetSnoc(rest + [last]); }
        rest + [last]
  }

  /** Flags are kept in order, those in `b` left out. */
  lemma {:induction false} MinusMeaning(a: seq<Flag>, more: seq<Flag>, b: seq<Flag>, f: Flag)
    ensures Minus(a + more, b) == Minus(a, b) + Minus(more, b)
    ensures Minus([f], b) == if f in b then [] else [f]
  {
    assert [f][..0] == [];
    if more == [] {
      assert a + more == a;
    } else {
      var init, last := more[..|more| - 1], more[|more| - 1];
      MinusMeaning(a, init, b, f);
      assert (a + more)[..|a + more| - 1] == a + init;
    }
  }

  function Set<T>(s: seq<T>): set<T> {
    set x | x in s
  }

  lemma SetSnoc<T>(s: seq<T>)
    requires s != []
    ensures Set(s) == Set(s[..|s| - 1]) + {s[|s| - 1]}
  {
    assert s == s[..|s| - 1] + [s[|s| - 1]];
  }

  function FlagEvents(uid: Uid, was: seq<Flag>, now: seq<Flag>): seq<Event> {
    (if Minus(now, was) == [] then [] else [FlagsAdded(uid, Minus(now, was))])
    + (if Minus(was, now) == [] then [] else [FlagsRemoved(uid, Minus(was, now))])
  }

  /** A message reported present, under `uid`. */
  function Absorb(l: Ledger, uid: Uid, items: seq<DataItem>): Ledger {
    var now := FlagsOf(items);
    Ledger(l.shadow[uid := now],
           l.events + if uid in l.shadow then FlagEvents(uid, l.shadow[uid], now) else [EnvelopeAdded(uid, items)])
  }

  /** A message known to be gone. */
  function Drop(l: Ledger, uid: Uid): Ledger {
    Ledger(l.shadow - {uid}, l.events + [EnvelopeRemoved(uid)])
  }

  function DropAll(l: Ledger, uids: seq<Uid>): Ledger {
    if uids == [] then l else Drop(DropAll(l, uids[..|uids| - 1]), uids[|uids| - 1])
  }

  function Within(shadow: Shadow, lo: int, hi: int): set<Uid> {
    set u | u in shadow && lo <= u <= hi
  }

  datatype Interval = Interval(lo: Uid, hi: Uid)

  /** An inclusive range, never reversed. */
  type Range = r: Interval | r.lo <= r.hi witness Interval(1, 1)

  function DropRange(l: Ledger, r: Range): Ledger {
    DropAll(l, Ascending(Within(l.shadow, r.lo, r.hi)))
  }

  function DropRanges(l: Ledger, ranges: seq<Range>): Ledger {
    if ranges == [] then l else DropRange(DropRanges(l, ranges[..|ranges| - 1]), ranges[|ranges| - 1])
  }

  /** A FETCH without a UID says nothing. */
  function AbsorbFetch(l: Ledger, items: seq<DataItem>): Ledger {
    if UidOf(items).None? then l else Absorb(l, UidOf(items).value, items)
  }

  function AbsorbFetches(l: Ledger, fetches: seq<seq<DataItem>>): Ledger {
    if fetches == [] then l
    else AbsorbFetch(AbsorbFetches(l, fetches[..|fetches| - 1]), fetches[|fetches| - 1])
  }

  function AbsorbSnapshot(l: Ledger, snapshot: Snapshot, uids: seq<Uid>): Ledger
    requires forall u :: u in uids ==> u in snapshot
  {
    if uids == [] then l
    else
      var last := uids[|uids| - 1];
      Absorb(AbsorbSnapshot(l, snapshot, uids[..|uids| - 1]), last, snapshot[last])
  }

  lemma AbsorbSnapshotStep(l: Ledger, snapshot: Snapshot, uids: seq<Uid>, i: nat)
    requires i < |uids| && forall u :: u in uids ==> u in snapshot
    ensures AbsorbSnapshot(l, snapshot, uids[..i + 1])
         == Absorb(AbsorbSnapshot(l, snapshot, uids[..i]), uids[i], snapshot[uids[i]])
  {
    hide Absorb;
    assert uids[..i + 1][..i] == uids[..i];
  }

  /** The QRESYNC path: ranges of vanished UIDs, then changed messages. */
  function QresyncDeltas(l: Ledger, ranges: seq<Range>, changed: seq<seq<DataItem>>): Ledger {
    AbsorbFetches(DropRanges(l, ranges), changed)
  }

  /** The fallback path: a whole-mailbox snapshot, absence meaning vanished. */
  function SnapshotDeltas(l: Ledger, snapshot: Snapshot): Ledger {
    AbsorbSnapshot(DropAll(l, Ascending(l.shadow.Keys - snapshot.Keys)), snapshot, Ascending(snapshot.Keys))
  }

  // ------------------------------------------------------------------ replay

  function ViewOf(shadow: Shadow): View {
    map u | u in shadow :: Set(shadow[u])
  }

  /** An event as a consumer applies it; `None` when it contradicts what the
      consumer holds. */
  function Apply(v: View, e: Event): Option<View> {
    match e
    case EnvelopeAdded(u, items) => if u in v then None else Some(v[u := Set(FlagsOf(items))])
    case FlagsAdded(u, fs) =>
      if u in v && fs != [] && Set(fs) !! v[u] then Some(v[u := v[u] + Set(fs)]) else None
    case FlagsRemoved(u, fs) =>
      if u in v && fs != [] && Set(fs) <= v[u] then Some(v[u := v[u] - Set(fs)]) else None
    case EnvelopeRemoved(u) => if u in v then Some(v - {u}) else None
  }

  function Replay(v: View, events: seq<Event>): Option<View> {
    if events == [] then Some(v)
    else
      match Replay(v, events[..|events| - 1])
      case None => None
      case Some(w) => Apply(w, events[|events| - 1])
  }

  lemma ReplaySnoc(v: View, events: seq<Event>, e: Event)
    ensures Replay(v, events + [e])
         == match Replay(v, events) case None => None case Some(w) => Apply(w, e)
  {
    assert (events + [e])[..|events|] == events;
  }

  /** The events tell exactly how the shadow came from `base`. */
  ghost predicate Faithful(base: View, l: Ledger) {
    Replay(base, l.events) == Some(ViewOf(l.shadow))
  }

  lemma DropFaithful(base: View, l: Ledger, uid: Uid)
    requires Faithful(base, l) && uid in l.shadow
    ensures Faithful(base, Drop(l, uid))
  {
    ReplaySnoc(base, l.events, EnvelopeRemoved(uid));
    assert ViewOf(l.shadow - {uid}) == ViewOf(l.shadow) - {uid};
  }

  lemma AbsorbFaithful(base: View, l: Ledger, uid: Uid, items: seq<DataItem>)
    requires Faithful(base, l)
    ensures Faithful(base, Absorb(l, uid, items))
  {
    var now := FlagsOf(items);
    var v := ViewOf(l.shadow);
    assert ViewOf(l.shadow[uid := now]) == v[uid := Set(now)];
    if uid in l.shadow {
      FlagEventsFaithful(base, l.events, v, uid, l.shadow[uid], now);
    } else {
      ReplaySnoc(base, l.events, EnvelopeAdded(uid, items));
    }
  }

  lemma FlagEventsFaithful(base: View, events: seq<Event>, v: View, uid: Uid, was: seq<Flag>, now: seq<Flag>)
    requires Replay(base, events) == Some(v) && uid in v && v[uid] == Set(was)
    ensures Replay(base, events + FlagEvents(uid, was, now)) == Some(v[uid := Set(now)])
  {
    hide Replay, Minus;
    var added, removed := Minus(now, was), Minus(was, now);
    var grown := v[uid := Set(was) + Set(added)];
    var events' := events;
    EmptySet(added);
    EmptySet(removed);
    if added != [] {
      ReplaySnoc(base, events, FlagsAdded(uid, added));
      events' := events + [FlagsAdded(uid, added)];
    } else {
      assert Set(was) + Set(added) == v[uid];
      assert grown == v;
    }
    assert Replay(base, events') == Some(grown);
    if removed != [] {
      ReplaySnoc(base, events', FlagsRemoved(uid, removed));
      assert events + FlagEvents(uid, was, now) == events' + [FlagsRemoved(uid, removed)];
    } else {
      assert events + FlagEvents(uid, was, now) == events';
    }
    assert Set(was) + Set(added) - Set(removed) == Set(now);
    assert grown[uid := Set(now)] == v[uid := Set(now)];
    if removed == [] {
      assert Set(was) + Set(added) == Set(now);
    }
  }

  lemma {:induction false} DropAllFaithful(base: View, l: Ledger, uids: seq<Uid>)
    requires Faithful(base, l)
    requires forall u :: u in uids ==> u in l.shadow
    requires forall i, j :: 0 <= i < j < |uids| ==> uids[i] < uids[j]
    ensures Faithful(base, DropAll(l, uids))
    ensures DropAll(l, uids).shadow == l.shadow - Set(uids)
  {
    if uids != [] {
      var init, last := uids[..|uids| - 1], uids[|uids| - 1];
      DropAllFaithful(base, l, init);
      SetSnoc(uids);
      assert last !in init && last in uids;
      DropFaithful(base, DropAll(l, init), last);
    }
  }

  lemma {:induction false} DropRangesFaithful(base: View, l: Ledger, ranges: seq<Range>)
    requires Faithful(base, l)
    ensures Faithful(base, DropRanges(l, ranges))
  {
    if ranges != [] {
      var l' := DropRanges(l, ranges[..|ranges| - 1]);
      var r := ranges[|ranges| - 1];
      DropRangesFaithful(base, l, ranges[..|ranges| - 1]);
      DropAllFaithful(base, l', Ascending(Within(l'.shadow, r.lo, r.hi)));
    }
  }

  lemma {:induction false} AbsorbFetchesFaithful(base: View, l: Ledger, fetches: seq<seq<DataItem>>)
    requires Faithful(base, l)
    ensures Faithful(base, AbsorbFetches(l, fetches))
  {
    if fetches != [] {
      var l' := AbsorbFetches(l, fetches[..|fetches| - 1]);
      AbsorbFetchesFaithful(base, l, fetches[..|fetches| - 1]);
      var items := fetches[|fetches| - 1];
      if UidOf(items).Some? {
        AbsorbFaithful(base, l', UidOf(items).value, items);
      }
    }
  }

  lemma {:induction false} AbsorbSnapshotFaithful(base: View, l: Ledger, snapshot: Snapshot, uids: seq<Uid>)
    requires Faithful(base, l) && forall u :: u in uids ==> u in snapshot
    ensures Faithful(base, AbsorbSnapshot(l, snapshot, uids))
  {
    if uids != [] {
      var last := uids[|uids| - 1];
      AbsorbSnapshotFaithful(base, l, snapshot, uids[..|uids| - 1]);
      AbsorbFaithful(base, AbsorbSnapshot(l, snapshot, uids[..|uids| - 1]), last, snapshot[last]);
    }
  }

  lemma QresyncFaithful(base: View, l: Ledger, ranges: seq<Range>, changed: seq<seq<DataItem>>)
    requires Faithful(base, l)
    ensures Faithful(base, QresyncDeltas(l, ranges, changed))
  {
    DropRangesFaithful(base, l, ranges);
    AbsorbFetchesFaithful(base, DropRanges(l, ranges), changed);
  }

  lemma SnapshotFaithful(base: View, l: Ledger, snapshot: Snapshot)
    requires Faithful(base, l)
    ensures Faithful(base, SnapshotDeltas(l, snapshot))
  {
    var gone := Ascending(l.shadow.Keys - snapshot.Keys);
    DropAllFaithful(base, l, gone);
    AbsorbSnapshotFaithful(base, DropAll(l, gone), snapshot, Ascending(snapshot.Keys));
  }

  // -------------------------------------------------------- vanished ranges

  /** Reference: expand the range and delete UID by UID. */
  function ExpandRange(l: Ledger, lo: int, hi: int): Ledger
    requires 0 < lo && hi <= MAX_UID
    decreases hi - lo
  {
    if lo > hi then l
    else ExpandRange(if lo in l.shadow then Drop(l, lo) else l, lo + 1, hi)
  }

  lemma {:induction false} DropAllCons(l: Ledger, u: Uid, uids: seq<Uid>)
    ensures DropAll(l, [u] + uids) == DropAll(Drop(l, u), uids)
  {
    var all := [u] + uids;
    if uids == [] {
      assert all[..0] == [] && DropAll(l, all) == Drop(DropAll(l, []), u);
    } else {
      DropAllCons(l, u, uids[..|uids| - 1]);
      assert all[..|all| - 1] == [u] + uids[..|uids| - 1];
    }
  }

  /** Walking the shadow inside a range is expanding the range. */
  lemma {:induction false} WalkIsExpansion(l: Ledger, lo: int, hi: int)
    requires 0 < lo && hi <= MAX_UID
    ensures DropAll(l, Ascending(Within(l.shadow, lo, hi))) == ExpandRange(l, lo, hi)
    decreases hi - lo
  {
    if lo > hi {
      assert Within(l.shadow, lo, hi) == {};
    } else if lo in l.shadow {
      var l' := Drop(l, lo);
      var above := Within(l'.shadow, lo + 1, hi);
      assert Within(l.shadow, lo, hi) == {lo} + above;
      AscendingCons(lo, above);
      DropAllCons(l, lo, Ascending(above));
      WalkIsExpansion(l', lo + 1, hi);
    } else {
      assert Within(l.shadow, lo, hi) == Within(l.shadow, lo + 1, hi);
      WalkIsExpansion(l, lo + 1, hi);
    }
  }

  predicate Covered(ranges: seq<Range>, u: Uid) {
    exists k :: 0 <= k < |ranges| && ranges[k].lo <= u <= ranges[k].hi
  }

  function CoveredIn(v: View, ranges: seq<Range>): set<Uid> {
    set u | u in v && Covered(ranges, u)
  }

  // --------------------------------------------- the two paths tell the same

  /** An event stripped of flag order and of items beyond the flags. */
  datatype Change =
    | Appeared(uid: Uid, flags: set<Flag>)
    | Gained(uid: Uid, flags: set<Flag>)
    | Lost(uid: Uid, flags: set<Flag>)
    | Vanished(uid: Uid)

  function ChangeOf(e: Event): (c: Change)
    ensures c.uid == e.uid
  {
    match e
    case EnvelopeAdded(u, items) => Appeared(u, Set(FlagsOf(items)))
    case FlagsAdded(u, fs) => Gained(u, Set(fs))
    case FlagsRemoved(u, fs) => Lost(u, Set(fs))
    case EnvelopeRemoved(u) => Vanished(u)
  }

  function Changes(events: seq<Event>): multiset<Change> {
    if events == [] then multiset{}
    else Changes(events[..|events| - 1]) + multiset{ChangeOf(events[|events| - 1])}
  }

  lemma ChangesSnoc(events: seq<Event>, e: Event)
    ensures Changes(events + [e]) == Changes(events) + multiset{ChangeOf(e)}
  {
    assert (events + [e])[..|events|] == events;
  }

  /** What going from one mailbox to another means for one message. */
  function Difference(old': View, new': View, u: Uid): set<Change> {
    if u in old' && u in new' then FlagDifference(u, old'[u], new'[u])
    else if u in new' then {Appeared(u, new'[u])}
    else if u in old' then {Vanished(u)}
    else {}
  }

  function FlagDifference(u: Uid, was: set<Flag>, now: set<Flag>): set<Change> {
    (if now - was == {} then {} else {Gained(u, now - was)}) + (if was - now == {} then {} else {Lost(u, was - now)})
  }

  ghost predicate SameAt(v: View, w: View, u: Uid) {
    (u in v <==> u in w) && (u in v ==> v[u] == w[u])
  }

  /** Messages in `done` are brought up to date and told of once; the others
      are as they were. */
  ghost predicate Progress(old': View, new': View, done: set<Uid>, l: Ledger) {
    UpToDate(old', new', done, ViewOf(l.shadow)) && Told(old', new', done, Changes(l.events))
  }

  ghost predicate UpToDate(old': View, new': View, done: set<Uid>, v: View) {
    forall u: Uid :: SameAt(v, if u in done then new' else old', u)
  }

  ghost predicate Told(old': View, new': View, done: set<Uid>, changes: multiset<Change>) {
    forall c: Change :: changes[c] == if c.uid in done && c in Difference(old', new', c.uid) then 1 else 0
  }

  /** Telling of one more message, when it was not told of yet. */
  lemma TellOne(old': View, new': View, done: set<Uid>, changes: multiset<Change>, u: Uid)
    requires Told(old', new', done, changes)
    ensures Told(old', new', done + {u}, changes + multiset(if u in done then {} else Difference(old', new', u)))
  {
    var told := if u in done then {} else Difference(old', new', u);
    var changes' := changes + multiset(told);
    forall c: Change
      ensures changes'[c] == if c.uid in done + {u} && c in Difference(old', new', c.uid) then 1 else 0
    {
      assert multiset(told)[c] == if c in told then 1 else 0;
      assert c in Difference(old', new', u) ==> c.uid == u;
    }
  }

  lemma DropProgress(old': View, new': View, done: set<Uid>, l: Ledger, u: Uid)
    requires Progress(old', new', done, l)
    requires u !in done && u in old' && u !in new'
    ensures Progress(old', new', done + {u}, Drop(l, u))
  {
    ChangesSnoc(l.events, EnvelopeRemoved(u));
    TellOne(old', new', done, Changes(l.events), u);
    var v, v' := ViewOf(l.shadow), ViewOf(l.shadow - {u});
    forall w: Uid ensures SameAt(v', if w in done + {u} then new' else old', w) {
      assert SameAt(v, if w in done then new' else old', w);
    }
  }

  /** A present message told of for the first time, or again. */
  lemma AbsorbProgress(old': View, new': View, done: set<Uid>, l: Ledger, u: Uid, items: seq<DataItem>)
    requires Progress(old', new', done, l)
    requires u in new' && new'[u] == Set(FlagsOf(items))
    ensures Progress(old', new', done + {u}, Absorb(l, u, items))
  {
    hide Difference, Absorb, Changes, SameAt;
    var v := ViewOf(l.shadow);
    assert SameAt(v, if u in done then new' else old', u);
    AbsorbChanges(l, u, items);
    AbsorbDifference(old', new', done, l, u, items);
    TellOne(old', new', done, Changes(l.events), u);
    AbsorbUpToDate(old', new', done, l, u, items);
  }

  lemma AbsorbUpToDate(old': View, new': View, done: set<Uid>, l: Ledger, u: Uid, items: seq<DataItem>)
    requires UpToDate(old', new', done, ViewOf(l.shadow))
    requires u in new' && new'[u] == Set(FlagsOf(items))
    ensures UpToDate(old', new', done + {u}, ViewOf(Absorb(l, u, items).shadow))
  {
    var v, v' := ViewOf(l.shadow), ViewOf(Absorb(l, u, items).shadow);
    forall w: Uid ensures SameAt(v', if w in done + {u} then new' else old', w) {
      assert SameAt(v, if w in done then new' else old', w);
    }
  }

  lemma AbsorbDifference(old': View, new': View, done: set<Uid>, l: Ledger, u: Uid, items: seq<DataItem>)
    requires SameAt(ViewOf(l.shadow), if u in done then new' else old', u)
    requires u in new' && new'[u] == Set(FlagsOf(items))
    ensures Difference(ViewOf(l.shadow), ViewOf(Absorb(l, u, items).shadow), u)
         == if u in done then {} else Difference(old', new', u)
  {
  }

  /** The events of one report are the difference it makes. */
  lemma AbsorbChanges(l: Ledger, u: Uid, items: seq<DataItem>)
    ensures var l' := Absorb(l, u, items);
            Changes(l'.events)
            == Changes(l.events) + multiset(Difference(ViewOf(l.shadow), ViewOf(l'.shadow), u))
  {
    hide Changes, FlagEvents, FlagDifference, FlagsOf, Set;
    if u in l.shadow {
      FlagEventsChanges(l.events, u, l.shadow[u], FlagsOf(items));
    } else {
      ChangesSnoc(l.events, EnvelopeAdded(u, items));
    }
  }

  lemma FlagEventsChanges(events: seq<Event>, u: Uid, was: seq<Flag>, now: seq<Flag>)
    ensures Changes(events + FlagEvents(u, was, now))
         == Changes(events) + multiset(FlagDifference(u, Set(was), Set(now)))
  {
    hide Changes, Minus, Set;
    var added, removed := Minus(now, was), Minus(was, now);
    EmptySet(added);
    EmptySet(removed);
    var first := if added == [] then [] else [FlagsAdded(u, added)];
    var second := if removed == [] then [] else [FlagsRemoved(u, removed)];
    assert events + FlagEvents(u, was, now) == events + first + second;
    MaybeChange(events, added != [], FlagsAdded(u, added));
    MaybeChange(events + first, removed != [], FlagsRemoved(u, removed));
    var gained := if added == [] then {} else {Gained(u, Set(added))};
    var lost := if removed == [] then {} else {Lost(u, Set(removed))};
    assert multiset(gained + lost) == multiset(gained) + multiset(lost);
  }

  lemma MaybeChange(events: seq<Event>, present: bool, e: Event)
    ensures Changes(events + if present then [e] else [])
         == Changes(events) + multiset(if present then {ChangeOf(e)} else {})
  {
    if present {
      ChangesSnoc(events, e);
    } else {
      assert events + [] == events;
    }
  }

  lemma EmptySet(s: seq<Flag>)
    ensures s == [] <==> Set(s) == {}
  {
    if s != [] {
      assert s[0] in Set(s);
    }
  }

  lemma {:induction false} DropAllProgress(old': View, new': View, done: set<Uid>, l: Ledger, uids: seq<Uid>)
    requires Progress(old', new', done, l)
    requires forall u :: u in uids ==> u !in done && u in old' && u !in new'
    requires forall i, j :: 0 <= i < j < |uids| ==> uids[i] < uids[j]
    ensures Progress(old', new', done + Set(uids), DropAll(l, uids))
  {
    if uids == [] {
      assert done + Set(uids) == done;
    } else {
      var init, last := uids[..|uids| - 1], uids[|uids| - 1];
      DropAllProgress(old', new', done, l, init);
      SetSnoc(uids);
      assert last in uids && last !in init;
      DropProgress(old', new', done + Set(init), DropAll(l, init), last);
      assert done + Set(uids) == done + Set(init) + {last};
    }
  }

  /** Overlapping ranges remove each message once. */
  lemma {:induction false} DropRangesProgress(old': View, new': View, l: Ledger, ranges: seq<Range>)
    requires Progress(old', new', {}, l)
    requires forall u :: u in old' && Covered(ranges, u) ==> u !in new'
    ensures Progress(old', new', CoveredIn(old', ranges), DropRanges(l, ranges))
  {
    hide Told, DropAll;
    var gone := CoveredIn(old', ranges);
    if ranges == [] {
      assert gone == {};
    } else {
      var init, r := ranges[..|ranges| - 1], ranges[|ranges| - 1];
      var before := CoveredIn(old', init);
      CoveredSnoc(ranges);
      DropRangesProgress(old', new', l, init);
      var l' := DropRanges(l, init);
      var uids := Ascending(Within(l'.shadow, r.lo, r.hi));
      forall u | u in uids ensures u !in before && u in old' && u !in new' {
        assert SameAt(ViewOf(l'.shadow), if u in before then new' else old', u);
        assert u in ViewOf(l'.shadow);
        assert u in before ==> Covered(init, u);
        assert Covered(ranges, u);
      }
      DropAllProgress(old', new', before, l', uids);
      forall u: Uid ensures u in gone <==> u in before + Set(uids) {
        assert SameAt(ViewOf(l'.shadow), if u in before then new' else old', u);
        assert u in ViewOf(l'.shadow) <==> u in l'.shadow;
      }
      assert gone == before + Set(uids);
    }
  }

  lemma CoveredSnoc(ranges: seq<Range>)
    requires ranges != []
    ensures forall u: Uid ::
      Covered(ranges, u) <==>
      Covered(ranges[..|ranges| - 1], u) || ranges[|ranges| - 1].lo <= u <= ranges[|ranges| - 1].hi
  {
    var init, r := ranges[..|ranges| - 1], ranges[|ranges| - 1];
    forall u: Uid ensures Covered(ranges, u) <==> Covered(init, u) || r.lo <= u <= r.hi {
      if Covered(init, u) {
        var k :| 0 <= k < |init| && init[k].lo <= u <= init[k].hi;
        assert ranges[k] == init[k];
      }
      if Covered(ranges, u) {
        var k :| 0 <= k < |ranges| && ranges[k].lo <= u <= ranges[k].hi;
        assert k < |init| ==> init[k] == ranges[k];
      }
    }
  }

  ghost predicate Reports(new': View, items: seq<DataItem>) {
    UidOf(items).Some? && UidOf(items).value in new' && new'[UidOf(items).value] == Set(FlagsOf(items))
  }

  lemma {:induction false} AbsorbFetchesProgress(old': View, new': View, done: set<Uid>, l: Ledger,
                                                 fetches: seq<seq<DataItem>>)
    requires Progress(old', new', done, l)
    requires forall items :: items in fetches ==> Reports(new', items)
    ensures Progress(old', new', done + Reported(fetches), AbsorbFetches(l, fetches))
  {
    if fetches == [] {
      assert done + Reported(fetches) == done;
    } else {
      var init, items := fetches[..|fetches| - 1], fetches[|fetches| - 1];
      AbsorbFetchesProgress(old', new', done, l, init);
      assert items in fetches;
      AbsorbProgress(old', new', done + Reported(init), AbsorbFetches(l, init), UidOf(items).value, items);
      assert done + Reported(fetches) == done + Reported(init) + {UidOf(items).value};
    }
  }

  function Reported(fetches: seq<seq<DataItem>>): set<Uid> {
    if fetches == [] then {}
    else
      Reported(fetches[..|fetches| - 1])
      + if UidOf(fetches[|fetches| - 1]).Some? then {UidOf(fetches[|fetches| - 1]).value} else {}
  }

  lemma {:induction false} AbsorbSnapshotProgress(old': View, new': View, done: set<Uid>, l: Ledger,
                                                  snapshot: Snapshot, uids: seq<Uid>)
    requires Progress(old', new', done, l)
    requires forall u :: u in uids ==> u in snapshot && u in new' && new'[u] == Set(FlagsOf(snapshot[u]))
    ensures Progress(old', new', done + Set(uids), AbsorbSnapshot(l, snapshot, uids))
  {
    if uids == [] {
      assert done + Set(uids) == done;
    } else {
      var init, last := uids[..|uids| - 1], uids[|uids| - 1];
      AbsorbSnapshotProgress(old', new', done, l, snapshot, init);
      SetSnoc(uids);
      AbsorbProgress(old', new', done + Set(init), AbsorbSnapshot(l, snapshot, init), last, snapshot[last]);
      assert done + Set(uids) == done + Set(init) + {last};
    }
  }

  /** Once every message that differs has been told of, nothing else is left. */
  lemma Finished(old': View, new': View, done: set<Uid>, l: Ledger)
    requires Progress(old', new', done, l)
    requires forall u: Uid :: u !in done ==> SameAt(old', new', u)
    ensures ViewOf(l.shadow) == new'
    ensures forall c: Change :: Changes(l.events)[c] == if c in Difference(old', new', c.uid) then 1 else 0
  {
    var v := ViewOf(l.shadow);
    forall u: Uid ensures SameAt(v, new', u) {
      assert SameAt(v, if u in done then new' else old', u);
    }
    assert forall u :: u in v ==> SameAt(v, new', u);
    assert forall u :: u in new' ==> SameAt(v, new', u);
    assert v.Keys == new'.Keys;
    forall c: Change ensures Changes(l.events)[c] == if c in Difference(old', new', c.uid) then 1 else 0 {
      assert c.uid !in done ==> SameAt(old', new', c.uid);
    }
  }

  function SnapshotView(snapshot: Snapshot): View {
    map u | u in snapshot :: Set(FlagsOf(snapshot[u]))
  }

  /** A QRESYNC answer that tells the truth about `snapshot` to a client
      holding `shadow`: the ranges name every message gone and none present,
      the FETCHes are right about present messages and miss none that changed. */
  ghost predicate Truthful(shadow: Shadow, snapshot: Snapshot, ranges: seq<Range>, changed: seq<seq<DataItem>>) {
    var old', new' := ViewOf(shadow), SnapshotView(snapshot);
    (forall u :: u in old' ==> (Covered(ranges, u) <==> u !in new'))
    && (forall items :: items in changed ==> Reports(new', items))
    && (forall u: Uid :: u in new' && !SameAt(old', new', u) ==> u in Reported(changed))
  }

  lemma StartProgress(shadow: Shadow, new': View)
    ensures Progress(ViewOf(shadow), new', {}, Ledger(shadow, []))
  {
    forall c: Change ensures Changes([])[c] == 0 {
    }
  }

  lemma SnapshotMeaning(shadow: Shadow, snapshot: Snapshot)
    ensures var l := SnapshotDeltas(Ledger(shadow, []), snapshot);
            ViewOf(l.shadow) == SnapshotView(snapshot)
            && forall c: Change ::
                 Changes(l.events)[c] == if c in Difference(ViewOf(shadow), SnapshotView(snapshot), c.uid) then 1 else 0
  {
    var old', new' := ViewOf(shadow), SnapshotView(snapshot);
    var l := Ledger(shadow, []);
    var gone, all := Ascending(shadow.Keys - snapshot.Keys), Ascending(snapshot.Keys);
    StartProgress(shadow, new');
    DropAllProgress(old', new', {}, l, gone);
    AbsorbSnapshotProgress(old', new', {} + Set(gone), DropAll(l, gone), snapshot, all);
    Finished(old', new', {} + Set(gone) + Set(all), SnapshotDeltas(l, snapshot));
  }

  lemma QresyncMeaning(shadow: Shadow, snapshot: Snapshot, ranges: seq<Range>, changed: seq<seq<DataItem>>)
    requires Truthful(shadow, snapshot, ranges, changed)
    ensures var l := QresyncDeltas(Ledger(shadow, []), ranges, changed);
            ViewOf(l.shadow) == SnapshotView(snapshot)
            && forall c: Change ::
                 Changes(l.events)[c] == if c in Difference(ViewOf(shadow), SnapshotView(snapshot), c.uid) then 1 else 0
  {
    var old', new' := ViewOf(shadow), SnapshotView(snapshot);
    var l := Ledger(shadow, []);
    var gone := CoveredIn(old', ranges);
    StartProgress(shadow, new');
    DropRangesProgress(old', new', l, ranges);
    AbsorbFetchesProgress(old', new', gone, DropRanges(l, ranges), changed);
    Finished(old', new', gone + Reported(changed), QresyncDeltas(l, ranges, changed));
  }

  /** Both paths bring the shadow to the same mailbox and tell the same
      changes, each once: one event per appearance, gain, loss and removal. */
  lemma PathsAgree(shadow: Shadow, snapshot: Snapshot, ranges: seq<Range>, changed: seq<seq<DataItem>>)
    requires Truthful(shadow, snapshot, ranges, changed)
    ensures var q := QresyncDeltas(Ledger(shadow, []), ranges, changed);
            var s := SnapshotDeltas(Ledger(shadow, []), snapshot);
            ViewOf(q.shadow) == ViewOf(s.shadow) && Changes(q.events) == Changes(s.events)
  {
    SnapshotMeaning(shadow, snapshot);
    QresyncMeaning(shadow, snapshot, ranges, changed);
  }

  lemma AscendingOne(u: Uid)
    ensures Ascending({u}) == [u]
  {
    AscendingCons(u, {});
    assert {u} + {} == {u};
  }

  lemma DropOne(l: Ledger, u: Uid)
    requires u in l.shadow
    ensures DropRange(l, Interval(u, u)) == Drop(l, u)
  {
    WalkIsExpansion(l, u, u);
    assert ExpandRange(Drop(l, u), u + 1, u) == Drop(l, u);
  }

  const TWO: Shadow := map[1 := [], 2 := []]
  const DOWNWARD: seq<Range> := [Interval(2, 2), Interval(1, 1)]

  lemma DownwardIsTruthful()
    ensures Truthful(TWO, map[], DOWNWARD, [])
  {
    hide Ascending;
    assert DOWNWARD[0].lo <= 2 <= DOWNWARD[0].hi && DOWNWARD[1].lo <= 1 <= DOWNWARD[1].hi;
    assert forall u :: u in ViewOf(TWO) ==> u in TWO && (u == 1 || u == 2);
  }

  lemma DownwardDrops()
    ensures DropRanges(Ledger(TWO, []), DOWNWARD) == Drop(Drop(Ledger(TWO, []), 2), 1)
  {
    hide DropRange, Drop;
    var l := Ledger(TWO, []);
    assert DOWNWARD[..1] == [Interval(2, 2)] && DOWNWARD[..1][..0] == [];
    assert DropRanges(l, DOWNWARD[..1]) == DropRange(l, Interval(2, 2));
    DropOne(l, 2);
    DropLeaves(l, 2, 1);
    DropOne(Drop(l, 2), 1);
  }

  lemma DropLeaves(l: Ledger, u: Uid, v: Uid)
    requires u != v && v in l.shadow
    ensures v in Drop(l, u).shadow
  {
  }

  lemma SnapshotDrops()
    ensures DropAll(Ledger(TWO, []), Ascending({1, 2})) == Drop(Drop(Ledger(TWO, []), 1), 2)
  {
    hide Drop, Ascending;
    var l := Ledger(TWO, []);
    AscendingOne(2);
    AscendingCons(1, {2});
    assert {1} + {2} == {1, 2};
    var gone: seq<Uid> := [1, 2];
    assert gone[..1] == [1] && gone[..1][..0] == [] && [1] + [2] == gone;
    assert DropAll(l, gone[..1]) == Drop(DropAll(l, []), 1);
  }

  /** The same events, but not always in the same order: the ranges of an answer
      may come in any order, the snapshot is walked in ascending order. */
  lemma OrderDiffers()
    ensures Truthful(TWO, map[], DOWNWARD, [])
    ensures QresyncDeltas(Ledger(TWO, []), DOWNWARD, []).events == [EnvelopeRemoved(2), EnvelopeRemoved(1)]
    ensures SnapshotDeltas(Ledger(TWO, []), map[]).events == [EnvelopeRemoved(1), EnvelopeRemoved(2)]
  {
    hide Truthful, DropRanges, DropAll, Ascending;
    DownwardIsTruthful();
    DownwardDrops();
    SnapshotDrops();
    var none: Snapshot := map[];
    assert TWO.Keys - none.Keys == {1, 2} && none.Keys == {};
    NoneAscending();
  }

  lemma NoneAscending()
    ensures Ascending({}) == []
  {
  }

  /** The removals of a VANISHED answer are the known messages its ranges
      name, each once, in whatever way the ranges overlap. */
  lemma VanishedMeaning(shadow: Shadow, ranges: seq<Range>)
    ensures var l := DropRanges(Ledger(shadow, []), ranges);
            (forall u: Uid :: u in l.shadow <==> u in shadow && !Covered(ranges, u))
            && (forall c: Change :: Changes(l.events)[c]
                  == if c.Vanished? && c.uid in shadow && Covered(ranges, c.uid) then 1 else 0)
  {
    hide DropRanges, Changes, Progress, Covered, Difference;
    var old' := ViewOf(shadow);
    var new' := map u | u in old' && !Covered(ranges, u) :: old'[u];
    var gone := CoveredIn(old', ranges);
    var l := DropRanges(Ledger(shadow, []), ranges);
    StartProgress(shadow, new');
    DropRangesProgress(old', new', Ledger(shadow, []), ranges);
    Finished(old', new', gone, l);
    forall u: Uid ensures u in l.shadow <==> u in shadow && !Covered(ranges, u) {
      assert u in l.shadow <==> u in ViewOf(l.shadow);
    }
    forall c: Change
      ensures Changes(l.events)[c] == if c.Vanished? && c.uid in shadow && Covered(ranges, c.uid) then 1 else 0
    {
      assert Changes(l.events)[c] == if c in Difference(old', new', c.uid) then 1 else 0;
      GoneDifference(old', new', c.uid);
    }
  }

  /** When messages only go, a message that stays makes no difference. */
  lemma GoneDifference(old': View, new': View, u: Uid)
    requires u in new' ==> u in old' && new'[u] == old'[u]
    ensures Difference(old', new', u) == if u in old' && u !in new' then {Vanished(u)} else {}
  {
  }
}
