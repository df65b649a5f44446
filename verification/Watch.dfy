/** The mailbox watcher: a state machine over its sub-exchanges, keeping a
    shadow of the mailbox and a queue of events to emit. */
module Watch {
  import opened Octets
  import opened Ids
  import opened WatchLedger

  /** What an EXAMINE answers, as far as the watch looks at it. */
  datatype SelectData = SelectData(
    uidValidity: Option<Uid>,
    highestModSeq: Option<nat>,
    vanishedEarlier: seq<Range>,
    changed: seq<seq<DataItem>>)

  datatype Error =
    | MissingUidValidity
    | MissingHighestModSeq
    | UidValidityChanged(known: Uid, seen: Uid)
    | SubExchange

  datatype State =
    | EnableQresync
    | ExamineInitial(condstore: bool)
    | FetchBaseline
    | BeginIdle
    | Idle
    | Waiting
    | ExamineQresync(uidValidity: Uid, modSeq: nat)
    | ExamineResync
    | FetchResync
    | EmitDeltas
    | Terminal

  datatype Request = WantsTag | WantsRead | WantsWrite

  datatype Yield = Io(request: Request) | WantsWait | Emitted(event: Event)

  datatype Outcome = Continue | Yielded(yielded: Yield) | Done | Failed(error: Error)

  /** What the sub-exchange of the current state comes back with. */
  datatype Sub =
    | Asks(request: Request)
    | Enabled
    | Examined(data: SelectData)
    | Fetched(messages: seq<seq<DataItem>>)
    | IdleSawData
    | IdleEnded
    | Broke

  /** The states that drive a sub-exchange. */
  predicate Delegates(state: State) {
    !(state.BeginIdle? || state.Waiting? || state.EmitDeltas? || state.Terminal?)
  }

  /** The answers each sub-exchange can give, besides asking and failing. */
  predicate Fits(state: State, sub: Sub) {
    (Delegates(state) && !sub.Asks? && !sub.Broke?) ==>
      match state
      case EnableQresync => sub.Enabled?
      case FetchBaseline => sub.Fetched?
      case FetchResync => sub.Fetched?
      case Idle => sub.IdleSawData? || sub.IdleEnded?
      case _ => sub.Examined?
  }

  function EventsOf(outcomes: seq<Outcome>): seq<Event> {
    if outcomes == [] then []
    else
      var last := outcomes[|outcomes| - 1];
      EventsOf(outcomes[..|outcomes| - 1])
      + if last.Yielded? && last.yielded.Emitted? then [last.yielded.event] else []
  }

  /** A FETCH answer as a map from UID to items; the last one of a UID stays. */
  function SnapshotOf(messages: seq<seq<DataItem>>): (s: Snapshot)
    ensures forall u :: u in s ==> UidOf(s[u]) == Some(u)
  {
    if messages == [] then map[]
    else
      var last := messages[|messages| - 1];
      var s := SnapshotOf(messages[..|messages| - 1]);
      if UidOf(last).Some? then s[UidOf(last).value := last] else s
  }

  /** A FETCH without a UID is passed over; of several of one UID the last counts. */
  lemma {:induction false} SnapshotMeansLast(messages: seq<seq<DataItem>>, i: nat)
    requires i < |messages| && UidOf(messages[i]).Some?
    requires forall j :: i < j < |messages| ==> UidOf(messages[j]) != UidOf(messages[i])
    ensures var u := UidOf(messages[i]).value; u in SnapshotOf(messages) && SnapshotOf(messages)[u] == messages[i]
  {
    hide UidOf;
    var init := messages[..|messages| - 1];
    if i < |init| {
      assert forall j :: 0 <= j < |init| ==> init[j] == messages[j];
      SnapshotMeansLast(init, i);
    }
  }

  lemma {:induction false} SnapshotMeansAny(messages: seq<seq<DataItem>>, u: Uid)
    requires forall i :: 0 <= i < |messages| ==> UidOf(messages[i]) != Some(u)
    ensures u !in SnapshotOf(messages)
  {
    hide UidOf;
    if messages != [] {
      var init := messages[..|messages| - 1];
      assert forall j :: 0 <= j < |init| ==> init[j] == messages[j];
      SnapshotMeansAny(init, u);
    }
  }

  /** The events are those yielded, in order. */
  lemma {:induction false} EventsMeaning(a: seq<Outcome>, b: seq<Outcome>)
    ensures EventsOf(a + b) == EventsOf(a) + EventsOf(b)
    ensures |b| == 1 ==>
              EventsOf(b) == match b[0] case Yielded(Emitted(event)) => [event] case _ => []
  {
    if b == [] {
      assert a + b == a;
    } else {
      var init, last := b[..|b| - 1], b[|b| - 1];
      EventsMeaning(a, init);
      assert (a + b)[..|a + b| - 1] == a + init;
      assert |b| == 1 ==> init == [];
    }
  }

  class MailboxWatch {
    const qresync: bool
    const poll: bool
    var state: State
    var idleSawData: bool
    var uidValidity: Option<Uid>
    var highestModSeq: nat
    var shadow: Shadow
    var pending: seq<Event>
    /** The mailbox as first seen, and every event emitted since. */
    ghost var baseline: View
    ghost var emitted: seq<Event>

    /** At every point of every run: emitted events, then queued ones, lead
        from the baseline to the shadow; the queue is only ever non-empty while
        it is being emitted; and the UIDVALIDITY is known before it is needed. */
    ghost predicate Valid()
      reads this
    {
      Replay(baseline, emitted + pending) == Some(ViewOf(shadow))
      && (!state.EmitDeltas? ==> pending == [])
      && (Opening(state) ==> shadow == map[] && emitted == [] && pending == [])
      && (state.EnableQresync? || state.ExamineInitial? ==> uidValidity.None?)
      && (state.FetchBaseline? || !(Opening(state) || state.Terminal?) ==> uidValidity.Some?)
      && (state.ExamineQresync? ==>
            qresync && uidValidity == Some(state.uidValidity) && state.modSeq == ResyncPoint())
      && (state.ExamineResync? || state.FetchResync? ==> !qresync)
    }

    /** Changes are asked for since the last known point, never since 0. */
    function ResyncPoint(): (n: nat)
      ensures n > 0 && (highestModSeq > 0 ==> n == highestModSeq)
      reads this`highestModSeq
    {
      if highestModSeq == 0 then 1 else highestModSeq
    }

    static predicate Opening(state: State) {
      state.EnableQresync? || state.ExamineInitial? || state.FetchBaseline?
    }

    constructor (qresyncAdvertised: bool, poll: bool)
      ensures Valid() && qresync == qresyncAdvertised && this.poll == poll
      ensures state == if qresync then EnableQresync else ExamineInitial(false)
      ensures shadow == map[] && pending == [] && emitted == [] && uidValidity == None
    {
      qresync, this.poll := qresyncAdvertised, poll;
      state := if qresyncAdvertised then EnableQresync else ExamineInitial(false);
      idleSawData, uidValidity, highestModSeq := false, None, 0;
      shadow, pending, baseline, emitted := map[], [], map[], [];
      new;
      assert ViewOf(shadow) == baseline && emitted + pending == [];
    }

    /** The re-read after a wake; QRESYNC resumes from the last known state. */
    method Resync() returns (s: State)
      requires qresync ==> uidValidity.Some?
      ensures s == if qresync then ExamineQresync(uidValidity.value, ResyncPoint()) else ExamineResync
    {
      if !qresync {
        return ExamineResync;
      }
      return ExamineQresync(uidValidity.value, if highestModSeq == 0 then 1 else highestModSeq);
    }

    /** The watch ends exactly when both UIDVALIDITYs are known and differ. */
    method CheckUidValidity(data: SelectData) returns (e: Option<Error>)
      ensures e.Some? <==> uidValidity.Some? && data.uidValidity.Some? && uidValidity != data.uidValidity
      ensures e.Some? ==> e.value == UidValidityChanged(uidValidity.value, data.uidValidity.value)
    {
      if uidValidity.None? || data.uidValidity.None? {
        return None;
      }
      if uidValidity.value != data.uidValidity.value {
        return Some(UidValidityChanged(uidValidity.value, data.uidValidity.value));
      }
      return None;
    }

    /** One list minus another, by filtering. */
    static method Filter(a: seq<Flag>, b: seq<Flag>) returns (r: seq<Flag>)
      ensures r == Minus(a, b)
    {
      r := [];
      for i := 0 to |a|
        invariant r == Minus(a[..i], b)
      {
        assert a[..i + 1][..i] == a[..i];
        if a[i] !in b {
          r := r + [a[i]];
        }
      }
      assert a[..|a|] == a;
    }

    method PushFlagDeltas(uid: Uid, was: seq<Flag>, now: seq<Flag>)
      modifies this`pending
      ensures pending == old(pending) + FlagEvents(uid, was, now)
    {
      var added := Filter(now, was);
      var removed := Filter(was, now);
      if added != [] {
        pending := pending + [FlagsAdded(uid, added)];
      }
      if removed != [] {
        pending := pending + [FlagsRemoved(uid, removed)];
      }
      assert pending == old(pending) + FlagEvents(uid, was, now);
    }

    method Insert(uid: Uid, items: seq<DataItem>, now: seq<Flag>)
      requires now == FlagsOf(items)
      modifies this`shadow, this`pending
      ensures Ledger(shadow, pending) == Absorb(Ledger(old(shadow), old(pending)), uid, items)
    {
      var was := shadow;
      shadow := shadow[uid := now];
      if uid !in was {
        pending := pending + [EnvelopeAdded(uid, items)];
      } else {
        PushFlagDeltas(uid, was[uid], now);
      }
    }

    method Remove(uids: seq<Uid>)
      modifies this`shadow, this`pending
      ensures Ledger(shadow, pending) == DropAll(Ledger(old(shadow), old(pending)), uids)
    {
      ghost var l := Ledger(shadow, pending);
      for i := 0 to |uids|
        invariant Ledger(shadow, pending) == DropAll(l, uids[..i])
      {
        assert uids[..i + 1][..i] == uids[..i];
        shadow := shadow - {uids[i]};
        pending := pending + [EnvelopeRemoved(uids[i])];
      }
      assert uids[..|uids|] == uids;
    }

    method ComputeSnapshotDeltas(snapshot: Snapshot)
      modifies this`shadow, this`pending
      ensures Ledger(shadow, pending) == SnapshotDeltas(Ledger(old(shadow), old(pending)), snapshot)
    {
      hide Absorb, AbsorbSnapshot, DropAll, FlagsOf;
      ghost var l := Ledger(shadow, pending);
      var vanished := Ascending(shadow.Keys - snapshot.Keys);
      Remove(vanished);
      ghost var l' := Ledger(shadow, pending);
      var uids := Ascending(snapshot.Keys);
      AbsorbSnapshotNone(l', snapshot);
      for i := 0 to |uids|
        invariant Ledger(shadow, pending) == AbsorbSnapshot(l', snapshot, uids[..i])
      {
        AbsorbSnapshotStep(l', snapshot, uids, i);
        assert uids[i] in uids;
        var _, flags := ExtractUidFlags(snapshot[uids[i]]);
        Insert(uids[i], snapshot[uids[i]], flags);
      }
      assert uids[..|uids|] == uids;
    }

    method ComputeDeltas(data: SelectData)
      modifies this`shadow, this`pending
      ensures Ledger(shadow, pending)
           == QresyncDeltas(Ledger(old(shadow), old(pending)), data.vanishedEarlier, data.changed)
    {
      ghost var l := Ledger(shadow, pending);
      var ranges := data.vanishedEarlier;
      for i := 0 to |ranges|
        invariant Ledger(shadow, pending) == DropRanges(l, ranges[..i])
      {
        assert ranges[..i + 1][..i] == ranges[..i];
        var uids := Ascending(Within(shadow, ranges[i].lo, ranges[i].hi));
        Remove(uids);
      }
      assert ranges[..|ranges|] == ranges;
      ghost var l' := Ledger(shadow, pending);
      for i := 0 to |data.changed|
        invariant Ledger(shadow, pending) == AbsorbFetches(l', data.changed[..i])
      {
        assert data.changed[..i + 1][..i] == data.changed[..i];
        var uid, flags := ExtractUidFlags(data.changed[i]);
        if uid.Some? {
          Insert(uid.value, data.changed[i], flags);
        }
      }
      assert data.changed[..|data.changed|] == data.changed;
    }

    method SeedBaseline(messages: seq<seq<DataItem>>)
      requires shadow == map[]
      modifies this`shadow
      ensures ViewOf(shadow) == SnapshotView(SnapshotOf(messages))
    {
      hide ViewOf, SnapshotView, SnapshotOf, UidOf, FlagsOf;
      EmptyView();
      for i := 0 to |messages|
        invariant ViewOf(shadow) == SnapshotView(SnapshotOf(messages[..i]))
      {
        SnapshotViewStep(messages, i);
        var uid, flags := ExtractUidFlags(messages[i]);
        if uid.Some? {
          ViewInsert(shadow, uid.value, flags);
          shadow := shadow[uid.value := flags];
        }
      }
      assert messages[..|messages|] == messages;
    }

    method CollectSnapshot(messages: seq<seq<DataItem>>) returns (snapshot: Snapshot)
      ensures snapshot == SnapshotOf(messages)
    {
      snapshot := map[];
      for i := 0 to |messages|
        invariant snapshot == SnapshotOf(messages[..i])
      {
        assert messages[..i + 1][..i] == messages[..i];
        var uid, _ := ExtractUidFlags(messages[i]);
        if uid.Some? {
          snapshot := snapshot[uid.value := messages[i]];
        }
      }
      assert messages[..|messages|] == messages;
    }

    /** What a completed EXAMINE of a running watch leads to. */
    method ExamineAgain(data: SelectData, was: State) returns (o: Outcome)
      requires was.ExamineQresync? || was.ExamineResync?
      requires state.Terminal? && pending == [] && uidValidity.Some? && (was.ExamineResync? <==> !qresync)
      requires Replay(baseline, emitted) == Some(ViewOf(shadow))
      modifies this
      ensures Valid() && uidValidity == old(uidValidity) && baseline == old(baseline) && emitted == old(emitted)
      ensures was.ExamineResync? ==> highestModSeq == old(highestModSeq)
      ensures data.uidValidity.Some? && data.uidValidity != uidValidity ==>
                o == Failed(UidValidityChanged(uidValidity.value, data.uidValidity.value))
                && state.Terminal? && shadow == old(shadow) && pending == []
      ensures (data.uidValidity.None? || data.uidValidity == uidValidity) ==>
                o == Continue
                && if was.ExamineResync? then state == FetchResync && shadow == old(shadow) && pending == []
                   else state == EmitDeltas
                        && highestModSeq == (if data.highestModSeq.Some? then data.highestModSeq.value else old(highestModSeq))
                        && Ledger(shadow, pending)
                           == QresyncDeltas(Ledger(old(shadow), []), data.vanishedEarlier, data.changed)
    {
      assert emitted + [] == emitted;
      var e := CheckUidValidity(data);
      if e.Some? {
        return Failed(e.value);
      }
      if was.ExamineResync? {
        state := FetchResync;
        return Continue;
      }
      var l := Ledger(shadow, pending);
      ComputeDeltas(data);
      QresyncFaithful(ViewOf(l.shadow), l, data.vanishedEarlier, data.changed);
      ReplayAppend(baseline, emitted, pending);
      if data.highestModSeq.Some? {
        highestModSeq := data.highestModSeq.value;
      }
      state := EmitDeltas;
      return Continue;
    }

    /** The first EXAMINE fixes the UIDVALIDITY, and for QRESYNC the resync point. */
    method ExamineFirst(data: SelectData) returns (o: Outcome)
      requires state.Terminal? && uidValidity.None?
      requires shadow == map[] && emitted == [] && pending == [] && Replay(baseline, []) == Some(map[])
      modifies this`state, this`uidValidity, this`highestModSeq
      ensures Valid()
      ensures if data.uidValidity.None? then o == Failed(MissingUidValidity) && state.Terminal?
              else uidValidity == data.uidValidity
                   && if qresync && data.highestModSeq.None? then o == Failed(MissingHighestModSeq) && state.Terminal?
                      else o == Continue && state == FetchBaseline
                           && (qresync ==> highestModSeq == data.highestModSeq.value)
    {
      assert emitted + pending == [] && ViewOf(shadow) == map[];
      if data.uidValidity.None? {
        return Failed(MissingUidValidity);
      }
      uidValidity := data.uidValidity;
      if qresync {
        if data.highestModSeq.None? {
          return Failed(MissingHighestModSeq);
        }
        highestModSeq := data.highestModSeq.value;
      }
      state := FetchBaseline;
      return Continue;
    }

    /** The first FETCH is the baseline; nothing is told of it. */
    method Seed(messages: seq<seq<DataItem>>)
      requires state.Terminal? && uidValidity.Some? && shadow == map[] && emitted == [] && pending == []
      modifies this`state, this`shadow, this`baseline
      ensures Valid() && state == BeginIdle && baseline == ViewOf(shadow) == SnapshotView(SnapshotOf(messages))
    {
      SeedBaseline(messages);
      baseline := ViewOf(shadow);
      assert emitted + pending == [];
      state := BeginIdle;
    }

    /** A later FETCH of the whole mailbox is diffed against the shadow. */
    method FetchAgain(messages: seq<seq<DataItem>>)
      requires state.Terminal? && pending == [] && uidValidity.Some? && !qresync
      requires Replay(baseline, emitted) == Some(ViewOf(shadow))
      modifies this`state, this`shadow, this`pending
      ensures Valid() && state == EmitDeltas
      ensures Ledger(shadow, pending) == SnapshotDeltas(Ledger(old(shadow), []), SnapshotOf(messages))
    {
      var snapshot := CollectSnapshot(messages);
      var l := Ledger(shadow, pending);
      ComputeSnapshotDeltas(snapshot);
      SnapshotFaithful(ViewOf(l.shadow), l, snapshot);
      ReplayAppend(baseline, emitted, pending);
      state := EmitDeltas;
    }

    /** The arms of a sub-exchange that came to its end. */
    method Answered(was: State, sub: Sub, shutdown: bool) returns (o: Outcome)
      requires Delegates(was) && Fits(was, sub) && !sub.Asks? && !sub.Broke?
      requires state.Terminal? && pending == [] && Replay(baseline, emitted) == Some(ViewOf(shadow))
      requires Opening(was) ==> shadow == map[] && emitted == []
      requires uidValidity.Some? <==> !(was.EnableQresync? || was.ExamineInitial?)
      requires was.ExamineQresync? ==> qresync
      requires was.ExamineResync? || was.FetchResync? ==> !qresync
      modifies this
      ensures Valid() && !o.Yielded? && emitted == old(emitted)
      ensures old(uidValidity).Some? ==> uidValidity == old(uidValidity)
      ensures o.Done? || o.Failed? ==> state.Terminal?
      ensures !Opening(was) ==> !Opening(state) && baseline == old(baseline)
      ensures !(was.ExamineInitial? || was.ExamineQresync?) ==> highestModSeq == old(highestModSeq)
      ensures !(was.FetchBaseline? || was.FetchResync? || was.ExamineQresync?) ==> shadow == old(shadow) && pending == []
      ensures was.EnableQresync? ==> o == Continue && state == ExamineInitial(true)
      ensures was.ExamineInitial? ==>
                if sub.data.uidValidity.None? then o == Failed(MissingUidValidity)
                else uidValidity == sub.data.uidValidity
                     && if qresync && sub.data.highestModSeq.None? then o == Failed(MissingHighestModSeq)
                        else o == Continue && state == FetchBaseline
                             && (qresync ==> highestModSeq == sub.data.highestModSeq.value)
      ensures was.FetchBaseline? ==>
                o == Continue && state == BeginIdle && pending == []
                && baseline == ViewOf(shadow) == SnapshotView(SnapshotOf(sub.messages))
      ensures was.Idle? ==>
                if sub.IdleSawData? then o == Continue && state == Idle && idleSawData
                else if shutdown then o == Done
                else o == Continue && if old(idleSawData) then Resyncing() else state == BeginIdle
      ensures was.FetchResync? ==>
                o == Continue && state == EmitDeltas
                && Ledger(shadow, pending) == SnapshotDeltas(Ledger(old(shadow), []), SnapshotOf(sub.messages))
      ensures (was.ExamineQresync? || was.ExamineResync?)
              && sub.data.uidValidity.Some? && sub.data.uidValidity != old(uidValidity) ==>
                o == Failed(UidValidityChanged(old(uidValidity).value, sub.data.uidValidity.value))
                && shadow == old(shadow) && pending == []
      ensures was.ExamineResync?
              && (sub.data.uidValidity.None? || sub.data.uidValidity == old(uidValidity)) ==>
                o == Continue && state == FetchResync && shadow == old(shadow) && pending == []
      ensures was.ExamineQresync?
              && (sub.data.uidValidity.None? || sub.data.uidValidity == old(uidValidity)) ==>
                o == Continue && state == EmitDeltas
                && highestModSeq == (if sub.data.highestModSeq.Some? then sub.data.highestModSeq.value else old(highestModSeq))
                && Ledger(shadow, pending)
                   == QresyncDeltas(Ledger(old(shadow), []), sub.data.vanishedEarlier, sub.data.changed)
    {
      hide Replay, ViewOf, QresyncDeltas, SnapshotDeltas, SnapshotView, SnapshotOf;
      assert emitted + pending == emitted;
      match was {
        case EnableQresync =>
          state := ExamineInitial(true);
          o := Continue;
        case ExamineInitial(_) =>
          assert ViewOf(map[]) == map[] by { EmptyView(); }
          o := ExamineFirst(sub.data);
        case FetchBaseline =>
          Seed(sub.messages);
          o := Continue;
        case Idle =>
          if sub.IdleSawData? {
            idleSawData := true;
            state := was;
            return Continue;
          }
          if shutdown {
            return Done;
          }
          if idleSawData {
            state := Resync();
          } else {
            state := BeginIdle;
          }
          o := Continue;
        case FetchResync =>
          FetchAgain(sub.messages);
          o := Continue;
        case ExamineQresync(_, _) => o := ExamineAgain(sub.data, was);
        case ExamineResync => o := ExamineAgain(sub.data, was);
      }
    }

    /** The arms of the states that drive no sub-exchange. */
    method Moved(was: State, shutdown: bool) returns (o: Outcome)
      requires !Delegates(was) && state.Terminal? && (!was.EmitDeltas? ==> pending == [])
      requires Replay(baseline, emitted + pending) == Some(ViewOf(shadow))
      requires !was.Terminal? ==> uidValidity.Some?
      modifies this`state, this`idleSawData, this`pending, this`emitted
      ensures Valid()
      ensures emitted == old(emitted) + if o.Yielded? && o.yielded.Emitted? then [o.yielded.event] else []
      ensures o.Done? ==> state.Terminal? && pending == []
      ensures !o.Failed? && !Opening(state)
      ensures was.BeginIdle? || was.Waiting? ==>
                if shutdown then o == Done
                else if was.Waiting? then o == Continue && Resyncing()
                else if poll then o == Yielded(WantsWait) && state == Waiting
                else o == Continue && state == Idle && !idleSawData
      ensures was.EmitDeltas? ==>
                if old(pending) == [] then o == Continue && state == BeginIdle
                else o == Yielded(Emitted(old(pending)[0])) && state == EmitDeltas && pending == old(pending)[1..]
      ensures was.Terminal? ==> o == Done
    {
      hide Replay, ViewOf;
      assert pending == [] ==> emitted + pending == emitted;
      assert emitted + [] == emitted;
      match was {
        case BeginIdle =>
          if shutdown {
            return Done;
          }
          if poll {
            state := Waiting;
            return Yielded(WantsWait);
          }
          idleSawData := false;
          state := Idle;
          o := Continue;
        case Waiting =>
          if shutdown {
            return Done;
          }
          state := Resync();
          o := Continue;
        case EmitDeltas =>
          if pending != [] {
            var event := pending[0];
            assert emitted + pending == emitted + [event] + pending[1..];
            pending := pending[1..];
            emitted := emitted + [event];
            state := EmitDeltas;
            return Yielded(Emitted(event));
          }
          state := BeginIdle;
          o := Continue;
        case Terminal => o := Done;
      }
    }

    /** Asking for what changed, keyed on what is known, or for everything. */
    ghost predicate Resyncing()
      reads this`state, this`uidValidity, this`highestModSeq
    {
      if qresync then
        state.ExamineQresync? && uidValidity == Some(state.uidValidity)
        && state.modSeq > 0 && (highestModSeq > 0 ==> state.modSeq == highestModSeq)
      else state.ExamineResync?
    }

    /** One turn of the loop in `resume`. Whatever the sub-exchange answers and
        whenever the shutdown flag is raised, the watch stays consistent, keeps
        its UIDVALIDITY, emits events in queue order, and stops cleanly only
        with nothing queued. */
    method Step(sub: Sub, shutdown: bool) returns (o: Outcome)
      requires Valid() && Fits(state, sub)
      modifies this
      ensures Valid()
      ensures old(uidValidity).Some? ==> uidValidity == old(uidValidity)
      ensures emitted == old(emitted) + if o.Yielded? && o.yielded.Emitted? then [o.yielded.event] else []
      ensures o.Done? || o.Failed? ==> state.Terminal? && pending == []
      ensures !Opening(old(state)) ==> !Opening(state) && baseline == old(baseline)
      ensures Delegates(old(state)) && sub.Asks? ==>
                o == Yielded(Io(sub.request)) && state == old(state) && shadow == old(shadow) && pending == old(pending)
                && highestModSeq == old(highestModSeq) && idleSawData == old(idleSawData)
      ensures Delegates(old(state)) && sub.Broke? ==> o == Failed(SubExchange) && shadow == old(shadow)
      ensures old(state).BeginIdle? || old(state).Waiting? ==>
                if shutdown then o == Done
                else if old(state).Waiting? then o == Continue && Resyncing()
                else if poll then o == Yielded(WantsWait) && state == Waiting
                else o == Continue && state == Idle && !idleSawData
      ensures old(state).EmitDeltas? ==>
                if old(pending) == [] then o == Continue && state == BeginIdle
                else o == Yielded(Emitted(old(pending)[0])) && state == EmitDeltas && pending == old(pending)[1..]
      ensures old(state).Terminal? ==> o == Done
      ensures !(old(state).ExamineInitial? || old(state).ExamineQresync?) ==> highestModSeq == old(highestModSeq)
      ensures !(old(state).FetchBaseline? || old(state).FetchResync? || old(state).ExamineQresync?) ==>
                shadow == old(shadow) && (!old(state).EmitDeltas? ==> pending == [])
      ensures old(state).EnableQresync? && !sub.Asks? && !sub.Broke? ==> o == Continue && state == ExamineInitial(true)
      ensures old(state).ExamineInitial? && !sub.Asks? && !sub.Broke? ==>
                if sub.data.uidValidity.None? then o == Failed(MissingUidValidity)
                else uidValidity == sub.data.uidValidity
                     && if qresync && sub.data.highestModSeq.None? then o == Failed(MissingHighestModSeq)
                        else o == Continue && state == FetchBaseline
                             && (qresync ==> highestModSeq == sub.data.highestModSeq.value)
      ensures old(state).FetchBaseline? && !sub.Asks? && !sub.Broke? ==>
                o == Continue && state == BeginIdle && pending == []
                && baseline == ViewOf(shadow) == SnapshotView(SnapshotOf(sub.messages))
      ensures old(state).Idle? && !sub.Asks? && !sub.Broke? ==>
                if sub.IdleSawData? then o == Continue && state == Idle && idleSawData
                else if shutdown then o == Done
                else o == Continue && if old(idleSawData) then Resyncing() else state == BeginIdle
      ensures old(state).FetchResync? && !sub.Asks? && !sub.Broke? ==>
                o == Continue && state == EmitDeltas
                && Ledger(shadow, pending) == SnapshotDeltas(Ledger(old(shadow), []), SnapshotOf(sub.messages))
      ensures (old(state).ExamineQresync? || old(state).ExamineResync?) && !sub.Asks? && !sub.Broke?
              && sub.data.uidValidity.Some? && sub.data.uidValidity != old(uidValidity) ==>
                o == Failed(UidValidityChanged(old(uidValidity).value, sub.data.uidValidity.value))
                && shadow == old(shadow) && pending == []
      ensures old(state).ExamineResync? && !sub.Asks? && !sub.Broke?
              && (sub.data.uidValidity.None? || sub.data.uidValidity == old(uidValidity)) ==>
                o == Continue && state == FetchResync && shadow == old(shadow) && pending == []
      ensures old(state).ExamineQresync? && !sub.Asks? && !sub.Broke?
              && (sub.data.uidValidity.None? || sub.data.uidValidity == old(uidValidity)) ==>
                o == Continue && state == EmitDeltas
                && highestModSeq == (if sub.data.highestModSeq.Some? then sub.data.highestModSeq.value else old(highestModSeq))
                && Ledger(shadow, pending)
                   == QresyncDeltas(Ledger(old(shadow), []), sub.data.vanishedEarlier, sub.data.changed)
    {
      hide Replay, ViewOf, QresyncDeltas, SnapshotDeltas, SnapshotView, SnapshotOf;
      assert pending == [] ==> emitted + pending == emitted;
      assert emitted + [] == emitted;
      var was := state;
      state := Terminal;
      if !Delegates(was) {
        o := Moved(was, shutdown);
        return;
      }
      // Every arm that drives a sub-exchange passes on its requests and its failure.
      if sub.Asks? {
        state := was;
        return Yielded(Io(sub.request));
      }
      if sub.Broke? {
        return Failed(SubExchange);
      }
      o := Answered(was, sub, shutdown);
    }

    /** A run: any number of turns, each with any answer that fits. What was
        emitted is what the caller was yielded, in order, and at the end, as at
        every turn before, it leads with the queue from the baseline to the
        shadow; after a clean stop nothing is left in the queue. */
    method Run(script: seq<(Sub, bool)>) returns (outcomes: seq<Outcome>)
      requires Valid()
      modifies this
      ensures Valid()
      ensures emitted == old(emitted) + EventsOf(outcomes)
      ensures old(uidValidity).Some? ==> uidValidity == old(uidValidity)
      ensures !Opening(old(state)) ==> baseline == old(baseline)
      ensures outcomes != [] && outcomes[|outcomes| - 1].Done? ==>
                Replay(baseline, emitted) == Some(ViewOf(shadow))
    {
      hide Valid, Fits, Delegates, Replay, ViewOf, QresyncDeltas, SnapshotDeltas, SnapshotOf;
      outcomes := [];
      var i := 0;
      while i < |script| && Fits(state, script[i].0)
        invariant i <= |script| && Valid()
        invariant emitted == old(emitted) + EventsOf(outcomes)
        invariant old(uidValidity).Some? ==> uidValidity == old(uidValidity)
        invariant !Opening(old(state)) ==> !Opening(state) && baseline == old(baseline)
        invariant outcomes != [] && outcomes[|outcomes| - 1].Done? ==> pending == []
      {
        var o := Step(script[i].0, script[i].1);
        assert (outcomes + [o])[..|outcomes|] == outcomes;
        outcomes := outcomes + [o];
        i := i + 1;
      }
      NothingQueued();
    }

    /** With nothing queued, what was emitted alone leads to the shadow. */
    lemma NothingQueued()
      requires Valid()
      ensures pending == [] ==> Replay(baseline, emitted) == Some(ViewOf(shadow))
    {
      assert emitted + [] == emitted;
    }
  }

  lemma AbsorbSnapshotNone(l: Ledger, snapshot: Snapshot)
    ensures AbsorbSnapshot(l, snapshot, []) == l
  {
  }

  lemma EmptyView()
    ensures ViewOf(map[]) == map[] == SnapshotView(SnapshotOf([]))
  {
  }

  lemma ViewInsert(shadow: Shadow, uid: Uid, flags: seq<Flag>)
    ensures ViewOf(shadow[uid := flags]) == ViewOf(shadow)[uid := Set(flags)]
  {
  }

  lemma SnapshotViewStep(messages: seq<seq<DataItem>>, i: nat)
    requires i < |messages|
    ensures var v, items := SnapshotView(SnapshotOf(messages[..i])), messages[i];
            SnapshotView(SnapshotOf(messages[..i + 1]))
            == if UidOf(items).Some? then v[UidOf(items).value := Set(FlagsOf(items))] else v
  {
    hide UidOf, FlagsOf;
    assert messages[..i + 1][..i] == messages[..i];
  }

  lemma {:induction false} ReplayAppend(v: View, a: seq<Event>, b: seq<Event>)
    ensures Replay(v, a + b)
         == match Replay(v, a) case None => None case Some(w) => Replay(w, b)
  {
    if b == [] {
      assert a + b == a;
    } else {
      ReplayAppend(v, a, b[..|b| - 1]);
      assert (a + b)[..|a + b| - 1] == a + b[..|b| - 1];
    }
  }
}
