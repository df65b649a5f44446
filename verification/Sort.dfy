/** The SORT coroutine: the server's order, or SEARCH, chunked FETCH and a
    local sort. */
module Sort {
  import opened Octets
  import opened Ids
  import opened SortOrder

  const MAX_CHUNK: nat := 255

  type Messages = map<Id, Items>

  datatype Kind = Fine | Refused | Malformed

  datatype Error = No | Bad | Bye | MissingTagged | MissingData | SubExchange

  datatype State = ServerSort | Search | Fetch(chunk: seq<Id>)

  /** What the sub-exchange of the state comes back with. */
  datatype Sub =
    | Asks
    | Answered(bye: bool, tagged: Option<Kind>, sorted: Option<seq<Id>>)
    | Found(ids: seq<Id>)
    | Fetched(messages: Messages)
    | Broke

  datatype Outcome = Continue | Yielded | Done(ids: seq<Id>) | Failed(error: Error)

  predicate Fits(state: State, sub: Sub) {
    sub.Asks? || sub.Broke?
    || match state
       case ServerSort => sub.Answered?
       case Search => sub.Found?
       case Fetch(_) => sub.Fetched?
  }

  /** The messages fetched, in sequence-number order. */
  function EntriesOf(messages: Messages): (s: seq<Entry>)
    ensures InMailboxOrder(s)
  {
    var ids := Ascending(messages.Keys);
    seq(|ids|, i requires 0 <= i < |ids| => assert ids[i] in ids; Entry(ids[i], messages[ids[i]]))
  }

  lemma EntriesOfMeaning(messages: Messages, e: Entry)
    ensures e in EntriesOf(messages) <==> e.number in messages && messages[e.number] == e.items
  {
    var ids, s := Ascending(messages.Keys), EntriesOf(messages);
    if e in s {
      var i :| 0 <= i < |s| && s[i] == e;
      assert ids[i] in ids;
    }
    if e.number in messages && messages[e.number] == e.items {
      assert e.number in ids;
      var i :| 0 <= i < |ids| && ids[i] == e.number;
      assert s[i] == e;
    }
  }

  /** The sequence number, or the UID where there is one. */
  function IdOf(uid: bool, e: Entry): (ids: seq<Id>)
    ensures |ids| <= 1
  {
    if !uid then [e.number] else if UidOf(e.items).Some? then [UidOf(e.items).value] else []
  }

  function IdsOf(uid: bool, entries: seq<Entry>): seq<Id> {
    if entries == [] then [] else IdOf(uid, entries[0]) + IdsOf(uid, entries[1..])
  }

  lemma {:induction false} IdsOfAppend(uid: bool, s: seq<Entry>, t: seq<Entry>)
    ensures IdsOf(uid, s + t) == IdsOf(uid, s) + IdsOf(uid, t)
  {
    hide IdOf;
    if s == [] {
      assert s + t == t;
    } else {
      IdsOfAppend(uid, s[1..], t);
      assert (s + t)[1..] == s[1..] + t;
      Associative(IdOf(uid, s[0]), IdsOf(uid, s[1..]), IdsOf(uid, t));
    }
  }

  lemma IdsOfOne(uid: bool, e: Entry)
    ensures IdsOf(uid, [e]) == IdOf(uid, e)
  {
    assert [e][1..] == [];
  }

  /** Without UIDs the ids are the sequence numbers of the entries, one each; with
      them, each entry gives the first UID it holds, one without is passed over. */
  lemma {:induction false} IdsMeaning(uid: bool, entries: seq<Entry>, i: nat)
    requires i < |entries|
    ensures IdsOf(uid, entries) == IdsOf(uid, entries[..i]) + IdsOf(uid, [entries[i]]) + IdsOf(uid, entries[i + 1..])
    ensures !uid ==> |IdsOf(uid, entries)| == |entries| && IdsOf(uid, entries)[i] == entries[i].number
    ensures uid ==> forall k :: (0 <= k < |entries[i].items| && entries[i].items[k].UidItem?
                                 && forall j :: 0 <= j < k ==> !entries[i].items[j].UidItem?) ==>
                      IdsOf(uid, [entries[i]]) == [entries[i].items[k].uid]
    ensures uid && (forall k :: 0 <= k < |entries[i].items| ==> !entries[i].items[k].UidItem?) ==>
              IdsOf(uid, [entries[i]]) == []
  {
    IdsSplit(uid, entries, i);
    NumbersAt(entries, i);
    IdsOfOne(uid, entries[i]);
    ReadsNothing(entries[i].items);
    forall k | 0 <= k < |entries[i].items| && entries[i].items[k].UidItem?
               && (forall j :: 0 <= j < k ==> !entries[i].items[j].UidItem?)
      ensures UidOf(entries[i].items) == Some(entries[i].items[k].uid)
    {
      ReadsFirst(entries[i].items, k);
    }
  }

  lemma IdsSplit(uid: bool, entries: seq<Entry>, i: nat)
    requires i < |entries|
    ensures IdsOf(uid, entries) == IdsOf(uid, entries[..i]) + IdsOf(uid, [entries[i]]) + IdsOf(uid, entries[i + 1..])
  {
    hide IdsOf;
    IdsOfAppend(uid, entries[..i], [entries[i]]);
    IdsOfAppend(uid, entries[..i] + [entries[i]], entries[i + 1..]);
    assert entries[..i] + [entries[i]] + entries[i + 1..] == entries;
  }

  lemma {:induction false} NumbersAt(entries: seq<Entry>, i: nat)
    requires i < |entries|
    ensures |IdsOf(false, entries)| == |entries| && IdsOf(false, entries)[i] == entries[i].number
  {
    if |entries| > 1 {
      NumbersAt(entries[1..], if i > 0 then i - 1 else 0);
    }
  }

  /** The answers of several FETCHes put together, later ones winning. */
  function Merged(answers: seq<Messages>): Messages {
    if answers == [] then map[] else Merged(answers[..|answers| - 1]) + answers[|answers| - 1]
  }

  lemma {:induction false} MergedMeaning(answers: seq<Messages>, i: nat, n: Id)
    requires i < |answers| && n in answers[i] && forall j :: i < j < |answers| ==> n !in answers[j]
    ensures n in Merged(answers) && Merged(answers)[n] == answers[i][n]
  {
    var init := answers[..|answers| - 1];
    if i < |init| {
      assert forall j :: 0 <= j < |init| ==> init[j] == answers[j];
      MergedMeaning(init, i, n);
      assert n !in answers[|answers| - 1];
    }
  }

  lemma {:induction false} MergedOnly(answers: seq<Messages>, n: Id)
    requires forall i :: 0 <= i < |answers| ==> n !in answers[i]
    ensures n !in Merged(answers)
  {
    if answers != [] {
      var init := answers[..|answers| - 1];
      assert forall j :: 0 <= j < |init| ==> init[j] == answers[j];
      MergedOnly(init, n);
    }
  }

  function LocalOrder(read: DateReader, criteria: seq<Criterion>, messages: Messages): seq<Entry> {
    SortBy(read, criteria, EntriesOf(messages))
  }

  /** The entries are the messages, each once. */
  ghost predicate Lists(s: seq<Entry>, messages: Messages) {
    forall e: Entry :: multiset(s)[e] == if e.number in messages && messages[e.number] == e.items then 1 else 0
  }

  lemma EntriesList(messages: Messages)
    ensures Lists(EntriesOf(messages), messages)
  {
    var s := EntriesOf(messages);
    forall e: Entry ensures multiset(s)[e] == if e.number in messages && messages[e.number] == e.items then 1 else 0 {
      EntriesOfMeaning(messages, e);
      DistinctOnce(s, e);
    }
  }

  lemma {:induction false} DistinctOnce(s: seq<Entry>, e: Entry)
    requires InMailboxOrder(s)
    ensures multiset(s)[e] == if e in s then 1 else 0
  {
    if s != [] {
      assert s == [s[0]] + s[1..];
      DistinctOnce(s[1..], e);
      assert s[0] !in s[1..];
    }
  }

  /** Every entry comes ahead of those after it, by the values it holds. */
  ghost predicate InOrder(read: DateReader, criteria: seq<Criterion>, s: seq<Entry>) {
    forall i, j :: 0 <= i < j < |s| ==> Ahead(read, criteria, s[i], s[j])
  }

  lemma InOrderMeaning(read: DateReader, criteria: seq<Criterion>, s: seq<Entry>)
    ensures InOrder(read, criteria, s) <==> SortedEntries(read, criteria, s)
  {
    hide Ahead, Before;
    forall i, j | 0 <= i < j < |s| ensures Ahead(read, criteria, s[i], s[j]) <==> Before(read, criteria, s[i], s[j]) {
      BeforeMeaning(read, criteria, s[i], s[j]);
    }
  }

  /** The local order holds every message fetched once, each ahead of the next:
      by the values of the criteria in turn, or the earlier date, or the lower
      sequence number; and no other sequence does. */
  lemma LocalOrderMeaning(read: DateReader, criteria: seq<Criterion>, messages: Messages)
    ensures var r := LocalOrder(read, criteria, messages);
            InOrder(read, criteria, r) && Lists(r, messages)
            && forall t :: InOrder(read, criteria, t) && Lists(t, messages) ==> t == r
  {
    hide InOrder, SortedEntries, InMailboxOrder;
    var r := LocalOrder(read, criteria, messages);
    SortBySorted(read, criteria, EntriesOf(messages));
    EntriesList(messages);
    InOrderMeaning(read, criteria, r);
    forall t | InOrder(read, criteria, t) && Lists(t, messages) ensures t == r {
      InOrderMeaning(read, criteria, t);
      assert forall e: Entry :: multiset(t)[e] == multiset(r)[e];
      assert multiset(t) == multiset(r);
      SortedUnique(read, criteria, t, r);
    }
  }

  /** The ids returned are those of the messages fetched: every sequence number,
      or every UID the server gave, each as often as messages carry it. */
  lemma LocalIdsMeaning(read: DateReader, criteria: seq<Criterion>, messages: Messages, uid: bool)
    ensures multiset(IdsOf(uid, LocalOrder(read, criteria, messages))) == multiset(IdsOf(uid, EntriesOf(messages)))
  {
    SortedIds(read, criteria, EntriesOf(messages), uid);
  }

  lemma {:induction false} InsertedIds(read: DateReader, criteria: seq<Criterion>, x: Entry, s: seq<Entry>, uid: bool)
    ensures multiset(IdsOf(uid, Insert(read, criteria, x, s))) == multiset(IdOf(uid, x)) + multiset(IdsOf(uid, s))
  {
    hide IdsOf, IdOf, Cmp;
    IdsOfOne(uid, x);
    if s == [] {
      IdsOfAppend(uid, [], [x]);
      assert [] + [x] == [x];
    } else {
      IdsOfAppend(uid, [x], s);
      IdsOfAppend(uid, [s[0]], s[1..]);
      assert [s[0]] + s[1..] == s;
      InsertedIds(read, criteria, x, s[1..], uid);
      IdsOfAppend(uid, [s[0]], Insert(read, criteria, x, s[1..]));
    }
  }

  lemma {:induction false} SortedIds(read: DateReader, criteria: seq<Criterion>, s: seq<Entry>, uid: bool)
    ensures multiset(IdsOf(uid, SortBy(read, criteria, s))) == multiset(IdsOf(uid, s))
  {
    if s != [] {
      SortedIds(read, criteria, s[1..], uid);
      InsertedIds(read, criteria, s[0], SortBy(read, criteria, s[1..]), uid);
    }
  }

  /** Every chunk is as long as can be, given what was left to ask for. */
  ghost predicate Chunked(chunks: seq<seq<Id>>, remaining: seq<Id>) {
    forall i :: 0 <= i < |chunks| ==>
      if i < |chunks| - 1 || remaining != [] then |chunks[i]| == MAX_CHUNK else 1 <= |chunks[i]| <= MAX_CHUNK
  }

  class MessageSort {
    const uid: bool
    const criteria: seq<Criterion>
    const read: DateReader
    var state: State
    var remaining: seq<Id>
    var fetched: Messages
    /** What the search found, the chunks asked for, and what each brought. */
    ghost var searched: seq<Id>
    ghost var chunks: seq<seq<Id>>
    ghost var answers: seq<Messages>

    /** Chunks are 255 long, the last one non-empty, and with what remains they
        are the search result, in order. */
    ghost predicate Valid()
      reads this
    {
      Concat(chunks) + remaining == searched
      && Chunked(chunks, remaining)
      && fetched == Merged(answers)
      && (state.Fetch? ==> |chunks| == |answers| + 1 && state.chunk == chunks[|answers|])
      && (!state.Fetch? ==> chunks == [] && answers == [] && remaining == [])
    }

    constructor (criteria: seq<Criterion>, uid: bool, fallback: bool, read: DateReader)
      ensures Valid() && state == if fallback then Search else ServerSort
      ensures this.criteria == criteria && this.uid == uid && this.read == read
    {
      this.criteria, this.uid, this.read := criteria, uid, read;
      state := if fallback then Search else ServerSort;
      remaining, fetched, searched, chunks, answers := [], map[], [], [], [];
    }

    /** The next chunk, or nothing once every id was asked for. */
    method NextFetch() returns (chunk: Option<seq<Id>>)
      modifies this`remaining
      ensures old(remaining) == [] ==> chunk == None && remaining == []
      ensures old(remaining) != [] ==>
                chunk.Some? && old(remaining) == chunk.value + remaining
                && |chunk.value| == if |old(remaining)| < MAX_CHUNK then |old(remaining)| else MAX_CHUNK
    {
      if remaining == [] {
        return None;
      }
      var take := if |remaining| < MAX_CHUNK then |remaining| else MAX_CHUNK;
      chunk := Some(remaining[..take]);
      remaining := remaining[take..];
    }

    method LocalSort() returns (ids: seq<Id>)
      modifies this`fetched
      ensures fetched == map[]
      ensures ids == IdsOf(uid, LocalOrder(read, criteria, old(fetched)))
    {
      var entries := SortBy(read, criteria, EntriesOf(fetched));
      fetched := map[];
      ids := [];
      for i := 0 to |entries|
        invariant ids == IdsOf(uid, entries[..i]) && fetched == map[]
      {
        assert entries[..i + 1] == entries[..i] + [entries[i]];
        IdsOfAppend(uid, entries[..i], [entries[i]]);
        IdsOfOne(uid, entries[i]);
        if !uid {
          ids := ids + [entries[i].number];
        } else {
          var found := UidOf(entries[i].items);
          if found.Some? {
            ids := ids + [found.value];
          }
        }
      }
      assert entries[..|entries|] == entries;
    }

    /** One turn of the loop in `resume`. The fallback ends with the local order
        of everything fetched, once every searched id was asked for exactly in
        order; the server's own order is returned as it came. */
    method Step(sub: Sub) returns (o: Outcome)
      requires Valid() && Fits(state, sub)
      modifies this
      ensures o.Continue? || o.Yielded? ==> Valid() && (old(state).Fetch? ==> searched == old(searched))
      ensures sub.Asks? ==> o == Yielded && unchanged(this)
      ensures sub.Broke? ==> o == Failed(SubExchange)
      ensures sub.Found? ==> answers == []
      ensures sub.Found? ==> if sub.ids == [] then o == Done([]) else o == Continue && state.Fetch? && searched == sub.ids
      ensures sub.Fetched? ==>
                answers == old(answers) + [sub.messages]
                && if old(remaining) != [] then o == Continue && state.Fetch?
                   else Concat(old(chunks)) == searched == old(searched)
                        && o == Done(IdsOf(uid, LocalOrder(read, criteria, Merged(answers))))
      ensures sub.Answered? ==>
                o == if sub.bye then Failed(Bye)
                     else if sub.tagged.None? then Failed(MissingTagged)
                     else match sub.tagged.value
                          case Fine => if sub.sorted.None? then Failed(MissingData) else Done(sub.sorted.value)
                          case Refused => Failed(No)
                          case Malformed => Failed(Bad)
    {
      hide LocalOrder, IdsOf, Merged, Concat;
      match sub
      case Asks => return Yielded;
      case Broke => return Failed(SubExchange);
      case Answered(bye, tagged, sorted) =>
        if bye {
          return Failed(Bye);
        }
        if tagged.None? {
          return Failed(MissingTagged);
        }
        match tagged.value {
          case Fine => return if sorted.None? then Failed(MissingData) else Done(sorted.value);
          case Refused => return Failed(No);
          case Malformed => return Failed(Bad);
        }
      case Found(ids) => o := SearchArm(ids);
      case Fetched(messages) => o := FetchArm(messages);
    }

    method SearchArm(ids: seq<Id>) returns (o: Outcome)
      requires Valid() && state.Search?
      modifies this
      ensures answers == []
      ensures if ids == [] then o == Done([]) else o == Continue && Valid() && state.Fetch? && searched == ids
    {
      remaining, searched := ids, ids;
      var chunk := NextFetch();
      if chunk.None? {
        return Done([]);
      }
      assert [] + chunk.value + remaining == ids;
      Ask(chunk.value);
      return Continue;
    }

    method FetchArm(messages: Messages) returns (o: Outcome)
      requires Valid() && state.Fetch?
      modifies this
      ensures answers == old(answers) + [messages] && searched == old(searched)
      ensures if old(remaining) != [] then o == Continue && Valid() && state.Fetch?
              else Concat(old(chunks)) == searched
                   && o == Done(IdsOf(uid, LocalOrder(read, criteria, Merged(answers))))
    {
      hide LocalOrder, IdsOf, Concat;
      assert (answers + [messages])[..|answers|] == answers;
      fetched := fetched + messages;
      answers := answers + [messages];
      var chunk := NextFetch();
      if chunk.None? {
        assert Concat(chunks) + [] == Concat(chunks);
        var ids := LocalSort();
        return Done(ids);
      }
      Associative(Concat(chunks), chunk.value, remaining);
      Ask(chunk.value);
      return Continue;
    }

    method Ask(chunk: seq<Id>)
      requires 1 <= |chunk| <= MAX_CHUNK && Concat(chunks) + chunk + remaining == searched
      requires Chunked(chunks, chunk + remaining) && (remaining != [] ==> |chunk| == MAX_CHUNK)
      requires fetched == Merged(answers) && |chunks| == |answers|
      modifies this`state, this`chunks
      ensures Valid() && state == Fetch(chunk) && chunks == old(chunks) + [chunk]
    {
      ConcatAppend(chunks, [chunk]);
      ConcatOne(chunk);
      chunks := chunks + [chunk];
      state := Fetch(chunk);
    }
  }

  /** How many FETCHes it takes to ask for `n` messages. */
  function Fetches(n: nat): (k: nat)
    ensures k * 255 >= n && (n > 0 ==> (k - 1) * 255 < n)
  {
    (n + MAX_CHUNK - 1) / MAX_CHUNK
  }

  lemma {:induction false} FullChunks(chunks: seq<seq<Id>>)
    requires forall c :: c in chunks ==> |c| == MAX_CHUNK
    ensures |Concat(chunks)| == |chunks| * MAX_CHUNK
  {
    if chunks != [] {
      assert chunks[0] in chunks;
      FullChunks(chunks[1..]);
    }
  }

  /** Chunks asked for so far, from what is left to ask for. */
  lemma {:induction false} ChunkCount(chunks: seq<seq<Id>>, remaining: seq<Id>)
    requires Chunked(chunks, remaining)
    ensures remaining == [] ==> |chunks| == Fetches(|Concat(chunks)|)
    ensures remaining != [] ==> |chunks| < Fetches(|Concat(chunks) + remaining|)
  {
    hide Concat;
    if remaining != [] {
      FullChunks(chunks);
    } else if chunks != [] {
      var init, last := chunks[..|chunks| - 1], chunks[|chunks| - 1];
      FullChunks(init);
      assert chunks == init + [last];
      ConcatAppend(init, [last]);
      ConcatOne(last);
      assert |Concat(chunks)| == |init| * MAX_CHUNK + |last|;
    } else {
      FullChunks([]);
    }
  }

  /** A whole fallback run: as many FETCHes as the search result takes, and the
      local order of all they brought together. */
  method RunFallback(m: MessageSort, ids: seq<Id>, answers: seq<Messages>) returns (o: Outcome)
    requires m.Valid() && m.state.Search?
    modifies m
    ensures if ids == [] then o == Done([])
            else if |answers| < Fetches(|ids|) then o == Continue
            else o == Done(IdsOf(m.uid, LocalOrder(m.read, m.criteria, Merged(answers[..Fetches(|ids|)]))))
  {
    hide LocalOrder, IdsOf, Merged, Concat;
    o := m.Step(Found(ids));
    if ids == [] {
      return;
    }
    var i := 0;
    while i < |answers|
      invariant i <= |answers| && o == Continue && m.Valid() && m.state.Fetch? && m.searched == ids
      invariant m.answers == answers[..i] && i < Fetches(|ids|)
    {
      ChunkCount(m.chunks, m.remaining);
      assert answers[..i + 1] == answers[..i] + [answers[i]];
      o := m.Step(Fetched(answers[i]));
      i := i + 1;
      if o.Done? {
        return;
      }
      ChunkCount(m.chunks, m.remaining);
    }
  }
}
