/** The send primitive: serialise one command, pausing before synchronising
    literals, then collect its response. */
module Send {
  import opened Octets
  import opened Parser

  datatype Fragment = Line(data: seq<Octet>) | Literal(data: seq<Octet>, sync: bool)

  type Tag = seq<Octet>

  /** A response, reduced to what the exchange looks at. */
  datatype Response =
    | Data(data: seq<Octet>)
    | Untagged(status: seq<Octet>)
    | Tagged(tag: Tag, status: seq<Octet>)
    | Bye(text: seq<Octet>)
    | Continuation(text: seq<Octet>)

  datatype Decoded =
    | Message(response: Response)
    | Undecodable(bytes: seq<Octet>)
    | Overlong(bytes: seq<Octet>)
    | Poisoned(bytes: seq<Octet>)

  /** One step of the response parser: part of a message, or its end. */
  datatype Progress = Part | Complete(message: Decoded)

  datatype Error =
    | MissingTag
    | InvalidTag
    | Eof
    | DecodingFailure(bytes: seq<Octet>)
    | MessageIsPoisoned(bytes: seq<Octet>)
    | MessageTooLong(bytes: seq<Octet>)

  datatype Output = Output(
    tag: Tag, data: seq<seq<Octet>>, untagged: seq<seq<Octet>>,
    tagged: Option<Response>, bye: Option<Response>, continuation: Option<Response>)

  datatype Step = Ok(output: Output) | WantsTag | WantsRead | WantsWrite(bytes: seq<Octet>) | Err(error: Error)

  /** The caller's argument: a tag, or octets with what they complete in the parser. */
  datatype Arg = Nothing | Bytes(bytes: seq<Octet>, completes: seq<Progress>)

  // ------------------------------------------------------------ what is sent

  /** The whole command, as the encoder means it. */
  function Render(fragments: seq<Fragment>): seq<Octet> {
    if fragments == [] then [] else fragments[0].data + Render(fragments[1..])
  }

  lemma {:induction false} RenderIsConcat(fragments: seq<Fragment>, datas: seq<seq<Octet>>)
    requires |datas| == |fragments| && forall i :: 0 <= i < |fragments| ==> datas[i] == fragments[i].data
    ensures Render(fragments) == Concat(datas)
  {
    if fragments != [] {
      RenderIsConcat(fragments[1..], datas[1..]);
    }
  }

  predicate IsSync(fragment: Fragment) {
    fragment.Literal? && fragment.sync
  }

  function SyncCount(fragments: seq<Fragment>): nat {
    if fragments == [] then 0 else (if IsSync(fragments[0]) then 1 else 0) + SyncCount(fragments[1..])
  }

  function Held(literal: Option<seq<Octet>>): seq<Octet> {
    if literal.Some? then literal.value else []
  }

  function NonEmpty(burst: seq<Octet>): (bursts: seq<seq<Octet>>)
    ensures |bursts| <= 1
  {
    if burst == [] then [] else [burst]
  }

  /** Reference: the writes to make of `buf` and what is left to serialise. */
  function Bursts(buf: seq<Octet>, fragments: seq<Fragment>): seq<seq<Octet>>
    decreases |fragments|
  {
    if fragments == [] then NonEmpty(buf)
    else if IsSync(fragments[0]) then NonEmpty(buf) + Bursts(fragments[0].data, fragments[1..])
    else Bursts(buf + fragments[0].data, fragments[1..])
  }

  lemma ConcatNonEmpty(burst: seq<Octet>)
    ensures Concat(NonEmpty(burst)) == burst
  {
    if burst != [] {
      ConcatOne(burst);
    }
  }

  /** The first of those writes, before empty ones are left out. */
  function NextBurst(buf: seq<Octet>, fragments: seq<Fragment>): seq<Octet>
    decreases |fragments|
  {
    if fragments == [] || IsSync(fragments[0]) then buf else NextBurst(buf + fragments[0].data, fragments[1..])
  }

  /** What a write leaves: the literal held back, and the fragments after it. */
  datatype Paused = Paused(literal: Option<seq<Octet>>, rest: seq<Fragment>)

  function PauseOf(fragments: seq<Fragment>): Paused {
    if fragments == [] then Paused(None, [])
    else if IsSync(fragments[0]) then Paused(Some(fragments[0].data), fragments[1..])
    else PauseOf(fragments[1..])
  }

  /** The writes are the command: nothing lost, added or reordered. */
  lemma {:induction false} BurstsRender(buf: seq<Octet>, fragments: seq<Fragment>)
    ensures Concat(Bursts(buf, fragments)) == buf + Render(fragments)
    decreases |fragments|
  {
    hide NonEmpty, Concat;
    ConcatNonEmpty(buf);
    if fragments != [] {
      var data := fragments[0].data;
      if IsSync(fragments[0]) {
        BurstsRender(data, fragments[1..]);
        ConcatAppend(NonEmpty(buf), Bursts(data, fragments[1..]));
      } else {
        BurstsRender(buf + data, fragments[1..]);
        assert buf + data + Render(fragments[1..]) == buf + (data + Render(fragments[1..]));
      }
    }
  }

  /** Every write but the last stops right before a synchronising literal. */
  lemma {:induction false} BurstsStop(buf: seq<Octet>, fragments: seq<Fragment>, k: nat) returns (i: nat)
    requires 0 < k < |Bursts(buf, fragments)|
    ensures i < |fragments| && fragments[i].Literal? && fragments[i].sync
    ensures Concat(Bursts(buf, fragments)[..k]) == buf + Render(fragments[..i])
    decreases |fragments|
  {
    hide Concat;
    var data, tail := fragments[0].data, fragments[1..];
    ConcatNonEmpty(buf);
    if !IsSync(fragments[0]) {
      var i' := BurstsStop(buf + data, tail, k);
      i := 1 + i';
      RenderTake(fragments, i');
      assert buf + data + Render(tail[..i']) == buf + (data + Render(tail[..i']));
    } else if k == |NonEmpty(buf)| {
      i := 0;
      assert Bursts(buf, fragments)[..k] == NonEmpty(buf);
    } else {
      var n := |NonEmpty(buf)|;
      var i' := BurstsStop(data, tail, k - n);
      i := 1 + i';
      RenderTake(fragments, i');
      assert Bursts(buf, fragments)[..k] == NonEmpty(buf) + Bursts(data, tail)[..k - n];
      ConcatAppend(NonEmpty(buf), Bursts(data, tail)[..k - n]);
    }
  }

  /** And at every synchronising literal a write has stopped. */
  lemma {:induction false} BurstsBreak(buf: seq<Octet>, fragments: seq<Fragment>, i: nat) returns (k: nat)
    requires i < |fragments| && fragments[i].Literal? && fragments[i].sync
    ensures k <= |Bursts(buf, fragments)| && Concat(Bursts(buf, fragments)[..k]) == buf + Render(fragments[..i])
    decreases |fragments|
  {
    hide Concat;
    var data, tail, all := fragments[0].data, fragments[1..], Bursts(buf, fragments);
    ConcatNonEmpty(buf);
    if i == 0 {
      k := |NonEmpty(buf)|;
      assert all[..k] == NonEmpty(buf) && fragments[..0] == [] && buf + [] == buf;
    } else {
      RenderTake(fragments, i - 1);
      if IsSync(fragments[0]) {
        var k' := BurstsBreak(data, tail, i - 1);
        k := |NonEmpty(buf)| + k';
        assert all[..k] == NonEmpty(buf) + Bursts(data, tail)[..k'];
        ConcatAppend(NonEmpty(buf), Bursts(data, tail)[..k']);
      } else {
        k := BurstsBreak(buf + data, tail, i - 1);
        assert buf + data + Render(tail[..i - 1]) == buf + (data + Render(tail[..i - 1]));
      }
    }
  }

  lemma RenderTake(fragments: seq<Fragment>, i: nat)
    requires 1 + i <= |fragments|
    ensures Render(fragments[..1 + i]) == fragments[0].data + Render(fragments[1..][..i])
  {
    assert fragments[..1 + i][1..] == fragments[1..][..i];
  }

  // -------------------------------------------------------- what is received

  /** A response decoded while a literal was held back, or not. */
  datatype Seen = Seen(response: Response, held: bool)

  function DataOf(seen: seq<Seen>): seq<seq<Octet>> {
    if seen == [] then []
    else
      var last := seen[|seen| - 1].response;
      DataOf(seen[..|seen| - 1]) + if last.Data? then [last.data] else []
  }

  function UntaggedOf(seen: seq<Seen>): seq<seq<Octet>> {
    if seen == [] then []
    else
      var last := seen[|seen| - 1].response;
      UntaggedOf(seen[..|seen| - 1]) + if last.Untagged? then [last.status] else []
  }

  predicate IsOwn(tag: Tag, r: Response) {
    r.Tagged? && r.tag == tag
  }

  /** The last completion of the command tagged `tag`. */
  function CompletionOf(tag: Tag, seen: seq<Seen>): (r: Option<Response>)
    ensures r.Some? ==> IsOwn(tag, r.value) && exists s :: s in seen && s.response == r.value
    ensures r.None? ==> forall s :: s in seen ==> !IsOwn(tag, s.response)
  {
    if seen == [] then None
    else
      var last := seen[|seen| - 1].response;
      if IsOwn(tag, last) then Some(last) else CompletionOf(tag, seen[..|seen| - 1])
  }

  function ByeOf(seen: seq<Seen>): (r: Option<Response>)
    ensures r.Some? ==> r.value.Bye? && exists s :: s in seen && s.response == r.value
    ensures r.None? ==> forall s :: s in seen ==> !s.response.Bye?
  {
    if seen == [] then None
    else
      var last := seen[|seen| - 1].response;
      if last.Bye? then Some(last) else ByeOf(seen[..|seen| - 1])
  }

  function ContinuationOf(seen: seq<Seen>): (r: Option<Response>)
    ensures r.Some? ==> r.value.Continuation? && exists s :: s in seen && s.response == r.value
    ensures r.None? ==> forall s :: s in seen ==> !s.response.Continuation?
  {
    if seen == [] then None
    else
      var last := seen[|seen| - 1].response;
      if last.Continuation? then Some(last) else ContinuationOf(seen[..|seen| - 1])
  }

  /** What ends the exchange: its own completion, a BYE, or a continuation
      with no literal held back for it. */
  predicate Ends(tag: Tag, s: Seen) {
    IsOwn(tag, s.response) || s.response.Bye? || (s.response.Continuation? && !s.held)
  }

  /** The last response that decides: a continuation for a held literal takes
      a completion back. */
  predicate DoneBy(tag: Tag, seen: seq<Seen>) {
    seen != []
    && var last := seen[|seen| - 1];
       if Ends(tag, last) then true
       else if last.response.Continuation? then false
       else DoneBy(tag, seen[..|seen| - 1])
  }

  lemma {:induction false} DoneSawEnd(tag: Tag, seen: seq<Seen>)
    requires DoneBy(tag, seen)
    ensures exists s :: s in seen && Ends(tag, s)
  {
    var last := seen[|seen| - 1];
    if Ends(tag, last) {
      assert last in seen;
    } else {
      DoneSawEnd(tag, seen[..|seen| - 1]);
    }
  }

  /** The exchange is over exactly when the command's own completion, a BYE, or a
      continuation with nothing held back was seen, and no continuation since. */
  lemma {:induction false} DoneMeaning(tag: Tag, seen: seq<Seen>)
    ensures DoneBy(tag, seen) <==>
            exists i :: 0 <= i < |seen|
              && ((seen[i].response.Tagged? && seen[i].response.tag == tag) || seen[i].response.Bye?
                  || (seen[i].response.Continuation? && !seen[i].held))
              && forall j :: i < j < |seen| ==> !seen[j].response.Continuation?
  {
    if seen != [] {
      var init, last := seen[..|seen| - 1], seen[|seen| - 1];
      DoneMeaning(tag, init);
      assert forall i :: 0 <= i < |init| ==> init[i] == seen[i];
      if Ends(tag, last) {
        assert seen[|seen| - 1] == last;
      }
    }
  }

  lemma CollectSnoc(tag: Tag, seen: seq<Seen>, s: Seen)
    ensures DataOf(seen + [s]) == DataOf(seen) + if s.response.Data? then [s.response.data] else []
    ensures UntaggedOf(seen + [s]) == UntaggedOf(seen) + if s.response.Untagged? then [s.response.status] else []
    ensures DoneBy(tag, seen + [s])
         == (Ends(tag, s) || (!s.response.Continuation? && DoneBy(tag, seen)))
  {
    assert (seen + [s])[..|seen|] == seen;
  }

  /** Data and statuses are reported in order, nothing else among them. */
  lemma {:induction false} ProjectionsAppend(a: seq<Seen>, b: seq<Seen>)
    ensures DataOf(a + b) == DataOf(a) + DataOf(b)
    ensures UntaggedOf(a + b) == UntaggedOf(a) + UntaggedOf(b)
    ensures |b| == 1 ==>
              DataOf(b) == (if b[0].response.Data? then [b[0].response.data] else [])
              && UntaggedOf(b) == if b[0].response.Untagged? then [b[0].response.status] else []
  {
    if b == [] {
      assert a + b == a;
    } else {
      var init, last := b[..|b| - 1], b[|b| - 1];
      ProjectionsAppend(a, init);
      assert (a + b)[..|a + b| - 1] == a + init;
      Associative(DataOf(a), DataOf(init), if last.response.Data? then [last.response.data] else []);
      Associative(UntaggedOf(a), UntaggedOf(init), if last.response.Untagged? then [last.response.status] else []);
    }
  }

  /** Of several completions, BYEs or continuations the last one is reported. */
  lemma {:induction false} LastReported(tag: Tag, seen: seq<Seen>, i: nat)
    requires i < |seen|
    ensures var r := seen[i].response;
            r.Tagged? && r.tag == tag
            && (forall j :: i < j < |seen| ==> !(seen[j].response.Tagged? && seen[j].response.tag == tag)) ==>
              CompletionOf(tag, seen) == Some(r)
    ensures var r := seen[i].response;
            r.Bye? && (forall j :: i < j < |seen| ==> !seen[j].response.Bye?) ==> ByeOf(seen) == Some(r)
    ensures var r := seen[i].response;
            r.Continuation? && (forall j :: i < j < |seen| ==> !seen[j].response.Continuation?) ==>
              ContinuationOf(seen) == Some(r)
  {
    if i < |seen| - 1 {
      assert forall j :: 0 <= j < |seen| - 1 ==> seen[..|seen| - 1][j] == seen[j];
      LastReported(tag, seen[..|seen| - 1], i);
    }
  }

  lemma StatusSnoc(tag: Tag, seen: seq<Seen>, s: Seen)
    ensures CompletionOf(tag, seen + [s])
         == if IsOwn(tag, s.response) then Some(s.response) else CompletionOf(tag, seen)
    ensures ByeOf(seen + [s]) == if s.response.Bye? then Some(s.response) else ByeOf(seen)
    ensures ContinuationOf(seen + [s]) == if s.response.Continuation? then Some(s.response) else ContinuationOf(seen)
  {
    assert (seen + [s])[..|seen|] == seen;
  }

  function SeenIn(m: Decoded, held: bool): seq<Seen> {
    if m.Message? then [Seen(m.response, held)] else []
  }

  /** Why a message fails the exchange: undecodable and not starting with `* `. */
  function Refusal(m: Decoded): (e: Option<Error>)
    ensures e.Some? ==> e.value.DecodingFailure? || e.value.MessageIsPoisoned? || e.value.MessageTooLong?
  {
    match m
    case Message(_) => None
    case Undecodable(bytes) => if [42, 32] <= bytes then None else Some(DecodingFailure(bytes))
    case Overlong(bytes) => Some(MessageTooLong(bytes))
    case Poisoned(bytes) => Some(MessageIsPoisoned(bytes))
  }

  /** What draining the parser adds to what was seen, and why it fails. */
  datatype Digest = Digest(seen: seq<Seen>, error: Option<Error>, queue: seq<Progress>)

  function DigestOf(held: bool, seen: seq<Seen>, queue: seq<Progress>): (d: Digest)
    ensures d.error.Some? ==>
              d.error.value.DecodingFailure? || d.error.value.MessageIsPoisoned? || d.error.value.MessageTooLong?
    decreases |queue|
  {
    if queue == [] then Digest(seen, None, [])
    else
      match queue[0]
      case Part => DigestOf(held, seen, queue[1..])
      case Complete(m) =>
        var seen' := seen + SeenIn(m, held);
        if Refusal(m).Some? then Digest(seen', Refusal(m), queue[1..]) else DigestOf(held, seen', queue[1..])
  }

  /** A message can be passed over or filed: it was decoded, or it is untagged
      and could not be. */
  ghost predicate Bearable(p: Progress) {
    p.Complete? ==> p.message.Message? || (p.message.Undecodable? && exists rest :: p.message.bytes == [42, 32] + rest)
  }

  lemma RefusalMeaning(m: Decoded)
    ensures Refusal(m).None? <==> Bearable(Complete(m))
    ensures m.Overlong? ==> Refusal(m) == Some(MessageTooLong(m.bytes))
    ensures m.Poisoned? ==> Refusal(m) == Some(MessageIsPoisoned(m.bytes))
    ensures m.Undecodable? && Refusal(m).Some? ==> Refusal(m) == Some(DecodingFailure(m.bytes))
  {
    if m.Undecodable? && [42, 32] <= m.bytes {
      assert m.bytes == [42, 32] + m.bytes[2..];
    }
  }

  /** The responses among the steps, in order. */
  function Responses(held: bool, queue: seq<Progress>): seq<Seen> {
    if queue == [] then []
    else
      (if queue[0].Complete? && queue[0].message.Message? then [Seen(queue[0].message.response, held)] else [])
      + Responses(held, queue[1..])
  }

  /** Draining sees every response up to the first message that cannot be borne,
      which is the error and leaves the steps after it. */
  lemma {:induction false} DigestMeaning(held: bool, seen: seq<Seen>, queue: seq<Progress>, i: nat)
    requires i <= |queue| && forall j :: 0 <= j < i ==> Bearable(queue[j])
    ensures var d := DigestOf(held, seen, queue);
            if i == |queue| then d == Digest(seen + Responses(held, queue), None, [])
            else !Bearable(queue[i]) ==>
              d == Digest(seen + Responses(held, queue[..i]), Refusal(queue[i].message), queue[i + 1..])
    decreases |queue|
  {
    hide Bearable, Refusal;
    if queue == [] {
      assert seen + [] == seen;
    } else if i == 0 {
      assert queue[..0] == [] && seen + [] == seen;
      if !Bearable(queue[0]) {
        UnbearableAt(queue[0]);
      }
    } else {
      var tail := queue[1..];
      var next := seen + if queue[0].Complete? then SeenIn(queue[0].message, held) else [];
      if queue[0].Complete? {
        RefusalMeaning(queue[0].message);
      }
      assert forall j :: 0 <= j < i - 1 ==> tail[j] == queue[j + 1];
      DigestMeaning(held, next, tail, i - 1);
      assert queue[..i][1..] == tail[..i - 1];
      assert DigestOf(held, seen, queue) == DigestOf(held, next, tail) by {
        assert queue[0].Part? ==> next == seen;
      }
      var first := if queue[0].Complete? && queue[0].message.Message? then [Seen(queue[0].message.response, held)] else [];
      Associative(seen, first, Responses(held, tail));
      Associative(seen, first, Responses(held, tail[..i - 1]));
    }
  }

  lemma UnbearableAt(p: Progress)
    requires !Bearable(p)
    ensures p.Complete? && Refusal(p.message).Some? && SeenIn(p.message, true) == SeenIn(p.message, false) == []
  {
    RefusalMeaning(p.message);
  }

  /** Step `i` completes the exchange of the command tagged `tag`, and nothing
      else that is drained with it takes that back or fails. */
  ghost predicate Completing(tag: Tag, held: bool, queue: seq<Progress>, i: nat) {
    i < |queue| && queue[i].Complete? && queue[i].message.Message?
    && (var r := queue[i].message.response;
        (r.Tagged? && r.tag == tag) || r.Bye? || (r.Continuation? && !held))
    && (forall j :: 0 <= j < |queue| ==> Bearable(queue[j]))
    && forall j :: i < j < |queue| && queue[j].Complete? && queue[j].message.Message? ==>
         !queue[j].message.response.Continuation?
  }

  lemma {:induction false} ResponsesAt(held: bool, queue: seq<Progress>, i: nat) returns (k: nat)
    requires i < |queue| && queue[i].Complete? && queue[i].message.Message?
    requires forall j :: i < j < |queue| && queue[j].Complete? && queue[j].message.Message? ==>
               !queue[j].message.response.Continuation?
    ensures k < |Responses(held, queue)| && Responses(held, queue)[k] == Seen(queue[i].message.response, held)
    ensures forall m :: k < m < |Responses(held, queue)| ==> !Responses(held, queue)[m].response.Continuation?
  {
    var tail := queue[1..];
    if i == 0 {
      k := 0;
      NoContinuations(held, tail);
    } else {
      k := ResponsesAt(held, tail, i - 1);
      if queue[0].Complete? && queue[0].message.Message? {
        k := k + 1;
      }
    }
  }

  lemma {:induction false} NoContinuations(held: bool, queue: seq<Progress>)
    requires forall j :: 0 <= j < |queue| && queue[j].Complete? && queue[j].message.Message? ==>
               !queue[j].message.response.Continuation?
    ensures forall m :: 0 <= m < |Responses(held, queue)| ==> !Responses(held, queue)[m].response.Continuation?
  {
    if queue != [] {
      NoContinuations(held, queue[1..]);
    }
  }

  lemma CompletingDone(tag: Tag, held: bool, seen: seq<Seen>, queue: seq<Progress>, i: nat)
    requires Completing(tag, held, queue, i)
    ensures var d := DigestOf(held, seen, queue); d.error.None? && DoneBy(tag, d.seen)
  {
    hide Bearable, DoneBy, DigestOf, Responses;
    DigestMeaning(held, seen, queue, |queue|);
    var k := ResponsesAt(held, queue, i);
    var all := seen + Responses(held, queue);
    DoneMeaning(tag, all);
    assert all[|seen| + k] == Seen(queue[i].message.response, held);
    forall m | |seen| + k < m < |all| ensures !all[m].response.Continuation? {
      assert all[m] == Responses(held, queue)[m - |seen|];
    }
  }

  // ---------------------------------------------------------------- the send

  datatype State = TagState | Serialize | Read | Deserialize

  /** Writes and reads as they happened. */
  datatype Action = Wrote | WasFed

  ghost predicate Separated(log: seq<Action>) {
    forall i :: 0 <= i < |log| - 1 ==> !(log[i].Wrote? && log[i + 1].Wrote?)
  }

  class ImapSend {
    const isTag: Tag -> bool
    const encode: Tag -> seq<Fragment>
    var tagRequested: bool
    var tag: Option<Tag>
    var state: State
    var wantsRead: bool
    var wantsWrite: Option<seq<Octet>>
    var fragments: seq<Fragment>
    var limboLiteral: Option<seq<Octet>>
    var data: seq<seq<Octet>>
    var untagged: seq<seq<Octet>>
    var tagged: Option<Response>
    var bye: Option<Response>
    var cr: Option<Response>
    var done: bool
    /** The command in full, the writes made, the responses decoded, the
        responses of the current read, and for each literal released those of
        the read that released it. */
    ghost var full: seq<Fragment>
    ghost var written: seq<seq<Octet>>
    ghost var seen: seq<Seen>
    ghost var lastRead: seq<Seen>
    ghost var releases: seq<seq<Seen>>
    ghost var log: seq<Action>

    /** What is written, held back and left to serialise is the command. */
    ghost predicate Sending()
      reads this`written, this`wantsWrite, this`limboLiteral, this`fragments, this`full, this`state
    {
      written + (if wantsWrite.Some? then [wantsWrite.value] else [])
      + Bursts(Held(limboLiteral), fragments) == Bursts([], full)
      && (wantsWrite.Some? ==> wantsWrite.value != [])
      && (limboLiteral.None? && !state.Serialize? ==> fragments == [])
    }

    /** What was collected is what was seen, sorted by kind. */
    ghost predicate Collecting()
      reads this`data, this`untagged, this`tagged, this`bye, this`cr, this`done, this`tag, this`seen
    {
      data == DataOf(seen) && untagged == UntaggedOf(seen)
      && bye == ByeOf(seen) && cr == ContinuationOf(seen)
      && (tag.None? ==> seen == [] && tagged.None? && !done)
      && (tag.Some? ==> tagged == CompletionOf(tag.value, seen) && done == DoneBy(tag.value, seen))
    }

    /** A read separates any two writes. */
    ghost predicate Pacing()
      reads this`log, this`state, this`wantsWrite
    {
      Separated(log)
      && (state.Serialize? || state.Deserialize? || wantsWrite.Some? ==> log == [] || log[|log| - 1].WasFed?)
    }

    /** One read releases each synchronising literal, whatever it completed. */
    ghost predicate Pausing()
      reads this`releases, this`limboLiteral, this`fragments, this`full, this`lastRead, this`state
    {
      |releases| + (if limboLiteral.Some? then 1 else 0) + SyncCount(fragments) == SyncCount(full)
      && (state.TagState? ==> lastRead == [])
      && (forall rel, s :: rel in releases && s in rel ==> s.held)
      && (state.Deserialize? || state.Serialize? ==> forall s :: s in lastRead ==> (s.held <==> limboLiteral.Some?))
    }

    ghost predicate Tagging()
      reads this`state, this`tag, this`log, this`written, this`fragments, this`full, this`limboLiteral
    {
      (state.TagState? <==> tag.None?)
      && (state.TagState? ==> log == [] && written == [] && fragments == full == [] && limboLiteral.None?)
    }

    ghost predicate Valid()
      reads this
    {
      Consistent() && !wantsRead && wantsWrite.None?
    }

    ghost predicate Consistent()
      reads this
    {
      Sending() && Collecting() && Pacing() && Pausing() && Tagging()
      && (wantsRead ==> state.Read? && wantsWrite.None?) && (wantsWrite.Some? ==> state.Read?)
    }

    /** Nothing written, read or seen yet. */
    lemma Starts()
      requires data == untagged == [] && tagged.None? && bye.None? && cr.None? && !done && !wantsRead && wantsWrite.None?
      requires limboLiteral.None? && full == fragments && written == [] && seen == [] && lastRead == [] && releases == [] && log == []
      requires (state.TagState? <==> tag.None?) && !state.Deserialize? && (!state.Serialize? ==> fragments == [])
      ensures Consistent()
    {
      assert written + [] + Bursts([], full) == Bursts([], full);
    }

    /** A message that carries no tag of its own, continuing the command `tag`. */
    constructor New(fragments: seq<Fragment>, tag: Tag)
      ensures Valid() && this.tag == Some(tag) && state == Serialize && full == this.fragments == fragments
      ensures limboLiteral == None
      ensures written == [] && seen == [] && log == [] && releases == []
    {
      isTag, encode := _ => false, _ => fragments;
      tagRequested, this.tag, state := false, Some(tag), Serialize;
      wantsRead, wantsWrite, this.fragments, limboLiteral := false, None, fragments, None;
      data, untagged, tagged, bye, cr, done := [], [], None, None, None, false;
      full, written, seen, lastRead, releases, log := fragments, [], [], [], [], [];
      new;
      hide Consistent;
      Starts();
    }

    /** Receive-only: the request was written out of band. */
    constructor Receive(tag: Tag)
      ensures Valid() && this.tag == Some(tag) && state == Read && full == []
      ensures written == [] && seen == [] && log == [] && releases == []
    {
      isTag, encode := _ => false, _ => [];
      tagRequested, this.tag, state := false, Some(tag), Read;
      wantsRead, wantsWrite, fragments, limboLiteral := false, None, [], None;
      data, untagged, tagged, bye, cr, done := [], [], None, None, None, false;
      full, written, seen, lastRead, releases, log := [], [], [], [], [], [];
      new;
      hide Consistent;
      Starts();
    }

    /** A command whose tag the caller supplies. */
    constructor Command(isTag: Tag -> bool, encode: Tag -> seq<Fragment>)
      ensures Valid() && tag == None && state == TagState && !tagRequested
      ensures this.isTag == isTag && this.encode == encode
      ensures written == [] && seen == [] && log == [] && releases == []
    {
      this.isTag, this.encode := isTag, encode;
      tagRequested, tag, state := false, None, TagState;
      wantsRead, wantsWrite, fragments, limboLiteral := false, None, [], None;
      data, untagged, tagged, bye, cr, done := [], [], None, None, None, false;
      full, written, seen, lastRead, releases, log := [], [], [], [], [], [];
      new;
      hide Consistent;
      Starts();
    }

    /** Everything up to the next synchronising literal, which is held back. */
    method SerializeBurst()
      requires Sending() && state.Serialize? && wantsWrite.None?
      modifies this`wantsWrite, this`fragments, this`limboLiteral, this`state
      ensures Sending() && state == Read
      ensures SyncCount(old(fragments)) == SyncCount(fragments) + if limboLiteral.Some? then 1 else 0
      ensures var burst := NextBurst(Held(old(limboLiteral)), old(fragments));
              wantsWrite == (if burst == [] then None else Some(burst))
              && Paused(limboLiteral, fragments) == PauseOf(old(fragments))
    {
      ghost var all := Bursts(Held(limboLiteral), fragments);
      assert written + [] + all == Bursts([], full);
      var buf := Held(limboLiteral);
      limboLiteral := None;
      while fragments != [] && !IsSync(fragments[0])
        invariant limboLiteral.None? && wantsWrite.None?
        invariant PauseOf(fragments) == PauseOf(old(fragments))
        invariant NextBurst(buf, fragments) == NextBurst(Held(old(limboLiteral)), old(fragments))
        invariant Bursts(buf, fragments) == all && SyncCount(fragments) == SyncCount(old(fragments))
        decreases |fragments|
      {
        buf := buf + fragments[0].data;
        fragments := fragments[1..];
      }
      if fragments != [] {
        limboLiteral := Some(fragments[0].data);
        fragments := fragments[1..];
      }
      if buf != [] {
        wantsWrite := Some(buf);
      }
      state := Read;
      ghost var rest := Bursts(Held(limboLiteral), fragments);
      assert all == NonEmpty(buf) + rest;
      assert written + NonEmpty(buf) + rest == written + [] + all;
    }

    /** A response, filed by kind; a completion of another command is not. */
    method File(response: Response)
      requires Collecting() && tag.Some?
      modifies this`data, this`untagged, this`tagged, this`bye, this`cr, this`done, this`seen
      ensures Collecting() && seen == old(seen) + [Seen(response, limboLiteral.Some?)]
    {
      hide DataOf, UntaggedOf, CompletionOf, ByeOf, ContinuationOf, DoneBy;
      ghost var s := Seen(response, limboLiteral.Some?);
      CollectSnoc(tag.value, seen, s);
      StatusSnoc(tag.value, seen, s);
      seen := seen + [s];
      match response {
        case Data(d) => data := data + [d];
        case Untagged(status) => untagged := untagged + [status];
        case Tagged(t, _) =>
          if t == tag.value {
            tagged, done := Some(response), true;
          }
        case Bye(_) => bye, done := Some(response), true;
        case Continuation(_) => cr, done := Some(response), limboLiteral.None?;
      }
    }

    /** One complete message; an untagged one that cannot be decoded is skipped. */
    method Take(m: Decoded) returns (e: Option<Error>)
      requires Collecting() && tag.Some?
      modifies this`data, this`untagged, this`tagged, this`bye, this`cr, this`done, this`seen, this`lastRead
      ensures Collecting()
      ensures seen == old(seen) + SeenIn(m, limboLiteral.Some?)
      ensures lastRead == old(lastRead) + SeenIn(m, limboLiteral.Some?)
      ensures e == Refusal(m)
    {
      match m
      case Message(response) =>
        lastRead := lastRead + [Seen(response, limboLiteral.Some?)];
        File(response);
        return None;
      case Undecodable(bytes) =>
        if [42, 32] <= bytes {
          return None;
        }
        return Some(DecodingFailure(bytes));
      case Overlong(bytes) => return Some(MessageTooLong(bytes));
      case Poisoned(bytes) => return Some(MessageIsPoisoned(bytes));
    }

    /** The tag makes the command; serialising it can begin. */
    method Begin(bytes: Tag)
      requires Consistent() && state.TagState? && wantsWrite.None?
      modifies this`tag, this`full, this`fragments, this`state
      ensures Consistent() && tag == Some(bytes) && full == fragments == encode(bytes) && state == Serialize
      ensures limboLiteral == None
    {
      hide Bursts, SyncCount, Separated, DataOf, UntaggedOf, ByeOf, ContinuationOf;
      tag := Some(bytes);
      fragments := encode(bytes);
      full := fragments;
      state := Serialize;
      assert written + [] + Bursts([], full) == Bursts([], full);
    }

    method SerializeArm()
      requires Consistent() && state.Serialize? && wantsWrite.None?
      modifies this`wantsWrite, this`fragments, this`limboLiteral, this`state, this`releases
      ensures Consistent() && state == Read
      ensures releases == old(releases) + if old(limboLiteral).Some? then [lastRead] else []
      ensures var burst := NextBurst(Held(old(limboLiteral)), old(fragments));
              wantsWrite == (if burst == [] then None else Some(burst))
              && Paused(limboLiteral, fragments) == PauseOf(old(fragments))
    {
      hide Bursts, NextBurst, PauseOf, DataOf, UntaggedOf, CompletionOf, ByeOf, ContinuationOf, DoneBy, Separated, SyncCount;
      if limboLiteral.Some? {
        releases := releases + [lastRead];
      }
      SerializeBurst();
    }

    method ReadArm(frag: Fragmentizer<Progress>, bytes: seq<Octet>, completes: seq<Progress>)
      requires Consistent() && state.Read? && wantsWrite.None? && !wantsRead && bytes != []
      modifies this`lastRead, this`log, this`state, frag
      ensures Consistent() && state == Deserialize && lastRead == [] && frag.queue == old(frag.queue) + completes
    {
      hide Bursts, DataOf, UntaggedOf, CompletionOf, ByeOf, ContinuationOf, DoneBy, SyncCount;
      frag.Enqueue(completes);
      lastRead := [];
      log := log + [WasFed];
      state := Deserialize;
    }

    method MessageArm(m: Decoded) returns (e: Option<Error>)
      requires Consistent() && state.Deserialize?
      modifies this`data, this`untagged, this`tagged, this`bye, this`cr, this`done, this`seen, this`lastRead
      ensures Consistent()
      ensures e == Refusal(m)
      ensures seen == old(seen) + SeenIn(m, limboLiteral.Some?)
      ensures lastRead == old(lastRead) + SeenIn(m, limboLiteral.Some?)
    {
      hide Sending, Collecting, Pacing, Refusal;
      e := Take(m);
    }

    /** The read is used up: the exchange is over, or a held literal goes out
        whatever the read completed, or more is read. */
    method DrainedArm() returns (output: Option<Output>)
      requires Consistent() && state.Deserialize? && wantsWrite.None?
      modifies this`state
      ensures output.None? ==> Consistent() && state == if limboLiteral.Some? then Serialize else Read
      ensures output.Some? <==> DoneBy(tag.value, seen)
      ensures output.Some? ==>
                output.value == Output(tag.value, DataOf(seen), UntaggedOf(seen), CompletionOf(tag.value, seen),
                                       ByeOf(seen), ContinuationOf(seen))
    {
      hide Bursts, DataOf, UntaggedOf, CompletionOf, ByeOf, ContinuationOf, DoneBy, Separated, SyncCount;
      if done {
        return Some(Output(tag.value, data, untagged, tagged, bye, cr));
      }
      state := if limboLiteral.Some? then Serialize else Read;
      return None;
    }

    /** The tag, asked for once. */
    method TagArm(input: Arg) returns (r: Option<Step>)
      requires Consistent() && state.TagState? && wantsWrite.None?
      modifies this`tag, this`full, this`fragments, this`state, this`tagRequested
      ensures r.None? || r == Some(WantsTag) ==> Consistent()
      ensures match input
              case Nothing =>
                r == Some(if old(tagRequested) then Err(MissingTag) else WantsTag)
                && tag == None && full == old(full) && state == TagState
              case Bytes(bytes, _) =>
                if isTag(bytes) then
                  r == None && tag == Some(bytes) && full == fragments == encode(bytes) && state == Serialize && limboLiteral == None
                else r == Some(Err(InvalidTag)) && tag == None && full == old(full)
    {
      hide Sending, Collecting, Pacing, Pausing;
      match input
      case Bytes(bytes, _) =>
        if !isTag(bytes) {
          return Some(Err(InvalidTag));
        }
        Begin(bytes);
        return None;
      case Nothing =>
        if tagRequested {
          return Some(Err(MissingTag));
        }
        tagRequested := true;
        return Some(WantsTag);
    }

    /** Drains the parser. Foreign completions, and untagged responses that
        cannot be decoded, change nothing but the queue. */
    method DeserializeArm(frag: Fragmentizer<Progress>) returns (r: Option<Step>)
      requires Consistent() && state.Deserialize? && wantsWrite.None? && lastRead == []
      modifies this`data, this`untagged, this`tagged, this`bye, this`cr, this`done, this`seen, this`lastRead, this`state, frag
      ensures var d := DigestOf(limboLiteral.Some?, old(seen), old(frag.queue));
              seen == d.seen && frag.queue == d.queue && old(seen) + lastRead == seen
              && match d.error
                 case Some(e) => r == Some(Err(e))
                 case None =>
                   if DoneBy(tag.value, seen) then r == Some(Ok(Collected()))
                   else r == None && Consistent() && state == if limboLiteral.Some? then Serialize else Read
    {
      hide Sending, Collecting, Pacing, Pausing, DataOf, UntaggedOf, CompletionOf, ByeOf, ContinuationOf, DoneBy, Refusal, SeenIn;
      assert seen + lastRead == seen;
      while true
        invariant Consistent() && state.Deserialize? && wantsWrite.None?
        invariant old(seen) + lastRead == seen
        invariant DigestOf(limboLiteral.Some?, seen, frag.queue)
               == DigestOf(limboLiteral.Some?, old(seen), old(frag.queue))
        decreases |frag.queue|
      {
        var p := frag.Advance();
        match p {
          case Some(Complete(m)) =>
            Associative(old(seen), lastRead, SeenIn(m, limboLiteral.Some?));
            var e := MessageArm(m);
            if e.Some? {
              return Some(Err(e.value));
            }
          case Some(Part) =>
          case None =>
            var output := DrainedArm();
            return if output.Some? then Some(Ok(output.value)) else None;
        }
      }
    }

    /** What was seen, sorted by kind, in order. */
    ghost function Collected(): Output
      requires tag.Some?
      reads this`tag, this`seen
    {
      Output(tag.value, DataOf(seen), UntaggedOf(seen), CompletionOf(tag.value, seen), ByeOf(seen), ContinuationOf(seen))
    }

    lemma FlagsMean()
      requires Consistent()
      ensures state.TagState? <==> tag.None?
      ensures wantsWrite.Some? || wantsRead ==> state.Read?
      ensures wantsRead ==> wantsWrite.None?
    {
    }

    method AskRead()
      requires Consistent() && state.Read? && wantsWrite.None?
      modifies this`wantsRead
      ensures Consistent() && wantsRead
    {
      wantsRead := true;
    }

    method YieldArm() returns (r: Step)
      requires Consistent() && (wantsWrite.Some? || wantsRead)
      modifies this`wantsWrite, this`wantsRead, this`written, this`log
      ensures Valid()
      ensures r == (if old(wantsWrite).Some? then WantsWrite(old(wantsWrite).value) else WantsRead) && state == Read
      ensures written == old(written) + if r.WantsWrite? then [r.bytes] else []
    {
      hide Bursts, DataOf, UntaggedOf, CompletionOf, ByeOf, ContinuationOf, DoneBy, SyncCount;
      if wantsWrite.Some? {
        var bytes := wantsWrite.value;
        ghost var left := Bursts(Held(limboLiteral), fragments);
        wantsWrite := None;
        log := log + [Wrote];
        assert written + [bytes] + [] + left == written + [bytes] + left;
        written := written + [bytes];
        return WantsWrite(bytes);
      }
      wantsRead := false;
      return WantsRead;
    }

    /** A read, to its end, from pause `p`: everything it completed is seen; the
        exchange is over exactly when that says so; otherwise a held literal
        goes out, whatever the read completed, or more is read. */
    twostate predicate ReadThrough(frag: Fragmentizer<Progress>, completes: seq<Progress>, r: Step, p: Paused,
                                   released: seq<seq<Seen>>)
      requires tag.Some?
      reads this, frag
    {
      var d := DigestOf(p.literal.Some?, old(seen), old(frag.queue) + completes);
      seen == d.seen && frag.queue == d.queue
      && match d.error
         case Some(e) => r == Err(e) && releases == released
         case None =>
           if DoneBy(tag.value, seen) then r == Ok(Collected()) && releases == released
           else if p.literal.None? then r == WantsRead && Paused(limboLiteral, fragments) == p && releases == released
           else
             var burst := NextBurst(p.literal.value, p.rest);
             r == (if burst == [] then WantsRead else WantsWrite(burst))
             && Paused(limboLiteral, fragments) == PauseOf(p.rest)
             && |seen| >= |old(seen)| && releases == released + [seen[|old(seen)|..]]
    }

    /** What a resume with nothing to write makes of its argument. */
    twostate predicate Takes(frag: Fragmentizer<Progress>, arg: Arg, r: Step, p: Paused, released: seq<seq<Seen>>)
      requires tag.Some?
      reads this, frag
    {
      match arg
      case Nothing =>
        r == WantsRead && Paused(limboLiteral, fragments) == p && releases == released
        && seen == old(seen) && frag.queue == old(frag.queue)
      case Bytes(bytes, completes) => if bytes == [] then r == Err(Eof) else ReadThrough(frag, completes, r, p, released)
    }

    /** Serialises up to the next pause, and yields what there is to write. */
    method BurstArm() returns (r: Option<Step>)
      requires Valid() && state.Serialize?
      modifies this`wantsWrite, this`wantsRead, this`fragments, this`limboLiteral, this`state, this`releases, this`written, this`log
      ensures Valid() && state == Read && Paused(limboLiteral, fragments) == PauseOf(old(fragments))
      ensures var burst := NextBurst(Held(old(limboLiteral)), old(fragments));
              r == (if burst == [] then None else Some(WantsWrite(burst))) && written == old(written) + NonEmpty(burst)
      ensures releases == old(releases) + if old(limboLiteral).Some? then [lastRead] else []
    {
      hide Consistent, NextBurst, PauseOf;
      FlagsMean();
      SerializeArm();
      if wantsWrite.None? {
        return None;
      }
      var step := YieldArm();
      return Some(step);
    }

    /** Reads through one read, then goes on. */
    method Respond(frag: Fragmentizer<Progress>, bytes: seq<Octet>, completes: seq<Progress>) returns (r: Step)
      requires Valid() && state.Read? && bytes != []
      modifies this`lastRead, this`log, this`state, this`data, this`untagged, this`tagged, this`bye, this`cr, this`done,
               this`seen, this`wantsWrite, this`wantsRead, this`fragments, this`limboLiteral, this`releases, this`written, frag
      ensures tag.Some? && ReadThrough(frag, completes, r, Paused(old(limboLiteral), old(fragments)), old(releases))
      ensures r.WantsRead? || r.WantsWrite? ==> Valid() && state == Read
      ensures !r.WantsTag? && r != Err(MissingTag) && r != Err(InvalidTag)
      ensures written == old(written) + if r.WantsWrite? then [r.bytes] else []
    {
      hide Consistent, Collected, DoneBy, NextBurst, PauseOf, DigestOf;
      FlagsMean();
      ReadArm(frag, bytes, completes);
      FlagsMean();
      var step := DeserializeArm(frag);
      if step.Some? {
        return step.value;
      }
      assert seen[|old(seen)|..] == lastRead;
      r := GoOn();
    }

    /** After a read that did not end the exchange. */
    method GoOn() returns (r: Step)
      requires Valid() && (state.Serialize? || state.Read?) && (state.Serialize? <==> limboLiteral.Some?)
      modifies this`wantsWrite, this`wantsRead, this`fragments, this`limboLiteral, this`state, this`releases, this`written, this`log
      ensures Valid() && state == Read && written == old(written) + if r.WantsWrite? then [r.bytes] else []
      ensures if old(limboLiteral).None? then
                r == WantsRead && Paused(limboLiteral, fragments) == Paused(None, old(fragments)) && releases == old(releases)
              else
                var burst := NextBurst(old(limboLiteral).value, old(fragments));
                r == (if burst == [] then WantsRead else WantsWrite(burst))
                && Paused(limboLiteral, fragments) == PauseOf(old(fragments))
                && releases == old(releases) + [lastRead]
    {
      hide Consistent, NextBurst, PauseOf;
      FlagsMean();
      if state.Serialize? {
        var burst := BurstArm();
        if burst.Some? {
          return burst.value;
        }
      }
      AskRead();
      r := YieldArm();
    }

    /** With nothing to write: asks for a read, or reads one through. */
    method Proceed(frag: Fragmentizer<Progress>, input: Arg) returns (r: Step)
      requires Valid() && state.Read?
      modifies this`lastRead, this`log, this`state, this`data, this`untagged, this`tagged, this`bye, this`cr, this`done,
               this`seen, this`wantsWrite, this`wantsRead, this`fragments, this`limboLiteral, this`releases, this`written, frag
      ensures tag.Some? && Takes(frag, input, r, Paused(old(limboLiteral), old(fragments)), old(releases))
      ensures input.Bytes? && input.bytes != []
              && (exists i :: Completing(tag.value, old(limboLiteral).Some?, old(frag.queue) + input.completes, i)) ==>
                r.Ok? && r.output.tag == tag.value
      ensures r.WantsRead? || r.WantsWrite? ==> Valid() && state == Read
      ensures !r.WantsTag? && r != Err(MissingTag) && r != Err(InvalidTag)
      ensures written == old(written) + if r.WantsWrite? then [r.bytes] else []
    {
      hide Consistent, NextBurst, PauseOf, DigestOf, DoneBy, Completing;
      FlagsMean();
      match input {
        case Nothing =>
          AskRead();
          r := YieldArm();
        case Bytes(bytes, completes) =>
          if bytes == [] {
            return Err(Eof);
          }
          ghost var queue, held := frag.queue + completes, limboLiteral.Some?;
          r := Respond(frag, bytes, completes);
          forall i | Completing(tag.value, held, queue, i) ensures r.Ok? && r.output.tag == tag.value {
            CompletingDone(tag.value, held, old(seen), queue, i);
          }
      }
    }

    /** One resume. It always ends, it writes the next of the command's bursts
        at most, and what it reads it reads through. */
    method Resume(frag: Fragmentizer<Progress>, arg: Arg) returns (r: Step)
      requires Valid() && !state.Deserialize?
      modifies this, frag
      ensures r.WantsTag? ==> Valid() && state.TagState?
      ensures r.WantsRead? || r.WantsWrite? ==> Valid() && state.Read?
      ensures written == old(written) + if r.WantsWrite? then [r.bytes] else []
      ensures old(tag).Some? ==> tag == old(tag) && full == old(full)
      ensures old(state).TagState? ==>
                match arg
                case Nothing => r == if old(tagRequested) then Err(MissingTag) else WantsTag
                case Bytes(bytes, _) =>
                  if !isTag(bytes) then r == Err(InvalidTag)
                  else
                    var burst := NextBurst([], encode(bytes));
                    tag == Some(bytes) && full == encode(bytes) && seen == old(seen) && releases == old(releases)
                    && r == (if burst == [] then WantsRead else WantsWrite(burst))
                    && Paused(limboLiteral, fragments) == PauseOf(encode(bytes))
      ensures old(state).Serialize? ==>
                var burst := NextBurst(Held(old(limboLiteral)), old(fragments));
                var released := old(releases) + if old(limboLiteral).Some? then [old(lastRead)] else [];
                if burst != [] then
                  r == WantsWrite(burst) && Paused(limboLiteral, fragments) == PauseOf(old(fragments)) && releases == released
                  && seen == old(seen) && frag.queue == old(frag.queue)
                else tag.Some? && Takes(frag, arg, r, PauseOf(old(fragments)), released)
      ensures old(state).Read? ==>
                tag.Some? && Takes(frag, arg, r, Paused(old(limboLiteral), old(fragments)), old(releases))
      ensures old(state).Read? && arg.Bytes? && arg.bytes != []
              && (exists i :: Completing(tag.value, old(limboLiteral).Some?, old(frag.queue) + arg.completes, i)) ==>
                r.Ok? && r.output.tag == tag.value
    {
      hide Consistent, Collected, DoneBy, NextBurst, PauseOf, DigestOf, Completing;
      FlagsMean();
      var input := arg;
      if state.TagState? {
        var step := TagArm(input);
        if step.Some? {
          return step.value;
        }
        input := Nothing;
      }
      if state.Serialize? {
        var step := BurstArm();
        if step.Some? {
          return step.value;
        }
      }
      r := Proceed(frag, input);
    }

    /** At every yield of every run: the octets written, the literal held back
        and the fragments left are the command, in order. */
    lemma Conservation()
      requires Valid()
      ensures Concat(written) + Held(limboLiteral) + Render(fragments) == Render(full)
    {
      hide Bursts, Render, Concat, Collecting, Pacing, Pausing, Tagging;
      BurstsRender([], full);
      BurstsRender(Held(limboLiteral), fragments);
      assert written + [] + Bursts(Held(limboLiteral), fragments) == written + Bursts(Held(limboLiteral), fragments);
      ConcatAppend(written, Bursts(Held(limboLiteral), fragments));
      assert [] + Render(full) == Render(full);
    }

    /** Once everything is sent, there was one pause per synchronising literal. */
    lemma PausePerLiteral()
      requires Valid() && limboLiteral.None? && fragments == []
      ensures |releases| == SyncCount(full)
    {
      assert SyncCount(fragments) == 0;
    }

    /** A receive-only send never writes. */
    lemma ReceiveWritesNothing()
      requires Valid() && full == []
      ensures written == []
    {
      assert Bursts([], full) == [];
      assert written <= Bursts([], full);
    }

    /** After any write but the last, what was written stops right before a
        synchronising literal. */
    lemma WritesStop() returns (i: nat)
      requires Valid() && written != [] && written != Bursts([], full)
      ensures i < |full| && full[i].Literal? && full[i].sync && Concat(written) == Render(full[..i])
    {
      var all := Bursts([], full);
      assert all == written + [] + Bursts(Held(limboLiteral), fragments);
      assert all[..|written|] == written;
      i := BurstsStop([], full, |written|);
    }
  }

  predicate IsContinuation(p: Progress) {
    p.Complete? && p.message.Message? && p.message.response.Continuation?
  }

  ghost predicate Continues(seen: seq<Seen>) {
    exists s :: s in seen && s.response.Continuation?
  }

  ghost predicate Invites(queue: seq<Progress>) {
    exists p :: p in queue && IsContinuation(p)
  }

  lemma ContinuesAppend(a: seq<Seen>, b: seq<Seen>)
    ensures Continues(a + b) <==> Continues(a) || Continues(b)
  {
    forall s ensures s in a + b <==> s in a || s in b {
    }
  }

  lemma InvitesFirst(queue: seq<Progress>)
    requires queue != []
    ensures Invites(queue) <==> IsContinuation(queue[0]) || Invites(queue[1..])
  {
    assert queue == [queue[0]] + queue[1..];
    assert queue[0] in queue;
  }

  lemma SeenInContinues(m: Decoded, held: bool)
    ensures Continues(SeenIn(m, held)) <==> IsContinuation(Complete(m))
  {
    if m.Message? {
      assert Seen(m.response, held) in SeenIn(m, held);
    }
  }

  /** Draining decodes a continuation exactly when the steps hold one. */
  lemma {:induction false} DigestContinues(held: bool, seen: seq<Seen>, queue: seq<Progress>)
    ensures var d := DigestOf(held, seen, queue);
            seen <= d.seen
            && (d.error.None? ==> (Continues(d.seen[|seen|..]) <==> Invites(queue)))
    decreases |queue|
  {
    hide Continues, Invites, IsContinuation;
    var d := DigestOf(held, seen, queue);
    if queue == [] {
      NothingContinues();
      assert d.seen[|seen|..] == [];
    } else {
      InvitesFirst(queue);
      match queue[0]
      case Part =>
        DigestContinues(held, seen, queue[1..]);
        PartIsNone();
      case Complete(m) =>
        var added := SeenIn(m, held);
        SeenInContinues(m, held);
        if Refusal(m).None? {
          DigestContinues(held, seen + added, queue[1..]);
          ContinuesAppend(added, d.seen[|seen + added|..]);
          assert d.seen[|seen|..] == added + d.seen[|seen + added|..];
        }
    }
  }

  lemma NothingContinues()
    ensures !Continues([]) && !Invites([])
  {
  }

  lemma PartIsNone()
    ensures !IsContinuation(Part)
  {
  }

  /** One read while a literal is held back: when the exchange goes on, the
      literal is let go, and the server's continuation was there for it if and
      only if that very read completes one. */
  method ReadAtPause(send: ImapSend, frag: Fragmentizer<Progress>, bytes: seq<Octet>, completes: seq<Progress>)
    returns (r: Step, ghost answer: seq<Seen>)
    requires send.Valid() && send.state.Read? && send.limboLiteral.Some? && bytes != []
    modifies send, frag
    ensures r.WantsRead? || r.WantsWrite? ==>
              send.releases == old(send.releases) + [answer] && send.seen == old(send.seen) + answer
              && (Continues(answer) <==> Invites(old(frag.queue) + completes))
    ensures r.WantsRead? || r.WantsWrite? ==>
              var burst := NextBurst(old(send.limboLiteral).value, old(send.fragments));
              r == if burst == [] then WantsRead else WantsWrite(burst)
  {
    hide Continues, Invites, NextBurst, PauseOf, DigestOf, ImapSend.Consistent, ImapSend.Collected, DoneBy;
    ghost var before := send.seen;
    DigestContinues(true, before, frag.queue + completes);
    r := send.Resume(frag, Bytes(bytes, completes));
    answer := if before <= send.seen then send.seen[|before|..] else [];
  }

  lemma LineThenLiteral(line: seq<Octet>, literal: seq<Octet>)
    ensures var fs := [Line(line), Literal(literal, true)];
            NextBurst([], fs) == line && PauseOf(fs) == Paused(Some(literal), []) && PauseOf([]) == Paused(None, [])
  {
    var fs := [Line(line), Literal(literal, true)];
    assert fs[1..] == [Literal(literal, true)] && fs[1..][1..] == [];
    assert [] + line == line;
  }

  /** Draining nothing, and draining one continuation with nothing held. */
  lemma DigestsOfFew()
    ensures DigestOf(true, [], []) == Digest([], None, [])
    ensures var c := Continuation([]);
            DigestOf(false, [], [Complete(Message(c))]) == Digest([Seen(c, false)], None, [])
  {
    var c := Continuation([]);
    var queue := [Complete(Message(c))];
    assert queue[1..] == [] && [] + SeenIn(Message(c), false) == [Seen(c, false)];
  }

  lemma LateContinuation(tag: Tag)
    ensures !DoneBy(tag, [])
    ensures var seen := [Seen(Continuation([]), false)];
            DoneBy(tag, seen) && DataOf(seen) == [] && UntaggedOf(seen) == [] && CompletionOf(tag, seen) == None && ByeOf(seen) == None
            && ContinuationOf(seen) == Some(Continuation([]))
  {
    var seen := [Seen(Continuation([]), false)];
    assert seen[..0] == [];
  }

  /** The pause for a synchronising literal ends with the next read that drains
      the parser, not with the server's continuation. Here half a line, which
      completes nothing, lets the literal out with no continuation seen; and the
      continuation, coming when nothing is held back any more, ends the exchange
      with no status at all. Which reads released a literal is on record in
      `releases`, so a continuation precedes every literal exactly when each of
      those reads completed one: see `ReadAtPause`. */
  method LiteralWithoutContinuation() returns (send: ImapSend, literal: seq<Octet>, r: Step)
    ensures send.written == [[65], literal] && send.full == [Line([65]), Literal(literal, true)] && send.releases == [[]]
    ensures r == Ok(Output([65], [], [], None, None, Some(Continuation([]))))
  {
    hide PauseOf, DigestOf, Separated, SyncCount, DoneBy, DataOf, UntaggedOf, CompletionOf, ByeOf, ContinuationOf,
      ImapSend.Consistent;
    literal := [66];
    var fragments := [Line([65]), Literal(literal, true)];
    LineThenLiteral([65], literal);
    DigestsOfFew();
    LateContinuation([65]);
    send := new ImapSend.New(fragments, [65]);
    var frag := new Fragmentizer<Progress>();
    r := send.Resume(frag, Nothing);
    assert frag.queue + [] == [];
    r := send.Resume(frag, Bytes([42], []));
    assert send.written == [[65], literal] && send.seen == [];
    var late := [Complete(Message(Continuation([])))];
    assert frag.queue + late == late;
    r := send.Resume(frag, Bytes([43, 32, 13, 10], late));
  }
}
