/** The streamed APPEND coroutine and the client loop that drives it. */
module AppendStream {
  import opened Octets
  import opened LineScanner
  import opened Append
  import Parser
  import Send

  datatype Kind = Fine | Refused | Malformed

  datatype Error =
    | No(status: seq<Octet>)
    | Bad(status: seq<Octet>)
    | Bye(text: seq<Octet>)
    | MissingTagged
    | ShortMessage
    | SendFailed(error: Send.Error)

  datatype Outcome = Outcome(count: Option<nat>, appendUid: Option<seq<Octet>>)

  datatype Yield = WantsTag | WantsRead | WantsWrite(bytes: seq<Octet>) | WantsStream

  datatype Step = Yielded(yielded: Yield) | Done(outcome: Outcome) | Failed(error: Error)

  datatype State = WriteHeader | Continuation | Stream | WriteCrlf | Recv

  /** What the receive-only exchange comes back with. */
  datatype Sub = Asks | Got(output: Send.Output) | Broke(error: Send.Error)

  /** The encoder on this mailbox, flags and date, and the readings of response
      codes and data left to the response grammar. */
  datatype Request = Request(
    isTag: seq<Octet> -> bool,
    before: seq<Octet> -> seq<Fragment>,
    line: seq<Octet> -> seq<Octet>,
    kindOf: seq<Octet> -> Kind,
    appendUidOf: seq<Octet> -> Option<seq<Octet>>,
    existsOf: seq<Octet> -> Option<nat>)
  {
    /** The request line as encoded around an empty non-synchronising literal. */
    function Encode(tag: seq<Octet>): (fs: seq<Fragment>)
      ensures LastLiteral(fs) == |before(tag)| + 1 < |fs|
      ensures |Send.Render(fs[..LastLiteral(fs)])| >= |LiteralHeader(0, true)|
    {
      AppendParts(before(tag), line(tag), [], true);
      EncodeAppend(before(tag), line(tag), [], true)
    }
  }

  /** The last EXISTS reported. */
  function LastExists(req: Request, data: seq<seq<Octet>>): Option<nat> {
    if data == [] then None
    else
      var last := req.existsOf(data[|data| - 1]);
      if last.Some? then last else LastExists(req, data[..|data| - 1])
  }

  /** How a refusal before the body reads: anything but NO counts as BAD. */
  function Refusal(req: Request, output: Send.Output): Option<Error>
    requires Answer(output)
  {
    if output.bye.Some? then Some(Bye(output.bye.value.text))
    else if output.tagged.None? then None
    else if req.kindOf(output.tagged.value.status).Refused? then Some(No(output.tagged.value.status))
    else Some(Bad(output.tagged.value.status))
  }

  function Conclusion(req: Request, output: Send.Output): Step
    requires Answer(output)
  {
    if output.bye.Some? then Failed(Bye(output.bye.value.text))
    else if output.tagged.None? then Failed(MissingTagged)
    else
      var status := output.tagged.value.status;
      match req.kindOf(status)
      case Fine => Done(Outcome(LastExists(req, output.data), req.appendUidOf(status)))
      case Refused => Failed(No(status))
      case Malformed => Failed(Bad(status))
  }

  /** A BYE fails the append whatever else came; of a completion, only an OK does
      not; before the body even an OK is a refusal, as BAD. */
  lemma Verdicts(req: Request, output: Send.Output)
    requires Answer(output)
    ensures output.bye.Some? ==>
              Refusal(req, output) == Some(Bye(output.bye.value.text)) && Conclusion(req, output) == Failed(Bye(output.bye.value.text))
    ensures output.bye.None? && output.tagged.None? ==>
              Refusal(req, output) == None && Conclusion(req, output) == Failed(MissingTagged)
    ensures output.bye.None? && output.tagged.Some? ==>
              var status := output.tagged.value.status;
              var refused := req.kindOf(status).Refused?;
              Refusal(req, output) == Some(if refused then No(status) else Bad(status))
              && (req.kindOf(status).Fine? <==> Conclusion(req, output).Done?)
              && (refused ==> Conclusion(req, output) == Failed(No(status)))
              && (req.kindOf(status).Malformed? ==> Conclusion(req, output) == Failed(Bad(status)))
              && (req.kindOf(status).Fine? ==> Conclusion(req, output).outcome.appendUid == req.appendUidOf(status))
  {
  }

  /** The message count reported is the last one the server sent. */
  lemma {:induction false} CountIsLast(req: Request, data: seq<seq<Octet>>, i: nat)
    requires i < |data| && req.existsOf(data[i]).Some? && forall j :: i < j < |data| ==> req.existsOf(data[j]).None?
    ensures LastExists(req, data) == req.existsOf(data[i])
  {
    var init := data[..|data| - 1];
    if i < |init| {
      assert forall j :: 0 <= j < |init| ==> init[j] == data[j];
      CountIsLast(req, init, i);
    }
  }

  /** Outputs as the send primitive makes them. */
  predicate Answer(output: Send.Output) {
    (output.bye.Some? ==> output.bye.value.Bye?) && (output.tagged.Some? ==> output.tagged.value.Tagged?)
  }

  /** When the server neither completed nor closed, the exchange that ended saw
      a continuation. It need not be the one for the message: see
      `WaitPerLiteral`. */
  lemma {:induction false} ContinuationSeen(tag: Send.Tag, seen: seq<Send.Seen>)
    requires Send.DoneBy(tag, seen)
    requires Send.CompletionOf(tag, seen).None? && Send.ByeOf(seen).None?
    ensures Send.ContinuationOf(seen).Some?
  {
    Send.DoneSawEnd(tag, seen);
  }

  class Coroutine {
    const req: Request
    const len: nat
    const nonSync: bool
    var state: State
    var tagRequested: bool
    var crlf: Option<seq<Octet>>
    var streamPending: bool

    ghost predicate Valid()
      reads this
    {
      (state.Stream? || state.Continuation? ==> crlf.Some?) && (streamPending ==> state.Stream?) && !state.WriteCrlf?
    }

    constructor (req: Request, len: nat, nonSync: bool)
      ensures Valid() && state == WriteHeader && !tagRequested && crlf == None
      ensures this.req == req && this.len == len && this.nonSync == nonSync
    {
      this.req, this.len, this.nonSync := req, len, nonSync;
      state, tagRequested, crlf, streamPending := WriteHeader, false, None, false;
    }

    /** Header and closing octets of the encoded request, spliced. */
    method SpliceHeader(fragments: seq<Fragment>) returns (header: seq<Octet>, closing: seq<Octet>)
      requires LastLiteral(fragments) < |fragments|
      requires |Send.Render(fragments[..LastLiteral(fragments)])| >= |LiteralHeader(0, true)|
      ensures Spliced(header, closing) == Splice(fragments, len, nonSync)
    {
      hide Send.Render, LiteralHeader;
      var last := LastLiteral(fragments);
      header, closing := [], [];
      RenderNothing();
      assert fragments[..0] == [] && fragments[last + 1..last + 1] == [];
      for index := 0 to |fragments|
        invariant header == Send.Render(fragments[..if index < last then index else last])
        invariant closing == Send.Render(fragments[last + 1..if index <= last then last + 1 else index])
      {
        RenderOne(fragments[index]);
        if index < last {
          assert fragments[..index + 1] == fragments[..index] + [fragments[index]];
          RenderAppend(fragments[..index], [fragments[index]]);
          header := header + fragments[index].data;
        } else if fragments[index].Line? {
          assert fragments[last + 1..index + 1] == fragments[last + 1..index] + [fragments[index]];
          RenderAppend(fragments[last + 1..index], [fragments[index]]);
          closing := closing + fragments[index].data;
        }
      }
      assert fragments[last + 1..|fragments|] == fragments[last + 1..];
      header := header[..|header| - |LiteralHeader(0, true)|];
      header := header + LiteralHeader(len, nonSync);
    }

    method Resume(arg: Option<seq<Octet>>, sub: Sub) returns (r: Step)
      requires Valid() && (sub.Got? ==> Answer(sub.output))
      modifies this
      ensures r.Yielded? ==> Valid()
      ensures old(state).WriteHeader? ==>
                match arg
                case None =>
                  if old(tagRequested) then r == Failed(SendFailed(Send.MissingTag))
                  else r == Yielded(WantsTag) && state == WriteHeader && tagRequested
                case Some(tag) =>
                  if !req.isTag(tag) then r == Failed(SendFailed(Send.InvalidTag))
                  else
                    var spliced := Splice(req.Encode(tag), len, nonSync);
                    r == Yielded(WantsWrite(spliced.header)) && crlf == Some(spliced.closing)
                    && state == (if nonSync then Stream else Continuation) && !streamPending
      ensures old(state).Continuation? ==>
                match sub
                case Asks => r == Yielded(WantsRead) && state == Continuation && crlf == old(crlf)
                case Broke(e) => r == Failed(SendFailed(e))
                case Got(output) =>
                  match Refusal(req, output)
                  case Some(e) => r == Failed(e)
                  case None => r == Yielded(WantsStream) && state == Stream && streamPending && crlf == old(crlf)
      ensures old(state).Stream? ==>
                if !old(streamPending) then r == Yielded(WantsStream) && state == Stream && streamPending && crlf == old(crlf)
                else if arg == Some([]) then r == Failed(ShortMessage)
                else r == Yielded(WantsWrite(old(crlf).value)) && state == Recv
      ensures old(state).Recv? ==>
                match sub
                case Asks => r == Yielded(WantsRead) && state == Recv
                case Broke(e) => r == Failed(SendFailed(e))
                case Got(output) => r == Conclusion(req, output)
    {
      hide Splice, Send.Render, LiteralHeader;
      while true
        invariant Valid() || (state.WriteCrlf? && crlf.Some? && !streamPending)
        invariant match old(state)
                  case WriteHeader => state == WriteHeader && tagRequested == old(tagRequested)
                  case Continuation =>
                    crlf == old(crlf)
                    && (state == Continuation
                        || (state == Stream && !streamPending && sub.Got? && Refusal(req, sub.output).None?))
                  case Stream =>
                    crlf == old(crlf)
                    && ((state == Stream && streamPending == old(streamPending))
                        || (state == WriteCrlf && old(streamPending) && arg != Some([])))
                  case WriteCrlf => false
                  case Recv => state == Recv
        decreases match state case Continuation => 2 case Stream => 1 case _ => 0
      {
        match state {
          case WriteHeader =>
            match arg {
              case None =>
                if tagRequested {
                  return Failed(SendFailed(Send.MissingTag));
                }
                tagRequested := true;
                return Yielded(WantsTag);
              case Some(tag) =>
                if !req.isTag(tag) {
                  return Failed(SendFailed(Send.InvalidTag));
                }
                var header, closing := SpliceHeader(req.Encode(tag));
                state := if nonSync then Stream else Continuation;
                crlf := Some(closing);
                return Yielded(WantsWrite(header));
            }
          case Continuation =>
            match sub {
              case Asks => return Yielded(WantsRead);
              case Broke(e) => return Failed(SendFailed(e));
              case Got(output) =>
                if output.bye.Some? {
                  return Failed(Bye(output.bye.value.text));
                }
                if output.tagged.Some? {
                  var status := output.tagged.value.status;
                  return Failed(if req.kindOf(status).Refused? then No(status) else Bad(status));
                }
                state := Stream;
            }
          case Stream =>
            if streamPending {
              streamPending := false;
              if arg == Some([]) {
                return Failed(ShortMessage);
              }
              state := WriteCrlf;
            } else {
              streamPending := true;
              return Yielded(WantsStream);
            }
          case WriteCrlf =>
            var closing := crlf.value;
            crlf := None;
            state := Recv;
            return Yielded(WantsWrite(closing));
          case Recv =>
            match sub {
              case Asks => return Yielded(WantsRead);
              case Broke(e) => return Failed(SendFailed(e));
              case Got(output) =>
                if output.bye.Some? {
                  return Failed(Bye(output.bye.value.text));
                }
                if output.tagged.None? {
                  return Failed(MissingTagged);
                }
                var status := output.tagged.value.status;
                var kind := req.kindOf(status);
                if kind.Fine? {
                  return Done(Outcome(LastExists(req, output.data), req.appendUidOf(status)));
                }
                return Failed(if kind.Refused? then No(status) else Bad(status));
            }
        }
      }
    }
  }

  lemma RenderNothing()
    ensures Send.Render([]) == []
  {
  }

  /** How far a run got. */
  datatype Stage = HeaderOnly | BodyCut | Whole

  /** The octets a run has put on the wire by then, `body` being what the
      source gave. */
  ghost function Wire(req: Request, tag: seq<Octet>, body: seq<Octet>, declared: nat, nonSync: bool, stage: Stage): seq<Octet> {
    var spliced := Splice(req.Encode(tag), declared, nonSync);
    match stage
    case HeaderOnly => spliced.header
    case BodyCut => spliced.header + body
    case Whole => spliced.header + body + spliced.closing
  }

  /** The first thing the receive-only exchange comes back with, besides asking
      for more, or the number of answers when there is none. */
  function FirstReply(answers: seq<Sub>): (i: nat)
    ensures i <= |answers|
    ensures forall k :: 0 <= k < i ==> answers[k].Asks?
    ensures i < |answers| ==> !answers[i].Asks?
  {
    if answers == [] || !answers[0].Asks? then 0 else 1 + FirstReply(answers[1..])
  }

  lemma FirstReplyUnique(answers: seq<Sub>, i: nat)
    requires i <= |answers| && (forall k :: 0 <= k < i ==> answers[k].Asks?) && (i < |answers| ==> !answers[i].Asks?)
    ensures FirstReply(answers) == i
  {
    var j := FirstReply(answers);
  }

  /** What an exchange means before the body is sent: `None` while nothing came,
      an invitation, or a failure. */
  function Invitation(req: Request, answers: seq<Sub>): Option<Step>
    requires forall a :: a in answers && a.Got? ==> Answer(a.output)
  {
    var i := FirstReply(answers);
    if i == |answers| then None
    else
      assert answers[i] in answers;
      match answers[i]
      case Broke(e) => Some(Failed(SendFailed(e)))
      case Got(output) =>
        match Refusal(req, output)
        case Some(e) => Some(Failed(e))
        case None => Some(Yielded(WantsStream))
  }

  /** And once it was sent. */
  function Reply(req: Request, answers: seq<Sub>): Option<Step>
    requires forall a :: a in answers && a.Got? ==> Answer(a.output)
  {
    var i := FirstReply(answers);
    if i == |answers| then None
    else
      assert answers[i] in answers;
      match answers[i]
      case Broke(e) => Some(Failed(SendFailed(e)))
      case Got(output) => Some(Conclusion(req, output))
  }

  /** How far the answers and the source let a run get, and how it ends. */
  function Expected(req: Request, nonSync: bool, enough: bool, answers: seq<Sub>): (Stage, Option<Step>)
    requires forall a :: a in answers && a.Got? ==> Answer(a.output)
  {
    var invited := nonSync || Invitation(req, answers) == Some(Yielded(WantsStream));
    if !invited then (HeaderOnly, Invitation(req, answers))
    else if !enough then (BodyCut, Some(Failed(ShortMessage)))
    else (Whole, Reply(req, if nonSync then answers else answers[FirstReply(answers) + 1..]))
  }

  /** Resumes until the server invites the body or refuses it. */
  method AwaitInvitation(c: Coroutine, answers: seq<Sub>) returns (r: Option<Step>, next: nat)
    requires c.Valid() && c.state.Continuation?
    requires forall a :: a in answers && a.Got? ==> Answer(a.output)
    modifies c
    ensures next <= |answers| && r == Invitation(c.req, answers)
    ensures r == Some(Yielded(WantsStream)) ==>
              c.Valid() && c.state == Stream && c.streamPending && c.crlf == old(c.crlf) && next == FirstReply(answers) + 1
  {
    hide Refusal;
    next := 0;
    while next < |answers|
      invariant next <= |answers| && c.Valid() && c.state.Continuation? && c.crlf == old(c.crlf)
      invariant forall k :: 0 <= k < next ==> answers[k].Asks?
    {
      var answer := answers[next];
      assert answer in answers;
      if !answer.Asks? {
        FirstReplyUnique(answers, next);
      }
      var step := c.Resume(None, answer);
      next := next + 1;
      if step != Yielded(WantsRead) {
        return Some(step), next;
      }
    }
    FirstReplyUnique(answers, next);
    return None, next;
  }

  /** Resumes until the server has answered the whole message. */
  method AwaitAnswer(c: Coroutine, answers: seq<Sub>) returns (r: Option<Step>)
    requires c.Valid() && c.state.Recv?
    requires forall a :: a in answers && a.Got? ==> Answer(a.output)
    modifies c
    ensures r == Reply(c.req, answers)
  {
    var i := 0;
    while i < |answers|
      invariant i <= |answers| && c.Valid() && c.state.Recv?
      invariant forall k :: 0 <= k < i ==> answers[k].Asks?
    {
      if !answers[i].Asks? {
        FirstReplyUnique(answers, i);
      }
      var step := c.Resume(None, answers[i]);
      if !step.Yielded? {
        return Some(step);
      }
      i := i + 1;
    }
    FirstReplyUnique(answers, i);
    return None;
  }

  /** How often a streamed run waits for the server before the body. */
  function Waits(nonSync: bool): nat {
    if nonSync then 0 else 1
  }

  lemma SyncCountAppend(a: seq<Fragment>, b: seq<Fragment>)
    ensures Send.SyncCount(a + b) == Send.SyncCount(a) + Send.SyncCount(b)
  {
    if a == [] {
      assert a + b == b;
    } else {
      SyncCountAppend(a[1..], b);
      assert (a + b)[1..] == a[1..] + b;
    }
  }

  /** The buffered form pauses once per synchronising literal. The streamed one
      waits as often exactly when none precedes the message: a mailbox literal
      goes out inside the header, and its continuation counts as the invitation. */
  lemma WaitPerLiteral(before: seq<Fragment>, line: seq<Octet>, message: seq<Octet>, nonSync: bool)
    ensures Waits(nonSync) == Send.SyncCount(EncodeAppend(before, line, message, nonSync)) <==> Send.SyncCount(before) == 0
  {
    SyncCountOfAppend(before, line, message, nonSync);
  }

  lemma SyncCountOfAppend(before: seq<Fragment>, line: seq<Octet>, message: seq<Octet>, nonSync: bool)
    ensures Send.SyncCount(EncodeAppend(before, line, message, nonSync)) == Send.SyncCount(before) + if nonSync then 0 else 1
  {
    hide LiteralHeader;
    var a, l, z := Send.Line(line + LiteralHeader(|message|, nonSync)), Send.Literal(message, !nonSync), Send.Line(CRLF);
    SyncCountAppend(before, [a, l, z]);
    SyncCountThree(a, l, z);
  }

  lemma SyncCountThree(a: Fragment, l: Fragment, z: Fragment)
    requires a.Line? && z.Line?
    ensures Send.SyncCount([a, l, z]) == if Send.IsSync(l) then 1 else 0
    ensures Send.SyncCount([a, l]) == if Send.IsSync(l) then 1 else 0
  {
    assert [a, l, z][1..] == [l, z] && [l, z][1..] == [z] && [z][1..] == [];
    assert [a, l][1..] == [l] && [l][1..] == [];
    assert Send.SyncCount([z]) == 0;
  }

  /** The client loop. The connection carries the header, then no more unless
      the literal is non-synchronising or the server invited it, then up to
      `len` octets of the source, then, if the source had them all, the closing
      line: that whole is the streamed form of the message. The answers and the
      source decide how far it gets and how it ends. */
  method AppendMessage(c: Coroutine, socket: Socket, source: seq<Octet>, len: nat, tag: seq<Octet>, answers: seq<Sub>)
    returns (r: Option<Step>, ghost stage: Stage, ghost waits: nat)
    requires c.Valid() && c.state.WriteHeader? && !c.tagRequested && c.len == len % U32_LIMIT && c.req.isTag(tag)
    requires forall a :: a in answers && a.Got? ==> Answer(a.output)
    modifies c, socket
    ensures (stage, r) == Expected(c.req, c.nonSync, |source| >= len, answers)
    ensures !stage.HeaderOnly? ==> waits == Waits(c.nonSync)
    ensures var body := if |source| < len then source else source[..len];
            socket.written == old(socket.written) + Wire(c.req, tag, body, c.len, c.nonSync, stage)
    ensures stage.Whole? ==>
              |source| >= len
              && socket.written == old(socket.written)
                 + StreamedOctets(c.req.before(tag), c.req.line(tag), source[..len], c.len, c.nonSync)
  {
    hide Splice, Send.Render, LiteralHeader, Refusal, Conclusion, StreamedOctets, Invitation, Reply, FirstReply;
    var step := c.Resume(None, Asks);
    step := c.Resume(Some(tag), Asks);
    ghost var spliced := Splice(c.req.Encode(tag), c.len, c.nonSync);
    socket.WriteAll(step.yielded.bytes);
    var next := 0;
    waits := 0;
    if c.nonSync {
      step := c.Resume(None, Asks);
    } else {
      r, next := AwaitInvitation(c, answers);
      if r != Some(Yielded(WantsStream)) {
        return r, HeaderOnly, waits;
      }
      waits := waits + 1;
    }
    var body := if |source| < len then source else source[..len];
    socket.WriteAll(body);
    Associative(old(socket.written), spliced.header, body);
    step := c.Resume(if |source| < len then Some([]) else None, Asks);
    if step.Failed? {
      return Some(step), BodyCut, waits;
    }
    socket.WriteAll(step.yielded.bytes);
    Associative(old(socket.written), spliced.header + body, spliced.closing);
    WholeWire(c.req, tag, body, c.len, c.nonSync);
    assert answers[0..] == answers;
    r := AwaitAnswer(c, answers[next..]);
    stage := Whole;
  }

  lemma WholeWire(req: Request, tag: seq<Octet>, body: seq<Octet>, declared: nat, nonSync: bool)
    ensures Wire(req, tag, body, declared, nonSync, Whole)
         == StreamedOctets(req.before(tag), req.line(tag), body, declared, nonSync)
  {
  }

  /** A receive-only exchange that meets a continuation ends with no status. */
  method MeetContinuation(tag: seq<Octet>) returns (output: Send.Output)
    ensures output == Send.Output(tag, [], [], None, None, Some(Send.Continuation([])))
  {
    hide Send.DigestOf, Send.DoneBy, Send.DataOf, Send.UntaggedOf, Send.CompletionOf, Send.ByeOf, Send.ContinuationOf;
    var frag := new Parser.Fragmentizer<Send.Progress>();
    var recv := new Send.ImapSend.Receive(tag);
    var invited := [Send.Complete(Send.Message(Send.Continuation([])))];
    Send.DigestsOfFew();
    Send.LateContinuation(tag);
    assert frag.queue + invited == invited;
    var step := recv.Resume(frag, Send.Bytes([43, SP, 13, 10], invited));
    output := step.output;
  }

  /** A mailbox sent as a synchronising literal: the server's first continuation
      is for it, and the body goes out on that; the second, for the message, then
      ends the exchange as if the server had not answered. */
  method MailboxLiteral(tag: seq<Octet>, message: seq<Octet>) returns (r: Option<Step>, ghost stage: Stage, ghost waits: nat)
    requires |message| < U32_LIMIT
    ensures stage == Whole && r == Some(Failed(MissingTagged))
    ensures waits == 1
    ensures Send.SyncCount(EncodeAppend([Send.Line([65]), Send.Literal([66], true)], [SP], message, false)) == 2
  {
    hide Refusal, Splice, StreamedOctets, Wire, Send.Render;
    var before := [Send.Line([65]), Send.Literal([66], true)];
    var req := Request(_ => true, _ => before, _ => [SP], _ => Fine, _ => None, _ => None);
    var c := new Coroutine(req, |message|, false);
    var socket := new Socket([]);
    var first := MeetContinuation(tag);
    var second := MeetContinuation(tag);
    var answers := [Got(first), Got(second)];
    Uninvited(req, first);
    MailboxLiteralCount(message);
    assert answers[1..] == [Got(second)];
    r, stage, waits := AppendMessage(c, socket, message, |message|, tag, answers);
  }

  lemma Uninvited(req: Request, output: Send.Output)
    requires output.bye.None? && output.tagged.None?
    ensures Refusal(req, output).None? && Conclusion(req, output) == Failed(MissingTagged)
  {
  }

  lemma MailboxLiteralCount(message: seq<Octet>)
    ensures Send.SyncCount(EncodeAppend([Send.Line([65]), Send.Literal([66], true)], [SP], message, false)) == 2
  {
    SyncCountOfAppend([Send.Line([65]), Send.Literal([66], true)], [SP], message, false);
    SyncCountThree(Send.Line([65]), Send.Literal([66], true), Send.Line([]));
  }
}
