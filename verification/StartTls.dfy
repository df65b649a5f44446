/** The STARTTLS exchange: discard the greeting, ask for the upgrade, discard
    lines up to the tagged one, and hand over what was read past it. */
module StartTls {
  import opened Octets
  import opened LineScanner

  const MAX_LINE_LEN: nat := 64 * 1024
  const READ_BUFFER_SIZE: nat := 16 * 1024

  datatype Error = Eof | MissingTag | InvalidTag | LineTooLong
  datatype Yield = WantsTag | WantsRead | WantsWrite(bytes: seq<Octet>)
  datatype Step = Yielded(yielded: Yield) | Upgraded(leftover: seq<Octet>) | Failed(error: Error)
  datatype State = DiscardGreeting | Tag | WriteStartTls | DiscardStartTls

  predicate Tagged(tag: seq<Octet>, line: seq<Octet>) {
    tag <= line && |line| > |tag| && line[|tag|] == SP
  }

  lemma TaggedMeaning(tag: seq<Octet>, line: seq<Octet>)
    ensures Tagged(tag, line) <==> exists rest :: line == tag + [32] + rest
  {
    if Tagged(tag, line) {
      assert line == tag + [32] + line[|tag| + 1..];
    }
  }

  datatype Ending = Found(leftover: seq<Octet>) | Incomplete(partial: seq<Octet>) | Overlong

  /** The lines consumed, in order, and how the exchange ends. */
  datatype Exchange = Exchange(lines: seq<seq<Octet>>, ending: Ending)
  {
    function After(before: seq<seq<Octet>>): Exchange {
      this.(lines := before + lines)
    }
  }

  /** Reference for everything after the greeting line, read in one piece. */
  function Discard(tag: seq<Octet>, s: seq<Octet>): Exchange
    decreases |s|, 0
  {
    match FirstLine(s, MAX_LINE_LEN)
    case NeedMore => Exchange([], Incomplete(s))
    case TooLong => Exchange([], Overlong)
    case Line(line) => DiscardFrom(tag, line, s[|line|..])
  }

  function DiscardFrom(tag: seq<Octet>, line: seq<Octet>, t: seq<Octet>): Exchange
    decreases |t|, 1
  {
    if Tagged(tag, line) then Exchange([line], Found(t)) else Discard(tag, t).After([line])
  }

  /** Reference for the whole exchange, greeting included. */
  function Conversation(tag: seq<Octet>, s: seq<Octet>): Exchange {
    match FirstLine(s, MAX_LINE_LEN)
    case NeedMore => Exchange([], Incomplete(s))
    case TooLong => Exchange([], Overlong)
    case Line(greeting) => Discard(tag, s[|greeting|..]).After([greeting])
  }

  /** The octets of an exchange that came to no overlong line. */
  function Consumed(x: Exchange): seq<Octet> {
    Concat(x.lines) + match x.ending
                      case Found(leftover) => leftover
                      case Incomplete(partial) => partial
                      case Overlong => []
  }

  /** Discarded lines, tagged line and leftover are the input, in that order;
      the tagged line is the first that matches. */
  lemma {:induction false} DiscardPartition(tag: seq<Octet>, s: seq<Octet>)
    ensures var x := Discard(tag, s);
            (!x.ending.Overlong? ==> Consumed(x) == s)
            && (forall k :: 0 <= k < |x.lines| ==>
                  (Tagged(tag, x.lines[k]) <==> x.ending.Found? && k == |x.lines| - 1))
            && (x.ending.Found? ==> x.lines != [])
    decreases |s|
  {
    hide FirstLine, Tagged;
    match FirstLine(s, MAX_LINE_LEN)
    case Line(line) =>
      FirstLinePrefix(s, MAX_LINE_LEN);
      var t := s[|line|..];
      if Tagged(tag, line) {
        ConcatOne(line);
      } else {
        DiscardPartition(tag, t);
        ConcatCons(line, Discard(tag, t).lines);
      }
    case _ =>
  }

  /** Only lines are discarded, and without a tagged one there is no line left, or
      one too long. */
  lemma {:induction false} DiscardEnds(tag: seq<Octet>, s: seq<Octet>) returns (rest: seq<Octet>)
    ensures var x := Discard(tag, s);
            s == Concat(x.lines) + rest && (forall line :: line in x.lines ==> IsLine(line, MAX_LINE_LEN))
            && match x.ending
               case Found(leftover) => rest == leftover
               case Incomplete(partial) => rest == partial && Unended(rest, MAX_LINE_LEN)
               case Overlong => LineScanner.Overlong(rest, MAX_LINE_LEN)
    decreases |s|
  {
    hide FirstLine, Tagged, IsLine, Unended, LineScanner.Overlong, Concat;
    match FirstLine(s, MAX_LINE_LEN)
    case Line(line) =>
      FirstLinePrefix(s, MAX_LINE_LEN);
      FirstLineMeaning(s, MAX_LINE_LEN, line);
      var t := s[|line|..];
      if Tagged(tag, line) {
        ConcatOne(line);
        rest := t;
      } else {
        rest := DiscardEnds(tag, t);
        ConcatCons(line, Discard(tag, t).lines);
        Associative(line, Concat(Discard(tag, t).lines), rest);
      }
    case _ =>
      FirstLineMeaning(s, MAX_LINE_LEN, []);
      NothingYet();
      rest := s;
      assert [] + s == s;
  }

  lemma ConversationPartition(tag: seq<Octet>, s: seq<Octet>)
    ensures var x := Conversation(tag, s);
            (!x.ending.Overlong? ==> Consumed(x) == s) && (x.ending.Found? ==> |x.lines| >= 2)
  {
    hide FirstLine, Discard;
    match FirstLine(s, MAX_LINE_LEN)
    case Line(greeting) =>
      FirstLinePrefix(s, MAX_LINE_LEN);
      var t := s[|greeting|..];
      DiscardPartition(tag, t);
      ConcatCons(greeting, Discard(tag, t).lines);
    case _ =>
  }

  class Coroutine {
    const isTag: seq<Octet> -> bool
    const command: seq<Octet> -> seq<Octet>
    const buf: Scanner
    var tagBytes: seq<Octet>
    var state: State
    var wantsRead: bool
    var wantsWrite: Option<seq<Octet>>

    ghost predicate Valid()
      reads this, buf
    {
      buf.Valid() && buf.cap == MAX_LINE_LEN && !wantsRead && wantsWrite.None?
    }

    constructor (isTag: seq<Octet> -> bool, command: seq<Octet> -> seq<Octet>)
      ensures Valid() && fresh(buf) && buf.pending == [] && state == DiscardGreeting
      ensures this.isTag == isTag && this.command == command
    {
      this.isTag, this.command := isTag, command;
      buf := new Scanner(MAX_LINE_LEN);
      tagBytes, state, wantsRead, wantsWrite := [], DiscardGreeting, false, None;
    }

    /** Takes lines until the tagged one; `rest` stands for whatever follows. */
    method DiscardLines(ghost rest: seq<Octet>) returns (r: Option<Step>, ghost lines: seq<seq<Octet>>)
      requires Valid() && state.DiscardStartTls?
      modifies this, buf
      ensures var x := Discard(tagBytes, old(buf.pending) + rest);
              match r
              case None =>
                x == Discard(tagBytes, buf.pending + rest).After(lines)
                && FirstLine(buf.pending, MAX_LINE_LEN) == NeedMore
              case Some(Upgraded(leftover)) => x == Exchange(lines, Found(leftover + rest))
              case Some(Failed(e)) => e == LineTooLong && x.ending == Overlong
              case _ => false
      ensures r.None? ==> wantsRead && wantsWrite.None? && buf.Valid() && state == old(state)
      ensures tagBytes == old(tagBytes)
    {
      lines := [];
      ghost var s := buf.pending + rest;
      while true
        invariant Valid() && state.DiscardStartTls? && tagBytes == old(tagBytes)
        invariant Discard(tagBytes, s) == Discard(tagBytes, buf.pending + rest).After(lines)
        decreases |buf.pending|
      {
        ghost var before := buf.pending;
        var scan := buf.NextLine();
        match scan
        case NeedMore =>
          wantsRead := true;
          return None, lines;
        case TooLong =>
          FirstLineStable(before, rest, MAX_LINE_LEN);
          return Some(Failed(LineTooLong)), lines;
        case Line(line) =>
          DiscardLine(tagBytes, before, line, buf.pending, rest);
          var tagged := tagBytes <= line && |line| > |tagBytes| && line[|tagBytes|] == SP;
          AfterAfter(Discard(tagBytes, buf.pending + rest), lines, [line]);
          lines := lines + [line];
          if tagged {
            var remaining := buf.pending;
            return Some(Upgraded(remaining)), lines;
          }
      }
    }

    method Resume(arg: Option<seq<Octet>>, ghost rest: seq<Octet>) returns (r: Step, ghost lines: seq<seq<Octet>>)
      requires Valid()
      modifies this, buf
      ensures r.Yielded? ==> Valid()
      ensures tagBytes == if old(state).Tag? && arg.Some? && isTag(arg.value) then arg.value else old(tagBytes)
      ensures old(state).Tag? ==>
                buf.pending == old(buf.pending)
                && (if arg.None? then r == Failed(MissingTag)
                    else if !isTag(arg.value) then r == Failed(InvalidTag)
                    else r == Yielded(WantsWrite(command(arg.value))) && state == WriteStartTls)
      ensures !old(state).Tag? && arg.None? ==>
                r == Yielded(WantsRead) && buf.pending == old(buf.pending) && lines == []
                && state == if old(state).WriteStartTls? then DiscardStartTls else old(state)
      ensures !old(state).Tag? && arg == Some([]) ==> r == Failed(Eof) && buf.pending == old(buf.pending)
      ensures old(state).DiscardGreeting? && arg.Some? && arg.value != [] ==>
                var buffered := old(buf.pending) + arg.value;
                match FirstLine(buffered, MAX_LINE_LEN)
                case NeedMore => r == Yielded(WantsRead) && buf.pending == buffered && state == DiscardGreeting
                case TooLong => r == Failed(LineTooLong)
                case Line(line) => r == Yielded(WantsTag) && buffered == line + buf.pending && state == Tag
      ensures (old(state).WriteStartTls? || old(state).DiscardStartTls?) && arg.Some? && arg.value != [] ==>
                var x := Discard(tagBytes, old(buf.pending) + arg.value + rest);
                match r
                case Yielded(WantsRead) => x == Discard(tagBytes, buf.pending + rest).After(lines) && state == DiscardStartTls
                                           && FirstLine(buf.pending, MAX_LINE_LEN) == NeedMore
                case Upgraded(leftover) => x == Exchange(lines, Found(leftover + rest))
                case Failed(e) => e == LineTooLong && x.ending == Overlong
                case _ => false
    {
      hide Discard, FirstLine;
      lines := [];
      var input := arg;
      if state.WriteStartTls? {
        state := DiscardStartTls;
      }
      match state {
      case DiscardGreeting =>
        match input {
          case Some(data) =>
            if data == [] {
              return Failed(Eof), [];
            }
            buf.Extend(data);
            var scan := buf.NextLine();
            match scan {
              case NeedMore => wantsRead := true;
              case TooLong => return Failed(LineTooLong), [];
              case Line(_) =>
                state := Tag;
                return Yielded(WantsTag), [];
            }
          case None => wantsRead := true;
        }
      case Tag =>
        match input {
          case Some(tag) =>
            if !isTag(tag) {
              return Failed(InvalidTag), [];
            }
            tagBytes := tag;
            wantsWrite := Some(command(tag));
            state := WriteStartTls;
          case None => return Failed(MissingTag), [];
        }
      case DiscardStartTls =>
        match input {
          case Some(data) =>
            if data == [] {
              return Failed(Eof), [];
            }
            buf.Extend(data);
            var step;
            step, lines := DiscardLines(rest);
            if step.Some? {
              return step.value, lines;
            }
          case None => wantsRead := true;
        }
      }
      // Back at the head of the loop: what was asked for is yielded and cleared.
      if wantsWrite.Some? {
        r := Yielded(WantsWrite(wantsWrite.value));
        wantsWrite := None;
        return r, lines;
      }
      wantsRead := false;
      return Yielded(WantsRead), lines;
    }
  }

  lemma AfterAfter(x: Exchange, a: seq<seq<Octet>>, b: seq<seq<Octet>>)
    ensures x.After(b).After(a) == x.After(a + b)
  {
    assert a + (b + x.lines) == (a + b) + x.lines;
  }

  lemma DiscardLine(tag: seq<Octet>, buf: seq<Octet>, line: seq<Octet>, left: seq<Octet>, rest: seq<Octet>)
    requires FirstLine(buf, MAX_LINE_LEN) == Line(line) && buf == line + left
    ensures Discard(tag, buf + rest) == DiscardFrom(tag, line, left + rest)
  {
    FirstLineStable(buf, rest, MAX_LINE_LEN);
    assert (buf + rest)[|line|..] == left + rest;
  }

  /** Drives the second half, from the command written to the end. Lines already
      buffered are looked at once something more is read. */
  method DriveTagged(c: Coroutine, socket: Socket, ghost before: seq<seq<Octet>>, ghost x: Exchange)
    returns (r: Step)
    requires c.Valid() && c.state.WriteStartTls?
    requires x == Discard(c.tagBytes, c.buf.pending + socket.rest).After(before)
    modifies c, c.buf, socket
    ensures old(socket.log) <= socket.log && socket.written == old(socket.written)
    ensures match r
            case Upgraded(leftover) => old(socket.rest) != [] && x.ending == Found(leftover + socket.rest)
            case Failed(Eof) => socket.rest == [] && (x.ending.Incomplete? || old(socket.rest) == [])
            case Failed(e) => e == LineTooLong && x.ending == Overlong && old(socket.rest) != []
            case Yielded(_) => false
  {
    hide Discard, FirstLine;
    ghost var lines := before;
    var step, taken := c.Resume(None, socket.rest);
    ghost var late := false;
    while true
      invariant c.Valid() && c.state.DiscardStartTls? && c.tagBytes == old(c.tagBytes) && step == Yielded(WantsRead)
      invariant x == Discard(c.tagBytes, c.buf.pending + socket.rest).After(lines)
      invariant if late then FirstLine(c.buf.pending, MAX_LINE_LEN) == NeedMore && old(socket.rest) != []
                else socket.rest == old(socket.rest)
      invariant old(socket.log) <= socket.log && socket.written == old(socket.written)
      decreases |socket.rest|
    {
      ghost var unread := socket.rest;
      ghost var pending := c.buf.pending;
      var data := socket.Read(READ_BUFFER_SIZE);
      assert pending + unread == pending + data + socket.rest;
      if data == [] {
        assert pending + unread == pending;
        DiscardStop(c.tagBytes, pending, lines);
      }
      step, taken := c.Resume(Some(data), socket.rest);
      if !step.Yielded? {
        return step;
      }
      late := true;
      AfterAfter(Discard(c.tagBytes, c.buf.pending + socket.rest), lines, taken);
      lines := lines + taken;
    }
  }

  /** Past the greeting: asks for the upgrade, then discards up to its answer. */
  method AskAndDrive(c: Coroutine, socket: Socket, tag: seq<Octet>, ghost greeting: seq<Octet>, ghost x: Exchange)
    returns (r: Step)
    requires c.Valid() && c.state.Tag? && c.isTag(tag)
    requires x == Discard(tag, c.buf.pending + socket.rest).After([greeting])
    modifies c, c.buf, socket
    ensures old(socket.log) <= socket.log && socket.written == old(socket.written) + c.command(tag)
    ensures match r
            case Upgraded(leftover) => old(socket.rest) != [] && x.ending == Found(leftover + socket.rest)
            case Failed(Eof) => socket.rest == [] && (x.ending.Incomplete? || old(socket.rest) == [])
            case Failed(e) => e == LineTooLong && x.ending == Overlong
            case Yielded(_) => false
  {
    hide Discard, FirstLine;
    var step, _ := c.Resume(Some(tag), socket.rest);
    socket.WriteAll(step.yielded.bytes);
    r := DriveTagged(c, socket, [greeting], x);
  }

  /** The reads of a run, `log`, split at the one that completed the greeting:
      those before it, `k` of them, hold no complete line. */
  ghost predicate GreetedBy(log: seq<seq<Octet>>, k: nat) {
    k < |log| && FirstLine(Concat(log[..k]), MAX_LINE_LEN) == NeedMore
    && FirstLine(Concat(log[..k + 1]), MAX_LINE_LEN).Line?
  }

  lemma LogGrows(log: seq<seq<Octet>>, data: seq<Octet>)
    ensures Concat(log + [data]) == Concat(log) + data
    ensures (log + [data])[..|log|] == log
  {
    ConcatAppend(log, [data]);
    ConcatOne(data);
  }

  /** Reads up to the end of the greeting. */
  method ReadGreeting(c: Coroutine, socket: Socket, ghost tag: seq<Octet>) returns (r: Step, ghost greeting: seq<Octet>)
    requires c.Valid() && c.state.DiscardGreeting? && c.buf.pending == [] && socket.log == []
    modifies c, c.buf, socket
    ensures socket.written == old(socket.written) && socket.log != []
    ensures var x, s, k := Conversation(tag, old(socket.rest)), old(socket.rest), |socket.log| - 1;
            match r
            case Yielded(WantsTag) =>
              c.Valid() && c.state.Tag? && GreetedBy(socket.log, k) && Concat(socket.log) + socket.rest == s
              && x == Discard(tag, c.buf.pending + socket.rest).After([greeting])
            case Failed(Eof) => socket.rest == [] && x.ending.Incomplete? && !GreetedBy(socket.log, k)
            case Failed(e) => e == LineTooLong && x.ending == Overlong && !GreetedBy(socket.log, k)
            case _ => false
  {
    hide Discard, FirstLine, Concat, Conversation;
    ghost var s := socket.rest;
    greeting := [];
    NothingYet();
    ghost var taken;
    r, taken := c.Resume(None, socket.rest);
    while true
      invariant c.Valid() && c.state.DiscardGreeting? && r == Yielded(WantsRead)
      invariant c.buf.pending == Concat(socket.log) && socket.written == old(socket.written)
      invariant s == c.buf.pending + socket.rest && FirstLine(c.buf.pending, MAX_LINE_LEN) == NeedMore
      decreases |socket.rest|
    {
      ghost var before, log := c.buf.pending, socket.log;
      var data := socket.Read(READ_BUFFER_SIZE);
      LogGrows(log, data);
      assert s == before + data + socket.rest;
      assert socket.log[..|socket.log|] == socket.log;
      ConversationStep(tag, before + data, socket.rest);
      assert data == [] ==> before + data == before && before + data + socket.rest == before;
      r, taken := c.Resume(Some(data), socket.rest);
      if r == Yielded(WantsTag) {
        greeting := FirstLine(before + data, MAX_LINE_LEN).line;
        assert (before + data)[|greeting|..] == c.buf.pending;
        return;
      }
      if r.Failed? {
        return;
      }
    }
  }

  /** A driver: reads when asked, passing on the end of the stream as an empty
      read. Lines and leftover are those of the conversation read in one piece.
      The one thing the reads decide is whether an upgrade already announced is
      noticed: it is exactly when the read that completed the greeting left
      something to read, since lines that came in with the greeting are looked
      at only then. */
  method Upgrade(c: Coroutine, socket: Socket, tag: seq<Octet>) returns (r: Step, ghost k: nat)
    requires c.Valid() && c.state.DiscardGreeting? && c.buf.pending == [] && c.isTag(tag) && socket.log == []
    modifies c, c.buf, socket
    ensures var x, s := Conversation(tag, old(socket.rest)), old(socket.rest);
            match r
            case Upgraded(leftover) =>
              x.ending == Found(leftover + socket.rest) && GreetedBy(socket.log, k) && Concat(socket.log[..k + 1]) != s
            case Failed(Eof) =>
              socket.rest == [] && (x.ending.Incomplete? || (GreetedBy(socket.log, k) && Concat(socket.log[..k + 1]) == s))
            case Failed(e) => e == LineTooLong && x.ending == Overlong
            case Yielded(_) => false
    ensures socket.written == old(socket.written) + if GreetedBy(socket.log, k) then c.command(tag) else []
  {
    hide Discard, FirstLine, Concat, Conversation;
    ghost var x := Conversation(tag, socket.rest);
    ghost var greeting;
    r, greeting := ReadGreeting(c, socket, tag);
    k := |socket.log| - 1;
    if r.Failed? {
      return;
    }
    ghost var log := socket.log;
    assert log[..k + 1] == log;
    r := AskAndDrive(c, socket, tag, greeting, x);
    assert socket.log[..k] == log[..k] && socket.log[..k + 1] == log;
  }

  /** The greeting line, once complete, is the reference's. */
  lemma ConversationStep(tag: seq<Octet>, buf: seq<Octet>, rest: seq<Octet>)
    ensures match FirstLine(buf, MAX_LINE_LEN)
            case NeedMore => rest == [] ==> Conversation(tag, buf + rest) == Exchange([], Incomplete(buf))
            case TooLong => Conversation(tag, buf + rest).ending == Overlong
            case Line(line) =>
              line <= buf && Conversation(tag, buf + rest) == Discard(tag, buf[|line|..] + rest).After([line])
  {
    hide Discard;
    match FirstLine(buf, MAX_LINE_LEN)
    case NeedMore => assert rest == [] ==> buf + rest == buf;
    case TooLong => FirstLineStable(buf, rest, MAX_LINE_LEN);
    case Line(line) =>
      FirstLineStable(buf, rest, MAX_LINE_LEN);
      assert (buf + rest)[|line|..] == buf[|line|..] + rest;
  }

  /** With nothing more to come, a partial line ends the exchange incomplete. */
  lemma DiscardStop(tag: seq<Octet>, buf: seq<Octet>, lines: seq<seq<Octet>>)
    ensures FirstLine(buf, MAX_LINE_LEN) == NeedMore ==> Discard(tag, buf).After(lines).ending == Incomplete(buf)
  {
  }

  lemma NothingYet()
    ensures FirstLine([], MAX_LINE_LEN) == NeedMore && Concat<Octet>([]) == []
  {
  }

  /** A server that greets, completes the command and closes in one go: the
      tagged line is there, the upgrade is announced, and yet the exchange ends
      with the stream, since nothing more is read to have it looked at. */
  method ClosedWithGreeting(c: Coroutine) returns (r: Step, ghost stream: seq<Octet>)
    requires c.Valid() && c.state.DiscardGreeting? && c.buf.pending == [] && c.isTag([97])
    modifies c, c.buf
    ensures Conversation([97], stream) == Exchange([[42, LF], [97, SP, LF]], Found([]))
    ensures r == Failed(Eof)
  {
    hide Discard, FirstLine, Tagged;
    var octets: seq<Octet> := [42, LF, 97, SP, LF];
    stream := octets;
    TaggedWithGreeting(stream);
    var step, lines := c.Resume(None, []);
    assert [] + octets == octets;
    step, lines := c.Resume(Some(octets), []);
    step, lines := c.Resume(Some([97]), []);
    step, lines := c.Resume(None, []);
    r, lines := c.Resume(Some([]), []);
  }

  lemma TaggedWithGreeting(stream: seq<Octet>)
    requires stream == [42, LF, 97, SP, LF]
    ensures FirstLine(stream, MAX_LINE_LEN) == Line([42, LF])
    ensures Conversation([97], stream) == Exchange([[42, LF], [97, SP, LF]], Found([]))
  {
    var t: seq<Octet> := [97, SP, LF];
    IndexOfUnique(stream, LF, 1);
    IndexOfUnique(t, LF, 2);
    assert stream[..2] == [42, LF] && stream[2..] == t && t[..3] == t && t[3..] == [];
    assert Discard([97], t) == Exchange([t], Found([]));
  }
}
