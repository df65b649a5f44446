/** The client loops pumping streamed bodies from the socket into sinks. */
module FetchClient {
  import opened Octets
  import opened LineScanner
  import opened FetchBatch

  /** Copies `len` octets from the socket to a sink, `short` when the server
      closes first; how the transport cuts its reads does not show. */
  method CopyBody(socket: Socket, sink: seq<Octet>, len: nat) returns (sink': seq<Octet>, short: bool)
    modifies socket
    ensures sink <= sink' && |sink'| - |sink| <= len
    ensures old(socket.rest) == sink'[|sink|..] + socket.rest
    ensures short <==> |sink'| - |sink| < len
    ensures short ==> socket.rest == []
    ensures socket.written == old(socket.written)
  {
    sink' := sink;
    short := false;
    var remaining := len;
    while remaining > 0
      invariant sink <= sink' && remaining >= 0 && |sink'| - |sink| + remaining == len
      invariant old(socket.rest) == sink'[|sink|..] + socket.rest
      invariant !short && socket.written == old(socket.written)
    {
      var want := if remaining < BODY_COPY_BUFFER_SIZE then remaining else BODY_COPY_BUFFER_SIZE;
      var data := socket.Read(want);
      if data == [] {
        short := true;
        break;
      }
      assert (sink' + data)[|sink|..] == sink'[|sink|..] + data;
      sink' := sink' + data;
      remaining := remaining - |data|;
    }
  }

  /** Octets reaching the sink early or late make the same body. */
  lemma ParseBodyFeed(cfg: Config, uid: nat, got: seq<Octet>, n: nat, c: seq<Octet>, t: seq<Octet>)
    requires |c| <= n
    ensures ParseBody(cfg, uid, got, n, c + t) == ParseBody(cfg, uid, got + c, n - |c|, t)
  {
    hide Parse;
    var s := c + t;
    if |t| < n - |c| {
      assert got + s == got + c + t;
    } else {
      assert s[n..] == t[n - |c|..];
      assert got + s[..n] == got + c + t[..n - |c|];
    }
  }

  lemma ParseBodyDone(cfg: Config, uid: nat, got: seq<Octet>, t: seq<Octet>)
    ensures ParseBody(cfg, uid, got, 0, t) == Parse(cfg, t).After([BodyItem(uid, got)])
  {
    hide Parse;
    assert t[0..] == t && got + t[..0] == got;
  }

  lemma BodiesBody(items: seq<Item>, uid: nat, body: seq<Octet>)
    ensures Bodies(items + [BodyItem(uid, body)]) == Bodies(items) + [Message(uid, body)]
  {
    BodiesAppend(items, [BodyItem(uid, body)]);
    assert [BodyItem(uid, body)][1..] == [];
  }

  ghost function Rank(c: Coroutine): nat
    reads c
  {
    match c.state
    case SendCommand => if c.tagRequested then 4 else 5
    case Stream => if c.streamPending then 2 else 3
    case NextItem => 0
  }

  ghost function Fed(c: Coroutine, arg: Option<seq<Octet>>): seq<Octet>
    reads c, c.scanner
  {
    c.scanner.pending + if c.state.NextItem? && arg.Some? then arg.value else []
  }

  /** What the loop knows at its head, with `s` the server's octets and
      `items` the lines and bodies already behind it. */
  ghost predicate Pumping(c: Coroutine, rest: seq<Octet>, s: seq<Octet>, items: seq<Item>,
                          arg: Option<seq<Octet>>, current: Option<Message>)
    reads c, c.scanner
  {
    c.Valid()
    && match c.state
       case SendCommand => false
       case NextItem =>
         current.None? && arg != Some([]) && Parse(c.cfg, s) == Parse(c.cfg, Fed(c, arg) + rest).After(items)
       case Stream =>
         current.Some?
         && var m := current.value;
            if arg.None? then
              Parse(c.cfg, s)
              == ParseBody(c.cfg, m.uid, m.body, if c.streamPending then 0 else c.remaining,
                           c.scanner.pending + rest).After(items)
            else
              arg == Some([]) && c.streamPending && rest == [] && Parse(c.cfg, s) == Outcome(items, ShortBody, m.body)
  }

  /** Between messages: read more, or open the sink of the next message. */
  method PumpLines(c: Coroutine, socket: Socket, arg: Option<seq<Octet>>, ghost s: seq<Octet>, ghost items: seq<Item>)
    returns (arg': Option<seq<Octet>>, current: Option<Message>, verdict: Option<Verdict>, ghost items': seq<Item>)
    requires c.state.NextItem? && Pumping(c, socket.rest, s, items, arg, None)
    modifies c, c.scanner, socket
    ensures Bodies(items') == Bodies(items) && socket.written == old(socket.written)
    ensures match verdict
            case None =>
              Pumping(c, socket.rest, s, items', arg', current)
              && (|socket.rest| < old(|socket.rest|)
                  || (socket.rest == old(socket.rest) && |Fed(c, arg')| < old(|Fed(c, arg)|)))
            case Some(v) => Parse(c.cfg, s) == Outcome(items', v, c.scanner.pending + socket.rest)
  {
    hide Parse, ParseBody, Bodies, PhaseOf;
    var step, taken := c.Next(arg, socket.rest);
    Gather(Parse(c.cfg, s), c.Remainder(step, c.scanner.pending + socket.rest), items, taken);
    items' := items + taken;
    arg', current, verdict := None, None, None;
    match step {
      case Yielded(WantsRead) =>
        ghost var unread := socket.rest;
        var data := socket.Read(READ_BUFFER_SIZE);
        if data == [] {
          assert c.scanner.pending + unread == c.scanner.pending && c.scanner.pending + socket.rest == c.scanner.pending;
          ParseEof(c.cfg, c.scanner.pending, items');
          verdict := Some(Eof);
        } else {
          assert c.scanner.pending + unread == c.scanner.pending + data + socket.rest;
          arg' := Some(data);
        }
      case Yielded(MessageStart(uid)) =>
        current := Some(Message(uid, []));
      case Complete(v) =>
        assert items' + [] == items';
        verdict := Some(v);
    }
  }

  /** Within a message: fill its sink from the buffer, then from the socket,
      and commit it. Each of those yields finds the sink open. */
  method PumpBody(c: Coroutine, socket: Socket, arg: Option<seq<Octet>>, current: Option<Message>, done: seq<Message>,
                  ghost s: seq<Octet>, ghost items: seq<Item>)
    returns (arg': Option<seq<Octet>>, current': Option<Message>, done': seq<Message>, verdict: Option<Verdict>,
             ghost items': seq<Item>)
    requires c.state.Stream? && Pumping(c, socket.rest, s, items, arg, current) && done == Bodies(items)
    modifies c, c.scanner, socket
    ensures done' == Bodies(items') && socket.written == old(socket.written)
    ensures match verdict
            case None =>
              Pumping(c, socket.rest, s, items', arg', current')
              && (|socket.rest| < old(|socket.rest|)
                  || (socket.rest == old(socket.rest)
                      && (|Fed(c, arg')| < old(|Fed(c, arg)|)
                          || (|Fed(c, arg')| == old(|Fed(c, arg)|) && Rank(c) < old(Rank(c))))))
            case Some(v) =>
              current'.Some? && socket.rest == [] && Parse(c.cfg, s) == Outcome(items', v, current'.value.body)
  {
    hide Parse, ParseBody, Bodies, PhaseOf;
    ghost var pending := c.scanner.pending;
    var message := current.value;
    var step := c.Body(arg);
    arg', current', done', verdict, items' := None, current, done, None, items;
    match step {
      case Yielded(BodyChunk(bytes)) =>
        assert pending + socket.rest == bytes + (c.scanner.pending + socket.rest);
        ParseBodyFeed(c.cfg, message.uid, message.body, c.remaining + |bytes|, bytes, c.scanner.pending + socket.rest);
        current' := Some(Message(message.uid, message.body + bytes));
      case Yielded(WantsStream(len)) =>
        ghost var unread := socket.rest;
        var sink, short := CopyBody(socket, message.body, len);
        ghost var copied := sink[|message.body|..];
        assert sink == message.body + copied;
        assert pending + unread == copied + (c.scanner.pending + socket.rest);
        ParseBodyFeed(c.cfg, message.uid, message.body, len, copied, c.scanner.pending + socket.rest);
        current' := Some(Message(message.uid, sink));
        if short {
          assert c.scanner.pending + socket.rest == [];
          ParseBodyShort(c.cfg, message.uid, sink, len - |copied|, items);
          arg' := Some([]);
        }
      case Yielded(MessageEnd) =>
        current' := None;
        ParseBodyDone(c.cfg, message.uid, message.body, c.scanner.pending + socket.rest);
        AfterAfter(Parse(c.cfg, c.scanner.pending + socket.rest), items, [BodyItem(message.uid, message.body)]);
        BodiesBody(items, message.uid, message.body);
        items' := items + [BodyItem(message.uid, message.body)];
        done' := done + [message];
        assert Fed(c, arg') == c.scanner.pending;
      case Complete(v) =>
        verdict := Some(v);
    }
  }

  /** Fetches the bodies of a whole set in one command. However the reads are
      cut, the sinks committed and the verdict are those of the reference
      parser on the server's octets; what it leaves is the sink not committed,
      the octets buffered and the octets unread; the command is written once;
      and the yields about bodies came in order. */
  method FetchBodies(cfg: Config, socket: Socket, tag: seq<Octet>)
    returns (done: seq<Message>, verdict: Verdict, ghost open: seq<Octet>, ghost buffered: seq<Octet>)
    requires cfg.isTag(tag)
    modifies socket
    ensures var o := Parse(cfg, old(socket.rest));
            done == Bodies(o.items) && verdict == o.verdict && o.leftover == open + buffered + socket.rest
    ensures socket.written == old(socket.written) + cfg.command(tag)
  {
    hide Parse, ParseBody, Bodies, PhaseOf;
    ghost var s := socket.rest;
    var c := new Coroutine(cfg);
    var arg: Option<seq<Octet>> := None;
    var current: Option<Message> := None;
    ghost var items: seq<Item> := [];
    done := [];
    BodiesNil();
    AfterNothing(Parse(cfg, s));

    while true
      invariant c.Valid() && fresh(c) && fresh(c.scanner) && c.cfg == cfg
      invariant done == Bodies(items)
      invariant if c.state.SendCommand?
                then current.None? && socket.rest == s && items == [] && socket.written == old(socket.written)
                     && arg == if c.tagRequested then Some(tag) else None
                else Pumping(c, socket.rest, s, items, arg, current)
                     && socket.written == old(socket.written) + cfg.command(tag)
      decreases |socket.rest|, |Fed(c, arg)|, Rank(c)
    {
      var end: Option<Verdict> := None;
      match c.state {
        case SendCommand =>
          var step := c.Send(arg);
          match step {
            case Yielded(WantsTag) => arg := Some(tag);
            case Yielded(WantsWrite(bytes)) =>
              socket.WriteAll(bytes);
              arg := None;
              assert Fed(c, arg) + socket.rest == s;
          }
        case NextItem =>
          arg, current, end, items := PumpLines(c, socket, arg, s, items);
        case Stream =>
          arg, current, done, end, items := PumpBody(c, socket, arg, current, done, s, items);
          if end.Some? {
            assert current.value.body + [] + socket.rest == current.value.body;
            return done, end.value, current.value.body, [];
          }
      }
      if end.Some? {
        assert [] + c.scanner.pending + socket.rest == c.scanner.pending + socket.rest;
        return done, end.value, [], c.scanner.pending;
      }
    }
  }

  lemma Gather(whole: Outcome, rest: Outcome, items: seq<Item>, taken: seq<Item>)
    requires whole == rest.After(taken).After(items)
    ensures whole == rest.After(items + taken)
    ensures Bodies(taken) == [] ==> Bodies(items + taken) == Bodies(items)
  {
    AfterAfter(rest, items, taken);
    BodiesAppend(items, taken);
  }

  lemma ParseEof(cfg: Config, buffered: seq<Octet>, items: seq<Item>)
    requires FirstLine(buffered, MAX_LINE_LEN) == NeedMore
    ensures Parse(cfg, buffered).After(items) == Outcome(items, Eof, buffered)
  {
    assert items + [] == items;
  }

  lemma ParseBodyShort(cfg: Config, uid: nat, got: seq<Octet>, n: nat, items: seq<Item>)
    requires n > 0
    ensures ParseBody(cfg, uid, got, n, []).After(items) == Outcome(items, ShortBody, got)
  {
    assert got + [] == got && items + [] == items;
  }
}
