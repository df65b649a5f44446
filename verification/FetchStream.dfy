/** The FETCH of one body, streamed past the response parser, and the client
    loop pumping it into its sink. */
module FetchStream {
  import opened Octets
  import opened LineScanner
  import FetchBatch
  import FetchClient

  const MAX_LINE_LEN: nat := 1024 * 1024

  type Config = FetchBatch.Config

  datatype Verdict =
    | Completed(completion: FetchBatch.Completion)
    | MissingTag
    | InvalidTag
    | MissingTagged
    | Eof
    | ShortBody
    | UnexpectedLiteral
    | LineTooLong

  // ------------------------------------------------------- reference parser

  /** What reached the sink, how it ended, and the octets not consumed. */
  datatype Outcome = Outcome(sink: seq<Octet>, verdict: Verdict, leftover: seq<Octet>)

  /** The server's octets up to the line that announces the body. */
  function Header(cfg: Config, s: seq<Octet>): Outcome
    decreases |s|, 0
  {
    match FirstLine(s, MAX_LINE_LEN)
    case NeedMore => Outcome([], Eof, s)
    case TooLong => Outcome([], LineTooLong, s)
    case Line(line) => HeaderLine(cfg, line, s[|line|..])
  }

  function HeaderLine(cfg: Config, line: seq<Octet>, t: seq<Octet>): Outcome
    decreases |t|, 1
  {
    match (cfg.announce(line), cfg.terminal(line))
    case (Some(len), _) => Body(cfg, [], len, t)
    case (None, Some(c)) => Outcome([], Completed(c), t)
    case (None, None) => Header(cfg, t)
  }

  /** The body, `got` of it in the sink and `n` octets to come. */
  function Body(cfg: Config, got: seq<Octet>, n: nat, t: seq<Octet>): Outcome {
    if |t| < n then Outcome(got + t, ShortBody, []) else Trailer(cfg, got + t[..n], t[n..])
  }

  /** The lines after the body, which announce nothing. */
  function Trailer(cfg: Config, sink: seq<Octet>, s: seq<Octet>): Outcome
    decreases |s|, 0
  {
    match FirstLine(s, MAX_LINE_LEN)
    case NeedMore => Outcome(sink, Eof, s)
    case TooLong => Outcome(sink, LineTooLong, s)
    case Line(line) => TrailerLine(cfg, sink, line, s[|line|..])
  }

  function TrailerLine(cfg: Config, sink: seq<Octet>, line: seq<Octet>, t: seq<Octet>): Outcome
    decreases |t|, 1
  {
    match (cfg.announce(line), cfg.terminal(line))
    case (Some(_), _) => Outcome(sink, UnexpectedLiteral, t)
    case (None, Some(c)) => Outcome(sink, Completed(c), t)
    case (None, None) => Trailer(cfg, sink, t)
  }

  /** The lines after a body: skipped up to a status, which ends the exchange, or
      a literal, which is refused, or the lack of a line or one too long. */
  ghost predicate TrailerExplains(cfg: Config, lines: seq<seq<Octet>>, verdict: Verdict, leftover: seq<Octet>)
    decreases |lines|
  {
    if lines == [] then
      if verdict.Eof? then Unended(leftover, MAX_LINE_LEN) else verdict.LineTooLong? && Overlong(leftover, MAX_LINE_LEN)
    else
      IsLine(lines[0], MAX_LINE_LEN)
      && match (cfg.announce(lines[0]), cfg.terminal(lines[0]))
         case (Some(_), _) => |lines| == 1 && verdict.UnexpectedLiteral?
         case (None, Some(c)) => |lines| == 1 && verdict == Completed(c)
         case (None, None) => TrailerExplains(cfg, lines[1..], verdict, leftover)
  }

  /** The lines before a body likewise, except that a literal is the body: the
      sink then holds as many octets as announced, or fewer when the stream ends. */
  ghost predicate HeaderExplains(cfg: Config, lines: seq<seq<Octet>>, o: Outcome, trailer: seq<seq<Octet>>)
    decreases |lines|
  {
    if lines == [] then
      o.sink == [] && trailer == [] && TrailerExplains(cfg, [], o.verdict, o.leftover)
    else
      IsLine(lines[0], MAX_LINE_LEN)
      && match (cfg.announce(lines[0]), cfg.terminal(lines[0]))
         case (Some(len), _) =>
           |lines| == 1
           && if o.verdict.ShortBody? then |o.sink| < len && trailer == [] && o.leftover == []
              else |o.sink| == len && TrailerExplains(cfg, trailer, o.verdict, o.leftover)
         case (None, Some(c)) => |lines| == 1 && o.sink == [] && trailer == [] && o.verdict == Completed(c)
         case (None, None) => HeaderExplains(cfg, lines[1..], o, trailer)
  }

  /** Header lines, sink, trailer lines and leftover are the stream, and they say
      how it ended. */
  ghost predicate Partition(cfg: Config, s: seq<Octet>, o: Outcome, header: seq<seq<Octet>>, trailer: seq<seq<Octet>>) {
    s == Concat(header) + o.sink + Concat(trailer) + o.leftover && HeaderExplains(cfg, header, o, trailer)
  }

  lemma {:induction false} HeaderPartition(cfg: Config, s: seq<Octet>)
    returns (header: seq<seq<Octet>>, trailer: seq<seq<Octet>>)
    ensures Partition(cfg, s, Header(cfg, s), header, trailer)
    decreases |s|
  {
    hide FirstLine, Body, Partition, IsLine;
    header, trailer := [], [];
    match FirstLine(s, MAX_LINE_LEN)
    case Line(line) =>
      FirstLinePrefix(s, MAX_LINE_LEN);
      FirstLineMeaning(s, MAX_LINE_LEN, line);
      var t := s[|line|..];
      match (cfg.announce(line), cfg.terminal(line)) {
        case (Some(len), _) => header, trailer := BodyPartition(cfg, line, len, t);
        case (None, Some(c)) =>
          header := [line];
          PartitionStatus(cfg, line, c, t);
        case (None, None) =>
          header, trailer := HeaderPartition(cfg, t);
          PartitionStep(cfg, line, t, Header(cfg, t), header, trailer);
          header := [line] + header;
      }
    case _ => PartitionNone(cfg, s);
  }

  lemma PartitionNone(cfg: Config, s: seq<Octet>)
    requires !FirstLine(s, MAX_LINE_LEN).Line?
    ensures Partition(cfg, s, Header(cfg, s), [], [])
  {
    hide FirstLine, Unended, Overlong;
    FirstLineMeaning(s, MAX_LINE_LEN, []);
    ConcatNone();
    assert s == [] + [] + [] + s;
  }

  lemma PartitionStatus(cfg: Config, line: seq<Octet>, c: FetchBatch.Completion, t: seq<Octet>)
    requires IsLine(line, MAX_LINE_LEN) && cfg.announce(line).None? && cfg.terminal(line) == Some(c)
    ensures Partition(cfg, line + t, Outcome([], Completed(c), t), [line], [])
  {
    hide IsLine, Concat;
    ConcatOne(line);
    ConcatNone();
    assert line + t == line + [] + [] + t;
  }

  lemma PartitionStep(cfg: Config, line: seq<Octet>, t: seq<Octet>, o: Outcome, header: seq<seq<Octet>>, trailer: seq<seq<Octet>>)
    requires IsLine(line, MAX_LINE_LEN) && cfg.announce(line).None? && cfg.terminal(line).None?
    requires Partition(cfg, t, o, header, trailer)
    ensures Partition(cfg, line + t, o, [line] + header, trailer)
  {
    hide Concat, IsLine, TrailerExplains;
    ConcatCons(line, header);
    assert ([line] + header)[1..] == header;
  }

  lemma BodyPartition(cfg: Config, line: seq<Octet>, len: nat, t: seq<Octet>)
    returns (header: seq<seq<Octet>>, trailer: seq<seq<Octet>>)
    requires IsLine(line, MAX_LINE_LEN) && cfg.announce(line) == Some(len)
    ensures Partition(cfg, line + t, Body(cfg, [], len, t), header, trailer)
  {
    hide Trailer, Concat, IsLine, TrailerExplains;
    header := [line];
    ConcatOne(line);
    if |t| < len {
      trailer := [];
      ConcatNone();
      assert line + t == line + ([] + t) + [] + [];
    } else {
      trailer := TrailerPartition(cfg, [] + t[..len], t[len..]);
      var o := Body(cfg, [], len, t);
      assert t == t[..len] + t[len..];
      assert line + t == line + t[..len] + Concat(trailer) + o.leftover;
    }
  }

  lemma ConcatNone()
    ensures Concat<Octet>([]) == []
  {
  }

  lemma {:induction false} TrailerPartition(cfg: Config, sink: seq<Octet>, s: seq<Octet>) returns (trailer: seq<seq<Octet>>)
    ensures var o := Trailer(cfg, sink, s);
            o.sink == sink && s == Concat(trailer) + o.leftover && !o.verdict.ShortBody?
            && TrailerExplains(cfg, trailer, o.verdict, o.leftover)
    decreases |s|
  {
    hide FirstLine, IsLine, Unended, Overlong;
    trailer := [];
    match FirstLine(s, MAX_LINE_LEN)
    case Line(line) =>
      FirstLinePrefix(s, MAX_LINE_LEN);
      FirstLineMeaning(s, MAX_LINE_LEN, line);
      ConcatOne(line);
      trailer := [line];
      if cfg.announce(line).None? && cfg.terminal(line).None? {
        var rest := TrailerPartition(cfg, sink, s[|line|..]);
        trailer := [line] + rest;
        assert trailer[1..] == rest;
        ConcatCons(line, rest);
      }
    case _ => FirstLineMeaning(s, MAX_LINE_LEN, []);
  }

  /** The line that announces the body, when one is reached. */
  function Announcing(cfg: Config, s: seq<Octet>): (r: Option<seq<Octet>>)
    ensures r.Some? ==> cfg.announce(r.value).Some?
    decreases |s|
  {
    match FirstLine(s, MAX_LINE_LEN)
    case Line(line) =>
      if cfg.announce(line).Some? then Some(line)
      else if cfg.terminal(line).Some? then None
      else Announcing(cfg, s[|line|..])
    case _ => None
  }

  /** The batched form delivers that body first if it admits that line and the
      body comes in full; otherwise it delivers none. */
  lemma {:induction false} SameBody(cfg: Config, s: seq<Octet>)
    ensures var bodies, header := FetchBatch.Bodies(FetchBatch.Parse(cfg, s).items), Announcing(cfg, s);
            if header.Some? && FetchBatch.Admit(cfg, header.value, cfg.announce(header.value).value).Accepted?
               && !Header(cfg, s).verdict.ShortBody?
            then bodies != [] && bodies[0].body == Header(cfg, s).sink
            else bodies == []
    decreases |s|
  {
    hide FirstLine, FetchBatch.Admit;
    match FirstLine(s, MAX_LINE_LEN)
    case Line(line) =>
      FirstLinePrefix(s, MAX_LINE_LEN);
      var t := s[|line|..];
      BatchLine(cfg, s, line, t);
      if cfg.announce(line).Some? {
        var len := cfg.announce(line).value;
        assert Header(cfg, s) == Body(cfg, [], len, t) && Announcing(cfg, s) == Some(line);
        if len <= |t| {
          var trailer := TrailerPartition(cfg, [] + t[..len], t[len..]);
        }
        BatchBody(cfg, line, len, t);
      } else if cfg.terminal(line).None? {
        assert Header(cfg, s) == Header(cfg, t) && Announcing(cfg, s) == Announcing(cfg, t);
        SameBody(cfg, t);
      }
    case _ =>
  }

  lemma BatchLine(cfg: Config, s: seq<Octet>, line: seq<Octet>, t: seq<Octet>)
    requires FirstLine(s, MAX_LINE_LEN) == Line(line) && t == s[|line|..]
    ensures FetchBatch.Bodies(FetchBatch.Parse(cfg, s).items) == FetchBatch.Bodies(FetchBatch.ParseFrom(cfg, line, t).items)
  {
    hide FetchBatch.ParseFrom, FetchBatch.Bodies;
    var items := FetchBatch.ParseFrom(cfg, line, t).items;
    FetchBatch.BodiesLine([], line);
    FetchBatch.BodiesNil();
    FetchBatch.BodiesAppend([FetchBatch.LineItem(line)], items);
    assert [] + [FetchBatch.LineItem(line)] == [FetchBatch.LineItem(line)];
  }

  lemma BatchBody(cfg: Config, line: seq<Octet>, len: nat, t: seq<Octet>)
    ensures cfg.announce(line) == Some(len) ==>
              var bodies := FetchBatch.Bodies(FetchBatch.ParseFrom(cfg, line, t).items);
              if len <= |t| && FetchBatch.Admit(cfg, line, len).Accepted? then bodies != [] && bodies[0].body == [] + t[..len]
              else bodies == []
  {
    hide FetchBatch.Parse, FetchBatch.Admit;
    if cfg.announce(line) == Some(len) && FetchBatch.Admit(cfg, line, len).Accepted? {
      var uid := FetchBatch.Admit(cfg, line, len).uid;
      var o := FetchBatch.ParseBody(cfg, uid, [], len, t);
      assert FetchBatch.ParseFrom(cfg, line, t) == o;
      if len <= |t| {
        assert o.items[0] == FetchBatch.BodyItem(uid, [] + t[..len]);
      }
    }
  }

  lemma HeaderNext(cfg: Config, buf: seq<Octet>, line: seq<Octet>, left: seq<Octet>, rest: seq<Octet>)
    requires FirstLine(buf, MAX_LINE_LEN) == Line(line) && buf == line + left
    ensures Header(cfg, buf + rest) == HeaderLine(cfg, line, left + rest)
  {
    hide FirstLine;
    FirstLineStable(buf, rest, MAX_LINE_LEN);
    assert (buf + rest)[|line|..] == left + rest;
  }

  lemma TrailerNext(cfg: Config, sink: seq<Octet>, buf: seq<Octet>, line: seq<Octet>, left: seq<Octet>, rest: seq<Octet>)
    requires FirstLine(buf, MAX_LINE_LEN) == Line(line) && buf == line + left
    ensures Trailer(cfg, sink, buf + rest) == TrailerLine(cfg, sink, line, left + rest)
  {
    hide FirstLine;
    FirstLineStable(buf, rest, MAX_LINE_LEN);
    assert (buf + rest)[|line|..] == left + rest;
  }

  lemma TooLongStays(cfg: Config, sink: seq<Octet>, buf: seq<Octet>, rest: seq<Octet>)
    requires FirstLine(buf, MAX_LINE_LEN) == TooLong
    ensures Header(cfg, buf + rest) == Outcome([], LineTooLong, buf + rest)
    ensures Trailer(cfg, sink, buf + rest) == Outcome(sink, LineTooLong, buf + rest)
  {
    FirstLineStable(buf, rest, MAX_LINE_LEN);
  }

  /** Octets reaching the sink early or late make the same body. */
  lemma BodyFeed(cfg: Config, got: seq<Octet>, n: nat, c: seq<Octet>, t: seq<Octet>)
    requires |c| <= n
    ensures Body(cfg, got, n, c + t) == Body(cfg, got + c, n - |c|, t)
  {
    hide Trailer;
    var s := c + t;
    if |t| < n - |c| {
      assert got + s == got + c + t;
    } else {
      assert s[n..] == t[n - |c|..];
      assert got + s[..n] == got + c + t[..n - |c|];
    }
  }

  lemma BodyDone(cfg: Config, got: seq<Octet>, t: seq<Octet>)
    ensures Body(cfg, got, 0, t) == Trailer(cfg, got, t)
  {
    hide Trailer;
    assert t[0..] == t && got + t[..0] == got;
  }

  // --------------------------------------------------------------- coroutine

  datatype Yield = WantsTag | WantsRead | WantsWrite(bytes: seq<Octet>) | BodyChunk(bytes: seq<Octet>) | WantsStream(len: nat)

  datatype Step = Yielded(yielded: Yield) | Complete(verdict: Verdict)

  datatype State = SendCommand | HeaderState | Stream | TrailerState

  class Coroutine {
    const cfg: Config
    const scanner: Scanner
    var state: State
    var tagRequested: bool
    var remaining: nat
    var streamPending: bool

    ghost predicate Valid()
      reads this, scanner
    {
      scanner.Valid() && scanner.cap == MAX_LINE_LEN
      && (state.Stream? ==> scanner.scanned == 0)
      && (state.SendCommand? ==> scanner.pending == [])
      && (streamPending ==> state.Stream? && scanner.pending == [] && remaining > 0)
    }

    constructor (cfg: Config)
      ensures Valid() && fresh(scanner)
      ensures this.cfg == cfg && state == SendCommand && !tagRequested && scanner.pending == [] && !streamPending
    {
      this.cfg := cfg;
      scanner := new Scanner(MAX_LINE_LEN);
      state, tagRequested, remaining, streamPending := SendCommand, false, 0, false;
    }

    /** What the reference makes of octets `t` from here on, with `sink` filled
        so far; a stream asked for counts as done. */
    ghost function Ahead(sink: seq<Octet>, t: seq<Octet>): Outcome
      requires !state.SendCommand?
      reads this
    {
      match state
      case HeaderState => Header(cfg, t)
      case Stream => Body(cfg, sink, if streamPending then 0 else remaining, t)
      case TrailerState => Trailer(cfg, sink, t)
    }

    /** Takes the tag, asking for it once. */
    method Send(arg: Option<seq<Octet>>) returns (r: Step)
      requires Valid() && state.SendCommand?
      modifies this
      ensures scanner.pending == old(scanner.pending) == [] && !streamPending
      ensures match arg
              case Some(tag) =>
                if cfg.isTag(tag) then r == Yielded(WantsWrite(cfg.command(tag))) && state == HeaderState
                else r == Complete(InvalidTag)
              case None =>
                if old(tagRequested) then r == Complete(MissingTag)
                else r == Yielded(WantsTag) && state == SendCommand && tagRequested
      ensures r.Yielded? ==> Valid()
    {
      match arg
      case Some(tag) =>
        if !cfg.isTag(tag) {
          return Complete(InvalidTag);
        }
        state := HeaderState;
        return Yielded(WantsWrite(cfg.command(tag)));
      case None =>
        if tagRequested {
          return Complete(MissingTag);
        }
        tagRequested := true;
        return Yielded(WantsTag);
    }

    /** The lines before the body, `None` once one of them announces it. */
    method Headers(ghost rest: seq<Octet>) returns (r: Option<Step>)
      requires Valid() && state.HeaderState?
      modifies this, scanner
      ensures r.None? ==> Valid() && state == Stream && !streamPending
      ensures r.None? ==> Header(cfg, old(scanner.pending) + rest) == Body(cfg, [], remaining, scanner.pending + rest)
      ensures match r
              case Some(Yielded(WantsRead)) =>
                Valid() && state == HeaderState && FirstLine(scanner.pending, MAX_LINE_LEN) == NeedMore
                && Header(cfg, old(scanner.pending) + rest) == Header(cfg, scanner.pending + rest)
              case Some(Complete(v)) =>
                Header(cfg, old(scanner.pending) + rest) == Outcome([], v, scanner.pending + rest) && v != ShortBody
              case Some(Yielded(_)) => false
              case None => |scanner.pending| < |old(scanner.pending)|
    {
      hide Header, FirstLine, Body;
      ghost var s := scanner.pending + rest;
      while true
        invariant Valid() && state.HeaderState? && |scanner.pending| <= |old(scanner.pending)|
        invariant Header(cfg, s) == Header(cfg, scanner.pending + rest)
        decreases |scanner.pending|
      {
        ghost var before := scanner.pending;
        var scan := scanner.NextLine();
        match scan
        case NeedMore => return Some(Yielded(WantsRead));
        case TooLong =>
          TooLongStays(cfg, [], before, rest);
          return Some(Complete(LineTooLong));
        case Line(line) =>
          HeaderNext(cfg, before, line, scanner.pending, rest);
          var announced := cfg.announce(line);
          if announced.Some? {
            remaining := announced.value;
            state := Stream;
            return None;
          }
          var completion := cfg.terminal(line);
          if completion.Some? {
            return Some(Complete(Completed(completion.value)));
          }
      }
    }

    /** The lines after the body. */
    method Trailers(ghost sink: seq<Octet>, ghost rest: seq<Octet>) returns (r: Step)
      requires Valid() && state.TrailerState?
      modifies this, scanner
      ensures match r
              case Yielded(WantsRead) =>
                Valid() && state == TrailerState && FirstLine(scanner.pending, MAX_LINE_LEN) == NeedMore
                && Trailer(cfg, sink, old(scanner.pending) + rest) == Trailer(cfg, sink, scanner.pending + rest)
              case Complete(v) =>
                Trailer(cfg, sink, old(scanner.pending) + rest) == Outcome(sink, v, scanner.pending + rest) && v != ShortBody
              case Yielded(_) => false
    {
      hide Trailer, FirstLine;
      ghost var s := scanner.pending + rest;
      while true
        invariant Valid() && state.TrailerState?
        invariant Trailer(cfg, sink, s) == Trailer(cfg, sink, scanner.pending + rest)
        decreases |scanner.pending|
      {
        ghost var before := scanner.pending;
        var scan := scanner.NextLine();
        match scan
        case NeedMore => return Yielded(WantsRead);
        case TooLong =>
          TooLongStays(cfg, sink, before, rest);
          return Complete(LineTooLong);
        case Line(line) =>
          TrailerNext(cfg, sink, before, line, scanner.pending, rest);
          if cfg.announce(line).Some? {
            return Complete(UnexpectedLiteral);
          }
          var completion := cfg.terminal(line);
          if completion.Some? {
            return Complete(Completed(completion.value));
          }
      }
    }

    /** Within the body: octets already buffered first, then the socket, then
        `None`, on to the trailer. */
    method Bodies(arg: Option<seq<Octet>>) returns (r: Option<Step>)
      requires Valid() && state.Stream?
      modifies this, scanner
      ensures match r
              case Some(Yielded(BodyChunk(c))) =>
                Valid() && state == Stream && !old(streamPending) && !streamPending
                && c != [] && old(scanner.pending) == c + scanner.pending && old(remaining) == |c| + remaining
              case Some(Yielded(WantsStream(len))) =>
                Valid() && state == Stream && !old(streamPending) && streamPending
                && len == remaining == old(remaining) > 0 && scanner.pending == old(scanner.pending) == []
              case Some(Complete(v)) => v == ShortBody && old(streamPending) && arg == Some([]) && scanner.pending == []
              case Some(Yielded(_)) => false
              case None =>
                Valid() && state == TrailerState && scanner.pending == old(scanner.pending)
                && (old(remaining) == 0 || (old(streamPending) && arg != Some([])))
    {
      while true
        invariant Valid() && state.Stream? && scanner.pending == old(scanner.pending)
        invariant (remaining == old(remaining) && streamPending == old(streamPending))
               || (remaining == 0 && !streamPending && old(streamPending) && arg != Some([]))
        decreases remaining
      {
        if remaining == 0 {
          state := TrailerState;
          return None;
        }
        if scanner.pending != [] {
          var take := if remaining < |scanner.pending| then remaining else |scanner.pending|;
          var chunk := scanner.Drain(take);
          remaining := remaining - take;
          return Some(Yielded(BodyChunk(chunk)));
        }
        if streamPending {
          streamPending := false;
          if arg == Some([]) {
            return Some(Complete(ShortBody));
          }
          remaining := 0;
          continue;
        }
        streamPending := true;
        return Some(Yielded(WantsStream(remaining)));
      }
    }

    /** While the body is streamed the argument carries no octets of the server:
        it only says whether the stream asked for came in full. */
    ghost predicate Streaming()
      reads this
    {
      state.Stream? && (streamPending || remaining > 0)
    }

    /** One resume past the tag: whatever octets `rest` the server has yet to
        deliver, what the reference makes of everything is unchanged. */
    method Resume(arg: Option<seq<Octet>>, ghost sink: seq<Octet>, ghost rest: seq<Octet>) returns (r: Step)
      requires Valid() && !state.SendCommand?
      requires state.HeaderState? ==> sink == []
      modifies this, scanner
      ensures !old(Streaming()) && arg == Some([]) ==> r == Complete(MissingTagged)
      ensures old(streamPending) && arg == Some([]) ==> r == Complete(ShortBody) && scanner.pending == []
      ensures arg != Some([]) || (old(Streaming()) && !old(streamPending)) ==>
                var buffered := old(scanner.pending) + if arg.Some? && !old(Streaming()) then arg.value else [];
                var before := old(Ahead(sink, buffered + rest));
                match r
                case Yielded(WantsRead) =>
                  (state.HeaderState? || state.TrailerState?) && FirstLine(scanner.pending, MAX_LINE_LEN) == NeedMore
                  && before == Ahead(sink, scanner.pending + rest)
                case Yielded(BodyChunk(c)) =>
                  state == Stream && !streamPending && before == Body(cfg, sink + c, remaining, scanner.pending + rest)
                  && |scanner.pending| < |buffered|
                case Yielded(WantsStream(len)) =>
                  state == Stream && streamPending && scanner.pending == [] && len > 0 && before == Body(cfg, sink, len, rest)
                  && (|buffered| > 0 || (old(state).Stream? && !old(streamPending)))
                case Yielded(_) => false
                case Complete(v) => v != ShortBody && before == Outcome(sink, v, scanner.pending + rest)
      ensures r.Yielded? ==> Valid() && (state.HeaderState? ==> sink == [])
    {
      hide Header, Body, Trailer, FirstLine;
      var input := arg;
      assert scanner.pending + [] == scanner.pending;
      if state.HeaderState? {
        if input.Some? {
          if input.value == [] {
            return Complete(MissingTagged);
          }
          scanner.Extend(input.value);
        }
        input := None;
        assert scanner.pending == old(scanner.pending) + if arg.Some? then arg.value else [];
        var step := Headers(rest);
        if step.Some? {
          return step.value;
        }
      }
      if state.Stream? {
        ghost var pending, left := scanner.pending, if streamPending then 0 else remaining;
        var asked := streamPending;
        var step := Bodies(input);
        BodyDone(cfg, sink, pending + rest);
        BodyDone(cfg, sink, pending + (if arg.Some? then arg.value else []) + rest);
        if step.Some? {
          if step.value.Yielded? && step.value.yielded.BodyChunk? {
            ghost var c := step.value.yielded.bytes;
            assert pending + rest == c + (scanner.pending + rest);
            BodyFeed(cfg, sink, left, c, scanner.pending + rest);
          } else {
            assert pending + rest == rest;
          }
          return step.value;
        }
        if asked {
          input := None;
        }
      }
      if input.Some? {
        if input.value == [] {
          return Complete(MissingTagged);
        }
        scanner.Extend(input.value);
      }
      r := Trailers(sink, rest);
    }
  }

  // ------------------------------------------------------------- client loop

  ghost function Rank(c: Coroutine): nat
    reads c
  {
    if c.state.SendCommand? then (if c.tagRequested then 2 else 3)
    else if c.state.Stream? && !c.streamPending then 1 else 0
  }

  ghost function Fed(c: Coroutine, arg: Option<seq<Octet>>): seq<Octet>
    reads c, c.scanner
  {
    c.scanner.pending + if arg.Some? then arg.value else []
  }

  /** What the loop knows at its head, with `whole` the reference's outcome. */
  ghost predicate Pumping(c: Coroutine, rest: seq<Octet>, whole: Outcome, sink: seq<Octet>, arg: Option<seq<Octet>>)
    reads c, c.scanner
  {
    c.Valid() && !c.state.SendCommand?
    && (c.state.HeaderState? ==> sink == [])
    && (c.state.Stream? ==> arg.None? || (c.streamPending && arg.value == []))
    && if arg == Some([]) then c.state.Stream? && rest == [] && whole == Outcome(sink, ShortBody, [])
       else whole == c.Ahead(sink, Fed(c, arg) + rest)
  }

  lemma Ends(c: Coroutine, buffered: seq<Octet>, sink: seq<Octet>)
    requires c.state.HeaderState? || c.state.TrailerState?
    requires FirstLine(buffered, MAX_LINE_LEN) == NeedMore && (c.state.HeaderState? ==> sink == [])
    ensures c.Ahead(sink, buffered) == Outcome(sink, Eof, buffered)
  {
  }

  /** One round: resume, then read, copy or finish. */
  method Pump(c: Coroutine, socket: Socket, arg: Option<seq<Octet>>, sink: seq<Octet>, ghost whole: Outcome)
    returns (arg': Option<seq<Octet>>, sink': seq<Octet>, verdict: Option<Verdict>)
    requires Pumping(c, socket.rest, whole, sink, arg)
    modifies c, c.scanner, socket
    ensures socket.written == old(socket.written)
    ensures match verdict
            case Some(v) => whole == Outcome(sink', v, c.scanner.pending + socket.rest)
            case None =>
              Pumping(c, socket.rest, whole, sink', arg')
              && (|socket.rest| < old(|socket.rest|)
                  || (socket.rest == old(socket.rest)
                      && (|Fed(c, arg')| < old(|Fed(c, arg)|)
                          || (|Fed(c, arg')| == old(|Fed(c, arg)|) && Rank(c) < old(Rank(c))))))
  {
    hide Header, Body, Trailer, FirstLine;
    ghost var unread := socket.rest;
    var step := c.Resume(arg, sink, socket.rest);
    arg', sink', verdict := None, sink, None;
    match step {
      case Yielded(WantsRead) =>
        var data := socket.Read(FetchBatch.READ_BUFFER_SIZE);
        if data == [] {
          assert c.scanner.pending + unread == c.scanner.pending && c.scanner.pending + socket.rest == c.scanner.pending;
          Ends(c, c.scanner.pending, sink);
          verdict := Some(Eof);
        } else {
          assert c.scanner.pending + unread == c.scanner.pending + data + socket.rest;
          arg' := Some(data);
        }
      case Yielded(BodyChunk(bytes)) =>
        sink' := sink + bytes;
        assert Fed(c, arg') == c.scanner.pending;
      case Yielded(WantsStream(len)) =>
        var short;
        sink', short := FetchClient.CopyBody(socket, sink, len);
        ghost var copied := sink'[|sink|..];
        assert sink' == sink + copied;
        BodyFeed(c.cfg, sink, len, copied, socket.rest);
        assert c.scanner.pending + [] + socket.rest == socket.rest;
        if short {
          BodyShort(c.cfg, sink', len - |copied|);
          arg' := Some([]);
        }
      case Complete(v) =>
        assert c.scanner.pending + socket.rest == c.scanner.pending + unread;
        verdict := Some(v);
    }
  }

  lemma BodyShort(cfg: Config, got: seq<Octet>, n: nat)
    requires n > 0
    ensures Body(cfg, got, n, []) == Outcome(got, ShortBody, [])
  {
    assert got + [] == got;
  }

  /** Fetches one body. However the reads are cut, the sink and the verdict are
      those of the reference parser on the server's octets, what it leaves is
      buffered or unread, and the command is written once. */
  method FetchBody(cfg: Config, socket: Socket, tag: seq<Octet>)
    returns (sink: seq<Octet>, verdict: Verdict, ghost buffered: seq<Octet>)
    requires cfg.isTag(tag)
    modifies socket
    ensures Header(cfg, old(socket.rest)) == Outcome(sink, verdict, buffered + socket.rest)
    ensures socket.written == old(socket.written) + cfg.command(tag)
  {
    hide Header, Body, Trailer;
    ghost var whole := Header(cfg, socket.rest);
    var c := new Coroutine(cfg);
    var arg: Option<seq<Octet>> := None;
    sink := [];
    while true
      invariant c.Valid() && fresh(c) && fresh(c.scanner) && c.cfg == cfg
      invariant if c.state.SendCommand?
                then sink == [] && socket.rest == old(socket.rest) && socket.written == old(socket.written)
                     && arg == if c.tagRequested then Some(tag) else None
                else Pumping(c, socket.rest, whole, sink, arg) && socket.written == old(socket.written) + cfg.command(tag)
      decreases |socket.rest|, if c.state.SendCommand? then 0 else |Fed(c, arg)|, Rank(c)
    {
      if c.state.SendCommand? {
        var step := c.Send(arg);
        match step {
          case Yielded(WantsTag) => arg := Some(tag);
          case Yielded(WantsWrite(bytes)) =>
            socket.WriteAll(bytes);
            arg := None;
            assert Fed(c, arg) + socket.rest == old(socket.rest);
        }
      } else {
        var end: Option<Verdict>;
        arg, sink, end := Pump(c, socket, arg, sink, whole);
        if end.Some? {
          return sink, end.value, c.scanner.pending;
        }
      }
    }
  }
}
