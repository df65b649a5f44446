/** The batched FETCH: many bodies from one command, each streamed past the
    response parser, and the client loop pumping them into sinks. */
module FetchBatch {
  import opened Octets
  import opened LineScanner
  import UidToken

  const MAX_LINE_LEN: nat := 1024 * 1024
  const READ_BUFFER_SIZE: nat := 16 * 1024
  const BODY_COPY_BUFFER_SIZE: nat := 128 * 1024

  /** How a tagged status or a BYE ends the exchange. */
  datatype Completion = Ok | No(text: seq<Octet>) | Bad(text: seq<Octet>) | Bye(text: seq<Octet>)

  datatype Verdict =
    | Completed(completion: Completion)
    | MissingTag
    | InvalidTag
    | MissingTagged
    | Eof
    | ShortBody
    | UidMissing
    | LineTooLong
    | LiteralTooLong(uid: nat, len: nat, max: nat)

  /** The parser, reduced to what one complete line means to it, the command
      encoder, and the caller's options. */
  datatype Config = Config(
    announce: seq<Octet> -> Option<nat>,
    terminal: seq<Octet> -> Option<Completion>,
    isTag: seq<Octet> -> bool,
    command: seq<Octet> -> seq<Octet>,
    maxLiteralLen: nat,
    sizes: map<nat, nat>)
  {
    /** The largest body accepted for `uid`. */
    function Limit(uid: nat): nat {
      if uid in sizes && sizes[uid] < maxLiteralLen then sizes[uid] else maxLiteralLen
    }
  }

  // ------------------------------------------------------- reference parser

  datatype Item = LineItem(octets: seq<Octet>) | BodyItem(uid: nat, octets: seq<Octet>)

  datatype Message = Message(uid: nat, body: seq<Octet>)

  datatype Outcome = Outcome(items: seq<Item>, verdict: Verdict, leftover: seq<Octet>)
  {
    function After(before: seq<Item>): Outcome {
      this.(items := before + items)
    }
  }

  datatype Admission = Accepted(uid: nat) | Refused(verdict: Verdict)

  /** Whether the body a line announces may be streamed, and for which message. */
  function Admit(cfg: Config, line: seq<Octet>, len: nat): Admission {
    match UidToken.Uid(line)
    case None => Refused(UidMissing)
    case Some(uid) =>
      if len > cfg.Limit(uid) then Refused(LiteralTooLong(uid, len, cfg.Limit(uid))) else Accepted(uid)
  }

  /** A body is admitted when it is no longer than the caller's cap nor, where the
      caller declared one, than the size declared for its UID; a refusal carries
      the smaller bound. */
  lemma AdmitMeaning(cfg: Config, line: seq<Octet>, len: nat, uid: nat)
    ensures UidToken.Uid(line) == Some(uid) ==>
              (Admit(cfg, line, len) == Accepted(uid) <==>
               len <= cfg.maxLiteralLen && (uid in cfg.sizes ==> len <= cfg.sizes[uid]))
    ensures var a := Admit(cfg, line, len);
            UidToken.Uid(line) == Some(uid) && a.Refused? ==>
              a.verdict.LiteralTooLong? && a.verdict.uid == uid && a.verdict.len == len && a.verdict.max <= cfg.maxLiteralLen
              && (uid in cfg.sizes ==> a.verdict.max <= cfg.sizes[uid])
              && (a.verdict.max == cfg.maxLiteralLen || (uid in cfg.sizes && a.verdict.max == cfg.sizes[uid]))
    ensures UidToken.Uid(line).None? ==> Admit(cfg, line, len) == Refused(UidMissing)
  {
    hide UidToken.Uid;
  }

  /** Everything the server ever sends after the command, read in one piece. */
  function Parse(cfg: Config, s: seq<Octet>): Outcome
    decreases |s|, 0
  {
    match FirstLine(s, MAX_LINE_LEN)
    case NeedMore => Outcome([], Eof, s)
    case TooLong => Outcome([], LineTooLong, s)
    case Line(line) => ParseFrom(cfg, line, s[|line|..]).After([LineItem(line)])
  }

  function ParseFrom(cfg: Config, line: seq<Octet>, t: seq<Octet>): Outcome
    decreases |t|, 2
  {
    match cfg.announce(line)
    case Some(len) =>
      (match Admit(cfg, line, len)
       case Refused(v) => Outcome([], v, t)
       case Accepted(uid) => ParseBody(cfg, uid, [], len, t))
    case None =>
      match cfg.terminal(line)
      case Some(c) => Outcome([], Completed(c), t)
      case None => Parse(cfg, t)
  }

  /** A body of which `got` is in the sink and `n` octets are to come. */
  function ParseBody(cfg: Config, uid: nat, got: seq<Octet>, n: nat, t: seq<Octet>): Outcome
    decreases |t|, 1
  {
    if |t| < n then Outcome([], ShortBody, got + t)
    else Parse(cfg, t[n..]).After([BodyItem(uid, got + t[..n])])
  }

  function Flatten(items: seq<Item>): seq<Octet> {
    if items == [] then [] else items[0].octets + Flatten(items[1..])
  }

  /** The messages delivered, in order. */
  function Bodies(items: seq<Item>): seq<Message> {
    if items == [] then [] else Delivered(items[0]) + Bodies(items[1..])
  }

  function Delivered(item: Item): seq<Message> {
    if item.BodyItem? then [Message(item.uid, item.octets)] else []
  }

  lemma {:induction false} BodiesAppend(a: seq<Item>, b: seq<Item>)
    ensures Bodies(a + b) == Bodies(a) + Bodies(b)
  {
    hide Delivered;
    if a == [] {
      assert a + b == b;
    } else {
      BodiesAppend(a[1..], b);
      assert (a + b)[1..] == a[1..] + b;
      Associative(Delivered(a[0]), Bodies(a[1..]), Bodies(b));
    }
  }

  /** Lines and bodies partition what was consumed: nothing lost or read twice. */
  lemma {:induction false} ParsePartition(cfg: Config, s: seq<Octet>)
    ensures var o := Parse(cfg, s); Flatten(o.items) + o.leftover == s
    decreases |s|, 0
  {
    hide FirstLine;
    match FirstLine(s, MAX_LINE_LEN)
    case Line(line) =>
      FirstLinePrefix(s, MAX_LINE_LEN);
      var t := s[|line|..];
      ParseFromPartition(cfg, line, t);
      FlattenCons(LineItem(line), ParseFrom(cfg, line, t).items);
    case _ =>
  }

  lemma {:induction false} ParseFromPartition(cfg: Config, line: seq<Octet>, t: seq<Octet>)
    ensures var o := ParseFrom(cfg, line, t); Flatten(o.items) + o.leftover == t
    decreases |t|, 1
  {
    hide Parse, Admit;
    match cfg.announce(line)
    case Some(len) =>
      match Admit(cfg, line, len) {
        case Accepted(uid) =>
          if len <= |t| {
            ParsePartition(cfg, t[len..]);
            FlattenCons(BodyItem(uid, [] + t[..len]), Parse(cfg, t[len..]).items);
            assert t == t[..len] + t[len..];
          }
        case Refused(_) =>
      }
    case None =>
      if cfg.terminal(line).None? {
        ParsePartition(cfg, t);
      }
  }

  lemma FlattenCons(item: Item, items: seq<Item>)
    ensures Flatten([item] + items) == item.octets + Flatten(items)
  {
    assert ([item] + items)[1..] == items;
  }

  /** Every body delivered is exactly the octets announced by the line before
      it, under the UID of that line and within the limit of that UID. */
  ghost predicate Attributed(cfg: Config, items: seq<Item>, header: Option<seq<Octet>>) {
    items == [] ||
    match items[0]
    case LineItem(line) => Attributed(cfg, items[1..], Some(line))
    case BodyItem(uid, body) =>
      header.Some? && UidToken.Uid(header.value) == Some(uid)
      && cfg.announce(header.value) == Some(|body|) && |body| <= cfg.Limit(uid)
      && Attributed(cfg, items[1..], None)
  }

  lemma {:induction false} ParseAttributed(cfg: Config, s: seq<Octet>, header: Option<seq<Octet>>)
    ensures Attributed(cfg, Parse(cfg, s).items, header)
    decreases |s|, 0
  {
    hide FirstLine;
    match FirstLine(s, MAX_LINE_LEN)
    case Line(line) =>
      FirstLinePrefix(s, MAX_LINE_LEN);
      ParseFromAttributed(cfg, line, s[|line|..]);
      assert Parse(cfg, s).items[1..] == ParseFrom(cfg, line, s[|line|..]).items;
    case _ =>
  }

  lemma {:induction false} ParseFromAttributed(cfg: Config, line: seq<Octet>, t: seq<Octet>)
    ensures Attributed(cfg, ParseFrom(cfg, line, t).items, Some(line))
    decreases |t|, 1
  {
    hide Parse, Attributed, UidToken.Uid;
    AttributedNil(cfg, Some(line));
    match cfg.announce(line)
    case Some(len) =>
      match Admit(cfg, line, len) {
        case Accepted(uid) =>
          if len <= |t| {
            ParseAttributed(cfg, t[len..], None);
            AttributedBody(cfg, line, uid, [] + t[..len], Parse(cfg, t[len..]).items);
          }
        case Refused(_) =>
      }
    case None =>
      if cfg.terminal(line).None? {
        ParseAttributed(cfg, t, Some(line));
      }
  }

  /** The octets read, line by line: a line that announces a body is followed by
      that body under its UID, within both bounds, or refused, or cut short by the
      end of the stream; a status ends the exchange; any other line is skipped;
      and only the lack of a line, or one too long, ends it otherwise. */
  ghost predicate Explains(cfg: Config, items: seq<Item>, verdict: Verdict, leftover: seq<Octet>)
    decreases |items|
  {
    if items == [] then
      if verdict.Eof? then Unended(leftover, MAX_LINE_LEN) else verdict.LineTooLong? && Overlong(leftover, MAX_LINE_LEN)
    else
      items[0].LineItem? && IsLine(items[0].octets, MAX_LINE_LEN)
      && var line := items[0].octets;
         match (cfg.announce(line), cfg.terminal(line))
         case (Some(len), _) =>
           if |items| > 1 then
             items[1].BodyItem? && UidToken.Uid(line) == Some(items[1].uid) && |items[1].octets| == len
             && len <= cfg.maxLiteralLen && (items[1].uid in cfg.sizes ==> len <= cfg.sizes[items[1].uid])
             && Explains(cfg, items[2..], verdict, leftover)
           else
             (match UidToken.Uid(line)
              case None => verdict.UidMissing?
              case Some(uid) =>
                if len <= cfg.maxLiteralLen && (uid in cfg.sizes ==> len <= cfg.sizes[uid]) then
                  verdict.ShortBody? && |leftover| < len
                else verdict.LiteralTooLong? && verdict.uid == uid && verdict.len == len)
         case (None, Some(c)) => |items| == 1 && verdict == Completed(c)
         case (None, None) => Explains(cfg, items[1..], verdict, leftover)
  }

  lemma {:induction false} ParseExplains(cfg: Config, s: seq<Octet>)
    ensures var o := Parse(cfg, s); Explains(cfg, o.items, o.verdict, o.leftover)
    decreases |s|, 0
  {
    hide FirstLine, UidToken.Uid, IsLine, Unended, Overlong, Admit;
    match FirstLine(s, MAX_LINE_LEN)
    case Line(line) =>
      FirstLinePrefix(s, MAX_LINE_LEN);
      FirstLineMeaning(s, MAX_LINE_LEN, line);
      var t := s[|line|..];
      var o := ParseFrom(cfg, line, t);
      assert Parse(cfg, s) == o.After([LineItem(line)]);
      ExplainLine(cfg, line, t);
    case _ => FirstLineMeaning(s, MAX_LINE_LEN, []);
  }

  lemma {:induction false} ExplainLine(cfg: Config, line: seq<Octet>, t: seq<Octet>)
    requires IsLine(line, MAX_LINE_LEN)
    ensures var o := ParseFrom(cfg, line, t); Explains(cfg, [LineItem(line)] + o.items, o.verdict, o.leftover)
    decreases |t|, 1
  {
    hide UidToken.Uid, IsLine, Parse, ParseBody, Admit, Explains;
    match (cfg.announce(line), cfg.terminal(line))
    case (Some(len), _) =>
      if Admit(cfg, line, len).Accepted? {
        if len <= |t| {
          ParseExplains(cfg, t[len..]);
        }
        ExplainBody(cfg, line, len, t);
      } else {
        ExplainRefusal(cfg, line, len, t);
      }
    case (None, Some(c)) => ExplainStatus(cfg, line, c, t);
    case (None, None) =>
      ParseExplains(cfg, t);
      ExplainSkip(cfg, line, Parse(cfg, t));
  }

  lemma ExplainSkip(cfg: Config, line: seq<Octet>, o: Outcome)
    requires IsLine(line, MAX_LINE_LEN) && cfg.announce(line).None? && cfg.terminal(line).None?
    ensures Explains(cfg, o.items, o.verdict, o.leftover) ==>
              Explains(cfg, [LineItem(line)] + o.items, o.verdict, o.leftover)
  {
    hide UidToken.Uid, IsLine, Unended, Overlong;
    assert ([LineItem(line)] + o.items)[1..] == o.items;
  }

  lemma ExplainStatus(cfg: Config, line: seq<Octet>, c: Completion, t: seq<Octet>)
    requires IsLine(line, MAX_LINE_LEN) && cfg.announce(line).None? && cfg.terminal(line) == Some(c)
    ensures Explains(cfg, [LineItem(line)] + [], Completed(c), t)
  {
    hide UidToken.Uid, IsLine;
  }

  lemma ExplainRefusal(cfg: Config, line: seq<Octet>, len: nat, t: seq<Octet>)
    requires IsLine(line, MAX_LINE_LEN) && cfg.announce(line) == Some(len)
    ensures Admit(cfg, line, len).Refused? ==> Explains(cfg, [LineItem(line)] + [], Admit(cfg, line, len).verdict, t)
  {
    hide UidToken.Uid, IsLine, Unended, Overlong;
    if UidToken.Uid(line).Some? {
      AdmitMeaning(cfg, line, len, UidToken.Uid(line).value);
    }
  }

  lemma ExplainBody(cfg: Config, line: seq<Octet>, len: nat, t: seq<Octet>)
    requires IsLine(line, MAX_LINE_LEN) && cfg.announce(line) == Some(len) && Admit(cfg, line, len).Accepted?
    requires len <= |t| ==> var o := Parse(cfg, t[len..]); Explains(cfg, o.items, o.verdict, o.leftover)
    ensures var o := ParseBody(cfg, Admit(cfg, line, len).uid, [], len, t);
            Explains(cfg, [LineItem(line)] + o.items, o.verdict, o.leftover)
  {
    hide UidToken.Uid, IsLine, Unended, Overlong, Parse;
    AdmitMeaning(cfg, line, len, UidToken.Uid(line).value);
    var o := ParseBody(cfg, Admit(cfg, line, len).uid, [], len, t);
    if len <= |t| {
      assert ([LineItem(line)] + o.items)[2..] == Parse(cfg, t[len..]).items;
    }
  }

  /** The messages delivered are the bodies, in order, each under its UID. */
  lemma BodiesMeaning(items: seq<Item>, i: nat)
    requires i < |items|
    ensures Bodies(items) == Bodies(items[..i]) + Bodies([items[i]]) + Bodies(items[i + 1..])
    ensures Bodies([items[i]]) == match items[i] case BodyItem(uid, body) => [Message(uid, body)] case LineItem(_) => []
  {
    BodiesOne(items[i]);
    hide *;
    SplitAt(items, i);
    BodiesAppend(items[..i], [items[i]]);
    BodiesAppend(items[..i] + [items[i]], items[i + 1..]);
  }

  lemma BodiesOne(item: Item)
    ensures Bodies([item]) == match item case BodyItem(uid, body) => [Message(uid, body)] case LineItem(_) => []
  {
    assert [item][1..] == [];
  }

  lemma AttributedNil(cfg: Config, header: Option<seq<Octet>>)
    ensures Attributed(cfg, [], header)
  {
  }

  lemma AttributedBody(cfg: Config, line: seq<Octet>, uid: nat, body: seq<Octet>, items: seq<Item>)
    ensures Attributed(cfg, items, None) && cfg.announce(line) == Some(|body|) && Admit(cfg, line, |body|) == Accepted(uid) ==>
              Attributed(cfg, [BodyItem(uid, body)] + items, Some(line))
  {
    assert ([BodyItem(uid, body)] + items)[1..] == items;
  }

  lemma BodiesNil()
    ensures Bodies([]) == []
  {
  }

  lemma BodiesLine(items: seq<Item>, line: seq<Octet>)
    ensures Bodies(items + [LineItem(line)]) == Bodies(items)
  {
    BodiesAppend(items, [LineItem(line)]);
  }

  lemma AfterAfter(o: Outcome, a: seq<Item>, b: seq<Item>)
    ensures o.After(b).After(a) == o.After(a + b)
  {
    assert a + (b + o.items) == (a + b) + o.items;
  }

  lemma AfterNothing(o: Outcome)
    ensures o.After([]) == o
  {
  }

  /** A line complete in the buffer is the reference's next line. */
  lemma ParseLine(cfg: Config, buf: seq<Octet>, line: seq<Octet>, left: seq<Octet>, rest: seq<Octet>)
    requires FirstLine(buf, MAX_LINE_LEN) == Line(line) && buf == line + left
    ensures Parse(cfg, buf + rest) == ParseFrom(cfg, line, left + rest).After([LineItem(line)])
  {
    hide FirstLine;
    FirstLineStable(buf, rest, MAX_LINE_LEN);
    assert (buf + rest)[|line|..] == left + rest;
  }

  lemma ParseTooLong(cfg: Config, buf: seq<Octet>, rest: seq<Octet>)
    requires FirstLine(buf, MAX_LINE_LEN) == TooLong
    ensures Parse(cfg, buf + rest) == Outcome([], LineTooLong, buf + rest)
  {
    FirstLineStable(buf, rest, MAX_LINE_LEN);
  }

  // --------------------------------------------------------------- coroutine

  datatype Yield =
    | WantsTag
    | WantsRead
    | WantsWrite(bytes: seq<Octet>)
    | MessageStart(uid: nat)
    | BodyChunk(bytes: seq<Octet>)
    | WantsStream(len: nat)
    | MessageEnd

  datatype Step = Yielded(yielded: Yield) | Complete(verdict: Verdict)

  datatype State = SendCommand | NextItem | Stream

  /** The yields about bodies, as a caller routing octets to sinks sees them. */
  datatype Mark = Opened(uid: nat, announced: nat) | Chunk(len: nat) | Streamed(len: nat) | Closed

  datatype Phase = Between | Within(announced: nat, chunk: Option<nat>, streamed: Option<nat>) | Broken

  function Advance(cfg: Config, p: Phase, m: Mark): Phase {
    match (p, m)
    case (Between, Opened(uid, n)) => if n <= cfg.Limit(uid) then Within(n, None, None) else Broken
    case (Within(n, None, None), Chunk(c)) => Within(n, Some(c), None)
    case (Within(n, c, None), Streamed(k)) => Within(n, c, Some(k))
    case (Within(n, c, k), Closed) => if Count(c) + Count(k) == n then Between else Broken
    case _ => Broken
  }

  function Count(o: Option<nat>): nat {
    if o.Some? then o.value else 0
  }

  /** Per message: opened, at most one chunk, at most one stream, closed once
      the two add up to the announced length. Any other order is `Broken`. */
  function PhaseOf(cfg: Config, trace: seq<Mark>): Phase {
    if trace == [] then Between else Advance(cfg, PhaseOf(cfg, trace[..|trace| - 1]), trace[|trace| - 1])
  }

  /** The yields about one message. */
  datatype Group = Group(uid: nat, announced: nat, chunk: Option<nat>, streamed: Option<nat>)

  function OpenMarks(g: Group): seq<Mark> {
    [Opened(g.uid, g.announced)] + (if g.chunk.Some? then [Chunk(g.chunk.value)] else [])
    + if g.streamed.Some? then [Streamed(g.streamed.value)] else []
  }

  function AllMarks(groups: seq<Group>): seq<Mark> {
    if groups == [] then [] else AllMarks(groups[..|groups| - 1]) + OpenMarks(groups[|groups| - 1]) + [Closed]
  }

  ghost predicate Adds(cfg: Config, g: Group) {
    (if g.chunk.Some? then g.chunk.value else 0) + (if g.streamed.Some? then g.streamed.value else 0) == g.announced
    && g.announced <= cfg.maxLiteralLen && (g.uid in cfg.sizes ==> g.announced <= cfg.sizes[g.uid])
  }

  /** A trace that is not broken is whole messages one after the other, each with
      its lengths adding up, then at most the beginning of another. */
  lemma {:induction false} TraceMeaning(cfg: Config, trace: seq<Mark>) returns (groups: seq<Group>, open: seq<Group>)
    requires PhaseOf(cfg, trace) != Broken
    ensures forall g :: g in groups ==> Adds(cfg, g)
    ensures |open| <= 1 && trace == AllMarks(groups) + if open == [] then [] else OpenMarks(open[0])
    ensures match PhaseOf(cfg, trace)
            case Between => open == []
            case Within(n, chunk, streamed) =>
              |open| == 1 && open[0].announced == n && open[0].chunk == chunk && open[0].streamed == streamed
              && n <= cfg.maxLiteralLen && (open[0].uid in cfg.sizes ==> n <= cfg.sizes[open[0].uid])
            case Broken => false
  {
    hide Advance, Adds, OpenMarks;
    groups, open := [], [];
    if trace != [] {
      var init, m := trace[..|trace| - 1], trace[|trace| - 1];
      AdvanceMeaning(cfg, PhaseOf(cfg, init), m);
      groups, open := TraceMeaning(cfg, init);
      var done := AllMarks(groups);
      assert trace == init + [m];
      match m {
        case Opened(uid, n) =>
          open := [Group(uid, n, None, None)];
          MarksGrow(open[0], m);
        case Chunk(c) =>
          MarksGrow(open[0], m);
          Associative(done, OpenMarks(open[0]), [m]);
          open := [open[0].(chunk := Some(c))];
        case Streamed(k) =>
          MarksGrow(open[0], m);
          Associative(done, OpenMarks(open[0]), [m]);
          open := [open[0].(streamed := Some(k))];
        case Closed =>
          AddsUp(cfg, open[0]);
          var whole := groups + [open[0]];
          assert whole[..|whole| - 1] == groups;
          groups, open := whole, [];
      }
    }
  }

  lemma MarksGrow(g: Group, m: Mark)
    ensures m == Opened(g.uid, g.announced) && g.chunk == g.streamed == None ==> OpenMarks(g) == [m]
    ensures m.Chunk? && g.chunk == g.streamed == None ==> OpenMarks(g.(chunk := Some(m.len))) == OpenMarks(g) + [m]
    ensures m.Streamed? && g.streamed == None ==> OpenMarks(g.(streamed := Some(m.len))) == OpenMarks(g) + [m]
  {
  }

  lemma AddsUp(cfg: Config, g: Group)
    ensures Adds(cfg, g) <==>
            Count(g.chunk) + Count(g.streamed) == g.announced && g.announced <= cfg.maxLiteralLen
            && (g.uid in cfg.sizes ==> g.announced <= cfg.sizes[g.uid])
  {
  }

  lemma AdvanceMeaning(cfg: Config, p: Phase, m: Mark)
    ensures var q := Advance(cfg, p, m);
            q != Broken ==>
              match m
              case Opened(uid, n) =>
                p == Between && q == Within(n, None, None) && n <= cfg.maxLiteralLen && (uid in cfg.sizes ==> n <= cfg.sizes[uid])
              case Chunk(c) => p.Within? && p.chunk == p.streamed == None && q == p.(chunk := Some(c))
              case Streamed(k) => p.Within? && p.streamed == None && q == p.(streamed := Some(k))
              case Closed => p.Within? && q == Between && Count(p.chunk) + Count(p.streamed) == p.announced
  {
  }

  class Coroutine {
    const cfg: Config
    const scanner: Scanner
    var state: State
    var tagRequested: bool
    var remaining: nat
    var streamPending: bool
    ghost var trace: seq<Mark>

    ghost predicate Valid()
      reads this, scanner
    {
      scanner.Valid() && scanner.cap == MAX_LINE_LEN
      && (state.Stream? ==> scanner.scanned == 0)
      && (state.SendCommand? ==> scanner.pending == [])
      && (streamPending ==> state.Stream? && scanner.pending == [] && remaining > 0)
      && PhaseHolds()
    }

    /** The trace is never broken, and the fields say where in a message it is. */
    ghost predicate PhaseHolds()
      reads this, scanner
    {
      match PhaseOf(cfg, trace)
      case Between => !state.Stream?
      case Within(n, chunk, streamed) =>
        state.Stream?
        && (if streamed.None? then !streamPending && Count(chunk) + remaining == n
            else Count(chunk) + streamed.value == n && remaining == if streamPending then streamed.value else 0)
        && (chunk.Some? ==> remaining == 0 || scanner.pending == [])
      case Broken => false
    }

    constructor (cfg: Config)
      ensures Valid() && fresh(scanner)
      ensures this.cfg == cfg && state == SendCommand && !tagRequested && scanner.pending == [] && trace == []
    {
      this.cfg := cfg;
      scanner := new Scanner(MAX_LINE_LEN);
      state, tagRequested, remaining, streamPending, trace := SendCommand, false, 0, false, [];
    }

    ghost method Record(m: Mark)
      modifies this`trace
      ensures trace == old(trace) + [m]
      ensures PhaseOf(cfg, trace) == Advance(cfg, PhaseOf(cfg, old(trace)), m)
    {
      trace := trace + [m];
      assert trace[..|trace| - 1] == old(trace);
    }

    /** Takes the tag, asking for it once. */
    method Send(arg: Option<seq<Octet>>) returns (r: Step)
      requires Valid() && state.SendCommand?
      modifies this
      ensures scanner.pending == old(scanner.pending) && trace == old(trace)
      ensures match arg
              case Some(tag) =>
                if cfg.isTag(tag) then r == Yielded(WantsWrite(cfg.command(tag))) && state == NextItem
                else r == Complete(InvalidTag)
              case None =>
                if old(tagRequested) then r == Complete(MissingTag)
                else r == Yielded(WantsTag) && state == SendCommand && tagRequested
      ensures r.Yielded? ==> Valid()
    {
      match arg
      case Some(tag) =>
        if !cfg.isTag(tag) {
          return Complete(InvalidTag);
        }
        state := NextItem;
        return Yielded(WantsWrite(cfg.command(tag)));
      case None =>
        if tagRequested {
          return Complete(MissingTag);
        }
        tagRequested := true;
        return Yielded(WantsTag);
    }

    /** What the reference parser still has to say after `r`, on octets `t`. */
    ghost function Remainder(r: Step, t: seq<Octet>): Outcome
      reads this
    {
      match r
      case Complete(v) => Outcome([], v, t)
      case Yielded(MessageStart(uid)) => ParseBody(cfg, uid, [], remaining, t)
      case Yielded(_) => Parse(cfg, t)
    }

    /** What one complete line leads to, `None` when it is skipped. */
    method TakeLine(line: seq<Octet>, ghost t: seq<Octet>) returns (r: Option<Step>)
      requires Valid() && state.NextItem? && scanner.scanned == 0
      modifies this
      ensures ParseFrom(cfg, line, t) == if r.None? then Parse(cfg, t) else Remainder(r.value, t)
      ensures match r
              case None => Valid() && unchanged(this)
              case Some(Yielded(MessageStart(_))) => Valid() && state == Stream && !streamPending
              case Some(Complete(v)) => !v.Eof? && !v.ShortBody?
              case _ => false
    {
      hide Parse, ParseBody, PhaseOf, UidToken.Uid;
      match cfg.announce(line)
      case Some(len) =>
        var uid := UidToken.ParseUid(line);
        if uid.None? {
          return Some(Complete(UidMissing));
        }
        var max := cfg.Limit(uid.value);
        if len > max {
          return Some(Complete(LiteralTooLong(uid.value, len, max)));
        }
        remaining := len;
        state := Stream;
        Record(Opened(uid.value, len));
        return Some(Yielded(MessageStart(uid.value)));
      case None =>
        var completion := cfg.terminal(line);
        return if completion.Some? then Some(Complete(Completed(completion.value))) else None;
    }

    /** Between messages: whatever octets `rest` the server has yet to deliver,
        the lines taken here and then the rest are what the reference reads. */
    method Next(arg: Option<seq<Octet>>, ghost rest: seq<Octet>) returns (r: Step, ghost taken: seq<Item>)
      requires Valid() && state.NextItem?
      modifies this, scanner
      ensures arg == Some([]) ==> r == Complete(MissingTagged)
      ensures arg != Some([]) ==>
                var buffered := old(scanner.pending) + if arg.Some? then arg.value else [];
                Parse(cfg, buffered + rest) == Remainder(r, scanner.pending + rest).After(taken)
                && |scanner.pending| <= |buffered|
                && (r.Yielded? && r.yielded.MessageStart? ==> |scanner.pending| < |buffered|)
      ensures Bodies(taken) == []
      ensures r.Yielded? ==> Valid() && !streamPending
      ensures match r
              case Yielded(MessageStart(_)) => state == Stream
              case Yielded(WantsRead) => state == NextItem && FirstLine(scanner.pending, MAX_LINE_LEN) == NeedMore
              case Yielded(_) => false
              case Complete(v) => !v.Eof? && !v.ShortBody?
    {
      hide Parse, ParseFrom, ParseBody, FirstLine, Bodies, PhaseOf;
      taken := [];
      BodiesNil();
      if arg.Some? {
        if arg.value == [] {
          return Complete(MissingTagged), [];
        }
        scanner.Extend(arg.value);
      }
      assert scanner.pending == old(scanner.pending) + if arg.Some? then arg.value else [];
      ghost var s := scanner.pending + rest;
      AfterNothing(Parse(cfg, s));

      while true
        invariant Valid() && state.NextItem? && trace == old(trace)
        invariant Parse(cfg, s) == Parse(cfg, scanner.pending + rest).After(taken)
        invariant Bodies(taken) == []
        invariant |scanner.pending| + |rest| <= |s|
        decreases |scanner.pending|
      {
        ghost var before := scanner.pending;
        var scan := scanner.NextLine();
        match scan
        case NeedMore => return Yielded(WantsRead), taken;
        case TooLong =>
          ParseTooLong(cfg, before, rest);
          return Complete(LineTooLong), taken;
        case Line(line) =>
          ParseLine(cfg, before, line, scanner.pending, rest);
          BodiesLine(taken, line);
          AfterAfter(ParseFrom(cfg, line, scanner.pending + rest), taken, [LineItem(line)]);
          taken := taken + [LineItem(line)];
          var step := TakeLine(line, scanner.pending + rest);
          if step.Some? {
            return step.value, taken;
          }
      }
    }

    /** Within a message: octets already buffered first, then the socket, then the end. */
    method Body(arg: Option<seq<Octet>>) returns (r: Step)
      requires Valid() && state.Stream?
      modifies this, scanner
      ensures match r
              case Yielded(BodyChunk(c)) =>
                Valid() && state == Stream && !old(streamPending) && !streamPending
                && c != [] && old(scanner.pending) == c + scanner.pending && old(remaining) == |c| + remaining
              case Yielded(WantsStream(len)) =>
                Valid() && state == Stream && !old(streamPending) && streamPending
                && len == remaining == old(remaining) > 0 && scanner.pending == old(scanner.pending) == []
              case Yielded(MessageEnd) =>
                Valid() && state == NextItem && scanner.pending == old(scanner.pending)
                && (old(remaining) == 0 || (old(streamPending) && arg != Some([])))
              case Complete(v) => v == ShortBody && old(streamPending) && arg == Some([])
              case _ => false
    {
      hide PhaseOf;
      while true
        invariant Valid() && state.Stream? && scanner.pending == old(scanner.pending)
        invariant (remaining == old(remaining) && streamPending == old(streamPending))
               || (remaining == 0 && !streamPending && old(streamPending) && arg != Some([]))
        decreases remaining
      {
        if remaining == 0 {
          state := NextItem;
          Record(Closed);
          return Yielded(MessageEnd);
        }
        if scanner.pending != [] {
          var take := if remaining < |scanner.pending| then remaining else |scanner.pending|;
          var chunk := scanner.Drain(take);
          remaining := remaining - take;
          Record(Chunk(take));
          return Yielded(BodyChunk(chunk));
        }
        if streamPending {
          streamPending := false;
          if arg == Some([]) {
            return Complete(ShortBody);
          }
          remaining := 0;
          continue;
        }
        streamPending := true;
        Record(Streamed(remaining));
        return Yielded(WantsStream(remaining));
      }
    }
  }
}
