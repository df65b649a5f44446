/** The raw passthrough: pipelined commands sent as given, answered in any order. */
module Raw {
  import opened Octets
  import opened Parser

  type Tag = seq<Octet>

  /** A complete message: its octets and the tag it carries, if it carries one. */
  datatype Message = Message(bytes: seq<Octet>, tag: Option<Tag>)

  /** One step of the parser: part of a message, or its end. */
  datatype Progress = Part | Complete(message: Message)

  /** What the parser makes of the commands: its steps, and what is left of an
      unterminated one. */
  datatype Probed = Probed(steps: seq<Progress>, leftover: seq<Octet>)

  datatype Error = NoCommand | MissingTag | DuplicateTag(tag: Tag) | IncompleteCommand | Eof

  datatype Step = Done(response: seq<Octet>) | WantsRead | WantsWrite(bytes: seq<Octet>) | Err(error: Error)

  datatype Arg = Nothing | Bytes(bytes: seq<Octet>, completes: seq<Progress>)

  // ------------------------------------------------------------ what is meant

  function Messages(steps: seq<Progress>): seq<Message> {
    if steps == [] then []
    else (if steps[0].Complete? then [steps[0].message] else []) + Messages(steps[1..])
  }

  /** The messages are those the steps complete, in order. */
  lemma {:induction false} MessagesMeaning(a: seq<Progress>, b: seq<Progress>, m: Message)
    ensures Messages(a + b) == Messages(a) + Messages(b)
    ensures Messages([Complete(m)]) == [m] && Messages([Part]) == []
  {
    assert [Complete(m)][1..] == [] && [Part][1..] == [];
    if a == [] {
      assert a + b == b;
    } else {
      MessagesMeaning(a[1..], b, m);
      assert (a + b)[1..] == a[1..] + b;
      Associative(if a[0].Complete? then [a[0].message] else [], Messages(a[1..]), Messages(b));
    }
  }

  ghost function TagsOf(messages: seq<Message>): set<Tag> {
    set i | 0 <= i < |messages| && messages[i].tag.Some? :: messages[i].tag.value
  }

  lemma TagsOfAppend(a: seq<Message>, b: seq<Message>)
    ensures TagsOf(a + b) == TagsOf(a) + TagsOf(b)
  {
    forall t ensures t in TagsOf(a + b) <==> t in TagsOf(a) + TagsOf(b) {
      if t in TagsOf(b) {
        var i :| 0 <= i < |b| && b[i].tag.Some? && b[i].tag.value == t;
        assert (a + b)[|a| + i] == b[i];
      }
      if t in TagsOf(a) {
        var i :| 0 <= i < |a| && a[i].tag.Some? && a[i].tag.value == t;
        assert (a + b)[i] == a[i];
      }
    }
  }

  lemma TagsOfOne(m: Message)
    ensures TagsOf([m]) == if m.tag.Some? then {m.tag.value} else {}
  {
    if m.tag.Some? {
      assert [m][0].tag.value in TagsOf([m]);
    }
  }

  function Text(messages: seq<Message>): seq<Octet> {
    if messages == [] then [] else messages[0].bytes + Text(messages[1..])
  }

  /** What is captured is the octets of the messages, end to end. */
  lemma {:induction false} TextMeaning(messages: seq<Message>, octets: seq<seq<Octet>>)
    requires |octets| == |messages| && forall i :: 0 <= i < |messages| ==> octets[i] == messages[i].bytes
    ensures Text(messages) == Concat(octets)
  {
    if messages != [] {
      TextMeaning(messages[1..], octets[1..]);
    }
  }

  lemma {:induction false} TextAppend(a: seq<Message>, b: seq<Message>)
    ensures Text(a + b) == Text(a) + Text(b)
  {
    if a == [] {
      assert a + b == b;
    } else {
      TextAppend(a[1..], b);
      assert (a + b)[1..] == a[1..] + b;
      Associative(a[0].bytes, Text(a[1..]), Text(b));
    }
  }

  /** The command at `i` cannot be awaited: no tag, or the tag of an earlier one. */
  ghost predicate BadAt(commands: seq<Message>, i: nat)
    requires i < |commands|
  {
    commands[i].tag.None? || commands[i].tag.value in TagsOf(commands[..i])
  }

  function Fault(command: Message): Error {
    if command.tag.None? then MissingTag else DuplicateTag(command.tag.value)
  }

  /** The first `n` commands can be awaited. */
  ghost predicate Sound(commands: seq<Message>, n: nat)
    requires n <= |commands|
  {
    forall k :: 0 <= k < n ==> !BadAt(commands, k)
  }

  /** Every command tagged, no tag used twice, the last one terminated. */
  ghost predicate Acceptable(probed: Probed) {
    var commands := Messages(probed.steps);
    Sound(commands, |commands|) && commands != [] && probed.leftover == []
  }

  /** Why a batch is refused: its first bad command, else its end. */
  ghost predicate RefusedFor(probed: Probed, e: Error) {
    var commands := Messages(probed.steps);
    if Sound(commands, |commands|) then
      if probed.leftover != [] then e == IncompleteCommand else commands == [] && e == NoCommand
    else
      exists i :: 0 <= i < |commands| && Sound(commands, i) && BadAt(commands, i) && e == Fault(commands[i])
  }

  lemma SoundNext(commands: seq<Message>, i: nat)
    requires i < |commands| && Sound(commands, i) && !BadAt(commands, i)
    ensures Sound(commands, i + 1)
    ensures TagsOf(commands[..i + 1]) == TagsOf(commands[..i]) + {commands[i].tag.value}
  {
    assert commands[..i + 1] == commands[..i] + [commands[i]];
    TagsOfAppend(commands[..i], [commands[i]]);
    TagsOfOne(commands[i]);
  }

  /** The tags of a batch, up to its first bad command, the `i`th. */
  method CollectTags(steps: seq<Progress>) returns (pending: set<Tag>, e: Option<Error>, ghost i: nat)
    ensures var commands := Messages(steps);
            match e
            case None => Sound(commands, |commands|) && pending == TagsOf(commands) && |pending| == |commands|
            case Some(error) => i < |commands| && Sound(commands, i) && BadAt(commands, i) && error == Fault(commands[i])
    ensures e.Some? <==> !Sound(Messages(steps), |Messages(steps)|)
  {
    hide TagsOf, BadAt, Messages;
    ghost var commands := Messages(steps);
    var left := steps;
    i, pending := 0, {};
    assert commands[0..] == commands && commands[..0] == [];
    TagsOfNone();
    while left != []
      invariant i <= |commands| && commands[i..] == Messages(left) && Sound(commands, i)
      invariant pending == TagsOf(commands[..i]) && |pending| == i
      decreases |left|
    {
      var step := left[0];
      MessagesFirst(left);
      left := left[1..];
      if step.Complete? {
        assert commands[i] == commands[i..][0] && commands[i + 1..] == commands[i..][1..];
        BadMeans(commands, i);
        if step.message.tag.None? {
          return pending, Some(MissingTag), i;
        }
        var tag := step.message.tag.value;
        if tag in pending {
          return pending, Some(DuplicateTag(tag)), i;
        }
        SoundNext(commands, i);
        pending := pending + {tag};
        i := i + 1;
      }
    }
    MessagesNone();
    assert commands[..i] == commands;
    e := None;
  }

  lemma MessagesFirst(steps: seq<Progress>)
    requires steps != []
    ensures Messages(steps) == (if steps[0].Complete? then [steps[0].message] else []) + Messages(steps[1..])
  {
  }

  lemma MessagesNone()
    ensures Messages([]) == []
  {
  }

  lemma TagsOfNone()
    ensures TagsOf([]) == {}
  {
  }

  lemma BadMeans(commands: seq<Message>, i: nat)
    requires i < |commands|
    ensures BadAt(commands, i) <==> commands[i].tag.None? || commands[i].tag.value in TagsOf(commands[..i])
  {
  }

  // ----------------------------------------------------------------- the run

  datatype State = Write | Read | Deserialize

  class ImapRaw {
    var command: seq<Octet>
    var pending: set<Tag>
    var state: State
    var wantsRead: bool
    var wantsWrite: Option<seq<Octet>>
    var response: seq<Octet>
    /** The tags of the commands, and the messages completed so far. */
    ghost var awaited: set<Tag>
    ghost var completed: seq<Message>

    /** What is still awaited is what was sent less what was completed, in
        whatever order; what is captured is every message in full. */
    ghost predicate Tracks()
      reads this`pending, this`response, this`awaited, this`completed
    {
      pending == awaited - TagsOf(completed) && response == Text(completed)
    }

    ghost predicate Valid()
      reads this
    {
      Tracks() && !wantsRead && wantsWrite.None?
    }

    constructor (command: seq<Octet>, pending: set<Tag>)
      ensures Valid() && state == Write && completed == [] && awaited == pending && this.command == command
    {
      this.command, this.pending, state, wantsRead, wantsWrite, response := command, pending, Write, false, None, [];
      awaited, completed := pending, [];
    }

    /** A batch, or why it is refused before anything is sent. */
    static method New(command: seq<Octet>, probe: seq<Octet> -> Probed) returns (raw: ImapRaw?, e: Option<Error>)
      ensures e.None? <==> Acceptable(probe(command))
      ensures e.Some? ==> raw == null && RefusedFor(probe(command), e.value)
      ensures e.None? ==>
                raw != null && fresh(raw) && raw.Valid() && raw.state == Write && raw.command == command && raw.completed == []
                && raw.awaited == TagsOf(Messages(probe(command).steps)) && |raw.awaited| == |Messages(probe(command).steps)|
    {
      hide BadAt, TagsOf;
      var probed := probe(command);
      var pending, fault, i := CollectTags(probed.steps);
      if fault.Some? {
        return null, fault;
      }
      if probed.leftover != [] {
        return null, Some(IncompleteCommand);
      }
      if pending == {} {
        return null, Some(NoCommand);
      }
      raw := new ImapRaw(command, pending);
      e := None;
    }

    /** A complete message: captured, and the command it completes, if any,
        is no longer awaited. */
    method Capture(m: Message)
      requires Tracks()
      modifies this`response, this`pending, this`completed
      ensures Tracks() && completed == old(completed) + [m]
    {
      TextAppend(completed, [m]);
      TagsOfAppend(completed, [m]);
      TagsOfOne(m);
      response := response + m.bytes;
      if m.tag.Some? {
        pending := pending - {m.tag.value};
      }
      completed := completed + [m];
    }

    lemma NoneAwaited()
      requires Tracks()
      ensures pending == {} <==> awaited <= TagsOf(completed)
    {
      if pending == {} {
        forall t | t in awaited ensures t in TagsOf(completed) {
          assert t !in pending;
        }
      }
    }

    /** One step of the parser; when there is none left, the exchange is over or
        goes on reading. */
    method DeserializeArm(frag: Fragmentizer<Progress>) returns (r: Option<Step>)
      requires Tracks() && state.Deserialize?
      modifies this`response, this`pending, this`completed, this`state, frag
      ensures Tracks()
      ensures completed + Messages(frag.queue) == old(completed) + Messages(old(frag.queue))
      ensures old(frag.queue) != [] ==> r == None && state.Deserialize? && |frag.queue| < |old(frag.queue)|
      ensures old(frag.queue) == [] ==>
                frag.queue == [] && completed == old(completed)
                && if awaited <= TagsOf(completed) then r == Some(Done(Text(completed))) else r == None && state.Read?
    {
      hide TagsOf, Text;
      NoneAwaited();
      var progress := frag.Advance();
      match progress
      case Some(Complete(m)) =>
        Associative(completed, [m], Messages(frag.queue));
        Capture(m);
        return None;
      case Some(Part) => return None;
      case None =>
        if pending == {} {
          return Some(Done(response));
        }
        state := Read;
        return None;
    }

    /** One resume: the commands as given, then reads, each drained; it is over
        when a drained read leaves nothing awaited. */
    method Resume(frag: Fragmentizer<Progress>, arg: Arg) returns (r: Step)
      requires Valid() && !state.Deserialize?
      modifies this, frag
      ensures Valid() && awaited == old(awaited)
      ensures r.WantsRead? || r.WantsWrite? ==> state == Read
      ensures old(state).Write? ==> r == WantsWrite(old(command)) && completed == old(completed) && frag.queue == old(frag.queue)
      ensures old(state).Read? ==>
                match arg
                case Nothing => r == WantsRead && completed == old(completed) && frag.queue == old(frag.queue)
                case Bytes(bytes, completes) =>
                  if bytes == [] then r == Err(Eof) && completed == old(completed)
                  else
                    completed == old(completed) + Messages(old(frag.queue) + completes) && frag.queue == []
                    && r == if awaited <= TagsOf(completed) then Done(Text(completed)) else WantsRead
    {
      hide TagsOf, Text, Messages;
      var input := arg;
      ghost var fed := false;
      ghost var steps := frag.queue + if arg.Bytes? then arg.completes else [];
      assert completed + Messages(frag.queue) == old(completed) + Messages(frag.queue);
      MessagesNone();
      while true
        invariant Tracks() && awaited == old(awaited)
        invariant old(state).Write? ==>
                    (state.Write? && wantsWrite.None? && command == old(command)) || (state.Read? && wantsWrite == Some(old(command)))
        invariant old(state).Write? ==> !wantsRead && completed == old(completed) && frag.queue == old(frag.queue)
        invariant old(state).Read? ==> wantsWrite.None? && !state.Write? && (wantsRead ==> state.Read?)
        invariant old(state).Read? && !fed ==>
                    state.Read? && input == arg && (wantsRead ==> arg.Nothing?)
                    && completed == old(completed) && frag.queue == old(frag.queue)
        invariant old(state).Read? && fed ==>
                    input.Nothing? && arg.Bytes? && arg.bytes != []
                    && completed + Messages(frag.queue) == old(completed) + Messages(steps)
                    && (state.Read? ==> frag.queue == [] && !(awaited <= TagsOf(completed)))
        decreases if wantsWrite.Some? || wantsRead then 0
                  else if state.Deserialize? then 2 else if state.Read? && input.Bytes? then 3 else 1, |frag.queue|
      {
        if wantsWrite.Some? {
          var bytes := wantsWrite.value;
          wantsWrite := None;
          return WantsWrite(bytes);
        }
        if wantsRead {
          wantsRead := false;
          return WantsRead;
        }
        match state {
          case Write =>
            wantsWrite := Some(command);
            command := [];
            state := Read;
          case Read =>
            if input.Nothing? {
              wantsRead := true;
            } else if input.bytes == [] {
              return Err(Eof);
            } else {
              frag.Enqueue(input.completes);
              input, fed, state := Nothing, true, Deserialize;
            }
          case Deserialize =>
            var output := DeserializeArm(frag);
            if output.Some? {
              return output.value;
            }
        }
      }
    }
  }

  // ---------------------------------------------------------------- whole runs

  /** What one read delivers. */
  datatype Chunk = Chunk(bytes: seq<Octet>, completes: seq<Progress>)

  datatype Outcome = Over(messages: seq<Message>) | Waiting(messages: seq<Message>) | CutOff(messages: seq<Message>)

  /** Reference: read until every tag was completed. */
  ghost function OutcomeOf(tags: set<Tag>, messages: seq<Message>, chunks: seq<Chunk>): Outcome
    decreases |chunks|
  {
    if chunks == [] then Waiting(messages)
    else if chunks[0].bytes == [] then CutOff(messages)
    else
      var next := messages + Messages(chunks[0].completes);
      if tags <= TagsOf(next) then Over(next) else OutcomeOf(tags, next, chunks[1..])
  }

  function Answered(chunks: seq<Chunk>): seq<Message> {
    if chunks == [] then [] else Messages(chunks[0].completes) + Answered(chunks[1..])
  }

  ghost predicate Open(chunks: seq<Chunk>) {
    forall i :: 0 <= i < |chunks| ==> chunks[i].bytes != []
  }

  /** The caller's loop: the commands in one write, then read after read. */
  method Exchange(raw: ImapRaw, frag: Fragmentizer<Progress>, chunks: seq<Chunk>) returns (r: Step, sent: seq<Octet>)
    requires raw.Valid() && raw.state.Write? && raw.completed == [] && frag.queue == []
    modifies raw, frag
    ensures sent == old(raw.command)
    ensures raw.pending == old(raw.awaited) - TagsOf(raw.completed)
    ensures var o := OutcomeOf(old(raw.awaited), [], chunks);
            raw.completed == o.messages
            && r == match o
                    case Over(messages) => Done(Text(messages))
                    case Waiting(_) => WantsRead
                    case CutOff(_) => Err(Eof)
  {
    hide TagsOf, Text, Messages;
    var step := raw.Resume(frag, Nothing);
    sent := step.bytes;
    r := raw.Resume(frag, Nothing);
    var i := 0;
    assert chunks[0..] == chunks;
    while i < |chunks|
      invariant i <= |chunks| && raw.Valid() && raw.state == Read && r == WantsRead && frag.queue == []
      invariant raw.awaited == old(raw.awaited)
      invariant OutcomeOf(raw.awaited, raw.completed, chunks[i..]) == OutcomeOf(raw.awaited, [], chunks)
    {
      assert [] + chunks[i].completes == chunks[i].completes;
      assert chunks[i..][1..] == chunks[i + 1..];
      r := raw.Resume(frag, Bytes(chunks[i].bytes, chunks[i].completes));
      i := i + 1;
      if !r.WantsRead? {
        return;
      }
    }
  }

  /** A run ends exactly when every tag is completed somewhere in the answer, and
      captures the answer up to the end of a read. */
  lemma {:induction false} OverWhenAnswered(tags: set<Tag>, messages: seq<Message>, chunks: seq<Chunk>)
    requires Open(chunks) && !(tags <= TagsOf(messages))
    ensures var o := OutcomeOf(tags, messages, chunks);
            o.messages <= messages + Answered(chunks)
            && (o.Over? <==> tags <= TagsOf(messages + Answered(chunks)))
            && (o.Over? ==> tags <= TagsOf(o.messages))
            && (!o.Over? ==> o == Waiting(messages + Answered(chunks)))
    decreases |chunks|
  {
    hide TagsOf, Messages;
    if chunks == [] {
      assert messages + [] == messages;
    } else {
      var next := messages + Messages(chunks[0].completes);
      Associative(messages, Messages(chunks[0].completes), Answered(chunks[1..]));
      if tags <= TagsOf(next) {
        TagsOfAppend(next, Answered(chunks[1..]));
      } else {
        OverWhenAnswered(tags, next, chunks[1..]);
      }
    }
  }

  lemma PrefixesCompare<T>(a: seq<T>, b: seq<T>, whole: seq<T>)
    requires a <= whole && b <= whole
    ensures a <= b || b <= a
  {
    assert a == whole[..|a|] && b == whole[..|b|];
  }

  /** Wherever the same answer is cut into reads, both runs end or neither does,
      and one captures a beginning of what the other captures. */
  lemma CutsAgree(tags: set<Tag>, chunks: seq<Chunk>, chunks': seq<Chunk>)
    requires tags != {} && Open(chunks) && Open(chunks') && Answered(chunks) == Answered(chunks')
    ensures var o, o' := OutcomeOf(tags, [], chunks), OutcomeOf(tags, [], chunks');
            (o.Over? <==> o'.Over?) && (o.messages <= o'.messages || o'.messages <= o.messages)
            && (o.Over? ==> tags <= TagsOf(o.messages) && tags <= TagsOf(o'.messages))
  {
    assert TagsOf([]) == {};
    OverWhenAnswered(tags, [], chunks);
    OverWhenAnswered(tags, [], chunks');
    PrefixesCompare(OutcomeOf(tags, [], chunks).messages, OutcomeOf(tags, [], chunks').messages, [] + Answered(chunks));
  }
}
