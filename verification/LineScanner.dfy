/** The incremental line reader the streaming coroutines and STARTTLS share,
    and the byte stream they are fed from. */
module LineScanner {
  import opened Octets

  datatype Scan = Line(line: seq<Octet>) | NeedMore | TooLong

  /** Reference: the first line of `buf`, line feed included, when it fits. */
  function FirstLine(buf: seq<Octet>, cap: nat): Scan {
    var nl := IndexOf(buf, LF);
    if nl == |buf| then (if |buf| > cap then TooLong else NeedMore)
    else if nl >= cap then TooLong
    else Line(buf[..nl + 1])
  }

  /** A line, line feed included, of `cap` octets at most. */
  ghost predicate IsLine(line: seq<Octet>, cap: nat) {
    0 < |line| <= cap && line[|line| - 1] == 10 && 10 !in line[..|line| - 1]
  }

  /** No line yet, and still room for one. */
  ghost predicate Unended(buf: seq<Octet>, cap: nat) {
    10 !in buf && |buf| <= cap
  }

  /** No line within the first `cap` octets, and more than those. */
  ghost predicate Overlong(buf: seq<Octet>, cap: nat) {
    |buf| > cap && 10 !in buf[..cap]
  }

  lemma FirstLineMeaning(buf: seq<Octet>, cap: nat, line: seq<Octet>)
    ensures FirstLine(buf, cap) == Line(line) <==> line <= buf && IsLine(line, cap)
    ensures FirstLine(buf, cap) == NeedMore <==> Unended(buf, cap)
    ensures FirstLine(buf, cap) == TooLong <==> Overlong(buf, cap)
  {
    var nl := IndexOf(buf, LF);
    if line <= buf && IsLine(line, cap) {
      assert forall k :: 0 <= k < |line| - 1 ==> line[k] == line[..|line| - 1][k] == buf[k];
      IndexOfUnique(buf, LF, |line| - 1);
    }
    assert nl < |buf| ==> LF in buf && buf[..nl + 1][..nl] == buf[..nl];
    if Overlong(buf, cap) {
      assert forall k :: 0 <= k < cap ==> buf[k] == buf[..cap][k];
    }
  }

  lemma FirstLinePrefix(buf: seq<Octet>, cap: nat)
    requires FirstLine(buf, cap).Line?
    ensures var line := FirstLine(buf, cap).line;
            line != [] && line <= buf && buf == line + buf[|line|..]
  {
  }

  /** A verdict already reached stands whatever is read next, so lines and the
      over-cap error do not depend on how the stream was cut into reads. */
  lemma FirstLineStable(buf: seq<Octet>, more: seq<Octet>, cap: nat)
    requires !FirstLine(buf, cap).NeedMore?
    ensures FirstLine(buf + more, cap) == FirstLine(buf, cap)
  {
    var nl := IndexOf(buf, LF);
    if nl < |buf| {
      IndexOfAppend(buf, more, LF);
      assert (buf + more)[..nl + 1] == buf[..nl + 1];
    } else {
      forall k | 0 <= k < |buf| ensures (buf + more)[k] != LF {
        assert (buf + more)[k] == buf[k];
      }
    }
  }

  /** Searching on from where the search stopped is searching from the start. */
  lemma {:induction false} SearchOn(pending: seq<Octet>, scanned: nat)
    requires scanned <= |pending| && LF !in pending[..scanned]
    ensures IndexOf(pending, LF) == scanned + IndexOf(pending[scanned..], LF)
  {
    if scanned == 0 {
      assert pending[0..] == pending;
    } else {
      assert pending[..scanned] == [pending[0]] + pending[1..][..scanned - 1];
      SearchOn(pending[1..], scanned - 1);
      assert pending[1..][scanned - 1..] == pending[scanned..];
    }
  }

  class Scanner {
    const cap: nat
    var pending: seq<Octet>
    var scanned: nat
    /** Octets compared with the line feed, and octets handed out as lines, since the start. */
    ghost var searched: nat
    ghost var taken: nat

    ghost predicate Valid()
      reads this
    {
      scanned <= |pending| && LF !in pending[..scanned] && searched == taken + scanned
    }

    constructor (cap: nat)
      ensures Valid() && this.cap == cap && pending == [] && scanned == 0
    {
      this.cap := cap;
      pending, scanned, searched, taken := [], 0, 0, 0;
    }

    method Extend(bytes: seq<Octet>)
      requires Valid()
      modifies this
      ensures Valid() && pending == old(pending) + bytes && scanned == old(scanned)
    {
      pending := pending + bytes;
    }

    /** Drains `n` octets that are not a line. */
    method Drain(n: nat) returns (octets: seq<Octet>)
      requires Valid() && scanned == 0 && n <= |pending|
      modifies this
      ensures Valid() && scanned == 0
      ensures octets == old(pending)[..n] && pending == old(pending)[n..]
    {
      octets, pending := pending[..n], pending[n..];
    }

    /** Takes the first line off the buffer. The search resumes where it
        stopped, yet the answer is that of a search from the beginning, no
        octet has been searched twice, and at most `cap` stay buffered. */
    method NextLine() returns (r: Scan)
      requires Valid()
      modifies this
      ensures r == FirstLine(old(pending), cap)
      ensures r.Line? ==> old(pending) == r.line + pending && r.line != [] && scanned == 0
      ensures !r.Line? ==> pending == old(pending)
      ensures r.NeedMore? ==> scanned == |pending| <= cap
      ensures !r.TooLong? ==> Valid()
      ensures searched <= taken + |pending|
    {
      hide IndexOf;
      SearchOn(pending, scanned);
      var unscanned := pending[scanned..];
      var pos := IndexOf(unscanned, LF);
      searched := searched + if pos == |unscanned| then pos else pos + 1;

      if pos == |unscanned| {
        scanned := |pending|;
        if scanned > cap {
          return TooLong;
        }
        return NeedMore;
      }

      var nl := scanned + pos;
      scanned := 0;
      if nl >= cap {
        return TooLong;
      }
      r := Line(pending[..nl + 1]);
      pending := pending[nl + 1..];
      taken := taken + (nl + 1);
    }
  }

  /** A connection: what the server has yet to deliver, and what it was sent.
      Each read returns as much as the transport likes, and nothing at the end. */
  class Socket {
    var rest: seq<Octet>
    var written: seq<Octet>
    /** What each read returned. */
    ghost var log: seq<seq<Octet>>

    constructor (stream: seq<Octet>)
      ensures rest == stream && written == [] && log == []
    {
      rest, written, log := stream, [], [];
    }

    method Read(want: nat) returns (data: seq<Octet>)
      requires want > 0
      modifies this
      ensures old(rest) == data + rest && |data| <= want
      ensures data == [] <==> old(rest) == []
      ensures written == old(written) && log == old(log) + [data]
    {
      data := [];
      if rest != [] {
        var n: nat :| 1 <= n <= want && n <= |rest|;
        data, rest := rest[..n], rest[n..];
      }
      log := log + [data];
    }

    method WriteAll(bytes: seq<Octet>)
      modifies this
      ensures written == old(written) + bytes && rest == old(rest) && log == old(log)
    {
      written := written + bytes;
    }
  }
}
