/** APPEND with the message streamed: the request line is encoded around an
    empty literal and the real octet count spliced in. */
module Append {
  import opened Octets
  import Send

  type Fragment = Send.Fragment

  const CRLF: seq<Octet> := [13, 10]

  /** `{n}` or `{n+}` and the end of the line that announces a literal. */
  function LiteralHeader(n: nat, nonSync: bool): seq<Octet> {
    [123] + Decimal(n) + (if nonSync then [43] else []) + [125] + CRLF
  }

  /** The announcement as text: with `+` when it does not wait to be invited. */
  lemma LiteralHeaderMeaning(n: nat)
    ensures LiteralHeader(n, false) == Ascii("{") + Decimal(n) + Ascii("}\r\n")
    ensures LiteralHeader(n, true) == Ascii("{") + Decimal(n) + Ascii("+}\r\n")
    ensures LiteralHeader(0, true) == Ascii("{0+}\r\n")
  {
    hide Decimal;
    assert Ascii("{") == [123] && Ascii("}\r\n") == [125, 13, 10] && Ascii("+}\r\n") == [43, 125, 13, 10];
    Zero();
    assert Ascii("{0+}\r\n") == [123, 48, 43, 125, 13, 10];
  }

  lemma Zero()
    ensures Decimal(0) == [48]
  {
  }

  /** The encoder on APPEND: what precedes the message (which may hold a mailbox
      literal), the line announcing it, the message, the closing line. */
  function EncodeAppend(before: seq<Fragment>, line: seq<Octet>, message: seq<Octet>, nonSync: bool): seq<Fragment> {
    before + [Send.Line(line + LiteralHeader(|message|, nonSync)), Send.Literal(message, !nonSync), Send.Line(CRLF)]
  }

  // ------------------------------------------------------------- the splice

  /** The position of the last literal, or `|fragments|`. */
  function LastLiteral(fragments: seq<Fragment>): (i: nat)
    ensures i <= |fragments|
    ensures i < |fragments| ==> fragments[i].Literal?
    ensures forall k :: (if i == |fragments| then 0 else i + 1) <= k < |fragments| ==> fragments[k].Line?
  {
    if fragments == [] then 0
    else if fragments[|fragments| - 1].Literal? then |fragments| - 1
    else
      var i := LastLiteral(fragments[..|fragments| - 1]);
      if i == |fragments| - 1 then |fragments| else i
  }

  /** The header written for a `len`-octet message, and the closing octets. */
  datatype Spliced = Spliced(header: seq<Octet>, closing: seq<Octet>)

  /** Reference: cut the empty literal's announcement off and put the real one. */
  function Splice(fragments: seq<Fragment>, len: nat, nonSync: bool): Spliced
    requires LastLiteral(fragments) < |fragments|
    requires |Send.Render(fragments[..LastLiteral(fragments)])| >= |LiteralHeader(0, true)|
  {
    var last := LastLiteral(fragments);
    var header := Send.Render(fragments[..last]);
    Spliced(header[..|header| - |LiteralHeader(0, true)|] + LiteralHeader(len, nonSync),
            Send.Render(fragments[last + 1..]))
  }

  lemma RenderAppend(a: seq<Fragment>, b: seq<Fragment>)
    ensures Send.Render(a + b) == Send.Render(a) + Send.Render(b)
  {
    if a == [] {
      assert a + b == b;
    } else {
      RenderAppend(a[1..], b);
      assert a + b == [a[0]] + (a[1..] + b);
      Associative(a[0].data, Send.Render(a[1..]), Send.Render(b));
    }
  }

  lemma RenderOne(f: Fragment)
    ensures Send.Render([f]) == f.data
  {
    assert [f][1..] == [];
  }

  lemma SplitAtLiteral(before: seq<Fragment>, a: Fragment, l: Fragment, c: Fragment)
    requires l.Literal? && c.Line?
    ensures var fs := before + [a, l, c];
            LastLiteral(fs) == |before| + 1 && fs[..|before| + 1] == before + [a] && fs[|before| + 2..] == [c]
  {
    var fs := before + [a, l, c];
    assert fs[..|fs| - 1] == before + [a, l];
  }

  lemma RenderThree(before: seq<Fragment>, a: Fragment, l: Fragment, c: Fragment)
    ensures Send.Render(before + [a]) == Send.Render(before) + a.data
    ensures Send.Render(before + [a, l, c]) == Send.Render(before) + a.data + l.data + c.data
  {
    hide Send.Render;
    RenderAppend(before, [a]);
    RenderAppend(before + [a], [l]);
    RenderAppend(before + [a] + [l], [c]);
    RenderOne(a);
    RenderOne(l);
    RenderOne(c);
    assert before + [a] + [l] + [c] == before + [a, l, c];
  }

  /** Where an APPEND of any message splits at its message literal. */
  lemma AppendParts(before: seq<Fragment>, line: seq<Octet>, message: seq<Octet>, nonSync: bool)
    ensures var fs := EncodeAppend(before, line, message, nonSync);
            LastLiteral(fs) == |before| + 1
            && Send.Render(fs[..|before| + 1]) == Send.Render(before) + line + LiteralHeader(|message|, nonSync)
            && Send.Render(fs[|before| + 2..]) == CRLF
            && Send.Render(fs) == Send.Render(before) + line + LiteralHeader(|message|, nonSync) + message + CRLF
  {
    hide Send.Render, LiteralHeader, LastLiteral;
    var header := LiteralHeader(|message|, nonSync);
    var a, l, c := Send.Line(line + header), Send.Literal(message, !nonSync), Send.Line(CRLF);
    SplitAtLiteral(before, a, l, c);
    RenderThree(before, a, l, c);
    RenderOne(c);
    Associative(Send.Render(before), line, header);
  }

  /** What the streamed form puts on the wire. */
  function StreamedOctets(before: seq<Fragment>, line: seq<Octet>, message: seq<Octet>, declared: nat, nonSync: bool): seq<Octet> {
    AppendParts(before, line, [], true);
    var spliced := Splice(EncodeAppend(before, line, [], true), declared, nonSync);
    spliced.header + message + spliced.closing
  }

  lemma StreamedParts(before: seq<Fragment>, line: seq<Octet>, message: seq<Octet>, declared: nat, nonSync: bool)
    ensures StreamedOctets(before, line, message, declared, nonSync)
         == Send.Render(before) + line + LiteralHeader(declared, nonSync) + message + CRLF
  {
    hide Send.Render;
    AppendParts(before, line, [], true);
    var head := Send.Render(before) + line;
    assert (head + LiteralHeader(0, true))[..|head|] == head;
  }

  /** Two announcements followed by anything agree only on the same count. */
  lemma HeaderInjective(m: nat, n: nat, nonSync: bool, s: seq<Octet>, t: seq<Octet>)
    requires LiteralHeader(m, nonSync) + s == LiteralHeader(n, nonSync) + t
    ensures m == n
  {
    CountAt(m, nonSync, s);
    CountAt(n, nonSync, t);
    DecimalInjective(m, n);
  }

  lemma CountAt(n: nat, nonSync: bool, s: seq<Octet>)
    ensures var x := LiteralHeader(n, nonSync) + s;
            |x| > 1 && x[1..SkipDigits(x, 1)] == Decimal(n)
  {
    var x, digits := LiteralHeader(n, nonSync) + s, Decimal(n);
    DecimalDigits(n);
    assert x[1..1 + |digits|] == digits;
    DigitsEnd(x, 1, 1 + |digits|);
  }

  /** The client declares the length truncated to 32 bits. The streamed octets
      are those of the buffered form exactly when nothing is cut off. */
  lemma SameOctets(before: seq<Fragment>, line: seq<Octet>, message: seq<Octet>, nonSync: bool)
    ensures StreamedOctets(before, line, message, |message| % U32_LIMIT, nonSync)
         == Send.Render(EncodeAppend(before, line, message, nonSync))
       <==> |message| < U32_LIMIT
  {
    hide Send.Render, LiteralHeader;
    var head := Send.Render(before) + line;
    var declared := |message| % U32_LIMIT;
    StreamedParts(before, line, message, declared, nonSync);
    AppendParts(before, line, message, nonSync);
    var x := LiteralHeader(declared, nonSync) + (message + CRLF);
    var y := LiteralHeader(|message|, nonSync) + (message + CRLF);
    assert StreamedOctets(before, line, message, declared, nonSync) == head + x;
    assert Send.Render(EncodeAppend(before, line, message, nonSync)) == head + y;
    if head + x == head + y {
      assert (head + x)[|head|..] == x && (head + y)[|head|..] == y;
      HeaderInjective(declared, |message|, nonSync, message + CRLF, message + CRLF);
    }
  }

  /** The buffered form, through the send primitive, writes the same. */
  lemma BufferedOctets(before: seq<Fragment>, line: seq<Octet>, message: seq<Octet>, nonSync: bool)
    ensures Concat(Send.Bursts([], EncodeAppend(before, line, message, nonSync)))
         == Send.Render(EncodeAppend(before, line, message, nonSync))
  {
    Send.BurstsRender([], EncodeAppend(before, line, message, nonSync));
  }
}
