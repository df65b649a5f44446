/** Modified UTF-7 mailbox names (section 5.1.3 of RFC 3501). */
module MailboxName {
  import opened Octets
  import Base64
  import Utf16

  type Decoder = (string, bool) -> seq<Octet>

  predicate Printable(c: char) {
    0x20 <= c as int <= 0x7E
  }

  /** The 95 printable characters of ASCII, in four rows. */
  lemma PrintableMeaning(c: char)
    ensures Printable(c) <==>
            c in " !\"#$%&'()*+,-./0123456789" || c in ":;<=>?@ABCDEFGHIJKLMNOPQ" || c in "RSTUVWXYZ[\\]^_`abcdefghi"
            || c in "jklmnopqrstuvwxyz{|}~"
  {
  }

  ghost predicate AllPrintable(s: string) {
    forall i :: 0 <= i < |s| ==> Printable(s[i])
  }

  ghost predicate NonePrintable(s: string) {
    forall i :: 0 <= i < |s| ==> !Printable(s[i])
  }

  function Replace(s: string, from: char, to: char): (r: string)
    ensures |r| == |s|
    ensures forall i :: 0 <= i < |s| ==> r[i] == if s[i] == from then to else s[i]
  {
    seq(|s|, i requires 0 <= i < |s| => if s[i] == from then to else s[i])
  }

  // ---------------------------------------------------------------- encoding

  /** The length of the leading run of characters a shift must carry. */
  function RunLength(s: string): (n: nat)
    ensures n <= |s|
    ensures NonePrintable(s[..n])
    ensures n < |s| ==> Printable(s[n])
  {
    if s == "" || Printable(s[0]) then 0 else 1 + RunLength(s[1..])
  }

  lemma {:induction false} RunLengthUnique(s: string, n: nat)
    requires n <= |s| && NonePrintable(s[..n]) && (n < |s| ==> Printable(s[n]))
    ensures RunLength(s) == n
  {
    if n > 0 {
      assert s[..n][0] == s[0];
      assert s[1..][..n - 1] == s[..n][1..];
      RunLengthUnique(s[1..], n - 1);
    }
  }

  function Payload(bytes: seq<Octet>): string {
    Replace(Base64.Encode(bytes, false), '/', ',')
  }

  function Shift(bytes: seq<Octet>): string {
    "&" + Payload(bytes) + "-"
  }

  /** The wire form: printable characters stand for themselves, `&` is
      doubled as `&-`, and each maximal run of the others is one shift. */
  function EncodeName(s: string): string
    decreases |s|
  {
    if s == "" then ""
    else if s[0] == '&' then "&-" + EncodeName(s[1..])
    else if Printable(s[0]) then [s[0]] + EncodeName(s[1..])
    else Shift(Utf16.ToBytes(s[..RunLength(s)])) + EncodeName(s[RunLength(s)..])
  }

  function Flushed(shifted: seq<Octet>, out: string): string {
    if shifted == [] then out else out + Shift(shifted)
  }

  /** Writes the buffered octets as one shift and empties the buffer. */
  method FlushShifted(shifted: seq<Octet>, out: string) returns (shifted': seq<Octet>, out': string)
    ensures shifted' == []
    ensures out' == Flushed(shifted, out)
  {
    hide Base64.Encode;
    shifted', out' := [], out;
    if shifted != [] {
      var b64 := Base64.Encode(shifted, false);
      out' := out' + "&";
      for i := 0 to |b64|
        invariant out' == out + "&" + Replace(b64, '/', ',')[..i]
      {
        out' := out' + [if b64[i] == '/' then ',' else b64[i]];
      }
      out' := out' + "-";
      assert out' == out + Shift(shifted);
    }
  }

  function Escaped(c: char): string {
    if c == '&' then "&-" else [c]
  }

  /** Flushing the open run `s[start..i]` when it ends at `i`. */
  lemma EncodeRun(out: string, s: string, start: nat, i: nat)
    requires start <= i <= |s| && NonePrintable(s[start..i]) && (i < |s| ==> Printable(s[i]))
    ensures out + EncodeName(s[start..]) == Flushed(Utf16.ToBytes(s[start..i]), out) + EncodeName(s[i..])
  {
    Utf16.FromToBytes(s[start..i]);
    hide Shift, Utf16.ToBytes;
    if start < i {
      var t := s[start..];
      assert t[..i - start] == s[start..i] && t[i - start..] == s[i..];
      RunLengthUnique(t, i - start);
      assert t[0] == s[start..i][0];
      assert EncodeName(t) == Shift(Utf16.ToBytes(s[start..i])) + EncodeName(s[i..]);
    }
  }

  lemma EncodeStep(out: string, s: string, start: nat, i: nat)
    requires start <= i < |s| && NonePrintable(s[start..i]) && Printable(s[i])
    ensures out + EncodeName(s[start..])
         == Flushed(Utf16.ToBytes(s[start..i]), out) + Escaped(s[i]) + EncodeName(s[i + 1..])
  {
    hide Shift, Utf16.ToBytes, RunLength, Flushed;
    EncodeRun(out, s, start, i);
    assert s[i..][1..] == s[i + 1..];
    assert EncodeName(s[i..]) == Escaped(s[i]) + EncodeName(s[i + 1..]);
  }

  lemma ToBytesStep(s: string, start: nat, i: nat)
    requires start <= i < |s|
    ensures Utf16.ToBytes(s[start..i + 1])
         == Utf16.ToBytes(s[start..i]) + Utf16.BigEndian(Utf16.EncodeChar(s[i]))
  {
    hide Utf16.ToBytes, Utf16.BigEndian, Utf16.EncodeChar;
    Utf16.ToBytesAppend(s[start..i], [s[i]]);
    Utf16.ToBytesOne(s[i]);
    assert s[start..i] + [s[i]] == s[start..i + 1];
  }

  method Encode(input: string) returns (out: string)
    ensures out == EncodeName(input)
  {
    hide EncodeName, Flushed, Utf16.ToBytes, Utf16.EncodeChar, Utf16.BigEndian;
    out := "";
    var shifted: seq<Octet> := [];
    ghost var start := 0;  // where the buffered run begins
    assert input[0..] == input;
    Utf16.FromToBytes("");
    for i := 0 to |input|
      invariant start <= i && NonePrintable(input[start..i])
      invariant shifted == Utf16.ToBytes(input[start..i])
      invariant EncodeName(input) == out + EncodeName(input[start..])
    {
      var c := input[i];
      if Printable(c) {
        EncodeStep(out, input, start, i);
        shifted, out := FlushShifted(shifted, out);
        if c == '&' {
          out := out + "&-";
        } else {
          out := out + [c];
        }
        start := i + 1;
        assert input[start..i + 1] == "";
      } else {
        ToBytesStep(input, start, i);
        assert input[start..i + 1] == input[start..i] + [c];
        shifted := shifted + Utf16.BigEndian(Utf16.EncodeChar(c));
      }
    }
    EncodeRun(out, input, start, |input|);
    assert input[start..|input|] == input[start..] && input[|input|..] == "";
    EncodeEmpty();
    shifted, out := FlushShifted(shifted, out);
  }

  lemma EncodeEmpty()
    ensures EncodeName("") == ""
  {
  }

  // ---------------------------------------------------------------- decoding

  /** The position of the first `c` at or after `from`, or `|s|`. */
  function Find(s: string, from: nat, c: char): (j: nat)
    requires from <= |s|
    ensures from <= j <= |s|
    ensures forall k :: from <= k < j ==> s[k] != c
    ensures j < |s| ==> s[j] == c
    decreases |s| - from
  {
    if from == |s| || s[from] == c then from else Find(s, from + 1, c)
  }

  lemma FindUnique(s: string, from: nat, c: char, j: nat)
    requires from <= j <= |s|
    requires forall k :: from <= k < j ==> s[k] != c
    requires j < |s| ==> s[j] == c
    ensures Find(s, from, c) == j
  {
  }

  predicate EndsPadded(s: string) {
    s != "" && s[|s| - 1] == '='
  }

  /** One shift: its octets when re-encoding them gives the payload back and
      they pair up, the source text verbatim otherwise. */
  function DecodeShift(dec: Decoder, payload: string, closed: bool): string {
    var standard := Replace(payload, ',', '/');
    var pad := EndsPadded(standard);
    var bytes := dec(standard, pad);
    if Base64.Encode(bytes, pad) == standard && |bytes| % 2 == 0 then Utf16.FromBytes(bytes)
    else "&" + payload + if closed then "-" else ""
  }

  /** How much of a name its first piece takes: one character, or a shift. */
  function Span(w: string): (n: nat)
    requires w != ""
    ensures 0 < n <= |w|
  {
    if w[0] != '&' then 1
    else
      var j := Find(w, 1, '-');
      if j < |w| then j + 1 else j
  }

  function DecodeFirst(dec: Decoder, w: string): string
    requires w != ""
  {
    if w[0] != '&' then [w[0]]
    else
      var j := Find(w, 1, '-');
      if j == 1 then "&" else DecodeShift(dec, w[1..j], j < |w|)
  }

  function DecodeName(dec: Decoder, w: string): string
    decreases |w|
  {
    if w == "" then "" else DecodeFirst(dec, w) + DecodeName(dec, w[Span(w)..])
  }

  lemma DecodeAmpersand(dec: Decoder, rest: string)
    ensures DecodeName(dec, "&-" + rest) == "&" + DecodeName(dec, rest)
  {
    hide DecodeShift;
    var w := "&-" + rest;
    FindUnique(w, 1, '-', 1);
    assert w[2..] == rest;
  }

  lemma DecodeOther(dec: Decoder, c: char, rest: string)
    requires c != '&'
    ensures DecodeName(dec, [c] + rest) == [c] + DecodeName(dec, rest)
  {
    hide DecodeShift, Find;
    assert ([c] + rest)[1..] == rest;
  }

  lemma {:induction false} DecodePlain(dec: Decoder, w: string, i: nat)
    requires i <= |w| && forall k :: 0 <= k < i ==> w[k] != '&'
    ensures DecodeName(dec, w) == w[..i] + DecodeName(dec, w[i..])
  {
    hide DecodeName;
    if i == 0 {
      assert w[0..] == w;
    } else {
      DecodePlain(dec, w[1..], i - 1);
      DecodeOther(dec, w[0], w[1..]);
      assert w == [w[0]] + w[1..];
      assert w[1..][i - 1..] == w[i..];
      assert w[..i] == [w[0]] + w[1..][..i - 1];
    }
  }

  lemma DecodePlainRun(dec: Decoder, out: string, w: string, start: nat, i: nat)
    requires start <= i <= |w| && forall k :: start <= k < i ==> w[k] != '&'
    ensures out + DecodeName(dec, w[start..]) == out + w[start..i] + DecodeName(dec, w[i..])
  {
    hide DecodeName;
    DecodePlain(dec, w[start..], i - start);
    assert w[start..][..i - start] == w[start..i];
    assert w[start..][i - start..] == w[i..];
  }

  lemma DecodeShiftAt(dec: Decoder, out: string, w: string, i: nat, j: nat)
    requires i < j <= |w| && w[i] == '&'
    requires forall k :: i < k < j ==> w[k] != '-'
    requires j < |w| ==> w[j] == '-'
    ensures out + DecodeName(dec, w[i..])
         == out + (if j == i + 1 then "&" else DecodeShift(dec, w[i + 1..j], j < |w|))
            + DecodeName(dec, w[if j < |w| then j + 1 else j..])
  {
    hide DecodeShift, Find;
    var v, next := w[i..], if j < |w| then j + 1 else j;
    FindUnique(v, 1, '-', j - i);
    assert v[1..j - i] == w[i + 1..j] && v[next - i..] == w[next..];
    assert DecodeName(dec, v) == DecodeFirst(dec, v) + DecodeName(dec, w[next..]);
    Associative(out, if j == i + 1 then "&" else DecodeShift(dec, w[i + 1..j], j < |w|), DecodeName(dec, w[next..]));
  }

  method Decode(dec: Decoder, input: string) returns (out: string)
    ensures out == DecodeName(dec, input)
  {
    hide DecodeName, Base64.Encode, Utf16.FromBytes, Replace, EndsPadded;
    out := "";
    var i := 0;
    assert input[0..] == input;
    while i < |input|
      invariant i <= |input|
      invariant DecodeName(dec, input) == out + DecodeName(dec, input[i..])
    {
      if input[i] != '&' {
        var start := i;
        while i < |input| && input[i] != '&'
          invariant start <= i <= |input|
          invariant forall k :: start <= k < i ==> input[k] != '&'
        {
          i := i + 1;
        }
        DecodePlainRun(dec, out, input, start, i);
        out := out + input[start..i];
        continue;
      }
      var payloadStart := i + 1;
      var j := payloadStart;
      while j < |input| && input[j] != '-'
        invariant payloadStart <= j <= |input|
        invariant forall k :: payloadStart <= k < j ==> input[k] != '-'
      {
        j := j + 1;
      }
      DecodeShiftAt(dec, out, input, i, j);
      if j == payloadStart {
        out := out + "&";
      } else {
        var payload := input[payloadStart..j];
        var standard := Replace(payload, ',', '/');
        var pad := EndsPadded(standard);
        var decoded := dec(standard, pad);
        var canonical := Base64.Encode(decoded, pad);
        if canonical == standard && |decoded| % 2 == 0 {
          out := out + Utf16.FromBytes(decoded);
        } else {
          out := out + ("&" + payload + if j < |input| then "-" else "");
        }
      }
      i := if j < |input| then j + 1 else j;
    }
    DecodeEmpty(dec);
    assert input[i..] == "";
  }

  lemma DecodeEmpty(dec: Decoder)
    ensures DecodeName(dec, "") == ""
  {
  }

  // -------------------------------------------------------------- properties

  /** The payload of an encoded shift is unpadded, holds no `-`, and turns
      back into standard base64. */
  lemma PayloadShape(bytes: seq<Octet>)
    ensures var p := Payload(bytes);
            '-' !in p && '&' !in p && AllPrintable(p) && !EndsPadded(Replace(p, ',', '/'))
            && Replace(p, ',', '/') == Base64.Encode(bytes, false)
            && (bytes == [] <==> p == "")
  {
    EncodedLetters(bytes);
    var t, p := Base64.Encode(bytes, false), Payload(bytes);
    forall i | 0 <= i < |t|
      ensures p[i] != '-' && p[i] != '&' && Printable(p[i]) && p[i] != '='
      ensures Replace(p, ',', '/')[i] == t[i]
    {
      assert Base64Letter(t[i]);
    }
  }

  predicate Base64Letter(c: char) {
    '+' <= c <= 'z' && c != ',' && c != '-' && c != '='
  }

  ghost predicate AllLetters(t: string) {
    forall i :: 0 <= i < |t| ==> Base64Letter(t[i])
  }

  lemma {:induction false} EncodedLetters(bytes: seq<Octet>)
    ensures AllLetters(Base64.Encode(bytes, false))
  {
    hide Base64.Letter;
    var t := Base64.Encode(bytes, false);
    if |bytes| == 1 {
      assert |t| == 2;
    } else if |bytes| == 2 {
      assert |t| == 3;
    } else if |bytes| >= 3 {
      EncodedLetters(bytes[3..]);
      assert t == Base64.Group(bytes[0], bytes[1], bytes[2]) + Base64.Encode(bytes[3..], false);
    }
  }

  /** A canonical shift in front of any wire text decodes on its own. */
  lemma DecodeAfterShift(dec: Decoder, bytes: seq<Octet>, rest: string)
    requires Base64.Inverts(dec)
    requires bytes != [] && |bytes| % 2 == 0
    ensures DecodeName(dec, Shift(bytes) + rest) == Utf16.FromBytes(bytes) + DecodeName(dec, rest)
  {
    var p := Payload(bytes);
    var w := Shift(bytes) + rest;
    PayloadShape(bytes);
    FindUnique(w, 1, '-', 1 + |p|);
    assert w[1..1 + |p|] == p && w[|p| + 2..] == rest;
  }

  /** Decoding undoes encoding, on every string and with every base64 decoder
      that inverts the encoder. */
  lemma {:induction false} RoundTrip(dec: Decoder, s: string)
    requires Base64.Inverts(dec)
    ensures DecodeName(dec, EncodeName(s)) == s
    decreases |s|
  {
    hide DecodeName, Shift, RunLength, Utf16.ToBytes, Utf16.FromBytes;
    if s == "" {
      DecodeEmpty(dec);
    } else if s[0] == '&' {
      RoundTrip(dec, s[1..]);
      DecodeAmpersand(dec, EncodeName(s[1..]));
      assert s == [s[0]] + s[1..];
    } else if Printable(s[0]) {
      RoundTrip(dec, s[1..]);
      DecodeOther(dec, s[0], EncodeName(s[1..]));
      assert s == [s[0]] + s[1..];
    } else {
      var n := RunLength(s);
      RoundTrip(dec, s[n..]);
      Utf16.FromToBytes(s[..n]);
      DecodeAfterShift(dec, Utf16.ToBytes(s[..n]), EncodeName(s[n..]));
      assert s == s[..n] + s[n..];
    }
  }

  lemma EncodeInjective(s: string, t: string)
    requires EncodeName(s) == EncodeName(t)
    ensures s == t
  {
    Base64.DecodeInverts();
    RoundTrip(Base64.Decode, s);
    RoundTrip(Base64.Decode, t);
  }

  /** What a shift decodes to, told without any base64 decoder. */
  lemma DecodeShiftMeaning(dec: Decoder, payload: string, closed: bool)
    requires Base64.Inverts(dec)
    ensures var standard := Replace(payload, ',', '/');
            var pad := standard != "" && standard[|standard| - 1] == '=';
            var bytes := Base64.Decode(standard, pad);
            DecodeShift(dec, payload, closed) ==
            if Base64.Canonical(standard, pad) && |bytes| % 2 == 0 then Utf16.FromBytes(bytes)
            else "&" + payload + if closed then "-" else ""
  {
    var standard := Replace(payload, ',', '/');
    Base64.ReencodeCheck(dec, standard, EndsPadded(standard));
  }

  /** How a wire name reads, piece by piece: anything but `&` as itself, `&-`, and a
      last `&`, as `&`, and up to the next `-` or the end of the name as a shift. */
  lemma ReadsAs(dec: Decoder, c: char, payload: string, rest: string)
    requires payload != "" && '-' !in payload
    ensures DecodeName(dec, "") == "" && DecodeName(dec, "&") == "&"
    ensures c != '&' ==> DecodeName(dec, [c] + rest) == [c] + DecodeName(dec, rest)
    ensures DecodeName(dec, "&-" + rest) == "&" + DecodeName(dec, rest)
    ensures DecodeName(dec, "&" + payload + "-" + rest) == DecodeShift(dec, payload, true) + DecodeName(dec, rest)
    ensures DecodeName(dec, "&" + payload) == DecodeShift(dec, payload, false)
  {
    hide DecodeName, DecodeShift;
    DecodeEmpty(dec);
    if c != '&' {
      DecodeOther(dec, c, rest);
    }
    DecodeAmpersand(dec, rest);
    DecodeClosed(dec, payload, rest);
    DecodeOpen(dec, payload);
    DecodeOpen(dec, "");
    assert "&" + "" == "&";
  }

  lemma DecodeClosed(dec: Decoder, payload: string, rest: string)
    requires payload != "" && '-' !in payload
    ensures DecodeName(dec, "&" + payload + "-" + rest) == DecodeShift(dec, payload, true) + DecodeName(dec, rest)
  {
    hide DecodeShift, Find;
    var w, j := "&" + payload + "-" + rest, 1 + |payload|;
    FindUnique(w, 1, '-', j);
    assert w[1..j] == payload && w[j + 1..] == rest;
    assert DecodeName(dec, w) == DecodeFirst(dec, w) + DecodeName(dec, rest);
  }

  lemma DecodeOpen(dec: Decoder, payload: string)
    requires '-' !in payload
    ensures DecodeName(dec, "&" + payload) == if payload == "" then "&" else DecodeShift(dec, payload, false)
  {
    hide DecodeShift, Find;
    var w := "&" + payload;
    FindUnique(w, 1, '-', |w|);
    assert w[1..|w|] == payload && w[|w|..] == "";
    assert DecodeName(dec, w) == DecodeFirst(dec, w) + DecodeName(dec, "");
    assert DecodeFirst(dec, w) + "" == DecodeFirst(dec, w);
  }

  /** The leniency of the base64 decoder never shows in a decoded name. */
  lemma {:induction false} DecoderIndependent(dec: Decoder, dec': Decoder, w: string)
    requires Base64.Inverts(dec) && Base64.Inverts(dec')
    ensures DecodeName(dec, w) == DecodeName(dec', w)
    decreases |w|
  {
    if w == "" {
    } else if w[0] != '&' {
      DecoderIndependent(dec, dec', w[1..]);
    } else {
      var j := Find(w, 1, '-');
      DecoderIndependent(dec, dec', w[if j < |w| then j + 1 else j..]);
      DecodeShiftMeaning(dec, w[1..j], j < |w|);
      DecodeShiftMeaning(dec', w[1..j], j < |w|);
    }
  }

  /** The names section 5.1.3 of RFC 3501 allows on the wire: printable
      characters, `&-` for `&`, and closed shifts of modified base64 holding
      well-formed UTF-16 of unprintable characters only, no two adjacent. */
  ghost predicate CanonicalName(w: string, afterShift: bool)
    decreases |w|
  {
    if w == "" then true
    else if w[0] != '&' then Printable(w[0]) && CanonicalName(w[1..], false)
    else
      var j := Find(w, 1, '-');
      j < |w|
      && if j == 1 then CanonicalName(w[2..], false)
         else !afterShift && CanonicalPayload(w[1..j]) && CanonicalName(w[j + 1..], true)
  }

  ghost predicate CanonicalPayload(payload: string) {
    var standard := Replace(payload, ',', '/');
    var bytes := Base64.Decode(standard, false);
    '/' !in payload && Base64.Canonical(standard, false) && |bytes| % 2 == 0
    && Utf16.WellFormed(Utf16.Pairs(bytes)) && NonePrintable(Utf16.FromBytes(bytes))
  }

  /** Encoded names are canonical. A run left open by what precedes must not
      be followed by a run, which is why `s` starts printable after a shift. */
  lemma {:induction false} EncodeCanonical(s: string, afterShift: bool)
    requires afterShift && s != "" ==> Printable(s[0])
    ensures CanonicalName(EncodeName(s), afterShift)
    decreases |s|
  {
    hide CanonicalPayload, Shift, Utf16.ToBytes;
    var w := EncodeName(s);
    if s == "" {
    } else if s[0] == '&' {
      EncodeCanonical(s[1..], false);
      FindUnique(w, 1, '-', 1);
      assert w[2..] == EncodeName(s[1..]);
    } else if Printable(s[0]) {
      EncodeCanonical(s[1..], false);
      assert w[1..] == EncodeName(s[1..]);
    } else {
      var n := RunLength(s);
      EncodeCanonical(s[n..], true);
      CanonicalShift(s[..n], EncodeName(s[n..]));
    }
  }

  lemma CanonicalShift(run: string, rest: string)
    requires run != "" && NonePrintable(run) && CanonicalName(rest, true)
    ensures CanonicalName(Shift(Utf16.ToBytes(run)) + rest, false)
  {
    hide Base64.Canonical, Base64.Decode, Base64.Encode, Utf16.WellFormed, Utf16.FromBytes, Utf16.ToBytes;
    var bytes := Utf16.ToBytes(run);
    var p := Payload(bytes);
    var w := Shift(bytes) + rest;
    PayloadShape(bytes);
    Utf16.FromToBytes(run);
    Base64.DecodeEncode(bytes, false);
    FindUnique(w, 1, '-', 1 + |p|);
    assert w[1..1 + |p|] == p && w[|p| + 2..] == rest;
    assert '/' !in p by {
      assert forall i :: 0 <= i < |p| ==> p[i] != '/';
    }
  }

  /** A canonical payload is the payload of the octets it carries. */
  lemma CanonicalPayloadEncodes(payload: string)
    requires CanonicalPayload(payload) && payload != ""
    ensures var bytes := Base64.Decode(Replace(payload, ',', '/'), false);
            bytes != [] && Payload(bytes) == payload && Utf16.ToBytes(Utf16.FromBytes(bytes)) == bytes
  {
    var standard := Replace(payload, ',', '/');
    Base64.EncodeDecode(standard, false);
    Utf16.ToFromBytes(Base64.Decode(standard, false));
  }

  /** A run in front of a name that does not itself start with a run. */
  lemma EncodeRunThen(run: string, rest: string)
    requires run != "" && NonePrintable(run) && (rest != "" ==> Printable(rest[0]))
    ensures EncodeName(run + rest) == Shift(Utf16.ToBytes(run)) + EncodeName(rest)
  {
    var s := run + rest;
    assert s[..|run|] == run && s[|run|..] == rest;
    RunLengthUnique(s, |run|);
    assert s[0] == run[0];
  }

  lemma EncodeOther(c: char, rest: string)
    requires Printable(c)
    ensures EncodeName([c] + rest) == Escaped(c) + EncodeName(rest)
  {
    assert ([c] + rest)[1..] == rest;
  }

  /** What the wire form is: a printable character stands for itself, `&` is
      doubled up, and a run of other characters is its UTF-16 octets in base64,
      unpadded, with commas for slashes, between `&` and `-`. */
  lemma WireForm(c: char, run: string, rest: string)
    requires run != "" && NonePrintable(run) && (rest != "" ==> Printable(rest[0]))
    ensures EncodeName("") == ""
    ensures Printable(c) ==> EncodeName([c] + rest) == (if c == '&' then "&-" else [c]) + EncodeName(rest)
    ensures EncodeName(run + rest)
         == "&" + Replace(Base64.Encode(Utf16.BigEndian(Utf16.Encode(run)), false), '/', ',') + "-" + EncodeName(rest)
  {
    hide EncodeName, Base64.Encode, Utf16.BigEndian, Utf16.Encode;
    EncodeEmpty();
    if Printable(c) {
      EncodeOther(c, rest);
    }
    EncodeRunThen(run, rest);
  }

  lemma {:induction false} CanonicalRoundTrip(dec: Decoder, w: string, afterShift: bool)
    requires Base64.Inverts(dec) && CanonicalName(w, afterShift)
    ensures EncodeName(DecodeName(dec, w)) == w
    ensures afterShift && w != "" ==> DecodeName(dec, w) != "" && Printable(DecodeName(dec, w)[0])
    decreases |w|
  {
    hide DecodeName, EncodeName, CanonicalPayload;
    if w == "" {
      DecodeEmpty(dec);
      EncodeEmpty();
    } else if w[0] != '&' {
      CanonicalRoundTrip(dec, w[1..], false);
      DecodeOther(dec, w[0], w[1..]);
      EncodeOther(w[0], DecodeName(dec, w[1..]));
      assert w == [w[0]] + w[1..];
    } else {
      var j := Find(w, 1, '-');
      CanonicalRoundTrip(dec, w[j + 1..], j > 1);
      if j == 1 {
        DecodeAmpersand(dec, w[2..]);
        EncodeOther('&', DecodeName(dec, w[2..]));
        assert w == "&-" + w[2..];
      } else {
        CanonicalShiftRoundTrip(dec, w, j);
      }
    }
  }

  lemma CanonicalShiftRoundTrip(dec: Decoder, w: string, j: nat)
    requires Base64.Inverts(dec)
    requires 1 < j < |w| && w[0] == '&' && w[j] == '-' && CanonicalPayload(w[1..j])
    requires EncodeName(DecodeName(dec, w[j + 1..])) == w[j + 1..]
    requires w[j + 1..] != "" ==> DecodeName(dec, w[j + 1..]) != "" && Printable(DecodeName(dec, w[j + 1..])[0])
    ensures EncodeName(DecodeName(dec, w)) == w
  {
    hide DecodeName, EncodeName, Base64.Canonical, Base64.Decode, Utf16.WellFormed, Utf16.FromBytes, Utf16.ToBytes;
    var rest := w[j + 1..];
    var bytes := Base64.Decode(Replace(w[1..j], ',', '/'), false);
    CanonicalPayloadEncodes(w[1..j]);
    assert w == Shift(bytes) + rest;
    DecodeAfterShift(dec, bytes, rest);
    var run := Utf16.FromBytes(bytes);
    Utf16.FromToBytes(run);
    DecodeEmpty(dec);
    EncodeRunThen(run, DecodeName(dec, rest));
  }

  /** A wire name survives decoding and encoding exactly when it is canonical;
      those names are exactly the encoder's outputs. */
  lemma WireRoundTrip(dec: Decoder, w: string)
    requires Base64.Inverts(dec)
    ensures EncodeName(DecodeName(dec, w)) == w <==> CanonicalName(w, false)
    ensures CanonicalName(w, false) <==> exists s :: EncodeName(s) == w
  {
    if CanonicalName(w, false) {
      CanonicalRoundTrip(dec, w, false);
    }
    forall s | EncodeName(s) == w ensures CanonicalName(w, false) {
      EncodeCanonical(s, false);
    }
  }

  lemma OneShift(payload: string, rest: string, afterShift: bool)
    requires payload != "" && '-' !in payload
    ensures CanonicalName("&" + payload + "-" + rest, afterShift)
       <==> !afterShift && CanonicalPayload(payload) && CanonicalName(rest, true)
  {
    hide CanonicalPayload;
    var w := "&" + payload + "-" + rest;
    FindUnique(w, 1, '-', 1 + |payload|);
    assert w[1..1 + |payload|] == payload && w[|payload| + 2..] == rest;
  }

  lemma PaddedPayload()
    ensures !CanonicalPayload("AOk=")
  {
    var text := Replace("AOk=", ',', '/');
    assert text[..4][3] == '=';
  }

  lemma SlashPayload()
    ensures !CanonicalPayload("A/8")
  {
    assert "A/8"[1] == '/';
  }

  /** Three letters without a comma are their own standard form, and two octets. */
  lemma ThreeLetters(payload: string, a: Octet, b: Octet)
    requires Base64.Group(a, b, 0)[..3] == payload && ',' !in payload
    ensures Base64.Decode(Replace(payload, ',', '/'), false) == [a, b]
    ensures Utf16.Pairs([a, b]) == [a * 256 + b]
  {
    hide Base64.Decode, Base64.Canonical, Base64.Group, Base64.Encode;
    assert Replace(payload, ',', '/') == payload;
    Base64.DecodeEncode([a, b], false);
    Base64.EncodeTwo(a, b);
    assert [a, b][2..] == [];
  }

  lemma PrintablePayload()
    ensures !CanonicalPayload("AGE")
  {
    ThreeLetters("AGE", 0, 97);
    assert Utf16.FromBytes([0, 97]) == "a" && Printable("a"[0]);
  }

  lemma LoneSurrogatePayload()
    ensures !CanonicalPayload("2AA")
  {
    ThreeLetters("2AA", 0xD8, 0);
    assert !Utf16.WellFormed([0xD800]);
  }

  /** Names the decoder reads as text and the encoder then writes otherwise, or
      leaves alone and then escapes: a padded shift, a slash for a comma, a
      printable character in a shift, a lone surrogate, two shifts in a row. */
  lemma NotCanonical(dec: Decoder, w: string)
    requires Base64.Inverts(dec)
    requires w in ["&AOk=-", "&A/8-", "&AGE-", "&2AA-", "&AOk-&AOk-"]
    ensures !CanonicalName(w, false) && EncodeName(DecodeName(dec, w)) != w
  {
    hide CanonicalPayload, CanonicalName, DecodeName, EncodeName;
    PaddedPayload();
    SlashPayload();
    PrintablePayload();
    LoneSurrogatePayload();
    OneShift("AOk=", "", false);
    OneShift("A/8", "", false);
    OneShift("AGE", "", false);
    OneShift("2AA", "", false);
    OneShift("AOk", "&AOk-", false);
    OneShift("AOk", "", true);
    assert "&AOk=-" == "&" + "AOk=" + "-" + "" && "&A/8-" == "&" + "A/8" + "-" + "";
    assert "&AGE-" == "&" + "AGE" + "-" + "" && "&2AA-" == "&" + "2AA" + "-" + "";
    assert "&AOk-" == "&" + "AOk" + "-" + "" && "&AOk-&AOk-" == "&" + "AOk" + "-" + "&AOk-";
    WireRoundTrip(dec, w);
  }

  lemma {:induction false} EncodePrintable(s: string)
    ensures AllPrintable(EncodeName(s))
    decreases |s|
  {
    hide Payload, Utf16.ToBytes;
    if s == "" {
    } else if Printable(s[0]) {
      EncodePrintable(s[1..]);
    } else {
      EncodePrintable(s[RunLength(s)..]);
      PayloadShape(Utf16.ToBytes(s[..RunLength(s)]));
    }
  }

  /** The encoder leaves a name alone exactly when it is printable ASCII
      without `&`. */
  lemma {:induction false} EncodeFixpoint(s: string)
    ensures EncodeName(s) == s <==> AllPrintable(s) && '&' !in s
    decreases |s|
  {
    if s == "" {
    } else if Printable(s[0]) && s[0] != '&' {
      EncodeFixpoint(s[1..]);
      assert EncodeName(s)[1..] == EncodeName(s[1..]);
      assert s == [s[0]] + s[1..];
      if EncodeName(s) == s {
        assert EncodeName(s[1..]) == s[1..];
      }
      assert forall i :: 0 <= i < |s| - 1 ==> s[1..][i] == s[i + 1];
    } else if s[0] == '&' {
      EncodeLonger(s[1..]);
    } else {
      assert EncodeName(s)[0] == '&';
    }
  }

  lemma {:induction false} EncodeLonger(s: string)
    ensures |EncodeName(s)| >= |s|
    decreases |s|
  {
    if s == "" {
    } else if Printable(s[0]) {
      EncodeLonger(s[1..]);
    } else {
      var n := RunLength(s);
      EncodeLonger(s[n..]);
      Base64Longer(Utf16.ToBytes(s[..n]));
      Utf16Longer(s[..n]);
    }
  }

  lemma {:induction false} Base64Longer(bytes: seq<Octet>)
    ensures |Base64.Encode(bytes, false)| >= |bytes|
  {
    hide Base64.Letter;
    if |bytes| >= 3 {
      Base64Longer(bytes[3..]);
    }
  }

  lemma {:induction false} Utf16Longer(s: string)
    ensures |Utf16.ToBytes(s)| >= 2 * |s|
  {
    if s != "" {
      Utf16Longer(s[1..]);
    }
  }

  lemma EncodeRunAlone(run: string, payload: string, a: Octet, b: Octet, c: Octet, d: Octet)
    requires NonePrintable(run) && run != "" && Utf16.Encode(run) == [a * 256 + b, c * 256 + d]
    requires Base64.Group(a, b, c) + Base64.Group(d, 0, 0)[..2] == payload
    ensures EncodeName(run) == "&" + Replace(payload, '/', ',') + "-"
  {
    hide EncodeName, Base64.Group;
    EncodeRunThen(run, "");
    EncodeEmpty();
    assert run + "" == run;
    var units := Utf16.Encode(run);
    assert units[1..][1..] == [] && units[1..] == [c * 256 + d];
    assert Utf16.BigEndian(units) == [a, b, c, d];
    assert [a, b, c, d][3..] == [d];
    assert Base64.Encode([a, b, c, d], false) == payload;
  }

  lemma FaceUnits()
    ensures Utf16.Encode("\U{1F600}") == [0xD83D, 0xDE00]
  {
    var face := "\U{1F600}";
    assert face == [face[0]];
    Utf16.EncodeOne(face[0]);
  }

  lemma CityUnits()
    ensures Utf16.Encode("\U{53F0}\U{5317}") == [0x53F0, 0x5317]
  {
    var city := "\U{53F0}\U{5317}";
    assert city[1..] == [city[1]];
    Utf16.EncodeOne(city[1]);
  }

  lemma FaceGroups()
    ensures Base64.Group(0xD8, 0x3D, 0xDE) + Base64.Group(0, 0, 0)[..2] == "2D3eAA" == Replace("2D3eAA", '/', ',')
  {
  }

  lemma CityGroups()
    ensures Base64.Group(0x53, 0xF0, 0x53) + Base64.Group(0x17, 0, 0)[..2] == "U/BTFw"
    ensures Replace("U/BTFw", '/', ',') == "U,BTFw"
  {
  }

  /** U+1F600, a surrogate pair; and the two characters of the example in section
      5.1.3 of RFC 3501, whose base64 holds a slash. */
  lemma Examples()
    ensures EncodeName("\U{1F600}") == "&2D3eAA-"
    ensures EncodeName("\U{53F0}\U{5317}") == "&U,BTFw-"
  {
    hide EncodeName, Utf16.Encode, Base64.Group;
    FaceUnits();
    FaceGroups();
    EncodeRunAlone("\U{1F600}", "2D3eAA", 0xD8, 0x3D, 0xDE, 0);
    CityUnits();
    CityGroups();
    EncodeRunAlone("\U{53F0}\U{5317}", "U/BTFw", 0x53, 0xF0, 0x53, 0x17);
  }

  // ---------------------------------------------------------------- in place

  /** A mailbox of the wire protocol: INBOX, or a name that is UTF-8 text or not. */
  datatype Mailbox = Inbox | Other(inner: Inner)
  datatype Inner = Text(text: string) | Binary(raw: seq<Octet>)

  /** `Mailbox::try_from`, reserved to the type library: how a text becomes a mailbox. */
  type Conversion = string -> Option<Mailbox>

  class MailboxCell {
    var mbox: Mailbox

    constructor (mbox: Mailbox)
      ensures this.mbox == mbox
    {
      this.mbox := mbox;
    }

    method EncodeInPlace(convert: Conversion)
      modifies this
      ensures old(mbox.Inbox? || mbox.inner.Binary?) ==> mbox == old(mbox)
      ensures old(mbox.Other? && mbox.inner.Text?) ==>
                var name := old(mbox.inner.text);
                var w := EncodeName(name);
                mbox == if w == name || convert(w).None? then old(mbox) else convert(w).value
    {
      if mbox.Inbox? || mbox.inner.Binary? {
        return;
      }
      var encoded := Encode(mbox.inner.text);
      if encoded == mbox.inner.text {
        return;
      }
      match convert(encoded)
      case Some(new') => mbox := new';
      case None =>
    }

    method DecodeInPlace(dec: Decoder, convert: Conversion)
      modifies this
      ensures old(mbox.Inbox? || mbox.inner.Binary?) ==> mbox == old(mbox)
      ensures old(mbox.Other? && mbox.inner.Text?) ==>
                var w := old(mbox.inner.text);
                var name := DecodeName(dec, w);
                mbox == if name == w || convert(name).None? then old(mbox) else convert(name).value
    {
      if mbox.Inbox? || mbox.inner.Binary? {
        return;
      }
      var decoded := Decode(dec, mbox.inner.text);
      if decoded == mbox.inner.text {
        return;
      }
      match convert(decoded)
      case Some(new') => mbox := new';
      case None =>
    }
  }

  /** Going to the wire and back in place returns the mailbox it started from,
      when the type library turns a text it already held, or the printable wire
      form of it, into a mailbox of that very text. */
  method InPlaceRoundTrip(cell: MailboxCell, dec: Decoder, convert: Conversion)
    requires Base64.Inverts(dec)
    requires cell.mbox.Other? && cell.mbox.inner.Text? ==>
               var name := cell.mbox.inner.text;
               convert(name) == Some(cell.mbox)
               && convert(EncodeName(name)) == Some(Other(Text(EncodeName(name))))
    modifies cell
    ensures cell.mbox == old(cell.mbox)
  {
    if cell.mbox.Other? && cell.mbox.inner.Text? {
      RoundTrip(dec, cell.mbox.inner.text);
    }
    cell.EncodeInPlace(convert);
    cell.DecodeInPlace(dec, convert);
  }
}
