/** Base64 (section 4 of RFC 4648), written out on sextets. */
module Base64 {
  import opened Octets

  /** Table 1 of RFC 4648. */
  function Letter(i: nat): (c: char)
    requires i < 64
    ensures '+' <= c <= 'z' && c != ',' && c != '-' && c != '='
  {
    if i < 26 then ('A' as int + i) as char
    else if i < 52 then ('a' as int + (i - 26)) as char
    else if i < 62 then ('0' as int + (i - 52)) as char
    else if i == 62 then '+'
    else '/'
  }

  /** The table, eight letters at a time. */
  function Row(k: nat): string
    requires k < 8
  {
    if k == 0 then "ABCDEFGH"
    else if k == 1 then "IJKLMNOP"
    else if k == 2 then "QRSTUVWX"
    else if k == 3 then "YZabcdef"
    else if k == 4 then "ghijklmn"
    else if k == 5 then "opqrstuv"
    else if k == 6 then "wxyz0123"
    else "456789+/"
  }

  /** The letter of a sextet is its entry in the table. */
  lemma LetterMeaning(k: nat, i: nat)
    requires k < 8 && i < 8
    ensures |Row(k)| == 8 && Letter(k * 8 + i) == Row(k)[i]
  {
    if i < 4 {
      assert i == 0 || i == 1 || i == 2 || i == 3;
    } else {
      assert i == 4 || i == 5 || i == 6 || i == 7;
    }
  }

  function Sextet(c: char): (i: Option<nat>)
    ensures i.Some? ==> i.value < 64 && Letter(i.value) == c
  {
    if 'A' <= c <= 'Z' then Some(c as int - 'A' as int)
    else if 'a' <= c <= 'z' then Some(c as int - 'a' as int + 26)
    else if '0' <= c <= '9' then Some(c as int - '0' as int + 52)
    else if c == '+' then Some(62)
    else if c == '/' then Some(63)
    else None
  }

  lemma SextetLetter(i: nat)
    requires i < 64
    ensures Sextet(Letter(i)) == Some(i)
  {
  }

  function Encode(bytes: seq<Octet>, pad: bool): string {
    if |bytes| == 0 then ""
    else if |bytes| == 1 then
      Group(bytes[0], 0, 0)[..2] + if pad then "==" else ""
    else if |bytes| == 2 then
      Group(bytes[0], bytes[1], 0)[..3] + if pad then "=" else ""
    else Group(bytes[0], bytes[1], bytes[2]) + Encode(bytes[3..], pad)
  }

  lemma EncodeTwo(a: Octet, b: Octet)
    ensures Encode([a, b], false) == Group(a, b, 0)[..3]
  {
    hide Group;
    assert Group(a, b, 0)[..3] + "" == Group(a, b, 0)[..3];
  }

  /** One full group: 24 bits as four sextets. */
  function Group(a: Octet, b: Octet, c: Octet): (s: string)
    ensures |s| == 4
  {
    [Letter(a / 4), Letter(a % 4 * 16 + b / 16), Letter(b % 16 * 4 + c / 64), Letter(c % 64)]
  }

  /** `n` letters for the lowest `6 * n` bits of a number, highest first. */
  function BitsOf(bits: nat, n: nat): string {
    if n == 0 then "" else BitsOf(bits / 64, n - 1) + [Letter(bits % 64)]
  }

  lemma OneLetter(bits: nat, n: nat, q: nat)
    requires q < 64
    ensures BitsOf(bits * 64 + q, n + 1) == BitsOf(bits, n) + [Letter(q)]
  {
    hide Letter;
    assert (bits * 64 + q) / 64 == bits && (bits * 64 + q) % 64 == q;
  }

  lemma TwoLetters(p: nat, q: nat)
    requires p < 64 && q < 64
    ensures BitsOf(p * 64 + q, 2) == [Letter(p), Letter(q)]
  {
    NoLetters();
    hide Letter, BitsOf;
    OneLetter(0, 0, p);
    OneLetter(p, 1, q);
  }

  lemma ThreeLetters(p: nat, q: nat, r: nat)
    requires p < 64 && q < 64 && r < 64
    ensures BitsOf((p * 64 + q) * 64 + r, 3) == [Letter(p), Letter(q), Letter(r)]
  {
    hide Letter, BitsOf;
    TwoLetters(p, q);
    OneLetter(p * 64 + q, 2, r);
  }

  lemma FourLetters(p: nat, q: nat, r: nat, s: nat)
    requires p < 64 && q < 64 && r < 64 && s < 64
    ensures BitsOf(((p * 64 + q) * 64 + r) * 64 + s, 4) == [Letter(p), Letter(q), Letter(r), Letter(s)]
  {
    hide Letter, BitsOf;
    ThreeLetters(p, q, r);
    OneLetter((p * 64 + q) * 64 + r, 3, s);
  }

  lemma NoLetters()
    ensures BitsOf(0, 0) == ""
  {
  }

  /** The letters of a group are its 24 bits, those of a shorter last group its
      bits followed by zeros. */
  lemma GroupMeaning(a: Octet, b: Octet, c: Octet)
    ensures var x: int, y: int, z: int := a, b, c;
            Group(a, b, c) == BitsOf((x * 256 + y) * 256 + z, 4)
            && Group(a, b, 0)[..3] == BitsOf((x * 256 + y) * 4, 3)
            && Group(a, 0, 0)[..2] == BitsOf(x * 16, 2)
  {
    hide Letter, BitsOf;
    var x: int, y: int, z: int := a, b, c;
    FourLetters(x / 4, x % 4 * 16 + y / 16, y % 16 * 4 + z / 64, z % 64);
    ThreeLetters(x / 4, x % 4 * 16 + y / 16, y % 16 * 4);
    TwoLetters(x / 4, x % 4 * 16);
    assert ((x / 4 * 64 + (x % 4 * 16 + y / 16)) * 64 + (y % 16 * 4 + z / 64)) * 64 + z % 64 == (x * 256 + y) * 256 + z;
    assert (x / 4 * 64 + (x % 4 * 16 + y / 16)) * 64 + y % 16 * 4 == (x * 256 + y) * 4;
    assert x / 4 * 64 + x % 4 * 16 == x * 16;
  }

  /** Groups of three octets encode one after the other, a shorter last one to
      as many letters as hold its bits, filled up to four when padded. */
  lemma {:induction false} EncodeMeaning(a: seq<Octet>, b: seq<Octet>, pad: bool)
    requires |a| % 3 == 0
    ensures Encode(a + b, pad) == Encode(a, pad) + Encode(b, pad)
    ensures |b| == 3 ==> Encode(b, pad) == Group(b[0], b[1], b[2])
    ensures |b| == 2 ==> Encode(b, pad) == Group(b[0], b[1], 0)[..3] + if pad then "=" else ""
    ensures |b| == 1 ==> Encode(b, pad) == Group(b[0], 0, 0)[..2] + if pad then "==" else ""
  {
    hide Group;
    assert |b| == 3 ==> b[3..] == [];
    if a == [] {
      assert a + b == b;
    } else {
      var first := Group(a[0], a[1], a[2]);
      EncodeMeaning(a[3..], b, pad);
      assert (a + b)[3..] == a[3..] + b;
      assert Encode(a + b, pad) == first + Encode(a[3..] + b, pad);
      Associative(first, Encode(a[3..], pad), Encode(b, pad));
    }
  }

  /** The texts that encode some octets, told from the text alone: every
      letter in the alphabet, no group of one letter, unused bits zero. */
  predicate Canonical(text: string, pad: bool) {
    text == "" || Tail2(text, pad) || Tail3(text, pad)
    || (|text| >= 4 && Letters(text[..4]) && Canonical(text[4..], pad))
  }

  predicate Letters(t: string) {
    forall k :: 0 <= k < |t| ==> Sextet(t[k]).Some?
  }

  /** The final group of a single octet. */
  predicate Tail2(t: string, pad: bool) {
    |t| >= 2 && Letters(t[..2]) && Sextet(t[1]).value % 16 == 0 && t[2..] == if pad then "==" else ""
  }

  /** The final group of two octets. */
  predicate Tail3(t: string, pad: bool) {
    |t| >= 3 && Letters(t[..3]) && Sextet(t[2]).value % 4 == 0 && t[3..] == if pad then "=" else ""
  }

  /** Reads a canonical text; any other text reads as nothing. */
  function Decode(text: string, pad: bool): seq<Octet> {
    if !Canonical(text, pad) || text == "" then []
    else if Tail2(text, pad) then
      Ungroup(Value(text, 0), Value(text, 1), 0, 0)[..1]
    else if Tail3(text, pad) then
      Ungroup(Value(text, 0), Value(text, 1), Value(text, 2), 0)[..2]
    else Ungroup(Value(text, 0), Value(text, 1), Value(text, 2), Value(text, 3)) + Decode(text[4..], pad)
  }

  function Value(text: string, k: nat): (v: nat)
    ensures v < 64
  {
    if k < |text| && Sextet(text[k]).Some? then Sextet(text[k]).value else 0
  }

  /** Four sextets as 24 bits. */
  function Ungroup(p: nat, q: nat, r: nat, s: nat): (o: seq<Octet>)
    requires p < 64 && q < 64 && r < 64 && s < 64
    ensures |o| == 3
  {
    [p * 4 + q / 16, q % 16 * 16 + r / 4, r % 4 * 64 + s]
  }

  lemma GroupUngroup(a: Octet, b: Octet, c: Octet)
    ensures Ungroup(a / 4, a % 4 * 16 + b / 16, b % 16 * 4 + c / 64, c % 64) == [a, b, c]
  {
    var q, r := a % 4 * 16 + b / 16, b % 16 * 4 + c / 64;
    assert q / 16 == a % 4 && q % 16 == b / 16;
    assert r / 4 == b % 16 && r % 4 == c / 64;
  }

  lemma UngroupGroup(p: nat, q: nat, r: nat, s: nat)
    requires p < 64 && q < 64 && r < 64 && s < 64
    ensures var o := Ungroup(p, q, r, s);
            Group(o[0], o[1], o[2]) == [Letter(p), Letter(q), Letter(r), Letter(s)]
  {
    hide Letter;
    var o := Ungroup(p, q, r, s);
    assert o[0] / 4 == p;
    assert o[0] % 4 * 16 + o[1] / 16 == q;
    assert o[1] % 16 * 4 + o[2] / 64 == r;
  }

  /** The last group, of one or two octets. */
  lemma TailDecodeEncode(bytes: seq<Octet>, pad: bool)
    requires 1 <= |bytes| <= 2
    ensures Canonical(Encode(bytes, pad), pad)
    ensures Decode(Encode(bytes, pad), pad) == bytes
  {
    hide Letter, Sextet, Ungroup;
    var text := Encode(bytes, pad);
    var a, b := bytes[0], if |bytes| == 2 then bytes[1] else 0;
    GroupUngroup(a, b, 0);
    SextetLetter(a / 4);
    SextetLetter(a % 4 * 16 + b / 16);
    SextetLetter(b % 16 * 4);
    if |bytes| == 1 {
      assert Tail2(text, pad);
    } else {
      assert text[2..][0] == Letter(b % 16 * 4) != '=';
      assert Tail3(text, pad) && !Tail2(text, pad);
    }
  }

  /** A full group in front of a canonical text. */
  lemma GroupDecodeEncode(p: nat, q: nat, r: nat, s: nat, rest: string, pad: bool)
    requires p < 64 && q < 64 && r < 64 && s < 64 && Canonical(rest, pad)
    ensures var text := [Letter(p), Letter(q), Letter(r), Letter(s)] + rest;
            Canonical(text, pad) && Decode(text, pad) == Ungroup(p, q, r, s) + Decode(rest, pad)
  {
    hide Letter, Sextet, Ungroup;
    var text := [Letter(p), Letter(q), Letter(r), Letter(s)] + rest;
    SextetLetter(p);
    SextetLetter(q);
    SextetLetter(r);
    SextetLetter(s);
    assert text[4..] == rest;
    assert text[2..][0] == text[2] != '=' && text[3..][0] == text[3] != '=';
    assert !Tail2(text, pad) && !Tail3(text, pad);
  }

  /** Encoding is canonical and reads back, padded or not. */
  lemma {:induction false} DecodeEncode(bytes: seq<Octet>, pad: bool)
    ensures Canonical(Encode(bytes, pad), pad)
    ensures Decode(Encode(bytes, pad), pad) == bytes
  {
    hide Letter, Sextet, Ungroup;
    if 1 <= |bytes| <= 2 {
      TailDecodeEncode(bytes, pad);
    } else if |bytes| >= 3 {
      var a, b, c := bytes[0], bytes[1], bytes[2];
      DecodeEncode(bytes[3..], pad);
      GroupUngroup(a, b, c);
      GroupDecodeEncode(a / 4, a % 4 * 16 + b / 16, b % 16 * 4 + c / 64, c % 64, Encode(bytes[3..], pad), pad);
      assert bytes == [a, b, c] + bytes[3..];
    }
  }

  lemma TailEncodeDecode(text: string, pad: bool)
    requires Tail2(text, pad) || Tail3(text, pad)
    ensures Encode(Decode(text, pad), pad) == text
  {
    hide Letter, Sextet, Group, Ungroup;
    var p, q, r := Value(text, 0), Value(text, 1), if Tail2(text, pad) then 0 else Value(text, 2);
    var o := Ungroup(p, q, r, 0);
    UngroupGroup(p, q, r, 0);
    UngroupTail(p, q, r);
    if Tail2(text, pad) {
      assert text == [Letter(p), Letter(q)] + text[2..];
    } else {
      assert text == [Letter(p), Letter(q), Letter(r)] + text[3..];
    }
  }

  /** Unused bits of a final group are zero on both sides. */
  lemma UngroupTail(p: nat, q: nat, r: nat)
    requires p < 64 && q < 64 && r < 64
    ensures var o := Ungroup(p, q, r, 0);
            (r % 4 == 0 ==> o[2] == 0) && (r == 0 && q % 16 == 0 ==> o[1] == 0)
  {
  }

  lemma EncodeGroup(o: seq<Octet>, bytes: seq<Octet>, pad: bool)
    requires |o| == 3
    ensures Encode(o + bytes, pad) == Group(o[0], o[1], o[2]) + Encode(bytes, pad)
  {
    hide Letter, Group;
    assert (o + bytes)[3..] == bytes;
  }

  /** Every canonical text is the encoding of what it reads as. */
  lemma {:induction false} EncodeDecode(text: string, pad: bool)
    requires Canonical(text, pad)
    ensures Encode(Decode(text, pad), pad) == text
  {
    hide Letter, Sextet, Group, Ungroup;
    if Tail2(text, pad) || Tail3(text, pad) {
      TailEncodeDecode(text, pad);
    } else if text != "" {
      var p, q, r, s := Value(text, 0), Value(text, 1), Value(text, 2), Value(text, 3);
      EncodeDecode(text[4..], pad);
      UngroupGroup(p, q, r, s);
      EncodeGroup(Ungroup(p, q, r, s), Decode(text[4..], pad), pad);
      assert text == [text[0], text[1], text[2], text[3]] + text[4..];
    }
  }

  /** What is asked of a decoder that is not this one: it inverts the encoder. */
  ghost predicate Inverts(dec: (string, bool) -> seq<Octet>) {
    forall bytes, pad :: dec(Encode(bytes, pad), pad) == bytes
  }

  lemma DecodeInverts()
    ensures Inverts(Decode)
  {
    forall bytes, pad ensures Decode(Encode(bytes, pad), pad) == bytes {
      DecodeEncode(bytes, pad);
    }
  }

  /** However lenient a decoder is, re-encoding what it read accepts exactly
      the canonical texts, and then the octets read are the only ones. */
  lemma ReencodeCheck(dec: (string, bool) -> seq<Octet>, text: string, pad: bool)
    requires Inverts(dec)
    ensures Encode(dec(text, pad), pad) == text <==> Canonical(text, pad)
    ensures Canonical(text, pad) ==> dec(text, pad) == Decode(text, pad)
  {
    if Canonical(text, pad) {
      EncodeDecode(text, pad);
    } else {
      DecodeEncode(dec(text, pad), pad);
    }
  }
}
