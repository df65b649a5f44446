/** UTF-16, most significant octet first, and its lossy reading. */
module Utf16 {
  import opened Octets

  type Unit = x: int | 0 <= x < 0x1_0000

  const REPLACEMENT: char := '\U{FFFD}'

  predicate High(u: Unit) {
    0xD800 <= u < 0xDC00
  }

  predicate Low(u: Unit) {
    0xDC00 <= u < 0xE000
  }

  function EncodeChar(c: char): (units: seq<Unit>)
    ensures 1 <= |units| <= 2
  {
    var cp := c as int;
    if cp < 0x1_0000 then [cp]
    else [0xD800 + (cp - 0x1_0000) / 1024, 0xDC00 + (cp - 0x1_0000) % 1024]
  }

  function Encode(s: string): seq<Unit> {
    if s == "" then [] else EncodeChar(s[0]) + Encode(s[1..])
  }

  /** An unpaired surrogate reads as the replacement character. */
  function DecodeLossy(units: seq<Unit>): string {
    if units == [] then ""
    else if !High(units[0]) && !Low(units[0]) then [units[0] as char] + DecodeLossy(units[1..])
    else if Paired(units) then [Combine(units[0], units[1])] + DecodeLossy(units[2..])
    else [REPLACEMENT] + DecodeLossy(units[1..])
  }

  predicate Paired(units: seq<Unit>) {
    |units| >= 2 && High(units[0]) && Low(units[1])
  }

  function Combine(high: Unit, low: Unit): char
    requires High(high) && Low(low)
  {
    (0x1_0000 + (high - 0xD800) * 1024 + (low - 0xDC00)) as char
  }

  /** Every surrogate is half of a pair. */
  predicate WellFormed(units: seq<Unit>) {
    if units == [] then true
    else if !High(units[0]) && !Low(units[0]) then WellFormed(units[1..])
    else Paired(units) && WellFormed(units[2..])
  }

  /** Section 2.1 of RFC 2781: a character beyond the first plane is the ten upper
      and the ten lower bits of what it exceeds it by. */
  lemma EncodeCharMeaning(c: char)
    ensures var us := EncodeChar(c);
            if c as int < 0x1_0000 then us == [c as int]
            else
              |us| == 2 && 0xD800 <= us[0] < 0xDC00 && 0xDC00 <= us[1] < 0xE000
              && var hi: int, lo: int := us[0], us[1];
                 c as int == 0x1_0000 + (hi - 0xD800) * 0x400 + (lo - 0xDC00)
  {
  }

  lemma CharUnits(c: char)
    ensures var us := EncodeChar(c);
            if |us| == 1 then !High(us[0]) && !Low(us[0]) && us[0] as char == c
            else Paired(us) && Combine(us[0], us[1]) == c
  {
  }

  lemma UnitsChar(u: Unit)
    requires !High(u) && !Low(u)
    ensures EncodeChar(u as char) == [u]
  {
  }

  lemma PairChar(high: Unit, low: Unit)
    requires High(high) && Low(low)
    ensures EncodeChar(Combine(high, low)) == [high, low]
  {
  }

  lemma EncodeOne(c: char)
    ensures Encode([c]) == EncodeChar(c)
  {
    hide EncodeChar;
    assert [c][1..] == "";
  }

  lemma {:induction false} DecodeEncode(s: string)
    ensures WellFormed(Encode(s))
    ensures DecodeLossy(Encode(s)) == s
  {
    hide EncodeChar, Combine;
    if s != "" {
      var us := Encode(s);
      var head := EncodeChar(s[0]);
      CharUnits(s[0]);
      assert us[|head|..] == Encode(s[1..]);
      DecodeEncode(s[1..]);
      assert s == [s[0]] + s[1..];
    }
  }

  /** Decoding is lossless exactly when every surrogate is half of a pair. */
  lemma {:induction false} EncodeDecode(units: seq<Unit>)
    ensures Encode(DecodeLossy(units)) == units <==> WellFormed(units)
  {
    hide EncodeChar, Combine;
    DecodeEncode(DecodeLossy(units));
    if WellFormed(units) && units != [] {
      if Paired(units) {
        PairChar(units[0], units[1]);
        EncodeDecode(units[2..]);
        assert DecodeLossy(units)[1..] == DecodeLossy(units[2..]);
        assert units == [units[0], units[1]] + units[2..];
      } else {
        UnitsChar(units[0]);
        EncodeDecode(units[1..]);
        assert DecodeLossy(units)[1..] == DecodeLossy(units[1..]);
        assert units == [units[0]] + units[1..];
      }
    }
  }

  /** A surrogate that is no half of a pair decodes to the replacement character. */
  lemma {:induction false} LoneSurrogate(s: string, u: Unit, rest: seq<Unit>)
    requires High(u) || Low(u)
    requires High(u) && rest != [] ==> !Low(rest[0])
    ensures DecodeLossy(Encode(s) + [u] + rest) == s + "\U{FFFD}" + DecodeLossy(rest)
  {
    hide EncodeChar, Combine;
    var us := Encode(s) + [u] + rest;
    if s == "" {
      assert us == [u] + rest && us[1..] == rest;
    } else {
      var head := EncodeChar(s[0]);
      CharUnits(s[0]);
      assert us[|head|..] == Encode(s[1..]) + [u] + rest;
      LoneSurrogate(s[1..], u, rest);
      assert us[..|head|] == head;
      assert s == [s[0]] + s[1..];
    }
  }

  lemma {:induction false} EncodeAppend(s: string, t: string)
    ensures Encode(s + t) == Encode(s) + Encode(t)
  {
    hide EncodeChar;
    if s == "" {
      assert s + t == t;
    } else {
      EncodeAppend(s[1..], t);
      assert (s + t)[1..] == s[1..] + t;
      Associative(EncodeChar(s[0]), Encode(s[1..]), Encode(t));
    }
  }

  function BigEndian(units: seq<Unit>): (bytes: seq<Octet>)
    ensures |bytes| == 2 * |units|
  {
    if units == [] then [] else ToBe(units[0]) + BigEndian(units[1..])
  }

  function ToBe(u: Unit): (bytes: seq<Octet>)
    ensures |bytes| == 2
  {
    [u / 256, u % 256]
  }

  /** Each unit is two octets, the higher one first. */
  lemma {:induction false} BigEndianMeaning(units: seq<Unit>, i: nat)
    requires i < |units|
    ensures |BigEndian(units)| == 2 * |units|
    ensures var high: int := BigEndian(units)[2 * i]; high * 256 + BigEndian(units)[2 * i + 1] == units[i]
  {
    if |units| > 1 {
      BigEndianMeaning(units[1..], if i > 0 then i - 1 else 0);
    }
  }

  function Pairs(bytes: seq<Octet>): (units: seq<Unit>)
    requires |bytes| % 2 == 0
    ensures 2 * |units| == |bytes|
  {
    if bytes == [] then [] else [bytes[0] as int * 256 + bytes[1] as int] + Pairs(bytes[2..])
  }

  lemma {:induction false} PairsBigEndian(units: seq<Unit>)
    ensures Pairs(BigEndian(units)) == units
  {
    if units != [] {
      PairsBigEndian(units[1..]);
      assert BigEndian(units)[2..] == BigEndian(units[1..]);
    }
  }

  lemma {:induction false} BigEndianPairs(bytes: seq<Octet>)
    requires |bytes| % 2 == 0
    ensures BigEndian(Pairs(bytes)) == bytes
  {
    if bytes != [] {
      BigEndianPairs(bytes[2..]);
      assert Pairs(bytes)[1..] == Pairs(bytes[2..]);
    }
  }

  lemma {:induction false} BigEndianAppend(us: seq<Unit>, vs: seq<Unit>)
    ensures BigEndian(us + vs) == BigEndian(us) + BigEndian(vs)
  {
    hide ToBe;
    if us == [] {
      assert us + vs == vs;
    } else {
      BigEndianAppend(us[1..], vs);
      assert (us + vs)[1..] == us[1..] + vs;
      Associative(ToBe(us[0]), BigEndian(us[1..]), BigEndian(vs));
    }
  }

  function ToBytes(s: string): (bytes: seq<Octet>)
    ensures |bytes| % 2 == 0
  {
    BigEndian(Encode(s))
  }

  function FromBytes(bytes: seq<Octet>): string
    requires |bytes| % 2 == 0
  {
    DecodeLossy(Pairs(bytes))
  }

  lemma ToBytesOne(c: char)
    ensures ToBytes([c]) == BigEndian(EncodeChar(c))
  {
    hide BigEndian;
    EncodeOne(c);
  }

  lemma ToBytesAppend(s: string, t: string)
    ensures ToBytes(s + t) == ToBytes(s) + ToBytes(t)
  {
    EncodeAppend(s, t);
    BigEndianAppend(Encode(s), Encode(t));
  }

  lemma FromToBytes(s: string)
    ensures FromBytes(ToBytes(s)) == s
    ensures WellFormed(Pairs(ToBytes(s)))
    ensures ToBytes(s) == [] <==> s == ""
  {
    PairsBigEndian(Encode(s));
    DecodeEncode(s);
  }

  lemma ToFromBytes(bytes: seq<Octet>)
    requires |bytes| % 2 == 0 && WellFormed(Pairs(bytes))
    ensures ToBytes(FromBytes(bytes)) == bytes
  {
    EncodeDecode(Pairs(bytes));
    BigEndianPairs(bytes);
  }
}
