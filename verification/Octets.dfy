/** Octets, optional values and the decimal notation shared by the wire formats. */
module Octets {

  datatype Option<+T> = None | Some(value: T)

  type Octet = x: int | 0 <= x < 256

  const LF: Octet := 10
  const SP: Octet := 32
  const U32_LIMIT: nat := 0x1_0000_0000

  /** ASCII text as octets. */
  function Ascii(s: string): (b: seq<Octet>)
    ensures |b| == |s|
  {
    seq(|s|, i requires 0 <= i < |s| => s[i] as int % 256)
  }

  predicate IsDigit(b: Octet) {
    48 <= b <= 57
  }

  ghost predicate AllDigits(s: seq<Octet>) {
    forall i :: 0 <= i < |s| ==> IsDigit(s[i])
  }

  /** The position of the first `b` in `s`, or `|s|` when there is none. */
  function IndexOf(s: seq<Octet>, b: Octet): (i: nat)
    ensures i <= |s|
    ensures forall k :: 0 <= k < i ==> s[k] != b
    ensures i < |s| ==> s[i] == b
  {
    if s == [] || s[0] == b then 0 else 1 + IndexOf(s[1..], b)
  }

  lemma IndexOfUnique(s: seq<Octet>, b: Octet, i: nat)
    requires i <= |s|
    requires forall k :: 0 <= k < i ==> s[k] != b
    requires i < |s| ==> s[i] == b
    ensures IndexOf(s, b) == i
  {
    var j := IndexOf(s, b);
  }

  /** Octets still to come cannot move a match already buffered. */
  lemma IndexOfAppend(s: seq<Octet>, t: seq<Octet>, b: Octet)
    requires IndexOf(s, b) < |s|
    ensures IndexOf(s + t, b) == IndexOf(s, b)
  {
    IndexOfUnique(s + t, b, IndexOf(s, b));
  }

  /** Splits at every `sep`, keeping empty fields, as `slice::split` does. */
  function Split(s: seq<Octet>, sep: Octet): (fields: seq<seq<Octet>>)
    ensures |fields| >= 1
  {
    var i := IndexOf(s, sep);
    if i == |s| then [s] else [s[..i]] + Split(s[i + 1..], sep)
  }

  /** Joins fields with `sep`, the inverse of `Split` on fields free of `sep`. */
  function Join(fields: seq<seq<Octet>>, sep: Octet): seq<Octet> {
    if fields == [] then []
    else if |fields| == 1 then fields[0]
    else fields[0] + [sep] + Join(fields[1..], sep)
  }

  lemma {:induction false} JoinSplit(s: seq<Octet>, sep: Octet)
    ensures Join(Split(s, sep), sep) == s
    ensures forall f :: f in Split(s, sep) ==> sep !in f
    decreases |s|
  {
    var i := IndexOf(s, sep);
    if i < |s| {
      JoinSplit(s[i + 1..], sep);
      var tail := Split(s[i + 1..], sep);
      assert Split(s, sep)[1..] == tail;
      assert s == s[..i] + [sep] + s[i + 1..];
    }
  }

  lemma SplitField(head: seq<Octet>, tail: seq<Octet>, sep: Octet)
    requires sep !in head
    ensures Split(head, sep) == [head]
    ensures Split(head + [sep] + tail, sep) == [head] + Split(tail, sep)
  {
    var s := head + [sep] + tail;
    IndexOfUnique(head, sep, |head|);
    IndexOfUnique(s, sep, |head|);
    assert s[..|head|] == head && s[|head| + 1..] == tail;
  }

  lemma {:induction false} SplitJoin(fields: seq<seq<Octet>>, sep: Octet)
    requires |fields| >= 1
    requires forall f :: f in fields ==> sep !in f
    ensures Split(Join(fields, sep), sep) == fields
  {
    hide Split;
    assert fields[0] in fields;
    if |fields| == 1 {
      SplitField(fields[0], [], sep);
    } else {
      SplitField(fields[0], Join(fields[1..], sep), sep);
      SplitJoin(fields[1..], sep);
    }
  }

  /** Decimal notation without leading zeros. */
  function Decimal(n: nat): (s: seq<Octet>)
    ensures |s| >= 1
  {
    if n < 10 then [48 + n] else Decimal(n / 10) + [48 + n % 10]
  }

  /** The number a run of digits denotes, leading zeros included. */
  function DecimalValue(s: seq<Octet>): nat
    requires AllDigits(s)
  {
    if s == [] then 0 else DecimalValue(s[..|s| - 1]) * 10 + (s[|s| - 1] - 48)
  }

  lemma {:induction false} DecimalDigits(n: nat)
    ensures AllDigits(Decimal(n))
    ensures DecimalValue(Decimal(n)) == n
    ensures n > 0 ==> Decimal(n)[0] != 48
  {
    if n >= 10 {
      DecimalDigits(n / 10);
      var s := Decimal(n);
      assert s[..|s| - 1] == Decimal(n / 10);
    }
  }

  function Power10(n: nat): (p: nat)
    ensures p > 0
  {
    if n == 0 then 1 else 10 * Power10(n - 1)
  }

  /** A digit counts ten times for each digit after it. */
  lemma {:induction false} DecimalPlaces(d: Octet, rest: seq<Octet>)
    requires IsDigit(d) && AllDigits(rest)
    ensures DecimalValue([d] + rest) == (d as int - 48) * Power10(|rest|) + DecimalValue(rest)
  {
    var s := [d] + rest;
    if rest == [] {
      assert s[..0] == [] && DecimalValue(s[..0]) == 0;
    } else {
      var init := rest[..|rest| - 1];
      assert s[..|s| - 1] == [d] + init;
      DecimalPlaces(d, init);
      TimesTen(d as int - 48, Power10(|init|), DecimalValue(init), rest[|rest| - 1] as int - 48);
    }
  }

  lemma TimesTen(k: int, p: int, v: int, last: int)
    ensures (k * p + v) * 10 + last == k * (10 * p) + (v * 10 + last)
  {
  }

  /** A digit run without a leading zero is the notation of its own value. */
  lemma {:induction false} DecimalOfValue(s: seq<Octet>)
    requires AllDigits(s) && s != [] && s[0] != 48
    ensures DecimalValue(s) > 0
    ensures Decimal(DecimalValue(s)) == s
  {
    var init, digit := s[..|s| - 1], s[|s| - 1] - 48;
    assert s == init + [48 + digit];
    if init == [] {
      assert DecimalValue(s) == digit;
    } else {
      DecimalOfValue(init);
      var n := DecimalValue(init);
      assert DecimalValue(s) == n * 10 + digit >= 10;
      assert (n * 10 + digit) / 10 == n && (n * 10 + digit) % 10 == digit;
    }
  }

  lemma DecimalInjective(m: nat, n: nat)
    requires Decimal(m) == Decimal(n)
    ensures m == n
  {
    DecimalDigits(m);
    DecimalDigits(n);
  }

  /** The end of the run of digits that starts at `j`. */
  function SkipDigits(line: seq<Octet>, j: nat): (k: nat)
    requires j <= |line|
    ensures j <= k <= |line|
    ensures forall m :: j <= m < k ==> IsDigit(line[m])
    ensures k < |line| ==> !IsDigit(line[k])
    decreases |line| - j
  {
    if j < |line| && IsDigit(line[j]) then SkipDigits(line, j + 1) else j
  }

  lemma {:induction false} DigitsEnd(line: seq<Octet>, start: nat, end: nat)
    requires start <= end <= |line| && AllDigits(line[start..end])
    requires end < |line| ==> !IsDigit(line[end])
    ensures SkipDigits(line, start) == end
    decreases end - start
  {
    if start < end {
      assert line[start] == line[start..end][0];
      assert line[start + 1..end] == line[start..end][1..];
      DigitsEnd(line, start + 1, end);
    }
  }

  /** `str::parse::<u32>` on a non-empty digit run. */
  function ParseU32(s: seq<Octet>): Option<nat>
    requires AllDigits(s)
  {
    if s == [] || DecimalValue(s) >= U32_LIMIT then None else Some(DecimalValue(s))
  }

  lemma MultisetFirst<T>(s: seq<T>)
    requires s != []
    ensures multiset(s) == multiset{s[0]} + multiset(s[1..])
  {
    assert s == [s[0]] + s[1..];
  }

  /** Sequences with equal first elements and equal multisets have equal
      multisets after the first. */
  lemma MultisetRest<T>(s: seq<T>, t: seq<T>)
    requires s != [] && t != [] && s[0] == t[0] && multiset(s) == multiset(t)
    ensures multiset(s[1..]) == multiset(t[1..])
  {
    MultisetFirst(s);
    MultisetFirst(t);
    assert multiset(s[1..]) == multiset(s) - multiset{s[0]} == multiset(t[1..]);
  }

  lemma SplitAt<T>(s: seq<T>, i: nat)
    requires i < |s|
    ensures s == s[..i] + [s[i]] + s[i + 1..]
  {
  }

  lemma Associative<T>(a: seq<T>, b: seq<T>, c: seq<T>)
    ensures a + b + c == a + (b + c)
  {
  }

  /** The parts of a stream, end to end. */
  function Concat<T>(parts: seq<seq<T>>): seq<T> {
    if parts == [] then [] else parts[0] + Concat(parts[1..])
  }

  lemma ConcatCons<T>(part: seq<T>, parts: seq<seq<T>>)
    ensures Concat([part] + parts) == part + Concat(parts)
  {
    assert ([part] + parts)[1..] == parts;
  }

  lemma ConcatOne<T>(part: seq<T>)
    ensures Concat([part]) == part
  {
    ConcatCons(part, []);
    assert [part] + [] == [part];
  }

  lemma {:induction false} ConcatAppend<T>(a: seq<seq<T>>, b: seq<seq<T>>)
    ensures Concat(a + b) == Concat(a) + Concat(b)
  {
    if a == [] {
      assert a + b == b;
    } else {
      ConcatAppend(a[1..], b);
      assert a + b == [a[0]] + (a[1..] + b);
      ConcatCons(a[0], a[1..] + b);
      Associative(a[0], Concat(a[1..]), Concat(b));
    }
  }
}
