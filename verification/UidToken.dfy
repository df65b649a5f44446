/** The UID a FETCH line carries ahead of its body literal. */
module UidToken {
  import opened Octets

  predicate IsLetter(b: Octet) {
    65 <= b <= 90 || 97 <= b <= 122
  }

  predicate IsAlphanumeric(b: Octet) {
    IsDigit(b) || IsLetter(b)
  }

  /** Equality with an upper-case letter, ignoring case. */
  predicate IsCase(b: Octet, upper: Octet) {
    b == upper || b == upper + 32
  }

  /** `UID` at `i`, in any case, not the end of a longer word. */
  predicate WordAt(line: seq<Octet>, i: nat) {
    i + 3 <= |line|
    && IsCase(line[i], 85) && IsCase(line[i + 1], 73) && IsCase(line[i + 2], 68)
    && (i == 0 || !IsAlphanumeric(line[i - 1]))
  }

  lemma AlphanumericMeaning(b: Octet)
    ensures IsAlphanumeric(b) <==>
            (b as char in "0123456789" || b as char in "ABCDEFGHIJKLMNOPQRSTUVWXYZ" || b as char in "abcdefghijklmnopqrstuvwxyz")
  {
  }

  /** The word in any case, with no letter or digit before it. */
  lemma WordMeaning(line: seq<Octet>, i: nat)
    requires i + 3 <= |line|
    ensures WordAt(line, i) <==>
            (line[i] as char in "Uu" && line[i + 1] as char in "Ii" && line[i + 2] as char in "Dd"
             && (i > 0 ==> !IsAlphanumeric(line[i - 1])))
  {
    hide IsAlphanumeric;
  }

  function SkipSpaces(line: seq<Octet>, j: nat): (k: nat)
    requires j <= |line|
    ensures j <= k <= |line|
    ensures forall m :: j <= m < k ==> line[m] == SP
    ensures k < |line| ==> line[k] != SP
    decreases |line| - j
  {
    if j < |line| && line[j] == SP then SkipSpaces(line, j + 1) else j
  }

  /** The digits after the word at `i`, when spaces and digits do follow it. */
  function DigitsAt(line: seq<Octet>, i: nat): (d: seq<Octet>)
    ensures AllDigits(d)
  {
    if !WordAt(line, i) then []
    else
      var start := SkipSpaces(line, i + 3);
      if start == i + 3 then [] else line[start..SkipDigits(line, start)]
  }

  /** A match: the word, at least one space, at least one digit. */
  predicate MatchAt(line: seq<Octet>, i: nat) {
    DigitsAt(line, i) != []
  }

  /** `m` is the leftmost match of `line`. */
  ghost predicate Leftmost(line: seq<Octet>, m: nat) {
    MatchAt(line, m) && forall k: nat :: k < m ==> !MatchAt(line, k)
  }

  /** The leftmost match decides, even when its digits overflow. */
  function Uid(line: seq<Octet>): (r: Option<nat>)
    ensures (exists m: nat :: Leftmost(line, m)) ==>
              forall m: nat | Leftmost(line, m) :: r == ParseU32(DigitsAt(line, m))
    ensures (forall m: nat :: !MatchAt(line, m)) ==> r == None
    ensures r.Some? ==> r.value < U32_LIMIT
  {
    UidFrom(line, 0)
  }

  function UidFrom(line: seq<Octet>, i: nat): (r: Option<nat>)
    requires forall k: nat :: k < i ==> !MatchAt(line, k)
    ensures forall m: nat | Leftmost(line, m) :: r == ParseU32(DigitsAt(line, m))
    ensures (forall m: nat :: !MatchAt(line, m)) ==> r == None
    ensures r.Some? ==> r.value < U32_LIMIT
    decreases |line| - i
  {
    if i + 3 > |line| then
      assert forall m: nat :: m >= i ==> !MatchAt(line, m);
      None
    else if MatchAt(line, i) then ParseU32(DigitsAt(line, i))
    else UidFrom(line, i + 1)
  }

  lemma MatchMeaning(line: seq<Octet>, i: nat)
    ensures !WordAt(line, i) ==> !MatchAt(line, i)
    ensures WordAt(line, i) ==>
              var start := SkipSpaces(line, i + 3);
              var end := SkipDigits(line, start);
              (MatchAt(line, i) <==> i + 3 < start < end)
              && (MatchAt(line, i) ==> DigitsAt(line, i) == line[start..end])
  {
  }

  method ParseUid(line: seq<Octet>) returns (r: Option<nat>)
    ensures r == Uid(line)
  {
    hide Uid, DigitsAt;
    var i := 0;
    while i + 3 <= |line|
      invariant forall k: nat :: k < i ==> !MatchAt(line, k)
    {
      MatchMeaning(line, i);
      var isUid := IsCase(line[i], 85) && IsCase(line[i + 1], 73) && IsCase(line[i + 2], 68);
      var boundaryLeft := i == 0 || !IsAlphanumeric(line[i - 1]);
      if isUid && boundaryLeft {
        var j := i + 3;
        var sawSpace := false;
        while j < |line| && line[j] == SP
          invariant i + 3 <= j <= |line|
          invariant sawSpace <==> j > i + 3
          invariant SkipSpaces(line, i + 3) == SkipSpaces(line, j)
        {
          j := j + 1;
          sawSpace := true;
        }
        var start := j;
        while j < |line| && IsDigit(line[j])
          invariant start <= j <= |line|
          invariant SkipDigits(line, start) == SkipDigits(line, j)
        {
          j := j + 1;
        }
        if sawSpace && j > start {
          assert Leftmost(line, i);
          return ParseU32(line[start..j]);
        }
      }
      i := i + 1;
    }
    forall k: nat | k >= i ensures !MatchAt(line, k) {
      MatchMeaning(line, k);
    }
    return None;
  }

  /** A word in front of a space and digits, none before it, gives its number. */
  lemma UidAt(line: seq<Octet>, m: nat, end: nat)
    requires forall k :: 0 <= k < m && k < |line| ==> !IsCase(line[k], 85)
    requires m + 4 < end <= |line| && WordAt(line, m) && line[m + 3] == SP
    requires AllDigits(line[m + 4..end]) && (end < |line| ==> !IsDigit(line[end]))
    ensures Uid(line) == ParseU32(line[m + 4..end])
  {
    hide Uid;
    assert DigitsAt(line, m) == line[m + 4..end] by {
      assert line[m + 4] == line[m + 4..end][0];
      assert SkipSpaces(line, m + 3) == m + 4;
      DigitsEnd(line, m + 4, end);
    }
    assert Leftmost(line, m) by {
      hide SkipSpaces, SkipDigits;
      forall k: nat | k < m ensures !MatchAt(line, k) {
        assert !WordAt(line, k);
      }
    }
  }

  /** The header line of one body: `* n FETCH (UID u BODY[] {len}`. */
  function HeaderLine(n: nat, u: nat, len: nat): seq<Octet> {
    Ascii("* ") + Decimal(n) + Ascii(" FETCH (") + Ascii("UID ") + Decimal(u)
    + (Ascii(" BODY[] {") + Decimal(len) + Ascii("}") + [13, 10])
  }

  /** Every rendered header gives its UID back, or nothing past 32 bits. */
  lemma UidOfHeader(n: nat, u: nat, len: nat)
    ensures Uid(HeaderLine(n, u, len)) == if u < U32_LIMIT then Some(u) else None
  {
    hide Uid, Decimal, WordAt, AllDigits;
    var num, digits := Decimal(n), Decimal(u);
    var before := Ascii("* ") + num + Ascii(" FETCH (");
    var word := Ascii("UID ");
    var after := Ascii(" BODY[] {") + Decimal(len) + Ascii("}") + [13, 10];
    var line, m, end := HeaderLine(n, u, len), |before|, |before| + 4 + |digits|;
    assert line == before + word + digits + after;
    DecimalDigits(n);
    DecimalDigits(u);
    BeforeUid(num);
    assert line[..m] == before && line[m..m + 4] == word && line[m + 4..end] == digits && line[end..] == after;
    WordInHeader(line, m);
    assert line[end] == line[end..][0] == after[0] == Ascii(" BODY[] {")[0];
    UidAt(line, m, end);
  }

  /** Nothing before the token reads as the beginning of one. */
  lemma BeforeUid(num: seq<Octet>)
    requires AllDigits(num)
    ensures var before := Ascii("* ") + num + Ascii(" FETCH (");
            before[|before| - 1] == 40 && forall k :: 0 <= k < |before| ==> !IsCase(before[k], 85)
  {
    assert Ascii("* ") == [42, 32] && Ascii(" FETCH (") == [32, 70, 69, 84, 67, 72, 32, 40];
    var before := Ascii("* ") + num + Ascii(" FETCH (");
    forall k | 0 <= k < |before| ensures !IsCase(before[k], 85) {
      if 2 <= k < 2 + |num| {
        assert before[k] == num[k - 2];
      }
    }
  }

  lemma WordInHeader(line: seq<Octet>, m: nat)
    requires 0 < m <= m + 4 <= |line| && line[m - 1] == 40 && line[m..m + 4] == Ascii("UID ")
    ensures WordAt(line, m) && line[m + 3] == SP
  {
    var word := line[m..m + 4];
    assert word == Ascii("UID ") == [85, 73, 68, 32];
    assert line[m] == word[0] && line[m + 1] == word[1] && line[m + 2] == word[2] && line[m + 3] == word[3];
  }
}
