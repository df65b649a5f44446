/** The UID mapping a COPY or a MOVE answers with, and the lenient reader for
    the form whose UIDVALIDITY is 0. */
module CopyUid {
  import opened Octets
  import opened Ids

  const COMMA: Octet := 44
  const COLON: Octet := 58
  const KEYWORD: seq<Octet> := [67, 79, 80, 89, 85, 73, 68]

  datatype Element = Single(uid: Id) | Range(start: Id, end: Id)

  /** A non-empty uid-set, section 4 of RFC 4315. */
  type UidSet = es: seq<Element> | es != [] witness [Single(1)]

  /** A COPYUID as written; the UIDVALIDITY is 0 or a UIDVALIDITY proper. */
  datatype Triple = Triple(uidValidity: nat, source: UidSet, destination: UidSet)

  datatype Mapping = Mapping(uidValidity: nat, source: seq<Id>, destination: seq<Id>)

  /** The response code of the answer: read by the strict grammar, left unread,
      or something else. */
  datatype Code = Strict(uidValidity: Id, source: UidSet, destination: UidSet) | Unread(text: seq<Octet>) | Unrelated

  // ------------------------------------------------------------ the notation

  function ElementText(e: Element): seq<Octet> {
    match e
    case Single(uid) => Decimal(uid)
    case Range(start, end) => Decimal(start) + [COLON] + Decimal(end)
  }

  function Texts(es: seq<Element>): (texts: seq<seq<Octet>>)
    ensures |texts| == |es|
    ensures forall i :: 0 <= i < |es| ==> texts[i] == ElementText(es[i])
  {
    seq(|es|, i requires 0 <= i < |es| => ElementText(es[i]))
  }

  function SetText(es: UidSet): seq<Octet> {
    Join(Texts(es), COMMA)
  }

  function Lower(b: Octet): Octet {
    if 65 <= b <= 90 then b + 32 else b
  }

  /** The keyword, each letter in either case. */
  lemma KeywordMeaning(k: seq<Octet>)
    ensures KEYWORD == Ascii("COPYUID")
    ensures EqIgnoreCase(k, KEYWORD) <==>
            |k| == 7 && forall i :: 0 <= i < 7 ==> k[i] == Ascii("COPYUID")[i] || k[i] == Ascii("copyuid")[i]
  {
    assert Ascii("COPYUID") == KEYWORD;
    assert Ascii("copyuid") == [99, 111, 112, 121, 117, 105, 100];
    assert forall i :: 0 <= i < 7 ==> Ascii("copyuid")[i] == KEYWORD[i] + 32;
  }

  predicate EqIgnoreCase(a: seq<Octet>, b: seq<Octet>) {
    |a| == |b| && forall i :: 0 <= i < |a| ==> Lower(a[i]) == Lower(b[i])
  }

  /** The fields of a COPYUID whose keyword is spelt `keyword`. */
  function Fields(keyword: seq<Octet>, t: Triple): seq<seq<Octet>> {
    [keyword, Decimal(t.uidValidity), SetText(t.source), SetText(t.destination)]
  }

  /** `text` is a COPYUID for `t`, with its keyword in any case. */
  ghost predicate Denotes(text: seq<Octet>, t: Triple) {
    t.uidValidity < U32_LIMIT
    && exists keyword :: EqIgnoreCase(keyword, KEYWORD) && text == Join(Fields(keyword, t), SP)
  }

  // ------------------------------------------------------------- the readers

  /** `nz-number` of section 9 of RFC 3501, within 32 bits. */
  function NzNumber(s: seq<Octet>): Option<Id> {
    if s == [] || !(49 <= s[0] <= 57) || SkipDigits(s, 0) < |s| then None
    else if DecimalValue(s) == 0 || DecimalValue(s) >= U32_LIMIT then None
    else Some(DecimalValue(s))
  }

  lemma NzNumberExact(s: seq<Octet>, u: Id)
    ensures NzNumber(s) == Some(u) <==> s == Decimal(u)
  {
    hide Decimal, DecimalValue;
    DecimalDigits(u);
    if s == Decimal(u) {
      assert s[0] != 48 && IsDigit(s[0]);
    }
    if NzNumber(s).Some? {
      DecimalOfValue(s);
    }
  }

  lemma DecimalPlain(n: nat, sep: Octet)
    requires !IsDigit(sep)
    ensures sep !in Decimal(n)
  {
    DecimalDigits(n);
  }

  /** One element of a set. */
  function ReadElement(s: seq<Octet>): Option<Element> {
    var colon := IndexOf(s, COLON);
    if colon < |s| then
      var start, end := NzNumber(s[..colon]), NzNumber(s[colon + 1..]);
      if start.Some? && end.Some? then Some(Range(start.value, end.value)) else None
    else
      var uid := NzNumber(s);
      if uid.Some? then Some(Single(uid.value)) else None
  }

  lemma ReadElementExact(s: seq<Octet>, e: Element)
    ensures ReadElement(s) == Some(e) <==> s == ElementText(e)
  {
    hide NzNumber, Decimal;
    var colon := IndexOf(s, COLON);
    if colon < |s| {
      assert s == s[..colon] + [COLON] + s[colon + 1..];
    }
    match e
    case Single(uid) =>
      NzNumberExact(s, uid);
      DecimalPlain(uid, COLON);
    case Range(start, end) =>
      DecimalPlain(start, COLON);
      if s == ElementText(e) {
        IndexOfUnique(s, COLON, |Decimal(start)|);
      }
      if colon < |s| {
        NzNumberExact(s[..colon], start);
        NzNumberExact(s[colon + 1..], end);
      }
  }

  lemma ElementPlain(e: Element, sep: Octet)
    requires !IsDigit(sep) && sep != COLON
    ensures sep !in ElementText(e)
  {
    match e
    case Single(uid) => DecimalPlain(uid, sep);
    case Range(start, end) => DecimalPlain(start, sep); DecimalPlain(end, sep);
  }

  /** Splitting the notation of a set gives back its elements' notations. */
  lemma SplitSet(es: UidSet)
    ensures Split(SetText(es), COMMA) == Texts(es)
  {
    forall f | f in Texts(es) ensures COMMA !in f {
      var i :| 0 <= i < |es| && f == ElementText(es[i]);
      ElementPlain(es[i], COMMA);
    }
    SplitJoin(Texts(es), COMMA);
  }

  /** Reads a set exactly when the text is the notation of one. */
  method ReadUidSet(text: seq<Octet>) returns (r: Option<UidSet>)
    ensures forall es: UidSet :: r == Some(es) <==> text == SetText(es)
  {
    hide ElementText, ReadElement, Split, Join;
    forall f: seq<Octet>, e: Element ensures ReadElement(f) == Some(e) <==> f == ElementText(e) {
      ReadElementExact(f, e);
    }
    var elements: seq<Element> := [];
    var fields := Split(text, COMMA);
    forall es: UidSet ensures text == SetText(es) ==> fields == Texts(es) {
      SplitSet(es);
    }
    for i := 0 to |fields|
      invariant |elements| == i
      invariant forall k :: 0 <= k < i ==> fields[k] == ElementText(elements[k])
    {
      var element := ReadElement(fields[i]);
      if element.None? {
        assert forall es: UidSet :: i < |es| ==> Texts(es)[i] != fields[i];
        return None;
      }
      elements := elements + [element.value];
    }
    r := Some(elements);
    assert fields == Texts(elements);
    JoinSplit(text, COMMA);
    forall es: UidSet ensures text == SetText(es) ==> es == elements {
      if text == SetText(es) {
        forall k | 0 <= k < |es| ensures es[k] == elements[k] {
          assert ReadElement(fields[k]) == Some(es[k]) == Some(elements[k]);
        }
      }
    }
  }

  // ----------------------------------------------------------- the expansion

  function Low(e: Element): Id {
    match e case Single(uid) => uid case Range(a, b) => if a <= b then a else b
  }

  function High(e: Element): Id {
    match e case Single(uid) => uid case Range(a, b) => if a <= b then b else a
  }

  /** How many elements of a set name `u`. */
  function Times(es: seq<Element>, u: Id): nat {
    if es == [] then 0
    else Times(es[..|es| - 1], u) + if Low(es[|es| - 1]) <= u <= High(es[|es| - 1]) then 1 else 0
  }

  predicate Sorted(s: seq<Id>) {
    forall i, j :: 0 <= i < j < |s| ==> s[i] <= s[j]
  }

  /** An element counts for each UID it names, the ends of a range in either order. */
  lemma TimesMeaning(es: seq<Element>, e: Element, u: Id)
    ensures Times([], u) == 0
    ensures var named := match e case Single(v) => u == v case Range(a, b) => a <= u <= b || b <= u <= a;
            Times(es + [e], u) == Times(es, u) + if named then 1 else 0
  {
    assert (es + [e])[..|es|] == es;
  }

  ghost function Count(s: seq<Id>, u: Id): nat {
    multiset(s)[u]
  }

  /** In order, every UID as often as the set names it. */
  ghost predicate IsExpansion(s: seq<Id>, es: seq<Element>) {
    Sorted(s) && forall u: Id :: Count(s, u) == Times(es, u)
  }

  lemma SameFirst(s: seq<Id>, t: seq<Id>)
    requires s != [] && t != [] && Sorted(s) && Sorted(t) && multiset(s) == multiset(t)
    ensures s[0] == t[0]
  {
    assert s[0] in multiset(t) && t[0] in multiset(s);
    var i :| 0 <= i < |t| && t[i] == s[0];
    var j :| 0 <= j < |s| && s[j] == t[0];
  }

  /** Which leaves one sequence only. */
  lemma {:induction false} SortedUnique(s: seq<Id>, t: seq<Id>)
    requires Sorted(s) && Sorted(t) && multiset(s) == multiset(t)
    ensures s == t
  {
    hide Sorted;
    assert |s| == |multiset(s)| == |multiset(t)| == |t|;
    if s != [] {
      SameFirst(s, t);
      SortedHead(s);
      SortedHead(t);
      MultisetRest(s, t);
      SortedUnique(s[1..], t[1..]);
      assert s == [s[0]] + s[1..] && t == [t[0]] + t[1..];
    }
  }

  lemma ExpansionUnique(s: seq<Id>, t: seq<Id>, es: seq<Element>)
    requires IsExpansion(s, es) && IsExpansion(t, es)
    ensures s == t
  {
    assert multiset(s) == multiset(t) by {
      forall u: Id ensures Count(s, u) == Count(t, u) && multiset(s)[u] == multiset(t)[u] {
      }
    }
    SortedUnique(s, t);
  }

  function Insert(u: Id, s: seq<Id>): (r: seq<Id>)
    ensures forall v :: v in r ==> v == u || v in s
  {
    if s == [] || u <= s[0] then [u] + s else [s[0]] + Insert(u, s[1..])
  }

  lemma {:induction false} InsertSorted(u: Id, s: seq<Id>)
    requires Sorted(s)
    ensures Sorted(Insert(u, s))
    ensures multiset(Insert(u, s)) == multiset([u]) + multiset(s)
  {
    hide Sorted;
    if s == [] {
      SortedCons(u, []);
    } else if u <= s[0] {
      SortedHead(s);
      SortedCons(u, s);
    } else {
      var rest := Insert(u, s[1..]);
      SortedHead(s);
      InsertSorted(u, s[1..]);
      assert s == [s[0]] + s[1..];
      SortedCons(s[0], rest);
    }
  }

  lemma SortedHead(s: seq<Id>)
    requires s != [] && Sorted(s)
    ensures Sorted(s[1..])
    ensures forall v :: v in s ==> s[0] <= v
    ensures forall v :: v in s[1..] ==> s[0] <= v
  {
  }

  lemma SortedCons(u: Id, s: seq<Id>)
    requires Sorted(s) && forall v :: v in s ==> u <= v
    ensures Sorted([u] + s)
  {
    assert forall j :: 0 <= j < |s| ==> s[j] in s;
  }

  /** The standard library's sort, which on numbers can be any. */
  function Sort(s: seq<Id>): seq<Id> {
    if s == [] then [] else Insert(s[0], Sort(s[1..]))
  }

  lemma {:induction false} SortSorted(s: seq<Id>)
    ensures Sorted(Sort(s))
    ensures multiset(Sort(s)) == multiset(s)
  {
    if s != [] {
      SortSorted(s[1..]);
      InsertSorted(s[0], Sort(s[1..]));
      assert s == [s[0]] + s[1..];
    }
  }

  /** Every UID of every element, ends of a range in either order, then sorted. */
  method UidSetToVec(es: UidSet) returns (r: seq<Id>)
    ensures IsExpansion(r, es)
  {
    var uids: seq<Id> := [];
    for i := 0 to |es|
      invariant forall u: Id :: Count(uids, u) == Times(es[..i], u)
    {
      assert es[..i + 1][..i] == es[..i];
      match es[i]
      case Single(uid) => uids := uids + [uid];
      case Range(start, end) => {
        var lo, hi := if start <= end then start else end, if start <= end then end else start;
        ghost var was := uids;
        for uid := lo to hi + 1
          invariant forall u: Id :: Count(uids, u) == Count(was, u) + if lo <= u < uid then 1 else 0
        {
          uids := uids + [uid];
        }
      }
    }
    assert es[..|es|] == es;
    SortSorted(uids);
    r := Sort(uids);
  }

  // -------------------------------------------------------------- the answer

  /** `m` is what the COPYUID `t` maps. */
  ghost predicate IsMapping(m: Mapping, t: Triple) {
    m.uidValidity == t.uidValidity && IsExpansion(m.source, t.source) && IsExpansion(m.destination, t.destination)
  }

  lemma SetPlain(es: UidSet)
    ensures SP !in SetText(es)
  {
    forall f | f in Texts(es) ensures SP !in f {
      var i :| 0 <= i < |es| && f == ElementText(es[i]);
      ElementPlain(es[i], SP);
    }
    JoinPlain(Texts(es), COMMA, SP);
  }

  lemma {:induction false} JoinPlain(fields: seq<seq<Octet>>, sep: Octet, b: Octet)
    requires b != sep && forall f :: f in fields ==> b !in f
    ensures b !in Join(fields, sep)
  {
    if |fields| > 1 {
      JoinPlain(fields[1..], sep, b);
    }
  }

  /** Splitting a COPYUID gives back its four fields. */
  lemma SplitCopyUid(keyword: seq<Octet>, t: Triple)
    requires EqIgnoreCase(keyword, KEYWORD)
    ensures Split(Join(Fields(keyword, t), SP), SP) == Fields(keyword, t)
  {
    forall f | f in Fields(keyword, t) ensures SP !in f {
      DecimalPlain(t.uidValidity, SP);
      SetPlain(t.source);
      SetPlain(t.destination);
      assert forall i :: 0 <= i < |KEYWORD| ==> Lower(KEYWORD[i]) != Lower(SP);
    }
    SplitJoin(Fields(keyword, t), SP);
  }

  ghost predicate FieldsDenote(fields: seq<seq<Octet>>, t: Triple) {
    t.uidValidity < U32_LIMIT && |fields| == 4 && EqIgnoreCase(fields[0], KEYWORD) && fields == Fields(fields[0], t)
  }

  lemma DenotesFields(text: seq<Octet>, t: Triple)
    ensures Denotes(text, t) <==> FieldsDenote(Split(text, SP), t)
  {
    hide Split, Join, SetText, EqIgnoreCase;
    if Denotes(text, t) {
      var keyword :| EqIgnoreCase(keyword, KEYWORD) && text == Join(Fields(keyword, t), SP);
      SplitCopyUid(keyword, t);
    }
    JoinSplit(text, SP);
  }

  /** The single digit 0, or a number. */
  function ReadUidValidity(s: seq<Octet>): Option<nat> {
    if s == [48] then Option<nat>.Some(0)
    else
      var n := NzNumber(s);
      if n.Some? then Option<nat>.Some(n.value) else None
  }

  lemma ReadUidValidityExact(s: seq<Octet>, n: nat)
    requires n < U32_LIMIT
    ensures ReadUidValidity(s) == Some(n) <==> s == Decimal(n)
  {
    hide NzNumber;
    if n > 0 {
      NzNumberExact(s, n);
      DecimalDigits(n);
    }
  }

  /** The keyword, the UIDVALIDITY, two sets and nothing after: reads exactly
      the notations of triples, and maps each as it denotes. */
  method CopyUidFromOther(text: seq<Octet>) returns (r: Option<Mapping>)
    ensures forall t :: Denotes(text, t) ==> r.Some? && IsMapping(r.value, t)
    ensures r.Some? ==> exists t :: Denotes(text, t)
  {
    hide Split, Join, SetText, NzNumber, Decimal, IsExpansion, EqIgnoreCase, Denotes;
    forall t ensures Denotes(text, t) <==> FieldsDenote(Split(text, SP), t) {
      DenotesFields(text, t);
    }
    forall s, n: nat | n < U32_LIMIT ensures ReadUidValidity(s) == Some(n) <==> s == Decimal(n) {
      ReadUidValidityExact(s, n);
    }
    var fields := Split(text, SP);
    if !EqIgnoreCase(fields[0], KEYWORD) {
      return None;
    }
    if |fields| < 2 {
      return None;
    }
    var uidValidity := ReadUidValidity(fields[1]);
    if uidValidity.None? || |fields| < 3 {
      return None;
    }
    var source := ReadUidSet(fields[2]);
    if source.None? || |fields| < 4 {
      return None;
    }
    var destination := ReadUidSet(fields[3]);
    if destination.None? || |fields| > 4 {
      return None;
    }
    ghost var read := Triple(uidValidity.value, source.value, destination.value);
    assert fields == Fields(fields[0], read);
    assert Denotes(text, read);
    var sources := UidSetToVec(source.value);
    var destinations := UidSetToVec(destination.value);
    r := Some(Mapping(uidValidity.value, sources, destinations));
  }

  /** The mapping of an answer, whichever reader its code went through. */
  method CopyUidFromCode(code: Option<Code>) returns (r: Option<Mapping>)
    ensures code.None? || code.value.Unrelated? ==> r == None
    ensures code.Some? && code.value.Strict? ==>
              r.Some? && IsMapping(r.value, Triple(code.value.uidValidity, code.value.source, code.value.destination))
    ensures code.Some? && code.value.Unread? ==>
              (forall t :: Denotes(code.value.text, t) ==> r.Some? && IsMapping(r.value, t))
              && (r.Some? ==> exists t :: Denotes(code.value.text, t))
  {
    match code
    case None => return None;
    case Some(Strict(uidValidity, source, destination)) =>
      var sources := UidSetToVec(source);
      var destinations := UidSetToVec(destination);
      return Some(Mapping(uidValidity, sources, destinations));
    case Some(Unread(text)) => r := CopyUidFromOther(text);
    case Some(Unrelated) => return None;
  }

  lemma JoinTwo(a: seq<Octet>, b: seq<Octet>, sep: Octet)
    ensures Join([a], sep) == a && Join([a, b], sep) == a + [sep] + b
  {
    assert [a, b][1..] == [b];
  }

  lemma JoinFour(a: seq<Octet>, b: seq<Octet>, c: seq<Octet>, d: seq<Octet>, sep: Octet)
    ensures Join([a, b, c, d], sep) == a + [sep] + b + [sep] + c + [sep] + d
  {
    assert [a, b, c, d][1..] == [b, c, d] && [b, c, d][1..] == [c, d];
    JoinTwo(c, d, sep);
  }

  /** The form a known server sends: a keyword in lower case, a UIDVALIDITY of 0, a
      reversed range next to a single UID, and a single UID. */
  lemma Example()
    ensures Denotes(Ascii("copyuid 0 5:3,9 7"), Triple(0, [Range(5, 3), Single(9)], [Single(7)]))
  {
    hide EqIgnoreCase, Join;
    var t := Triple(0, [Range(5, 3), Single(9)], [Single(7)]);
    var keyword := Ascii("copyuid");
    KeywordMeaning(keyword);
    assert Decimal(5) == [53] && Decimal(3) == [51] && Decimal(9) == [57] && Decimal(7) == [55] && Decimal(0) == [48];
    assert ElementText(Range(5, 3)) == [53, 58, 51] && ElementText(Single(9)) == [57] && ElementText(Single(7)) == [55];
    assert Texts(t.source) == [[53, 58, 51], [57]] && Texts(t.destination) == [[55]];
    JoinTwo([53, 58, 51], [57], COMMA);
    JoinTwo([55], [55], COMMA);
    JoinFour(keyword, [48], [53, 58, 51, 44, 57], [55], SP);
    assert SetText(t.source) == Join([[53, 58, 51], [57]], COMMA) == [53, 58, 51] + [44] + [57] == [53, 58, 51, 44, 57];
    assert SetText(t.destination) == Join([[55]], COMMA) == [55];
    assert Fields(keyword, t) == [keyword, [48], [53, 58, 51, 44, 57], [55]];
    assert Ascii("copyuid 0 5:3,9 7") == keyword + [SP] + [48] + [SP] + [53, 58, 51, 44, 57] + [SP] + [55];
  }

  /** A text denotes one triple at most. */
  lemma DenotesOne(text: seq<Octet>, t: Triple, t': Triple)
    requires Denotes(text, t) && Denotes(text, t')
    ensures t == t'
  {
    hide Denotes, Split;
    DenotesFields(text, t);
    DenotesFields(text, t');
    DecimalInjective(t.uidValidity, t'.uidValidity);
    SetTextInjective(t.source, t'.source);
    SetTextInjective(t.destination, t'.destination);
  }

  lemma SetTextInjective(es: UidSet, es': UidSet)
    requires SetText(es) == SetText(es')
    ensures es == es'
  {
    hide SetText, ElementText, ReadElement;
    SplitSet(es);
    SplitSet(es');
    assert |Texts(es)| == |Texts(es')|;
    forall i | 0 <= i < |es| ensures es[i] == es'[i] {
      assert Texts(es)[i] == Texts(es')[i];
      ReadElementExact(ElementText(es[i]), es[i]);
      ReadElementExact(ElementText(es'[i]), es'[i]);
    }
  }
}
