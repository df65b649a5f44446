/** The order the client-side SORT fallback puts messages in. */
module SortOrder {
  import opened Octets
  import opened Ids

  /** FETCH data as the comparator looks at it; instants are UTC. */
  datatype Item =
    | InternalDate(instant: int)
    | Rfc822Size(size: nat)
    | Envelope(date: Option<seq<Octet>>, subject: Option<seq<Octet>>)
    | UidItem(uid: Id)
    | OtherItem

  type Items = seq<Item>

  datatype Key = Arrival | Size | Date | Subject | Cc | From | To | DisplayFrom | DisplayTo
  datatype Criterion = Criterion(reverse: bool, key: Key)

  datatype Ordering = Less | Equal | Greater

  function Reversed(o: Ordering): Ordering {
    match o case Less => Greater case Equal => Equal case Greater => Less
  }

  /** How a raw Date header reads as an instant, left to the date library. */
  type DateReader = seq<Octet> -> Option<int>

  // ------------------------------------------------------------ comparisons

  function CmpInt(a: int, b: int): Ordering {
    if a < b then Less else if a == b then Equal else Greater
  }

  function CmpOctets(a: seq<Octet>, b: seq<Octet>): Ordering {
    if a == [] && b == [] then Equal
    else if a == [] then Less
    else if b == [] then Greater
    else if a[0] != b[0] then CmpInt(a[0], b[0])
    else CmpOctets(a[1..], b[1..])
  }

  /** Absent before present. */
  function CmpOptional<T>(cmp: (T, T) -> Ordering, a: Option<T>, b: Option<T>): Ordering {
    match (a, b)
    case (None, None) => Equal
    case (None, Some(_)) => Less
    case (Some(_), None) => Greater
    case (Some(x), Some(y)) => cmp(x, y)
  }

  function ArrivalOf(items: Items): Option<int> {
    if items == [] then None
    else if items[0].InternalDate? then Some(items[0].instant)
    else ArrivalOf(items[1..])
  }

  function SizeOf(items: Items): Option<int> {
    if items == [] then None
    else if items[0].Rfc822Size? then Some(items[0].size)
    else SizeOf(items[1..])
  }

  /** The first envelope that has a date; one without is passed over. */
  function DateOf(items: Items): Option<seq<Octet>> {
    if items == [] then None
    else if items[0].Envelope? && items[0].date.Some? then items[0].date
    else DateOf(items[1..])
  }

  function SubjectOf(items: Items): Option<seq<Octet>> {
    if items == [] then None
    else if items[0].Envelope? && items[0].subject.Some? then items[0].subject
    else SubjectOf(items[1..])
  }

  function UidOf(items: Items): Option<Id> {
    if items == [] then None
    else if items[0].UidItem? then Some(items[0].uid)
    else UidOf(items[1..])
  }

  function DateSortKey(read: DateReader, raw: Option<seq<Octet>>): Option<int> {
    if raw.None? then None else read(raw.value)
  }

  /** One key; addresses and display names have no order of their own. */
  function CmpFetchItems(read: DateReader, key: Key, a: Items, b: Items): Ordering {
    match key
    case Arrival => CmpOptional(CmpInt, ArrivalOf(a), ArrivalOf(b))
    case Size => CmpOptional(CmpInt, SizeOf(a), SizeOf(b))
    case Date => CmpOptional(CmpInt, DateSortKey(read, DateOf(a)), DateSortKey(read, DateOf(b)))
    case Subject => CmpOptional(CmpOctets, SubjectOf(a), SubjectOf(b))
    case _ => Equal
  }

  function CmpCriterion(read: DateReader, c: Criterion, a: Items, b: Items): Ordering {
    var cmp := CmpFetchItems(read, c.key, a, b);
    if c.reverse then Reversed(cmp) else cmp
  }

  /** The criteria in turn, then the date. */
  function Cmp(read: DateReader, criteria: seq<Criterion>, a: Items, b: Items): Ordering {
    if criteria == [] then CmpFetchItems(read, Date, a, b)
    else
      var first := CmpCriterion(read, criteria[0], a, b);
      if first != Equal then first else Cmp(read, criteria[1..], a, b)
  }

  // ---------------------------------------------------------- total preorder

  /** What three comparisons must satisfy: swapping reverses, and `<=` composes,
      strictly unless both steps are ties. */
  ghost predicate Lawful(aa: Ordering, ab: Ordering, ba: Ordering, bc: Ordering, ac: Ordering) {
    aa == Equal && ba == Reversed(ab)
    && (ab != Greater && bc != Greater ==> ac != Greater && (ac == Equal ==> ab == Equal && bc == Equal))
    && (ab != Less && bc != Less ==> ac != Less && (ac == Equal ==> ab == Equal && bc == Equal))
  }

  lemma {:induction false} CmpOctetsLawful(a: seq<Octet>, b: seq<Octet>, c: seq<Octet>)
    ensures Lawful(CmpOctets(a, a), CmpOctets(a, b), CmpOctets(b, a), CmpOctets(b, c), CmpOctets(a, c))
  {
    if a != [] && b != [] && c != [] {
      CmpOctetsLawful(a[1..], b[1..], c[1..]);
    } else if a != [] && b != [] {
      CmpOctetsLawful(a[1..], b[1..], []);
    } else if a != [] {
      CmpOctetsLawful(a[1..], [], []);
    }
  }

  lemma OptionalLawful(a: Option<seq<Octet>>, b: Option<seq<Octet>>, c: Option<seq<Octet>>)
    ensures Lawful(CmpOptional(CmpOctets, a, a), CmpOptional(CmpOctets, a, b), CmpOptional(CmpOctets, b, a),
                   CmpOptional(CmpOctets, b, c), CmpOptional(CmpOctets, a, c))
  {
    var x, y, z := if a.Some? then a.value else [], if b.Some? then b.value else [], if c.Some? then c.value else [];
    CmpOctetsLawful(x, y, z);
  }

  lemma OptionalIntLawful(a: Option<int>, b: Option<int>, c: Option<int>)
    ensures Lawful(CmpOptional(CmpInt, a, a), CmpOptional(CmpInt, a, b), CmpOptional(CmpInt, b, a),
                   CmpOptional(CmpInt, b, c), CmpOptional(CmpInt, a, c))
  {
  }

  lemma KeyLawful(read: DateReader, k: Key, a: Items, b: Items, c: Items)
    ensures Lawful(CmpFetchItems(read, k, a, a), CmpFetchItems(read, k, a, b), CmpFetchItems(read, k, b, a),
                   CmpFetchItems(read, k, b, c), CmpFetchItems(read, k, a, c))
  {
    hide CmpOptional, ArrivalOf, SizeOf, DateOf, SubjectOf, DateSortKey;
    match k
    case Arrival => OptionalIntLawful(ArrivalOf(a), ArrivalOf(b), ArrivalOf(c));
    case Size => OptionalIntLawful(SizeOf(a), SizeOf(b), SizeOf(c));
    case Date =>
      OptionalIntLawful(DateSortKey(read, DateOf(a)), DateSortKey(read, DateOf(b)), DateSortKey(read, DateOf(c)));
    case Subject => OptionalLawful(SubjectOf(a), SubjectOf(b), SubjectOf(c));
    case _ =>
  }

  lemma CriterionLawful(read: DateReader, k: Criterion, a: Items, b: Items, c: Items)
    ensures Lawful(CmpCriterion(read, k, a, a), CmpCriterion(read, k, a, b), CmpCriterion(read, k, b, a),
                   CmpCriterion(read, k, b, c), CmpCriterion(read, k, a, c))
  {
    hide CmpFetchItems;
    KeyLawful(read, k.key, a, b, c);
  }

  /** For every list of criteria the comparator is a total preorder. */
  lemma {:induction false} CmpLawful(read: DateReader, criteria: seq<Criterion>, a: Items, b: Items, c: Items)
    ensures Lawful(Cmp(read, criteria, a, a), Cmp(read, criteria, a, b), Cmp(read, criteria, b, a),
                   Cmp(read, criteria, b, c), Cmp(read, criteria, a, c))
  {
    hide CmpFetchItems, CmpCriterion;
    if criteria == [] {
      KeyLawful(read, Date, a, b, c);
    } else {
      CriterionLawful(read, criteria[0], a, b, c);
      CmpLawful(read, criteria[1..], a, b, c);
    }
  }

  // -------------------------------------------------------- what it orders by

  /** The first item of its kind is the one read; of envelopes, the first that
      has the date, or the subject. */
  lemma {:induction false} ReadsFirst(items: Items, i: nat)
    requires i < |items|
    ensures items[i].InternalDate? && (forall j :: 0 <= j < i ==> !items[j].InternalDate?) ==>
              ArrivalOf(items) == Some(items[i].instant)
    ensures items[i].Rfc822Size? && (forall j :: 0 <= j < i ==> !items[j].Rfc822Size?) ==>
              SizeOf(items) == Some(items[i].size)
    ensures items[i].UidItem? && (forall j :: 0 <= j < i ==> !items[j].UidItem?) ==>
              UidOf(items) == Some(items[i].uid)
    ensures items[i].Envelope? && items[i].date.Some?
            && (forall j :: 0 <= j < i ==> !(items[j].Envelope? && items[j].date.Some?)) ==>
              DateOf(items) == items[i].date
    ensures items[i].Envelope? && items[i].subject.Some?
            && (forall j :: 0 <= j < i ==> !(items[j].Envelope? && items[j].subject.Some?)) ==>
              SubjectOf(items) == items[i].subject
  {
    if i > 0 {
      assert forall j :: 0 <= j < |items| - 1 ==> items[1..][j] == items[j + 1];
      ReadsFirst(items[1..], i - 1);
    }
  }

  lemma {:induction false} ReadsNothing(items: Items)
    ensures (forall i :: 0 <= i < |items| ==> !items[i].InternalDate?) ==> ArrivalOf(items) == None
    ensures (forall i :: 0 <= i < |items| ==> !items[i].Rfc822Size?) ==> SizeOf(items) == None
    ensures (forall i :: 0 <= i < |items| ==> !items[i].UidItem?) ==> UidOf(items) == None
    ensures (forall i :: 0 <= i < |items| ==> !(items[i].Envelope? && items[i].date.Some?)) ==> DateOf(items) == None
    ensures (forall i :: 0 <= i < |items| ==> !(items[i].Envelope? && items[i].subject.Some?)) ==> SubjectOf(items) == None
  {
    if items != [] {
      assert forall j :: 0 <= j < |items| - 1 ==> items[1..][j] == items[j + 1];
      ReadsNothing(items[1..]);
    }
  }

  /** `a` is lower than `b`: at the first octet that differs, or a proper prefix. */
  ghost predicate OctetsLower(a: seq<Octet>, b: seq<Octet>) {
    exists k :: LowerAt(a, b, k)
  }

  ghost predicate LowerAt(a: seq<Octet>, b: seq<Octet>, k: nat) {
    k <= |a| && k < |b| && a[..k] == b[..k] && (k == |a| || a[k] < b[k])
  }

  /** `a` has the smaller value under `key`, an absent one before any other. */
  ghost predicate Lower(read: DateReader, key: Key, a: Items, b: Items) {
    match key
    case Arrival => ArrivalOf(b).Some? && (ArrivalOf(a).None? || ArrivalOf(a).value < ArrivalOf(b).value)
    case Size => SizeOf(b).Some? && (SizeOf(a).None? || SizeOf(a).value < SizeOf(b).value)
    case Date =>
      DateOf(b).Some? && read(DateOf(b).value).Some?
      && (DateOf(a).None? || read(DateOf(a).value).None? || read(DateOf(a).value).value < read(DateOf(b).value).value)
    case Subject =>
      SubjectOf(b).Some? && (SubjectOf(a).None? || OctetsLower(SubjectOf(a).value, SubjectOf(b).value))
    case _ => false
  }

  ghost predicate Tied(read: DateReader, key: Key, a: Items, b: Items) {
    !Lower(read, key, a, b) && !Lower(read, key, b, a)
  }

  /** `x` comes ahead of `y`: all ties up to some criterion, which it wins; or
      all ties, and the earlier date; or that a tie too, and first in the mailbox. */
  ghost predicate Ahead(read: DateReader, criteria: seq<Criterion>, x: Entry, y: Entry) {
    exists i :: AheadAt(read, criteria, x, y, i)
  }

  ghost predicate AheadAt(read: DateReader, criteria: seq<Criterion>, x: Entry, y: Entry, i: nat) {
    i <= |criteria| && (forall j :: 0 <= j < i ==> Tied(read, criteria[j].key, x.items, y.items))
    && if i < |criteria| then
         if criteria[i].reverse then Lower(read, criteria[i].key, y.items, x.items)
         else Lower(read, criteria[i].key, x.items, y.items)
       else
         Lower(read, Date, x.items, y.items) || (Tied(read, Date, x.items, y.items) && x.number < y.number)
  }

  lemma {:induction false} CmpOctetsMeaning(a: seq<Octet>, b: seq<Octet>)
    ensures CmpOctets(a, b) == Less <==> OctetsLower(a, b)
    ensures CmpOctets(a, b) == Greater <==> OctetsLower(b, a)
  {
    if a == [] || b == [] {
      assert LowerAt(a, b, 0) <==> a == [] && b != [];
      assert LowerAt(b, a, 0) <==> b == [] && a != [];
    } else if a[0] != b[0] {
      FirstDiffers(a, b);
      FirstDiffers(b, a);
    } else {
      CmpOctetsMeaning(a[1..], b[1..]);
      SameHead(a, b);
      SameHead(b, a);
    }
  }

  lemma FirstDiffers(a: seq<Octet>, b: seq<Octet>)
    requires a != [] && b != [] && a[0] != b[0]
    ensures OctetsLower(a, b) <==> a[0] < b[0]
  {
    assert LowerAt(a, b, 0) <==> a[0] < b[0];
    forall k: nat | 0 < k <= |a| && k < |b| ensures !LowerAt(a, b, k) {
      assert a[..k][0] == a[0] && b[..k][0] == b[0];
    }
  }

  lemma SameHead(a: seq<Octet>, b: seq<Octet>)
    requires a != [] && b != [] && a[0] == b[0]
    ensures OctetsLower(a, b) <==> OctetsLower(a[1..], b[1..])
  {
    if OctetsLower(a, b) {
      var k: nat :| LowerAt(a, b, k);
      assert k > 0 && a[1..][..k - 1] == a[..k][1..] == b[..k][1..] == b[1..][..k - 1];
      assert LowerAt(a[1..], b[1..], k - 1);
    }
    if OctetsLower(a[1..], b[1..]) {
      var k: nat :| LowerAt(a[1..], b[1..], k);
      assert a[..k + 1] == [a[0]] + a[1..][..k] && b[..k + 1] == [b[0]] + b[1..][..k];
      assert LowerAt(a, b, k + 1);
    }
  }

  /** One key compares by the values it reads. */
  lemma CmpKeyMeaning(read: DateReader, key: Key, a: Items, b: Items)
    ensures CmpFetchItems(read, key, a, b) == Less <==> Lower(read, key, a, b)
    ensures CmpFetchItems(read, key, a, b) == Greater <==> Lower(read, key, b, a)
    ensures CmpFetchItems(read, key, a, b) == Equal <==> Tied(read, key, a, b)
  {
    hide ArrivalOf, SizeOf, DateOf, SubjectOf, CmpOctets, OctetsLower;
    if key.Subject? && SubjectOf(a).Some? && SubjectOf(b).Some? {
      CmpOctetsMeaning(SubjectOf(a).value, SubjectOf(b).value);
    }
  }

  /** The comparator orders by value: criterion by criterion, then by date, then
      as the mailbox does. */
  lemma {:induction false} BeforeMeaning(read: DateReader, criteria: seq<Criterion>, x: Entry, y: Entry)
    ensures Before(read, criteria, x, y) <==> Ahead(read, criteria, x, y)
  {
    hide CmpFetchItems, Lower, Tied;
    if criteria == [] {
      CmpKeyMeaning(read, Date, x.items, y.items);
      TiedNotLower(read, Date, x.items, y.items);
      assert AheadAt(read, criteria, x, y, 0) <==> Before(read, criteria, x, y);
    } else {
      CmpKeyMeaning(read, criteria[0].key, x.items, y.items);
      BeforeMeaning(read, criteria[1..], x, y);
      AheadFirst(read, criteria, x, y);
      TiedNotLower(read, criteria[0].key, x.items, y.items);
    }
  }

  lemma TiedNotLower(read: DateReader, key: Key, a: Items, b: Items)
    ensures Tied(read, key, a, b) <==> !Lower(read, key, a, b) && !Lower(read, key, b, a)
  {
  }

  lemma AheadFirst(read: DateReader, criteria: seq<Criterion>, x: Entry, y: Entry)
    requires criteria != []
    ensures Ahead(read, criteria, x, y) <==>
            var c := criteria[0];
            (if c.reverse then Lower(read, c.key, y.items, x.items) else Lower(read, c.key, x.items, y.items))
            || (Tied(read, c.key, x.items, y.items) && Ahead(read, criteria[1..], x, y))
  {
    hide Lower, Tied;
    var tail := criteria[1..];
    assert forall j :: 0 <= j < |tail| ==> tail[j] == criteria[j + 1];
    if Ahead(read, tail, x, y) && Tied(read, criteria[0].key, x.items, y.items) {
      var i: nat :| AheadAt(read, tail, x, y, i);
      assert AheadAt(read, criteria, x, y, i + 1);
    }
    if Ahead(read, criteria, x, y) {
      var i: nat :| AheadAt(read, criteria, x, y, i);
      if i > 0 {
        assert AheadAt(read, tail, x, y, i - 1);
      }
    }
    var c := criteria[0];
    if if c.reverse then Lower(read, c.key, y.items, x.items) else Lower(read, c.key, x.items, y.items) {
      assert AheadAt(read, criteria, x, y, 0);
    }
  }

  // ------------------------------------------------------------ stable sort

  datatype Entry = Entry(number: Id, items: Items)

  /** `x` goes before `y`: smaller, or tied and earlier in the mailbox. */
  predicate Before(read: DateReader, criteria: seq<Criterion>, x: Entry, y: Entry) {
    var cmp := Cmp(read, criteria, x.items, y.items);
    cmp == Less || (cmp == Equal && x.number < y.number)
  }

  ghost predicate SortedEntries(read: DateReader, criteria: seq<Criterion>, s: seq<Entry>) {
    forall i, j :: 0 <= i < j < |s| ==> Before(read, criteria, s[i], s[j])
  }

  ghost predicate InMailboxOrder(s: seq<Entry>) {
    forall i, j :: 0 <= i < j < |s| ==> s[i].number < s[j].number
  }

  lemma BeforeTransitive(read: DateReader, criteria: seq<Criterion>, x: Entry, y: Entry, z: Entry)
    requires Before(read, criteria, x, y) && Before(read, criteria, y, z)
    ensures Before(read, criteria, x, z)
  {
    CmpLawful(read, criteria, x.items, y.items, z.items);
  }

  lemma BeforeAsymmetric(read: DateReader, criteria: seq<Criterion>, x: Entry, y: Entry)
    requires Before(read, criteria, x, y)
    ensures !Before(read, criteria, y, x) && x != y
  {
    CmpLawful(read, criteria, x.items, y.items, x.items);
  }

  /** Puts an entry in front of everything not smaller than it: a stable
      insertion, when what is inserted comes first. */
  function Insert(read: DateReader, criteria: seq<Criterion>, x: Entry, s: seq<Entry>): seq<Entry> {
    if s == [] then [x]
    else if Cmp(read, criteria, x.items, s[0].items) != Greater then [x] + s
    else [s[0]] + Insert(read, criteria, x, s[1..])
  }

  /** The standard library's stable sort, which sees the comparator only. */
  function SortBy(read: DateReader, criteria: seq<Criterion>, s: seq<Entry>): seq<Entry> {
    if s == [] then [] else Insert(read, criteria, s[0], SortBy(read, criteria, s[1..]))
  }

  lemma {:induction false} InsertSorted(read: DateReader, criteria: seq<Criterion>, x: Entry, s: seq<Entry>)
    requires SortedEntries(read, criteria, s)
    requires forall y :: y in s ==> x.number < y.number
    ensures SortedEntries(read, criteria, Insert(read, criteria, x, s))
    ensures multiset(Insert(read, criteria, x, s)) == multiset([x]) + multiset(s)
  {
    hide Cmp;
    var r := Insert(read, criteria, x, s);
    if s == [] {
    } else if Cmp(read, criteria, x.items, s[0].items) != Greater {
      assert Before(read, criteria, x, s[0]) by {
        assert s[0] in s;
      }
      forall j | 1 <= j < |s| ensures Before(read, criteria, x, s[j]) {
        BeforeTransitive(read, criteria, x, s[0], s[j]);
      }
      SortedCons(read, criteria, x, s);
    } else {
      var rest := Insert(read, criteria, x, s[1..]);
      InsertSorted(read, criteria, x, s[1..]);
      CmpLawful(read, criteria, x.items, s[0].items, x.items);
      assert s == [s[0]] + s[1..];
      forall y | y in rest ensures Before(read, criteria, s[0], y) {
        assert y in multiset(rest);
        assert y == x || y in s[1..];
      }
      SortedCons(read, criteria, s[0], rest);
    }
  }

  lemma SortedCons(read: DateReader, criteria: seq<Criterion>, x: Entry, s: seq<Entry>)
    requires SortedEntries(read, criteria, s)
    requires forall y :: y in s ==> Before(read, criteria, x, y)
    ensures SortedEntries(read, criteria, [x] + s)
  {
    hide Before;
  }

  /** Sorting messages in mailbox order: a permutation, sorted, ties in mailbox order. */
  lemma {:induction false} SortBySorted(read: DateReader, criteria: seq<Criterion>, s: seq<Entry>)
    requires InMailboxOrder(s)
    ensures SortedEntries(read, criteria, SortBy(read, criteria, s))
    ensures multiset(SortBy(read, criteria, s)) == multiset(s)
  {
    if s != [] {
      var rest := SortBy(read, criteria, s[1..]);
      SortBySorted(read, criteria, s[1..]);
      assert s == [s[0]] + s[1..];
      forall y | y in rest ensures s[0].number < y.number {
        assert y in multiset(rest);
        assert y in s[1..];
      }
      InsertSorted(read, criteria, s[0], rest);
    }
  }

  /** There is only one such arrangement. */
  lemma {:induction false} SortedUnique(read: DateReader, criteria: seq<Criterion>, r: seq<Entry>, t: seq<Entry>)
    requires SortedEntries(read, criteria, r) && SortedEntries(read, criteria, t)
    requires multiset(r) == multiset(t)
    ensures r == t
  {
    hide SortedEntries;
    assert |r| == |multiset(r)| == |multiset(t)| == |t|;
    if r != [] {
      SameFirst(read, criteria, r, t);
      SortedTail(read, criteria, r);
      SortedTail(read, criteria, t);
      MultisetRest(r, t);
      SortedUnique(read, criteria, r[1..], t[1..]);
      assert r == [r[0]] + r[1..] && t == [t[0]] + t[1..];
    }
  }

  lemma SortedTail(read: DateReader, criteria: seq<Criterion>, s: seq<Entry>)
    requires s != [] && SortedEntries(read, criteria, s)
    ensures SortedEntries(read, criteria, s[1..])
  {
    hide Before;
  }

  lemma SameFirst(read: DateReader, criteria: seq<Criterion>, r: seq<Entry>, t: seq<Entry>)
    requires r != [] && t != []
    requires SortedEntries(read, criteria, r) && SortedEntries(read, criteria, t)
    requires multiset(r) == multiset(t)
    ensures r[0] == t[0]
  {
    hide Cmp;
    assert r[0] in multiset(t) && t[0] in multiset(r);
    var i :| 0 <= i < |t| && t[i] == r[0];
    var j :| 0 <= j < |r| && r[j] == t[0];
    if i > 0 && j > 0 {
      assert Before(read, criteria, t[0], t[i]);
      BeforeAsymmetric(read, criteria, t[0], r[0]);
    }
  }

  // ------------------------------------------------------------ what to fetch

  datatype Name = InternalDateName | SizeName | EnvelopeName | UidName

  /** The FETCH item a key reads, when it reads one. */
  function NameFor(key: Key): Option<Name> {
    match key
    case Arrival => Some(InternalDateName)
    case Size => Some(SizeName)
    case DisplayFrom => None
    case DisplayTo => None
    case _ => Some(EnvelopeName)
  }

  /** Each item once: those the criteria read, the envelope for the final date
      comparison, and the UID when UIDs are to be returned. */
  method FetchItems(criteria: seq<Criterion>, uid: bool) returns (names: seq<Name>)
    ensures forall i, j :: 0 <= i < j < |names| ==> names[i] != names[j]
    ensures forall n :: n in names <==>
              n == EnvelopeName || (uid && n == UidName)
              || (n == InternalDateName && exists c :: c in criteria && c.key == Arrival)
              || (n == SizeName && exists c :: c in criteria && c.key == Size)
  {
    names := [];
    for i := 0 to |criteria|
      invariant forall p, q :: 0 <= p < q < |names| ==> names[p] != names[q]
      invariant UidName !in names
      invariant forall n :: n in names <==> exists c :: c in criteria[..i] && NameFor(c.key) == Some(n)
    {
      var name := NameFor(criteria[i].key);
      assert criteria[..i + 1] == criteria[..i] + [criteria[i]];
      ghost var was := names;
      if name.Some? && name.value !in names {
        names := names + [name.value];
      }
      forall n ensures n in names <==> exists c :: c in criteria[..i + 1] && NameFor(c.key) == Some(n) {
        assert criteria[i] in criteria[..i + 1];
      }
    }
    assert criteria[..|criteria|] == criteria;
    if EnvelopeName !in names {
      names := names + [EnvelopeName];
    }
    if uid && UidName !in names {
      names := names + [UidName];
    }
  }

  predicate Named(names: set<Name>, item: Item) {
    match item
    case InternalDate(_) => InternalDateName in names
    case Rfc822Size(_) => SizeName in names
    case Envelope(_, _) => EnvelopeName in names
    case UidItem(_) => UidName in names
    case OtherItem => false
  }

  /** The part of a FETCH that answers the names asked for. */
  function Restrict(items: Items, names: set<Name>): Items {
    if items == [] then []
    else if Named(names, items[0]) then [items[0]] + Restrict(items[1..], names)
    else Restrict(items[1..], names)
  }

  lemma {:induction false} RestrictReads(items: Items, names: set<Name>)
    ensures InternalDateName in names ==> ArrivalOf(Restrict(items, names)) == ArrivalOf(items)
    ensures SizeName in names ==> SizeOf(Restrict(items, names)) == SizeOf(items)
    ensures EnvelopeName in names ==> DateOf(Restrict(items, names)) == DateOf(items)
    ensures EnvelopeName in names ==> SubjectOf(Restrict(items, names)) == SubjectOf(items)
    ensures UidName in names ==> UidOf(Restrict(items, names)) == UidOf(items)
  {
    if items != [] {
      RestrictReads(items[1..], names);
      if Named(names, items[0]) {
        assert Restrict(items, names)[1..] == Restrict(items[1..], names);
      }
    }
  }

  /** The items fetched are enough: the comparator reads nothing else. */
  lemma {:induction false} FetchItemsSuffice(read: DateReader, criteria: seq<Criterion>, names: set<Name>, a: Items, b: Items)
    requires EnvelopeName in names
    requires forall c :: c in criteria && NameFor(c.key).Some? ==> NameFor(c.key).value in names
    ensures Cmp(read, criteria, Restrict(a, names), Restrict(b, names)) == Cmp(read, criteria, a, b)
  {
    RestrictReads(a, names);
    RestrictReads(b, names);
    if criteria != [] {
      assert criteria[0] in criteria;
      FetchItemsSuffice(read, criteria[1..], names, a, b);
    }
  }
}
