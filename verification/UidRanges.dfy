/** The uid-set of a VANISHED answer as inclusive ranges. */
module UidRanges {
  import opened Octets
  import opened WatchLedger

  datatype SeqOrUid = Value(uid: Uid) | Asterisk
  datatype Sequence = Single(uid: SeqOrUid) | Span(a: SeqOrUid, b: SeqOrUid)

  /** `*` stands for the largest UID. */
  function Expand(x: SeqOrUid): Uid {
    if x.Asterisk? then MAX_UID else x.uid
  }

  lemma AsteriskIsLargest(u: Uid)
    ensures u <= Expand(Asterisk) && Expand(Value(u)) == u
  {
  }

  function UidRange(s: Sequence): Range {
    match s
    case Single(x) => Interval(Expand(x), Expand(x))
    case Span(x, y) =>
      var a, b := Expand(x), Expand(y);
      Interval(if a <= b then a else b, if a <= b then b else a)
  }

  function ToRanges(uidSet: seq<Sequence>): (ranges: seq<Range>)
    ensures |ranges| == |uidSet|
  {
    seq(|uidSet|, i requires 0 <= i < |uidSet| => UidRange(uidSet[i]))
  }

  /** `u` is not below `x`, and not above it; `*` is above all others. */
  predicate Starts(x: SeqOrUid, u: Uid) {
    if x.Asterisk? then u == 4294967295 else x.uid <= u
  }

  predicate Reaches(x: SeqOrUid, u: Uid) {
    x.Asterisk? || u <= x.uid
  }

  /** Membership as section 9 of RFC 3501 reads a sequence, ends in either order. */
  predicate Names(s: Sequence, u: Uid) {
    match s
    case Single(x) => Reaches(x, u) && Starts(x, u)
    case Span(x, y) => (Starts(x, u) && Reaches(y, u)) || (Starts(y, u) && Reaches(x, u))
  }

  ghost predicate NamedBy(uidSet: seq<Sequence>, u: Uid) {
    exists i :: 0 <= i < |uidSet| && Names(uidSet[i], u)
  }

  /** The ranges cover exactly the UIDs the set names. */
  lemma RangesCover(uidSet: seq<Sequence>, u: Uid)
    ensures Covered(ToRanges(uidSet), u) <==> NamedBy(uidSet, u)
  {
    var ranges := ToRanges(uidSet);
    forall i | 0 <= i < |uidSet|
      ensures ranges[i].lo <= u <= ranges[i].hi <==> Names(uidSet[i], u)
    {
    }
    if NamedBy(uidSet, u) {
      var i :| 0 <= i < |uidSet| && Names(uidSet[i], u);
      assert ranges[i].lo <= u <= ranges[i].hi;
    }
  }

  /** A VANISHED answer, whatever it names: the messages known and named go,
      each with one event, and no other. */
  lemma VanishedByName(shadow: Shadow, uidSet: seq<Sequence>)
    ensures var l := DropRanges(Ledger(shadow, []), ToRanges(uidSet));
            (forall u: Uid :: u in l.shadow <==> u in shadow && !NamedBy(uidSet, u))
            && (forall c: Change :: Changes(l.events)[c]
                  == if c.Vanished? && c.uid in shadow && NamedBy(uidSet, c.uid) then 1 else 0)
  {
    VanishedMeaning(shadow, ToRanges(uidSet));
    forall u: Uid ensures Covered(ToRanges(uidSet), u) <==> NamedBy(uidSet, u) {
      RangesCover(uidSet, u);
    }
  }
}
