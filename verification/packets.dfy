/**
 Telemetry packet definitions (`TMpktDef`) and the layout algorithm that
 places every linked parameter, bit by bit, inside the packet.
 */
module Packets {
  import opened Wrappers
  import opened Strings
  import opened TypeWidth
  import opened Parameters
  import opened Extractions

  /**
   A TM packet definition: identity (SPID, name), PUS header data, the two
   identification fields PI1/PI2 (byte offset, width in bits, expected value;
   a field is defined when its value is present), sizes consumed by the
   packet generator, and the parameter links keyed by parameter name.
   */
  datatype PktDef = PktDef(
    spid: int,
    name: string,
    descr: string,
    apid: int,
    pktType: int,
    pktSType: int,
    dfhSize: int,
    hasDFhdr: bool,
    check: bool,
    pi1off: int,
    pi1wid: int,
    pi1val: Option<int>,
    pi2off: int,
    pi2wid: int,
    pi2val: Option<int>,
    spSize: int,
    s2kSize: int,
    spdfSize: int,
    spdfDataSize: int,
    links: map<string, Link>)

  // ---------------------------------------------------------------------------
  // link registration

  /**
   `appendParamLink`: registers `l` under its parameter name. A link already
   registered under that name is replaced (last write wins); every other
   link and every other field of the packet stays as it was.
   */
  function AppendParamLink(p: PktDef, l: Link): (q: PktDef)
    ensures q.links.Keys == p.links.Keys + {l.paramName}
    ensures q.links[l.paramName] == l
    ensures forall k :: k in p.links && k != l.paramName ==> q.links[k] == p.links[k]
    ensures q.(links := p.links) == p
  {
    p.(links := p.links[l.paramName := l])
  }

  // ---------------------------------------------------------------------------
  // bit ranges

  /** Bit `b` lies in the half-open range `[pos, pos + width)`. */
  predicate Covers(pos: int, width: int, b: int) {
    pos <= b < pos + width
  }

  /**
   `rangeOverlap`: whether `[pos1, pos1 + width1)` and `[pos2, pos2 + width2)`
   overlap; an absent position never overlaps. Note that the test is on the
   end points only, so a zero-width range strictly inside another overlaps it.
   */
  function RangeOverlap(pos1: Option<int>, width1: int, pos2: Option<int>, width2: int): (r: bool)
    ensures pos1.None? || pos2.None? ==> !r
  {
    match (pos1, pos2)
    case (Some(p1), Some(p2)) => p1 + width1 > p2 && p2 + width2 > p1
    case _ => false
  }

  lemma RangeOverlapSymmetric(pos1: Option<int>, width1: int, pos2: Option<int>, width2: int)
    ensures RangeOverlap(pos1, width1, pos2, width2) == RangeOverlap(pos2, width2, pos1, width1)
  {
  }

  /** For two non-empty ranges, overlapping means sharing at least one bit. */
  lemma OverlapIffSharedBit(p1: int, w1: int, p2: int, w2: int)
    requires w1 > 0 && w2 > 0
    ensures RangeOverlap(Some(p1), w1, Some(p2), w2) <==> exists b :: Covers(p1, w1, b) && Covers(p2, w2, b)
  {
    if RangeOverlap(Some(p1), w1, Some(p2), w2) {
      var b := if p1 < p2 then p2 else p1;
      assert Covers(p1, w1, b) && Covers(p2, w2, b);
    }
  }

  /** A zero-width range overlaps exactly the ranges it lies strictly inside. */
  lemma ZeroWidthOverlap(p1: int, p2: int, w2: int)
    ensures RangeOverlap(Some(p1), 0, Some(p2), w2) <==> p2 < p1 < p2 + w2
  {
  }

  // ---------------------------------------------------------------------------
  // identification fields

  /** Start bit of PI1, present when PI1's value is set. */
  function PI1Pos(p: PktDef): Option<int> {
    if p.pi1val.Some? then Some(p.pi1off * 8) else None
  }

  /**
   Start bit of PI2, present when PI2's value is set, even when the PI2
   entry itself is dropped for overlapping PI1.
   */
  function PI2Pos(p: PktDef): Option<int> {
    if p.pi2val.Some? then Some(p.pi2off * 8) else None
  }

  function PI1Entry(p: PktDef): Extraction {
    Extraction(p.pi1off * 8, p.pi1wid, p.name + "_PI1VAL", "PI1 Value", true, true)
  }

  function PI2Entry(p: PktDef): Extraction {
    Extraction(p.pi2off * 8, p.pi2wid, p.name + "_PI2VAL", "PI2 Value", true, true)
  }

  /** PI2 is emitted when its value is set and its range does not overlap PI1's. */
  predicate PI2Kept(p: PktDef) {
    p.pi2val.Some? && !RangeOverlap(PI1Pos(p), p.pi1wid, PI2Pos(p), p.pi2wid)
  }

  /** The PI entries, emitted before any parameter. */
  function PIEntries(p: PktDef): seq<Extraction> {
    (if p.pi1val.Some? then [PI1Entry(p)] else [])
    + (if PI2Kept(p) then [PI2Entry(p)] else [])
  }

  /** A candidate field at `[pos, pos + width)` collides with neither PI range. */
  predicate ClearOfPIs(p: PktDef, pos: int, width: int) {
    && !RangeOverlap(PI1Pos(p), p.pi1wid, Some(pos), width)
    && !RangeOverlap(PI2Pos(p), p.pi2wid, Some(pos), width)
  }

  // ---------------------------------------------------------------------------
  // entries of one link

  /** The entry of a single-occurrence link, under the key it is registered with. */
  function Single(key: string, l: Link, width: int): Extraction {
    Extraction(StartBit(l), width, key, l.paramDef.descr, IsInteger(l.paramDef.ptc), false)
  }

  /** Occurrence `i` of a supercommutated link, `i * lgocc` bits after the first. */
  function Occurrence(l: Link, width: int, i: nat): Extraction {
    Extraction(StartBit(l) + l.lgocc * i, width, CommutatedName(l.paramDef, i),
               l.paramDef.descr, IsInteger(l.paramDef.ptc), false)
  }

  /**
   The images `f(from)`, ..., `f(bound - 1)` that `keep` accepts, in index
   order: the shape of a `for i in range(...)` loop whose body may
   `continue` past an element.
   */
  function FilterMap<T>(f: nat -> T, keep: T -> bool, from: nat, bound: int): (r: seq<T>)
    ensures |r| <= if from < bound then bound - from else 0
    decreases bound - from
  {
    if from >= bound then []
    else (if keep(f(from)) then [f(from)] else []) + FilterMap(f, keep, from + 1, bound)
  }

  lemma {:induction false} FilterMapSound<T>(f: nat -> T, keep: T -> bool, from: nat, bound: int, x: T)
    requires x in FilterMap(f, keep, from, bound)
    ensures keep(x) && exists i: nat :: from <= i < bound && x == f(i)
    decreases bound - from
  {
    if x !in FilterMap(f, keep, from + 1, bound) {
      assert x == f(from);
    } else {
      FilterMapSound(f, keep, from + 1, bound, x);
    }
  }

  lemma {:induction false} FilterMapComplete<T>(f: nat -> T, keep: T -> bool, from: nat, bound: int, i: nat)
    requires from <= i < bound && keep(f(i))
    ensures f(i) in FilterMap(f, keep, from, bound)
    decreases i - from
  {
    if i > from {
      FilterMapComplete(f, keep, from + 1, bound, i);
    } else {
      assert FilterMap(f, keep, from, bound)[0] == f(i);
    }
  }

  /** One more loop iteration appends the new index's image, if kept, after all earlier ones. */
  lemma {:induction false} FilterMapAppend<T>(f: nat -> T, keep: T -> bool, from: nat, bound: nat)
    requires from <= bound
    ensures FilterMap(f, keep, from, bound + 1) ==
      FilterMap(f, keep, from, bound) + (if keep(f(bound)) then [f(bound)] else [])
    decreases bound - from
  {
    var last := if keep(f(bound)) then [f(bound)] else [];
    if from < bound {
      var head := if keep(f(from)) then [f(from)] else [];
      var longer := FilterMap(f, keep, from + 1, bound + 1);
      var shorter := FilterMap(f, keep, from + 1, bound);
      assert FilterMap(f, keep, from, bound + 1) == head + longer;
      assert FilterMap(f, keep, from, bound) == head + shorter;
      FilterMapAppend(f, keep, from + 1, bound);
      assert head + (shorter + last) == (head + shorter) + last;
    } else {
      assert FilterMap(f, keep, bound + 1, bound + 1) == [];
      assert FilterMap(f, keep, from, bound + 1) == last + [];
    }
  }

  /** When `f` is injective on the range, every kept image is emitted exactly once. */
  lemma {:induction false} FilterMapOnce<T>(f: nat -> T, keep: T -> bool, from: nat, bound: int, i: nat)
    requires from <= i < bound && keep(f(i))
    requires forall j: nat :: from <= j < bound && f(j) == f(i) ==> j == i
    ensures multiset(FilterMap(f, keep, from, bound))[f(i)] == 1
    decreases bound - from
  {
    var rest := FilterMap(f, keep, from + 1, bound);
    var head := if keep(f(from)) then [f(from)] else [];
    assert FilterMap(f, keep, from, bound) == head + rest;
    if i == from {
      if f(i) in rest {
        FilterMapSound(f, keep, from + 1, bound, f(i));
      }
      assert multiset(rest)[f(i)] == 0;
      assert multiset(head)[f(i)] == 1;
    } else {
      assert f(from) != f(i);
      assert multiset(head)[f(i)] == 0;
      FilterMapOnce(f, keep, from + 1, bound, i);
    }
  }

  /** `x` occurs in `r` at some position before one holding `y`. */
  ghost predicate Precedes<T>(r: seq<T>, x: T, y: T) {
    exists a, b :: 0 <= a < b < |r| && r[a] == x && r[b] == y
  }

  /** Kept images come out in index order: the image of `i` precedes that of a later `j`. */
  lemma {:induction false} FilterMapOrdered<T>(f: nat -> T, keep: T -> bool, from: nat, bound: int, i: nat, j: nat)
    requires from <= i < j < bound && keep(f(i)) && keep(f(j))
    ensures Precedes(FilterMap(f, keep, from, bound), f(i), f(j))
    decreases bound - from
  {
    var rest := FilterMap(f, keep, from + 1, bound);
    var head := if keep(f(from)) then [f(from)] else [];
    var r := head + rest;
    assert FilterMap(f, keep, from, bound) == r;
    if i == from {
      FilterMapComplete(f, keep, from + 1, bound, j);
      var b :| 0 <= b < |rest| && rest[b] == f(j);
      assert 0 < b + 1 < |r| && r[0] == f(i) && r[b + 1] == f(j);
      assert Precedes(r, f(i), f(j));
    } else {
      FilterMapOrdered(f, keep, from + 1, bound, i, j);
      var a, b :| 0 <= a < b < |rest| && rest[a] == f(i) && rest[b] == f(j);
      var a', b' := a + |head|, b + |head|;
      assert 0 <= a' < b' < |r| && r[a'] == f(i) && r[b'] == f(j);
      assert Precedes(r, f(i), f(j));
    }
  }

  /** The occurrences of a supercommutated link that survive the PI checks, in index order. */
  function OccurrenceEntries(p: PktDef, l: Link, width: int): (r: seq<Extraction>)
    ensures |r| <= if l.nbocc > 0 then l.nbocc else 0
  {
    FilterMap((i: nat) => Occurrence(l, width, i), (e: Extraction) => ClearOfPIs(p, e.bitPos, width), 0, l.nbocc)
  }

  /**
   Each surviving occurrence is emitted exactly once: distinct occurrences
   carry distinct commutated names.
   */
  lemma OccurrenceOnce(p: PktDef, l: Link, w: int, i: nat)
    requires i < l.nbocc && ClearOfPIs(p, Occurrence(l, w, i).bitPos, w)
    ensures multiset(OccurrenceEntries(p, l, w))[Occurrence(l, w, i)] == 1
  {
    var f := (j: nat) => Occurrence(l, w, j);
    var keep := (x: Extraction) => ClearOfPIs(p, x.bitPos, w);
    forall j: nat | 0 <= j < l.nbocc && f(j) == f(i)
      ensures j == i
    {
      CommutatedNameInjective(l.paramDef, j, i);
    }
    FilterMapOnce(f, keep, 0, l.nbocc, i);
  }

  /** Surviving occurrences are placed in index order. */
  lemma OccurrenceOrdered(p: PktDef, l: Link, w: int, i: nat, j: nat)
    requires i < j < l.nbocc
    requires ClearOfPIs(p, Occurrence(l, w, i).bitPos, w) && ClearOfPIs(p, Occurrence(l, w, j).bitPos, w)
    ensures Precedes(OccurrenceEntries(p, l, w), Occurrence(l, w, i), Occurrence(l, w, j))
  {
    var f := (k: nat) => Occurrence(l, w, k);
    var keep := (x: Extraction) => ClearOfPIs(p, x.bitPos, w);
    assert OccurrenceEntries(p, l, w) == FilterMap(f, keep, 0, l.nbocc);
    FilterMapOrdered(f, keep, 0, l.nbocc, i, j);
  }

  /**
   What one link contributes to the layout: nothing when its width does not
   resolve; with one occurrence, its entry unless it collides with a PI
   range; otherwise each occurrence that does not collide. An occurrence
   count of zero or less contributes nothing.
   */
  function LinkEntries(p: PktDef, key: string, l: Link): (r: seq<Extraction>)
    ensures |r| <= if l.nbocc > 0 then l.nbocc else 0
  {
    match BitWidth(l.paramDef.ptc, l.paramDef.pfc)
    case None => []
    case Some(w) =>
      if l.nbocc == 1 then
        if ClearOfPIs(p, StartBit(l), w) then [Single(key, l, w)] else []
      else
        OccurrenceEntries(p, l, w)
  }

  /**
   Declarative reading of `LinkEntries`: `e` is one of the fields the link
   places, and it is clear of both PI ranges.
   */
  ghost predicate Emits(p: PktDef, key: string, l: Link, e: Extraction) {
    match BitWidth(l.paramDef.ptc, l.paramDef.pfc)
    case None => false
    case Some(w) =>
      && ClearOfPIs(p, e.bitPos, w)
      && if l.nbocc == 1 then e == Single(key, l, w)
         else exists i: nat :: i < l.nbocc && e == Occurrence(l, w, i)
  }

  /** A field is a surviving occurrence exactly when it is an occurrence in range clear of both PI ranges. */
  lemma OccurrenceEntriesMembership(p: PktDef, l: Link, w: int, e: Extraction)
    ensures e in OccurrenceEntries(p, l, w) <==>
      ClearOfPIs(p, e.bitPos, w) && exists i: nat :: i < l.nbocc && e == Occurrence(l, w, i)
  {
    var f := (i: nat) => Occurrence(l, w, i);
    var keep := (x: Extraction) => ClearOfPIs(p, x.bitPos, w);
    assert OccurrenceEntries(p, l, w) == FilterMap(f, keep, 0, l.nbocc);
    if e in OccurrenceEntries(p, l, w) {
      FilterMapSound(f, keep, 0, l.nbocc, e);
    }
    if ClearOfPIs(p, e.bitPos, w) && exists i: nat :: i < l.nbocc && e == Occurrence(l, w, i) {
      var i: nat :| i < l.nbocc && e == Occurrence(l, w, i);
      FilterMapComplete(f, keep, 0, l.nbocc, i);
    }
  }

  /** A link places exactly the fields `Emits` describes. */
  lemma LinkEntriesMembership(p: PktDef, key: string, l: Link, e: Extraction)
    ensures e in LinkEntries(p, key, l) <==> Emits(p, key, l, e)
  {
    match BitWidth(l.paramDef.ptc, l.paramDef.pfc)
    case None =>
    case Some(w) =>
      if l.nbocc != 1 {
        OccurrenceEntriesMembership(p, l, w, e);
      }
  }

  /** A link places each field it emits exactly once. */
  lemma LinkEntriesOnce(p: PktDef, key: string, l: Link, e: Extraction)
    requires Emits(p, key, l, e)
    ensures multiset(LinkEntries(p, key, l))[e] == 1
  {
    match BitWidth(l.paramDef.ptc, l.paramDef.pfc)
    case Some(w) =>
      if l.nbocc != 1 {
        var i: nat :| i < l.nbocc && e == Occurrence(l, w, i);
        OccurrenceOnce(p, l, w, i);
      }
  }

  // ---------------------------------------------------------------------------
  // the layout

  /** The links' keys, each exactly once: the undetermined iteration order of the link dictionary. */
  ghost predicate IsTraversalOrder(p: PktDef, order: seq<string>) {
    && (forall k :: k in order <==> k in p.links)
    && NoDuplicates(order)
  }

  ghost predicate NoDuplicates(order: seq<string>) {
    forall i, j :: 0 <= i < j < |order| ==> order[i] != order[j]
  }

  /** The entries of the link under `key`; a key with no link places nothing. */
  function KeyEntries(p: PktDef, key: string): seq<Extraction> {
    if key in p.links then LinkEntries(p, key, p.links[key]) else []
  }

  /** The entries of the links visited in `order`, one link after the other. */
  function LinkEntriesInOrder(p: PktDef, order: seq<string>): seq<Extraction>
    decreases |order|
  {
    if |order| == 0 then []
    else KeyEntries(p, order[0]) + LinkEntriesInOrder(p, order[1..])
  }

  /** Everything emitted before the final sort, in emission order. */
  function Emitted(p: PktDef, order: seq<string>): seq<Extraction> {
    PIEntries(p) + LinkEntriesInOrder(p, order)
  }

  /**
   `getParamExtractions`: the PI entries and the entries of every link, the
   links visited in `order`, sorted ascending by bit position. The result is
   sorted and is a permutation of what was emitted.
   */
  function ParamExtractions(p: PktDef, order: seq<string>): (r: seq<Extraction>)
    requires IsTraversalOrder(p, order)
    ensures SortedByBitPos(r)
    ensures multiset(r) == multiset(Emitted(p, order))
  {
    SortByBitPos(Emitted(p, order))
  }

  lemma {:induction false} InOrderMembership(p: PktDef, order: seq<string>, e: Extraction)
    requires forall k :: k in order ==> k in p.links
    ensures e in LinkEntriesInOrder(p, order) <==> exists k :: k in order && Emits(p, k, p.links[k], e)
    decreases |order|
  {
    if |order| > 0 {
      var k0, rest := order[0], order[1..];
      assert order == [k0] + rest;
      InOrderCons(p, k0, rest);
      LinkEntriesMembership(p, k0, p.links[k0], e);
      InOrderMembership(p, rest, e);
    }
  }

  /**
   The layout holds exactly the PI entries that survive and the fields every
   link places (`Emits`), whatever the traversal order: each resolvable link
   contributes its clear single entry or its clear occurrences, and nothing
   else appears.
   */
  lemma LayoutMembership(p: PktDef, order: seq<string>, e: Extraction)
    requires IsTraversalOrder(p, order)
    ensures e in ParamExtractions(p, order) <==>
      e in PIEntries(p) || exists k :: k in p.links && Emits(p, k, p.links[k], e)
  {
    var r := ParamExtractions(p, order);
    assert e in r <==> e in multiset(r);
    assert e in Emitted(p, order) <==> e in multiset(Emitted(p, order));
    InOrderMembership(p, order, e);
  }

  lemma EmitsIsNotPI(p: PktDef, key: string, l: Link, e: Extraction)
    requires Emits(p, key, l, e)
    ensures !e.piValue && ClearOfPIs(p, e.bitPos, e.bitWidth)
  {
  }

  /**
   The PI1 entry is present iff PI1's value is set; the PI2 entry iff PI2's
   value is set and its range does not overlap PI1's. No other entry is
   flagged as an identification field.
   */
  lemma PIEntriesInLayout(p: PktDef, order: seq<string>)
    requires IsTraversalOrder(p, order)
    ensures PI1Entry(p) in ParamExtractions(p, order) <==> p.pi1val.Some?
    ensures PI2Entry(p) in ParamExtractions(p, order) <==> PI2Kept(p)
    ensures forall e :: e in ParamExtractions(p, order) && e.piValue ==> e == PI1Entry(p) || e == PI2Entry(p)
  {
    PI1InLayout(p, order);
    PI2InLayout(p, order);
    forall e | e in ParamExtractions(p, order) && e.piValue
      ensures e == PI1Entry(p) || e == PI2Entry(p)
    {
      OnlyPIEntriesArePI(p, order, e);
    }
  }

  lemma PI1InLayout(p: PktDef, order: seq<string>)
    requires IsTraversalOrder(p, order)
    ensures PI1Entry(p) in ParamExtractions(p, order) <==> p.pi1val.Some?
  {
    PIEntryDistinct(p);
    OnlyPIEntriesArePI(p, order, PI1Entry(p));
  }

  lemma PI2InLayout(p: PktDef, order: seq<string>)
    requires IsTraversalOrder(p, order)
    ensures PI2Entry(p) in ParamExtractions(p, order) <==> PI2Kept(p)
  {
    PIEntryDistinct(p);
    OnlyPIEntriesArePI(p, order, PI2Entry(p));
  }

  /** The two PI entries differ in name as well as in description. */
  lemma PIEntryDistinct(p: PktDef)
    ensures PI1Entry(p).name != PI2Entry(p).name
    ensures PI1Entry(p) != PI2Entry(p)
  {
    var k := |p.name| + 3;
    assert PI1Entry(p).name[k] == '1' && PI2Entry(p).name[k] == '2';
  }

  /** An identification-field entry of the layout is one of the PI entries emitted first. */
  lemma OnlyPIEntriesArePI(p: PktDef, order: seq<string>, e: Extraction)
    requires IsTraversalOrder(p, order)
    requires e.piValue
    ensures e in ParamExtractions(p, order) <==> e in PIEntries(p)
  {
    LayoutMembership(p, order, e);
    if e in ParamExtractions(p, order) && e !in PIEntries(p) {
      var k :| k in p.links && Emits(p, k, p.links[k], e);
      EmitsIsNotPI(p, k, p.links[k], e);
    }
  }

  /**
   No parameter entry overlaps PI1's range when PI1's value is set, nor PI2's
   range when PI2's value is set, even if the PI2 entry itself was dropped.
   */
  lemma ParametersClearOfPIs(p: PktDef, order: seq<string>)
    requires IsTraversalOrder(p, order)
    ensures forall e :: e in ParamExtractions(p, order) && !e.piValue ==>
      && (p.pi1val.Some? ==> !RangeOverlap(Some(p.pi1off * 8), p.pi1wid, Some(e.bitPos), e.bitWidth))
      && (p.pi2val.Some? ==> !RangeOverlap(Some(p.pi2off * 8), p.pi2wid, Some(e.bitPos), e.bitWidth))
  {
    forall e | e in ParamExtractions(p, order) && !e.piValue
      ensures ClearOfPIs(p, e.bitPos, e.bitWidth)
    {
      LayoutMembership(p, order, e);
      ParameterClearOfPIs(p, e);
    }
  }

  /** A non-PI field that is a PI entry or placed by some link is clear of both PI ranges. */
  lemma ParameterClearOfPIs(p: PktDef, e: Extraction)
    requires !e.piValue
    requires e in PIEntries(p) || exists k :: k in p.links && Emits(p, k, p.links[k], e)
    ensures ClearOfPIs(p, e.bitPos, e.bitWidth)
  {
    var k :| k in p.links && Emits(p, k, p.links[k], e);
    EmitsIsNotPI(p, k, p.links[k], e);
  }

  lemma InOrderCons(p: PktDef, k: string, o: seq<string>)
    ensures LinkEntriesInOrder(p, [k] + o) == KeyEntries(p, k) + LinkEntriesInOrder(p, o)
  {
    assert ([k] + o)[0] == k;
    assert ([k] + o)[1..] == o;
  }

  lemma {:induction false} InOrderAppend(p: PktDef, a: seq<string>, b: seq<string>)
    ensures LinkEntriesInOrder(p, a + b) == LinkEntriesInOrder(p, a) + LinkEntriesInOrder(p, b)
    decreases |a|
  {
    if |a| == 0 {
      assert a + b == b;
    } else {
      var k, t := a[0], a[1..];
      var h := KeyEntries(p, k);
      calc {
        LinkEntriesInOrder(p, a + b);
      == { assert a + b == [k] + (t + b); InOrderCons(p, k, t + b); }
        h + LinkEntriesInOrder(p, t + b);
      == { InOrderAppend(p, t, b); }
        h + (LinkEntriesInOrder(p, t) + LinkEntriesInOrder(p, b));
      ==
        (h + LinkEntriesInOrder(p, t)) + LinkEntriesInOrder(p, b);
      == { assert a == [k] + t; InOrderCons(p, k, t); }
        LinkEntriesInOrder(p, a) + LinkEntriesInOrder(p, b);
      }
    }
  }

  /** Removing the entry at `j` from a duplicate-free order removes exactly that key. */
  lemma RemoveAt(o: seq<string>, j: int)
    requires NoDuplicates(o) && 0 <= j < |o|
    ensures NoDuplicates(o[..j] + o[j + 1..])
    ensures forall x :: x in o[..j] + o[j + 1..] <==> x in o && x != o[j]
  {
    var rest := o[..j] + o[j + 1..];
    forall a, b | 0 <= a < b < |rest| ensures rest[a] != rest[b] {
      var a' := if a < j then a else a + 1;
      var b' := if b < j then b else b + 1;
      assert rest[a] == o[a'] && rest[b] == o[b'];
    }
    forall x ensures x in rest <==> x in o && x != o[j] {
      if x in rest {
        var i :| 0 <= i < |rest| && rest[i] == x;
        var i' := if i < j then i else i + 1;
        assert o[i'] == x && i' != j;
      }
      if x in o && x != o[j] {
        var i' :| 0 <= i' < |o| && o[i'] == x;
        var i := if i' < j then i' else i' - 1;
        assert rest[i] == x;
      }
    }
  }

  /** The entries of the link at position `j` can be pulled out of the traversal. */
  lemma PullOut(p: PktDef, o: seq<string>, j: int)
    requires 0 <= j < |o|
    ensures multiset(LinkEntriesInOrder(p, o)) ==
      multiset(KeyEntries(p, o[j])) + multiset(LinkEntriesInOrder(p, o[..j] + o[j + 1..]))
  {
    var k := o[j];
    var before, after := o[..j], o[j + 1..];
    assert o == before + ([k] + after);
    InOrderAppend(p, before, [k] + after);
    InOrderAppend(p, [k], after);
    InOrderAppend(p, before, after);
    assert LinkEntriesInOrder(p, [k]) == KeyEntries(p, k) by {
      assert [k][1..] == [];
    }
  }

  /** Visiting the same keys in another order emits the same multiset of entries. */
  lemma {:induction false} InOrderPermutation(p: PktDef, o1: seq<string>, o2: seq<string>)
    requires NoDuplicates(o1) && NoDuplicates(o2)
    requires forall k :: k in o1 <==> k in o2
    ensures multiset(LinkEntriesInOrder(p, o1)) == multiset(LinkEntriesInOrder(p, o2))
    decreases |o1|
  {
    assert |o2| > 0 ==> o2[0] in o2;
    if |o1| == 0 {
      if |o2| > 0 {
        assert false;
      }
    } else {
      var k := o1[0];
      assert k in o2;
      var j :| 0 <= j < |o2| && o2[j] == k;
      var rest1, rest2 := o1[1..], o2[..j] + o2[j + 1..];
      RemoveAt(o1, 0);
      RemoveAt(o2, j);
      assert o1[..0] + o1[1..] == rest1;
      forall x ensures x in rest1 <==> x in rest2 {
        assert x in rest1 <==> x in o1 && x != k;
        assert x in rest2 <==> x in o2 && x != k;
      }
      InOrderPermutation(p, rest1, rest2);
      PullOut(p, o2, j);
    }
  }

  /**
   The traversal order of the links does not matter: any two orders give
   the same entries, with the same multiplicities.
   */
  lemma TraversalOrderIrrelevant(p: PktDef, o1: seq<string>, o2: seq<string>)
    requires IsTraversalOrder(p, o1) && IsTraversalOrder(p, o2)
    ensures multiset(ParamExtractions(p, o1)) == multiset(ParamExtractions(p, o2))
  {
    InOrderPermutation(p, o1, o2);
  }

  // ---------------------------------------------------------------------------
  // single lookup

  /**
   What `getParamExtraction` comes to. `NoSuchField`, `UnsupportedWidth` and
   `InvalidSelector` are its three `None` returns; `SelectorNotInteger` is the
   `ValueError` of `int()` on the text after `#`; `UndefinedFieldName` is a
   selector the code accepts and then fails on, because the name it builds
   the extraction with is not defined in that method (the position and width
   are already computed at that point).
   */
  datatype Lookup =
    | NoSuchField
    | UnsupportedWidth
    | SelectorNotInteger
    | InvalidSelector(commutation: int)
    | Found(extraction: Extraction)
    | UndefinedFieldName(bitPos: int, bitWidth: int)

  /**
   `getParamExtraction(name)`: looks the full name (a `#` included) up among
   the links. An unlinked name is "no such field"; an unresolvable width
   fails; a name without `#` yields the field at the link's start bit; after
   `#`, a selector below 1 is refused, and selector `k` addresses the bit
   `lgocc * (k - 1)` after the start.
   */
  function GetParamExtraction(p: PktDef, name: string): (r: Lookup)
    ensures r == NoSuchField <==> name !in p.links
    ensures name in p.links && BitWidth(p.links[name].paramDef.ptc, p.links[name].paramDef.pfc).None?
      ==> r == UnsupportedWidth
    ensures r.Found? ==> '#' !in name && r.extraction.name == name && !r.extraction.piValue
    ensures r.InvalidSelector? ==> '#' in name && r.commutation < 1
    ensures name in p.links && '#' !in name ==>
      var l := p.links[name];
      var width := BitWidth(l.paramDef.ptc, l.paramDef.pfc);
      width.Some? ==>
        r == Found(Extraction(StartBit(l), width.value, name, l.paramDef.descr, IsInteger(l.paramDef.ptc), false))
    ensures name in p.links && |Split(name, '#')| >= 2 ==>
      var l := p.links[name];
      var selector := ParseInt(Split(name, '#')[1]);
      BitWidth(l.paramDef.ptc, l.paramDef.pfc).Some? ==>
        && (selector.None? ==> r == SelectorNotInteger)
        && (selector.Some? && selector.value < 1 ==> r == InvalidSelector(selector.value))
  {
    if name !in p.links then
      NoSuchField
    else
      var l := p.links[name];
      match BitWidth(l.paramDef.ptc, l.paramDef.pfc)
      case None => UnsupportedWidth
      case Some(w) =>
        var elements := Split(name, '#');
        SplitCount(name, '#');
        if |elements| == 1 then
          Found(Extraction(StartBit(l), w, name, l.paramDef.descr, IsInteger(l.paramDef.ptc), false))
        else
          match ParseInt(elements[1])
          case None => SelectorNotInteger
          case Some(k) =>
            if k < 1 then InvalidSelector(k)
            else UndefinedFieldName(StartBit(l) + l.lgocc * (k - 1), w)
  }

  /**
   For a plain single-occurrence name the lookup and the layout agree: the
   lookup finds the field, and the layout holds that same field exactly
   when it is clear of the PI ranges.
   */
  lemma LookupAgreesWithLayout(p: PktDef, order: seq<string>, name: string)
    requires IsTraversalOrder(p, order)
    requires name in p.links && '#' !in name && p.links[name].nbocc == 1
    requires BitWidth(p.links[name].paramDef.ptc, p.links[name].paramDef.pfc).Some?
    ensures var l := p.links[name];
      var w := BitWidth(l.paramDef.ptc, l.paramDef.pfc).value;
      var r := GetParamExtraction(p, name);
      && r == Found(Single(name, l, w))
      && (r.extraction in ParamExtractions(p, order) <==> ClearOfPIs(p, StartBit(l), w))
  {
    var l := p.links[name];
    var w := BitWidth(l.paramDef.ptc, l.paramDef.pfc).value;
    var e := Single(name, l, w);
    SplitCount(name, '#');
    assert multiset(name)['#'] == 0;
    LayoutMembership(p, order, e);
    if ClearOfPIs(p, StartBit(l), w) {
      assert Emits(p, name, l, e);
    }
    if e in ParamExtractions(p, order) {
      ParametersClearOfPIs(p, order);
    }
  }

  /**
   Selector `k` (1-based) of a supercommutated name addresses the same bit
   and width as occurrence `k - 1` (0-based) of the layout.
   */
  lemma SelectorMatchesOccurrence(p: PktDef, name: string, k: int)
    requires name in p.links && |Split(name, '#')| >= 2
    requires BitWidth(p.links[name].paramDef.ptc, p.links[name].paramDef.pfc).Some?
    requires ParseInt(Split(name, '#')[1]) == Some(k) && k >= 1
    ensures var l := p.links[name];
      var w := BitWidth(l.paramDef.ptc, l.paramDef.pfc).value;
      var o := Occurrence(l, w, k - 1);
      GetParamExtraction(p, name) == UndefinedFieldName(o.bitPos, o.bitWidth)
  {
    var l := p.links[name];
    var w := BitWidth(l.paramDef.ptc, l.paramDef.pfc).value;
    var o := Occurrence(l, w, k - 1);
    assert o.bitPos == StartBit(l) + l.lgocc * (k - 1) && o.bitWidth == w;
    assert GetParamExtraction(p, name) == UndefinedFieldName(StartBit(l) + l.lgocc * (k - 1), w);
  }
}
