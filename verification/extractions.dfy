/**
 The computed field descriptors of a packet layout (`TMparamExtraction`) and
 their ordering by bit position.
 */
module Extractions {

  /**
   One field of a packet: absolute first bit, width in bits, field name,
   description, integer classification, and whether it is a synthetic
   identification-field (PI1/PI2) entry.
   */
  datatype Extraction = Extraction(
    bitPos: int,
    bitWidth: int,
    name: string,
    descr: string,
    isInteger: bool,
    piValue: bool)

  /** Ascending by bit position, the only key `TMparamExtraction.__cmp__` compares. */
  ghost predicate SortedByBitPos(s: seq<Extraction>) {
    forall i, j :: 0 <= i < j < |s| ==> s[i].bitPos <= s[j].bitPos
  }

  /** Inserts `e` in front of the first entry that does not come before it. */
  function Insert(e: Extraction, s: seq<Extraction>): (r: seq<Extraction>)
    requires SortedByBitPos(s)
    ensures SortedByBitPos(r)
    ensures multiset(r) == multiset(s) + multiset{e}
    ensures r[0] == e || (|s| > 0 && r[0] == s[0])
    decreases |s|
  {
    if |s| == 0 then
      [e]
    else if e.bitPos <= s[0].bitPos then
      SortedCons(e, s);
      [e] + s
    else
      assert s == [s[0]] + s[1..];
      assert SortedByBitPos(s[1..]);
      var t := Insert(e, s[1..]);
      SortedCons(s[0], t);
      [s[0]] + t
  }

  /** An entry no later than the head of a sorted list can go in front of it. */
  lemma SortedCons(x: Extraction, t: seq<Extraction>)
    requires SortedByBitPos(t)
    requires |t| > 0 ==> x.bitPos <= t[0].bitPos
    ensures SortedByBitPos([x] + t)
  {
  }

  /**
   `list.sort()` with the bit-position comparator: a permutation of the input
   that is ascending by bit position. (Like Python's sort, this insertion sort
   keeps entries with equal positions in input order; that is not stated.)
   */
  function SortByBitPos(s: seq<Extraction>): (r: seq<Extraction>)
    ensures SortedByBitPos(r)
    ensures multiset(r) == multiset(s)
    decreases |s|
  {
    if |s| == 0 then
      []
    else
      assert s == [s[0]] + s[1..];
      Insert(s[0], SortByBitPos(s[1..]))
  }
}
