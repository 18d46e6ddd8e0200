/**
 Concrete packets worked through the layout: what the algorithm gives for
 small definitions, including the places where it does not do what one
 might expect.
 */
module Scenarios {
  import opened Wrappers
  import opened Strings
  import opened TypeWidth
  import opened Parameters
  import opened Extractions
  import opened Packets

  /** A packet "PKT" with an 8-bit PI1 at byte 0 and PI2 at byte `pi2off`, `pi2wid` bits wide. */
  function Packet(pi1val: Option<int>, pi2off: int, pi2wid: int, pi2val: Option<int>, links: map<string, Link>): PktDef {
    PktDef(1000, "PKT", "", 0, 3, 25, 10, true, false,
           0, 8, pi1val, pi2off, pi2wid, pi2val,
           0, 0, 0, 0, links)
  }

  function UnsignedLink(name: string, pfc: int, offby: int, nbocc: int, lgocc: int): Link {
    Link(ParamDef(name, "", 3, pfc, 0, 0), name, 1000, offby, 0, nbocc, lgocc)
  }

  /**
   PI1 at byte 0 (8 bits, value 5) and a 16-bit unsigned parameter at byte 1:
   the layout is the PI1 entry at bit 0 followed by the parameter at bit 8.
   */
  lemma SingleParameterAfterPI1()
    ensures var p := Packet(Some(5), 0, 8, None, map["P1" := UnsignedLink("P1", 12, 1, 1, 0)]);
      ParamExtractions(p, ["P1"]) ==
        [Extraction(0, 8, "PKT_PI1VAL", "PI1 Value", true, true),
         Extraction(8, 16, "P1", "", true, false)]
  {
    var l := UnsignedLink("P1", 12, 1, 1, 0);
    var p := Packet(Some(5), 0, 8, None, map["P1" := l]);
    var e0 := Extraction(0, 8, "PKT_PI1VAL", "PI1 Value", true, true);
    var e1 := Extraction(8, 16, "P1", "", true, false);
    assert PI1Entry(p) == e0;
    assert BitWidth(3, 12) == Some(16);
    assert LinkEntries(p, "P1", l) == [e1];
    assert LinkEntriesInOrder(p, ["P1"]) == [e1];
    TwoSorted(e0, e1);
  }

  lemma TwoSorted(e0: Extraction, e1: Extraction)
    requires e0.bitPos <= e1.bitPos
    ensures SortByBitPos([e0, e1]) == [e0, e1]
  {
    assert [e0, e1][1..] == [e1];
  }

  /**
   Parameters are only checked against PI1 and PI2, never against each
   other: two parameters placed on the same byte both appear, overlapping.
   */
  lemma ParametersMayOverlap()
    ensures var p := Packet(None, 0, 8, None,
                            map["A" := UnsignedLink("A", 4, 2, 1, 0), "B" := UnsignedLink("B", 4, 2, 1, 0)]);
      var a := Extraction(16, 8, "A", "", true, false);
      var b := Extraction(16, 8, "B", "", true, false);
      && a in ParamExtractions(p, ["A", "B"])
      && b in ParamExtractions(p, ["A", "B"])
      && RangeOverlap(Some(a.bitPos), a.bitWidth, Some(b.bitPos), b.bitWidth)
  {
    var la, lb := UnsignedLink("A", 4, 2, 1, 0), UnsignedLink("B", 4, 2, 1, 0);
    var p := Packet(None, 0, 8, None, map["A" := la, "B" := lb]);
    assert BitWidth(3, 4) == Some(8);
    var a := Extraction(16, 8, "A", "", true, false);
    var b := Extraction(16, 8, "B", "", true, false);
    assert "A" != "B";
    assert p.links["A"] == la && p.links["B"] == lb;
    assert Emits(p, "A", la, a) && Emits(p, "B", lb, b);
    LayoutMembership(p, ["A", "B"], a);
    LayoutMembership(p, ["A", "B"], b);
  }

  /**
   A 16-bit PI2 at byte 0 overlaps the 8-bit PI1 there and is dropped, yet
   its range still guards: an 8-bit parameter at byte 1, clear of PI1,
   collides with PI2's bits 8 to 15 and is left out, so the layout holds PI1
   alone.
   */
  lemma DroppedPI2StillRejects()
    ensures var p := Packet(Some(1), 0, 16, Some(2), map["X" := UnsignedLink("X", 4, 1, 1, 0)]);
      && !PI2Kept(p)
      && !RangeOverlap(PI1Pos(p), p.pi1wid, Some(8), 8)
      && ParamExtractions(p, ["X"]) == [Extraction(0, 8, "PKT_PI1VAL", "PI1 Value", true, true)]
  {
    var l := UnsignedLink("X", 4, 1, 1, 0);
    var p := Packet(Some(1), 0, 16, Some(2), map["X" := l]);
    var e0 := Extraction(0, 8, "PKT_PI1VAL", "PI1 Value", true, true);
    assert RangeOverlap(PI1Pos(p), 8, PI2Pos(p), 16);
    assert PI1Entry(p) == e0;
    assert PIEntries(p) == [e0];
    assert BitWidth(3, 4) == Some(8);
    assert !ClearOfPIs(p, StartBit(l), 8);
    assert LinkEntries(p, "X", l) == [];
    assert LinkEntriesInOrder(p, ["X"]) == [];
    assert Emitted(p, ["X"]) == [e0];
  }

  /** A variable-length bit string (PTC 6, PFC 0) has no width and is left out of the layout. */
  lemma VariableBitStringLeftOut(p: PktDef, key: string, l: Link)
    requires l.paramDef.ptc == 6 && l.paramDef.pfc == 0
    ensures LinkEntries(p, key, l) == []
  {
  }

  /**
   Three 16-bit occurrences of `P2` with a 16-bit stride from byte 1 sit at
   bits 8, 24 and 40 under the names `P2_0000`, `P2_0001` and `P2_0002`. With
   an 8-bit PI2 at byte 3, the middle occurrence collides with it and only
   that one is skipped.
   */
  lemma SupercommutatedOccurrences()
    ensures var p := Packet(None, 3, 8, Some(7), map["P2" := UnsignedLink("P2", 12, 1, 3, 16)]);
      && Extraction(8, 16, "P2_0000", "", true, false) in ParamExtractions(p, ["P2"])
      && Extraction(24, 16, "P2_0001", "", true, false) !in ParamExtractions(p, ["P2"])
      && Extraction(40, 16, "P2_0002", "", true, false) in ParamExtractions(p, ["P2"])
      && PI2Entry(p) in ParamExtractions(p, ["P2"])
  {
    StrideOccurrences(StrideLink());
    StrideKept(0);
    StrideDropped();
    StrideKept(2);
    PIEntriesInLayout(StridePacket(), ["P2"]);
  }

  function StrideLink(): Link {
    UnsignedLink("P2", 12, 1, 3, 16)
  }

  function StridePacket(): PktDef {
    Packet(None, 3, 8, Some(7), map["P2" := StrideLink()])
  }

  /** The first and last occurrences of the stride miss PI2's byte and stay in the layout. */
  lemma StrideKept(i: nat)
    requires i == 0 || i == 2
    ensures Occurrence(StrideLink(), 16, i) in ParamExtractions(StridePacket(), ["P2"])
  {
    var l, p := StrideLink(), StridePacket();
    var e := Occurrence(l, 16, i);
    assert BitWidth(3, 12) == Some(16);
    assert p.links["P2"] == l;
    assert ClearOfPIs(p, e.bitPos, 16);
    assert Emits(p, "P2", l, e);
    LayoutMembership(p, ["P2"], e);
  }

  /** The middle occurrence of the stride covers PI2's byte and is skipped. */
  lemma StrideDropped()
    ensures Occurrence(StrideLink(), 16, 1) !in ParamExtractions(StridePacket(), ["P2"])
  {
    var l, p := StrideLink(), StridePacket();
    var e := Occurrence(l, 16, 1);
    assert BitWidth(3, 12) == Some(16);
    assert !ClearOfPIs(p, e.bitPos, 16);
    assert forall k :: k in p.links ==> k == "P2" && p.links[k] == l;
    LayoutMembership(p, ["P2"], e);
  }

  /** The occurrence entries of the stride, names and positions spelled out. */
  lemma StrideOccurrences(l: Link)
    requires l == StrideLink()
    ensures Occurrence(l, 16, 0) == Extraction(8, 16, "P2_0000", "", true, false)
    ensures Occurrence(l, 16, 1) == Extraction(24, 16, "P2_0001", "", true, false)
    ensures Occurrence(l, 16, 2) == Extraction(40, 16, "P2_0002", "", true, false)
  {
    assert Zeros(3) == "000";
    assert Decimal(0) == "0" && Decimal(1) == "1" && Decimal(2) == "2";
  }
}
