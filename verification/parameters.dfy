/**
 Telemetry parameter definitions (`TMparamDef`) and their placement in a
 packet (`TMparamToPkt`, one row of the MIB's PLF table).
 */
module Parameters {
  import opened Wrappers
  import opened Strings

  /**
   A telemetry parameter: unique name, description, the PTC/PFC type codes,
   and the commutation bounds (informational only).
   */
  datatype ParamDef = ParamDef(
    name: string,
    descr: string,
    ptc: int,
    pfc: int,
    minCommutations: int,
    maxCommutations: int)

  /**
   `getCommutatedParamName(i)`: the field name of occurrence `i` of a
   supercommutated parameter, `name + "_" + "%04d" % i`. For the indices
   0..9999 the number part is exactly four digits long.
   */
  function CommutatedName(d: ParamDef, i: nat): (r: string)
    ensures |r| >= |d.name| + 5
    ensures i <= 9999 ==> |r| == |d.name| + 5
  {
    d.name + "_" + Pad4(i)
  }

  /**
   The name starts with the parameter name and an underscore; the rest is all
   digits and reads back as `i`.
   */
  lemma CommutatedNameShape(d: ParamDef, i: nat)
    ensures var r := CommutatedName(d, i);
      && r[..|d.name|] == d.name && r[|d.name|] == '_'
      && AllDigits(r[|d.name| + 1..]) && DigitsValue(r[|d.name| + 1..]) == i
  {
    assert CommutatedName(d, i)[|d.name| + 1..] == Pad4(i);
    Pad4Value(i);
  }

  /** Different occurrences of one parameter never share a field name. */
  lemma CommutatedNameInjective(d: ParamDef, i: nat, j: nat)
    requires CommutatedName(d, i) == CommutatedName(d, j)
    ensures i == j
  {
    CommutatedNameShape(d, i);
    CommutatedNameShape(d, j);
  }

  /**
   One PLF row as the MIB export delivers it. `None` in `nbocc` or `lgocc`
   stands for the empty text field.
   */
  datatype PlfRecord = PlfRecord(
    plfName: string,
    plfSPID: int,
    plfOffby: int,
    plfOffbi: int,
    plfNbocc: Option<int>,
    plfLgocc: Option<int>)

  /**
   The link of one parameter into one packet: byte offset `offby`, bit offset
   `offbi`, occurrence count `nbocc` and stride `lgocc` in bits between
   successive occurrences.
   */
  datatype Link = Link(
    paramDef: ParamDef,
    paramName: string,
    pktSPID: int,
    offby: int,
    offbi: int,
    nbocc: int,
    lgocc: int)

  /** First bit of the (first occurrence of the) linked parameter. */
  function StartBit(l: Link): int {
    l.offbi + l.offby * 8
  }

  /**
   `TMparamToPkt.__init__`: copies the placement of a PLF row. An empty
   occurrence count means a single occurrence and an empty stride means no
   gap; a given value is taken as it is.
   */
  function MakeLink(d: ParamDef, plf: PlfRecord): (l: Link)
    ensures l.paramDef == d && l.paramName == plf.plfName && l.pktSPID == plf.plfSPID
    ensures l.offby == plf.plfOffby && l.offbi == plf.plfOffbi
    ensures plf.plfNbocc.None? ==> l.nbocc == 1
    ensures plf.plfNbocc.Some? ==> l.nbocc == plf.plfNbocc.value
    ensures plf.plfLgocc.None? ==> l.lgocc == 0
    ensures plf.plfLgocc.Some? ==> l.lgocc == plf.plfLgocc.value
  {
    Link(d, plf.plfName, plf.plfSPID, plf.plfOffby, plf.plfOffbi,
         match plf.plfNbocc case None => 1 case Some(n) => n,
         match plf.plfLgocc case None => 0 case Some(g) => g)
  }
}
