/**
 Parsing of a packet injection request (`TMpacketInjectData`): a flat,
 comma-separated list of parameter names and one of values become an
 ordered list of (name, value) pairs.
 */
module Injection {
  import opened Strings

  /**
   A packet injection request: upper-cased packet name, SPID, the
   (name, value) pairs, and the raw data field and CCSDS segmentation flags,
   which are passed through untouched.
   */
  datatype InjectData<D> = InjectData(
    pktName: string,
    pktSPID: int,
    parameterValues: seq<(string, string)>,
    dataField: D,
    segmentationFlags: int)

  /**
   One list element: `strip()`, then `strip("{")`, then `strip("}")`. The
   result is the middle of the element once runs of blanks and braces are
   cut off both ends; it never starts or ends with a closing brace, and an
   element whose ends are neither blank nor a brace is kept whole.
   */
  function CleanValue(s: string): (r: string)
    ensures |r| <= |s|
    ensures |r| > 0 ==> r[0] != '}' && r[|r| - 1] != '}'
    ensures |s| > 0 && s[0] !in Braced && s[|s| - 1] !in Braced ==> r == s
  {
    Strip(Strip(Strip(s, Whitespace), {'{'}), {'}'})
  }

  /**
   What cleaning keeps is the middle of the element: a run of blanks and
   braces is cut off each end, and the cleaned name is that middle
   upper-cased.
   */
  lemma CleanIsMiddle(s: string)
    ensures exists i, j :: Between(s, Braced, i, j) && CleanValue(s) == s[i..j] && CleanName(s) == Upper(s[i..j])
  {
    StripThrice(s, Whitespace, {'{'}, {'}'});
    assert Whitespace + {'{'} + {'}'} == Braced;
  }

  /** Whitespace and both braces: what the cleaning may take off an element's ends. */
  const Braced: set<char> := Whitespace + {'{', '}'}

  /** A name element: cleaned like a value, then upper-cased. */
  function CleanName(s: string): (r: string)
    ensures |r| == |CleanValue(s)| && |r| <= |s| && IsUpperCase(r)
    ensures |s| > 0 && s[0] !in Braced && s[|s| - 1] !in Braced && IsUpperCase(s) ==> r == s
  {
    Upper(CleanValue(s))
  }

  /** The pair for position `i`, when both cleaned sides are non-empty. */
  function Keep(name: string, value: string): seq<(string, string)> {
    var n := CleanName(name);
    var v := CleanValue(value);
    if |n| > 0 && |v| > 0 then [(n, v)] else []
  }

  /** The kept pairs of two equally long element lists, position by position. */
  function PairUp(names: seq<string>, values: seq<string>): (r: seq<(string, string)>)
    requires |names| == |values|
    ensures |r| <= |names|
    ensures forall k :: 0 <= k < |r| ==> |r[k].0| > 0 && |r[k].1| > 0 && IsUpperCase(r[k].0)
    decreases |names|
  {
    if |names| == 0 then []
    else Keep(names[0], values[0]) + PairUp(names[1..], values[1..])
  }

  /**
   The pair list of `TMpacketInjectData.__init__`: empty when either text is
   empty or the two comma-split lists differ in length; otherwise the
   cleaned pairs, position by position, leaving out those with an empty side.
   */
  function ParameterValues(params: string, values: string): (r: seq<(string, string)>)
    ensures params == "" || values == "" ==> r == []
    ensures |Split(params, ',')| != |Split(values, ',')| ==> r == []
    ensures |r| <= |Split(values, ',')|
    ensures forall k :: 0 <= k < |r| ==> |r[k].0| > 0 && |r[k].1| > 0 && IsUpperCase(r[k].0)
  {
    if params == "" || values == "" then
      []
    else
      var names := Split(params, ',');
      var vals := Split(values, ',');
      if |names| != |vals| then [] else PairUp(names, vals)
  }

  /** `TMpacketInjectData.__init__`. */
  function MakeInjectData<D>(pktSPID: int, pktMnemonic: string, params: string, values: string,
                             dataField: D, segmentationFlags: int): (d: InjectData<D>)
    ensures d.pktName == Upper(pktMnemonic) && IsUpperCase(d.pktName)
    ensures d.pktSPID == pktSPID && d.dataField == dataField && d.segmentationFlags == segmentationFlags
    ensures d.parameterValues == ParameterValues(params, values)
  {
    InjectData(Upper(pktMnemonic), pktSPID, ParameterValues(params, values), dataField, segmentationFlags)
  }

  /**
   Pairs keep the input order: adding one more element to both lists appends
   at most that element's pair at the end.
   */
  lemma {:induction false} PairUpAppend(names: seq<string>, values: seq<string>, n: string, v: string)
    requires |names| == |values|
    ensures PairUp(names + [n], values + [v]) == PairUp(names, values) + Keep(n, v)
    decreases |names|
  {
    if |names| == 0 {
      assert PairUp([n], [v]) == Keep(n, v) + PairUp([], []);
    } else {
      assert (names + [n])[1..] == names[1..] + [n];
      assert (values + [v])[1..] == values[1..] + [v];
      PairUpAppend(names[1..], values[1..], n, v);
    }
  }

  /** Every stored pair is the kept pair of some position `i`. */
  lemma {:induction false} PairUpSound(names: seq<string>, values: seq<string>)
    requires |names| == |values|
    ensures forall pair :: pair in PairUp(names, values) ==>
      exists i :: 0 <= i < |names| && Keep(names[i], values[i]) == [pair]
    decreases |names|
  {
    if |names| > 0 {
      var head := Keep(names[0], values[0]);
      var rest := PairUp(names[1..], values[1..]);
      assert PairUp(names, values) == head + rest;
      PairUpSound(names[1..], values[1..]);
      forall pair | pair in PairUp(names, values)
        ensures exists i :: 0 <= i < |names| && Keep(names[i], values[i]) == [pair]
      {
        if pair in rest {
          var i :| 0 <= i < |names| - 1 && Keep(names[1..][i], values[1..][i]) == [pair];
          assert names[1..][i] == names[i + 1] && values[1..][i] == values[i + 1];
        } else {
          assert Keep(names[0], values[0]) == [pair];
        }
      }
    }
  }

  /** Every position whose cleaned name and value are both non-empty is stored. */
  lemma {:induction false} PairUpComplete(names: seq<string>, values: seq<string>, i: int)
    requires |names| == |values| && 0 <= i < |names|
    requires |CleanName(names[i])| > 0 && |CleanValue(values[i])| > 0
    ensures (CleanName(names[i]), CleanValue(values[i])) in PairUp(names, values)
    decreases |names|
  {
    var head := Keep(names[0], values[0]);
    var rest := PairUp(names[1..], values[1..]);
    assert PairUp(names, values) == head + rest;
    if i > 0 {
      PairUpComplete(names[1..], values[1..], i - 1);
      assert names[1..][i - 1] == names[i] && values[1..][i - 1] == values[i];
    }
  }

  /**
   An element wrapped in braces, with blanks around them, loses the
   wrapping: `" {5} "` is cleaned to `"5"`.
   */
  lemma CleanUnwraps(a: string, x: string, b: string)
    requires forall k :: 0 <= k < |a| ==> a[k] in Whitespace
    requires forall k :: 0 <= k < |b| ==> b[k] in Whitespace
    requires |x| > 0 && x[0] !in Braced && x[|x| - 1] !in Braced
    ensures CleanValue(a + "{" + x + "}" + b) == x
  {
    var s := a + "{" + x + "}" + b;
    var s1 := "{" + x + "}";
    assert s[|a|..|a| + |s1|] == s1;
    assert Between(s, Whitespace, |a|, |a| + |s1|) by {
      forall k | |a| + |s1| <= k < |s|
        ensures s[k] in Whitespace
      {
        assert s[k] == b[k - |a| - |s1|];
      }
    }
    StripOf(s, Whitespace, |a|, |a| + |s1|);
    var s2 := x + "}";
    assert s1[1..|s1|] == s2;
    StripOf(s1, {'{'}, 1, |s1|);
    assert s2[0..|x|] == x;
    StripOf(s2, {'}'}, 0, |x|);
  }

  /**
   The blanks are stripped before the braces, so blanks inside the braces
   stay: `"{ 5 }"` is cleaned to `" 5 "`.
   */
  lemma CleanKeepsInnerBlanks()
    ensures CleanValue("{ 5 }") == " 5 "
  {
    assert Strip("{ 5 }", Whitespace) == "{ 5 }";
    StripOf("{ 5 }", {'{'}, 1, 5);
    assert "{ 5 }"[1..5] == " 5 }";
    StripOf(" 5 }", {'}'}, 0, 3);
    assert " 5 }"[0..3] == " 5 ";
  }

  /** A list without braces, spaces or lower-case letters is stored as it is. */
  lemma CleanPlainText(s: string)
    requires |s| > 0 && IsUpperCase(s)
    requires forall k :: 0 <= k < |s| ==> s[k] !in Whitespace && s[k] != '{' && s[k] != '}'
    ensures CleanValue(s) == s && CleanName(s) == s
  {
    assert Strip(s, Whitespace) == s;
    assert Strip(s, {'{'}) == s;
    assert Strip(s, {'}'}) == s;
  }

  /**
   With both texts non-empty and equally many elements, a pair is stored
   exactly when it is the cleaned name and value of some position and
   neither side is empty.
   */
  lemma ParameterValuesMembership(params: string, values: string, pair: (string, string))
    requires params != "" && values != ""
    requires |Split(params, ',')| == |Split(values, ',')|
    ensures pair in ParameterValues(params, values) <==>
      exists i :: 0 <= i < |Split(params, ',')|
        && pair == (CleanName(Split(params, ',')[i]), CleanValue(Split(values, ',')[i]))
        && |pair.0| > 0 && |pair.1| > 0
  {
    var names, vals := Split(params, ','), Split(values, ',');
    if pair in ParameterValues(params, values) {
      PairUpSound(names, vals);
    }
    if exists i :: 0 <= i < |names| && pair == (CleanName(names[i]), CleanValue(vals[i])) && |pair.0| > 0 && |pair.1| > 0 {
      var i :| 0 <= i < |names| && pair == (CleanName(names[i]), CleanValue(vals[i])) && |pair.0| > 0 && |pair.1| > 0;
      PairUpComplete(names, vals, i);
    }
  }
}
