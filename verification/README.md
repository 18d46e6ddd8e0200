# Telemetry packet layout — a Dafny model

This project models the telemetry definition core of the space segment
simulator, found in `SPACE/IF.py`. That core is the part that decides where
each parameter sits inside a TM packet:

- **`TMparamDef`** describes a telemetry parameter by name, its PTC/PFC type
  and format codes, and its commutation limits. `getBitWidth` resolves
  those codes to a width in bits, or raises "ptc/pfc combination not
  supported". `isInteger` classifies the type. `getCommutatedParamName`
  builds the `NAME_0003` style names of supercommutated occurrences.
- **`TMparamToPkt`** places a parameter in a packet: a byte and bit offset,
  a number of occurrences (empty means 1) and a bit stride between them
  (empty means 0).
- **`TMparamExtraction`** is one field of the layout: its bit position,
  width, name, description, whether it is an integer, and whether it is a
  packet-identification (PI) value. Extractions order by bit position.
- **`TMpktDef`** holds the packet header definition: the PI1 and PI2
  offsets, widths and values, the sizes, and the parameter links keyed by
  name.
  - `appendParamLink` adds a link.
  - `rangeOverlap` tests two bit ranges for overlap.
  - `getParamExtractions` builds the layout: PI1, then PI2 unless it
    overlaps PI1, then every occurrence of every linked parameter that does
    not overlap PI1's or PI2's range, all sorted by bit position.
  - `getParamExtraction` looks one field up by name, with an optional
    `#k` occurrence selector.
- **`TMpacketInjectData`** turns a mnemonic and two comma-separated texts,
  one of parameter names and one of values, into the upper-cased name and
  the list of cleaned, non-empty name/value pairs.

## Modules

- `Wrappers` (wrappers.dfy) defines `Option`.
- `Strings` (strings.dfy) covers the parts of Python 2's string library the
  core relies on:
  - `strip()` and `strip(chars)`, `split(",")` and ASCII `upper()`;
  - `"%04d"`;
  - Python 2's `int()` of a decimal text, which also accepts blanks
    between the sign and the digits.
- `TypeWidth` (type_width.dfy) holds `getBitWidth` and `isInteger`. It also
  holds the PTC/PFC width table written row by row, as an independent
  reference. The rows use the parameter types of the SCOS-2000 MIB, with
  the CUC and CDS time codes of CCSDS 301.0-B sections 3.2 and 3.3.
- `Parameters` (parameters.dfy) holds the `TMparamDef` and `TMparamToPkt`
  records and the commutated name.
- `Extractions` (extractions.dfy) holds `TMparamExtraction` and the sort by
  bit position.
- `Packets` (packets.dfy) holds `TMpktDef` and its four methods.
- `Injection` (injection.dfy) holds `TMpacketInjectData`.
- `Scenarios` (scenarios.dfy) works through concrete packets.

### Modelling choices

- **Failures are values.** An exception that `getBitWidth` raises is
  `None`. The layout skips such a link, just as the source catches the
  exception and continues. A lookup returns one `Lookup` outcome per exit
  of the source method.
- **Dictionary order is a parameter.** `getParamExtractions` walks a Python
  dict, whose order the code does not control. The model takes that order
  as `order`: any duplicate-free enumeration of the link keys. The
  multiset of the layout is proved not to depend on it.
- **Integers are unbounded.** Codes, offsets and widths are `int`, because
  the source does integer arithmetic on them without bounds
  (`SPACE/IF.py:343-465`). For example:
  - a negative PFC of PTC 2, 6, 7, 8 or 9 gives a negative width;
  - PTC 3 and 4 give widths 0 to 3 for PFC −4 to −1, and a negative width
    below that;
  - PTC 10 refuses every PFC up to 2, negatives included.

  The model keeps all of these.
- **Where the code does not do what one might expect, the model follows
  the code** (`SPACE/IF.py:174-180` and `SPACE/IF.py:228-280`):
  - A zero-width range counts as overlapping a range that strictly
    contains its position (`ZeroWidthOverlap`).
  - A PI2 that overlaps PI1 is dropped from the layout. Parameters are
    still checked against PI2's range anyway, so a parameter clear of PI1
    can be refused for a PI2 that is not in the layout
    (`DroppedPI2StillRejects`).
  - Parameters are checked against PI1 and PI2 only, never against each
    other. Two parameters on the same bits both appear
    (`ParametersMayOverlap`).
- **The `#` selector branch of `getParamExtraction` fails.** The name it
  builds the extraction with (`fieldName`) is not defined in that method,
  so the code fails at that point. The model returns
  `UndefinedFieldName(bitPos, bitWidth)` with the position and width it
  has already computed. It does not guess a name. A selector that is not
  an integer makes `int()` raise, uncaught, in the source; the model
  returns `SelectorNotInteger`.

## Model

| member | source | states |
|---|---|---|
| TypeWidth.BitWidth | SPACE/IF.py:343-465 | The resolved width is exactly the row of the PTC/PFC table. Every width it returns is a table row. Every table row is what it returns. A code pair outside the table is "not supported". |
| TypeWidth.IsInteger | SPACE/IF.py:337-341 | True exactly for PTC ≤ 4 or PTC 6. Every width such a type resolves to is at most 64 bits. |
| TypeWidth.UnsupportedCombinations | SPACE/IF.py:455-465 | PTC 11, 12, 13, anything ≤ 0 or ≥ 14, and the listed unsupported formats resolve to no width and have no table row. |
| TypeWidth.NonNegativeFormatGivesNonNegativeWidth | SPACE/IF.py:343-465 | A non-negative format code never resolves to a negative width. |
| Parameters.CommutatedName | SPACE/IF.py:333-335 | The occurrence name is the parameter name plus at least five characters, and exactly five for occurrences up to 9999. |
| Parameters.CommutatedNameShape | SPACE/IF.py:333-335 | The occurrence name is the parameter name, `_`, then all-digit text that reads back as the occurrence number. |
| Parameters.CommutatedNameInjective | SPACE/IF.py:333-335 | Distinct occurrences of a parameter get distinct names. |
| Parameters.MakeLink | SPACE/IF.py:83-98 | A link copies name, SPID and offsets from the placement record. An empty occurrence count means 1. An empty stride means 0. |
| Extractions.Insert | SPACE/IF.py:123-131 | Inserting into a bit-ordered list keeps it ordered, adds exactly that element and puts either it or the old head first. |
| Extractions.SortByBitPos | SPACE/IF.py:123-131 | The result is ordered by bit position and is a permutation of the input. |
| Packets.AppendParamLink | SPACE/IF.py:169-172 | The link is stored under its parameter name, replacing any earlier one. All other links and every header field are unchanged. |
| Packets.RangeOverlap | SPACE/IF.py:174-180 | An absent position never overlaps. |
| Packets.RangeOverlapSymmetric | SPACE/IF.py:174-180 | Overlap does not depend on the order of the two ranges. |
| Packets.OverlapIffSharedBit | SPACE/IF.py:174-180 | For positive widths, two ranges overlap exactly when some bit lies in both. |
| Packets.ZeroWidthOverlap | SPACE/IF.py:174-180 | A zero-width range overlaps exactly the ranges that strictly contain its position. |
| Packets.FilterMap | SPACE/IF.py:270-280 | A loop over `range(lo, hi)` that may `continue` past an element emits at most one element per index. |
| Packets.FilterMapSound | SPACE/IF.py:270-280 | Every element the loop emits is accepted and is the image of some index in range. |
| Packets.FilterMapComplete | SPACE/IF.py:270-280 | The image of every index in range that is accepted is emitted. |
| Packets.FilterMapAppend | SPACE/IF.py:270-280 | Running the loop one index further appends that index's image, if accepted, after everything emitted before. |
| Packets.FilterMapOnce | SPACE/IF.py:270-280 | When distinct indices have distinct images, every accepted image is emitted exactly once. |
| Packets.FilterMapOrdered | SPACE/IF.py:270-280 | Accepted images come out in index order: the image of i precedes that of any later accepted j. |
| Packets.OccurrenceEntries | SPACE/IF.py:268-280 | The occurrence loop emits at most max(nbocc, 0) fields. |
| Packets.OccurrenceEntriesMembership | SPACE/IF.py:268-280 | A field is emitted by the occurrence loop exactly when it is occurrence i (i < nbocc) at start + i·stride, named `NAME_%04d`, and clear of both PI ranges. |
| Packets.OccurrenceOnce | SPACE/IF.py:268-280 | Each occurrence that is clear of both PI ranges is emitted exactly once, because distinct occurrences carry distinct `NAME_%04d` names. |
| Packets.OccurrenceOrdered | SPACE/IF.py:268-280 | Surviving occurrences are emitted in the order of their occurrence numbers. |
| Packets.LinkEntries | SPACE/IF.py:242-280 | One link contributes at most max(nbocc, 0) fields. |
| Packets.LinkEntriesMembership | SPACE/IF.py:242-280 | A field comes from a link exactly when the link's width resolves and the field is the single placement (nbocc = 1) or one of the named occurrences (otherwise), clear of PI1 and PI2. |
| Packets.LinkEntriesOnce | SPACE/IF.py:242-280 | A link emits each of its fields exactly once. |
| Packets.ParamExtractions | SPACE/IF.py:216-282 | The layout is ordered by bit position and is a permutation of what the PI and link passes emit. |
| Packets.InOrderMembership | SPACE/IF.py:242-280 | A field is emitted by the pass over the links exactly when some visited link emits it. |
| Packets.LayoutMembership | SPACE/IF.py:216-282 | A field is in the layout exactly when it is a kept PI entry or a field some link emits. |
| Packets.ParameterClearOfPIs | SPACE/IF.py:257-280 | A field without the PI flag that is emitted by some link is clear of both PI ranges. |
| Packets.EmitsIsNotPI | SPACE/IF.py:257-280 | Parameter fields are never marked as PI values and never overlap PI1's or PI2's range. |
| Packets.PIEntriesInLayout | SPACE/IF.py:219-240 | PI1 is in the layout exactly when PI1 has a value. PI2 is in it exactly when PI2 has a value and does not overlap PI1. No other field is marked as a PI value. |
| Packets.PI1InLayout | SPACE/IF.py:219-227 | PI1's entry is in the layout exactly when PI1 has a value. |
| Packets.PI2InLayout | SPACE/IF.py:228-240 | PI2's entry is in the layout exactly when PI2 has a value and its range does not overlap PI1's. |
| Packets.PIEntryDistinct | SPACE/IF.py:225-237 | The PI1 and PI2 entries have different names (`_PI1VAL` and `_PI2VAL`), so they are different fields. |
| Packets.OnlyPIEntriesArePI | SPACE/IF.py:216-282 | A PI-marked field is in the layout exactly when it is one of the kept PI entries. |
| Packets.ParametersClearOfPIs | SPACE/IF.py:257-280 | No parameter field of the layout overlaps PI1's range. None overlaps PI2's range either, even when PI2 itself was dropped. |
| Packets.InOrderCons | SPACE/IF.py:242-280 | Visiting a key first emits its link's fields before those of the remaining keys. |
| Packets.InOrderAppend | SPACE/IF.py:242-280 | Visiting the links in two parts emits the concatenation of the parts' fields. |
| Packets.InOrderPermutation | SPACE/IF.py:242 | Two enumerations of the same link keys emit the same multiset of fields. |
| Packets.TraversalOrderIrrelevant | SPACE/IF.py:242-282 | The layout's multiset of fields does not depend on the dictionary's iteration order. |
| Packets.GetParamExtraction | SPACE/IF.py:182-214 | An unknown name, and only an unknown name, is "no such field". An unresolvable width fails. A name without `#` finds the non-PI field of that name at the link's start bit, with the parameter's width, description and integer flag. After `#`, a selector that does not parse is refused, and so is one below 1, with its value. |
| Packets.LookupAgreesWithLayout | SPACE/IF.py:182-282 | For a plain single-occurrence name, the lookup finds the field at the link's start bit. The layout holds that same field exactly when it is clear of the PI ranges. |
| Packets.SelectorMatchesOccurrence | SPACE/IF.py:200-213 | Selector k ≥ 1 addresses the bit and width of layout occurrence k − 1. The code then fails on the undefined name. |
| Injection.PairUp | SPACE/IF.py:512-516 | Each kept pair has a non-empty upper-case name and a non-empty value. There are at most as many pairs as positions. |
| Injection.ParameterValues | SPACE/IF.py:502-516 | Either text empty, or differing piece counts, give no pairs. Otherwise every pair is non-empty with an upper-case name. |
| Injection.MakeInjectData | SPACE/IF.py:489-516 | The packet name is the upper-cased mnemonic. SPID, data field and segmentation flags are kept. The pairs are those of the two texts. |
| Injection.PairUpAppend | SPACE/IF.py:512-516 | Pairs come out in the order of their positions. Adding a position appends its pair, if kept. |
| Injection.PairUpSound | SPACE/IF.py:512-516 | Every pair comes from some position i, cleaned. |
| Injection.PairUpComplete | SPACE/IF.py:512-516 | Every position whose cleaned name and value are both non-empty yields its pair. |
| Injection.ParameterValuesMembership | SPACE/IF.py:502-516 | A pair is in the list exactly when it is the cleaned name/value at some position and both are non-empty. |
| Injection.CleanValue | SPACE/IF.py:514 | A cleaned value is no longer than the element and never starts or ends with `}`. An element whose ends are neither blank nor braces is kept whole. |
| Injection.CleanName | SPACE/IF.py:513 | A cleaned name is as long as the cleaned value and has no lower-case letter. An upper-case element whose ends are neither blank nor braces is kept whole. |
| Injection.CleanIsMiddle | SPACE/IF.py:513-514 | The cleaned value is the middle of the element once a run of blanks and braces is cut off each end, and the cleaned name is that middle upper-cased. |
| Injection.CleanUnwraps | SPACE/IF.py:513-514 | Blanks, then braces, around an element are all removed: `a + "{" + x + "}" + b` cleans to `x` for blank `a` and `b`. |
| Injection.CleanKeepsInnerBlanks | SPACE/IF.py:514 | Blanks are stripped before the braces, so blanks inside the braces stay: `"{ 5 }"` cleans to `" 5 "`. |
| Injection.CleanPlainText | SPACE/IF.py:513-514 | Cleaning leaves a non-empty upper-case text without blanks or braces unchanged. |
| Strings.Strip | SPACE/IF.py:513-514 | Neither end of the result is in the stripped set. All-stripped text becomes empty. Text with both ends outside the set is unchanged. |
| Strings.StripIsMiddle | SPACE/IF.py:513-514 | The strip is the middle of the text, once a run of the stripped set is cut off each end. |
| Strings.StripOf | SPACE/IF.py:513-514 | Cutting a run of the set off each end, so that both remaining ends are outside it, gives exactly the strip. |
| Strings.StripMiddle | SPACE/IF.py:513-514 | Stripping a middle of a text again gives a middle of that text for the union of the two sets. |
| Strings.StripLeftIsSuffix | SPACE/IF.py:513-514 | Left stripping removes a prefix and keeps the rest. |
| Strings.StripRightIsPrefix | SPACE/IF.py:513-514 | Right stripping removes a suffix and keeps the rest. |
| Strings.Upper | SPACE/IF.py:497 | Same length, no lower-case letters left. Lower-case letters move to upper case and all else is kept. |
| Strings.Split | SPACE/IF.py:505-506 | Splitting gives at least one piece and no piece contains the separator. |
| Strings.SplitCount | SPACE/IF.py:505-510 | The number of pieces is one more than the number of separators. |
| Strings.JoinSplit | SPACE/IF.py:505-506 | Joining the pieces with the separator gives back the text. |
| Strings.SplitJoin | SPACE/IF.py:505-506 | Splitting a join of separator-free pieces gives back the pieces. |
| Strings.Decimal | SPACE/IF.py:335 | The rendering is a non-empty run of digits that starts with `0` only for 0, so it has no leading zeros. |
| Strings.Pad4 | SPACE/IF.py:335 | `%04d` gives at least four digits, and exactly four up to 9999. Below 1000 it starts with a padding `0`. From 1000 on it is the plain decimal rendering. |
| Strings.Pad4Value | SPACE/IF.py:335 | The padded digits read back as the number. |
| Strings.ParseInt | SPACE/IF.py:208 | Once the surrounding whitespace is stripped, `int()` succeeds exactly on digits alone, or on one `-` or `+` followed by blanks and then digits. A negative result comes from a leading `-`, and a positive one never does. |
| Strings.ParseIntDecimal | SPACE/IF.py:208 | `int()` of a number's decimal text gives the number back. |
| Strings.ParseIntNegativeDecimal | SPACE/IF.py:208 | `int()` of `-` followed by a number's decimal text gives the negated number. |
| Strings.ParseNegativeDigits | SPACE/IF.py:208 | `int()` of `-` followed by digits gives minus their value. |
| Strings.ParseIntBlankAfterSign | SPACE/IF.py:208 | Blanks between sign and digits are accepted: `int("- 2")` is −2. |
| Strings.ParseIntReadBack | SPACE/IF.py:208 | For every text `int()` accepts (blanks, an optional sign, blanks after a sign, digits, blanks), the result is the digits' value, negated exactly when the sign is `-`. |
| Strings.SignedReadBack | SPACE/IF.py:208 | The stripped text, a sign with blanks and digits or digits alone, reads as the digits' value, negated for `-`. |
| Strings.ReadBackStrip | SPACE/IF.py:208 | Stripping such a text leaves exactly the sign, the blanks after it and the digits. |
| Strings.StripSurrounding | SPACE/IF.py:513-514 | Stripping blanks around a text whose ends are not blank gives that text back. |
| Strings.StripLeftBlanks | SPACE/IF.py:208 | Left stripping drops a run of blanks in front of text that does not start with one. |
| Scenarios.SingleParameterAfterPI1 | SPACE/IF.py:216-282 | An 8-bit PI1 at byte 0 and a 16-bit parameter at byte 1 give the layout `PKT_PI1VAL`@0 then `P1`@8. |
| Scenarios.ParametersMayOverlap | SPACE/IF.py:257-267 | Two parameters on the same byte both appear in the layout, and they overlap. |
| Scenarios.DroppedPI2StillRejects | SPACE/IF.py:228-265 | A 16-bit PI2 at byte 0 overlaps PI1 and is dropped. An 8-bit parameter at byte 1 is clear of PI1 but still collides with the dropped PI2's range, so the layout is PI1 alone. |
| Scenarios.VariableBitStringLeftOut | SPACE/IF.py:394-397 | A variable-length bit string contributes no field. |
| Scenarios.SupercommutatedOccurrences | SPACE/IF.py:228-280 | Three 16-bit occurrences with a 16-bit stride from byte 1 are `P2_0000`@8, `P2_0001`@24 and `P2_0002`@40. With an 8-bit PI2 at byte 3, PI2 and the first and last occurrences are in the layout, and the middle one is not. |
| Scenarios.StrideKept | SPACE/IF.py:269-280 | Occurrences 0 and 2 of that stride miss PI2's byte and are in the layout. |
| Scenarios.StrideDropped | SPACE/IF.py:275-277 | Occurrence 1 of that stride covers PI2's byte and is not in the layout. |
| Scenarios.StrideOccurrences | SPACE/IF.py:269-272 | The stride's occurrences 0, 1 and 2 are named `P2_0000`, `P2_0001` and `P2_0002`, at bits 8, 24 and 40. |

## Left out

- Logging (`LOG`, `LOG_WARNING`): no effect on the results. A warning
  always comes with a skipped field or a `None`, and the model has both.
- `__str__` of every class: text rendering only.
- `__cmp__` of `TMpktDef` (by SPID) and `TMparamDef` (by name): these sort
  the registry's lists, which are not part of this model.
- The `pktDef` back-reference of `TMparamToPkt`: the modelled operations
  never read it, so the link does not hold it.
- The `int()` conversion of non-empty `plfNbocc`/`plfLgocc` texts in
  `TMparamToPkt.__init__`: the placement record already holds numbers or
  `None`. A malformed text, which would raise, is not modelled.
- Extractions.SortByBitPos: it does not state that the sort is stable.
  Python's `list.sort` is stable with `__cmp__`, and the model's insertion
  sort is stable too. The order among fields at the same bit position is
  therefore not stated. Such fields arise from overlapping parameters, and
  also from a zero-width field placed at another field's start bit, which
  does not overlap it.
- Strings.Pad4: negative numbers are not modelled. In Python, `%04d` of
  −5 is `-005`. Occurrence numbers come from `range(nbocc)` and are never
  negative, so the layout never asks for one.
- Packets.GetParamExtraction: for a selector k ≥ 1, the contract does not
  give the bit position. `SelectorMatchesOccurrence` states it: the bit of
  layout occurrence k − 1. Because the code fails on an undefined name
  there, that outcome carries the position and width, and no extraction.
- The configuration record, the interface classes of `SPACE/IF.py` (the
  definitions registry, the onboard computer and queue, the application
  software, the TM packet generator and replayer, the MIL-STD-1553 bus
  and controller) and the module singletons are declarations of
  interfaces whose implementations live elsewhere. They are not part of
  this model.
- `SPACE/MIL.py`, `SIM/TMserver.py` and `UnitTest/testTKIsimple.py` are not
  part of this model.
