/**
 What `Monomer_kp_info` does with one solution page of the upstream
 coefficient database once it has been parsed: find the reference link,
 rewrite the table cells, filter the table headers, pair headers with cells,
 and coerce the Arrhenius fields to numbers where they parse.

 The parsed page is given as plain sequences (anchors, `<td>` texts, `<th>`
 records); Python's `float()` is the parameter `parse`, and `F` stands for
 the floating-point values it produces.
 */
module Scrape {
  import opened Common
  import opened PyOps

  /** An `<a>` element: its visible text and its `href` attribute, if any. */
  datatype Anchor = Anchor(text: string, href: Option<string>)

  /** A `<th>` element: its `id` attribute, if any, and its text. */
  datatype Header = Header(id: Option<string>, text: string)

  /** The parts of one solution page that the pipeline reads, in document order. */
  datatype TablePage = TablePage(anchors: seq<Anchor>, cells: seq<string>, headers: seq<Header>)

  /** A field of an info record: the cell text, or the number it was parsed to. */
  datatype Value<+F> = Text(text: string) | Number(number: F)

  /** An info record: field name (header text) to value. */
  type Record<F> = map<string, Value<F>>

  // ---------------------------------------------------------------------------
  // Reference link
  // ---------------------------------------------------------------------------

  /** The visible text of the anchor that carries a table's literature link. */
  const ReferenceLabel := "Reference"

  predicate IsReference(a: Anchor)
  {
    a.text == ReferenceLabel
  }

  /** `anchors[i]` is the first anchor labelled `Reference`. */
  predicate FirstReference(anchors: seq<Anchor>, i: int)
  {
    && 0 <= i < |anchors|
    && IsReference(anchors[i])
    && forall j :: 0 <= j < i ==> !IsReference(anchors[j])
  }

  /** Every anchor labelled `Reference` has an `href`. */
  predicate ReferencesHaveHrefs(anchors: seq<Anchor>)
  {
    forall i :: 0 <= i < |anchors| && IsReference(anchors[i]) ==> anchors[i].href.Some?
  }

  /** The list comprehension `[a['href'] for a in anchors if a.text == 'Reference']`.
      Reading `href` of a matching anchor that has none raises `KeyError`,
      wherever that anchor stands in the list. */
  function ReferenceHrefs(anchors: seq<Anchor>): (r: Result<seq<string>>)
    ensures r.Ok? <==> ReferencesHaveHrefs(anchors)
    ensures r.Err? ==> r.error == ReferenceWithoutHref
    ensures r.Ok? ==> (|r.value| == 0 <==> forall i :: 0 <= i < |anchors| ==> !IsReference(anchors[i]))
    ensures r.Ok? && |r.value| > 0 ==>
              exists i :: FirstReference(anchors, i) && anchors[i].href == Some(r.value[0])
    decreases |anchors|
  {
    if |anchors| == 0 then Ok([])
    else
      var a, rest := anchors[0], ReferenceHrefs(anchors[1..]);
      assert forall i :: 1 <= i < |anchors| ==> anchors[i] == anchors[1..][i - 1];
      if !IsReference(a) then
        assert rest.Ok? && |rest.value| > 0 ==> exists i :: FirstReference(anchors, i) && anchors[i].href == Some(rest.value[0]) by {
          if rest.Ok? && |rest.value| > 0 {
            var i :| FirstReference(anchors[1..], i) && anchors[1..][i].href == Some(rest.value[0]);
            FirstReferenceShift(anchors, i);
          }
        }
        rest
      else if a.href.None? then Err(ReferenceWithoutHref)
      else if rest.Err? then rest
      else
        assert FirstReference(anchors, 0);
        Ok([a.href.value] + rest.value)
  }

  /** Past a first anchor that is not labelled `Reference`, the first
      `Reference` anchor of the tail is the first of the whole list. */
  lemma FirstReferenceShift(anchors: seq<Anchor>, i: int)
    requires |anchors| > 0 && !IsReference(anchors[0])
    requires FirstReference(anchors[1..], i)
    ensures FirstReference(anchors, i + 1) && anchors[i + 1] == anchors[1..][i]
  {
  }

  /** `[...][0]` applied to the comprehension above: the `href` of the first
      `Reference` anchor, `IndexError` when there is none. */
  function FindReference(anchors: seq<Anchor>): (r: Result<string>)
    ensures r.Ok? <==> ReferencesHaveHrefs(anchors) && exists i :: 0 <= i < |anchors| && IsReference(anchors[i])
    ensures r.Ok? ==> exists i :: FirstReference(anchors, i) && anchors[i].href == Some(r.value)
    ensures r == Err(ReferenceWithoutHref) <==> !ReferencesHaveHrefs(anchors)
    ensures r == Err(NoReferenceLink) <==> forall i :: 0 <= i < |anchors| ==> !IsReference(anchors[i])
    ensures r.Err? ==> r.error == ReferenceWithoutHref || r.error == NoReferenceLink
  {
    match ReferenceHrefs(anchors)
    case Err(e) => Err(e)
    case Ok(hrefs) => if |hrefs| == 0 then Err(NoReferenceLink) else Ok(hrefs[0])
  }

  // ---------------------------------------------------------------------------
  // Cell rewriting
  // ---------------------------------------------------------------------------

  /** The unit suffix of activation energies in the upstream table. */
  const EnergyUnit := " J · mol-1"

  /** The unit suffix of pre-exponential factors in the upstream table. */
  const RateUnit := "L · mol-1s-1"

  /** The three replace-all passes applied to every `<td>` text, in this order:
      the word `Reference` becomes the link, then both unit suffixes go. */
  function RewriteCell(cell: string, ref: string): string
  {
    Replace(Replace(Replace(cell, ReferenceLabel, ref), EnergyUnit, ""), RateUnit, "")
  }

  /** A cell holding none of the three patterns comes out unchanged. */
  lemma RewriteCellPlain(cell: string, ref: string)
    requires !Occurs(cell, ReferenceLabel)
    requires !Occurs(cell, EnergyUnit)
    requires !Occurs(cell, RateUnit)
    ensures RewriteCell(cell, ref) == cell
  {
    ReplaceAbsent(cell, ReferenceLabel, ref);
    ReplaceAbsent(cell, EnergyUnit, "");
    ReplaceAbsent(cell, RateUnit, "");
  }

  /** The reference cell, whose text is exactly `Reference`, becomes the link
      itself. The link is inserted before the unit passes run, so a unit
      suffix inside the link is removed as well; a link holding neither
      suffix comes out intact. */
  lemma RewriteReferenceCell(ref: string)
    ensures RewriteCell(ReferenceLabel, ref) == Replace(Replace(ref, EnergyUnit, ""), RateUnit, "")
    ensures !Occurs(ref, EnergyUnit) && !Occurs(ref, RateUnit) ==> RewriteCell(ReferenceLabel, ref) == ref
  {
    var s := ReferenceLabel;
    assert MatchAt(s, 0, s);
    assert s[|s|..] == "";
    assert Replace("", s, ref) == "";
    assert Replace(s, s, ref) == ref + Replace("", s, ref);
    assert ref + "" == ref;
    if !Occurs(ref, EnergyUnit) && !Occurs(ref, RateUnit) {
      ReplaceAbsent(ref, EnergyUnit, "");
      ReplaceAbsent(ref, RateUnit, "");
    }
  }

  /** Text made only of the characters of a decimal or scientific numeral. */
  predicate IsNumeral(s: string)
  {
    forall i :: 0 <= i < |s| ==> s[i] in "0123456789.eE+-"
  }

  /** `s` ends in `unit`, and no occurrence of `unit` starts inside the numeral before it. */
  lemma StripUnit(v: string, unit: string)
    requires IsNumeral(v)
    requires |unit| > 0 && unit[0] !in "0123456789.eE+-"
    ensures Replace(v + unit, unit, "") == v
  {
    var s := v + unit;
    forall i: nat | i < |v|
      ensures !MatchAt(s, i, unit)
    {
      assert s[i] == v[i];
    }
    ReplacePrefix(v, unit, unit, "");
    assert MatchAt(unit, 0, unit);
    assert unit[|unit|..] == "";
  }

  /** A numeral followed by either unit suffix, or by none, is rewritten to
      the bare numeral: the rewriting strips units and leaves numbers alone. */
  lemma RewriteNumeral(v: string, ref: string)
    requires IsNumeral(v)
    ensures RewriteCell(v, ref) == v
    ensures RewriteCell(v + EnergyUnit, ref) == v
    ensures RewriteCell(v + RateUnit, ref) == v
  {
    RewriteBareNumeral(v, ref);
    RewriteEnergyNumeral(v, ref);
    RewriteRateNumeral(v, ref);
  }

  /** A bare numeral is left alone. */
  lemma RewriteBareNumeral(v: string, ref: string)
    requires IsNumeral(v)
    ensures RewriteCell(v, ref) == v
  {
    NumeralLacksPatterns(v);
    RewriteCellPlain(v, ref);
  }

  /** None of the three patterns occurs in a numeral. */
  lemma NumeralLacksPatterns(v: string)
    requires IsNumeral(v)
    ensures !Occurs(v, ReferenceLabel) && !Occurs(v, EnergyUnit) && !Occurs(v, RateUnit)
  {
    assert 'R' !in v;
    assert 'J' !in v;
    assert 'L' !in v;
    AbsentChar(v, ReferenceLabel, 'R');
    AbsentChar(v, EnergyUnit, 'J');
    AbsentChar(v, RateUnit, 'L');
  }

  /** A character missing from both parts is missing from their concatenation. */
  lemma AbsentFromBoth(a: string, b: string, c: char)
    requires c !in a && c !in b
    ensures c !in a + b
  {
    forall i | 0 <= i < |a + b|
      ensures (a + b)[i] != c
    {
      if i < |a| {
        assert (a + b)[i] == a[i];
      } else {
        assert (a + b)[i] == b[i - |a|];
      }
    }
  }

  /** An activation energy with its unit is rewritten to the bare numeral. */
  lemma RewriteEnergyNumeral(v: string, ref: string)
    requires IsNumeral(v)
    ensures RewriteCell(v + EnergyUnit, ref) == v
  {
    StripUnit(v, EnergyUnit);
    NumeralLacksPatterns(v);
    var e := v + EnergyUnit;
    AbsentFromBoth(v, EnergyUnit, 'R');
    AbsentChar(e, ReferenceLabel, 'R');
    ReplaceAbsent(e, ReferenceLabel, ref);
    ReplaceAbsent(v, RateUnit, "");
    var afterRef := Replace(e, ReferenceLabel, ref);
    assert afterRef == e;
    var afterEnergy := Replace(afterRef, EnergyUnit, "");
    assert afterEnergy == v;
    assert RewriteCell(e, ref) == Replace(afterEnergy, RateUnit, "");
  }

  /** A pre-exponential factor with its unit is rewritten to the bare numeral. */
  lemma RewriteRateNumeral(v: string, ref: string)
    requires IsNumeral(v)
    ensures RewriteCell(v + RateUnit, ref) == v
  {
    StripUnit(v, RateUnit);
    var q := v + RateUnit;
    AbsentFromBoth(v, RateUnit, 'R');
    AbsentFromBoth(v, RateUnit, 'J');
    AbsentChar(q, ReferenceLabel, 'R');
    ReplaceAbsent(q, ReferenceLabel, ref);
    AbsentChar(q, EnergyUnit, 'J');
    ReplaceAbsent(q, EnergyUnit, "");
    var afterRef := Replace(q, ReferenceLabel, ref);
    assert afterRef == q;
    var afterEnergy := Replace(afterRef, EnergyUnit, "");
    assert afterEnergy == q;
    assert RewriteCell(q, ref) == Replace(afterEnergy, RateUnit, "");
  }

  // ---------------------------------------------------------------------------
  // Header filtering
  // ---------------------------------------------------------------------------

  /** Ids of the `<th>` elements that title the table rather than name a field. */
  const ExcludedHeaderIds := ["main-header", "temperature_th", "kp_th"]

  /** A header is kept unless its `id` is one of the excluded ones; a header
      without an `id` is always kept. */
  predicate KeepHeader(h: Header)
  {
    h.id.None? || h.id.value !in ExcludedHeaderIds
  }

  /** The texts of the kept headers, in document order. */
  function HeaderTexts(hs: seq<Header>): seq<string>
    decreases |hs|
  {
    if |hs| == 0 then []
    else
      var last := hs[|hs| - 1];
      HeaderTexts(hs[..|hs| - 1]) + if KeepHeader(last) then [last.text] else []
  }

  /** Every output text belongs to a kept header, and every kept header's
      text is output. */
  lemma {:induction false} HeaderTextsSources(hs: seq<Header>)
    ensures forall j :: 0 <= j < |HeaderTexts(hs)| ==>
              exists i :: 0 <= i < |hs| && KeepHeader(hs[i]) && hs[i].text == HeaderTexts(hs)[j]
    ensures forall i :: 0 <= i < |hs| && KeepHeader(hs[i]) ==> hs[i].text in HeaderTexts(hs)
    decreases |hs|
  {
    if |hs| > 0 {
      var init, r := hs[..|hs| - 1], HeaderTexts(hs);
      var last := hs[|hs| - 1];
      assert r == HeaderTexts(init) + if KeepHeader(last) then [last.text] else [];
      HeaderTextsSources(init);
      assert forall i :: 0 <= i < |init| ==> init[i] == hs[i];
      forall j | 0 <= j < |r|
        ensures exists i :: 0 <= i < |hs| && KeepHeader(hs[i]) && hs[i].text == r[j]
      {
        if j < |HeaderTexts(init)| {
          assert r[j] == HeaderTexts(init)[j];
          var i :| 0 <= i < |init| && KeepHeader(init[i]) && init[i].text == HeaderTexts(init)[j];
          assert hs[i] == init[i];
          assert 0 <= i < |hs| && KeepHeader(hs[i]) && hs[i].text == r[j];
        } else {
          var i := |hs| - 1;
          assert 0 <= i < |hs| && KeepHeader(hs[i]) && hs[i].text == r[j];
        }
      }
      assert forall i :: 0 <= i < |hs| && KeepHeader(hs[i]) ==> hs[i].text in r;
    } else {
      assert HeaderTexts(hs) == [];
    }
  }

  /** When no header carries an excluded id, the output is every header's
      text, position by position. */
  lemma {:induction false} HeaderTextsAllKept(hs: seq<Header>)
    requires forall i :: 0 <= i < |hs| ==> KeepHeader(hs[i])
    ensures |HeaderTexts(hs)| == |hs|
    ensures forall i :: 0 <= i < |hs| ==> HeaderTexts(hs)[i] == hs[i].text
    decreases |hs|
  {
    if |hs| > 0 {
      var init := hs[..|hs| - 1];
      assert forall i :: 0 <= i < |init| ==> init[i] == hs[i];
      HeaderTextsAllKept(init);
    }
  }

  /** How many of the headers are kept. */
  function KeptCount(hs: seq<Header>): nat
    decreases |hs|
  {
    if |hs| == 0 then 0
    else KeptCount(hs[..|hs| - 1]) + (if KeepHeader(hs[|hs| - 1]) then 1 else 0)
  }

  /** The kept headers appear in the output in document order, one entry
      each: the kept header at position `i` lands at the index that counts
      the kept headers before it. */
  lemma {:induction false} HeaderTextsInOrder(hs: seq<Header>)
    ensures |HeaderTexts(hs)| == KeptCount(hs)
    ensures forall i :: 0 <= i < |hs| && KeepHeader(hs[i]) ==>
              KeptCount(hs[..i]) < |HeaderTexts(hs)| && HeaderTexts(hs)[KeptCount(hs[..i])] == hs[i].text
    decreases |hs|
  {
    if |hs| > 0 {
      var n := |hs| - 1;
      var init := hs[..n];
      HeaderTextsInOrder(init);
      forall i | 0 <= i < |hs| && KeepHeader(hs[i])
        ensures KeptCount(hs[..i]) < |HeaderTexts(hs)| && HeaderTexts(hs)[KeptCount(hs[..i])] == hs[i].text
      {
        if i < n {
          assert init[..i] == hs[..i];
          assert init[i] == hs[i];
        } else {
          assert hs[..i] == init;
        }
      }
    }
  }

  /** The header loop as written: `all_th[i]['id']` raises `KeyError` for a
      header without an `id`, and the bare `except` then keeps its text. */
  method FilterHeaders(allTh: seq<Header>) returns (ths: seq<string>)
    ensures ths == HeaderTexts(allTh)
  {
    ths := [];
    var i := 0;
    while i < |allTh|
      invariant 0 <= i <= |allTh|
      invariant ths == HeaderTexts(allTh[..i])
    {
      var h := allTh[i];
      match h.id {
        case None =>
          ths := ths + [h.text];
        case Some(id) =>
          if id !in ExcludedHeaderIds {
            ths := ths + [h.text];
          }
      }
      assert allTh[..i + 1][..i] == allTh[..i];
      i := i + 1;
    }
    assert allTh[..|allTh|] == allTh;
  }

  // ---------------------------------------------------------------------------
  // Lenient numeric coercion
  // ---------------------------------------------------------------------------

  /** The fields the service tries to turn into floats. */
  const NumericFields := ["A", "Ea", "Tmin", "Tmax"]

  /** `float(v)` inside `try`/`except: pass`: text that parses becomes a
      number, text that does not stays as it was. */
  function CoerceValue<F>(v: Value<F>, parse: string -> Option<F>): Value<F>
  {
    match v
    case Text(s) => (match parse(s) case Some(x) => Number(x) case None => v)
    case Number(_) => v
  }

  /** One iteration of the coercion loop; an absent field's `KeyError` is swallowed. */
  function CoerceField<F>(m: Record<F>, key: string, parse: string -> Option<F>): Record<F>
  {
    if key in m then m[key := CoerceValue(m[key], parse)] else m
  }

  /** The coercion loop over `keys`, in order. Each listed field present in
      the record is coerced, every other field is left alone, and no field is
      added or removed. */
  function CoerceFields<F>(m: Record<F>, keys: seq<string>, parse: string -> Option<F>): (r: Record<F>)
    ensures r.Keys == m.Keys
    ensures forall k :: k in m ==> r[k] == if k in keys then CoerceValue(m[k], parse) else m[k]
    decreases |keys|
  {
    if |keys| == 0 then m
    else
      var m' := CoerceField(m, keys[0], parse);
      assert forall k :: k in keys <==> k == keys[0] || k in keys[1..];
      CoerceFields(m', keys[1..], parse)
  }

  /** The value a field named `key` with cell text `text` ends up with, when
      the fields in `keys` are coerced. */
  function CoercedValue<F>(keys: seq<string>, key: string, text: string, parse: string -> Option<F>): Value<F>
  {
    if key in keys && parse(text).Some? then Number(parse(text).value) else Text(text)
  }

  /** The value a field named `key` with cell text `text` ends up with. */
  function FieldValue<F>(key: string, text: string, parse: string -> Option<F>): Value<F>
  {
    CoercedValue(NumericFields, key, text, parse)
  }

  /** A text record with the fields in `keys` coerced. */
  function CoerceTexts<F>(raw: map<string, string>, keys: seq<string>, parse: string -> Option<F>): (r: Record<F>)
    ensures r.Keys == raw.Keys
    ensures forall k :: k in raw ==> r[k] == CoercedValue(keys, k, raw[k], parse)
  {
    CoerceFields(map k | k in raw :: Text(raw[k]), keys, parse)
  }

  /** The text record from the table, then the coercion of `A`, `Ea`, `Tmin`
      and `Tmax`. Only those four can become numbers, an unparsable one keeps
      its text, and the field names are exactly those of the text record. */
  function CoerceRecord<F>(raw: map<string, string>, parse: string -> Option<F>): (r: Record<F>)
    ensures r.Keys == raw.Keys
    ensures forall k :: k in raw ==> r[k] == FieldValue(k, raw[k], parse)
    ensures forall k :: k in r && k !in NumericFields ==> r[k] == Text(raw[k])
  {
    CoerceTexts(raw, NumericFields, parse)
  }

  // ---------------------------------------------------------------------------
  // One solution page to one info record
  // ---------------------------------------------------------------------------

  /** Every `<td>` text after the three replace-all passes. */
  function RewriteCells(cells: seq<string>, ref: string): seq<string>
  {
    seq(|cells|, i requires 0 <= i < |cells| => RewriteCell(cells[i], ref))
  }

  /** The info record of one solution page. Only the reference lookup can
      fail; otherwise the record's field names are the kept header texts that
      have a cell to pair with. */
  function TableRecord<F>(page: TablePage, parse: string -> Option<F>): (r: Result<Record<F>>)
    ensures r.Ok? <==> FindReference(page.anchors).Ok?
    ensures r.Err? ==> r.error == FindReference(page.anchors).error
  {
    match FindReference(page.anchors)
    case Err(e) => Err(e)
    case Ok(ref) =>
      var cells := RewriteCells(page.cells, ref);
      assert ZipLength(HeaderTexts(page.headers), cells) == ZipLength(HeaderTexts(page.headers), page.cells);
      Ok(CoerceRecord(ZipDict(HeaderTexts(page.headers), cells), parse))
  }

  /** Field by field: the field named by the last kept header at position
      `i` holds the rewritten cell `i`, coerced if it is an Arrhenius field. */
  lemma TableRecordFields<F>(page: TablePage, parse: string -> Option<F>, ref: string)
    requires FindReference(page.anchors) == Ok(ref)
    ensures TableRecord(page, parse).Ok?
    ensures var ths := HeaderTexts(page.headers);
            forall k :: k in TableRecord(page, parse).value <==> k in ths[..ZipLength(ths, page.cells)]
    ensures var ths, rec := HeaderTexts(page.headers), TableRecord(page, parse).value;
            forall i :: 0 <= i < ZipLength(ths, page.cells) && LastAt(ths, ZipLength(ths, page.cells), i) ==>
              ths[i] in rec && rec[ths[i]] == FieldValue(ths[i], RewriteCell(page.cells[i], ref), parse)
  {
    var ths := HeaderTexts(page.headers);
    var cells := RewriteCells(page.cells, ref);
    assert ZipLength(ths, cells) == ZipLength(ths, page.cells);
    ZipDictLastWins(ths, cells);
  }

  /** A header with an excluded id never names a field, unless a kept header
      happens to carry the same text. */
  lemma ExcludedHeaderIsNoField<F>(page: TablePage, parse: string -> Option<F>, i: int)
    requires 0 <= i < |page.headers|
    requires !KeepHeader(page.headers[i])
    requires forall j :: 0 <= j < |page.headers| && KeepHeader(page.headers[j]) ==> page.headers[j].text != page.headers[i].text
    requires TableRecord(page, parse).Ok?
    ensures page.headers[i].text !in TableRecord(page, parse).value
  {
    HeaderTextsSources(page.headers);
  }

  // ---------------------------------------------------------------------------
  // An example page
  // ---------------------------------------------------------------------------

  /** The headers of an example solution table, none of which carries an id. */
  const ExampleHeaders := [Header(None, "Temperature"), Header(None, "A"), Header(None, "Ea"),
                          Header(None, "Tmin"), Header(None, "Tmax"), Header(None, "Reference")]

  /** An example solution page: one row of cells, with a unit suffix after
      the `A` and `Ea` numerals, and one Reference anchor carrying the link. */
  function ExamplePage(ref: string, t: string, a: string, ea: string, tmin: string, tmax: string): TablePage
  {
    TablePage([Anchor(ReferenceLabel, Some(ref))],
              [t, a + RateUnit, ea + EnergyUnit, tmin, tmax, ReferenceLabel],
              ExampleHeaders)
  }

  /** The field names of the example page. */
  const ExampleFields := ["Temperature", "A", "Ea", "Tmin", "Tmax", "Reference"]

  /** The example headers are all kept and name six distinct fields. */
  lemma ExampleHeaderTexts()
    ensures HeaderTexts(ExampleHeaders) == ExampleFields
    ensures forall i :: 0 <= i < |ExampleFields| ==> LastAt(ExampleFields, |ExampleFields|, i)
  {
    HeaderTextsAllKept(ExampleHeaders);
    assert "Tmin"[2] != "Tmax"[2];
  }

  /** The example page's reference lookup finds the link. */
  lemma ExampleReference(ref: string, t: string, a: string, ea: string, tmin: string, tmax: string)
    ensures FindReference(ExamplePage(ref, t, a, ea, tmin, tmax).anchors) == Ok(ref)
  {
    assert FirstReference(ExamplePage(ref, t, a, ea, tmin, tmax).anchors, 0);
  }

  /** A field name longer than four characters is not an Arrhenius field. */
  lemma LongFieldNotNumeric(k: string)
    requires |k| > 4
    ensures k !in NumericFields
  {
    forall i | 0 <= i < |NumericFields|
      ensures |NumericFields[i]| <= 4
    {
    }
  }

  /** A page whose kept headers are pairwise distinct and match its cells one
      to one: the record maps each header text to its rewritten cell, coerced
      if it is an Arrhenius field, and has no other field. */
  lemma AlignedRecord<F>(page: TablePage, parse: string -> Option<F>, ref: string, values: seq<string>)
    requires FindReference(page.anchors) == Ok(ref)
    requires var ths := HeaderTexts(page.headers);
             && |ths| == |page.cells| == |values|
             && forall i :: 0 <= i < |ths| ==> LastAt(ths, |ths|, i)
    requires forall i :: 0 <= i < |values| ==> RewriteCell(page.cells[i], ref) == values[i]
    ensures TableRecord(page, parse).Ok?
    ensures var ths, rec := HeaderTexts(page.headers), TableRecord(page, parse).value;
            && (forall k :: k in rec <==> k in ths)
            && forall i :: 0 <= i < |ths| ==> ths[i] in rec && rec[ths[i]] == FieldValue(ths[i], values[i], parse)
  {
    var ths := HeaderTexts(page.headers);
    TableRecordFields(page, parse, ref);
    assert ZipLength(ths, page.cells) == |ths|;
    assert ths[..|ths|] == ths;
  }

  /** The cell values the example page's record is built from, in header order. */
  function ExampleValues(ref: string, t: string, a: string, ea: string, tmin: string, tmax: string): seq<string>
  {
    [t, a, ea, tmin, tmax, ref]
  }

  /** The example page's cells, position by position, rewrite to its values. */
  lemma ExampleCellValues(ref: string, t: string, a: string, ea: string, tmin: string, tmax: string)
    requires IsNumeral(t) && IsNumeral(a) && IsNumeral(ea) && IsNumeral(tmin) && IsNumeral(tmax)
    requires !Occurs(ref, EnergyUnit) && !Occurs(ref, RateUnit)
    ensures var page, values := ExamplePage(ref, t, a, ea, tmin, tmax), ExampleValues(ref, t, a, ea, tmin, tmax);
            && |page.cells| == |values| == |ExampleFields|
            && forall i :: 0 <= i < |values| ==> RewriteCell(page.cells[i], ref) == values[i]
  {
    var page, values := ExamplePage(ref, t, a, ea, tmin, tmax), ExampleValues(ref, t, a, ea, tmin, tmax);
    forall i | 0 <= i < |values|
      ensures RewriteCell(page.cells[i], ref) == values[i]
    {
      ExampleCell(ref, t, a, ea, tmin, tmax, i);
    }
  }

  /** One cell of the example page rewrites to its value: the numerals lose
      their unit suffixes and the cell `Reference` becomes the link. */
  lemma ExampleCell(ref: string, t: string, a: string, ea: string, tmin: string, tmax: string, i: nat)
    requires IsNumeral(t) && IsNumeral(a) && IsNumeral(ea) && IsNumeral(tmin) && IsNumeral(tmax)
    requires !Occurs(ref, EnergyUnit) && !Occurs(ref, RateUnit)
    requires i < 6
    ensures RewriteCell(ExamplePage(ref, t, a, ea, tmin, tmax).cells[i], ref) == ExampleValues(ref, t, a, ea, tmin, tmax)[i]
  {
    var cells := ExamplePage(ref, t, a, ea, tmin, tmax).cells;
    if i == 0 {
      RewriteBareNumeral(t, ref);
    } else if i == 1 {
      assert cells[i] == a + RateUnit;
      RewriteRateNumeral(a, ref);
    } else if i == 2 {
      assert cells[i] == ea + EnergyUnit;
      RewriteEnergyNumeral(ea, ref);
    } else if i == 3 {
      RewriteBareNumeral(tmin, ref);
    } else if i == 4 {
      RewriteBareNumeral(tmax, ref);
    } else {
      RewriteReferenceCell(ref);
    }
  }

  /** The example page's record, field by field in header order. */
  lemma ExampleRecordAligned<F>(ref: string, t: string, a: string, ea: string, tmin: string, tmax: string,
                                parse: string -> Option<F>)
    returns (rec: Record<F>)
    requires IsNumeral(t) && IsNumeral(a) && IsNumeral(ea) && IsNumeral(tmin) && IsNumeral(tmax)
    requires !Occurs(ref, EnergyUnit) && !Occurs(ref, RateUnit)
    ensures TableRecord(ExamplePage(ref, t, a, ea, tmin, tmax), parse) == Ok(rec)
    ensures forall k :: k in rec <==> k in ExampleFields
    ensures var values := ExampleValues(ref, t, a, ea, tmin, tmax);
            forall i :: 0 <= i < |ExampleFields| ==>
              ExampleFields[i] in rec && rec[ExampleFields[i]] == FieldValue(ExampleFields[i], values[i], parse)
  {
    var page := ExamplePage(ref, t, a, ea, tmin, tmax);
    ExampleReference(ref, t, a, ea, tmin, tmax);
    ExampleHeaderTexts();
    ExampleCellValues(ref, t, a, ea, tmin, tmax);
    assert HeaderTexts(page.headers) == ExampleFields;
    AlignedRecord(page, parse, ref, ExampleValues(ref, t, a, ea, tmin, tmax));
    rec := TableRecord(page, parse).value;
  }

  /** An Arrhenius field holds its text coerced; any other field keeps its text. */
  lemma FieldValueCoerces<F>(key: string, text: string, parse: string -> Option<F>)
    ensures key in NumericFields ==> FieldValue(key, text, parse) == CoerceValue(Text(text), parse)
    ensures key !in NumericFields ==> FieldValue(key, text, parse) == Text(text)
  {
  }

  /** The record of the example page: its fields are the six header texts;
      `A`, `Ea`, `Tmin` and `Tmax` hold the bare numerals, coerced where they
      parse; `Temperature` keeps its text and `Reference` holds the link. */
  lemma ExampleRecord<F>(ref: string, t: string, a: string, ea: string, tmin: string, tmax: string,
                         parse: string -> Option<F>)
    returns (rec: Record<F>)
    requires IsNumeral(t) && IsNumeral(a) && IsNumeral(ea) && IsNumeral(tmin) && IsNumeral(tmax)
    requires !Occurs(ref, EnergyUnit) && !Occurs(ref, RateUnit)
    ensures TableRecord(ExamplePage(ref, t, a, ea, tmin, tmax), parse) == Ok(rec)
    ensures forall k :: k in rec <==> k in ExampleFields
    ensures "Temperature" in rec && rec["Temperature"] == Text(t)
    ensures "A" in rec && rec["A"] == CoerceValue(Text(a), parse)
    ensures "Ea" in rec && rec["Ea"] == CoerceValue(Text(ea), parse)
    ensures "Tmin" in rec && rec["Tmin"] == CoerceValue(Text(tmin), parse)
    ensures "Tmax" in rec && rec["Tmax"] == CoerceValue(Text(tmax), parse)
    ensures "Reference" in rec && rec["Reference"] == Text(ref)
  {
    rec := ExampleRecordAligned(ref, t, a, ea, tmin, tmax, parse);
    var f, values := ExampleFields, ExampleValues(ref, t, a, ea, tmin, tmax);
    LongFieldNotNumeric(f[0]);
    LongFieldNotNumeric(f[5]);
    FieldValueCoerces(f[0], t, parse);
    FieldValueCoerces(f[1], a, parse);
    FieldValueCoerces(f[2], ea, parse);
    FieldValueCoerces(f[3], tmin, parse);
    FieldValueCoerces(f[4], tmax, parse);
    FieldValueCoerces(f[5], ref, parse);
  }
}
