/** From the checkboxes of one category to the rows a chart counts. Each
    checkbox is indexed by its catalog entry's display name; the checked
    names, resolved against the shown names, reach the predicate compiler
    as they are, so they are compared with the raw column values. A display
    name differs from the raw value it stands for when the value is NULL or
    empty ("Em Branco") or has surrounding whitespace (stripped); rows with
    such values are dropped by a partial selection that checks their box.
    `Sent` models that hand-over as written; `RawFor` maps the checked names
    back to the raw catalog values, which is what the selection means. The
    service-type catalog keeps only the first spelling of each normalized
    key, so rows spelled otherwise are dropped as well; `RawForKeys` sends
    every spelling of a checked key. */
module Pipeline {
  import opened Base
  import opened Text
  import opened Catalog
  import opened Resolution
  import opened Filters

  /** The checkbox indices of one category: the display names of its
      catalog, in display order. */
  function Labels(items: seq<Item>): (r: seq<string>)
    ensures |r| == |items|
  {
    FormatAndSortSpec(items);
    var es := FormatAndSortItems(items);
    seq(|es|, i requires 0 <= i < |es| => es[i].nome)
  }

  /** Exactly the display names of the catalog's entries are offered. */
  lemma LabelsOffered(items: seq<Item>, l: string)
    ensures l in Labels(items) <==> exists i :: 0 <= i < |items| && Label(items[i].nome) == l
  {
    FormatAndSortSpec(items);
    var es := FormatAndSortItems(items);
    var r := Labels(items);
    if l in r {
      var k :| 0 <= k < |r| && r[k] == l;
      assert es[k] in es;
    }
    if exists i :: 0 <= i < |items| && Label(items[i].nome) == l {
      var i :| 0 <= i < |items| && Label(items[i].nome) == l;
      assert Format(items)[i] in multiset(Format(items));
      assert Format(items)[i] in es;
      var k :| 0 <= k < |es| && es[k] == Format(items)[i];
      assert r[k] == l;
    }
  }

  /** A display name is its own stripped form: it never starts or ends with
      whitespace. */
  lemma LabelIsStripped(nome: Option<string>)
    ensures Strip(Label(nome)) == Label(nome)
  {
    LabelSpec(nome);
    var l := Label(nome);
    if |l| > 0 {
      StripUnpadded(l);
    }
  }

  /** The names a category's checkboxes resolve to. */
  function Selected(items: seq<Item>, flags: seq<bool>): seq<string>
  {
    Resolve(Labels(items), false, Some(flags))
  }

  /** Every name in `sel` is the display name of some catalog entry. */
  predicate NamesOf(items: seq<Item>, sel: seq<string>)
  {
    forall l :: l in sel ==> exists i :: 0 <= i < |items| && Label(items[i].nome) == l
  }

  /** Every resolved name is a display name of the catalog. */
  lemma SelectedAreLabels(items: seq<Item>, flags: seq<bool>)
    ensures NamesOf(items, Selected(items, flags))
  {
    forall l | l in Selected(items, flags)
      ensures exists i :: 0 <= i < |items| && Label(items[i].nome) == l
    {
      RestrictionIsProperSubset(Labels(items), false, Some(flags));
      assert l in Elems(Labels(items));
      LabelsOffered(items, l);
    }
  }

  /** What the row a user meant passes: no restriction, or its display name
      is checked. */
  predicate Meant(sel: seq<string>, x: Option<string>)
  {
    sel == [] || Label(x) in sel
  }

  // ----- As written: the display names are sent as values -----

  /** The list handed to the compiler: every resolved name as a present value. */
  function Sent(sel: seq<string>): (r: seq<Option<string>>)
    ensures |r| == |sel|
  {
    seq(|sel|, i requires 0 <= i < |sel| => Some(sel[i]))
  }

  /** The compiler keeps a row when nothing is selected or when its raw
      value, which cannot be NULL, is itself one of the names. */
  lemma SentMeaning(sel: seq<string>, x: Option<string>)
    ensures DimAdmits(Some(Sent(sel)), x) <==> sel == [] || (x.Some? && x.value in sel)
  {
    if x.Some? && x.value in sel {
      var k :| 0 <= k < |sel| && sel[k] == x.value;
      assert Sent(sel)[k] == x;
    }
  }

  /** Checking only "Em Branco" in a catalog that holds a NULL value and
      another name selects the NULL rows, yet the compiled list drops them. */
  function BlankOnly(labels: seq<string>): (flags: seq<bool>)
    ensures |flags| == |labels|
    ensures forall k :: 0 <= k < |labels| ==> (flags[k] <==> labels[k] == Blank)
  {
    seq(|labels|, k requires 0 <= k < |labels| => labels[k] == Blank)
  }

  lemma OnlyBlankChecked(items: seq<Item>, i: int, j: int)
    requires 0 <= i < |items| && items[i].nome.None?
    requires 0 <= j < |items| && Label(items[j].nome) != Blank
    ensures var sel := Selected(items, BlankOnly(Labels(items)));
      && Blank in sel
      && Meant(sel, None)
      && !DimAdmits(Some(Sent(sel)), None)
  {
    LabelsOffered(items, Blank);
    LabelsOffered(items, Label(items[j].nome));
    BlankOnlyPicksBlank(Labels(items), Label(items[j].nome));
    SentMeaning(Selected(items, BlankOnly(Labels(items))), None);
  }

  /** On any option list holding "Em Branco" and another name, checking only
      "Em Branco" resolves to a list that holds it. */
  lemma BlankOnlyPicksBlank(labels: seq<string>, l: string)
    requires Blank in labels && l in labels && l != Blank
    ensures Blank in Resolve(labels, false, Some(BlankOnly(labels)))
  {
    var flags := BlankOnly(labels);
    var picked := Checked(labels, flags);
    var k :| 0 <= k < |labels| && labels[k] == Blank;
    CheckedElems(labels, flags, Blank);
    assert CheckedAt(labels, flags, k);
    CheckedElems(labels, flags, l);
    assert l !in Elems(picked);
    assert l in Elems(labels);
    assert Resolve(labels, false, Some(flags)) == picked;
  }

  /** A checked name whose raw value carries surrounding whitespace selects
      that value's rows, yet the compiled list drops them. */
  lemma PaddedRowsDropped(items: seq<Item>, flags: seq<bool>, v: string)
    requires Strip(v) != v
    requires Label(Some(v)) in Selected(items, flags)
    ensures var sel := Selected(items, flags);
      && Meant(sel, Some(v))
      && !DimAdmits(Some(Sent(sel)), Some(v))
  {
    var sel := Selected(items, flags);
    SentMeaning(sel, Some(v));
    if v in sel {
      SelectedAreLabels(items, flags);
      var i :| 0 <= i < |items| && Label(items[i].nome) == v;
      LabelIsStripped(items[i].nome);
    }
  }

  // ----- Corrected: the names are mapped back to raw values -----

  /** The raw catalog values whose display name is checked, in catalog order. */
  function RawFor(items: seq<Item>, sel: seq<string>): (r: seq<Option<string>>)
    ensures |r| <= |items|
  {
    if |items| == 0 then []
    else (if Label(items[0].nome) in sel then [items[0].nome] else []) + RawFor(items[1..], sel)
  }

  /** A raw value is sent exactly when it is in the catalog and its display
      name is checked. */
  lemma {:induction false} RawForElems(items: seq<Item>, sel: seq<string>, x: Option<string>)
    ensures x in RawFor(items, sel) <==> (exists i :: 0 <= i < |items| && items[i].nome == x) && Label(x) in sel
  {
    if |items| > 0 {
      RawForElems(items[1..], sel, x);
      if exists i :: 0 <= i < |items[1..]| && items[1..][i].nome == x {
        var i :| 0 <= i < |items[1..]| && items[1..][i].nome == x;
        assert items[i + 1].nome == x;
      }
      if exists i :: 0 <= i < |items| && items[i].nome == x {
        var i :| 0 <= i < |items| && items[i].nome == x;
        if i > 0 {
          assert items[1..][i - 1].nome == x;
        }
      }
    }
  }

  /** With the raw values sent, a partial selection of display names
      keeps exactly the rows whose display name is selected, NULL and padded
      values included. For especialidade, forma_de_pagamento and profissional
      the catalog is `SELECT DISTINCT` of the column over the whole table,
      loaded once when the module is imported, so every counted row's value
      is one of its entries. Service
      types are not: their catalog keeps one spelling per normalized key, and
      `SegmentRawForMeaning` covers them. */
  lemma RawForMeaning(items: seq<Item>, sel: seq<string>, x: Option<string>)
    requires NamesOf(items, sel)
    requires exists i :: 0 <= i < |items| && items[i].nome == x
    ensures DimAdmits(Some(RawFor(items, sel)), x) <==> Meant(sel, x)
  {
    RawForElems(items, sel, x);
    var r := RawFor(items, sel);
    if sel == [] && r != [] {
      RawForElems(items, sel, r[0]);
      assert false;
    }
    if sel != [] {
      assert sel[0] in sel;
      var i :| 0 <= i < |items| && Label(items[i].nome) == sel[0];
      RawForElems(items, sel, items[i].nome);
    }
  }

  /** On a value that is not NULL, not empty and not padded, the display
      name is the value itself, and the written and the corrected lists
      agree. */
  lemma AgreeOnPlainValues(items: seq<Item>, sel: seq<string>, v: string)
    requires NamesOf(items, sel)
    requires v != "" && Strip(v) == v
    requires exists i :: 0 <= i < |items| && items[i].nome == Some(v)
    ensures DimAdmits(Some(Sent(sel)), Some(v)) <==> DimAdmits(Some(RawFor(items, sel)), Some(v))
  {
    SentMeaning(sel, Some(v));
    RawForMeaning(items, sel, Some(v));
    assert Label(Some(v)) == v;
  }

  // ----- Service types: one box per normalized key -----

  /** What a service-type row a user meant passes: no restriction, or the
      box of its normalized key is checked. */
  predicate SegmentMeant(items: seq<Item>, sel: seq<string>, normalize: string -> string, x: Option<string>)
  {
    sel == [] || KeyChecked(items, sel, normalize, x)
  }

  /** Some checked catalog entry has the key of `x`. */
  predicate KeyChecked(items: seq<Item>, sel: seq<string>, normalize: string -> string, x: Option<string>)
  {
    exists i :: 0 <= i < |items| && Label(items[i].nome) in sel && NormOf(items[i].nome, normalize) == NormOf(x, normalize)
  }

  /** The kept entry of a key is spelled as the key's first row. */
  lemma KeptEntryOfKey(raws: seq<Option<string>>, normalize: string -> string, j: nat, i: nat)
    requires j < |raws| && IsFirst(raws, normalize, j)
    requires i < |Kept(raws, normalize, |raws|)|
    requires NormOf(Kept(raws, normalize, |raws|)[i].nome, normalize) == NormOf(raws[j], normalize)
    ensures Kept(raws, normalize, |raws|)[i].nome == raws[j]
  {
    var items := Kept(raws, normalize, |raws|);
    KeptFirstSpelling(raws, normalize, |raws|);
    var m :| 0 <= m < |raws| && IsFirst(raws, normalize, m) && items[i].nome == raws[m];
    if m < j {
      assert false;
    } else if j < m {
      assert false;
    }
  }

  /** The first row of a key is the catalog entry of that key. */
  lemma FirstIsKept(raws: seq<Option<string>>, normalize: string -> string, j: nat) returns (i: nat)
    requires j < |raws| && IsFirst(raws, normalize, j)
    ensures i < |Kept(raws, normalize, |raws|)| && Kept(raws, normalize, |raws|)[i].nome == raws[j]
  {
    var items := Kept(raws, normalize, |raws|);
    KeptCovers(raws, normalize, |raws|);
    assert Covered(raws, normalize, items, j);
    i :| 0 <= i < |items| && NormOf(items[i].nome, normalize) == NormOf(raws[j], normalize);
    KeptEntryOfKey(raws, normalize, j, i);
  }

  /** Only the first spelling of a key is in the catalog. */
  lemma LaterSpellingNotKept(raws: seq<Option<string>>, normalize: string -> string, j: nat, m: nat)
    requires j < m < |raws| && IsFirst(raws, normalize, j) && raws[m] != raws[j]
    requires NormOf(raws[m], normalize) == NormOf(raws[j], normalize)
    ensures forall k :: 0 <= k < |Kept(raws, normalize, |raws|)| ==> Kept(raws, normalize, |raws|)[k].nome != raws[m]
  {
    var items := Kept(raws, normalize, |raws|);
    forall k | 0 <= k < |items| ensures items[k].nome != raws[m] {
      if items[k].nome == raws[m] {
        KeptEntryOfKey(raws, normalize, j, k);
      }
    }
  }

  /** As written, a service type spelled differently from the spelling its
      key kept is dropped even when its box is the one checked: neither the
      display name nor the kept raw value matches it. */
  lemma SegmentSpellingDropped(raws: seq<Option<string>>, normalize: string -> string, j: nat, m: nat)
    requires j < m < |raws| && IsFirst(raws, normalize, j)
    requires raws[j].Some? && raws[j].value != "" && Strip(raws[j].value) == raws[j].value
    requires raws[m].Some? && raws[m] != raws[j]
    requires NormOf(raws[m], normalize) == NormOf(raws[j], normalize)
    ensures var items := Kept(raws, normalize, |raws|);
      && NamesOf(items, [raws[j].value])
      && SegmentMeant(items, [raws[j].value], normalize, raws[m])
      && !DimAdmits(Some(Sent([raws[j].value])), raws[m])
      && !DimAdmits(Some(RawFor(items, [raws[j].value])), raws[m])
  {
    var items := Kept(raws, normalize, |raws|);
    var sel := [raws[j].value];
    var i := FirstIsKept(raws, normalize, j);
    assert Label(items[i].nome) == raws[j].value;
    assert KeyChecked(items, sel, normalize, raws[m]);
    SentMeaning(sel, raws[m]);
    LaterSpellingNotKept(raws, normalize, j, m);
    RawForRejects(items, sel, i, raws[m]);
  }

  /** A list holding a checked entry's value but not `x` rejects `x`. */
  lemma RawForRejects(items: seq<Item>, sel: seq<string>, i: nat, x: Option<string>)
    requires i < |items| && Label(items[i].nome) in sel
    requires forall k :: 0 <= k < |items| ==> items[k].nome != x
    ensures !DimAdmits(Some(RawFor(items, sel)), x)
  {
    RawForElems(items, sel, items[i].nome);
    RawForElems(items, sel, x);
  }

  /** Corrected for service types: every raw spelling the catalog query
      returned whose key belongs to a checked box, in row order. */
  function RawForKeys(raws: seq<Option<string>>, normalize: string -> string, items: seq<Item>, sel: seq<string>): (r: seq<Option<string>>)
    ensures |r| <= |raws|
  {
    if |raws| == 0 then []
    else (if KeyChecked(items, sel, normalize, raws[0]) then [raws[0]] else [])
         + RawForKeys(raws[1..], normalize, items, sel)
  }

  /** A spelling is sent exactly when the query returned it and its key's
      box is checked. */
  lemma {:induction false} RawForKeysElems(raws: seq<Option<string>>, normalize: string -> string, items: seq<Item>, sel: seq<string>, x: Option<string>)
    ensures x in RawForKeys(raws, normalize, items, sel) <==> x in raws && KeyChecked(items, sel, normalize, x)
  {
    if |raws| > 0 {
      RawForKeysElems(raws[1..], normalize, items, sel, x);
      assert raws == [raws[0]] + raws[1..];
    }
  }

  /** With every spelling of a checked key sent, a partial selection keeps
      exactly the service-type rows whose key's box is checked, whatever
      their spelling. */
  lemma SegmentRawForMeaning(raws: seq<Option<string>>, normalize: string -> string, sel: seq<string>, x: Option<string>)
    requires NamesOf(Kept(raws, normalize, |raws|), sel)
    requires x in raws
    ensures var items := Kept(raws, normalize, |raws|);
      DimAdmits(Some(RawForKeys(raws, normalize, items, sel)), x) <==> SegmentMeant(items, sel, normalize, x)
  {
    var items := Kept(raws, normalize, |raws|);
    var r := RawForKeys(raws, normalize, items, sel);
    RawForKeysElems(raws, normalize, items, sel, x);
    if sel == [] && r != [] {
      RawForKeysElems(raws, normalize, items, sel, r[0]);
      assert false;
    }
    if sel != [] {
      assert sel[0] in sel;
      var i :| 0 <= i < |items| && Label(items[i].nome) == sel[0];
      KeptFirstSpelling(raws, normalize, |raws|);
      var m :| 0 <= m < |raws| && IsFirst(raws, normalize, m) && items[i].nome == raws[m];
      assert KeyChecked(items, sel, normalize, raws[m]);
      RawForKeysElems(raws, normalize, items, sel, raws[m]);
    }
  }

  // ----- The whole query -----

  /** The compiler arguments of a query that restricts one category only. */
  function OnlyDim(d: Dim, vs: seq<Option<string>>): (a: FilterArgs)
    ensures Values(a, d) == Some(vs)
  {
    var none: Option<seq<Option<string>>> := None;
    FilterArgs(None, None,
      if d == Especialidade then Some(vs) else none,
      if d == FormaDePagamento then Some(vs) else none,
      if d == Profissional then Some(vs) else none,
      if d == TipoAtendimento then Some(vs) else none,
      None, None)
  }

  /** Such a query always compiles, never fails on a row, and keeps a row
      exactly when the category's list admits its value. */
  lemma OnlyDimQuery(d: Dim, vs: seq<Option<string>>, row: Row, cast: string -> Option<Timestamp>)
    ensures Compile(OnlyDim(d, vs)).Ok?
    ensures Admits(Compile(OnlyDim(d, vs)).value, row, cast) == Ok(DimAdmits(Some(vs), Field(row, d)))
  {
    var a := OnlyDim(d, vs);
    CompiledSemantics(a, row, cast);
  }

  /** The finding at the level of rows: when "Em Branco" is among the
      checked names of a partial selection, a row whose value is NULL is not
      counted as written, and is counted once the names are mapped back. */
  lemma NullRowNotCounted(d: Dim, items: seq<Item>, sel: seq<string>, row: Row, cast: string -> Option<Timestamp>)
    requires NamesOf(items, sel) && Blank in sel
    requires exists i :: 0 <= i < |items| && items[i].nome.None?
    requires Field(row, d).None?
    ensures Meant(sel, Field(row, d))
    ensures Admits(Compile(OnlyDim(d, Sent(sel))).value, row, cast) == Ok(false)
    ensures Admits(Compile(OnlyDim(d, RawFor(items, sel))).value, row, cast) == Ok(true)
  {
    var i :| 0 <= i < |items| && items[i].nome.None?;
    SentMeaning(sel, None);
    OnlyDimQuery(d, Sent(sel), row, cast);
    OnlyDimQuery(d, RawFor(items, sel), row, cast);
    RawForMeaning(items, sel, items[i].nome);
  }
}
