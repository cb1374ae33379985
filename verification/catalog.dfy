/** The option catalogs behind the checkbox lists: the de-duplication of
    service types by normalized spelling, the blank-to-"Em Branco" labelling
    and ordering of every catalog, and the extra sort by name applied to
    service types. */
module Catalog {
  import opened Base
  import opened Text
  import opened Sorting

  /** A catalog entry as the database returns it: the raw column value, NULL
      as `None`, under both `id` and `nome`. */
  datatype Item = Item(id: Option<string>, nome: Option<string>)

  /** An entry after formatting: the display name is always a string. */
  datatype Entry = Entry(id: Option<string>, nome: string)

  /** The display name of a NULL or empty value. */
  const Blank: string := "Em Branco"

  // ----- Service types, one per normalized spelling -----

  /** The de-duplication key of a raw value. The database computes it
      (lower case, trimmed, accents removed); NULL stays NULL. */
  function NormOf(raw: Option<string>, normalize: string -> string): Option<string>
  {
    if raw.None? then None else Some(normalize(raw.value))
  }

  /** No earlier row shares row `k`'s key. */
  predicate IsFirst(raws: seq<Option<string>>, normalize: string -> string, k: int)
    requires 0 <= k < |raws|
  {
    forall j :: 0 <= j < k ==> NormOf(raws[j], normalize) != NormOf(raws[k], normalize)
  }

  function Nomes(r: seq<Item>): (ns: seq<Option<string>>)
    ensures |ns| == |r|
  {
    seq(|r|, i requires 0 <= i < |r| => r[i].nome)
  }

  /** Reference: the rows whose key no earlier row has, in row order. */
  function Kept(raws: seq<Option<string>>, normalize: string -> string, k: nat): (r: seq<Item>)
    requires k <= |raws|
  {
    if k == 0 then []
    else Kept(raws, normalize, k - 1)
         + (if IsFirst(raws, normalize, k - 1) then [Item(raws[k - 1], raws[k - 1])] else [])
  }

  lemma {:induction false} KeptFirstSpelling(raws: seq<Option<string>>, normalize: string -> string, k: nat)
    requires k <= |raws|
    ensures forall i :: 0 <= i < |Kept(raws, normalize, k)| ==>
              && Kept(raws, normalize, k)[i].id == Kept(raws, normalize, k)[i].nome
              && exists m :: 0 <= m < k && IsFirst(raws, normalize, m) && Kept(raws, normalize, k)[i].nome == raws[m]
  {
    if k > 0 {
      KeptFirstSpelling(raws, normalize, k - 1);
      var s := Kept(raws, normalize, k - 1);
      var r := Kept(raws, normalize, k);
      var e := Item(raws[k - 1], raws[k - 1]);
      assert r == s + (if IsFirst(raws, normalize, k - 1) then [e] else []);
      forall i | 0 <= i < |r|
        ensures r[i].id == r[i].nome
        ensures exists m :: 0 <= m < k && IsFirst(raws, normalize, m) && r[i].nome == raws[m]
      {
        if i < |s| {
          assert r[i] == s[i];
          var m :| 0 <= m < k - 1 && IsFirst(raws, normalize, m) && s[i].nome == raws[m];
          assert 0 <= m < k && IsFirst(raws, normalize, m) && r[i].nome == raws[m];
        } else {
          assert r[i] == e;
          assert 0 <= k - 1 < k && IsFirst(raws, normalize, k - 1) && r[i].nome == raws[k - 1];
        }
      }
    }
  }

  /** A row that is the first of its key shares it with no earlier kept entry. */
  lemma KeptKeyFresh(raws: seq<Option<string>>, normalize: string -> string, j: nat)
    requires j < |raws| && IsFirst(raws, normalize, j)
    ensures forall i :: 0 <= i < |Kept(raws, normalize, j)| ==>
              NormOf(Kept(raws, normalize, j)[i].nome, normalize) != NormOf(raws[j], normalize)
  {
    var s := Kept(raws, normalize, j);
    KeptFirstSpelling(raws, normalize, j);
    forall i | 0 <= i < |s|
      ensures NormOf(s[i].nome, normalize) != NormOf(raws[j], normalize)
    {
      var m :| 0 <= m < j && IsFirst(raws, normalize, m) && s[i].nome == raws[m];
    }
  }

  lemma {:induction false} KeptDistinct(raws: seq<Option<string>>, normalize: string -> string, k: nat)
    requires k <= |raws|
    ensures forall i, j :: 0 <= i < j < |Kept(raws, normalize, k)| ==>
              NormOf(Kept(raws, normalize, k)[i].nome, normalize) != NormOf(Kept(raws, normalize, k)[j].nome, normalize)
  {
    if k > 0 {
      KeptDistinct(raws, normalize, k - 1);
      var s := Kept(raws, normalize, k - 1);
      var r := Kept(raws, normalize, k);
      if IsFirst(raws, normalize, k - 1) {
        var e := Item(raws[k - 1], raws[k - 1]);
        assert r == s + [e];
        KeptKeyFresh(raws, normalize, k - 1);
        forall i, j | 0 <= i < j < |r|
          ensures NormOf(r[i].nome, normalize) != NormOf(r[j].nome, normalize)
        {
          assert r[i] == s[i];
          if j < |s| {
            assert r[j] == s[j];
          } else {
            assert r[j] == e;
          }
        }
      } else {
        assert r == s + [];
      }
    }
  }

  /** Some entry of `r` has row `j`'s key. */
  predicate Covered(raws: seq<Option<string>>, normalize: string -> string, r: seq<Item>, j: int)
    requires 0 <= j < |raws|
  {
    exists i :: 0 <= i < |r| && NormOf(r[i].nome, normalize) == NormOf(raws[j], normalize)
  }

  lemma {:induction false} KeptCovers(raws: seq<Option<string>>, normalize: string -> string, k: nat)
    requires k <= |raws|
    ensures forall j :: 0 <= j < k ==> Covered(raws, normalize, Kept(raws, normalize, k), j)
  {
    if k > 0 {
      KeptCovers(raws, normalize, k - 1);
      var s := Kept(raws, normalize, k - 1);
      var r := Kept(raws, normalize, k);
      assert forall i :: 0 <= i < |s| ==> r[i] == s[i];
      forall j | 0 <= j < k
        ensures Covered(raws, normalize, r, j)
      {
        if j < k - 1 {
          assert Covered(raws, normalize, s, j);
          var i :| 0 <= i < |s| && NormOf(s[i].nome, normalize) == NormOf(raws[j], normalize);
          assert r[i] == s[i];
        } else if !IsFirst(raws, normalize, k - 1) {
          var j' :| 0 <= j' < k - 1 && NormOf(raws[j'], normalize) == NormOf(raws[k - 1], normalize);
          assert Covered(raws, normalize, s, j');
          var i :| 0 <= i < |s| && NormOf(s[i].nome, normalize) == NormOf(raws[j'], normalize);
          assert r[i] == s[i];
        } else {
          assert r[|s|].nome == raws[k - 1];
        }
      }
    }
  }

  lemma {:induction false} KeptInOrder(raws: seq<Option<string>>, normalize: string -> string, k: nat)
    requires k <= |raws|
    ensures IsSubsequence(Nomes(Kept(raws, normalize, k)), raws[..k])
  {
    if k > 0 {
      KeptInOrder(raws, normalize, k - 1);
      var s := Kept(raws, normalize, k - 1);
      assert raws[..k] == raws[..k - 1] + [raws[k - 1]];
      if IsFirst(raws, normalize, k - 1) {
        SubsequenceSnoc(Nomes(s), raws[..k - 1], raws[k - 1]);
        assert Nomes(Kept(raws, normalize, k)) == Nomes(s) + [raws[k - 1]];
      } else {
        SubsequenceExtend(Nomes(s), raws[..k - 1], raws[k - 1]);
        assert Kept(raws, normalize, k) == s;
      }
    }
  }

  /** The loop of `get_segmentos` over the query rows: keeps a row when its
      key has not been seen, so each key appears once, spelled as it first
      appeared, in the order of the rows, with `id` equal to `nome`. */
  method UniqueSegments(raws: seq<Option<string>>, normalize: string -> string) returns (r: seq<Item>)
    ensures r == Kept(raws, normalize, |raws|)
    ensures forall i :: 0 <= i < |r| ==> r[i].id == r[i].nome
    ensures forall i, j :: 0 <= i < j < |r| ==> NormOf(r[i].nome, normalize) != NormOf(r[j].nome, normalize)
    ensures forall k :: 0 <= k < |raws| ==> Covered(raws, normalize, r, k)
    ensures forall i :: 0 <= i < |r| ==>
              exists k :: 0 <= k < |raws| && IsFirst(raws, normalize, k) && r[i].nome == raws[k]
    ensures IsSubsequence(Nomes(r), raws)
  {
    var vistos: set<Option<string>> := {};
    r := [];
    for k := 0 to |raws|
      invariant r == Kept(raws, normalize, k)
      invariant forall x :: x in vistos <==> exists j :: 0 <= j < k && NormOf(raws[j], normalize) == x
    {
      var norm := NormOf(raws[k], normalize);
      if norm !in vistos {
        r := r + [Item(raws[k], raws[k])];
        vistos := vistos + {norm};
      }
    }
    KeptFirstSpelling(raws, normalize, |raws|);
    KeptDistinct(raws, normalize, |raws|);
    KeptCovers(raws, normalize, |raws|);
    KeptInOrder(raws, normalize, |raws|);
    assert raws[..|raws|] == raws;
  }

  // ----- Labelling and ordering -----

  /** The display name: NULL and empty become "Em Branco", anything else is
      stripped of surrounding whitespace. */
  function Label(nome: Option<string>): string
  {
    if nome.None? || nome.value == "" then Blank else Strip(nome.value)
  }

  function Format(items: seq<Item>): (r: seq<Entry>)
    ensures |r| == |items|
  {
    seq(|items|, i requires 0 <= i < |items| => Entry(items[i].id, Label(items[i].nome)))
  }

  /** The sort key: "Em Branco" sorts as the empty string, ahead of every name. */
  function SortKey(e: Entry): string
  {
    if e.nome == Blank then "" else e.nome
  }

  /** `format_and_sort_items` */
  function FormatAndSortItems(items: seq<Item>): (r: seq<Entry>)
    ensures multiset(r) == multiset(Format(items))
    ensures SortedBy(r, SortKey)
  {
    SortByPermutes(Format(items), SortKey);
    SortBySorted(Format(items), SortKey);
    SortBy(Format(items), SortKey)
  }

  lemma LabelSpec(nome: Option<string>)
    ensures nome.None? ==> Label(nome) == Blank
    ensures nome == Some("") ==> Label(nome) == Blank
    ensures nome.Some? && nome.value != "" ==>
              |Label(nome)| <= |nome.value|
              && (|Label(nome)| > 0 ==> !IsSpace(Label(nome)[0]) && !IsSpace(Label(nome)[|Label(nome)| - 1]))
    ensures nome.Some? && nome.value != "" ==>
              exists i, j :: 0 <= i <= j <= |nome.value| && Label(nome) == nome.value[i..j]
                && (forall k :: 0 <= k < i ==> IsSpace(nome.value[k]))
                && (forall k :: j <= k < |nome.value| ==> IsSpace(nome.value[k]))
  {
    if nome.Some? && nome.value != "" {
      StripIsInfix(nome.value);
    }
  }

  /** Formatting keeps every entry and its id, with no de-duplication, and the
      result is ordered by key, stable, with "Em Branco" at the front. */
  lemma FormatAndSortSpec(items: seq<Item>)
    ensures var r := FormatAndSortItems(items);
      && |r| == |items|
      && multiset(r) == multiset(Format(items))
      && (forall e :: e in r ==>
            exists i :: 0 <= i < |items| && e.id == items[i].id && e.nome == Label(items[i].nome))
      && SortedBy(r, SortKey)
      && (forall k :: WithKey(r, SortKey, k) == WithKey(Format(items), SortKey, k))
  {
    var r := FormatAndSortItems(items);
    SortByPermutes(Format(items), SortKey);
    SortBySorted(Format(items), SortKey);
    forall k ensures WithKey(r, SortKey, k) == WithKey(Format(items), SortKey, k) {
      SortByStable(Format(items), SortKey, k);
    }
    forall e | e in r
      ensures exists i :: 0 <= i < |items| && e.id == items[i].id && e.nome == Label(items[i].nome)
    {
      assert e in multiset(Format(items));
      var i :| 0 <= i < |items| && Format(items)[i] == e;
    }
  }

  /** Everything ahead of a "Em Branco" entry also sorts as the empty string:
      blanks come first. */
  lemma BlankFirst(items: seq<Item>, i: int, j: int)
    requires 0 <= i < j < |FormatAndSortItems(items)|
    requires FormatAndSortItems(items)[j].nome == Blank
    ensures SortKey(FormatAndSortItems(items)[i]) == ""
  {
    SortBySorted(Format(items), SortKey);
    LeEmpty(SortKey(FormatAndSortItems(items)[i]));
  }

  function Nome(e: Entry): string
  {
    e.nome
  }

  /** The service-type catalog: formatted, then sorted plainly by name. */
  function SortedSegments(items: seq<Item>): (r: seq<Entry>)
    ensures multiset(r) == multiset(Format(items))
    ensures SortedBy(r, Nome)
  {
    SortByPermutes(FormatAndSortItems(items), Nome);
    SortBySorted(FormatAndSortItems(items), Nome);
    SortBy(FormatAndSortItems(items), Nome)
  }

  /** The service types end up ordered by their display name, "Em Branco"
      included, keep every formatted entry, and keep the formatting order
      among entries with the same name. */
  lemma SortedSegmentsSpec(items: seq<Item>)
    ensures var r := SortedSegments(items);
      && multiset(r) == multiset(Format(items))
      && SortedBy(r, Nome)
      && (forall k :: WithKey(r, Nome, k) == WithKey(Format(items), Nome, k))
  {
    var f := Format(items);
    var s := FormatAndSortItems(items);
    FormatAndSortSpec(items);
    SortByPermutes(s, Nome);
    SortBySorted(s, Nome);
    forall k ensures WithKey(SortedSegments(items), Nome, k) == WithKey(f, Nome, k) {
      var k1 := if k == Blank then "" else k;
      SortByStable(s, Nome, k);
      WithKeyRefine(s, SortKey, k1, Nome, k);
      WithKeyRefine(f, SortKey, k1, Nome, k);
    }
  }
}
