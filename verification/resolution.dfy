/** Selection resolution: from the checkbox states of one dimension to the
    value list handed to the predicate compiler. Checked options are taken in
    universe order, pairing options with flags as `zip` does; a selection
    that names every option collapses to `[]`, which the compiler reads as
    "no restriction". */
module Resolution {
  import opened Base
  import opened Text

  /** `[x for x, checked in zip(universe, flags) if checked]` */
  function Checked<T>(universe: seq<T>, flags: seq<bool>): seq<T>
    decreases |universe|
  {
    if |universe| == 0 || |flags| == 0 then []
    else (if flags[0] then [universe[0]] else []) + Checked(universe[1..], flags[1..])
  }

  /** Option `i` is shown and checked. */
  predicate CheckedAt<T>(universe: seq<T>, flags: seq<bool>, i: int)
  {
    0 <= i < |universe| && i < |flags| && flags[i]
  }

  /** A value is picked exactly when some option carrying it is shown and
      checked; flags past the end of the universe are ignored and missing
      flags count as unchecked. */
  lemma {:induction false} CheckedElems<T>(universe: seq<T>, flags: seq<bool>, x: T)
    ensures x in Checked(universe, flags) <==>
              exists i :: CheckedAt(universe, flags, i) && universe[i] == x
    decreases |universe|
  {
    if |universe| > 0 && |flags| > 0 {
      CheckedElems(universe[1..], flags[1..], x);
      var rest := Checked(universe[1..], flags[1..]);
      if x in rest {
        var i :| CheckedAt(universe[1..], flags[1..], i) && universe[1..][i] == x;
        assert CheckedAt(universe, flags, i + 1);
      }
      if exists i :: CheckedAt(universe, flags, i) && universe[i] == x {
        var i :| CheckedAt(universe, flags, i) && universe[i] == x;
        if i > 0 {
          assert CheckedAt(universe[1..], flags[1..], i - 1);
        }
      }
    }
  }

  /** The picked values keep the universe's order. */
  lemma {:induction false} CheckedInOrder<T>(universe: seq<T>, flags: seq<bool>)
    ensures IsSubsequence(Checked(universe, flags), universe)
    decreases |universe|
  {
    if |universe| > 0 && |flags| > 0 {
      CheckedInOrder(universe[1..], flags[1..]);
      var rest := Checked(universe[1..], flags[1..]);
      if flags[0] {
        assert ([universe[0]] + rest)[1..] == rest;
      } else {
        SubsequenceCons(universe[0], rest, universe[1..]);
        assert [universe[0]] + universe[1..] == universe;
        assert [] + rest == rest;
      }
    }
  }

  lemma {:induction false} CheckedNone<T>(universe: seq<T>, flags: seq<bool>)
    requires !Any(flags)
    ensures Checked(universe, flags) == []
    decreases |universe|
  {
    if |universe| > 0 && |flags| > 0 {
      assert !flags[0];
      assert !Any(flags[1..]) by {
        forall i | 0 <= i < |flags[1..]| ensures !flags[1..][i] {
          assert flags[1..][i] == flags[i + 1];
        }
      }
      CheckedNone(universe[1..], flags[1..]);
    }
  }

  lemma {:induction false} CheckedAll<T>(universe: seq<T>, flags: seq<bool>)
    requires |flags| >= |universe|
    requires forall i :: 0 <= i < |universe| ==> flags[i]
    ensures Checked(universe, flags) == universe
    decreases |universe|
  {
    if |universe| > 0 {
      CheckedAll(universe[1..], flags[1..]);
      assert [universe[0]] + universe[1..] == universe;
    }
  }

  /** Replaces a selection that names every option by `[]`. */
  function Collapse(selected: seq<string>, universe: seq<string>): seq<string>
  {
    if Elems(selected) == Elems(universe) then [] else selected
  }

  /** One dimension of `get_selected_filters`: a truthy TODOS flag picks every
      option; otherwise a missing or empty flag list picks nothing and a flag
      list picks the checked options; then the collapse applies. */
  function Resolve(universe: seq<string>, todos: bool, flags: Option<seq<bool>>): (r: seq<string>)
    ensures todos ==> r == []
    ensures r != [] ==> Elems(r) != Elems(universe)
  {
    var selected :=
      if todos then universe
      else if flags.None? || |flags.value| == 0 then []
      else Checked(universe, flags.value);
    Collapse(selected, universe)
  }

  /** The inline copy in the yearly ticket callback tests the flag list with
      `is None` instead of truthiness. */
  function ResolveInline(universe: seq<string>, todos: bool, flags: Option<seq<bool>>): (r: seq<string>)
    ensures todos ==> r == []
    ensures flags == Some([]) ==> r == []
    ensures r != [] ==> Elems(r) != Elems(universe)
  {
    var selected :=
      if todos then universe
      else if flags.None? then []
      else Checked(universe, flags.value);
    Collapse(selected, universe)
  }

  /** The two copies always agree: `zip` with an empty flag list picks nothing. */
  lemma CopiesAgree(universe: seq<string>, todos: bool, flags: Option<seq<bool>>)
    ensures Resolve(universe, todos, flags) == ResolveInline(universe, todos, flags)
  {
  }

  /** A checked TODOS box resolves to "no restriction". */
  lemma TodosResolvesEmpty(universe: seq<string>, flags: Option<seq<bool>>)
    ensures Resolve(universe, true, flags) == []
  {
  }

  /** Every option checked resolves to "no restriction". */
  lemma AllCheckedResolvesEmpty(universe: seq<string>, todos: bool, flags: seq<bool>)
    requires |flags| >= |universe|
    requires forall i :: 0 <= i < |universe| ==> flags[i]
    ensures Resolve(universe, todos, Some(flags)) == []
  {
    CheckedAll(universe, flags);
    if |flags| == 0 {
      assert universe == [];
    }
  }

  /** Every option unchecked resolves to "no restriction" too. */
  lemma NoneCheckedResolvesEmpty(universe: seq<string>, flags: Option<seq<bool>>)
    requires flags.Some? ==> !Any(flags.value)
    ensures Resolve(universe, false, flags) == []
  {
    if flags.Some? {
      CheckedNone(universe, flags.value);
    }
  }

  /** Any restriction is a proper, order-preserving subset of the options:
      exactly the values of the shown and checked options. */
  lemma RestrictionIsProperSubset(universe: seq<string>, todos: bool, flags: Option<seq<bool>>)
    requires Resolve(universe, todos, flags) != []
    ensures var r := Resolve(universe, todos, flags);
      && !todos && flags.Some?
      && IsSubsequence(r, universe)
      && Elems(r) < Elems(universe)
      && forall x :: x in r <==> exists i :: CheckedAt(universe, flags.value, i) && universe[i] == x
  {
    var r := Resolve(universe, todos, flags);
    CheckedInOrder(universe, flags.value);
    SubsequenceElems(r, universe);
    forall x ensures x in r <==> exists i :: CheckedAt(universe, flags.value, i) && universe[i] == x {
      CheckedElems(universe, flags.value, x);
    }
  }

  /** `[str(y) for y in ys]` */
  function Strs(ys: seq<int>): (r: seq<string>)
    ensures |r| == |ys|
  {
    seq(|ys|, i requires 0 <= i < |ys| => IntToString(ys[i]))
  }

  /** `range(1, 13)` */
  function MonthNumbers(): (r: seq<int>)
    ensures |r| == 12
  {
    seq(12, i => i + 1)
  }

  /** The resolved lists of all six dimensions. */
  datatype Selection = Selection(
    anos: seq<string>, meses: seq<string>,
    especialidades: seq<string>, pagamentos: seq<string>,
    profissionais: seq<string>, segmentos: seq<string>)

  /** The options and flags of one category, as the pattern-matching inputs
      deliver them: the checkbox indices and their values. */
  datatype Boxes = Boxes(ids: seq<string>, flags: seq<bool>)

  /** `get_selected_filters`. The category TODOS flags are passed in but never
      read, so they are not parameters here. */
  function GetSelectedFilters(
    years: seq<int>, yearFlags: Option<seq<bool>>, monthFlags: Option<seq<bool>>,
    esp: Boxes, pag: Boxes, prof: Boxes, segm: Boxes,
    todosAnos: bool, todosMeses: bool): (r: Selection)
    ensures todosAnos ==> r.anos == []
    ensures todosMeses ==> r.meses == []
    ensures forall s :: s in r.anos ==> exists i :: 0 <= i < |years| && ParseInt(s) == Ok(years[i])
    ensures forall s :: s in r.meses ==> ParseInt(s).Ok? && 1 <= ParseInt(s).value <= 12
  {
    ResolvedAllParse(years, todosAnos, yearFlags);
    ResolvedAllParse(MonthNumbers(), todosMeses, monthFlags);
    Selection(
      Resolve(Strs(years), todosAnos, yearFlags),
      Resolve(Strs(MonthNumbers()), todosMeses, monthFlags),
      Resolve(esp.ids, false, Some(esp.flags)),
      Resolve(pag.ids, false, Some(pag.flags)),
      Resolve(prof.ids, false, Some(prof.flags)),
      Resolve(segm.ids, false, Some(segm.flags)))
  }

  lemma ResolvedAllParse(nums: seq<int>, todos: bool, flags: Option<seq<bool>>)
    ensures forall s :: s in Resolve(Strs(nums), todos, flags) ==>
              exists i :: 0 <= i < |nums| && ParseInt(s) == Ok(nums[i])
  {
    forall s | s in Resolve(Strs(nums), todos, flags)
      ensures exists i :: 0 <= i < |nums| && ParseInt(s) == Ok(nums[i])
    {
      ResolvedNumbersParse(nums, todos, flags, s);
    }
  }

  /** Every year or month string the resolution picks parses back, with
      `int()`, to the number it was printed from. */
  lemma ResolvedNumbersParse(nums: seq<int>, todos: bool, flags: Option<seq<bool>>, s: string)
    requires s in Resolve(Strs(nums), todos, flags)
    ensures exists i :: 0 <= i < |nums| && ParseInt(s) == Ok(nums[i])
  {
    var r := Resolve(Strs(nums), todos, flags);
    RestrictionIsProperSubset(Strs(nums), todos, flags);
    assert s in Elems(Strs(nums));
    var i :| 0 <= i < |nums| && Strs(nums)[i] == s;
    ParseIntOfIntToString(nums[i]);
  }
}
