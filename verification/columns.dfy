/** Column naming and typing of the spreadsheet import: `sanitize_column`
    strips and lower-cases a header, applies a fixed replacement table in
    order and keeps the first 63 characters; headers whose result contains
    `valor` are value columns; each column then gets one Postgres type from
    a ladder that puts value columns first. */
module Columns {
  import opened Base
  import opened Text

  /** The replacement table, in the order the dictionary lists it. */
  const Replacements: seq<(char, string)> := [
    (' ', "_"), ('/', "_"), ('(', ""), (')', ""),
    ('%', "porc"), ('$', "valor"), ('@', "at"),
    ('ã', "a"), ('ç', "c"), ('á', "a"), ('é', "e"),
    ('í', "i"), ('ó', "o"), ('ú', "u")]

  /** The characters the import table replaces. */
  const ReplacedChars := " /()%$@ãçáéíóú"

  /** Postgres' identifier length limit, as the import applies it. */
  const MaxIdentifier := 63

  /** `c` is replaced by some entry of `table`. */
  predicate IsKey(table: seq<(char, string)>, c: char)
  {
    exists j :: 0 <= j < |table| && table[j].0 == c
  }

  /** `s` holds no character that `table` replaces. */
  predicate KeyFree(table: seq<(char, string)>, s: string)
  {
    forall i :: 0 <= i < |s| ==> !IsKey(table, s[i])
  }

  /** No replacement text holds a character the table replaces. */
  predicate ValuesKeyFree(table: seq<(char, string)>)
  {
    forall j :: 0 <= j < |table| ==> KeyFree(table, table[j].1)
  }

  /** `s.replace(key, repl)` for a one-character `key`. */
  function ReplaceChar(s: string, key: char, repl: string): string
  {
    if |s| == 0 then ""
    else (if s[0] == key then repl else [s[0]]) + ReplaceChar(s[1..], key, repl)
  }

  /** The replacement loop: each entry of `table` in turn over the whole text. */
  function ReplaceAll(s: string, table: seq<(char, string)>): string
    decreases |table|
  {
    if |table| == 0 then s
    else ReplaceAll(ReplaceChar(s, table[0].0, table[0].1), table[1..])
  }

  /** What one character becomes under the first entry for it. */
  function Lookup(table: seq<(char, string)>, c: char): (r: string)
    ensures !IsKey(table, c) ==> r == [c]
  {
    if |table| == 0 then [c]
    else if table[0].0 == c then table[0].1
    else
      assert !IsKey(table, c) ==> !IsKey(table[1..], c) by {
        if IsKey(table[1..], c) {
          var j :| 0 <= j < |table[1..]| && table[1..][j].0 == c;
          assert table[j + 1].0 == c;
        }
      }
      Lookup(table[1..], c)
  }

  /** Every character replaced by its `Lookup` in one pass. */
  function Translate(table: seq<(char, string)>, s: string): string
  {
    if |s| == 0 then "" else Lookup(table, s[0]) + Translate(table, s[1..])
  }

  /** `name[:63]` */
  function Truncate(s: string): (r: string)
    ensures |r| <= MaxIdentifier && |r| <= |s|
    ensures forall i :: 0 <= i < |r| ==> r[i] == s[i]
  {
    if |s| <= MaxIdentifier then s else s[..MaxIdentifier]
  }

  /** `sanitize_column`. The replacement loop is written as one pass over
      the text, which `LoopIsOnePass` shows to be the same thing for a table
      like this one, where no replacement text holds a replaced character. */
  function SanitizeColumn(name: string): (r: string)
    ensures |r| <= MaxIdentifier
    ensures KeyFree(Replacements, r)
  {
    ReplacementsValuesKeyFree();
    TranslateKeyFree(Replacements, Lower(Strip(name)));
    Truncate(Translate(Replacements, Lower(Strip(name))))
  }

  /** `valor_columns`: the columns whose lower-cased name contains `valor`. */
  predicate IsValorColumn(col: string)
  {
    IsInfix("valor", Lower(col))
  }

  function ValorColumns(cols: seq<string>): (r: seq<string>)
    ensures forall c :: c in r <==> c in cols && IsValorColumn(c)
    ensures IsSubsequence(r, cols)
  {
    if |cols| == 0 then []
    else
      var rest := ValorColumns(cols[1..]);
      SubsequenceCons(cols[0], rest, cols[1..]);
      assert [cols[0]] + cols[1..] == cols;
      if IsValorColumn(cols[0]) then
        assert ([cols[0]] + rest)[1..] == rest;
        [cols[0]] + rest
      else rest
  }

  // ----- The table -----

  /** The table replaces exactly the listed characters. */
  lemma ReplacementKeys(c: char)
    ensures IsKey(Replacements, c) <==> c in ReplacedChars
  {
    if c in ReplacedChars {
      var j :=
        if c == ' ' then 0 else if c == '/' then 1 else if c == '(' then 2 else if c == ')' then 3
        else if c == '%' then 4 else if c == '$' then 5 else if c == '@' then 6
        else if c == 'ã' then 7 else if c == 'ç' then 8 else if c == 'á' then 9 else if c == 'é' then 10
        else if c == 'í' then 11 else if c == 'ó' then 12 else 13;
      assert Replacements[j].0 == c;
    }
  }

  lemma KeyFreeOfUnlisted(s: string)
    requires forall i :: 0 <= i < |s| ==> s[i] !in ReplacedChars
    ensures KeyFree(Replacements, s)
  {
    forall i | 0 <= i < |s| ensures !IsKey(Replacements, s[i]) {
      ReplacementKeys(s[i]);
    }
  }

  /** No replacement text brings back a replaced character. */
  lemma ReplacementsValuesKeyFree()
    ensures ValuesKeyFree(Replacements)
  {
    forall j, i | 0 <= j < |Replacements| && 0 <= i < |Replacements[j].1|
      ensures !IsKey(Replacements, Replacements[j].1[i])
    {
      ReplacementKeys(Replacements[j].1[i]);
    }
  }

  // ----- One pass equals the loop -----

  lemma {:induction false} ReplaceCharConcat(a: string, b: string, key: char, repl: string)
    ensures ReplaceChar(a + b, key, repl) == ReplaceChar(a, key, repl) + ReplaceChar(b, key, repl)
  {
    if |a| > 0 {
      assert (a + b)[1..] == a[1..] + b;
      ReplaceCharConcat(a[1..], b, key, repl);
    } else {
      assert a + b == b;
    }
  }

  /** The replacement loop works character by character. */
  lemma {:induction false} ReplaceAllConcat(a: string, b: string, table: seq<(char, string)>)
    ensures ReplaceAll(a + b, table) == ReplaceAll(a, table) + ReplaceAll(b, table)
    decreases |table|
  {
    if |table| > 0 {
      ReplaceCharConcat(a, b, table[0].0, table[0].1);
      ReplaceAllConcat(ReplaceChar(a, table[0].0, table[0].1), ReplaceChar(b, table[0].0, table[0].1), table[1..]);
    }
  }

  lemma {:induction false} ReplaceCharAbsentIdentity(s: string, key: char, repl: string)
    requires key !in s
    ensures ReplaceChar(s, key, repl) == s
  {
    if |s| > 0 {
      assert key !in s[1..];
      ReplaceCharAbsentIdentity(s[1..], key, repl);
      assert [s[0]] + s[1..] == s;
    }
  }

  /** A text free of the table's characters passes the loop unchanged. */
  lemma {:induction false} LoopIdentity(table: seq<(char, string)>, s: string)
    requires KeyFree(table, s)
    ensures ReplaceAll(s, table) == s
    decreases |table|
  {
    if |table| > 0 {
      assert table[0].0 !in s;
      ReplaceCharAbsentIdentity(s, table[0].0, table[0].1);
      KeyFreeTail(table, s);
      LoopIdentity(table[1..], s);
    }
  }

  lemma {:induction false} KeyFreeTail(table: seq<(char, string)>, s: string)
    requires |table| > 0 && KeyFree(table, s)
    ensures KeyFree(table[1..], s)
  {
    forall i | 0 <= i < |s| ensures !IsKey(table[1..], s[i]) {
      assert !IsKey(table, s[i]);
    }
  }

  /** One character through the loop: its first entry applies, and no later
      entry touches the replacement text. */
  lemma {:induction false} LoopOneChar(table: seq<(char, string)>, c: char)
    requires ValuesKeyFree(table)
    ensures ReplaceAll([c], table) == Lookup(table, c)
    decreases |table|
  {
    if |table| > 0 {
      if table[0].0 == c {
        assert ReplaceChar([c], c, table[0].1) == table[0].1;
        assert KeyFree(table, table[0].1);
        KeyFreeTail(table, table[0].1);
        LoopIdentity(table[1..], table[0].1);
      } else {
        assert ReplaceChar([c], table[0].0, table[0].1) == [c];
        assert ValuesKeyFree(table[1..]) by {
          forall j | 0 <= j < |table[1..]| ensures KeyFree(table[1..], table[1..][j].1) {
            assert table[1..][j] == table[j + 1];
            KeyFreeTail(table, table[j + 1].1);
          }
        }
        LoopOneChar(table[1..], c);
      }
    }
  }

  /** The dictionary loop and the one-pass translation agree whenever no
      replacement text holds a replaced character. */
  lemma {:induction false} LoopIsOnePass(table: seq<(char, string)>, s: string)
    requires ValuesKeyFree(table)
    ensures ReplaceAll(s, table) == Translate(table, s)
  {
    if |s| > 0 {
      assert s == [s[0]] + s[1..];
      ReplaceAllConcat([s[0]], s[1..], table);
      LoopOneChar(table, s[0]);
      LoopIsOnePass(table, s[1..]);
    } else {
      LoopIdentity(table, s);
    }
  }

  /** `sanitize_column` with the loop exactly as written. */
  lemma SanitizeColumnIsTheLoop(name: string)
    ensures SanitizeColumn(name) == Truncate(ReplaceAll(Lower(Strip(name)), Replacements))
  {
    ReplacementsValuesKeyFree();
    LoopIsOnePass(Replacements, Lower(Strip(name)));
  }

  // ----- What the output holds -----

  lemma {:induction false} TranslateConcat(table: seq<(char, string)>, a: string, b: string)
    ensures Translate(table, a + b) == Translate(table, a) + Translate(table, b)
  {
    if |a| > 0 {
      assert (a + b)[1..] == a[1..] + b;
      TranslateConcat(table, a[1..], b);
    } else {
      assert a + b == b;
    }
  }

  /** `v` is the replacement text of some entry. */
  predicate IsValue(table: seq<(char, string)>, v: string)
  {
    exists j :: 0 <= j < |table| && table[j].1 == v
  }

  lemma {:induction false} LookupIsValue(table: seq<(char, string)>, c: char)
    requires IsKey(table, c)
    ensures IsValue(table, Lookup(table, c))
    decreases |table|
  {
    if table[0].0 != c {
      var j :| 0 <= j < |table| && table[j].0 == c;
      assert table[1..][j - 1].0 == c;
      LookupIsValue(table[1..], c);
      var k :| 0 <= k < |table[1..]| && table[1..][k].1 == Lookup(table[1..], c);
      assert table[k + 1].1 == Lookup(table, c);
    }
  }

  lemma LookupKeyFree(table: seq<(char, string)>, c: char)
    requires ValuesKeyFree(table)
    ensures KeyFree(table, Lookup(table, c))
  {
    if IsKey(table, c) {
      LookupIsValue(table, c);
    }
  }

  /** With key-free replacement texts, the one pass leaves no replaced
      character behind. */
  lemma {:induction false} TranslateKeyFree(table: seq<(char, string)>, s: string)
    requires ValuesKeyFree(table)
    ensures KeyFree(table, Translate(table, s))
  {
    if |s| > 0 {
      LookupKeyFree(table, s[0]);
      TranslateKeyFree(table, s[1..]);
    }
  }

  /** A text free of replaced characters is its own translation. */
  lemma {:induction false} TranslateIdentity(table: seq<(char, string)>, s: string)
    requires KeyFree(table, s)
    ensures Translate(table, s) == s
  {
    if |s| > 0 {
      assert KeyFree(table, s[1..]) by {
        forall i | 0 <= i < |s[1..]| ensures !IsKey(table, s[1..][i]) {
          assert s[1..][i] == s[i + 1];
        }
      }
      TranslateIdentity(table, s[1..]);
      assert [s[0]] + s[1..] == s;
    }
  }

  /** Applying the table again to a sanitized name, as a loop or in one
      pass, changes nothing. */
  lemma ReplacementsIdempotent(name: string)
    ensures Translate(Replacements, SanitizeColumn(name)) == SanitizeColumn(name)
    ensures ReplaceAll(SanitizeColumn(name), Replacements) == SanitizeColumn(name)
  {
    TranslateIdentity(Replacements, SanitizeColumn(name));
    LoopIdentity(Replacements, SanitizeColumn(name));
  }

  /** The output holds none of the listed characters. */
  lemma NoListedCharLeft(name: string)
    ensures forall i :: 0 <= i < |SanitizeColumn(name)| ==> SanitizeColumn(name)[i] !in ReplacedChars
  {
    var r := SanitizeColumn(name);
    forall i | 0 <= i < |r| ensures r[i] !in ReplacedChars {
      ReplacementKeys(r[i]);
    }
  }

  // ----- `$` becomes `valor` -----

  /** A present character leaves its replacement text in the translation. */
  lemma TranslateInserts(table: seq<(char, string)>, s: string, c: char)
    requires c in s
    ensures IsInfix(Lookup(table, c), Translate(table, s))
  {
    var i :| 0 <= i < |s| && s[i] == c;
    var p, q := s[..i], s[i + 1..];
    assert s == p + [c] + q;
    var v := Lookup(table, c);
    assert Translate(table, [c]) == v by {
      assert [c][1..] == [];
      assert v + "" == v;
    }
    TranslateConcat(table, p + [c], q);
    TranslateConcat(table, p, [c]);
    InfixOfConcat(Translate(table, p), v, Translate(table, q));
  }

  /** Entry `j` is the first one for `c`. */
  predicate FirstKeyAt(table: seq<(char, string)>, c: char, j: int)
  {
    0 <= j < |table| && table[j].0 == c && forall i :: 0 <= i < j ==> table[i].0 != c
  }

  lemma {:induction false} LookupFirst(table: seq<(char, string)>, c: char, j: int)
    requires FirstKeyAt(table, c, j)
    ensures Lookup(table, c) == table[j].1
    decreases j
  {
    if j > 0 {
      assert table[1..][j - 1] == table[j];
      LookupFirst(table[1..], c, j - 1);
    }
  }

  /** `$` becomes `valor`. */
  lemma DollarLookup()
    ensures Lookup(Replacements, '$') == "valor"
  {
    LookupFirst(Replacements, '$', 5);
  }

  /** An opening parenthesis vanishes. */
  lemma ParenLookup()
    ensures Lookup(Replacements, '(') == ""
  {
    LookupFirst(Replacements, '(', 2);
  }

  lemma LowerKeepsDollar(s: string)
    requires '$' in s
    ensures '$' in Lower(s)
  {
    var i :| 0 <= i < |s| && s[i] == '$';
    assert Lower(s)[i] == '$';
  }

  /** A header holding `$` becomes a value column unless truncation cuts the
      inserted `valor` off. */
  lemma DollarMakesValorColumn(name: string)
    requires '$' in Strip(name)
    requires |Translate(Replacements, Lower(Strip(name)))| <= MaxIdentifier
    ensures IsValorColumn(SanitizeColumn(name))
  {
    LowerKeepsDollar(Strip(name));
    DollarLookup();
    TranslateInserts(Replacements, Lower(Strip(name)), '$');
    LowerOfSanitized(name);
  }

  // ----- Lower-casing is stable -----

  /** Every character `str.lower()` leaves alone. */
  predicate LowerStable(s: string)
  {
    forall i :: 0 <= i < |s| ==> LowerChar(s[i]) == s[i]
  }

  lemma ReplacementsLowerStable()
    ensures forall j :: 0 <= j < |Replacements| ==> LowerStable(Replacements[j].1)
  {
  }

  lemma {:induction false} LookupLowerStable(table: seq<(char, string)>, c: char)
    requires LowerChar(c) == c
    requires forall j :: 0 <= j < |table| ==> LowerStable(table[j].1)
    ensures LowerStable(Lookup(table, c))
  {
    if IsKey(table, c) {
      LookupIsValue(table, c);
    }
  }

  lemma {:induction false} TranslateLowerStable(table: seq<(char, string)>, s: string)
    requires LowerStable(s)
    requires forall j :: 0 <= j < |table| ==> LowerStable(table[j].1)
    ensures LowerStable(Translate(table, s))
  {
    if |s| > 0 {
      LookupLowerStable(table, s[0]);
      assert LowerStable(s[1..]) by {
        forall i | 0 <= i < |s[1..]| ensures LowerChar(s[1..][i]) == s[1..][i] {
          assert s[1..][i] == s[i + 1];
        }
      }
      TranslateLowerStable(table, s[1..]);
    }
  }

  /** A sanitized name is already lower case, so the second `.lower()` in
      the value-column test changes nothing. */
  lemma LowerOfSanitized(name: string)
    ensures Lower(SanitizeColumn(name)) == SanitizeColumn(name)
  {
    ReplacementsLowerStable();
    TranslateLowerStable(Replacements, Lower(Strip(name)));
  }

  /** A sanitized name without surrounding white space sanitizes to itself. */
  lemma SanitizeFixpoint(name: string)
    requires Strip(SanitizeColumn(name)) == SanitizeColumn(name)
    ensures SanitizeColumn(SanitizeColumn(name)) == SanitizeColumn(name)
  {
    LowerOfSanitized(name);
    ReplacementsIdempotent(name);
  }

  lemma {:induction false} TranslateOneChar(table: seq<(char, string)>, c: char)
    ensures Translate(table, [c]) == Lookup(table, c)
  {
    assert [c][1..] == [];
    assert Lookup(table, c) + "" == Lookup(table, c);
  }

  /** Without that condition it is not idempotent: removing the parenthesis
      of `a\t(` leaves a trailing tab that a second pass strips. */
  lemma NotIdempotent()
    ensures SanitizeColumn("a\t(") == "a\t"
    ensures SanitizeColumn("a\t") == "a"
  {
    FirstPass();
    SecondPass();
  }

  /** The table drops `(` and leaves a tab alone. */
  lemma TranslateExample()
    ensures Translate(Replacements, "a\t(") == "a\t"
  {
    UnlistedKept();
    ParenDropped();
    assert "a\t(" == "a\t" + "(";
    TranslateConcat(Replacements, "a\t", "(");
  }

  lemma UnlistedKept()
    ensures Translate(Replacements, "a\t") == "a\t"
  {
    KeyFreeOfUnlisted("a\t");
    TranslateIdentity(Replacements, "a\t");
  }

  lemma ParenDropped()
    ensures Translate(Replacements, "(") == ""
  {
    ParenLookup();
    TranslateOneChar(Replacements, '(');
  }

  lemma FirstPass()
    ensures SanitizeColumn("a\t(") == "a\t"
  {
    var s := "a\t(";
    StripUnpadded(s);
    assert Lower(s) == s;
    TranslateExample();
  }

  lemma SecondPass()
    ensures SanitizeColumn("a\t") == "a"
  {
    assert Strip("a\t") == "a";
    StripUnpadded("a");
    assert Lower("a") == "a";
    KeyFreeOfUnlisted("a");
    TranslateIdentity(Replacements, "a");
  }

  // ----- The type ladder -----

  /** The pandas dtype kinds the ladder distinguishes. */
  datatype Dtype = Int64 | Float64 | Datetime64 | Bool | Object

  /** The Postgres column types the ladder chooses from. */
  datatype PgType = Numeric15x2 | Integer | Timestamp | TextType

  function TypeName(t: PgType): (r: string)
  {
    match t
    case Numeric15x2 => "NUMERIC(15,2)"
    case Integer => "INTEGER"
    case Timestamp => "TIMESTAMP"
    case TextType => "TEXT"
  }

  /** The type of one column. */
  function ColumnType(col: string, dtype: Dtype, valorColumns: seq<string>): (r: PgType)
    ensures r == Numeric15x2 <==> col in valorColumns || dtype == Float64
    ensures r == Integer <==> col !in valorColumns && dtype == Int64
    ensures r == Timestamp <==> col !in valorColumns && dtype == Datetime64
    ensures r == TextType <==> col !in valorColumns && (dtype == Bool || dtype == Object)
  {
    if col in valorColumns then Numeric15x2
    else if dtype == Int64 then Integer
    else if dtype == Float64 then Numeric15x2
    else if dtype == Datetime64 then Timestamp
    else assert dtype.Bool? || dtype.Object?; TextType
  }

  datatype Column = Column(name: string, dtype: Dtype)

  /** The column definitions of the `CREATE TABLE`, one per column, in
      column order. */
  function ColumnDefs(cols: seq<Column>, valorColumns: seq<string>): (r: seq<(string, PgType)>)
    ensures |r| == |cols|
    ensures forall i :: 0 <= i < |cols| ==> r[i].0 == cols[i].name
  {
    seq(|cols|, i requires 0 <= i < |cols| => (cols[i].name, ColumnType(cols[i].name, cols[i].dtype, valorColumns)))
  }

  /** Each type is chosen exactly as the ladder ranks them: a value column is
      numeric whatever its dtype; otherwise integers, floats and timestamps
      keep their kind and everything else is text. */
  lemma LadderExact(cols: seq<Column>, valorColumns: seq<string>, i: int)
    requires 0 <= i < |cols|
    ensures var t := ColumnDefs(cols, valorColumns)[i].1;
      var c := cols[i];
      && (t == Numeric15x2 <==> c.name in valorColumns || c.dtype == Float64)
      && (t == Integer <==> c.name !in valorColumns && c.dtype == Int64)
      && (t == Timestamp <==> c.name !in valorColumns && c.dtype == Datetime64)
      && (t == TextType <==> c.name !in valorColumns && (c.dtype == Bool || c.dtype == Object))
  {
  }

  /** The definitions of the sanitized columns: every value column is
      `NUMERIC(15,2)`. */
  function TableColumns(headers: seq<string>, dtypes: seq<Dtype>): (r: seq<(string, PgType)>)
    requires |headers| == |dtypes|
    ensures |r| == |headers|
    ensures forall i :: 0 <= i < |r| ==> r[i].0 == SanitizeColumn(headers[i])
    ensures forall i :: 0 <= i < |r| && IsValorColumn(r[i].0) ==> r[i].1 == Numeric15x2
  {
    var names := seq(|headers|, i requires 0 <= i < |headers| => SanitizeColumn(headers[i]));
    var cols := seq(|headers|, i requires 0 <= i < |headers| => Column(names[i], dtypes[i]));
    ColumnDefs(cols, ValorColumns(names))
  }

  /** `sql.Identifier(name)`: double-quoted, inner quotes doubled. */
  function QuoteIdent(name: string): (r: string)
    ensures |r| >= 2 && r[0] == '"' && r[|r| - 1] == '"'
  {
    "\"" + DoubleQuotes(name) + "\""
  }

  function DoubleQuotes(s: string): string
  {
    if |s| == 0 then ""
    else (if s[0] == '"' then "\"\"" else [s[0]]) + DoubleQuotes(s[1..])
  }

  /** Reads a doubled-quote body back. */
  function UndoubleQuotes(s: string): string
  {
    if |s| == 0 then ""
    else if s[0] == '"' && |s| >= 2 && s[1] == '"' then "\"" + UndoubleQuotes(s[2..])
    else [s[0]] + UndoubleQuotes(s[1..])
  }

  /** The quoting round-trips: the name can be read back from its identifier. */
  lemma {:induction false} QuoteRoundTrip(name: string)
    ensures UndoubleQuotes(QuoteIdent(name)[1..|QuoteIdent(name)| - 1]) == name
  {
    var q := QuoteIdent(name);
    assert q[1..|q| - 1] == DoubleQuotes(name);
    UndoubleRoundTrip(name);
  }

  lemma {:induction false} UndoubleRoundTrip(s: string)
    ensures UndoubleQuotes(DoubleQuotes(s)) == s
  {
    if |s| > 0 {
      UndoubleRoundTrip(s[1..]);
      var d := DoubleQuotes(s);
      if s[0] == '"' {
        assert d == "\"\"" + DoubleQuotes(s[1..]);
        assert d[2..] == DoubleQuotes(s[1..]);
      } else {
        assert d == [s[0]] + DoubleQuotes(s[1..]);
        assert d[1..] == DoubleQuotes(s[1..]);
      }
      assert [s[0]] + s[1..] == s;
    }
  }

  /** One column definition: `"name" TYPE`. */
  function ColumnDefText(def: (string, PgType)): string
  {
    QuoteIdent(def.0) + " " + TypeName(def.1)
  }
}
