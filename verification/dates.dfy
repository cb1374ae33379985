/** `converter_para_iso`: a date typed as DD/MM/YYYY or YYYY-MM-DD becomes
    YYYY-MM-DD; an empty input, an impossible calendar date or any other text
    becomes `None`. The two `strptime` formats are modelled token by token:
    `%d` accepts `01`-`31`, `1`-`9` and ` 1`-` 9`; `%m` accepts `01`-`12` and
    `1`-`9`; `%Y` exactly four digits; the whole text must be consumed. */
module Dates {
  import opened Base
  import opened Text

  datatype Date = Date(year: int, month: int, day: int)

  predicate IsLeap(y: int)
  {
    y % 4 == 0 && (y % 100 != 0 || y % 400 == 0)
  }

  function DaysIn(y: int, m: int): int
  {
    if m == 2 then (if IsLeap(y) then 29 else 28)
    else if m == 4 || m == 6 || m == 9 || m == 11 then 30
    else 31
  }

  /** A day the `datetime` constructor accepts (years 1 to 9999). */
  predicate ValidDate(d: Date)
  {
    1 <= d.year <= 9999 && 1 <= d.month <= 12 && 1 <= d.day <= DaysIn(d.year, d.month)
  }

  predicate IsNonZeroDigit(c: char)
  {
    '1' <= c <= '9'
  }

  /** The `%d` token: `3[01]|[12]\d|0[1-9]|[1-9]| [1-9]`. */
  function DayToken(t: string): (r: Option<int>)
    ensures r.Some? ==> 1 <= r.value <= 31
  {
    if |t| == 1 && IsNonZeroDigit(t[0]) then Some(DigitValue(t[0]))
    else if |t| == 2 && t[0] == ' ' && IsNonZeroDigit(t[1]) then Some(DigitValue(t[1]))
    else if |t| == 2 && t[0] == '0' && IsNonZeroDigit(t[1]) then Some(DigitValue(t[1]))
    else if |t| == 2 && (t[0] == '1' || t[0] == '2') && IsDigit(t[1]) then Some(DigitValue(t[0]) * 10 + DigitValue(t[1]))
    else if |t| == 2 && t[0] == '3' && (t[1] == '0' || t[1] == '1') then Some(30 + DigitValue(t[1]))
    else None
  }

  /** The `%m` token: `1[0-2]|0[1-9]|[1-9]`. */
  function MonthToken(t: string): (r: Option<int>)
    ensures r.Some? ==> 1 <= r.value <= 12
  {
    if |t| == 1 && IsNonZeroDigit(t[0]) then Some(DigitValue(t[0]))
    else if |t| == 2 && t[0] == '0' && IsNonZeroDigit(t[1]) then Some(DigitValue(t[1]))
    else if |t| == 2 && t[0] == '1' && ('0' <= t[1] <= '2') then Some(10 + DigitValue(t[1]))
    else None
  }

  /** The `%Y` token: four ASCII digits (CPython's `\d` also matches other
      Unicode decimal digits, which this model rejects). */
  function YearToken(t: string): (r: Option<int>)
    ensures r.Some? ==> 0 <= r.value <= 9999
  {
    if |t| == 4 && IsDigit(t[0]) && IsDigit(t[1]) && IsDigit(t[2]) && IsDigit(t[3])
    then Some(DigitValue(t[0]) * 1000 + DigitValue(t[1]) * 100 + DigitValue(t[2]) * 10 + DigitValue(t[3]))
    else None
  }

  /** The position of the first `c` in `s`. */
  function FirstIndex(s: string, c: char): (r: Option<nat>)
    ensures r.Some? ==> r.value < |s| && s[r.value] == c && c !in s[..r.value]
    ensures r.None? ==> c !in s
  {
    if |s| == 0 then None
    else if s[0] == c then Some(0)
    else
      var r := FirstIndex(s[1..], c);
      if r.None? then None
      else
        assert s[..r.value + 1] == [s[0]] + s[1..][..r.value];
        Some(r.value + 1)
  }

  /** The text before and after the first `c`. */
  function Cut(s: string, c: char): Option<(string, string)>
  {
    var i := FirstIndex(s, c);
    if i.None? then None else Some((s[..i.value], s[i.value + 1..]))
  }

  /** `s` read as `a` `c` `b` `c` `z`, cutting at the first two `c`s. */
  function Three(s: string, c: char): Option<(string, string, string)>
  {
    var first := Cut(s, c);
    if first.None? then None
    else
      var second := Cut(first.value.1, c);
      if second.None? then None else Some((first.value.0, second.value.0, second.value.1))
  }

  /** `strptime(s, '%d/%m/%Y')`, `None` where it raises. */
  function StrptimeDmy(s: string): (r: Option<Date>)
    ensures r.Some? ==> ValidDate(r.value)
  {
    var parts := Three(s, '/');
    if parts.None? then None
    else
      var (dt, mt, yt) := parts.value;
      var d := DayToken(dt);
      var m := MonthToken(mt);
      var y := YearToken(yt);
      if d.None? || m.None? || y.None? then None
      else if !ValidDate(Date(y.value, m.value, d.value)) then None
      else Some(Date(y.value, m.value, d.value))
  }

  /** `strptime(s, '%Y-%m-%d')`, `None` where it raises. */
  function StrptimeYmd(s: string): (r: Option<Date>)
    ensures r.Some? ==> ValidDate(r.value)
  {
    var parts := Three(s, '-');
    if parts.None? then None
    else
      var (yt, mt, dt) := parts.value;
      var d := DayToken(dt);
      var m := MonthToken(mt);
      var y := YearToken(yt);
      if d.None? || m.None? || y.None? then None
      else if !ValidDate(Date(y.value, m.value, d.value)) then None
      else Some(Date(y.value, m.value, d.value))
  }

  /** Two digits, zero padded. */
  function Pad2(n: nat): (r: string)
    requires n < 100
    ensures |r| == 2 && IsDigit(r[0]) && IsDigit(r[1])
    ensures DigitValue(r[0]) * 10 + DigitValue(r[1]) == n
  {
    [DigitChar(n / 10), DigitChar(n % 10)]
  }

  /** Four digits, zero padded. */
  function Pad4(n: nat): (r: string)
    requires n < 10000
    ensures |r| == 4 && IsDigit(r[0]) && IsDigit(r[1]) && IsDigit(r[2]) && IsDigit(r[3])
    ensures DigitValue(r[0]) * 1000 + DigitValue(r[1]) * 100 + DigitValue(r[2]) * 10 + DigitValue(r[3]) == n
  {
    var hi := Pad2(n / 100);
    var lo := Pad2(n % 100);
    assert (DigitValue(hi[0]) * 10 + DigitValue(hi[1])) * 100 == n / 100 * 100;
    hi + lo
  }

  /** `strftime('%Y-%m-%d')` */
  function IsoString(d: Date): string
    requires ValidDate(d)
  {
    Pad4(d.year) + "-" + Pad2(d.month) + "-" + Pad2(d.day)
  }

  /** `strftime('%d/%m/%Y')`: the date picker's display format. */
  function DmyString(d: Date): string
    requires ValidDate(d)
  {
    Pad2(d.day) + "/" + Pad2(d.month) + "/" + Pad4(d.year)
  }

  /** `converter_para_iso` */
  function ConverterParaIso(s: Option<string>): (r: Option<string>)
    ensures s.None? || s == Some("") ==> r.None?
  {
    if s.None? || s.value == "" then None
    else
      var dmy := StrptimeDmy(s.value);
      if dmy.Some? then Some(IsoString(dmy.value))
      else
        var ymd := StrptimeYmd(s.value);
        if ymd.Some? then Some(IsoString(ymd.value)) else None
  }

  // ----- Properties -----

  lemma CutJoin(a: string, c: char, b: string)
    requires c !in a
    ensures Cut(a + [c] + b, c) == Some((a, b))
  {
    var s := a + [c] + b;
    assert s[|a|] == c;
    var i := FirstIndex(s, c).value;
    assert i == |a|;
    assert s[..|a|] == a;
    assert s[|a| + 1..] == b;
  }

  lemma ThreeJoin(a: string, b: string, z: string, c: char)
    requires c !in a && c !in b
    ensures Three(a + [c] + b + [c] + z, c) == Some((a, b, z))
  {
    assert a + [c] + b + [c] + z == a + [c] + (b + [c] + z);
    CutJoin(a, c, b + [c] + z);
    CutJoin(b, c, z);
  }

  lemma PadTokens(d: Date)
    requires ValidDate(d)
    ensures DayToken(Pad2(d.day)) == Some(d.day)
    ensures MonthToken(Pad2(d.month)) == Some(d.month)
    ensures YearToken(Pad4(d.year)) == Some(d.year)
    ensures '/' !in Pad2(d.day) && '/' !in Pad2(d.month) && '-' !in Pad4(d.year) && '-' !in Pad2(d.month)
  {
    var p := Pad2(d.day);
    assert p[0] == '0' || p[0] == '1' || p[0] == '2' || p[0] == '3';
    var q := Pad2(d.month);
    assert q[0] == '0' || q[0] == '1';
  }

  /** A valid date typed as DD/MM/YYYY comes out as the ISO spelling of the
      same calendar day. */
  lemma DmyToIso(d: Date)
    requires ValidDate(d)
    ensures ConverterParaIso(Some(DmyString(d))) == Some(IsoString(d))
  {
    PadTokens(d);
    assert DmyString(d) == Pad2(d.day) + ['/'] + Pad2(d.month) + ['/'] + Pad4(d.year);
    ThreeJoin(Pad2(d.day), Pad2(d.month), Pad4(d.year), '/');
  }

  /** An ISO date passes through unchanged. */
  lemma IsoToIso(d: Date)
    requires ValidDate(d)
    ensures StrptimeYmd(IsoString(d)) == Some(d)
    ensures ConverterParaIso(Some(IsoString(d))) == Some(IsoString(d))
  {
    PadTokens(d);
    var s := IsoString(d);
    assert s == Pad4(d.year) + ['-'] + Pad2(d.month) + ['-'] + Pad2(d.day);
    ThreeJoin(Pad4(d.year), Pad2(d.month), Pad2(d.day), '-');
    assert '/' !in s by {
      assert forall i :: 0 <= i < |s| ==> s[i] == '-' || IsDigit(s[i]);
    }
    assert Cut(s, '/').None?;
  }

  /** An accepted token holds only digits and spaces, so it has no separator. */
  lemma TokenHasNoSeparator(t: string)
    requires DayToken(t).Some? || MonthToken(t).Some? || YearToken(t).Some?
    ensures '/' !in t && '-' !in t
  {
    assert forall i :: 0 <= i < |t| ==> t[i] == ' ' || IsDigit(t[i]);
  }

  /** Any spelling `strptime` accepts for the day, month and year of a valid
      date, padded or not, converts from DD/MM/YYYY to the ISO text of that day. */
  lemma DmyTokensToIso(d: Date, dt: string, mt: string, yt: string)
    requires ValidDate(d)
    requires DayToken(dt) == Some(d.day) && MonthToken(mt) == Some(d.month) && YearToken(yt) == Some(d.year)
    ensures StrptimeDmy(dt + "/" + mt + "/" + yt) == Some(d)
    ensures ConverterParaIso(Some(dt + "/" + mt + "/" + yt)) == Some(IsoString(d))
  {
    TokenHasNoSeparator(dt);
    TokenHasNoSeparator(mt);
    assert dt + "/" + mt + "/" + yt == dt + ['/'] + mt + ['/'] + yt;
    ThreeJoin(dt, mt, yt, '/');
  }

  /** The same for the YYYY-MM-DD order: the `%d/%m/%Y` attempt fails for
      want of a `/`, and the ISO attempt reads the same day. */
  lemma YmdTokensToIso(d: Date, yt: string, mt: string, dt: string)
    requires ValidDate(d)
    requires DayToken(dt) == Some(d.day) && MonthToken(mt) == Some(d.month) && YearToken(yt) == Some(d.year)
    ensures StrptimeYmd(yt + "-" + mt + "-" + dt) == Some(d)
    ensures ConverterParaIso(Some(yt + "-" + mt + "-" + dt)) == Some(IsoString(d))
  {
    var s := yt + "-" + mt + "-" + dt;
    TokenHasNoSeparator(yt);
    TokenHasNoSeparator(mt);
    TokenHasNoSeparator(dt);
    assert s == yt + ['-'] + mt + ['-'] + dt;
    ThreeJoin(yt, mt, dt, '-');
    assert '/' !in s;
    assert Cut(s, '/').None?;
  }

  /** Converting a converted date again changes nothing. */
  lemma Idempotent(s: Option<string>)
    requires ConverterParaIso(s).Some?
    ensures ConverterParaIso(ConverterParaIso(s)) == ConverterParaIso(s)
  {
    var dmy := StrptimeDmy(s.value);
    if dmy.Some? {
      IsoToIso(dmy.value);
    } else {
      IsoToIso(StrptimeYmd(s.value).value);
    }
  }

  /** Every output is the ISO spelling of a real calendar day. */
  lemma OutputIsValidIso(s: Option<string>)
    requires ConverterParaIso(s).Some?
    ensures exists d :: ValidDate(d) && ConverterParaIso(s) == Some(IsoString(d))
  {
    var dmy := StrptimeDmy(s.value);
    if dmy.Some? {
      assert ValidDate(dmy.value);
    } else {
      assert ValidDate(StrptimeYmd(s.value).value);
    }
  }

  /** A successful `Cut` splits `s` around its first `c`. */
  lemma CutSplit(s: string, c: char)
    requires Cut(s, c).Some?
    ensures s == Cut(s, c).value.0 + [c] + Cut(s, c).value.1
    ensures c !in Cut(s, c).value.0
  {
    var i := FirstIndex(s, c).value;
    assert s == s[..i] + [s[i]] + s[i + 1..];
  }

  /** What `Three` returns rebuilds `s` with the two separators put back,
      and the first two parts hold no separator. */
  lemma ThreeSplit(s: string, c: char)
    requires Three(s, c).Some?
    ensures s == Three(s, c).value.0 + [c] + Three(s, c).value.1 + [c] + Three(s, c).value.2
    ensures c !in Three(s, c).value.0 && c !in Three(s, c).value.1
  {
    var (a, rest) := Cut(s, c).value;
    CutSplit(s, c);
    CutSplit(rest, c);
    var (b, z) := Cut(rest, c).value;
    assert s == a + [c] + (b + [c] + z);
  }

  /** Every text the conversion accepts is a day, a month and a year token
      of a real calendar day, joined as DD/MM/YYYY or as YYYY-MM-DD, and the
      output is the ISO spelling of that day: any other text gives `None`. */
  lemma SomeMeansSpelledDate(s: string)
    ensures ConverterParaIso(Some(s)).Some? ==>
      exists d: Date, dt: string, mt: string, yt: string ::
        ValidDate(d) && DayToken(dt) == Some(d.day) && MonthToken(mt) == Some(d.month)
        && YearToken(yt) == Some(d.year)
        && (s == dt + "/" + mt + "/" + yt || s == yt + "-" + mt + "-" + dt)
        && ConverterParaIso(Some(s)) == Some(IsoString(d))
  {
    if ConverterParaIso(Some(s)).Some? {
      if StrptimeDmy(s).Some? {
        var (dt, mt, yt) := Three(s, '/').value;
        ThreeSplit(s, '/');
        assert s == dt + "/" + mt + "/" + yt;
        var d := StrptimeDmy(s).value;
        assert ValidDate(d) && DayToken(dt) == Some(d.day) && MonthToken(mt) == Some(d.month) && YearToken(yt) == Some(d.year);
      } else {
        var (yt, mt, dt) := Three(s, '-').value;
        ThreeSplit(s, '-');
        assert s == yt + "-" + mt + "-" + dt;
        var d := StrptimeYmd(s).value;
        assert ValidDate(d) && DayToken(dt) == Some(d.day) && MonthToken(mt) == Some(d.month) && YearToken(yt) == Some(d.year);
      }
    }
  }

  /** A DD/MM/YYYY text whose tokens are all well formed but name a day the
      calendar does not have (the 31st of a short month, the 29th of February
      of a common year, year 0) gives `None`, in any accepted spelling. */
  lemma ImpossibleDmyRejected(dt: string, mt: string, yt: string)
    requires DayToken(dt).Some? && MonthToken(mt).Some? && YearToken(yt).Some?
    requires !ValidDate(Date(YearToken(yt).value, MonthToken(mt).value, DayToken(dt).value))
    ensures ConverterParaIso(Some(dt + "/" + mt + "/" + yt)) == None
  {
    var s := dt + "/" + mt + "/" + yt;
    TokenHasNoSeparator(dt);
    TokenHasNoSeparator(mt);
    TokenHasNoSeparator(yt);
    assert s == dt + ['/'] + mt + ['/'] + yt;
    ThreeJoin(dt, mt, yt, '/');
    assert StrptimeDmy(s).None?;
    assert '-' !in s;
    assert Cut(s, '-').None?;
  }

  /** The same for the YYYY-MM-DD order. */
  lemma ImpossibleYmdRejected(yt: string, mt: string, dt: string)
    requires DayToken(dt).Some? && MonthToken(mt).Some? && YearToken(yt).Some?
    requires !ValidDate(Date(YearToken(yt).value, MonthToken(mt).value, DayToken(dt).value))
    ensures ConverterParaIso(Some(yt + "-" + mt + "-" + dt)) == None
  {
    var s := yt + "-" + mt + "-" + dt;
    TokenHasNoSeparator(dt);
    TokenHasNoSeparator(mt);
    TokenHasNoSeparator(yt);
    assert s == yt + ['-'] + mt + ['-'] + dt;
    ThreeJoin(yt, mt, dt, '-');
    assert StrptimeYmd(s).None?;
    assert '/' !in s;
    assert Cut(s, '/').None?;
  }
}
