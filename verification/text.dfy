/** Python string primitives the core relies on: `str.strip()`, `str.lower()`,
    code-point ordering of strings, `" AND ".join`, substring tests, `str(int)`
    and `int(str)`. */
module Text {
  import opened Base

  /** Python's `str.isspace()` for one character. */
  predicate IsSpace(c: char)
  {
    || c == ' ' || ('\t' <= c <= '\r') || ('\U{1C}' <= c <= '\U{1F}')
    || c == '\U{85}' || c == '\U{A0}' || c == '\U{1680}'
    || ('\U{2000}' <= c <= '\U{200A}') || c == '\U{2028}' || c == '\U{2029}'
    || c == '\U{202F}' || c == '\U{205F}' || c == '\U{3000}'
  }

  function TrimLeft(s: string): (r: string)
    ensures |r| <= |s|
    ensures |r| > 0 ==> !IsSpace(r[0])
  {
    if |s| > 0 && IsSpace(s[0]) then TrimLeft(s[1..]) else s
  }

  function TrimRight(s: string): (r: string)
    ensures |r| <= |s|
    ensures |r| > 0 ==> !IsSpace(r[|r| - 1]) && r[0] == s[0]
  {
    if |s| > 0 && IsSpace(s[|s| - 1]) then TrimRight(s[..|s| - 1]) else s
  }

  /** Python's `str.strip()` with no argument. */
  function Strip(s: string): (r: string)
    ensures |r| <= |s|
    ensures |r| > 0 ==> !IsSpace(r[0]) && !IsSpace(r[|r| - 1])
  {
    TrimRight(TrimLeft(s))
  }

  /** `TrimLeft` drops a prefix made only of whitespace. */
  lemma {:induction false} TrimLeftDrops(s: string) returns (i: nat)
    ensures i <= |s| && TrimLeft(s) == s[i..]
    ensures forall k :: 0 <= k < i ==> IsSpace(s[k])
    decreases |s|
  {
    if |s| > 0 && IsSpace(s[0]) {
      var i' := TrimLeftDrops(s[1..]);
      i := i' + 1;
      assert s[1..][i'..] == s[i..];
      forall k | 0 <= k < i ensures IsSpace(s[k]) {
        if k > 0 {
          assert s[k] == s[1..][k - 1];
        }
      }
    } else {
      i := 0;
    }
  }

  /** `TrimRight` drops a suffix made only of whitespace. */
  lemma {:induction false} TrimRightDrops(s: string) returns (j: nat)
    ensures j <= |s| && TrimRight(s) == s[..j]
    ensures forall k :: j <= k < |s| ==> IsSpace(s[k])
    decreases |s|
  {
    if |s| > 0 && IsSpace(s[|s| - 1]) {
      var t := s[..|s| - 1];
      j := TrimRightDrops(t);
      assert t[..j] == s[..j];
      forall k | j <= k < |s| ensures IsSpace(s[k]) {
        if k < |s| - 1 {
          assert s[k] == t[k];
        }
      }
    } else {
      j := |s|;
    }
  }

  /** `strip` removes surrounding whitespace and nothing else: its result is
      an infix of the input, and everything outside that infix is whitespace. */
  lemma StripIsInfix(s: string)
    ensures exists i, j :: 0 <= i <= j <= |s| && Strip(s) == s[i..j]
              && (forall k :: 0 <= k < i ==> IsSpace(s[k]))
              && (forall k :: j <= k < |s| ==> IsSpace(s[k]))
  {
    var i := TrimLeftDrops(s);
    var t := s[i..];
    var j' := TrimRightDrops(t);
    var j := i + j';
    assert t[..j'] == s[i..j];
    forall k | j <= k < |s| ensures IsSpace(s[k]) {
      assert s[k] == t[k - i];
    }
  }

  lemma StripNoSpaceIdentity(s: string)
    requires forall i :: 0 <= i < |s| ==> !IsSpace(s[i])
    ensures Strip(s) == s
  {
  }

  predicate IsDigit(c: char)
  {
    '0' <= c <= '9'
  }

  predicate IsAsciiLetter(c: char)
  {
    ('a' <= c <= 'z') || ('A' <= c <= 'Z')
  }

  /** Membership in the regular-expression class `[a-zA-Z0-9]`. */
  predicate IsAsciiAlnum(c: char)
  {
    IsAsciiLetter(c) || IsDigit(c)
  }

  /** Python's `str.lower()` for ASCII and Latin-1 upper-case letters. */
  function LowerChar(c: char): (r: char)
    ensures r == c || ('A' <= c <= 'Z') || ('\U{C0}' <= c <= '\U{DE}')
  {
    if 'A' <= c <= 'Z' then (c as int + 32) as char
    else if '\U{C0}' <= c <= '\U{DE}' && c != '\U{D7}' then (c as int + 32) as char
    else c
  }

  function Lower(s: string): (r: string)
    ensures |r| == |s|
    ensures forall i :: 0 <= i < |s| ==> r[i] == LowerChar(s[i])
  {
    seq(|s|, i requires 0 <= i < |s| => LowerChar(s[i]))
  }

  /** Python's `<` on strings: lexicographic by code point. */
  predicate Lt(a: string, b: string)
    decreases |a|
  {
    if |a| == 0 then |b| > 0
    else if |b| == 0 then false
    else if a[0] < b[0] then true
    else a[0] == b[0] && Lt(a[1..], b[1..])
  }

  /** Python's `<=` on strings. */
  predicate Le(a: string, b: string)
  {
    !Lt(b, a)
  }

  lemma {:induction false} LtIrreflexive(a: string)
    ensures !Lt(a, a)
    decreases |a|
  {
    if |a| > 0 {
      LtIrreflexive(a[1..]);
    }
  }

  lemma {:induction false} LtTrichotomy(a: string, b: string)
    ensures a == b || Lt(a, b) || Lt(b, a)
    decreases |a|
  {
    if |a| > 0 && |b| > 0 && a[0] == b[0] {
      LtTrichotomy(a[1..], b[1..]);
      if a[1..] == b[1..] {
        assert a == [a[0]] + a[1..];
        assert b == [b[0]] + b[1..];
      }
    }
  }

  lemma {:induction false} LtTransitive(a: string, b: string, c: string)
    requires Lt(a, b) && Lt(b, c)
    ensures Lt(a, c)
    decreases |a|
  {
    if |a| > 0 && a[0] == b[0] && b[0] == c[0] {
      LtTransitive(a[1..], b[1..], c[1..]);
    }
  }

  lemma LeTransitive(a: string, b: string, c: string)
    requires Le(a, b) && Le(b, c)
    ensures Le(a, c)
  {
    LtTrichotomy(a, b);
    LtTrichotomy(b, c);
    LtIrreflexive(a);
    if Lt(c, a) {
      if a == b {
      } else if b == c {
      } else {
        LtTransitive(a, b, c);
        LtTransitive(c, a, b);
      }
    }
  }

  lemma LeTotal(a: string, b: string)
    ensures Le(a, b) || Le(b, a)
  {
    LtTrichotomy(a, b);
    LtIrreflexive(a);
    if Lt(a, b) && Lt(b, a) {
      LtTransitive(a, b, a);
    }
  }

  /** Nothing sorts strictly before the empty string. */
  lemma LeEmpty(a: string)
    requires Le(a, "")
    ensures a == ""
  {
  }

  /** `needle in hay` for strings. */
  predicate IsInfix(needle: string, hay: string)
  {
    exists i :: 0 <= i <= |hay| - |needle| && InfixAt(needle, hay, i)
  }

  predicate InfixAt(needle: string, hay: string, i: int)
  {
    0 <= i <= |hay| - |needle| && hay[i..i + |needle|] == needle
  }

  lemma InfixOfConcat(p: string, needle: string, q: string)
    ensures IsInfix(needle, p + needle + q)
  {
    var hay := p + needle + q;
    assert InfixAt(needle, hay, |p|);
  }

  /** Python's `sep.join(parts)`. */
  function Join(parts: seq<string>, sep: string): string
  {
    if |parts| == 0 then ""
    else if |parts| == 1 then parts[0]
    else parts[0] + sep + Join(parts[1..], sep)
  }

  lemma JoinHead(parts: seq<string>, sep: string)
    requires |parts| > 0
    ensures Join(parts, sep)[..|parts[0]|] == parts[0]
  {
  }

  function DigitValue(c: char): nat
    requires IsDigit(c)
  {
    c as int - '0' as int
  }

  function DigitChar(d: nat): (c: char)
    requires d < 10
    ensures IsDigit(c) && DigitValue(c) == d
  {
    ('0' as int + d) as char
  }

  /** The value of a run of ASCII digits. */
  function DigitsValue(s: string): nat
    requires forall i :: 0 <= i < |s| ==> IsDigit(s[i])
  {
    if |s| == 0 then 0 else DigitsValue(s[..|s| - 1]) * 10 + DigitValue(s[|s| - 1])
  }

  /** Python's `str(n)` for a natural number. */
  function NatToString(n: nat): (r: string)
    ensures |r| > 0
    ensures forall i :: 0 <= i < |r| ==> IsDigit(r[i])
    ensures |r| > 1 ==> r[0] != '0'
    ensures DigitsValue(r) == n
  {
    if n < 10 then [DigitChar(n)]
    else
      var p := NatToString(n / 10);
      var r := p + [DigitChar(n % 10)];
      assert r[..|r| - 1] == p;
      r
  }

  /** Python's `str(n)`. */
  function IntToString(n: int): string
  {
    if n < 0 then "-" + NatToString(-n) else NatToString(n)
  }

  /** A digit run with single `_` separators, as Python's `int()` accepts. */
  predicate IsDigitRun(s: string)
  {
    && |s| > 0 && IsDigit(s[0]) && IsDigit(s[|s| - 1])
    && (forall i :: 0 <= i < |s| ==> IsDigit(s[i]) || s[i] == '_')
    && (forall i :: 0 <= i < |s| - 1 ==> !DoubleUnderscoreAt(s, i))
  }

  predicate DoubleUnderscoreAt(s: string, i: int)
    requires 0 <= i < |s| - 1
  {
    s[i] == '_' && s[i + 1] == '_'
  }

  function DropUnderscores(s: string): (r: string)
    ensures (forall i :: 0 <= i < |s| ==> IsDigit(s[i]) || s[i] == '_') ==> (forall i :: 0 <= i < |r| ==> IsDigit(r[i]))
    ensures (forall i :: 0 <= i < |s| ==> s[i] != '_') ==> r == s
  {
    if |s| == 0 then []
    else (if s[0] == '_' then [] else [s[0]]) + DropUnderscores(s[1..])
  }

  /** The value of a digit run, underscores ignored. */
  function RunValue(t: string): nat
    requires IsDigitRun(t)
  {
    DigitsValue(DropUnderscores(t))
  }

  /** Python's `int(s)` on a decimal string: surrounding whitespace, an optional
      sign, ASCII digits with single underscores. Any other text raises
      `ValueError` here; Python also accepts the other Unicode decimal digits,
      which this model does not. */
  function ParseInt(s: string): (r: Outcome<int>)
    ensures r.Raise? ==> r.error == ValueError
  {
    ParseStripped(Strip(s))
  }

  function ParseStripped(t: string): Outcome<int>
  {
    if |t| > 0 && t[0] == '-' && IsDigitRun(t[1..]) then Ok(-(RunValue(t[1..]) as int))
    else if |t| > 0 && t[0] == '+' && IsDigitRun(t[1..]) then Ok(RunValue(t[1..]))
    else if IsDigitRun(t) then Ok(RunValue(t))
    else Raise(ValueError)
  }

  lemma DigitStringIsRun(p: string)
    requires |p| > 0
    requires forall i :: 0 <= i < |p| ==> IsDigit(p[i])
    ensures IsDigitRun(p) && DropUnderscores(p) == p
    ensures forall i :: 0 <= i < |p| ==> !IsSpace(p[i])
  {
  }

  lemma StripUnpadded(s: string)
    requires |s| > 0 && !IsSpace(s[0]) && !IsSpace(s[|s| - 1])
    ensures Strip(s) == s
  {
    assert TrimLeft(s) == s;
  }

  lemma ParseIntOfDigits(p: string)
    requires |p| > 0
    requires forall i :: 0 <= i < |p| ==> IsDigit(p[i])
    ensures ParseInt(p) == Ok(DigitsValue(p))
  {
    assert ParseStripped(p) == Ok(DigitsValue(p)) by { DigitStringIsRun(p); }
    assert Strip(p) == p by { DigitStringIsRun(p); StripUnpadded(p); }
  }

  lemma ParseIntOfNegatedDigits(p: string)
    requires |p| > 0
    requires forall i :: 0 <= i < |p| ==> IsDigit(p[i])
    ensures ParseInt("-" + p) == Ok(-(DigitsValue(p) as int))
  {
    NegatedDigitsParse(p);
    NegatedDigitsUnpadded(p);
  }

  lemma NegatedDigitsParse(p: string)
    requires |p| > 0
    requires forall i :: 0 <= i < |p| ==> IsDigit(p[i])
    ensures ParseStripped("-" + p) == Ok(-(DigitsValue(p) as int))
  {
    var s := "-" + p;
    assert s[1..] == p;
    DigitStringIsRun(p);
  }

  lemma NegatedDigitsUnpadded(p: string)
    requires |p| > 0
    requires forall i :: 0 <= i < |p| ==> IsDigit(p[i])
    ensures Strip("-" + p) == "-" + p
  {
    var s := "-" + p;
    assert s[|s| - 1] == p[|p| - 1];
    DigitStringIsRun(p);
    StripUnpadded(s);
  }

  /** `int(str(n)) == n`: year and month values survive the round trip through
      their checkbox strings. */
  lemma ParseIntOfIntToString(n: int)
    ensures ParseInt(IntToString(n)) == Ok(n)
  {
    if n < 0 {
      ParseIntOfNegatedDigits(NatToString(-n));
    } else {
      ParseIntOfDigits(NatToString(n));
    }
  }
}
