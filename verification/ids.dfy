/** `sanitize_id`: turns a display name into a component id. The stripped
    name has every run of characters outside `[a-zA-Z0-9]` replaced by one
    hyphen and its outer hyphens removed; an empty result becomes `id` and a
    result starting with a digit gets an `n` in front; then a hyphen and the
    first eight hexadecimal digits of the MD5 digest of the stripped name are
    appended. The digest is a parameter: `Md5Hex(name)` stands for
    `hashlib.md5(name.encode('utf-8')).hexdigest()`. */
module Ids {
  import opened Text

  /** A character an id may hold. */
  predicate IsIdChar(c: char)
  {
    IsAsciiAlnum(c) || c == '-'
  }

  predicate AllIdChars(s: string)
  {
    forall i :: 0 <= i < |s| ==> IsIdChar(s[i])
  }

  /** No two hyphens side by side. */
  predicate NoDoubleHyphen(s: string)
  {
    forall i :: 0 <= i < |s| - 1 ==> s[i] != '-' || s[i + 1] != '-'
  }

  /** The shape every sanitized name has: a letter first, then letters,
      digits and single hyphens, not ending in a hyphen. */
  predicate WellFormedName(s: string)
  {
    && |s| > 0 && IsAsciiLetter(s[0]) && s[|s| - 1] != '-'
    && AllIdChars(s) && NoDoubleHyphen(s)
  }

  /** The letters and digits of `s`, in order. */
  function Alnums(s: string): string
  {
    if |s| == 0 then ""
    else (if IsAsciiAlnum(s[0]) then [s[0]] else "") + Alnums(s[1..])
  }

  /** `re.sub(r'[^a-zA-Z0-9]+', '-', s)`; `inRun` says the character before
      `s` already belonged to a replaced run. */
  function Hyphenate(s: string, inRun: bool): (r: string)
    ensures AllIdChars(r) && NoDoubleHyphen(r)
    ensures inRun && |r| > 0 ==> r[0] != '-'
    ensures Alnums(r) == Alnums(s)
  {
    if |s| == 0 then ""
    else if IsAsciiAlnum(s[0]) then [s[0]] + Hyphenate(s[1..], false)
    else if inRun then Hyphenate(s[1..], true)
    else "-" + Hyphenate(s[1..], true)
  }

  /** `s.lstrip('-')` */
  function TrimHyphensLeft(s: string): (r: string)
    ensures |r| > 0 ==> r[0] != '-'
  {
    if |s| > 0 && s[0] == '-' then TrimHyphensLeft(s[1..]) else s
  }

  /** `s.rstrip('-')` */
  function TrimHyphensRight(s: string): (r: string)
    ensures |r| > 0 ==> r[|r| - 1] != '-'
  {
    if |s| > 0 && s[|s| - 1] == '-' then TrimHyphensRight(s[..|s| - 1]) else s
  }

  /** `s.strip('-')` */
  function StripHyphens(s: string): string
  {
    TrimHyphensRight(TrimHyphensLeft(s))
  }

  /** The name part of the id, before the hash is appended. */
  function SanitizedName(name: string): string
  {
    var t := StripHyphens(Hyphenate(Strip(name), false));
    if |t| == 0 then "id"
    else if IsDigit(t[0]) then "n" + t
    else t
  }

  /** `[:8]` */
  function Take8(h: string): (r: string)
    ensures |r| == if |h| < 8 then |h| else 8
  {
    if |h| <= 8 then h else h[..8]
  }

  predicate IsLowerHex(c: char)
  {
    IsDigit(c) || ('a' <= c <= 'f')
  }

  /** `sanitize_id` */
  function SanitizeId(idStr: string, Md5Hex: string -> string): (r: string)
    ensures |r| > 0 && IsAsciiLetter(r[0])
    ensures var h := Take8(Md5Hex(Strip(idStr)));
      && |r| > |h| + 1 && r[|r| - |h| - 1] == '-' && r[|r| - |h|..] == h
  {
    var name := SanitizedName(idStr);
    SanitizedNameWellFormed(idStr);
    name + "-" + Take8(Md5Hex(Strip(idStr)))
  }

  // ----- Properties -----

  lemma {:induction false} TrimLeftKeepsShape(s: string)
    requires AllIdChars(s) && NoDoubleHyphen(s)
    ensures AllIdChars(TrimHyphensLeft(s)) && NoDoubleHyphen(TrimHyphensLeft(s))
    ensures Alnums(TrimHyphensLeft(s)) == Alnums(s)
  {
    if |s| > 0 && s[0] == '-' {
      assert AllIdChars(s[1..]) && NoDoubleHyphen(s[1..]) by {
        forall i | 0 <= i < |s[1..]| ensures IsIdChar(s[1..][i]) {
          assert s[1..][i] == s[i + 1];
        }
      }
      TrimLeftKeepsShape(s[1..]);
    }
  }

  lemma {:induction false} AlnumsSnoc(s: string, c: char)
    ensures Alnums(s + [c]) == Alnums(s) + (if IsAsciiAlnum(c) then [c] else "")
  {
    if |s| > 0 {
      assert (s + [c])[1..] == s[1..] + [c];
      AlnumsSnoc(s[1..], c);
    } else {
      assert [c][1..] == "";
    }
  }

  lemma {:induction false} TrimRightKeepsShape(s: string)
    requires AllIdChars(s) && NoDoubleHyphen(s)
    ensures AllIdChars(TrimHyphensRight(s)) && NoDoubleHyphen(TrimHyphensRight(s))
    ensures Alnums(TrimHyphensRight(s)) == Alnums(s)
    ensures |s| > 0 && s[0] != '-' ==> |TrimHyphensRight(s)| > 0 && TrimHyphensRight(s)[0] == s[0]
  {
    if |s| > 0 && s[|s| - 1] == '-' {
      var p := s[..|s| - 1];
      assert p + ['-'] == s;
      AlnumsSnoc(p, '-');
      TrimRightKeepsShape(p);
    }
  }

  /** The stripped, hyphenated text keeps exactly the letters and digits of
      the stripped name, starts with one of them, and has the id shape. */
  lemma StrippedShape(name: string)
    ensures var t := StripHyphens(Hyphenate(Strip(name), false));
      && AllIdChars(t) && NoDoubleHyphen(t)
      && Alnums(t) == Alnums(Strip(name))
      && (|t| > 0 ==> IsAsciiAlnum(t[0]) && t[|t| - 1] != '-')
  {
    var h := Hyphenate(Strip(name), false);
    TrimLeftKeepsShape(h);
    TrimRightKeepsShape(TrimHyphensLeft(h));
  }

  /** A text of id characters whose first character is not a hyphen begins
      with its first letter or digit. */
  lemma AlnumsHead(t: string)
    requires |t| > 0 && IsAsciiAlnum(t[0])
    ensures |Alnums(t)| > 0 && Alnums(t)[0] == t[0]
  {
  }

  lemma {:induction false} NoAlnumsAllHyphens(t: string)
    requires AllIdChars(t) && Alnums(t) == ""
    ensures forall i :: 0 <= i < |t| ==> t[i] == '-'
  {
    if |t| > 0 {
      assert !IsAsciiAlnum(t[0]);
      assert AllIdChars(t[1..]) by {
        forall i | 0 <= i < |t[1..]| ensures IsIdChar(t[1..][i]) {
          assert t[1..][i] == t[i + 1];
        }
      }
      NoAlnumsAllHyphens(t[1..]);
      forall i | 0 <= i < |t| ensures t[i] == '-' {
        if i > 0 {
          assert t[i] == t[1..][i - 1];
        }
      }
    }
  }

  /** Every sanitized name has the id shape. */
  lemma SanitizedNameWellFormed(name: string)
    ensures WellFormedName(SanitizedName(name))
  {
    var t := StripHyphens(Hyphenate(Strip(name), false));
    StrippedShape(name);
    if |t| == 0 {
      assert SanitizedName(name) == "id";
      IdWellFormed();
    } else if IsDigit(t[0]) {
      assert SanitizedName(name) == "n" + t;
      DigitPrefixed(t);
    } else {
      assert SanitizedName(name) == t;
    }
  }

  lemma IdWellFormed()
    ensures WellFormedName("id")
  {
    assert IsIdChar("id"[0]) && IsIdChar("id"[1]);
  }

  /** Prefixing `n` to a digit-led id text gives a well-formed name. */
  lemma DigitPrefixed(t: string)
    requires AllIdChars(t) && NoDoubleHyphen(t)
    requires |t| > 0 && IsDigit(t[0]) && t[|t| - 1] != '-'
    ensures WellFormedName("n" + t)
  {
    var r := "n" + t;
    forall i | 0 <= i < |r| - 1 ensures r[i] != '-' || r[i + 1] != '-' {
      if i > 0 {
        assert r[i] == t[i - 1] && r[i + 1] == t[i];
      }
    }
    forall i | 0 <= i < |r| ensures IsIdChar(r[i]) {
      if i > 0 {
        assert r[i] == t[i - 1];
      }
    }
  }

  /** The name part keeps the letters and digits of the stripped name, in
      order: it is `id` when there are none, and gains a leading `n` when
      the first of them is a digit. */
  lemma SanitizedNameKeepsAlnums(name: string)
    ensures var a := Alnums(Strip(name));
      SanitizedName(name) ==
        if |a| == 0 then "id"
        else if IsDigit(a[0]) then "n" + StripHyphens(Hyphenate(Strip(name), false))
        else StripHyphens(Hyphenate(Strip(name), false))
    ensures var a := Alnums(Strip(name));
      Alnums(SanitizedName(name)) ==
        if |a| == 0 then "id"
        else if IsDigit(a[0]) then "n" + a
        else a
  {
    var t := StripHyphens(Hyphenate(Strip(name), false));
    StrippedShape(name);
    if |t| > 0 {
      AlnumsHead(t);
      if IsDigit(t[0]) {
        assert ("n" + t)[1..] == t;
      }
    } else {
      assert Alnums(t) == "";
      assert Alnums("id") == "id" by {
        assert "id"[1..] == "d" && "d"[1..] == "";
      }
    }
  }

  /** A hyphen at the head of a run-free text: hyphenation returns it. */
  lemma {:induction false} HyphenateFixpoint(s: string, inRun: bool)
    requires AllIdChars(s) && NoDoubleHyphen(s)
    requires inRun && |s| > 0 ==> s[0] != '-'
    ensures Hyphenate(s, inRun) == s
  {
    if |s| > 0 {
      assert AllIdChars(s[1..]) && NoDoubleHyphen(s[1..]) by {
        forall i | 0 <= i < |s[1..]| ensures IsIdChar(s[1..][i]) {
          assert s[1..][i] == s[i + 1];
        }
        forall i | 0 <= i < |s[1..]| - 1 ensures s[1..][i] != '-' || s[1..][i + 1] != '-' {
          assert s[1..][i] == s[i + 1] && s[1..][i + 1] == s[i + 2];
        }
      }
      if IsAsciiAlnum(s[0]) {
        HyphenateFixpoint(s[1..], false);
        assert [s[0]] + s[1..] == s;
      } else {
        assert s[0] == '-';
        HyphenateFixpoint(s[1..], true);
        assert "-" + s[1..] == s;
      }
    }
  }

  /** A well-formed name sanitizes to itself: sanitizing is idempotent on
      the name part. */
  lemma SanitizedNameFixpoint(name: string)
    requires WellFormedName(name)
    ensures SanitizedName(name) == name
  {
    assert forall i :: 0 <= i < |name| ==> !IsSpace(name[i]) by {
      forall i | 0 <= i < |name| ensures !IsSpace(name[i]) {
        assert IsIdChar(name[i]);
      }
    }
    StripNoSpaceIdentity(name);
    HyphenateFixpoint(name, false);
    assert TrimHyphensLeft(name) == name;
    assert TrimHyphensRight(name) == name;
  }

  /** Sanitizing a sanitized name changes nothing. */
  lemma SanitizedNameIdempotent(name: string)
    ensures SanitizedName(SanitizedName(name)) == SanitizedName(name)
  {
    SanitizedNameWellFormed(name);
    SanitizedNameFixpoint(SanitizedName(name));
  }

  /** Two ids are equal only if their hash parts are: names that sanitize
      alike are told apart by the digest alone. */
  lemma SameIdSameHash(a: string, b: string, Md5Hex: string -> string)
    requires |Md5Hex(Strip(a))| >= 8 && |Md5Hex(Strip(b))| >= 8
    requires SanitizeId(a, Md5Hex) == SanitizeId(b, Md5Hex)
    ensures Take8(Md5Hex(Strip(a))) == Take8(Md5Hex(Strip(b)))
    ensures SanitizedName(a) == SanitizedName(b)
  {
    var ra := SanitizeId(a, Md5Hex);
    var na := SanitizedName(a);
    var nb := SanitizedName(b);
    assert ra[..|na|] == na;
    assert ra[..|nb|] == nb;
  }

  /** Replacing one separator by another never changes the hyphenated text. */
  lemma {:induction false} SeparatorsInterchangeable(p: string, x: char, y: char, q: string, inRun: bool)
    requires !IsAsciiAlnum(x) && !IsAsciiAlnum(y)
    ensures Hyphenate(p + [x] + q, inRun) == Hyphenate(p + [y] + q, inRun)
  {
    if |p| == 0 {
      assert ([x] + q)[1..] == q && ([y] + q)[1..] == q;
      assert [] + [x] + q == [x] + q && [] + [y] + q == [y] + q;
    } else {
      assert (p + [x] + q)[1..] == p[1..] + [x] + q;
      assert (p + [y] + q)[1..] == p[1..] + [y] + q;
      SeparatorsInterchangeable(p[1..], x, y, q, IsAsciiAlnum(p[0]) == false);
    }
  }

  /** So different names can share a name part, e.g. `a b` and `a/b`: only
      the digest tells their ids apart. */
  lemma NamePartsCollide()
    ensures SanitizedName("a b") == SanitizedName("a/b")
  {
    StripUnpadded("a b");
    StripUnpadded("a/b");
    assert "a b" == "a" + [' '] + "b" && "a/b" == "a" + ['/'] + "b";
    SeparatorsInterchangeable("a", ' ', '/', "b", false);
  }

  /** With a hexadecimal digest the whole id is made of id characters. */
  lemma IdCharsOnly(idStr: string, Md5Hex: string -> string)
    requires forall i :: 0 <= i < |Md5Hex(Strip(idStr))| ==> IsLowerHex(Md5Hex(Strip(idStr))[i])
    ensures AllIdChars(SanitizeId(idStr, Md5Hex))
  {
    var name := SanitizedName(idStr);
    SanitizedNameWellFormed(idStr);
    var h := Take8(Md5Hex(Strip(idStr)));
    var r := SanitizeId(idStr, Md5Hex);
    forall i | 0 <= i < |r| ensures IsIdChar(r[i]) {
      if i < |name| {
        assert r[i] == name[i];
      } else if i > |name| {
        assert r[i] == h[i - |name| - 1];
      }
    }
  }
}
