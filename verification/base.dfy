/** Small shared vocabulary: optional values, outcomes with an error, and a few
    sequence helpers (sums, conjunctions, sets of elements, duplicate freedom). */
module Base {

  /** Python's `None` or a value. */
  datatype Option<+T> = None | Some(value: T)

  /** A computation that either yields a value or raises a Python exception. */
  datatype Outcome<+T> = Ok(value: T) | Raise(error: PyError)

  /** The exceptions the modelled code can raise: Python's own, and the
      database driver's rejection of a bound parameter it cannot convert. */
  datatype PyError = ValueError | TypeError | IndexError | DataError

  /** Python's `all(bs)`. */
  function All(bs: seq<bool>): bool
  {
    forall i :: 0 <= i < |bs| ==> bs[i]
  }

  /** Python's `any(bs)`. */
  function Any(bs: seq<bool>): bool
  {
    exists i :: 0 <= i < |bs| && bs[i]
  }

  /** `[b] * n` */
  function Repeat<T>(b: T, n: nat): (r: seq<T>)
    ensures |r| == n
    ensures forall i :: 0 <= i < n ==> r[i] == b
  {
    seq(n, _ => b)
  }

  /** Python's `set(s)`. */
  function Elems<T>(s: seq<T>): set<T>
  {
    set x | x in s
  }

  predicate NoDup<T(==)>(s: seq<T>)
  {
    forall i, j :: 0 <= i < j < |s| ==> s[i] != s[j]
  }

  /** Python's `sum(xs)` over exact reals. */
  function Sum(xs: seq<real>): real
  {
    if |xs| == 0 then 0.0 else xs[0] + Sum(xs[1..])
  }

  lemma {:induction false} SumAppend(a: seq<real>, b: seq<real>)
    ensures Sum(a + b) == Sum(a) + Sum(b)
  {
    if |a| == 0 {
      assert a + b == b;
    } else {
      assert (a + b)[1..] == a[1..] + b;
      SumAppend(a[1..], b);
    }
  }

  /** Concatenation of a sequence of sequences, in order. */
  function Flatten<T>(xss: seq<seq<T>>): seq<T>
  {
    if |xss| == 0 then [] else Flatten(xss[..|xss| - 1]) + xss[|xss| - 1]
  }

  /** `s` keeps the order of `u` and takes some of its elements. */
  predicate IsSubsequence<T(==)>(s: seq<T>, u: seq<T>)
    decreases |u|
  {
    if |s| == 0 then true
    else if |u| == 0 then false
    else if s[0] == u[0] then IsSubsequence(s[1..], u[1..])
    else IsSubsequence(s, u[1..])
  }

  lemma {:induction false} SubsequenceElems<T>(s: seq<T>, u: seq<T>)
    requires IsSubsequence(s, u)
    ensures Elems(s) <= Elems(u)
    decreases |u|
  {
    if |s| == 0 {
    } else if s[0] == u[0] {
      SubsequenceElems(s[1..], u[1..]);
      forall x | x in Elems(s) ensures x in Elems(u) {
        if x != s[0] {
          assert x in s[1..];
          assert x in Elems(u[1..]);
        }
      }
    } else {
      SubsequenceElems(s, u[1..]);
      forall x | x in Elems(s) ensures x in Elems(u) {
        assert x in Elems(u[1..]);
      }
    }
  }

  lemma {:induction false} SubsequenceExtend<T>(s: seq<T>, u: seq<T>, x: T)
    requires IsSubsequence(s, u)
    ensures IsSubsequence(s, u + [x])
    decreases |u|
  {
    if |s| > 0 {
      assert (u + [x])[0] == u[0];
      assert (u + [x])[1..] == u[1..] + [x];
      if s[0] == u[0] {
        SubsequenceExtend(s[1..], u[1..], x);
      } else {
        SubsequenceExtend(s, u[1..], x);
      }
    }
  }

  lemma {:induction false} SubsequenceSnoc<T>(s: seq<T>, u: seq<T>, x: T)
    requires IsSubsequence(s, u)
    ensures IsSubsequence(s + [x], u + [x])
    decreases |u|
  {
    if |u| == 0 {
      assert s == [];
      assert s + [x] == u + [x];
      assert IsSubsequence([x][1..], [x][1..]);
    } else if |s| == 0 {
      assert s + [x] == [x];
      assert (u + [x])[1..] == u[1..] + [x];
      if u[0] != x {
        SubsequenceSnoc(s, u[1..], x);
      }
    } else {
      assert (u + [x])[0] == u[0];
      assert (u + [x])[1..] == u[1..] + [x];
      assert (s + [x])[0] == s[0];
      assert (s + [x])[1..] == s[1..] + [x];
      if s[0] == u[0] {
        SubsequenceSnoc(s[1..], u[1..], x);
      } else {
        SubsequenceSnoc(s, u[1..], x);
      }
    }
  }

  /** Dropping the first chosen element keeps a subsequence. */
  lemma {:induction false} SubsequenceTail<T>(s: seq<T>, u: seq<T>)
    requires |s| > 0 && IsSubsequence(s, u)
    ensures IsSubsequence(s[1..], u)
    decreases |u|, 0
  {
    if s[0] == u[0] {
      SubsequenceCons(u[0], s[1..], u[1..]);
      assert [u[0]] + u[1..] == u;
    } else {
      SubsequenceTail(s, u[1..]);
      SubsequenceCons(u[0], s[1..], u[1..]);
      assert [u[0]] + u[1..] == u;
    }
  }

  /** A subsequence of `u` is a subsequence of `u` with anything in front. */
  lemma {:induction false} SubsequenceCons<T>(x: T, s: seq<T>, u: seq<T>)
    requires IsSubsequence(s, u)
    ensures IsSubsequence(s, [x] + u)
    decreases |u|, 1
  {
    assert ([x] + u)[1..] == u;
    if |s| > 0 && s[0] == x {
      SubsequenceTail(s, u);
    }
  }

  /** The tail of a duplicate-free sequence is duplicate-free and lacks the head. */
  lemma NoDupTail<T>(s: seq<T>)
    requires |s| > 0 && NoDup(s)
    ensures NoDup(s[1..]) && s[0] !in s[1..]
  {
    forall j | 0 <= j < |s| - 1 ensures s[1..][j] != s[0] {
      assert s[1..][j] == s[j + 1];
    }
  }
}
