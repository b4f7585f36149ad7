/** String operations the index relies on: lower-casing, suffix tests and
    the code-point ordering used for sorted listings. */
module Text {

  /** Lower-casing of one character (ASCII letters only). */
  function LowerChar(c: char): char
  {
    if 'A' <= c <= 'Z' then (c as int - 'A' as int + 'a' as int) as char else c
  }

  /** `s.lower()`, restricted to ASCII letters. */
  function Lower(s: string): (r: string)
    ensures |r| == |s|
    ensures forall i :: 0 <= i < |s| ==> r[i] == LowerChar(s[i])
  {
    if |s| == 0 then [] else [LowerChar(s[0])] + Lower(s[1..])
  }

  /** Lower-casing twice is lower-casing once. */
  lemma LowerIdempotent(s: string)
    ensures Lower(Lower(s)) == Lower(s)
  {
    var l := Lower(s);
    assert forall i :: 0 <= i < |s| ==> LowerChar(LowerChar(s[i])) == LowerChar(s[i]);
    assert forall i :: 0 <= i < |s| ==> Lower(l)[i] == l[i];
  }

  /** `s.endswith(suffix)`. */
  predicate EndsWith(s: string, suffix: string)
  {
    |suffix| <= |s| && s[|s| - |suffix|..] == suffix
  }

  /** `s.endswith(tuple(suffixes))`: true when any suffix matches. */
  function EndsWithAny(s: string, suffixes: seq<string>): (r: bool)
    ensures r <==> exists i :: 0 <= i < |suffixes| && EndsWith(s, suffixes[i])
  {
    if |suffixes| == 0 then false
    else EndsWith(s, suffixes[0]) || EndsWithAny(s, suffixes[1..])
  }

  /** Code-point order on strings, as Python compares `str` values. */
  predicate Below(a: string, b: string)
  {
    if |a| == 0 then |b| > 0
    else if |b| == 0 then false
    else a[0] < b[0] || (a[0] == b[0] && Below(a[1..], b[1..]))
  }

  lemma {:induction false} BelowIrreflexive(a: string)
    ensures !Below(a, a)
  {
    if |a| > 0 { BelowIrreflexive(a[1..]); }
  }

  lemma {:induction false} BelowTransitive(a: string, b: string, c: string)
    requires Below(a, b) && Below(b, c)
    ensures Below(a, c)
  {
    if |a| > 0 && |b| > 0 && |c| > 0 && a[0] == b[0] == c[0] {
      BelowTransitive(a[1..], b[1..], c[1..]);
    }
  }

  lemma {:induction false} BelowTotal(a: string, b: string)
    requires a != b
    ensures Below(a, b) || Below(b, a)
  {
    if |a| > 0 && |b| > 0 && a[0] == b[0] {
      assert a == [a[0]] + a[1..] && b == [b[0]] + b[1..];
      BelowTotal(a[1..], b[1..]);
    }
  }

  predicate StrictlySorted(s: seq<string>)
  {
    forall i, j :: 0 <= i < j < |s| ==> Below(s[i], s[j])
  }

  /** Every finite non-empty set of strings has a least element. */
  lemma {:induction false} LeastExists(s: set<string>)
    requires s != {}
    ensures exists m :: IsLeast(s, m)
    decreases |s|
  {
    var y :| y in s;
    var rest := s - {y};
    if rest == {} {
      assert s == {y};
      assert IsLeast(s, y);
    } else {
      LeastExists(rest);
      var m :| IsLeast(rest, m);
      if Below(m, y) {
        assert IsLeast(s, m);
      } else {
        BelowTotal(m, y);
        forall x | x in s && x != y
          ensures Below(y, x)
        {
          if x != m { BelowTransitive(y, m, x); }
        }
        assert IsLeast(s, y);
      }
    }
  }

  /** `m` lies below every other element of `s`. */
  predicate IsLeast(s: set<string>, m: string)
  {
    m in s && forall x :: x in s && x != m ==> Below(m, x)
  }

  /** At most one element of a set lies below all the others. */
  lemma LeastUnique(s: set<string>, m: string, n: string)
    requires IsLeast(s, m) && IsLeast(s, n)
    ensures m == n
  {
    if m != n {
      BelowTransitive(m, n, m);
      BelowIrreflexive(m);
    }
  }

  /** The least element of a non-empty set of strings. */
  function Least(s: set<string>): (m: string)
    requires s != {}
    ensures IsLeast(s, m)
  {
    LeastExists(s);
    assert forall m, n :: IsLeast(s, m) && IsLeast(s, n) ==> m == n by {
      forall m, n | IsLeast(s, m) && IsLeast(s, n) ensures m == n {
        LeastUnique(s, m, n);
      }
    }
    var m :| IsLeast(s, m);
    m
  }

  /** The elements of a set of strings in ascending order, as an
      `ORDER BY` on a text column gives them. */
  function Sorted(s: set<string>): (r: seq<string>)
    ensures |r| == |s|
    ensures forall x :: x in s <==> x in r
    ensures StrictlySorted(r)
    decreases |s|
  {
    if s == {} then []
    else
      var m := Least(s);
      var tail := Sorted(s - {m});
      assert forall j :: 0 <= j < |tail| ==> Below(m, tail[j]) by {
        forall j | 0 <= j < |tail| ensures Below(m, tail[j]) {
          assert tail[j] in tail;
        }
      }
      [m] + tail
  }
}
