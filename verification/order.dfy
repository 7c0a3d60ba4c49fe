/** Python's ordering of strings and `sorted` over a list of strings, as
    the reports use it to list codes. */
module Order {
  import opened Text
  import opened Dict

  /** Python's `a <= b` on strings: code point by code point, and a proper
      prefix before the longer string. */
  predicate LessEq(a: string, b: string) {
    |a| == 0 || (|b| > 0 && (a[0] < b[0] || (a[0] == b[0] && LessEq(a[1..], b[1..]))))
  }

  lemma {:induction false} Total(a: string, b: string)
    ensures LessEq(a, b) || LessEq(b, a)
    decreases |a|
  {
    if |a| > 0 && |b| > 0 && a[0] == b[0] {
      Total(a[1..], b[1..]);
    }
  }

  lemma {:induction false} Antisymmetric(a: string, b: string)
    requires LessEq(a, b) && LessEq(b, a)
    ensures a == b
    decreases |a|
  {
    if |a| > 0 {
      Antisymmetric(a[1..], b[1..]);
      assert a == [a[0]] + a[1..] && b == [b[0]] + b[1..];
    }
  }

  lemma {:induction false} Transitive(a: string, b: string, c: string)
    requires LessEq(a, b) && LessEq(b, c)
    ensures LessEq(a, c)
    decreases |a|
  {
    if |a| > 0 && a[0] == b[0] && b[0] == c[0] {
      Transitive(a[1..], b[1..], c[1..]);
    }
  }

  predicate Ascending(s: seq<string>) {
    forall i, j | 0 <= i < j < |s| :: LessEq(s[i], s[j])
  }

  /** `x` placed after every string not above it. */
  function Insert(t: seq<string>, x: string): (r: seq<string>)
    ensures multiset(r) == multiset(t) + multiset{x}
  {
    if |t| == 0 then [x]
    else if LessEq(t[|t| - 1], x) then t + [x]
    else
      assert t == t[..|t| - 1] + [t[|t| - 1]];
      Insert(t[..|t| - 1], x) + [t[|t| - 1]]
  }

  lemma {:induction false} InsertAscending(t: seq<string>, x: string)
    requires Ascending(t)
    ensures Ascending(Insert(t, x))
    decreases |t|
  {
    if |t| > 0 {
      var init := t[..|t| - 1];
      var last := t[|t| - 1];
      if LessEq(last, x) {
        forall i | 0 <= i < |init| ensures LessEq(t[i], x) {
          Transitive(t[i], last, x);
        }
      } else {
        Total(last, x);
        InsertAscending(init, x);
        var r := Insert(init, x);
        forall y | y in r ensures LessEq(y, last) {
          InsertMember(init, x, y);
        }
      }
    }
  }

  lemma InsertMember(t: seq<string>, x: string, y: string)
    requires y in Insert(t, x)
    ensures y in t || y == x
  {
    assert y in multiset(Insert(t, x));
  }

  lemma LastSplit(s: seq<string>)
    requires |s| > 0
    ensures multiset(s) == multiset(s[..|s| - 1]) + multiset{s[|s| - 1]}
  {
    assert s == s[..|s| - 1] + [s[|s| - 1]];
  }

  /** `sorted(codes)`. */
  function Sort(s: seq<string>): (r: seq<string>)
    ensures multiset(r) == multiset(s)
    ensures Ascending(r)
  {
    if |s| == 0 then []
    else
      var t := Sort(s[..|s| - 1]);
      InsertAscending(t, s[|s| - 1]);
      LastSplit(s);
      Insert(t, s[|s| - 1])
  }

  /** The code column of some lines, in their order. */
  function Codes<T>(r: seq<T>, code: T -> string): (cs: seq<string>)
    ensures |cs| == |r| && forall i | 0 <= i < |r| :: cs[i] == code(r[i])
  {
    seq(|r|, i requires 0 <= i < |r| => code(r[i]))
  }

  /** The sorted list is as long as the input, and every string of it is
      one of the input's. */
  lemma SortMembers(s: seq<string>)
    ensures |Sort(s)| == |s|
    ensures forall i | 0 <= i < |Sort(s)| :: Sort(s)[i] in s
  {
    assert |multiset(Sort(s))| == |multiset(s)|;
    forall i | 0 <= i < |Sort(s)| ensures Sort(s)[i] in s {
      assert Sort(s)[i] in multiset(Sort(s));
    }
  }

  /** Sorting a list that is already in order changes nothing. */
  lemma {:induction false} SortSorted(s: seq<string>)
    requires Ascending(s)
    ensures Sort(s) == s
    decreases |s|
  {
    if |s| > 0 {
      var init := s[..|s| - 1];
      SortSorted(init);
      assert s == init + [s[|s| - 1]];
      if |init| > 0 {
        assert LessEq(init[|init| - 1], s[|s| - 1]);
      }
    }
  }

  /** A string that is below every other string of the list comes first
      once the list is sorted. */
  lemma SortFirst(s: seq<string>, x: string)
    requires x in s
    requires forall y | y in s && y != x :: LessEq(x, y)
    ensures Sort(s)[0] == x
  {
    var r := Sort(s);
    assert x in multiset(r);
    assert x in r;
    var p := FirstIndex(r, x);
    if p > 0 {
      assert r[p - 1] in multiset(s);
      Antisymmetric(r[p - 1], x);
    }
  }

  /** "00" sorts before every other numeral of two or more digits. */
  lemma ZeroZeroBelow(c: string)
    requires IsNumeral(c) && |c| >= 2
    ensures LessEq("00", c)
  {
    assert IsDigit(c[0]) && IsDigit(c[1]);
    var z := "00";
    assert z[1..] == "0";
    if c[0] == '0' {
      assert c[1..][0] == c[1];
      if c[1] == '0' {
        assert LessEq(z[1..][1..], c[1..][1..]);
      }
    }
  }
}
