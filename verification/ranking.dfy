/** The top-ten ranking of the chart reports: each community's mean over
    its first eight values, a stable sort by that mean, largest first
    (`sorted(..., key=..., reverse=True)`), and the first ten entries. */
module Ranking {
  import opened Vec

  datatype Entry = Entry(code: string, key: real)

  /** `np.mean(v[0:8])`. */
  function Mean8(v: seq<real>): (m: real)
    requires |v| >= 8
    ensures m * 8.0 == Sum(v[..8])
  {
    Sum(v[..8]) / 8.0
  }

  predicate Descending(s: seq<Entry>) {
    forall i, j | 0 <= i < j < |s| :: s[i].key >= s[j].key
  }

  /** `e` placed after every entry whose key is at least its own. */
  function Insert(t: seq<Entry>, e: Entry): (r: seq<Entry>)
    ensures multiset(r) == multiset(t) + multiset{e}
  {
    if |t| == 0 then [e]
    else if t[|t| - 1].key >= e.key then t + [e]
    else
      assert t == t[..|t| - 1] + [t[|t| - 1]];
      Insert(t[..|t| - 1], e) + [t[|t| - 1]]
  }

  /** Insertion keeps the order descending. */
  lemma {:induction false} InsertDescending(t: seq<Entry>, e: Entry)
    requires Descending(t)
    ensures Descending(Insert(t, e))
    decreases |t|
  {
    if |t| > 0 && t[|t| - 1].key < e.key {
      var init := t[..|t| - 1];
      var last := t[|t| - 1];
      InsertDescending(init, e);
      var r := Insert(init, e);
      forall x | x in r ensures x.key >= last.key {
        InsertMember(init, e, x);
        if x != e {
          var j :| 0 <= j < |init| && init[j] == x;
          assert t[j] == x;
        }
      }
      assert Insert(t, e) == r + [last];
    }
  }

  lemma InsertMember(t: seq<Entry>, e: Entry, x: Entry)
    requires x in Insert(t, e)
    ensures x in t || x == e
  {
    assert x in multiset(Insert(t, e));
  }

  /** The stable descending sort. */
  function SortDesc(s: seq<Entry>): (r: seq<Entry>)
    ensures multiset(r) == multiset(s)
    ensures Descending(r)
  {
    if |s| == 0 then []
    else
      var t := SortDesc(s[..|s| - 1]);
      InsertDescending(t, s[|s| - 1]);
      assert s == s[..|s| - 1] + [s[|s| - 1]];
      Insert(t, s[|s| - 1])
  }

  /** The entries whose key is `x`, in their order. */
  function WithKey(s: seq<Entry>, x: real): (r: seq<Entry>)
    ensures |r| <= |s|
  {
    if |s| == 0 then []
    else WithKey(s[..|s| - 1], x) + (if s[|s| - 1].key == x then [s[|s| - 1]] else [])
  }

  lemma {:induction false} WithKeyAppend(a: seq<Entry>, b: seq<Entry>, x: real)
    ensures WithKey(a + b, x) == WithKey(a, x) + WithKey(b, x)
    decreases |b|
  {
    if |b| == 0 {
      assert a + b == a;
    } else {
      var init := b[..|b| - 1];
      assert (a + b)[..|a + b| - 1] == a + init;
      WithKeyAppend(a, init, x);
    }
  }

  lemma {:induction false} InsertWithKey(t: seq<Entry>, e: Entry, x: real)
    ensures WithKey(Insert(t, e), x) == WithKey(t, x) + WithKey([e], x)
    decreases |t|
  {
    if |t| == 0 {
      assert [] + [e] == [e];
    } else if t[|t| - 1].key >= e.key {
      WithKeyAppend(t, [e], x);
    } else {
      var init := t[..|t| - 1];
      var last := t[|t| - 1];
      var we := WithKey([e], x);
      var wl := WithKey([last], x);
      assert we + wl == wl + we by {
        assert WithKey([e], x) == [] + (if e.key == x then [e] else []);
        assert WithKey([last], x) == [] + (if last.key == x then [last] else []);
      }
      calc {
        WithKey(Insert(t, e), x);
        { WithKeyAppend(Insert(init, e), [last], x); }
        WithKey(Insert(init, e), x) + wl;
        { InsertWithKey(init, e, x); }
        (WithKey(init, x) + we) + wl;
        { Assoc3(WithKey(init, x), we, wl); }
        WithKey(init, x) + (wl + we);
        { Assoc3(WithKey(init, x), wl, we); }
        (WithKey(init, x) + wl) + we;
        { WithKeyAppend(init, [last], x); assert t == init + [last]; }
        WithKey(t, x) + we;
      }
    }
  }

  lemma Assoc3(a: seq<Entry>, b: seq<Entry>, c: seq<Entry>)
    ensures (a + b) + c == a + (b + c)
  {
  }

  /** The sort is stable: entries with equal keys keep their order. */
  lemma {:induction false} SortStable(s: seq<Entry>, x: real)
    ensures WithKey(SortDesc(s), x) == WithKey(s, x)
    decreases |s|
  {
    if |s| > 0 {
      var init := s[..|s| - 1];
      var last := s[|s| - 1];
      calc {
        WithKey(SortDesc(s), x);
        { assert SortDesc(s) == Insert(SortDesc(init), last); }
        WithKey(Insert(SortDesc(init), last), x);
        { InsertWithKey(SortDesc(init), last, x); }
        WithKey(SortDesc(init), x) + WithKey([last], x);
        { SortStable(init, x); }
        WithKey(init, x) + WithKey([last], x);
        { WithKeyAppend(init, [last], x); assert s == init + [last]; }
        WithKey(s, x);
      }
    }
  }

  /** `sorted(...)[:n]`: the `n` best entries, or all when there are fewer. */
  function Top(s: seq<Entry>, n: nat): (r: seq<Entry>)
    ensures |r| == if n < |s| then n else |s|
    ensures Descending(r)
    ensures multiset(r) <= multiset(s)
    ensures forall e | e in r :: e in s
  {
    var t := SortDesc(s);
    var r := t[..if n < |t| then n else |t|];
    assert t == r + t[|r|..];
    assert forall e | e in r :: e in multiset(t);
    r
  }

  /** An entry left out of the top ranks no higher than every entry kept:
      anything with a larger key than the last kept entry is kept. */
  lemma TopKeepsLarger(s: seq<Entry>, n: nat, e: Entry)
    requires e in s && 0 < |Top(s, n)|
    requires e.key > Top(s, n)[|Top(s, n)| - 1].key
    ensures e in Top(s, n)
  {
    var t := SortDesc(s);
    var r := Top(s, n);
    assert e in multiset(t);
    var j :| 0 <= j < |t| && t[j] == e;
    assert r[|r| - 1] == t[|r| - 1];
    assert j < |r|;
    assert r[j] == e;
  }

  /** No two entries share a code. */
  predicate DistinctCodes(s: seq<Entry>) {
    forall i, j | 0 <= i < j < |s| :: s[i].code != s[j].code
  }

  /** An entry found at two places is counted twice. */
  lemma CountTwice(r: seq<Entry>, i: nat, j: nat)
    requires i < j < |r|
    ensures r[i] == r[j] ==> multiset(r)[r[i]] >= 2
  {
    assert r == r[..j] + [r[j]] + r[j + 1..];
    assert r[i] in r[..j];
  }

  /** When codes are distinct, every entry is counted at most once. */
  lemma {:induction false} CountOnce(s: seq<Entry>, x: Entry)
    requires DistinctCodes(s)
    ensures multiset(s)[x] <= 1
    decreases |s|
  {
    if |s| > 0 {
      var init := s[..|s| - 1];
      var last := s[|s| - 1];
      assert s == init + [last];
      assert forall k | 0 <= k < |init| :: init[k] == s[k];
      CountOnce(init, x);
      assert last !in init;
    }
  }

  /** Taking the top entries never lists a code twice. */
  lemma TopDistinct(s: seq<Entry>, n: nat)
    requires DistinctCodes(s)
    ensures DistinctCodes(Top(s, n))
  {
    var r := Top(s, n);
    forall x ensures multiset(r)[x] <= 1 {
      CountOnce(s, x);
    }
    forall i, j | 0 <= i < j < |r| ensures r[i].code != r[j].code {
      CountTwice(r, i, j);
      assert r[i] in multiset(s) && r[j] in multiset(s);
      var a :| 0 <= a < |s| && s[a] == r[i];
      var b :| 0 <= b < |s| && s[b] == r[j];
    }
  }
}
