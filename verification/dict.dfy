/** Python's insertion-ordered `dict`, as a list of key/value pairs.
    Assigning to a present key replaces its value where it stands;
    assigning to a new key appends it. Iteration follows the list. */
module Dict {
  import opened Wrappers

  type Dict<K(==), V> = seq<(K, V)>

  function Keys<K(==), V>(d: Dict<K, V>): (ks: seq<K>)
    ensures |ks| == |d|
    ensures forall i | 0 <= i < |d| :: ks[i] == d[i].0
  {
    seq(|d|, i requires 0 <= i < |d| => d[i].0)
  }

  predicate Distinct<K(==)>(s: seq<K>) {
    forall i, j | 0 <= i < j < |s| :: s[i] != s[j]
  }

  /** No key appears twice, as in every Python dict. */
  predicate Valid<K(==), V>(d: Dict<K, V>) {
    Distinct(Keys(d))
  }

  predicate HasKey<K(==), V>(d: Dict<K, V>, k: K) {
    k in Keys(d)
  }

  /** `d.get(k)`: the value stored under `k`, if any. */
  function Get<K(==), V>(d: Dict<K, V>, k: K): (r: Option<V>)
    ensures r.Some? <==> HasKey(d, k)
    ensures r.Some? ==> (k, r.value) in d
  {
    if |d| == 0 then None
    else if d[0].0 == k then Some(d[0].1)
    else Get(d[1..], k)
  }

  /** In a dict with no repeated key, `Get` finds the value stored with
      each key. */
  lemma {:induction false} GetAt<K, V>(d: Dict<K, V>, i: nat)
    requires Valid(d) && i < |d|
    ensures Get(d, d[i].0) == Some(d[i].1)
    decreases |d|
  {
    if i > 0 {
      assert Keys(d)[0] != Keys(d)[i];
      var t := d[1..];
      forall a, b | 0 <= a < b < |t| ensures Keys(t)[a] != Keys(t)[b] {
        assert Keys(d)[a + 1] != Keys(d)[b + 1];
      }
      GetAt(t, i - 1);
    }
  }

  /** `d[k] = v`. */
  function Put<K(==), V>(d: Dict<K, V>, k: K, v: V): Dict<K, V>
  {
    if |d| == 0 then [(k, v)]
    else if d[0].0 == k then [(k, v)] + d[1..]
    else [d[0]] + Put(d[1..], k, v)
  }

  /** After `d[k] = v`, `k` reads `v` and every other key reads what it
      read before. */
  lemma {:induction false} PutGet<K, V>(d: Dict<K, V>, k: K, v: V)
    ensures Get(Put(d, k, v), k) == Some(v)
    ensures forall k' | k' != k :: Get(Put(d, k, v), k') == Get(d, k')
    decreases |d|
  {
    if |d| > 0 && d[0].0 != k {
      PutGet(d[1..], k, v);
    }
  }

  /** Every pair after `d[k] = v` is the new one or was there before. */
  lemma {:induction false} PutPairs<K, V>(d: Dict<K, V>, k: K, v: V)
    ensures forall p | p in Put(d, k, v) :: p == (k, v) || p in d
    decreases |d|
  {
    if |d| > 0 && d[0].0 != k {
      PutPairs(d[1..], k, v);
    }
  }

  /** `d[k] = v` leaves the key order unchanged when `k` is present and
      appends `k` when it is new. */
  lemma {:induction false} PutKeys<K, V>(d: Dict<K, V>, k: K, v: V)
    ensures HasKey(d, k) ==> Keys(Put(d, k, v)) == Keys(d)
    ensures !HasKey(d, k) ==> Keys(Put(d, k, v)) == Keys(d) + [k]
    decreases |d|
  {
    if |d| > 0 {
      KeysCons(d[0], d[1..]);
      assert d == [d[0]] + d[1..];
      if d[0].0 == k {
        KeysCons((k, v), d[1..]);
      } else {
        PutKeys(d[1..], k, v);
        KeysCons(d[0], Put(d[1..], k, v));
      }
    }
  }

  lemma KeysCons<K, V>(p: (K, V), d: Dict<K, V>)
    ensures Keys([p] + d) == [p.0] + Keys(d)
  {
    assert forall i | 0 < i <= |d| :: ([p] + d)[i] == d[i - 1];
  }

  /** The dict built by assigning the pairs of `ps` one after another. */
  function FromPairs<K(==), V>(ps: seq<(K, V)>): Dict<K, V>
  {
    if |ps| == 0 then []
    else Put(FromPairs(ps[..|ps| - 1]), ps[|ps| - 1].0, ps[|ps| - 1].1)
  }

  /** Like every Python dict, the result never holds a key twice. */
  lemma {:induction false} FromPairsValid<K, V>(ps: seq<(K, V)>)
    ensures Valid(FromPairs(ps))
    decreases |ps|
  {
    if |ps| > 0 {
      FromPairsValid(ps[..|ps| - 1]);
      PutKeys(FromPairs(ps[..|ps| - 1]), ps[|ps| - 1].0, ps[|ps| - 1].1);
    }
  }

  /** Position of the first occurrence of `x` in `s`. */
  function FirstIndex<K(==)>(s: seq<K>, x: K): (i: nat)
    requires x in s
    ensures i < |s| && s[i] == x
    ensures forall j | 0 <= j < i :: s[j] != x
  {
    if s[0] == x then 0 else 1 + FirstIndex(s[1..], x)
  }

  /** A key is present exactly when some pair carries it. */
  lemma {:induction false} FromPairsKeys<K, V>(ps: seq<(K, V)>)
    ensures forall k :: HasKey(FromPairs(ps), k) <==> k in Keys(ps)
    decreases |ps|
  {
    if |ps| > 0 {
      var init := ps[..|ps| - 1];
      var (k, v) := ps[|ps| - 1];
      FromPairsKeys(init);
      PutKeys(FromPairs(init), k, v);
      assert Keys(ps) == Keys(init) + [k];
    }
  }

  /** A key reads the value of the LAST pair that carries it: later
      duplicates overwrite earlier ones. */
  lemma {:induction false} FromPairsLast<K, V>(ps: seq<(K, V)>, i: nat)
    requires i < |ps|
    requires forall j | i < j < |ps| :: ps[j].0 != ps[i].0
    ensures Get(FromPairs(ps), ps[i].0) == Some(ps[i].1)
    decreases |ps|
  {
    var init := ps[..|ps| - 1];
    var (k, v) := ps[|ps| - 1];
    PutGet(FromPairs(init), k, v);
    if i < |ps| - 1 {
      assert ps[i] == init[i];
      FromPairsLast(init, i);
    }
  }

  /** Keys come in the order of their first occurrence among the pairs:
      overwriting a key does not move it. */
  lemma {:induction false} FromPairsOrder<K, V>(ps: seq<(K, V)>, i: nat, j: nat)
    requires i < j < |FromPairs(ps)|
    ensures FromPairs(ps)[i].0 in Keys(ps) && FromPairs(ps)[j].0 in Keys(ps)
    ensures FirstIndex(Keys(ps), FromPairs(ps)[i].0) < FirstIndex(Keys(ps), FromPairs(ps)[j].0)
    decreases |ps|
  {
    var r := FromPairs(ps);
    FromPairsKeys(ps);
    assert Keys(r)[i] == r[i].0 && Keys(r)[j] == r[j].0;
    var init := ps[..|ps| - 1];
    var (k, v) := ps[|ps| - 1];
    var d := FromPairs(init);
    FromPairsKeys(init);
    PutKeys(d, k, v);
    assert Keys(ps) == Keys(init) + [k];
    if HasKey(d, k) {
      assert d[i].0 == r[i].0 && d[j].0 == r[j].0;
      FromPairsOrder(init, i, j);
      FirstIndexPrefix(Keys(init), [k], r[i].0);
      FirstIndexPrefix(Keys(init), [k], r[j].0);
    } else if j < |d| {
      assert r[i].0 == d[i].0 && r[j].0 == d[j].0;
      FromPairsOrder(init, i, j);
      FirstIndexPrefix(Keys(init), [k], r[i].0);
      FirstIndexPrefix(Keys(init), [k], r[j].0);
    } else {
      assert r[i].0 == d[i].0;
      assert Keys(d)[i] == d[i].0;
      FirstIndexPrefix(Keys(init), [k], r[i].0);
      assert FirstIndex(Keys(ps), k) == |init|;
    }
  }

  lemma FirstIndexPrefix<K>(a: seq<K>, b: seq<K>, x: K)
    requires x in a
    ensures FirstIndex(a + b, x) == FirstIndex(a, x)
  {
    var i := FirstIndex(a, x);
    assert (a + b)[i] == x;
  }

  /** The assignments a loop over `items` makes: `f` picks the key and value
      of an item, or skips it. */
  function Chosen<R, K, V>(items: seq<R>, f: R -> Option<(K, V)>): (ps: seq<(K, V)>)
    ensures |ps| <= |items|
  {
    if |items| == 0 then []
    else
      var last := f(items[|items| - 1]);
      Chosen(items[..|items| - 1], f) + if last.Some? then [last.value] else []
  }

  /** The loop `for x in items: if picked: d[key] = value`, from an empty
      dict. */
  function Gather<R, K(==), V>(items: seq<R>, f: R -> Option<(K, V)>): Dict<K, V>
  {
    if |items| == 0 then []
    else
      var d := Gather(items[..|items| - 1], f);
      match f(items[|items| - 1])
      case None => d
      case Some((k, v)) => Put(d, k, v)
  }

  /** The loop builds the dict of its assignments. */
  lemma {:induction false} GatherIsFromPairs<R, K, V>(items: seq<R>, f: R -> Option<(K, V)>)
    ensures Gather(items, f) == FromPairs(Chosen(items, f))
    decreases |items|
  {
    if |items| > 0 {
      var init := items[..|items| - 1];
      GatherIsFromPairs(init, f);
      var ps := Chosen(items, f);
      if f(items[|items| - 1]).Some? {
        assert ps[..|ps| - 1] == Chosen(init, f);
      } else {
        assert ps == Chosen(init, f);
      }
    }
  }

  /** A key is assigned exactly when some item picks it. */
  lemma {:induction false} ChosenKeys<R, K, V>(items: seq<R>, f: R -> Option<(K, V)>, k: K)
    ensures k in Keys(Chosen(items, f))
            <==> exists i | 0 <= i < |items| :: f(items[i]).Some? && f(items[i]).value.0 == k
    decreases |items|
  {
    if |items| > 0 {
      var init := items[..|items| - 1];
      var n := |items| - 1;
      var last := f(items[n]);
      var extra := if last.Some? then [last.value] else [];
      ChosenKeys(init, f, k);
      assert Keys(Chosen(items, f)) == Keys(Chosen(init, f)) + Keys(extra);
      if exists i | 0 <= i < |items| :: f(items[i]).Some? && f(items[i]).value.0 == k {
        var i :| 0 <= i < |items| && f(items[i]).Some? && f(items[i]).value.0 == k;
        if i < n {
          assert init[i] == items[i];
        } else {
          assert Keys(extra)[0] == k;
        }
      }
      if k in Keys(Chosen(init, f)) {
        var i :| 0 <= i < |init| && f(init[i]).Some? && f(init[i]).value.0 == k;
        assert items[i] == init[i];
      }
    }
  }

  /** A key is in the gathered dict exactly when some item picks it. */
  lemma GatherKeys<R, K, V>(items: seq<R>, f: R -> Option<(K, V)>, k: K)
    ensures HasKey(Gather(items, f), k)
            <==> exists i | 0 <= i < |items| :: f(items[i]).Some? && f(items[i]).value.0 == k
  {
    GatherIsFromPairs(items, f);
    FromPairsKeys(Chosen(items, f));
    ChosenKeys(items, f, k);
  }

  /** The gathered dict never holds a key twice. */
  lemma GatherValid<R, K, V>(items: seq<R>, f: R -> Option<(K, V)>)
    ensures Valid(Gather(items, f))
  {
    GatherIsFromPairs(items, f);
    FromPairsValid(Chosen(items, f));
  }

  /** One step of the loop: the last item's assignment, if any, on top of
      the dict of the items before it. */
  lemma GatherStep<R, K, V>(items: seq<R>, f: R -> Option<(K, V)>)
    requires |items| > 0
    ensures var n := |items| - 1;
            f(items[n]).None? ==> Gather(items, f) == Gather(items[..n], f)
    ensures var n := |items| - 1;
            f(items[n]).Some? ==> Gather(items, f) == Put(Gather(items[..n], f), f(items[n]).value.0, f(items[n]).value.1)
  {
  }

  /** Assigning one key leaves every other key's value alone. */
  lemma PutOther<K, V>(d: Dict<K, V>, k: K, v: V, k': K)
    requires k' != k
    ensures Get(Put(d, k, v), k') == Get(d, k')
  {
    PutGet(d, k, v);
  }

  /** An item that picks nothing, or picks another key, leaves `k` alone. */
  lemma GatherOther<R, K, V>(items: seq<R>, f: R -> Option<(K, V)>, k: K)
    requires |items| > 0
    requires var e := f(items[|items| - 1]); e.None? || e.value.0 != k
    ensures Get(Gather(items, f), k) == Get(Gather(items[..|items| - 1], f), k)
  {
    var n := |items| - 1;
    GatherStep(items, f);
    if f(items[n]).Some? {
      PutOther(Gather(items[..n], f), f(items[n]).value.0, f(items[n]).value.1, k);
    }
  }

  /** The last item's pick is what its key reads. */
  lemma GatherFinal<R, K, V>(items: seq<R>, f: R -> Option<(K, V)>)
    requires |items| > 0 && f(items[|items| - 1]).Some?
    ensures var e := f(items[|items| - 1]).value;
            Get(Gather(items, f), e.0) == Some(e.1)
  {
    var n := |items| - 1;
    GatherStep(items, f);
    PutGet(Gather(items[..n], f), f(items[n]).value.0, f(items[n]).value.1);
  }

  /** A key reads the value picked by the LAST item that picks it. */
  lemma {:induction false} GatherLast<R, K, V>(items: seq<R>, f: R -> Option<(K, V)>, i: nat)
    requires i < |items| && f(items[i]).Some?
    requires forall j | i < j < |items| :: f(items[j]).None? || f(items[j]).value.0 != f(items[i]).value.0
    ensures Get(Gather(items, f), f(items[i]).value.0) == Some(f(items[i]).value.1)
    decreases |items|
  {
    var n := |items| - 1;
    var init := items[..n];
    var k := f(items[i]).value.0;
    if i < n {
      assert init[i] == items[i];
      forall j | i < j < |init| ensures f(init[j]).None? || f(init[j]).value.0 != k {
        assert init[j] == items[j];
      }
      GatherLast(init, f, i);
      GatherOther(items, f, k);
    } else {
      GatherFinal(items, f);
    }
  }

  /** Every value in the gathered dict was picked by some item. */
  lemma {:induction false} GatherValues<R, K, V>(items: seq<R>, f: R -> Option<(K, V)>, p: (K, V))
    requires p in Gather(items, f)
    ensures exists i | 0 <= i < |items| :: f(items[i]) == Some(p)
    decreases |items|
  {
    var init := items[..|items| - 1];
    var d := Gather(init, f);
    var n := |items| - 1;
    match f(items[n])
    case None =>
      GatherValues(init, f, p);
      var i :| 0 <= i < |init| && f(init[i]) == Some(p);
      assert items[i] == init[i];
    case Some((k, v)) =>
      PutPairs(d, k, v);
      if p != (k, v) {
        GatherValues(init, f, p);
        var i :| 0 <= i < |init| && f(init[i]) == Some(p);
        assert items[i] == init[i];
      }
  }
}
