/** Order-preserving sequence operations behind every row mask, dedup and
    report of the pipeline: boolean-mask selection, keep-last deduplication,
    occurrence counting and the "last row with this key" that a dict built
    row by row ends up holding. */
module Seqs {

  /** Boolean-mask selection `df[mask]`: the elements satisfying `p`, in their original order. */
  function Filter<T(!new)>(s: seq<T>, p: T -> bool): (r: seq<T>)
    ensures |r| <= |s|
    ensures forall x :: x in r <==> x in s && p(x)
    ensures multiset(r) <= multiset(s)
  {
    if s == [] then []
    else
      assert s == [s[0]] + s[1..];
      (if p(s[0]) then [s[0]] else []) + Filter(s[1..], p)
  }

  /** Applies `f` to every element, keeping the order (a column assigned row by row). */
  function Map<T, U>(s: seq<T>, f: T -> U): (r: seq<U>)
    ensures |r| == |s|
    ensures forall i :: 0 <= i < |s| ==> r[i] == f(s[i])
  {
    seq(|s|, i requires 0 <= i < |s| => f(s[i]))
  }

  lemma {:induction false} FilterConcat<T(!new)>(a: seq<T>, b: seq<T>, p: T -> bool)
    ensures Filter(a + b, p) == Filter(a, p) + Filter(b, p)
  {
    if a == [] {
      assert a + b == b;
    } else {
      assert (a + b)[1..] == a[1..] + b;
      FilterConcat(a[1..], b, p);
    }
  }

  /** Selecting with a mask every element passes keeps the whole sequence. */
  lemma {:induction false} FilterAll<T(!new)>(s: seq<T>, p: T -> bool)
    requires forall x :: x in s ==> p(x)
    ensures Filter(s, p) == s
  {
    if s != [] {
      FilterAll(s[1..], p);
    }
  }

  /** Selecting with a mask no element passes yields nothing. */
  lemma {:induction false} FilterNone<T(!new)>(s: seq<T>, p: T -> bool)
    requires forall x :: x in s ==> !p(x)
    ensures Filter(s, p) == []
  {
    if s != [] {
      FilterNone(s[1..], p);
    }
  }

  /** Two masks that agree on every element select the same elements. */
  lemma {:induction false} FilterSame<T(!new)>(s: seq<T>, p: T -> bool, q: T -> bool)
    requires forall x :: x in s ==> p(x) == q(x)
    ensures Filter(s, p) == Filter(s, q)
  {
    if s != [] {
      FilterSame(s[1..], p, q);
    }
  }

  /** Mask `pq` selects exactly what `p` or `q` selects, never both: the selections
      by `p` and by `q` together account for the selection by `pq`, element for element. */
  lemma FilterDisjointUnion<T(!new)>(s: seq<T>, p: T -> bool, q: T -> bool, pq: T -> bool)
    requires forall x :: x in s ==> pq(x) == (p(x) || q(x))
    requires forall x :: x in s ==> !(p(x) && q(x))
    ensures multiset(Filter(s, pq)) == multiset(Filter(s, p)) + multiset(Filter(s, q))
    ensures |Filter(s, pq)| == |Filter(s, p)| + |Filter(s, q)|
  {
    assert forall i :: 0 <= i < |s| ==> s[i] in s;
    FilterDisjointBag(s, p, q, pq);
    assert |Filter(s, pq)| == |multiset(Filter(s, pq))|;
  }

  lemma {:induction false} FilterDisjointBag<T(!new)>(s: seq<T>, p: T -> bool, q: T -> bool, pq: T -> bool)
    requires forall i :: 0 <= i < |s| ==> pq(s[i]) == (p(s[i]) || q(s[i])) && !(p(s[i]) && q(s[i]))
    ensures multiset(Filter(s, pq)) == multiset(Filter(s, p)) + multiset(Filter(s, q))
  {
    if s != [] {
      var t := s[1..];
      assert forall i :: 0 <= i < |t| ==> t[i] == s[i + 1];
      FilterDisjointBag(t, p, q, pq);
    }
  }

  /** A mask and its negation split a sequence into two parts that together hold
      every element exactly as often as the sequence does. */
  lemma FilterSplit<T(!new)>(s: seq<T>, p: T -> bool, notP: T -> bool)
    requires forall x :: x in s ==> notP(x) == !p(x)
    ensures multiset(Filter(s, p)) + multiset(Filter(s, notP)) == multiset(s)
    ensures |Filter(s, p)| + |Filter(s, notP)| == |s|
  {
    var all := (x: T) => true;
    FilterDisjointUnion(s, p, notP, all);
    FilterAll(s, all);
  }

  /** Concatenation of `f(x)` over the elements of `s`, in order. */
  function FlatMap<T(!new), U(!new)>(s: seq<T>, f: T -> seq<U>): (r: seq<U>)
    ensures forall y :: y in r <==> exists x :: x in s && y in f(x)
  {
    if s == [] then [] else f(s[0]) + FlatMap(s[1..], f)
  }

  lemma {:induction false} FilterFlatMap<T(!new), U(!new)>(s: seq<T>, f: T -> seq<U>, p: U -> bool, g: T -> seq<U>)
    requires forall x :: x in s ==> g(x) == Filter(f(x), p)
    ensures Filter(FlatMap(s, f), p) == FlatMap(s, g)
  {
    if s != [] {
      FilterConcat(f(s[0]), FlatMap(s[1..], f), p);
      FilterFlatMap(s[1..], f, p, g);
    }
  }

  lemma MapConcat<T, U>(a: seq<T>, b: seq<T>, h: T -> U)
    ensures Map(a + b, h) == Map(a, h) + Map(b, h)
  {
    assert forall i :: 0 <= i < |a + b| ==> Map(a + b, h)[i] == (Map(a, h) + Map(b, h))[i];
  }

  /** Expanding each element into itself-or-nothing is selecting and mapping. */
  lemma {:induction false} FlatMapSingletons<T(!new), U(!new)>(s: seq<T>, f: T -> seq<U>, q: T -> bool, h: T -> U)
    requires forall x :: x in s ==> f(x) == if q(x) then [h(x)] else []
    ensures FlatMap(s, f) == Map(Filter(s, q), h)
  {
    if s != [] {
      FlatMapSingletons(s[1..], f, q, h);
      var head := if q(s[0]) then [s[0]] else [];
      assert Filter(s, q) == head + Filter(s[1..], q);
      MapConcat(head, Filter(s[1..], q), h);
      assert f(s[0]) == Map(head, h);
    }
  }

  /** Expanding each element into one element when `q` holds and none
      otherwise yields as many elements as `q` selects. */
  lemma {:induction false} FlatMapCount<T(!new), U(!new)>(s: seq<T>, f: T -> seq<U>, q: T -> bool)
    requires forall x :: x in s ==> |f(x)| == if q(x) then 1 else 0
    ensures |FlatMap(s, f)| == |Filter(s, q)|
  {
    if s != [] {
      FlatMapCount(s[1..], f, q);
    }
  }

  /** How many elements of `s` have key `k`. */
  function Occurrences<T(!new), K(==)>(s: seq<T>, key: T -> K, k: K): (n: nat)
    ensures n <= |s|
    ensures n == 0 <==> forall x :: x in s ==> key(x) != k
  {
    if s == [] then 0 else (if key(s[0]) == k then 1 else 0) + Occurrences(s[1..], key, k)
  }

  /** Counting over two sequences in a row adds up the two counts. */
  lemma {:induction false} OccurrencesAppend<T(!new), K>(s: seq<T>, t: seq<T>, key: T -> K, k: K)
    ensures Occurrences(s + t, key, k) == Occurrences(s, key, k) + Occurrences(t, key, k)
  {
    if s != [] {
      assert (s + t)[1..] == s[1..] + t;
      OccurrencesAppend(s[1..], t, key, k);
    } else {
      assert s + t == t;
    }
  }

  /** Some element after position 0 shares the key of the first. */
  predicate KeyRecursLater<T(!new), K(==)>(s: seq<T>, key: T -> K)
    requires s != []
  {
    exists j :: 1 <= j < |s| && key(s[j]) == key(s[0])
  }

  /** `drop_duplicates(subset=key, keep="last")`: of the elements sharing a key
      only the last one stays; the survivors keep their relative order. */
  function KeepLast<T(!new), K(==)>(s: seq<T>, key: T -> K): (r: seq<T>)
    ensures multiset(r) <= multiset(s)
    ensures forall y :: y in r ==> y in s
  {
    if s == [] then []
    else
      assert s == [s[0]] + s[1..];
      if KeyRecursLater(s, key) then KeepLast(s[1..], key) else [s[0]] + KeepLast(s[1..], key)
  }

  /** After keep-last deduplication no key occurs twice. */
  lemma {:induction false} KeepLastUnique<T(!new), K>(s: seq<T>, key: T -> K)
    ensures forall i, j :: 0 <= i < j < |KeepLast(s, key)| ==> key(KeepLast(s, key)[i]) != key(KeepLast(s, key)[j])
  {
    if s != [] {
      KeepLastUnique(s[1..], key);
      if !KeyRecursLater(s, key) {
        var tail := KeepLast(s[1..], key);
        var r := [s[0]] + tail;
        forall i, j | 0 <= i < j < |r| ensures key(r[i]) != key(r[j]) {
          if i == 0 {
            assert r[j] == tail[j - 1];
            assert tail[j - 1] in tail;
            assert r[j] in s[1..];
            var m :| 0 <= m < |s[1..]| && s[1..][m] == r[j];
            assert s[m + 1] == r[j];
            assert key(s[m + 1]) != key(s[0]);
            assert r[0] == s[0];
          } else {
            assert r[i] == tail[i - 1] && r[j] == tail[j - 1];
            assert 0 <= i - 1 < j - 1 < |tail|;
            assert key(tail[i - 1]) != key(tail[j - 1]);
          }
        }
        assert KeepLast(s, key) == r;
      }
    }
  }

  /** Keep-last deduplication loses no key: every key of the input has a survivor. */
  lemma {:induction false} KeepLastCovers<T(!new), K>(s: seq<T>, key: T -> K)
    ensures forall x :: x in s ==> exists y :: y in KeepLast(s, key) && key(y) == key(x)
  {
    forall x | x in s ensures exists y :: y in KeepLast(s, key) && key(y) == key(x) {
      KeepLastCoversOne(s, key, x);
    }
  }

  lemma {:induction false} KeepLastCoversOne<T(!new), K>(s: seq<T>, key: T -> K, x: T)
    requires x in s
    ensures exists y :: y in KeepLast(s, key) && key(y) == key(x)
    decreases |s|
  {
    assert s == [s[0]] + s[1..];
    var tail := KeepLast(s[1..], key);
    if KeyRecursLater(s, key) {
      assert KeepLast(s, key) == tail;
      if x == s[0] {
        var j :| 1 <= j < |s| && key(s[j]) == key(s[0]);
        assert s[j] == s[1..][j - 1];
        KeepLastCoversOne(s[1..], key, s[j]);
      } else {
        KeepLastCoversOne(s[1..], key, x);
      }
    } else {
      assert KeepLast(s, key) == [s[0]] + tail;
      if x == s[0] {
        assert s[0] in KeepLast(s, key);
      } else {
        KeepLastCoversOne(s[1..], key, x);
        var y :| y in tail && key(y) == key(x);
        assert y in KeepLast(s, key);
      }
    }
  }

  /** The survivor for each key is the last element of the input with that key. */
  lemma {:induction false} KeepLastPicksLast<T(!new), K>(s: seq<T>, key: T -> K)
    ensures forall y :: y in KeepLast(s, key) ==> y == LastWith(s, key, key(y))
  {
    if s != [] {
      KeepLastPicksLast(s[1..], key);
      var tail := KeepLast(s[1..], key);
      forall y | y in KeepLast(s, key) ensures y == LastWith(s, key, key(y)) {
        if y in tail {
          assert y in s[1..];
        } else {
          assert y == s[0] && !KeyRecursLater(s, key);
        }
      }
    }
  }

  /** The last element of `s` with key `k`: the value a dict keyed by `k`
      holds after being assigned from `s` element by element. */
  ghost function LastWith<T(!new), K>(s: seq<T>, key: T -> K, k: K): (x: T)
    requires exists y :: y in s && key(y) == k
    ensures x in s && key(x) == k
  {
    if exists y :: y in s[1..] && key(y) == k then LastWith(s[1..], key, k) else s[0]
  }

  /** Two sequences of equal length whose elements agree position by position
      on the mask and on the extracted value give the same selection. */
  lemma {:induction false} FilterMapAligned<T(!new), U(!new), V>(a: seq<T>, b: seq<U>, p: T -> bool, q: U -> bool, f: T -> V, g: U -> V)
    requires |a| == |b|
    requires forall i :: 0 <= i < |a| ==> p(a[i]) == q(b[i]) && f(a[i]) == g(b[i])
    ensures Map(Filter(a, p), f) == Map(Filter(b, q), g)
  {
    if a != [] {
      FilterMapAligned(a[1..], b[1..], p, q, f, g);
      var ha := if p(a[0]) then [a[0]] else [];
      var hb := if q(b[0]) then [b[0]] else [];
      MapConcat(ha, Filter(a[1..], p), f);
      MapConcat(hb, Filter(b[1..], q), g);
      assert Map(ha, f) == Map(hb, g);
    }
  }

  /** `{key(x): val(x) for x in s}`: a dict filled element by element, so a
      later element overwrites the value of an earlier one with its key. */
  function Dict<T, K, V>(s: seq<T>, key: T -> K, val: T -> V): map<K, V>
  {
    if s == [] then map[]
    else map[key(s[0]) := val(s[0])] + Dict(s[1..], key, val)
  }

  /** The dict's keys are exactly the keys of the elements. */
  lemma {:induction false} DictKeys<T(!new), K(!new), V>(s: seq<T>, key: T -> K, val: T -> V)
    ensures forall k :: k in Dict(s, key, val) <==> exists x :: x in s && key(x) == k
  {
    if s != [] {
      DictKeys(s[1..], key, val);
      assert s == [s[0]] + s[1..];
      forall k ensures k in Dict(s, key, val) <==> exists x :: x in s && key(x) == k {
        var m := map[key(s[0]) := val(s[0])];
        assert Dict(s, key, val) == m + Dict(s[1..], key, val);
        if k != key(s[0]) && k in Dict(s, key, val) {
          assert k in Dict(s[1..], key, val);
          var x :| x in s[1..] && key(x) == k;
          assert x in s;
        }
        if k != key(s[0]) && exists x :: x in s && key(x) == k {
          var x :| x in s && key(x) == k;
          assert x in s[1..];
        }
      }
    }
  }

  /** The value a dict holds for a key is the value of the last element with that key. */
  lemma {:induction false} DictLast<T(!new), K(!new), V>(s: seq<T>, key: T -> K, val: T -> V, k: K)
    requires exists x :: x in s && key(x) == k
    ensures k in Dict(s, key, val) && Dict(s, key, val)[k] == val(LastWith(s, key, k))
  {
    DictKeys(s, key, val);
    DictKeys(s[1..], key, val);
    assert Dict(s, key, val) == map[key(s[0]) := val(s[0])] + Dict(s[1..], key, val);
    if exists y :: y in s[1..] && key(y) == k {
      DictLast(s[1..], key, val, k);
    } else {
      assert s == [s[0]] + s[1..];
    }
  }

  /** Two elements of `s` carry the key `k`. */
  predicate TwoWith<T(!new), K(==)>(s: seq<T>, key: T -> K, k: K)
  {
    exists i, j :: 0 <= i < j < |s| && key(s[i]) == k && key(s[j]) == k
  }

  /** Counting at least two occurrences is finding two positions. */
  lemma {:induction false} OccurrencesTwo<T(!new), K>(s: seq<T>, key: T -> K, k: K)
    ensures Occurrences(s, key, k) >= 2 <==> TwoWith(s, key, k)
  {
    if s != [] {
      OccurrencesTwo(s[1..], key, k);
      if TwoWith(s[1..], key, k) {
        var i, j :| 0 <= i < j < |s[1..]| && key(s[1..][i]) == k && key(s[1..][j]) == k;
        assert key(s[i + 1]) == k && key(s[j + 1]) == k;
      }
      if TwoWith(s, key, k) {
        var i, j :| 0 <= i < j < |s| && key(s[i]) == k && key(s[j]) == k;
        if i > 0 {
          assert key(s[1..][i - 1]) == k && key(s[1..][j - 1]) == k;
        } else {
          assert key(s[0]) == k;
          assert s[1..][j - 1] in s[1..];
        }
      }
    }
  }
}
