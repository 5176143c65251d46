/** Generic sequence vocabulary used by every table query and form update:
    order-preserving selection, first match, and key-based removal. */
module Seqs {

  /** The usual Some/None wrapper; `None` stands for JavaScript's `null`/`undefined`. */
  datatype Option<+T> = None | Some(value: T) {
    /** The wrapped value, or `default` when there is none. */
    function GetOr(default: T): T {
      if Some? then value else default
    }
  }

  /** `a` is obtained from `b` by deleting elements: it keeps their relative order. */
  predicate IsSubseq<T(==)>(a: seq<T>, b: seq<T>)
    decreases |b|
  {
    if |a| == 0 then true
    else if |b| == 0 then false
    else if a[0] == b[0] then IsSubseq(a[1..], b[1..])
    else IsSubseq(a, b[1..])
  }

  /** `r` is exactly the elements of `s` satisfying `p`, each as often as in `s`,
      in the order of `s`. */
  ghost predicate Selects<T(!new)>(r: seq<T>, s: seq<T>, p: T -> bool) {
    && IsSubseq(r, s)
    && (forall x :: x in r <==> x in s && p(x))
    && (forall x | p(x) :: multiset(r)[x] == multiset(s)[x])
  }

  /** `r` is `s` with `x` pushed at the end: same prefix, one more element. */
  predicate AppendsLast<T(==)>(r: seq<T>, s: seq<T>, x: T) {
    |r| == |s| + 1 && r[..|s|] == s && r[|s|] == x
  }

  /** Array.prototype.map. */
  function Map<A, B>(f: A -> B, s: seq<A>): (r: seq<B>)
    ensures |r| == |s| && forall i :: 0 <= i < |r| ==> r[i] == f(s[i])
    decreases |s|
  {
    if |s| == 0 then [] else [f(s[0])] + Map(f, s[1..])
  }

  /** Array.prototype.filter. */
  function Filter<T(!new)>(p: T -> bool, s: seq<T>): (r: seq<T>)
    ensures |r| <= |s|
    ensures forall x :: x in r <==> x in s && p(x)
  {
    if |s| == 0 then []
    else
      var rest := Filter(p, s[1..]);
      assert s == [s[0]] + s[1..];
      if p(s[0]) then [s[0]] + rest else rest
  }

  /** `Filter` meets the declarative characterisation `Selects`. */
  lemma {:induction false} FilterSelects<T(!new)>(p: T -> bool, s: seq<T>)
    ensures Selects(Filter(p, s), s, p)
    decreases |s|
  {
    if |s| > 0 {
      FilterSelects(p, s[1..]);
      var rest := Filter(p, s[1..]);
      assert s == [s[0]] + s[1..];
      if !p(s[0]) && rest != [] {
        assert rest[0] in rest;
      }
    }
  }

  /** Index of the first element satisfying `p` (the `.first()` of a filtered query). */
  function FirstIndex<T>(p: T -> bool, s: seq<T>): (r: Option<nat>)
    ensures r.Some? ==> r.value < |s| && p(s[r.value])
    ensures r.Some? ==> forall j :: 0 <= j < r.value ==> !p(s[j])
    ensures r.None? <==> forall j :: 0 <= j < |s| ==> !p(s[j])
  {
    if |s| == 0 then None
    else if p(s[0]) then Some(0)
    else
      match FirstIndex(p, s[1..])
      case None => None
      case Some(i) => Some(i + 1)
  }

  /** Elements of `s` whose key is not in `ks`. */
  function Without<T(!new), K>(s: seq<T>, key: T -> K, ks: set<K>): (r: seq<T>)
    ensures Selects(r, s, x => key(x) !in ks)
  {
    FilterSelects(x => key(x) !in ks, s);
    Filter(x => key(x) !in ks, s)
  }

  /** `s` with the element at position `i` removed; other positions keep their order. */
  function RemoveAt<T>(s: seq<T>, i: nat): (r: seq<T>)
    requires i < |s|
    ensures |r| == |s| - 1
    ensures forall j :: 0 <= j < i ==> r[j] == s[j]
    ensures forall j :: i <= j < |r| ==> r[j] == s[j + 1]
  {
    s[..i] + s[i + 1..]
  }

  /** A subsequence never holds more copies of a value than the sequence it came from. */
  lemma {:induction false} SubseqMultiset<T>(a: seq<T>, b: seq<T>)
    requires IsSubseq(a, b)
    ensures multiset(a) <= multiset(b)
    decreases |b|
  {
    if |a| == 0 {
    } else {
      assert |b| > 0;
      assert b == [b[0]] + b[1..];
      if a[0] == b[0] {
        SubseqMultiset(a[1..], b[1..]);
        assert a == [a[0]] + a[1..];
      } else {
        SubseqMultiset(a, b[1..]);
      }
    }
  }

  /** `Selects` determines its result: the declarative characterisation and `Filter`
      describe the same sequence. */
  lemma {:induction false} SelectsIsFilter<T(!new)>(r: seq<T>, s: seq<T>, p: T -> bool)
    requires Selects(r, s, p)
    ensures r == Filter(p, s)
    decreases |s|
  {
    if |s| == 0 {
    } else {
      var x, t := s[0], s[1..];
      assert s == [x] + t;
      if |r| > 0 && r[0] == x {
        var r' := r[1..];
        assert r == [x] + r';
        assert IsSubseq(r', t);
        SubseqMultiset(r', t);
        assert p(x) by { assert r[0] in r; }
        forall y | p(y)
          ensures multiset(r')[y] == multiset(t)[y]
        {
          assert multiset(r)[y] == multiset(s)[y];
        }
        forall y
          ensures y in r' <==> y in t && p(y)
        {
          if y in r' {
            assert y in r;
            assert multiset(r')[y] > 0;
          }
          if y in t && p(y) {
            assert multiset(t)[y] > 0;
            assert multiset(r')[y] > 0;
          }
        }
        SelectsIsFilter(r', t, p);
      } else {
        // r cannot start with x, so r is drawn from t alone.
        assert IsSubseq(r, t) by {
          if |r| > 0 {
            assert r[0] != s[0];
          }
        }
        SubseqMultiset(r, t);
        assert !p(x);
        forall y | p(y)
          ensures multiset(r)[y] == multiset(t)[y]
        {
          assert y != x;
        }
        forall y
          ensures y in r <==> y in t && p(y)
        {
          if y in r {
            assert multiset(r)[y] > 0;
          }
        }
        SelectsIsFilter(r, t, p);
      }
    }
  }

  /** Filtering distributes over concatenation. */
  lemma {:induction false} FilterAppend<T(!new)>(p: T -> bool, a: seq<T>, b: seq<T>)
    ensures Filter(p, a + b) == Filter(p, a) + Filter(p, b)
    decreases |a|
  {
    if |a| == 0 {
      assert a + b == b;
    } else {
      assert (a + b)[1..] == a[1..] + b;
      FilterAppend(p, a[1..], b);
    }
  }

  /** A filter that rejects nothing returns its input. */
  lemma {:induction false} FilterKeepsAll<T(!new)>(p: T -> bool, s: seq<T>)
    requires forall j :: 0 <= j < |s| ==> p(s[j])
    ensures Filter(p, s) == s
    decreases |s|
  {
    if |s| > 0 {
      FilterKeepsAll(p, s[1..]);
    }
  }

  /** Two predicates that agree on the elements of `s` filter it alike. */
  lemma {:induction false} FilterCongruent<T(!new)>(p: T -> bool, q: T -> bool, s: seq<T>)
    requires forall j :: 0 <= j < |s| ==> p(s[j]) == q(s[j])
    ensures Filter(p, s) == Filter(q, s)
    decreases |s|
  {
    if |s| > 0 {
      FilterCongruent(p, q, s[1..]);
    }
  }

  /** Removing key set `a` and then key set `b` is removing `a + b` at once. */
  lemma WithoutWithout<T(!new), K>(s: seq<T>, key: T -> K, a: set<K>, b: set<K>)
    ensures Without(Without(s, key, a), key, b) == Without(s, key, a + b)
  {
    var pa := x => key(x) !in a;
    var pb := x => key(x) !in b;
    var pab := x => key(x) !in a + b;
    var mid := Without(s, key, a);
    SelectsIsFilter(mid, s, pa);
    SelectsIsFilter(Without(mid, key, b), mid, pb);
    SelectsIsFilter(Without(s, key, a + b), s, pab);
    FilterCompose(pa, pb, pab, s);
  }

  /** Filtering by `p` and then by `q` is filtering by their conjunction `pq`. */
  lemma {:induction false} FilterCompose<T(!new)>(p: T -> bool, q: T -> bool, pq: T -> bool, s: seq<T>)
    requires forall j :: 0 <= j < |s| ==> (pq(s[j]) <==> p(s[j]) && q(s[j]))
    ensures Filter(q, Filter(p, s)) == Filter(pq, s)
    decreases |s|
  {
    if |s| > 0 {
      FilterCompose(p, q, pq, s[1..]);
      var rest := Filter(p, s[1..]);
      if p(s[0]) {
        assert ([s[0]] + rest)[1..] == rest;
      }
    }
  }

  /** Subsequence is transitive. */
  lemma {:induction false} SubseqTransitive<T>(a: seq<T>, b: seq<T>, c: seq<T>)
    requires IsSubseq(a, b) && IsSubseq(b, c)
    ensures IsSubseq(a, c)
    decreases |c|
  {
    if |a| == 0 {
    } else {
      assert |b| > 0 && |c| > 0;
      if b[0] == c[0] {
        if a[0] == b[0] {
          SubseqTransitive(a[1..], b[1..], c[1..]);
        } else {
          SubseqTransitive(a, b[1..], c[1..]);
        }
      } else {
        SubseqTransitive(a, b, c[1..]);
        assert a[0] != c[0] ==> IsSubseq(a, c[1..]);
        if a[0] == c[0] {
          SubseqTail(a, c[1..]);
        }
      }
    }
  }

  /** Dropping the head of a nonempty subsequence keeps it a subsequence. */
  lemma {:induction false} SubseqTail<T>(a: seq<T>, c: seq<T>)
    requires |a| > 0 && IsSubseq(a, c)
    ensures IsSubseq(a[1..], c)
    decreases |c|, 1
  {
    assert |c| > 0;
    if a[0] == c[0] {
      SubseqWeaken(a[1..], c[1..], c[0]);
    } else {
      SubseqTail(a, c[1..]);
      SubseqWeaken(a[1..], c[1..], c[0]);
    }
  }

  /** A subsequence of `c` is a subsequence of `[x] + c`. */
  lemma {:induction false} SubseqWeaken<T>(a: seq<T>, c: seq<T>, x: T)
    requires IsSubseq(a, c)
    ensures IsSubseq(a, [x] + c)
    decreases |c| + 1, 0
  {
    var xc := [x] + c;
    assert xc[1..] == c;
    if |a| > 0 && a[0] == x {
      SubseqTail(a, c);
    }
  }

  /** A filter that rejects exactly position `i` removes exactly that position. */
  lemma {:induction false} FilterDropsOne<T(!new)>(p: T -> bool, t: seq<T>, i: nat)
    requires i < |t| && !p(t[i])
    requires forall j :: 0 <= j < |t| && j != i ==> p(t[j])
    ensures Filter(p, t) == RemoveAt(t, i)
    decreases |t|
  {
    var tail := t[1..];
    if i == 0 {
      assert forall j :: 0 <= j < |tail| ==> tail[j] == t[j + 1];
      FilterKeepsAll(p, tail);
      assert RemoveAt(t, 0) == tail;
    } else {
      assert forall j :: 0 <= j < |tail| ==> tail[j] == t[j + 1];
      FilterDropsOne(p, tail, i - 1);
      assert RemoveAt(t, i) == [t[0]] + RemoveAt(tail, i - 1);
    }
  }

  /** A filter that accepts nothing returns nothing. */
  lemma {:induction false} FilterNone<T(!new)>(p: T -> bool, s: seq<T>)
    requires forall j :: 0 <= j < |s| ==> !p(s[j])
    ensures Filter(p, s) == []
    decreases |s|
  {
    if |s| > 0 {
      FilterNone(p, s[1..]);
    }
  }

  /** Filtering a sequence with one position replaced. */
  lemma FilterUpdate<T(!new)>(p: T -> bool, t: seq<T>, i: nat, x: T)
    requires i < |t|
    ensures Filter(p, t[i := x]) == Filter(p, t[..i]) + Filter(p, [x]) + Filter(p, t[i + 1..])
  {
    assert t[i := x] == t[..i] + ([x] + t[i + 1..]);
    FilterAppend(p, t[..i], [x] + t[i + 1..]);
    FilterAppend(p, [x], t[i + 1..]);
  }

  /** Filtering a single element. */
  lemma FilterSingle<T(!new)>(p: T -> bool, x: T)
    ensures Filter(p, [x]) == if p(x) then [x] else []
  {
    assert [x][1..] == [];
  }

  /** Filtering by `p` after keeping only what `q` accepts changes nothing when
      everything `p` accepts in `s` is also accepted by `q`. */
  lemma {:induction false} FilterFilter<T(!new)>(p: T -> bool, q: T -> bool, s: seq<T>)
    requires forall j :: 0 <= j < |s| && p(s[j]) ==> q(s[j])
    ensures Filter(p, Filter(q, s)) == Filter(p, s)
    decreases |s|
  {
    if |s| > 0 {
      FilterFilter(p, q, s[1..]);
      var rest := Filter(q, s[1..]);
      if q(s[0]) {
        assert ([s[0]] + rest)[1..] == rest;
      }
    }
  }

  /** Removing elements by key does not disturb a filter that only ever accepts
      elements whose key is kept. */
  lemma FilterWithout<T(!new), K>(p: T -> bool, s: seq<T>, key: T -> K, ks: set<K>)
    requires forall j :: 0 <= j < |s| && p(s[j]) ==> key(s[j]) !in ks
    ensures Filter(p, Without(s, key, ks)) == Filter(p, s)
  {
    var q := x => key(x) !in ks;
    SelectsIsFilter(Without(s, key, ks), s, q);
    FilterFilter(p, q, s);
  }

  /** Removing elements by key empties a filter that only accepts elements whose
      key is removed. */
  lemma FilterWithoutAll<T(!new), K>(p: T -> bool, s: seq<T>, key: T -> K, ks: set<K>)
    requires forall j :: 0 <= j < |s| && p(s[j]) ==> key(s[j]) in ks
    ensures Filter(p, Without(s, key, ks)) == []
  {
    var w := Without(s, key, ks);
    forall j | 0 <= j < |w|
      ensures !p(w[j])
    {
      assert w[j] in w;
      var m :| 0 <= m < |s| && s[m] == w[j];
    }
    FilterNone(p, w);
  }

  /** When `p` accepts exactly what one of the exclusive `q` and `r` accepts,
      filtering by `p` yields as many elements as filtering by `q` and by `r`
      together. */
  lemma {:induction false} FilterSplitCount<T(!new)>(p: T -> bool, q: T -> bool, r: T -> bool, s: seq<T>)
    requires forall j :: 0 <= j < |s| ==> (p(s[j]) <==> q(s[j]) || r(s[j]))
    requires forall j :: 0 <= j < |s| ==> !(q(s[j]) && r(s[j]))
    ensures |Filter(p, s)| == |Filter(q, s)| + |Filter(r, s)|
    decreases |s|
  {
    if |s| > 0 {
      FilterSplitCount(p, q, r, s[1..]);
    }
  }
}
