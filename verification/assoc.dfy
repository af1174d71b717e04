/** Ordered association lists: the model of a JavaScript object with string
    keys. Iteration order is insertion order; assigning to an existing key
    keeps its position, and `delete` removes the key so that a later
    assignment appends it at the end. */
module Assoc {
  import opened Wrappers

  type Assoc<V> = seq<(string, V)>

  /** `Object.keys(m)`, in iteration order. */
  function Keys<V>(m: Assoc<V>): (ks: seq<string>)
    ensures |ks| == |m|
    ensures forall i :: 0 <= i < |m| ==> ks[i] == m[i].0
  {
    if m == [] then [] else [m[0].0] + Keys(m[1..])
  }

  /** No key occurs twice, as in every JavaScript object. */
  predicate DistinctKeys<V>(m: Assoc<V>) {
    m == [] || (m[0].0 !in Keys(m[1..]) && DistinctKeys(m[1..]))
  }

  /** Property lookup `m[k]`, `None` standing for `undefined`. */
  function Get<V>(m: Assoc<V>, k: string): (r: Option<V>)
    ensures r.Some? <==> k in Keys(m)
  {
    if m == [] then None
    else if m[0].0 == k then Some(m[0].1)
    else Get(m[1..], k)
  }

  /** Property assignment `m[k] = v`. */
  function Put<V>(m: Assoc<V>, k: string, v: V): (r: Assoc<V>)
    ensures k in Keys(m) ==> Keys(r) == Keys(m)
    ensures k !in Keys(m) ==> r == m + [(k, v)]
    ensures Get(r, k) == Some(v)
    ensures forall k' :: k' != k ==> Get(r, k') == Get(m, k')
  {
    if m == [] then [(k, v)]
    else if m[0].0 == k then
      assert Keys(m) == [k] + Keys(m[1..]);
      [(k, v)] + m[1..]
    else
      var rest := Put(m[1..], k, v);
      PutBehindKeys(m, k, v, rest);
      PutBehindGet(m, k, v, rest);
      [m[0]] + rest
  }

  /** The keys `Put` promises carry over from the tail of `m` to `m` when
      the first key is not the one assigned. */
  lemma PutBehindKeys<V>(m: Assoc<V>, k: string, v: V, rest: Assoc<V>)
    requires m != [] && m[0].0 != k
    requires k in Keys(m[1..]) ==> Keys(rest) == Keys(m[1..])
    requires k !in Keys(m[1..]) ==> rest == m[1..] + [(k, v)]
    ensures k in Keys(m) ==> Keys([m[0]] + rest) == Keys(m)
    ensures k !in Keys(m) ==> [m[0]] + rest == m + [(k, v)]
  {
    Cons(m[0], rest);
    if k !in Keys(m) {
      assert m == [m[0]] + m[1..];
    }
  }

  /** The lookups `Put` promises carry over likewise. */
  lemma PutBehindGet<V>(m: Assoc<V>, k: string, v: V, rest: Assoc<V>)
    requires m != [] && m[0].0 != k
    requires Get(rest, k) == Some(v)
    requires forall k' :: k' != k ==> Get(rest, k') == Get(m[1..], k')
    ensures Get([m[0]] + rest, k) == Some(v)
    ensures forall k' :: k' != k ==> Get([m[0]] + rest, k') == Get(m, k')
  {
    forall k' | k' != k
      ensures Get([m[0]] + rest, k') == Get(m, k')
    {
      ConsGet(m[0], rest, k');
    }
    ConsGet(m[0], rest, k);
  }

  /** Assignment never duplicates a key. */
  lemma {:induction false} PutKeepsDistinct<V>(m: Assoc<V>, k: string, v: V)
    requires DistinctKeys(m)
    ensures DistinctKeys(Put(m, k, v))
  {
    if m != [] {
      var rest := Put(m[1..], k, v);
      if m[0].0 == k {
        Cons((k, v), m[1..]);
      } else {
        PutKeepsDistinct(m[1..], k, v);
        if k !in Keys(m[1..]) {
          KeysSnoc(m[1..], k, v);
        }
        assert m[0].0 !in Keys(rest);
        Cons(m[0], rest);
      }
    }
  }

  /** `r` is `xs` with some elements left out, the rest kept in order. */
  ghost predicate Subsequence(r: seq<string>, xs: seq<string>)
    decreases |xs|
  {
    if r == [] then true
    else if xs == [] then false
    else if r[0] == xs[0] then Subsequence(r[1..], xs[1..])
    else Subsequence(r, xs[1..])
  }

  /** The elements of `xs` not in `ys`, in their order in `xs`, as
      collect.js's `diff` returns them. */
  function Diff(xs: seq<string>, ys: seq<string>): (r: seq<string>)
    ensures forall x :: x in r <==> x in xs && x !in ys
    ensures Subsequence(r, xs)
    ensures |r| <= |xs|
  {
    if xs == [] then []
    else
      var rest := Diff(xs[1..], ys);
      if xs[0] in ys then
        assert rest == [] || rest[0] != xs[0] by { if rest != [] { assert rest[0] in rest; } }
        rest
      else
        assert ([xs[0]] + rest)[1..] == rest;
        [xs[0]] + rest
  }

  /** `Diff` filters element by element: the difference of a concatenation
      is the concatenation of the differences. */
  lemma {:induction false} DiffConcat(xs: seq<string>, zs: seq<string>, ys: seq<string>)
    ensures Diff(xs + zs, ys) == Diff(xs, ys) + Diff(zs, ys)
  {
    if xs == [] {
      assert xs + zs == zs;
    } else {
      assert (xs + zs)[0] == xs[0] && (xs + zs)[1..] == xs[1..] + zs;
      DiffConcat(xs[1..], zs, ys);
    }
  }

  /** One element survives the difference exactly when it is not in `ys`. */
  lemma DiffSingle(x: string, ys: seq<string>)
    ensures Diff([x], ys) == if x in ys then [] else [x]
  {
    assert [x][1..] == [];
  }

  /** `delete m[k]`: the other keys keep their order. */
  function Remove<V>(m: Assoc<V>, k: string): (r: Assoc<V>)
    ensures Keys(r) == Diff(Keys(m), [k])
    ensures k !in Keys(r)
    ensures forall k' :: k' != k ==> Get(r, k') == Get(m, k')
    ensures forall k' :: k' in Keys(r) <==> k' in Keys(m) && k' != k
    ensures k !in Keys(m) ==> r == m
    ensures DistinctKeys(m) ==> DistinctKeys(r)
  {
    if m == [] then []
    else if m[0].0 == k then Remove(m[1..], k)
    else [m[0]] + Remove(m[1..], k)
  }

  /** Assigning to a key that is new to `m` after the last entry of `m`
      overwrites that last entry in place. */
  lemma {:induction false} PutLast<V>(m: Assoc<V>, k: string, p: V, v: V)
    requires k !in Keys(m)
    ensures Put(m + [(k, p)], k, v) == m + [(k, v)]
  {
    if m != [] {
      SplitFirst(m, [(k, p)]);
      SplitFirst(m, [(k, v)]);
      Cons(m[0], m[1..] + [(k, p)]);
      PutLast(m[1..], k, p, v);
    }
  }

  /** Appending to a non-empty sequence appends to its tail. */
  lemma SplitFirst<T>(m: seq<T>, tail: seq<T>)
    requires m != []
    ensures m + tail == [m[0]] + (m[1..] + tail)
  {
    assert m == [m[0]] + m[1..];
  }

  /** The value stored under a key that is new to `m` and appended last. */
  lemma {:induction false} GetLast<V>(m: Assoc<V>, k: string, p: V)
    requires k !in Keys(m)
    ensures Get(m + [(k, p)], k) == Some(p)
  {
    if m != [] {
      assert (m + [(k, p)])[1..] == m[1..] + [(k, p)];
      GetLast(m[1..], k, p);
    }
  }

  /** Appending a new entry appends its key. */
  lemma KeysSnoc<V>(m: Assoc<V>, k: string, v: V)
    ensures Keys(m + [(k, v)]) == Keys(m) + [k]
  {
    assert forall i :: 0 <= i < |m| ==> (m + [(k, v)])[i] == m[i];
  }

  /** An object whose keys are drawn from `names` has at most `|names|`
      entries. */
  lemma {:induction false} DistinctBound<V>(m: Assoc<V>, names: set<string>)
    requires DistinctKeys(m)
    requires forall k :: k in Keys(m) ==> k in names
    ensures |m| <= |names|
  {
    if m != [] {
      var k := m[0].0;
      assert Keys(m) == [k] + Keys(m[1..]);
      DistinctBound(m[1..], names - {k});
    }
  }

  /** Under distinct keys, the entry at a position is the one its key
      looks up. */
  lemma {:induction false} GetAt<V>(m: Assoc<V>, i: int)
    requires DistinctKeys(m) && 0 <= i < |m|
    ensures Get(m, m[i].0) == Some(m[i].1)
  {
    if i > 0 {
      assert m[i] == m[1..][i - 1];
      assert m[i].0 in Keys(m[1..]) by { assert Keys(m[1..])[i - 1] == m[i].0; }
      GetAt(m[1..], i - 1);
    }
  }

  /** Distinctness depends on the keys alone. */
  lemma {:induction false} SameKeysDistinct<V, W>(a: Assoc<V>, b: Assoc<W>)
    requires Keys(a) == Keys(b) && DistinctKeys(a)
    ensures DistinctKeys(b)
  {
    if b != [] {
      assert Keys(a) == [a[0].0] + Keys(a[1..]);
      assert Keys(b) == [b[0].0] + Keys(b[1..]);
      assert Keys(a[1..]) == Keys(a)[1..] && Keys(b[1..]) == Keys(b)[1..];
      SameKeysDistinct(a[1..], b[1..]);
    }
  }

  lemma KeysConcat<V>(a: Assoc<V>, b: Assoc<V>)
    ensures Keys(a + b) == Keys(a) + Keys(b)
  {
    assert forall i :: 0 <= i < |a + b| ==> (a + b)[i] == if i < |a| then a[i] else b[i - |a|];
  }

  /** An entry in front of a map: what its keys, distinctness and lookup
      become. */
  lemma Cons<V>(x: (string, V), m: Assoc<V>)
    ensures ([x] + m)[0] == x && ([x] + m)[1..] == m
    ensures Keys([x] + m) == [x.0] + Keys(m)
    ensures DistinctKeys([x] + m) <==> x.0 !in Keys(m) && DistinctKeys(m)
  {
    assert ([x] + m)[1..] == m;
  }

  /** Lookup in a map with an entry in front. */
  lemma ConsGet<V>(x: (string, V), m: Assoc<V>, k: string)
    ensures Get([x] + m, k) == if x.0 == k then Some(x.1) else Get(m, k)
  {
    assert ([x] + m)[1..] == m;
  }
}
