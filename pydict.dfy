/** Python dictionaries with string keys as association lists, so that insertion order (which
    Python keeps and the pipeline relies on) is part of the value.
    `Assign` is `d[k] = v`, `Update` is `d.update(e)`, `FromPairs` is `dict(pairs)`. */
module PyDict {
  import opened Wrappers

  type Dict<V> = seq<(string, V)>

  function Keys<V>(d: Dict<V>): seq<string> {
    seq(|d|, i requires 0 <= i < |d| => d[i].0)
  }

  function Values<V>(d: Dict<V>): seq<V> {
    seq(|d|, i requires 0 <= i < |d| => d[i].1)
  }

  /** Every Python dict has this: no key twice. */
  predicate DistinctKeys<V>(d: Dict<V>) {
    forall i, j | 0 <= i < j < |d| :: d[i].0 != d[j].0
  }

  predicate Distinct<T(==)>(s: seq<T>) {
    forall i, j | 0 <= i < j < |s| :: s[i] != s[j]
  }

  lemma {:induction false} KeysSnoc<V>(d: Dict<V>, k: string, v: V)
    ensures Keys(d + [(k, v)]) == Keys(d) + [k]
  {
  }

  /** `d.get(k)`: the value stored under `k`, if any. */
  function Get<V>(d: Dict<V>, k: string): (r: Option<V>)
    ensures r.Some? <==> k in Keys(d)
  {
    if d == [] then None
    else if d[0].0 == k then
      assert Keys(d)[0] == k;
      Some(d[0].1)
    else
      assert Keys(d) == [d[0].0] + Keys(d[1..]);
      Get(d[1..], k)
  }

  /** `Get` finds the first entry that holds the key; in a dict that is the
      only one. */
  lemma {:induction false} GetAt<V>(d: Dict<V>, i: nat)
    requires i < |d| && forall j | 0 <= j < i :: d[j].0 != d[i].0
    ensures Get(d, d[i].0) == Some(d[i].1)
  {
    if i > 0 {
      GetAt(d[1..], i - 1);
    }
  }

  /** Appending an entry under a new key leaves the old lookups alone. */
  lemma {:induction false} GetSnoc<V>(d: Dict<V>, k: string, v: V, j: string)
    ensures Get(d + [(k, v)], j) == if j in Keys(d) then Get(d, j) else if j == k then Some(v) else None
  {
    if d != [] {
      assert (d + [(k, v)])[1..] == d[1..] + [(k, v)];
      assert Keys(d) == [d[0].0] + Keys(d[1..]);
      GetSnoc(d[1..], k, v, j);
    }
  }

  /** `d[k] = v`: the value of an existing key is replaced where it stands;
      a new key goes at the end. */
  function Assign<V>(d: Dict<V>, k: string, v: V): (r: Dict<V>) {
    if d == [] then [(k, v)]
    else if d[0].0 == k then [(k, v)] + d[1..]
    else [d[0]] + Assign(d[1..], k, v)
  }

  /** Assignment keeps the key order and appends a new key. */
  lemma {:induction false} AssignKeys<V>(d: Dict<V>, k: string, v: V)
    ensures Keys(Assign(d, k, v)) == if k in Keys(d) then Keys(d) else Keys(d) + [k]
  {
    if d != [] {
      assert d == [d[0]] + d[1..];
      KeysCons(d[0], d[1..]);
      if d[0].0 == k {
        KeysCons((k, v), d[1..]);
      } else {
        AssignKeys(d[1..], k, v);
        KeysCons(d[0], Assign(d[1..], k, v));
      }
    }
  }

  lemma KeysCons<V>(entry: (string, V), d: Dict<V>)
    ensures Keys([entry] + d) == [entry.0] + Keys(d)
  {
  }

  /** After `d[k] = v`, `k` holds `v` and every other key what it held before. */
  lemma {:induction false} AssignGet<V>(d: Dict<V>, k: string, v: V, j: string)
    ensures Get(Assign(d, k, v), j) == if j == k then Some(v) else Get(d, j)
  {
    if d != [] && d[0].0 != k {
      AssignGet(d[1..], k, v, j);
    }
  }

  /** Assignment keeps the keys distinct. */
  lemma {:induction false} AssignDistinct<V>(d: Dict<V>, k: string, v: V)
    ensures DistinctKeys(d) ==> DistinctKeys(Assign(d, k, v))
  {
    var r := Assign(d, k, v);
    AssignKeys(d, k, v);
    assert forall i | 0 <= i < |r| :: r[i].0 == Keys(r)[i];
    assert forall i | 0 <= i < |d| :: d[i].0 == Keys(d)[i];
  }

  /** The position of `k` in `d`, if `d` holds it. */
  function IndexOf<V>(d: Dict<V>, k: string): (r: Option<nat>)
    ensures r.None? <==> k !in Keys(d)
    ensures r.Some? ==> r.value < |d| && d[r.value].0 == k && forall i | 0 <= i < r.value :: d[i].0 != k
  {
    if d == [] then None
    else if d[0].0 == k then
      assert Keys(d)[0] == k;
      Some(0)
    else
      assert Keys(d) == [d[0].0] + Keys(d[1..]);
      match IndexOf(d[1..], k)
      case None => None
      case Some(i) => Some(i + 1)
  }

  /** Assigning under a key held at position `i` replaces the entry there. */
  lemma {:induction false} AssignAt<V>(d: Dict<V>, i: nat, v: V)
    requires i < |d| && forall j | 0 <= j < i :: d[j].0 != d[i].0
    ensures Assign(d, d[i].0, v) == d[i := (d[i].0, v)]
  {
    if i > 0 {
      AssignAt(d[1..], i - 1, v);
      assert d[i := (d[i].0, v)] == [d[0]] + d[1..][i - 1 := (d[i].0, v)];
    }
  }

  /** Assigning under a key the dict does not hold appends the entry. */
  lemma {:induction false} AssignNew<V>(d: Dict<V>, k: string, v: V)
    requires k !in Keys(d)
    ensures Assign(d, k, v) == d + [(k, v)]
  {
    if d != [] {
      assert Keys(d) == [d[0].0] + Keys(d[1..]);
      AssignNew(d[1..], k, v);
      assert d == [d[0]] + d[1..];
    }
  }

  /** `d.update(e)`: `e`'s entries assigned one after the other. */
  function Update<V>(d: Dict<V>, e: Dict<V>): (r: Dict<V>)
    ensures DistinctKeys(d) ==> DistinctKeys(r)
  {
    if e == [] then d
    else
      var u := Update(d, e[..|e| - 1]);
      AssignDistinct(u, e[|e| - 1].0, e[|e| - 1].1);
      Assign(u, e[|e| - 1].0, e[|e| - 1].1)
  }

  /** `dict(pairs)`: later pairs win, a key stays where it first appeared. */
  function FromPairs<V>(ps: seq<(string, V)>): (r: Dict<V>)
    ensures DistinctKeys(r)
  {
    Update([], ps)
  }

  /** `zip(a, b)`: pairs up to the shorter length. */
  function Zip<A, B>(a: seq<A>, b: seq<B>): (r: seq<(A, B)>)
    ensures |r| == if |a| < |b| then |a| else |b|
  {
    seq(if |a| < |b| then |a| else |b|, i requires 0 <= i < |a| && i < |b| => (a[i], b[i]))
  }

  /** The keys of `extra` that are not in `ks`, in the order of `extra`. */
  function NewKeys(ks: seq<string>, extra: seq<string>): seq<string> {
    if extra == [] then []
    else NewKeys(ks, extra[..|extra| - 1]) + (if extra[|extra| - 1] in ks then [] else [extra[|extra| - 1]])
  }

  /** One more key: it is new exactly when `ks` lacks it. */
  lemma {:induction false} NewKeysSnoc(ks: seq<string>, extra: seq<string>, x: string)
    ensures NewKeys(ks, extra + [x]) == NewKeys(ks, extra) + (if x in ks then [] else [x])
  {
    assert (extra + [x])[..|extra|] == extra;
  }

  /** The last entry of a dict holds a key none of the others holds. */
  lemma {:induction false} DistinctKeysLast<V>(d: Dict<V>)
    requires DistinctKeys(d) && d != []
    ensures DistinctKeys(d[..|d| - 1])
    ensures d == d[..|d| - 1] + [d[|d| - 1]]
    ensures Keys(d) == Keys(d[..|d| - 1]) + [d[|d| - 1].0]
    ensures d[|d| - 1].0 !in Keys(d[..|d| - 1])
  {
    var p := d[..|d| - 1];
    forall i | 0 <= i < |p| ensures Keys(p)[i] != d[|d| - 1].0 {
      assert Keys(p)[i] == d[i].0;
    }
  }

  lemma {:induction false} NewKeysSub(ks: seq<string>, extra: seq<string>, x: string)
    ensures x in NewKeys(ks, extra) <==> x in extra && x !in ks
  {
    if extra != [] {
      NewKeysSub(ks, extra[..|extra| - 1], x);
      assert extra == extra[..|extra| - 1] + [extra[|extra| - 1]];
    }
  }

  /** A lookup after `d.update(e)` finds `e`'s value when `e` has the key,
      and `d`'s otherwise. */
  lemma {:induction false} UpdateGet<V>(d: Dict<V>, e: Dict<V>, j: string)
    requires DistinctKeys(e)
    ensures Get(Update(d, e), j) == if j in Keys(e) then Get(e, j) else Get(d, j)
  {
    if e != [] {
      var e' := e[..|e| - 1];
      var last := e[|e| - 1];
      UpdateGet(d, e', j);
      AssignGet(Update(d, e'), last.0, last.1, j);
      assert e == e' + [last];
      KeysSnoc(e', last.0, last.1);
      GetSnoc(e', last.0, last.1, j);
      assert last.0 !in Keys(e');
    }
  }

  /** After `d.update(e)` the keys are `d`'s in their order, followed by the
      keys new to `d` in `e`'s order. */
  lemma {:induction false} UpdateKeys<V>(d: Dict<V>, e: Dict<V>)
    requires DistinctKeys(e)
    ensures Keys(Update(d, e)) == Keys(d) + NewKeys(Keys(d), Keys(e))
  {
    if e != [] {
      var e' := e[..|e| - 1];
      var last := e[|e| - 1];
      var u' := Update(d, e');
      DistinctKeysLast(e);
      UpdateKeys(d, e');
      AssignKeys(u', last.0, last.1);
      NewKeysSub(Keys(d), Keys(e'), last.0);
      NewKeysSnoc(Keys(d), Keys(e'), last.0);
      assert Update(d, e) == Assign(u', last.0, last.1);
      assert last.0 in Keys(u') <==> last.0 in Keys(d);
    }
  }

  /** `dict` of a sequence of pairs that already has distinct keys is that sequence. */
  lemma {:induction false} FromDistinctPairs<V>(ps: seq<(string, V)>)
    requires DistinctKeys(ps)
    ensures FromPairs(ps) == ps
  {
    if ps != [] {
      var ps' := ps[..|ps| - 1];
      var last := ps[|ps| - 1];
      assert DistinctKeys(ps');
      FromDistinctPairs(ps');
      assert ps == ps' + [last];
      assert last.0 !in Keys(ps');
      AssignNew(ps', last.0, last.1);
    }
  }

  /** Zipping a dict's keys with its values rebuilds the dict. */
  lemma {:induction false} ZipKeysValues<V>(d: Dict<V>)
    ensures Zip(Keys(d), Values(d)) == d
  {
  }

  /** A lookup in `dict(zip(ks, vs))` finds the value at the LAST position
      (below the shorter length) that holds the key. */
  lemma {:induction false} ZipGet<V>(ks: seq<string>, vs: seq<V>, i: nat)
    requires i < |ks| && i < |vs|
    requires forall j | i < j < |ks| && j < |vs| :: ks[j] != ks[i]
    ensures Get(FromPairs(Zip(ks, vs)), ks[i]) == Some(vs[i])
  {
    var z := Zip(ks, vs);
    var n := |z|;
    assert z[..n] == z;
    assert z[i] == (ks[i], vs[i]);
    assert forall j | i < j < n :: z[j].0 == ks[j];
    ZipGetFrom(z, n, i);
  }

  lemma {:induction false} ZipGetFrom<V>(ps: seq<(string, V)>, n: nat, i: nat)
    requires i < n <= |ps|
    requires forall j | i < j < n :: ps[j].0 != ps[i].0
    ensures Get(Update([], ps[..n]), ps[i].0) == Some(ps[i].1)
  {
    var p := ps[..n];
    assert p[..n - 1] == ps[..n - 1];
    assert Update([], p) == Assign(Update([], ps[..n - 1]), ps[n - 1].0, ps[n - 1].1);
    AssignGet(Update([], ps[..n - 1]), ps[n - 1].0, ps[n - 1].1, ps[i].0);
    if i < n - 1 {
      ZipGetFrom(ps, n - 1, i);
    }
  }

  /** `zip` drops what lies beyond the shorter length: such keys are absent. */
  lemma {:induction false} ZipAbsent<V>(ks: seq<string>, vs: seq<V>, k: string)
    requires forall j | 0 <= j < |ks| && j < |vs| :: ks[j] != k
    ensures Get(FromPairs(Zip(ks, vs)), k) == None
  {
    UpdateKeysAbsent(Zip(ks, vs), k);
  }

  lemma {:induction false} UpdateKeysAbsent<V>(ps: seq<(string, V)>, k: string)
    requires forall j | 0 <= j < |ps| :: ps[j].0 != k
    ensures k !in Keys(Update([], ps))
  {
    if ps != [] {
      UpdateKeysAbsent(ps[..|ps| - 1], k);
      var last := ps[|ps| - 1];
      AssignKeys(Update([], ps[..|ps| - 1]), last.0, last.1);
    }
  }
  /** Two dicts with the same keys in the same order and the same lookups are equal. */
  lemma {:induction false} DictEquality<V>(a: Dict<V>, b: Dict<V>)
    requires DistinctKeys(a) && DistinctKeys(b) && Keys(a) == Keys(b)
    requires forall k | k in Keys(a) :: Get(a, k) == Get(b, k)
    ensures a == b
  {
    forall i | 0 <= i < |a| ensures a[i] == b[i] {
      assert a[i].0 == Keys(a)[i] == Keys(b)[i] == b[i].0;
      GetAt(a, i);
      GetAt(b, i);
    }
  }

  /** The new keys of a concatenation are those of each part. */
  lemma {:induction false} NewKeysConcat(ks: seq<string>, a: seq<string>, b: seq<string>)
    ensures NewKeys(ks, a + b) == NewKeys(ks, a) + NewKeys(ks, b)
  {
    if b == [] {
      assert a + b == a;
    } else {
      var b' := b[..|b| - 1];
      var x := b[|b| - 1];
      assert b == b' + [x];
      assert a + b == (a + b') + [x];
      NewKeysConcat(ks, a, b');
      NewKeysSnoc(ks, a + b', x);
      NewKeysSnoc(ks, b', x);
    }
  }

  /** Filtering by `ys` and then by `xs` is filtering by both at once. */
  lemma {:induction false} NewKeysNested(xs: seq<string>, ys: seq<string>, zs: seq<string>)
    ensures NewKeys(xs, NewKeys(ys, zs)) == NewKeys(xs + ys, zs)
  {
    if zs != [] {
      var zs' := zs[..|zs| - 1];
      var z := zs[|zs| - 1];
      assert zs == zs' + [z];
      NewKeysNested(xs, ys, zs');
      NewKeysSnoc(ys, zs', z);
      NewKeysConcat(xs, NewKeys(ys, zs'), if z in ys then [] else [z]);
      NewKeysSnoc(xs + ys, zs', z);
      if z !in ys {
        NewKeysSnoc(xs, [], z);
        assert [] + [z] == [z];
      }
    }
  }

  /** The new keys depend only on which of the candidates `ks` holds. */
  lemma {:induction false} NewKeysSameMembers(ks: seq<string>, ls: seq<string>, extra: seq<string>)
    requires forall x | x in extra :: x in ks <==> x in ls
    ensures NewKeys(ks, extra) == NewKeys(ls, extra)
  {
    if extra != [] {
      var rest := extra[..|extra| - 1];
      assert forall x | x in rest :: x in extra;
      NewKeysSameMembers(ks, ls, rest);
    }
  }

  /** The keys of `x.update(y)` then `.update(z)` are those of `x.update(y | z)`. */
  lemma {:induction false} NewKeysAssociative(xs: seq<string>, ys: seq<string>, zs: seq<string>)
    ensures NewKeys(xs, ys + NewKeys(ys, zs)) == NewKeys(xs, ys) + NewKeys(xs + NewKeys(xs, ys), zs)
  {
    NewKeysConcat(xs, ys, NewKeys(ys, zs));
    NewKeysNested(xs, ys, zs);
    forall x | x in zs ensures x in xs + ys <==> x in xs + NewKeys(xs, ys) {
      NewKeysSub(xs, ys, x);
    }
    NewKeysSameMembers(xs + ys, xs + NewKeys(xs, ys), zs);
  }

  /** Updating with `e` and then with `f` is updating with `e` updated by `f`. */
  lemma {:induction false} UpdateAssociative<V>(d: Dict<V>, e: Dict<V>, f: Dict<V>)
    requires DistinctKeys(d) && DistinctKeys(e) && DistinctKeys(f)
    ensures Update(Update(d, e), f) == Update(d, Update(e, f))
  {
    UpdateAssociativeKeys(d, e, f);
    forall k | k in Keys(Update(Update(d, e), f))
      ensures Get(Update(Update(d, e), f), k) == Get(Update(d, Update(e, f)), k)
    {
      UpdateAssociativeGet(d, e, f, k);
    }
    DictEquality(Update(Update(d, e), f), Update(d, Update(e, f)));
  }

  lemma {:induction false} UpdateAssociativeKeys<V>(d: Dict<V>, e: Dict<V>, f: Dict<V>)
    requires DistinctKeys(e) && DistinctKeys(f)
    ensures Keys(Update(Update(d, e), f)) == Keys(Update(d, Update(e, f)))
  {
    var de := Update(d, e);
    var ef := Update(e, f);
    UpdateKeys(d, e);
    UpdateKeys(e, f);
    UpdateKeys(de, f);
    UpdateKeys(d, ef);
    UpdateKeysChain(Keys(d), Keys(e), Keys(f), Keys(de), Keys(ef));
  }

  /** The key orders of `(d | e) | f` and `d | (e | f)` agree. */
  lemma {:induction false} UpdateKeysChain(kd: seq<string>, ke: seq<string>, kf: seq<string>, kde: seq<string>, kef: seq<string>)
    requires kde == kd + NewKeys(kd, ke) && kef == ke + NewKeys(ke, kf)
    ensures kde + NewKeys(kde, kf) == kd + NewKeys(kd, kef)
  {
    var n1 := NewKeys(kd, ke);
    var n2 := NewKeys(kd + n1, kf);
    NewKeysAssociative(kd, ke, kf);
    assert (kd + n1) + n2 == kd + (n1 + n2);
  }

  lemma {:induction false} UpdateAssociativeGet<V>(d: Dict<V>, e: Dict<V>, f: Dict<V>, k: string)
    requires DistinctKeys(e) && DistinctKeys(f)
    ensures Get(Update(Update(d, e), f), k) == Get(Update(d, Update(e, f)), k)
  {
    var ef := Update(e, f);
    UpdateGet(Update(d, e), f, k);
    UpdateGet(d, e, k);
    UpdateGet(d, ef, k);
    UpdateGet(e, f, k);
    UpdateKeys(e, f);
    NewKeysSub(Keys(e), Keys(f), k);
    assert k in Keys(ef) <==> k in Keys(e) || k in Keys(f);
  }
}
