/** Order-preserving filters (Python list comprehensions with an `if`) and the
    stable sort behind Python's `sorted(..., key=..., reverse=...)`. */
module Sequences {
  import opened Wrappers
  import opened PyText

  // ---------------------------------------------------------------------
  // Filtering

  /** `[x for x in s if f(x)]` */
  function Keep<T>(s: seq<T>, f: T -> bool): (r: seq<T>)
    ensures |r| <= |s|
  {
    if s == [] then [] else (if f(s[0]) then [s[0]] else []) + Keep(s[1..], f)
  }

  /** `r` is the subsequence of `s` at the strictly increasing positions `idx`. */
  ghost predicate SelectsAt<T>(r: seq<T>, s: seq<T>, idx: seq<int>) {
    && |idx| == |r|
    && (forall k :: 0 <= k < |idx| ==> 0 <= idx[k] < |s| && r[k] == s[idx[k]])
    && (forall k, l :: 0 <= k < l < |idx| ==> idx[k] < idx[l])
  }

  function Shift(idx: seq<int>): (r: seq<int>)
    ensures |r| == |idx|
    ensures forall k :: 0 <= k < |idx| ==> r[k] == idx[k] + 1
  {
    if idx == [] then [] else [idx[0] + 1] + Shift(idx[1..])
  }

  lemma ShiftMembership(idx: seq<int>, i: int)
    ensures (i + 1 in Shift(idx)) <==> (i in idx)
  {
    var sh := Shift(idx);
    if i in idx {
      var k :| 0 <= k < |idx| && idx[k] == i;
      assert sh[k] == i + 1;
    }
    if i + 1 in sh {
      var k :| 0 <= k < |sh| && sh[k] == i + 1;
      assert idx[k] == i;
    }
  }

  lemma SelectsAtTail<T>(r: seq<T>, s: seq<T>, idx: seq<int>)
    requires s != [] && SelectsAt(r, s[1..], idx)
    ensures SelectsAt(r, s, Shift(idx))
  {
    var sh := Shift(idx);
    forall k | 0 <= k < |sh|
      ensures 0 <= sh[k] < |s| && r[k] == s[sh[k]]
    {
      assert r[k] == s[1..][idx[k]];
    }
  }

  lemma SelectsAtCons<T>(r: seq<T>, s: seq<T>, idx: seq<int>)
    requires s != [] && SelectsAt(r, s, idx)
    requires forall k :: 0 <= k < |idx| ==> idx[k] > 0
    ensures SelectsAt([s[0]] + r, s, [0] + idx)
  {
    var r', idx' := [s[0]] + r, [0] + idx;
    forall k | 0 <= k < |idx'|
      ensures 0 <= idx'[k] < |s| && r'[k] == s[idx'[k]]
    {
      if k > 0 {
        assert idx'[k] == idx[k - 1] && r'[k] == r[k - 1];
      }
    }
    forall k, l | 0 <= k < l < |idx'|
      ensures idx'[k] < idx'[l]
    {
      assert idx'[l] == idx[l - 1];
      if k > 0 {
        assert idx'[k] == idx[k - 1];
      }
    }
  }

  lemma {:induction false} KeepPositions<T>(s: seq<T>, f: T -> bool) returns (idx: seq<int>)
    ensures SelectsAt(Keep(s, f), s, idx)
    ensures forall i :: 0 <= i < |s| ==> (i in idx <==> f(s[i]))
  {
    if s == [] {
      idx := [];
    } else {
      var rest := KeepPositions(s[1..], f);
      idx := KeepPositionsCons(s, f, rest);
    }
  }

  /** The positions of the filter on `s` from those on its tail. */
  lemma KeepPositionsCons<T>(s: seq<T>, f: T -> bool, rest: seq<int>) returns (idx: seq<int>)
    requires s != [] && SelectsAt(Keep(s[1..], f), s[1..], rest)
    requires forall i :: 0 <= i < |s[1..]| ==> (i in rest <==> f(s[1..][i]))
    ensures SelectsAt(Keep(s, f), s, idx)
    ensures forall i :: 0 <= i < |s| ==> (i in idx <==> f(s[i]))
  {
    idx := (if f(s[0]) then [0] else []) + Shift(rest);
    ConsSelects(s, f, rest);
    ShiftedPositions(s, f, rest, idx);
  }

  lemma ConsSelects<T>(s: seq<T>, f: T -> bool, rest: seq<int>)
    requires s != [] && SelectsAt(Keep(s[1..], f), s[1..], rest)
    ensures SelectsAt(Keep(s, f), s, (if f(s[0]) then [0] else []) + Shift(rest))
  {
    var r, shifted := Keep(s[1..], f), Shift(rest);
    KeepCons(s, f);
    SelectsAtTail(r, s, rest);
    if f(s[0]) {
      ShiftPositive(rest);
      SelectsAtCons(r, s, shifted);
    } else {
      assert [] + shifted == shifted && [] + r == r;
    }
  }

  lemma KeepCons<T>(s: seq<T>, f: T -> bool)
    requires s != []
    ensures Keep(s, f) == (if f(s[0]) then [s[0]] else []) + Keep(s[1..], f)
  {
  }

  lemma ShiftPositive(idx: seq<int>)
    requires forall k :: 0 <= k < |idx| ==> idx[k] >= 0
    ensures forall k :: 0 <= k < |Shift(idx)| ==> Shift(idx)[k] > 0
  {
  }

  lemma ShiftedPositions<T>(s: seq<T>, f: T -> bool, rest: seq<int>, idx: seq<int>)
    requires s != []
    requires forall i :: 0 <= i < |s[1..]| ==> (i in rest <==> f(s[1..][i]))
    requires forall k :: 0 <= k < |rest| ==> rest[k] >= 0
    requires idx == (if f(s[0]) then [0] else []) + Shift(rest)
    ensures forall i :: 0 <= i < |s| ==> (i in idx <==> f(s[i]))
  {
    forall i | 0 <= i < |s|
      ensures i in idx <==> f(s[i])
    {
      ShiftedPosition(s, f, rest, i);
    }
  }

  lemma ShiftedPosition<T>(s: seq<T>, f: T -> bool, rest: seq<int>, i: int)
    requires 0 <= i < |s|
    requires i > 0 ==> (i - 1 in rest <==> f(s[1..][i - 1]))
    requires forall k :: 0 <= k < |rest| ==> rest[k] >= 0
    ensures i in (if f(s[0]) then [0] else []) + Shift(rest) <==> f(s[i])
  {
    PositionOfShifted(rest, i, f(s[0]));
    if i > 0 {
      assert s[i] == s[1..][i - 1];
    }
  }

  /** Membership in the positions `[0] + Shift(rest)` (or `Shift(rest)`). */
  lemma PositionOfShifted(rest: seq<int>, i: int, b: bool)
    requires forall k :: 0 <= k < |rest| ==> rest[k] >= 0
    ensures i in (if b then [0] else []) + Shift(rest) <==> (if i == 0 then b else i - 1 in rest)
  {
    var pre, sh := (if b then [0] else []), Shift(rest);
    assert i in pre + sh <==> i in pre || i in sh;
    ShiftMembership(rest, i - 1);
    if i == 0 {
      assert -1 !in rest;
    }
  }

  /** The filter returns exactly the elements of `s` satisfying `f`, in their original order. */
  lemma KeepSelects<T>(s: seq<T>, f: T -> bool)
    ensures exists idx :: SelectsAt(Keep(s, f), s, idx) && forall i :: 0 <= i < |s| ==> (i in idx <==> f(s[i]))
  {
    var idx := KeepPositions(s, f);
  }

  lemma PrefixSubMultiset<T>(s: seq<T>, n: nat)
    requires n <= |s|
    ensures multiset(s[..n]) <= multiset(s)
  {
    assert s == s[..n] + s[n..];
  }

  /** Appending one element to the input: the loop form of the filter. */
  lemma {:induction false} KeepSnoc<T>(s: seq<T>, x: T, f: T -> bool)
    ensures Keep(s + [x], f) == Keep(s, f) + (if f(x) then [x] else [])
  {
    if s == [] {
      assert [x][1..] == [];
    } else {
      var t := s + [x];
      assert t[0] == s[0] && t[1..] == s[1..] + [x];
      KeepCons(t, f);
      KeepCons(s, f);
      KeepSnoc(s[1..], x, f);
      var h, m, e := (if f(s[0]) then [s[0]] else []), Keep(s[1..], f), (if f(x) then [x] else []);
      assert h + (m + e) == (h + m) + e;
    }
  }

  /** One step of a loop that builds the filtered list: position `k` is
      appended exactly when it passes. */
  lemma KeepStep<T>(s: seq<T>, k: nat, found: seq<T>, f: T -> bool, b: bool)
    requires k < |s| && found == Keep(s[..k], f)
    requires b <==> f(s[k])
    ensures (if b then found + [s[k]] else found) == Keep(s[..k + 1], f)
  {
    assert s[..k + 1] == s[..k] + [s[k]];
    KeepSnoc(s[..k], s[k], f);
  }

  /** Filtering a second time with the same predicate changes nothing. */
  lemma {:induction false} KeepIdempotent<T>(s: seq<T>, f: T -> bool)
    ensures Keep(Keep(s, f), f) == Keep(s, f)
  {
    if s != [] {
      var rest := Keep(s[1..], f);
      KeepIdempotent(s[1..], f);
      if f(s[0]) {
        var r := [s[0]] + rest;
        assert Keep(s, f) == r;
        assert r[0] == s[0] && r[1..] == rest;
        assert Keep(r, f) == [s[0]] + Keep(rest, f);
      } else {
        assert Keep(s, f) == rest;
      }
    }
  }

  /** Filtering the result of a filter by a stronger predicate is the same
      as filtering by the stronger predicate alone. */
  lemma {:induction false} KeepNarrow<T>(s: seq<T>, f: T -> bool, g: T -> bool)
    requires forall x :: g(x) ==> f(x)
    ensures Keep(Keep(s, f), g) == Keep(s, g)
  {
    if s != [] {
      var rest := Keep(s[1..], f);
      KeepNarrow(s[1..], f, g);
      if f(s[0]) {
        var r := [s[0]] + rest;
        assert Keep(s, f) == r;
        assert r[0] == s[0] && r[1..] == rest;
        assert Keep(r, g) == (if g(s[0]) then [s[0]] else []) + Keep(rest, g);
      } else {
        assert Keep(s, f) == rest;
      }
    }
  }

  /** An element is in the filtered list exactly when it is in the input and passes. */
  lemma {:induction false} KeepMembers<T>(s: seq<T>, f: T -> bool)
    ensures forall x :: x in Keep(s, f) <==> x in s && f(x)
  {
    if s != [] {
      KeepMembers(s[1..], f);
      assert s == [s[0]] + s[1..];
    }
  }

  function Not<T>(f: T -> bool): T -> bool {
    x => !f(x)
  }

  /** Every element is kept by exactly one of `f` and its negation. */
  lemma {:induction false} KeepComplement<T>(s: seq<T>, f: T -> bool)
    ensures |Keep(s, f)| + |Keep(s, Not(f))| == |s|
  {
    if s != [] {
      KeepComplement(s[1..], f);
    }
  }

  // ---------------------------------------------------------------------
  // Stable sorting of (key, item) pairs

  /** Key `a` must come before key `b`: ascending, or descending for `reverse=True`. */
  predicate Precedes(a: Value, b: Value, desc: bool) {
    if desc then Less(b, a) else Less(a, b)
  }

  ghost predicate Ordered<T>(s: seq<(Value, T)>, desc: bool) {
    forall i, j :: 0 <= i < j < |s| ==> !Precedes(s[j].0, s[i].0, desc)
  }

  /** The pairs of `s` whose key is `k`, in order. */
  function WithKey<T>(s: seq<(Value, T)>, k: Value): seq<(Value, T)> {
    if s == [] then [] else (if s[0].0 == k then [s[0]] else []) + WithKey(s[1..], k)
  }

  function Items<T>(s: seq<(Value, T)>): (r: seq<T>)
    ensures |r| == |s|
    ensures forall i :: 0 <= i < |s| ==> r[i] == s[i].1
  {
    if s == [] then [] else [s[0].1] + Items(s[1..])
  }

  lemma PrecedesAsymmetric(a: Value, b: Value, desc: bool)
    requires Precedes(a, b, desc)
    ensures !Precedes(b, a, desc) && a != b
  {
    LessIrreflexive(a);
    if Precedes(b, a, desc) {
      if desc { LessTransitive(a, b, a); } else { LessTransitive(a, b, a); }
    }
  }

  lemma NotPrecedesTransitive(a: Value, b: Value, c: Value, desc: bool)
    requires !Precedes(a, b, desc) && !Precedes(b, c, desc)
    ensures !Precedes(a, c, desc)
  {
    LessTotal(a, b);
    if Precedes(a, c, desc) {
      if desc {
        if Less(a, b) { LessTransitive(c, a, b); }
      } else {
        if Less(b, a) { LessTransitive(b, a, c); }
      }
    }
  }

  lemma OrderedCons<T>(a: (Value, T), s: seq<(Value, T)>, desc: bool)
    requires Ordered(s, desc)
    requires forall j :: 0 <= j < |s| ==> !Precedes(s[j].0, a.0, desc)
    ensures Ordered([a] + s, desc)
  {
    var r := [a] + s;
    forall i, j | 0 <= i < j < |r|
      ensures !Precedes(r[j].0, r[i].0, desc)
    {
      if i > 0 {
        assert r[i] == s[i - 1] && r[j] == s[j - 1];
      }
    }
  }

  /** Inserts `x` in front of the first element that does not precede it, so
      that `x` lands before every element with an equal key. */
  function Insert<T>(x: (Value, T), t: seq<(Value, T)>, desc: bool): (r: seq<(Value, T)>)
    ensures multiset(r) == multiset(t) + multiset{x}
  {
    if t == [] || !Precedes(t[0].0, x.0, desc) then [x] + t
    else
      assert t == [t[0]] + t[1..];
      [t[0]] + Insert(x, t[1..], desc)
  }

  lemma {:induction false} InsertOrdered<T>(x: (Value, T), t: seq<(Value, T)>, desc: bool)
    requires Ordered(t, desc)
    ensures Ordered(Insert(x, t, desc), desc)
  {
    if t == [] || !Precedes(t[0].0, x.0, desc) {
      forall j | 0 <= j < |t|
        ensures !Precedes(t[j].0, x.0, desc)
      {
        if j > 0 {
          NotPrecedesTransitive(t[j].0, t[0].0, x.0, desc);
        }
      }
      OrderedCons(x, t, desc);
    } else {
      var rest := Insert(x, t[1..], desc);
      InsertOrdered(x, t[1..], desc);
      PrecedesAsymmetric(t[0].0, x.0, desc);
      forall j | 0 <= j < |rest|
        ensures !Precedes(rest[j].0, t[0].0, desc)
      {
        assert rest[j] in multiset(rest);
        if rest[j] != x {
          assert rest[j] in multiset(t[1..]);
          var m :| 0 <= m < |t[1..]| && t[1..][m] == rest[j];
          assert t[m + 1] == rest[j];
        }
      }
      OrderedCons(t[0], rest, desc);
    }
  }

  lemma {:induction false} InsertWithKey<T>(x: (Value, T), t: seq<(Value, T)>, desc: bool, k: Value)
    ensures WithKey(Insert(x, t, desc), k) == if x.0 == k then [x] + WithKey(t, k) else WithKey(t, k)
  {
    if t == [] || !Precedes(t[0].0, x.0, desc) {
      assert ([x] + t)[1..] == t;
    } else {
      var r := Insert(x, t[1..], desc);
      assert ([t[0]] + r)[1..] == r;
      InsertWithKey(x, t[1..], desc, k);
      PrecedesAsymmetric(t[0].0, x.0, desc);
      if x.0 == k {
        assert WithKey(t, k) == WithKey(t[1..], k);
      }
    }
  }

  /** Python's `sorted` on decorated pairs: a permutation, ordered by key, and
      stable (the pairs sharing a key keep their original relative order;
      `reverse=True` keeps that order too). */
  function StableSort<T>(s: seq<(Value, T)>, desc: bool): (r: seq<(Value, T)>)
    ensures multiset(r) == multiset(s)
    ensures Ordered(r, desc)
    ensures forall k :: WithKey(r, k) == WithKey(s, k)
  {
    if s == [] then []
    else
      var t := StableSort(s[1..], desc);
      InsertOrdered(s[0], t, desc);
      assert s == [s[0]] + s[1..];
      var r := Insert(s[0], t, desc);
      assert forall k :: WithKey(r, k) == WithKey(s, k) by {
        forall k ensures WithKey(r, k) == WithKey(s, k) {
          InsertWithKey(s[0], t, desc, k);
        }
      }
      r
  }

  lemma {:induction false} InsertItems<T>(x: (Value, T), t: seq<(Value, T)>, desc: bool)
    ensures multiset(Items(Insert(x, t, desc))) == multiset(Items(t)) + multiset{x.1}
  {
    if t == [] || !Precedes(t[0].0, x.0, desc) {
      assert Items([x] + t) == [x.1] + Items(t);
    } else {
      InsertItems(x, t[1..], desc);
      var rest := Insert(x, t[1..], desc);
      assert Items([t[0]] + rest) == [t[0].1] + Items(rest);
      assert Items(t) == [t[0].1] + Items(t[1..]);
    }
  }

  /** Sorting permutes the items as well as the pairs. */
  lemma {:induction false} SortItems<T>(s: seq<(Value, T)>, desc: bool)
    ensures multiset(Items(StableSort(s, desc))) == multiset(Items(s))
  {
    if s != [] {
      SortItems(s[1..], desc);
      InsertItems(s[0], StableSort(s[1..], desc), desc);
      assert Items(s) == [s[0].1] + Items(s[1..]);
    }
  }
  // ---------------------------------------------------------------------
  // `sorted(s, key=key, reverse=desc)` on plain items

  /** `[(key(x), x) for x in s]` */
  function Decorate<T>(s: seq<T>, key: T -> Value): (r: seq<(Value, T)>)
    ensures |r| == |s|
    ensures forall i :: 0 <= i < |s| ==> r[i] == (key(s[i]), s[i])
  {
    if s == [] then [] else [(key(s[0]), s[0])] + Decorate(s[1..], key)
  }

  /** The items of `s` whose key is `k`, in order. */
  function SameKey<T>(s: seq<T>, key: T -> Value, k: Value): seq<T> {
    if s == [] then [] else (if key(s[0]) == k then [s[0]] else []) + SameKey(s[1..], key, k)
  }

  ghost predicate Decorated<T>(d: seq<(Value, T)>, key: T -> Value) {
    forall i :: 0 <= i < |d| ==> d[i].0 == key(d[i].1)
  }

  lemma {:induction false} ItemsDecorate<T>(s: seq<T>, key: T -> Value)
    ensures Items(Decorate(s, key)) == s
  {
    if s != [] {
      ItemsDecorate(s[1..], key);
    }
  }

  lemma {:induction false} SameKeyItems<T>(d: seq<(Value, T)>, key: T -> Value, k: Value)
    requires Decorated(d, key)
    ensures SameKey(Items(d), key, k) == Items(WithKey(d, k))
  {
    if d != [] {
      assert Decorated(d[1..], key) by {
        forall i | 0 <= i < |d[1..]| ensures d[1..][i].0 == key(d[1..][i].1) {
          assert d[1..][i] == d[i + 1];
        }
      }
      SameKeyItems(d[1..], key, k);
      assert Items(d)[0] == d[0].1 && Items(d)[1..] == Items(d[1..]);
      var w := (if d[0].0 == k then [d[0]] else []) + WithKey(d[1..], k);
      assert Items(w) == (if d[0].0 == k then [d[0].1] else []) + Items(WithKey(d[1..], k)) by {
        if d[0].0 == k {
          assert w[0] == d[0] && w[1..] == WithKey(d[1..], k);
        }
      }
    }
  }

  /** A permutation of a decorated sequence is still decorated. */
  lemma PermutedDecorated<T>(d: seq<(Value, T)>, e: seq<(Value, T)>, key: T -> Value)
    requires Decorated(d, key) && multiset(e) == multiset(d)
    ensures Decorated(e, key)
  {
    forall i | 0 <= i < |e| ensures e[i].0 == key(e[i].1) {
      assert e[i] in multiset(d);
      var j :| 0 <= j < |d| && d[j] == e[i];
    }
  }

  /** Python's stable `sorted` by a key: a permutation of `s`, ordered by key
      (descending for `reverse=True`), in which the items sharing a key keep
      their original relative order. */
  function SortBy<T>(s: seq<T>, key: T -> Value, desc: bool): (r: seq<T>)
    ensures |r| == |s| && multiset(r) == multiset(s)
    ensures forall i, j :: 0 <= i < j < |r| ==> !Precedes(key(r[j]), key(r[i]), desc)
    ensures forall k :: SameKey(r, key, k) == SameKey(s, key, k)
  {
    var d := Decorate(s, key);
    var sorted := StableSort(d, desc);
    SortItems(d, desc);
    ItemsDecorate(s, key);
    PermutedDecorated(d, sorted, key);
    assert forall k :: SameKey(Items(sorted), key, k) == SameKey(s, key, k) by {
      forall k ensures SameKey(Items(sorted), key, k) == SameKey(s, key, k) {
        SameKeyItems(sorted, key, k);
        SameKeyItems(d, key, k);
      }
    }
    assert |multiset(Items(sorted))| == |multiset(s)|;
    Items(sorted)
  }
  /** `sorted(...)[:limit]`: still ordered by key, and drawn from `s`; all of
      `s` when there is no limit. */
  lemma SortedPrefix<T>(s: seq<T>, key: T -> Value, desc: bool, limit: Option<int>)
    ensures var r := TakeAtMost(SortBy(s, key, desc), limit);
      && (forall i, j :: 0 <= i < j < |r| ==> !Precedes(key(r[j]), key(r[i]), desc))
      && multiset(r) <= multiset(s)
      && (limit.None? ==> multiset(r) == multiset(s))
  {
    var sorted := SortBy(s, key, desc);
    var r := TakeAtMost(sorted, limit);
    PrefixSubMultiset(sorted, |r|);
    forall i, j | 0 <= i < j < |r| ensures !Precedes(key(r[j]), key(r[i]), desc) {
      assert r[i] == sorted[i] && r[j] == sorted[j];
    }
  }
}
