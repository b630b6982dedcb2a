/**
 * The abstract value of a skip list: its layers as key sequences, bottom
 * layer first, and what insert and remove do to them.
 */
module SortedLayers {
  import opened Keys

  /** Keys strictly increase from left to right. */
  predicate Sorted(ks: seq<Key>)
  {
    forall i, j {:trigger Before(ks[i], ks[j])} :: 0 <= i < j < |ks| ==> Before(ks[i], ks[j])
  }

  /** A layer: the left sentinel, strictly increasing numbers, the right sentinel. */
  predicate Bounded(ks: seq<Key>)
  {
    |ks| >= 2 && ks[0] == LeftSentinel && ks[|ks| - 1] == RightSentinel && Sorted(ks)
  }

  /** The layer with `k` placed just before the first key above it. */
  function InsertKey(ks: seq<Key>, k: Key): (r: seq<Key>)
    ensures |r| == |ks| + 1
  {
    if ks == [] || Before(k, ks[0]) then [k] + ks
    else
      assert ks == [ks[0]] + ks[1..];
      [ks[0]] + InsertKey(ks[1..], k)
  }

  /** The layer with every occurrence of `k` taken out. */
  function Without(ks: seq<Key>, k: Key): (r: seq<Key>)
    ensures |r| <= |ks|
  {
    if ks == [] then []
    else
      assert ks == [ks[0]] + ks[1..];
      if ks[0] == k then Without(ks[1..], k)
      else [ks[0]] + Without(ks[1..], k)
  }

  /** InsertKey adds one occurrence of `k` and keeps every other key with its count. */
  lemma {:induction false} InsertCounts(ks: seq<Key>, k: Key)
    ensures multiset(InsertKey(ks, k)) == multiset(ks) + multiset{k}
  {
    if ks != [] && !Before(k, ks[0]) {
      assert ks == [ks[0]] + ks[1..];
      InsertCounts(ks[1..], k);
    }
  }

  /** Without drops every occurrence of `k` and keeps every other key with its count. */
  lemma {:induction false} WithoutCounts(ks: seq<Key>, k: Key)
    ensures multiset(Without(ks, k)) == multiset(ks)[k := 0]
  {
    if ks != [] {
      assert ks == [ks[0]] + ks[1..];
      WithoutCounts(ks[1..], k);
    }
  }

  lemma SortedAt(ks: seq<Key>, i: nat, j: nat)
    requires Sorted(ks) && i < j < |ks|
    ensures Before(ks[i], ks[j])
  {
  }

  /** InsertKey adds `k` and keeps every other key. */
  lemma InsertMembers(ks: seq<Key>, k: Key)
    ensures forall x :: x in InsertKey(ks, k) <==> x == k || x in ks
  {
    InsertCounts(ks, k);
    assert forall x :: x in InsertKey(ks, k) <==> x in multiset(InsertKey(ks, k));
    assert forall x :: x in ks <==> x in multiset(ks);
  }

  /** In a sorted layer each key occurs at most once. */
  lemma SortedOnce(ks: seq<Key>, k: Key)
    requires Sorted(ks) && k in ks
    ensures multiset(ks)[k] == 1
  {
    var i :| 0 <= i < |ks| && ks[i] == k;
    assert ks == ks[..i] + [k] + ks[i + 1..];
    assert k !in ks[..i] && k !in ks[i + 1..] by {
      forall j | 0 <= j < |ks| && j != i ensures ks[j] != k {
        BeforeIsStrictTotal(ks[j], k, k);
      }
    }
    assert multiset(ks) == multiset(ks[..i]) + multiset{k} + multiset(ks[i + 1..]);
  }

  /** Splicing `k` between its neighbours at i and i + 1 is what InsertKey does. */
  lemma {:induction false} InsertAt(ks: seq<Key>, k: Key, i: nat)
    requires Sorted(ks) && i < |ks|
    requires Before(ks[i], k) && (i + 1 == |ks| || Before(k, ks[i + 1]))
    ensures InsertKey(ks, k) == ks[..i + 1] + [k] + ks[i + 1..]
  {
    var t := ks[1..];
    assert Before(ks[0], k) by {
      if i > 0 {
        assert Before(ks[0], ks[i]);
        BeforeIsStrictTotal(ks[0], ks[i], k);
      }
    }
    BeforeIsStrictTotal(ks[0], k, k);
    assert InsertKey(ks, k) == [ks[0]] + InsertKey(t, k);
    if i == 0 {
      if t != [] {
        assert t[0] == ks[1];
      }
      assert InsertKey(t, k) == [k] + t;
      assert ks[..1] == [ks[0]];
    } else {
      assert Sorted(t) by {
        forall a, b | 0 <= a < b < |t| ensures Before(t[a], t[b]) {
          assert t[a] == ks[a + 1] && t[b] == ks[b + 1];
        }
      }
      assert t[i - 1] == ks[i];
      assert i == |t| || t[i] == ks[i + 1];
      InsertAt(t, k, i - 1);
      assert t[..i] == ks[1..i + 1];
      assert t[i..] == ks[i + 1..];
      assert ks[..i + 1] == [ks[0]] + ks[1..i + 1];
      calc {
        InsertKey(ks, k);
        [ks[0]] + InsertKey(t, k);
        [ks[0]] + (ks[1..i + 1] + [k] + ks[i + 1..]);
        ([ks[0]] + ks[1..i + 1]) + [k] + ks[i + 1..];
      }
    }
  }

  /** Inserting a key not yet present keeps a layer sorted and adds exactly that key. */
  lemma {:induction false} InsertSorted(ks: seq<Key>, k: Key)
    requires Sorted(ks) && k !in ks
    ensures Sorted(InsertKey(ks, k))
    ensures forall x :: x in InsertKey(ks, k) <==> x == k || x in ks
  {
    var r := InsertKey(ks, k);
    assert forall x :: x in r <==> x in multiset(r);
    if ks == [] || Before(k, ks[0]) {
      forall i, j | 0 <= i < j < |r| ensures Before(r[i], r[j]) {
        if i == 0 && j > 1 { BeforeIsStrictTotal(k, ks[0], ks[j - 1]); }
      }
    } else {
      BeforeIsStrictTotal(ks[0], k, k);
      InsertSorted(ks[1..], k);
      var t := InsertKey(ks[1..], k);
      assert forall x :: x in ks <==> x == ks[0] || x in ks[1..] by {
        assert ks == [ks[0]] + ks[1..];
      }
      assert r == [ks[0]] + t;
      forall i, j | 0 <= i < j < |r| ensures Before(r[i], r[j]) {
        if i == 0 {
          assert r[j] == t[j - 1] && r[j] in t;
          if r[j] != k {
            assert r[j] in ks[1..];
            var m :| 0 <= m < |ks[1..]| && ks[1..][m] == r[j];
            assert ks[m + 1] == r[j];
          }
        }
      }
    }
  }

  /** Taking `k` out of a sorted layer removes exactly its one position. */
  lemma {:induction false} WithoutAt(ks: seq<Key>, k: Key, i: nat)
    requires Sorted(ks) && i < |ks| && ks[i] == k
    ensures Without(ks, k) == ks[..i] + ks[i + 1..]
  {
    if i == 0 {
      WithoutAbsent(ks[1..], k);
    } else {
      BeforeIsStrictTotal(ks[0], k, k);
      WithoutAt(ks[1..], k, i - 1);
      assert ks[..i] == [ks[0]] + ks[1..][..i - 1];
      assert ks[i + 1..] == ks[1..][i..];
    }
  }

  /** Taking out a key that is not there changes nothing. */
  lemma {:induction false} WithoutAbsent(ks: seq<Key>, k: Key)
    requires Sorted(ks) && (forall j :: 0 <= j < |ks| ==> Before(k, ks[j]))
    ensures Without(ks, k) == ks
  {
    if ks != [] {
      BeforeIsStrictTotal(k, k, k);
      WithoutAbsent(ks[1..], k);
      assert ks == [ks[0]] + ks[1..];
    }
  }

  /** A key that is not in the layer at all. */
  lemma {:induction false} WithoutMissing(ks: seq<Key>, k: Key)
    requires k !in ks
    ensures Without(ks, k) == ks
  {
    if ks != [] {
      assert ks[0] != k;
      assert k !in ks[1..];
      WithoutMissing(ks[1..], k);
      assert ks == [ks[0]] + ks[1..];
    }
  }

  /** Removal keeps a layer sorted and keeps its sentinels at its ends. */
  lemma {:induction false} WithoutSorted(ks: seq<Key>, k: Key)
    requires Sorted(ks)
    ensures Sorted(Without(ks, k))
    ensures forall x :: x in Without(ks, k) <==> x in ks && x != k
  {
    var r := Without(ks, k);
    assert forall x :: x in r <==> x in multiset(r);
    assert forall x :: x in ks <==> x in multiset(ks);
    if ks != [] {
      WithoutSorted(ks[1..], k);
      if ks[0] != k {
        var t := Without(ks[1..], k);
        assert r == [ks[0]] + t;
        forall i, j | 0 <= i < j < |r| ensures Before(r[i], r[j]) {
          if i == 0 {
            assert r[j] in t;
            var m :| 0 <= m < |ks[1..]| && ks[1..][m] == r[j];
            assert ks[m + 1] == r[j];
          }
        }
      }
    }
  }

  /** Removing a key just inserted gives the layer back. */
  lemma {:induction false} WithoutInsert(ks: seq<Key>, k: Key)
    requires Sorted(ks) && k !in ks
    ensures Without(InsertKey(ks, k), k) == ks
  {
    if ks == [] || Before(k, ks[0]) {
      WithoutMissing(ks, k);
    } else {
      assert k !in ks[1..];
      WithoutInsert(ks[1..], k);
      assert ks == [ks[0]] + ks[1..];
    }
  }

  /** Inserting a key just removed gives the layer back. */
  lemma InsertWithout(ks: seq<Key>, k: Key)
    requires Sorted(ks) && k in ks
    ensures InsertKey(Without(ks, k), k) == ks
  {
    var i :| 0 <= i < |ks| && ks[i] == k;
    WithoutAt(ks, k, i);
    WithoutSorted(ks, k);
    var w := ks[..i] + ks[i + 1..];
    assert |w| == |ks| - 1;
    if i == 0 {
      assert w == ks[1..];
      if w != [] {
        assert w[0] == ks[1] && Before(ks[0], ks[1]);
      }
      assert ks == [k] + ks[1..];
    } else {
      assert w[i - 1] == ks[i - 1] && Before(ks[i - 1], ks[i]);
      assert i == |w| || (w[i] == ks[i + 1] && Before(ks[i], ks[i + 1]));
      InsertAt(w, k, i - 1);
      assert w[..i] == ks[..i] && w[i..] == ks[i + 1..];
      SplitAt(ks, i);
    }
  }

  lemma SplitAt(ks: seq<Key>, i: nat)
    requires i < |ks|
    ensures ks == ks[..i] + [ks[i]] + ks[i + 1..]
  {
  }

  /** A key strictly between two neighbours of a bounded layer lands between them. */
  lemma InsertBetween(ks: seq<Key>, k: Key, a: nat)
    requires Bounded(ks) && a + 1 < |ks| && Before(ks[a], k) && Before(k, ks[a + 1])
    ensures InsertKey(ks, k) == ks[..a + 1] + [k] + ks[a + 1..]
    ensures Bounded(InsertKey(ks, k))
  {
    InsertAt(ks, k, a);
    if k in ks {
      var j :| 0 <= j < |ks| && ks[j] == k;
      if j <= a {
        if j < a { SortedAt(ks, j, a); }
      } else if j > a + 1 {
        SortedAt(ks, a + 1, j);
      }
      assert false;
    }
    InsertSorted(ks, k);
    var r := InsertKey(ks, k);
    assert r[0] == ks[0] && r[|r| - 1] == ks[|ks| - 1];
  }

  /** Taking out a number of a bounded layer closes the gap it leaves. */
  lemma WithoutBetween(ks: seq<Key>, i: nat)
    requires Bounded(ks) && 0 < i < |ks| - 1
    ensures Without(ks, ks[i]) == ks[..i] + ks[i + 1..]
    ensures Bounded(Without(ks, ks[i]))
  {
    WithoutAt(ks, ks[i], i);
    WithoutSorted(ks, ks[i]);
    var r := Without(ks, ks[i]);
    assert r[0] == ks[0] && r[|r| - 1] == ks[|ks| - 1];
  }

  /** A sorted sequence holding both sentinels has them at its two ends. */
  lemma SentinelsAtEnds(ks: seq<Key>)
    requires Sorted(ks) && LeftSentinel in ks && RightSentinel in ks
    ensures |ks| >= 2 && Bounded(ks)
  {
    var a :| 0 <= a < |ks| && ks[a] == LeftSentinel;
    var b :| 0 <= b < |ks| && ks[b] == RightSentinel;
    if a > 0 {
      SortedAt(ks, 0, a);
    }
    if b < |ks| - 1 {
      SortedAt(ks, b, |ks| - 1);
    }
  }

  // ---------------------------------------------------------------------
  // The whole structure: layers[0] is the bottom layer, the last is the top.
  // ---------------------------------------------------------------------

  /** Every key of layer l is also in layer l - 1. */
  ghost predicate NestedAt(layers: seq<seq<Key>>, l: nat)
    requires 1 <= l < |layers|
  {
    forall i :: 0 <= i < |layers[l]| ==> layers[l][i] in layers[l - 1]
  }

  /** Every layer bounded and sorted; every key of a layer also in the layer below. */
  ghost predicate Shape(layers: seq<seq<Key>>)
  {
    |layers| >= 1
    && (forall l :: 0 <= l < |layers| ==> Bounded(layers[l]))
    && (forall l :: 1 <= l < |layers| ==> NestedAt(layers, l))
  }

  /** A key of any layer is on every layer below it. */
  lemma {:induction false} InLower(layers: seq<seq<Key>>, l: nat, m: nat, x: Key)
    requires Shape(layers) && m <= l < |layers| && x in layers[l]
    ensures x in layers[m]
    decreases l
  {
    if m < l {
      var i :| 0 <= i < |layers[l]| && layers[l][i] == x;
      assert NestedAt(layers, l);
      InLower(layers, l - 1, m, x);
    }
  }

  function Max(a: nat, b: nat): nat
  {
    if a < b then b else a
  }

  /** The empty layer a new top of the lattice starts as. */
  function Empty(): seq<Key>
  {
    [LeftSentinel, RightSentinel]
  }

  /** Layer l of the given layers, or an empty layer above them. */
  function Base(layers: seq<seq<Key>>, l: nat): seq<Key>
  {
    if l < |layers| then layers[l] else Empty()
  }

  /** Every key of a layer's base is in the base below it. */
  lemma BaseNested(layers: seq<seq<Key>>, l: nat, x: Key)
    requires Shape(layers) && 1 <= l && x in Base(layers, l)
    ensures x in Base(layers, l - 1)
  {
    if l < |layers| {
      var i :| 0 <= i < |layers[l]| && layers[l][i] == x;
      assert NestedAt(layers, l);
    } else {
      var below := Base(layers, l - 1);
      assert Bounded(below);
      assert below[0] in below && below[|below| - 1] in below;
    }
  }

  /**
   * `height` layers: the given ones padded with empty layers, with
   * Val(k) inserted in the lowest `copies` of them.
   */
  function Grow(layers: seq<seq<Key>>, k: int, copies: nat, height: nat): (r: seq<seq<Key>>)
    requires |layers| <= height
  {
    seq(height, l requires 0 <= l < height =>
      if l < copies then InsertKey(Base(layers, l), Val(k)) else Base(layers, l))
  }

  /** What insert does to the layers when the key lands on `copies` layers. */
  function Added(layers: seq<seq<Key>>, k: int, copies: nat): seq<seq<Key>>
  {
    Grow(layers, k, copies, Max(|layers|, copies))
  }

  /** The layers with Val(k) taken out of the lowest m of them. */
  function EraseBelow(layers: seq<seq<Key>>, k: int, m: nat): seq<seq<Key>>
  {
    seq(|layers|, l requires 0 <= l < |layers| =>
      if l < m then Without(layers[l], Val(k)) else layers[l])
  }

  /** What remove does to the layers: the key leaves every layer, no layer is dropped. */
  function Erase(layers: seq<seq<Key>>, k: int): seq<seq<Key>>
  {
    EraseBelow(layers, k, |layers|)
  }

  /** With at least one copy, the bottom layer gains the key. */
  lemma AddedBottom(layers: seq<seq<Key>>, k: int, copies: nat)
    requires |layers| >= 1 && copies >= 1
    ensures Added(layers, k, copies)[0] == InsertKey(layers[0], Val(k))
  {
  }

  /** Placing the key on one more layer. */
  lemma GrowStep(layers: seq<seq<Key>>, k: int, copies: nat, height: nat)
    requires |layers| <= height && copies < height
    ensures Grow(layers, k, copies, height)[copies := InsertKey(Grow(layers, k, copies, height)[copies], Val(k))]
         == Grow(layers, k, copies + 1, height)
  {
  }

  /** Adding an empty top layer. */
  lemma GrowTop(layers: seq<seq<Key>>, k: int, copies: nat, height: nat)
    requires |layers| <= height && copies <= height
    ensures Grow(layers, k, copies, height) + [Empty()] == Grow(layers, k, copies, height + 1)
  {
  }

  /**
   * Insert of a key absent from the bottom layer keeps the shape; the key
   * ends up on exactly the lowest `copies` layers, once on each, and the
   * layers above them keep their keys.
   */
  lemma AddedShape(layers: seq<seq<Key>>, k: int, copies: nat)
    requires Shape(layers) && Val(k) !in layers[0] && copies >= 1
    ensures Shape(Added(layers, k, copies))
    ensures |Added(layers, k, copies)| == Max(|layers|, copies)
    ensures forall l :: 0 <= l < |Added(layers, k, copies)| ==>
              (Val(k) in Added(layers, k, copies)[l] <==> l < copies)
    ensures multiset(Added(layers, k, copies)[0])[Val(k)] == 1
    ensures forall l :: copies <= l < |layers| ==> Added(layers, k, copies)[l] == layers[l]
  {
    var r := Added(layers, k, copies);
    forall l | 0 <= l < |layers| ensures Val(k) !in layers[l] {
      if Val(k) in layers[l] { InLower(layers, l, 0, Val(k)); }
    }
    forall l | 0 <= l < |r| ensures Bounded(r[l]) && (Val(k) in r[l] <==> l < copies) {
      var base := Base(layers, l);
      assert Bounded(base);
      if l < copies {
        InsertSorted(base, Val(k));
        assert base[0] in base && base[|base| - 1] in base;
        SentinelsAtEnds(r[l]);
      }
    }
    forall l | 1 <= l < |r| ensures NestedAt(r, l) {
      forall i | 0 <= i < |r[l]| ensures r[l][i] in r[l - 1] {
        AddedNested(layers, k, copies, l, r[l][i]);
      }
    }
    SortedOnce(r[0], Val(k));
  }

  /** The key sets of the layers Added builds are nested like those of the original layers. */
  lemma AddedNested(layers: seq<seq<Key>>, k: int, copies: nat, l: nat, x: Key)
    requires Shape(layers) && 1 <= l < Max(|layers|, copies)
    requires x in Added(layers, k, copies)[l]
    ensures x in Added(layers, k, copies)[l - 1]
  {
    var r := Added(layers, k, copies);
    var upper, lower := Base(layers, l), Base(layers, l - 1);
    InsertMembers(lower, Val(k));
    if l < copies {
      assert r[l] == InsertKey(upper, Val(k)) && r[l - 1] == InsertKey(lower, Val(k));
      InsertMembers(upper, Val(k));
      if x != Val(k) {
        BaseNested(layers, l, x);
      }
    } else {
      assert r[l] == upper && r[l - 1] == if l - 1 < copies then InsertKey(lower, Val(k)) else lower;
      BaseNested(layers, l, x);
    }
  }

  /** Remove keeps the shape, keeps every layer, and leaves the key on none of them. */
  lemma EraseShape(layers: seq<seq<Key>>, k: int)
    requires Shape(layers)
    ensures Shape(Erase(layers, k))
    ensures |Erase(layers, k)| == |layers|
    ensures forall l :: 0 <= l < |layers| ==> Val(k) !in Erase(layers, k)[l]
  {
    var r := Erase(layers, k);
    forall l | 0 <= l < |layers| ensures Bounded(r[l]) && Val(k) !in r[l] {
      var ks := layers[l];
      WithoutSorted(ks, Val(k));
      assert ks[0] in ks && ks[|ks| - 1] in ks;
      SentinelsAtEnds(r[l]);
    }
    forall l | 1 <= l < |r| ensures NestedAt(r, l) {
      assert NestedAt(layers, l);
      WithoutSorted(layers[l], Val(k));
      WithoutSorted(layers[l - 1], Val(k));
      forall i | 0 <= i < |r[l]| ensures r[l][i] in r[l - 1] {
        assert r[l][i] in r[l];
      }
    }
  }

  /**
   * Once the key is missing from layer m it is missing from every layer
   * above, so taking it out of the layers below m takes it out everywhere.
   */
  lemma EraseAbsent(layers: seq<seq<Key>>, k: int, m: nat)
    requires Shape(layers) && m <= |layers|
    requires m < |layers| ==> Val(k) !in layers[m]
    ensures EraseBelow(layers, k, m) == Erase(layers, k)
  {
    forall l | m <= l < |layers| ensures Without(layers[l], Val(k)) == layers[l] {
      if Val(k) in layers[l] {
        InLower(layers, l, m, Val(k));
      }
      WithoutMissing(layers[l], Val(k));
    }
  }

  /**
   * Removing a key right after inserting it gives back the original layers,
   * followed by the empty layers the insert created: they are not pruned.
   */
  lemma EraseAdded(layers: seq<seq<Key>>, k: int, copies: nat)
    requires Shape(layers) && Val(k) !in layers[0]
    ensures Erase(Added(layers, k, copies), k) == Grow(layers, k, 0, Max(|layers|, copies))
  {
    var height := Max(|layers|, copies);
    var r := Added(layers, k, copies);
    var e := Erase(r, k);
    var g := Grow(layers, k, 0, height);
    assert |r| == height && |e| == height && |g| == height;
    forall l | 0 <= l < |layers| ensures Val(k) !in layers[l] {
      if Val(k) in layers[l] { InLower(layers, l, 0, Val(k)); }
    }
    forall l | 0 <= l < height ensures e[l] == g[l] {
      var base := Base(layers, l);
      assert g[l] == base;
      assert e[l] == Without(r[l], Val(k));
      assert Val(k) !in base;
      if l < copies {
        assert r[l] == InsertKey(base, Val(k));
        WithoutInsert(base, Val(k));
      } else {
        assert r[l] == base;
        WithoutMissing(base, Val(k));
      }
    }
  }
}
