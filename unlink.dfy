/**
 * One round of remove's loop: the copy x of the key on layer m is
 * bypassed by its two neighbours, and the lattice is left waiting for the
 * copy above x, if any, to be removed next.
 */
module Unlinking {
  import opened Keys
  import opened SortedLayers
  import opened Lattice

  /** Row r without its node at position i. */
  function RemoveAt(r: seq<nat>, i: nat): (s: seq<nat>)
    requires i < |r|
    ensures |s| == |r| - 1
    ensures forall j :: 0 <= j < i ==> s[j] == r[j]
    ensures forall j :: i <= j < |s| ==> s[j] == r[j + 1]
  {
    r[..i] + r[i + 1..]
  }

  /** The arena once p, left of a node, points right to q, right of it, and q points back to p. */
  ghost function Bypass(nodes: seq<Node>, p: nat, q: nat): (r: seq<Node>)
    requires p < |nodes| && q < |nodes|
    ensures |r| == |nodes|
  {
    var n1 := nodes[p := nodes[p].(right := Some(q))];
    n1[q := n1[q].(left := Some(p))]
  }

  /**
   * Where remove unlinks: x at position i of layer m holds the key; the
   * lattice is linked except for the copy of the key on layer m, and the
   * key is gone from every layer below m.
   */
  ghost predicate UnlinkReady(nodes: seq<Node>, rows: seq<seq<nat>>, level: map<nat, nat>, root: nat,
                              m: nat, i: nat, k: int)
  {
    && Linked(nodes, rows, level, root, m, Val(k))
    && m < |rows| && 0 < i < |rows[m]| - 1 && nodes[rows[m][i]].key == Val(k)
    && (forall l :: 0 <= l < m ==> Val(k) !in View(nodes, rows)[l])
  }

  /** The copy of the key is strictly inside its layer, between its two neighbours. */
  lemma UnlinkPlace(nodes: seq<Node>, rows: seq<seq<nat>>, level: map<nat, nat>, root: nat,
                    m: nat, i: nat, k: int)
    requires UnlinkReady(nodes, rows, level, root, m, i, k)
    ensures nodes[rows[m][i]].left == Some(rows[m][i - 1]) && nodes[rows[m][i]].right == Some(rows[m][i + 1])
    ensures rows[m][i - 1] < |nodes| && rows[m][i + 1] < |nodes|
  {
    var r := rows[m];
    assert Horizontal(nodes, r);
    RowLinks(nodes, r, i);
  }

  /** The keys of the layer unlinked from lose the key, in order. */
  lemma UnlinkRowKeys(nodes: seq<Node>, r: seq<nat>, i: nat, k: int, nodes': seq<Node>, r': seq<nat>)
    requires Horizontal(nodes, r) && 0 < i < |r| - 1 && nodes[r[i]].key == Val(k)
    requires nodes' == Bypass(nodes, r[i - 1], r[i + 1]) && r' == RemoveAt(r, i)
    ensures InArena(nodes', r') && KeysOf(nodes', r') == Without(KeysOf(nodes, r), Val(k))
    ensures Bounded(KeysOf(nodes', r'))
  {
    var ks := KeysOf(nodes, r);
    WithoutBetween(ks, i);
    assert ks[i] == Val(k);
    forall j | 0 <= j < |r'| ensures nodes'[r'[j]].key == (ks[..i] + ks[i + 1..])[j] {
    }
    assert KeysOf(nodes', r') == ks[..i] + ks[i + 1..];
  }

  /** The layer unlinked from stays doubly linked from end to end. */
  lemma UnlinkRowLinks(nodes: seq<Node>, r: seq<nat>, i: nat, k: int, nodes': seq<Node>, r': seq<nat>)
    requires Horizontal(nodes, r) && 0 < i < |r| - 1
    requires nodes[r[i]].left == Some(r[i - 1]) && nodes[r[i]].right == Some(r[i + 1])
    requires nodes' == Bypass(nodes, r[i - 1], r[i + 1]) && r' == RemoveAt(r, i)
    requires InArena(nodes', r')
    ensures nodes'[r'[0]].left == None && nodes'[r'[|r'| - 1]].right == None
    ensures forall j :: 0 <= j < |r'| - 1 ==> Adjacent(nodes', r', j)
  {
    RowIndex(nodes, r, i - 1, i + 1);
    forall j | 0 <= j < |r'| - 1 ensures Adjacent(nodes', r', j) {
      if j < i - 1 {
        assert Adjacent(nodes, r, j);
        RowIndex(nodes, r, j, i - 1);
        RowIndex(nodes, r, j + 1, i + 1);
      } else if j >= i {
        assert Adjacent(nodes, r, j + 1);
        RowIndex(nodes, r, j + 1, i - 1);
        RowIndex(nodes, r, j + 2, i + 1);
      }
    }
    RowIndex(nodes, r, 0, i + 1);
    RowIndex(nodes, r, |r| - 1, i - 1);
  }

  /** The layer unlinked from stays a layer, and its keys lose the key. */
  lemma UnlinkRow(nodes: seq<Node>, r: seq<nat>, i: nat, k: int, nodes': seq<Node>, r': seq<nat>)
    requires Horizontal(nodes, r) && 0 < i < |r| - 1 && nodes[r[i]].key == Val(k)
    requires nodes[r[i]].left == Some(r[i - 1]) && nodes[r[i]].right == Some(r[i + 1])
    requires nodes' == Bypass(nodes, r[i - 1], r[i + 1]) && r' == RemoveAt(r, i)
    ensures Horizontal(nodes', r') && KeysOf(nodes', r') == Without(KeysOf(nodes, r), Val(k))
  {
    UnlinkRowKeys(nodes, r, i, k, nodes', r');
    UnlinkRowLinks(nodes, r, i, k, nodes', r');
  }

  /** Every other layer keeps its nodes' keys and horizontal links. */
  lemma UnlinkOthers(nodes: seq<Node>, rows: seq<seq<nat>>, level: map<nat, nat>, root: nat,
                     m: nat, i: nat, k: int, nodes': seq<Node>, l: nat)
    requires UnlinkReady(nodes, rows, level, root, m, i, k)
    requires nodes' == Bypass(nodes, rows[m][i - 1], rows[m][i + 1])
    requires l < |rows| && l != m
    ensures Horizontal(nodes', rows[l]) && KeysOf(nodes', rows[l]) == KeysOf(nodes, rows[l])
  {
    UnlinkPlace(nodes, rows, level, root, m, i, k);
    var r := rows[l];
    assert Horizontal(nodes, r);
    forall j | 0 <= j < |r|
      ensures nodes'[r[j]].key == nodes[r[j]].key && nodes'[r[j]].left == nodes[r[j]].left
              && nodes'[r[j]].right == nodes[r[j]].right
    {
      assert level[r[j]] == l && level[rows[m][i - 1]] == m && level[rows[m][i + 1]] == m;
    }
    RowFrame(nodes, nodes', r);
  }

  /** Every layer is still a layer; layer m loses the key. */
  lemma UnlinkRows(nodes: seq<Node>, rows: seq<seq<nat>>, level: map<nat, nat>, root: nat,
                   m: nat, i: nat, k: int, nodes': seq<Node>, rows': seq<seq<nat>>)
    requires UnlinkReady(nodes, rows, level, root, m, i, k)
    requires nodes' == Bypass(nodes, rows[m][i - 1], rows[m][i + 1]) && rows' == rows[m := RemoveAt(rows[m], i)]
    ensures Rows(nodes', rows')
    ensures View(nodes', rows') == View(nodes, rows)[m := Without(View(nodes, rows)[m], Val(k))]
  {
    UnlinkPlace(nodes, rows, level, root, m, i, k);
    assert Horizontal(nodes, rows[m]);
    UnlinkRow(nodes, rows[m], i, k, nodes', rows'[m]);
    forall l | 0 <= l < |rows'| ensures Horizontal(nodes', rows'[l]) {
      if l != m {
        UnlinkOthers(nodes, rows, level, root, m, i, k, nodes', l);
      }
    }
    forall l | 0 <= l < |rows'|
      ensures View(nodes', rows')[l] == View(nodes, rows)[m := Without(View(nodes, rows)[m], Val(k))][l]
    {
      if l != m {
        UnlinkOthers(nodes, rows, level, root, m, i, k, nodes', l);
      }
    }
  }

  /** Where a node of the new lattice stood before. */
  lemma UnlinkIndex(rows: seq<seq<nat>>, m: nat, i: nat, rows': seq<seq<nat>>, l: nat, j: nat) returns (j0: nat)
    requires m < |rows| && i < |rows[m]| && rows' == rows[m := RemoveAt(rows[m], i)]
    requires l < |rows'| && j < |rows'[l]|
    ensures j0 < |rows[l]| && rows'[l][j] == rows[l][j0] && (l == m ==> j0 != i)
  {
    if l != m || j < i {
      j0 := j;
    } else {
      j0 := j + 1;
    }
  }

  /** Layers, the bottom's missing down links, the top's missing up links and the root stay. */
  lemma UnlinkFrame(nodes: seq<Node>, rows: seq<seq<nat>>, level: map<nat, nat>, root: nat,
                    m: nat, i: nat, k: int, nodes': seq<Node>, rows': seq<seq<nat>>)
    requires UnlinkReady(nodes, rows, level, root, m, i, k)
    requires nodes' == Bypass(nodes, rows[m][i - 1], rows[m][i + 1]) && rows' == rows[m := RemoveAt(rows[m], i)]
    ensures forall l, j :: 0 <= l < |rows'| && 0 <= j < |rows'[l]| ==> rows'[l][j] in level && level[rows'[l][j]] == l
    ensures forall j :: 0 <= j < |rows'[0]| ==> nodes'[rows'[0][j]].down == None
    ensures forall j :: 0 <= j < |Top(rows')| ==> nodes'[Top(rows')[j]].up == None
    ensures root == Top(rows')[0]
  {
    UnlinkPlace(nodes, rows, level, root, m, i, k);
    var t := |rows| - 1;
    forall l, j | 0 <= l < |rows'| && 0 <= j < |rows'[l]| ensures rows'[l][j] in level && level[rows'[l][j]] == l {
      var j0 := UnlinkIndex(rows, m, i, rows', l, j);
    }
    forall j | 0 <= j < |rows'[0]| ensures nodes'[rows'[0][j]].down == None {
      var j0 := UnlinkIndex(rows, m, i, rows', 0, j);
      assert Horizontal(nodes, rows[0]);
    }
    forall j | 0 <= j < |Top(rows')| ensures nodes'[Top(rows')[j]].up == None {
      var j0 := UnlinkIndex(rows, m, i, rows', t, j);
      assert Top(rows)[j0] == rows[t][j0];
      assert Horizontal(nodes, rows[t]);
    }
  }

  /**
   * Every node above the bottom keeps a copy below, except the copy of the
   * key on layer m + 1, whose copy below is the node just unlinked.
   */
  lemma UnlinkDown(nodes: seq<Node>, rows: seq<seq<nat>>, level: map<nat, nat>, root: nat,
                   m: nat, i: nat, k: int, nodes': seq<Node>, rows': seq<seq<nat>>)
    requires UnlinkReady(nodes, rows, level, root, m, i, k)
    requires nodes' == Bypass(nodes, rows[m][i - 1], rows[m][i + 1]) && rows' == rows[m := RemoveAt(rows[m], i)]
    ensures forall l, j {:trigger DownOk(nodes', rows', l, rows'[l][j])} ::
              1 <= l < |rows'| && 0 <= j < |rows'[l]| && !(l == m + 1 && nodes'[rows'[l][j]].key == Val(k)) ==>
              DownOk(nodes', rows', l, rows'[l][j])
  {
    UnlinkPlace(nodes, rows, level, root, m, i, k);
    var x := rows[m][i];
    forall l, j | 1 <= l < |rows'| && 0 <= j < |rows'[l]| && !(l == m + 1 && nodes'[rows'[l][j]].key == Val(k))
      ensures DownOk(nodes', rows', l, rows'[l][j])
    {
      var j0 := UnlinkIndex(rows, m, i, rows', l, j);
      var y := rows[l][j0];
      assert Horizontal(nodes, rows[l]);
      if l == m {
        RowIndex(nodes, rows[m], i, j0);
      }
      assert DownOk(nodes, rows, l, rows[l][j0]);
      var e := nodes[y].down.value;
      var e0 := Position(rows, l - 1, e);
      if l - 1 == m {
        assert e != x;
        if e0 < i {
          assert rows'[m][e0] == e;
        } else {
          assert e0 != i;
          assert rows'[m][e0 - 1] == e;
        }
      } else {
        assert rows'[l - 1] == rows[l - 1];
      }
    }
  }

  /** Every up link leads to a copy above that points back down. */
  lemma UnlinkUp(nodes: seq<Node>, rows: seq<seq<nat>>, level: map<nat, nat>, root: nat,
                 m: nat, i: nat, k: int, nodes': seq<Node>, rows': seq<seq<nat>>)
    requires UnlinkReady(nodes, rows, level, root, m, i, k)
    requires nodes' == Bypass(nodes, rows[m][i - 1], rows[m][i + 1]) && rows' == rows[m := RemoveAt(rows[m], i)]
    ensures forall l, j {:trigger UpOk(nodes', rows', l, rows'[l][j])} ::
              0 <= l < |rows'| - 1 && 0 <= j < |rows'[l]| ==> UpOk(nodes', rows', l, rows'[l][j])
  {
    UnlinkPlace(nodes, rows, level, root, m, i, k);
    var x := rows[m][i];
    forall l, j | 0 <= l < |rows'| - 1 && 0 <= j < |rows'[l]| ensures UpOk(nodes', rows', l, rows'[l][j]) {
      var j0 := UnlinkIndex(rows, m, i, rows', l, j);
      var y := rows[l][j0];
      assert UpOk(nodes, rows, l, rows[l][j0]);
      if nodes[y].up.Some? {
        var u := nodes[y].up.value;
        var u0 := Position(rows, l + 1, u);
        if l + 1 == m {
          assert View(nodes, rows)[l][j0] == nodes[y].key;
          if u0 < i {
            assert rows'[m][u0] == u;
          } else {
            assert rows'[m][u0 - 1] == u;
          }
        } else {
          assert rows'[l + 1] == rows[l + 1];
        }
      }
    }
  }

  /**
   * If the unlinked copy has nothing above it, the key is on no layer above:
   * every copy on layer m + 1 would have pointed down at it.
   */
  lemma UnlinkTopmost(nodes: seq<Node>, rows: seq<seq<nat>>, level: map<nat, nat>, root: nat,
                      m: nat, i: nat, k: int)
    requires UnlinkReady(nodes, rows, level, root, m, i, k) && nodes[rows[m][i]].up.None?
    ensures m + 1 < |rows| ==> Val(k) !in View(nodes, rows)[m + 1]
  {
    if m + 1 < |rows| && Val(k) in View(nodes, rows)[m + 1] {
      var v := View(nodes, rows)[m + 1];
      var j :| 0 <= j < |v| && v[j] == Val(k);
      assert DownOk(nodes, rows, m + 1, rows[m + 1][j]);
      var e0 := Position(rows, m, nodes[rows[m + 1][j]].down.value);
      assert Horizontal(nodes, rows[m]);
      RowIndex(nodes, rows[m], i, e0);
    }
  }

  /**
   * Unlinking keeps the lattice linked with the exemption moved up one
   * layer, and takes the key out of layer m of the abstract value.
   */
  lemma UnlinkKeeps(nodes: seq<Node>, rows: seq<seq<nat>>, level: map<nat, nat>, root: nat,
                    m: nat, i: nat, k: int, nodes': seq<Node>, rows': seq<seq<nat>>)
    requires UnlinkReady(nodes, rows, level, root, m, i, k)
    requires nodes' == Bypass(nodes, rows[m][i - 1], rows[m][i + 1]) && rows' == rows[m := RemoveAt(rows[m], i)]
    ensures Linked(nodes', rows', level, root, m + 1, Val(k))
    ensures View(nodes', rows') == View(nodes, rows)[m := Without(View(nodes, rows)[m], Val(k))]
    ensures nodes'[rows[m][i]].up == nodes[rows[m][i]].up
    ensures nodes[rows[m][i]].up.None? && m + 1 < |rows| ==> Val(k) !in View(nodes', rows')[m + 1]
  {
    UnlinkPlace(nodes, rows, level, root, m, i, k);
    assert Horizontal(nodes, rows[m]);
    RowIndex(nodes, rows[m], i - 1, i);
    RowIndex(nodes, rows[m], i + 1, i);
    UnlinkRows(nodes, rows, level, root, m, i, k, nodes', rows');
    UnlinkFrame(nodes, rows, level, root, m, i, k, nodes', rows');
    UnlinkDown(nodes, rows, level, root, m, i, k, nodes', rows');
    UnlinkUp(nodes, rows, level, root, m, i, k, nodes', rows');
    if nodes[rows[m][i]].up.None? {
      UnlinkTopmost(nodes, rows, level, root, m, i, k);
    }
  }

  /** The copy of the key above the one unlinked on layer m is strictly inside layer m + 1. */
  lemma UnlinkNext(nodes: seq<Node>, rows: seq<seq<nat>>, level: map<nat, nat>, root: nat,
                   m: nat, i: nat, k: int, nodes': seq<Node>, rows': seq<seq<nat>>)
    returns (j: nat)
    requires UnlinkReady(nodes, rows, level, root, m, i, k) && nodes[rows[m][i]].up.Some?
    requires nodes' == Bypass(nodes, rows[m][i - 1], rows[m][i + 1]) && rows' == rows[m := RemoveAt(rows[m], i)]
    ensures m + 1 < |rows'| && 0 < j < |rows'[m + 1]| - 1
    ensures nodes[rows[m][i]].up == Some(rows'[m + 1][j]) && nodes'[rows'[m + 1][j]].key == Val(k)
  {
    UnlinkPlace(nodes, rows, level, root, m, i, k);
    j := Above(nodes, rows, level, root, m, Val(k), m, i);
    assert rows'[m + 1] == rows[m + 1];
    UnlinkRows(nodes, rows, level, root, m, i, k, nodes', rows');
    assert Horizontal(nodes', rows'[m + 1]);
    NumberInside(nodes', rows'[m + 1], j);
  }

  /**
   * One round of remove's loop: the copy on layer m is unlinked, the key
   * is gone from layers 0..m, and the copy above (if any) is the next one,
   * strictly inside its layer.
   */
  lemma UnlinkStep(nodes: seq<Node>, rows: seq<seq<nat>>, level: map<nat, nat>, root: nat,
                   m: nat, i: nat, k: int, before: seq<seq<Key>>, nodes': seq<Node>, rows': seq<seq<nat>>)
    returns (j: nat)
    requires UnlinkReady(nodes, rows, level, root, m, i, k)
    requires Shape(before) && |before| == |rows| && View(nodes, rows) == EraseBelow(before, k, m)
    requires nodes' == Bypass(nodes, rows[m][i - 1], rows[m][i + 1]) && rows' == rows[m := RemoveAt(rows[m], i)]
    ensures Linked(nodes', rows', level, root, m + 1, Val(k))
    ensures View(nodes', rows') == EraseBelow(before, k, m + 1)
    ensures forall l :: 0 <= l <= m ==> Val(k) !in View(nodes', rows')[l]
    ensures nodes'[rows[m][i]].up.Some? ==>
              m + 1 < |rows'| && 0 < j < |rows'[m + 1]| - 1
              && nodes'[rows[m][i]].up == Some(rows'[m + 1][j]) && nodes'[rows'[m + 1][j]].key == Val(k)
    ensures nodes'[rows[m][i]].up.None? ==> m + 1 == |rows| || Val(k) !in before[m + 1]
  {
    var v := View(nodes, rows);
    UnlinkKeeps(nodes, rows, level, root, m, i, k, nodes', rows');
    assert Horizontal(nodes, rows[m]);
    WithoutSorted(v[m], Val(k));
    var v' := View(nodes', rows');
    assert v' == EraseBelow(before, k, m + 1);
    j := 0;
    if nodes[rows[m][i]].up.Some? {
      j := UnlinkNext(nodes, rows, level, root, m, i, k, nodes', rows');
    }
  }

  /**
   * The state at the head of remove's loop: the key is gone from the
   * layers below m, and p, if any, is its copy at position i of layer m;
   * when p is None the key is on no layer from m up.
   */
  ghost predicate UnlinkLoop(nodes: seq<Node>, rows: seq<seq<nat>>, level: map<nat, nat>, root: nat,
                             before: seq<seq<Key>>, k: int, m: nat, i: nat, p: Link)
  {
    && Linked(nodes, rows, level, root, m, Val(k))
    && Shape(before) && |rows| == |before| && m <= |rows|
    && View(nodes, rows) == EraseBelow(before, k, m)
    && (forall l :: 0 <= l < m ==> Val(k) !in View(nodes, rows)[l])
    && (p.Some? ==> m < |rows| && 0 < i < |rows[m]| - 1 && p.value == rows[m][i] && nodes[p.value].key == Val(k))
    && (p.None? ==> m == |rows| || Val(k) !in before[m])
  }

  /** Remove's loop starts at the copy of the key in the bottom layer, with nothing erased yet. */
  lemma UnlinkEnter(nodes: seq<Node>, rows: seq<seq<nat>>, level: map<nat, nat>, root: nat, k: int, i: nat)
    requires WellFormed(nodes, rows, level, root) && i < |rows[0]| && nodes[rows[0][i]].key == Val(k)
    ensures UnlinkLoop(nodes, rows, level, root, View(nodes, rows), k, 0, i, Some(rows[0][i]))
  {
    var before := View(nodes, rows);
    ViewShape(nodes, rows, level, root);
    assert EraseBelow(before, k, 0) == before;
    GapOpen(nodes, rows, level, root, Val(k));
    assert Horizontal(nodes, rows[0]);
    NumberInside(nodes, rows[0], i);
  }

  /** When remove's loop ends the lattice is whole again and holds no copy of the key. */
  lemma UnlinkExit(nodes: seq<Node>, rows: seq<seq<nat>>, level: map<nat, nat>, root: nat,
                   before: seq<seq<Key>>, k: int, m: nat, i: nat)
    requires UnlinkLoop(nodes, rows, level, root, before, k, m, i, None)
    ensures WellFormed(nodes, rows, level, root) && View(nodes, rows) == Erase(before, k)
  {
    EraseAbsent(before, k, m);
    GapClosed(nodes, rows, level, root, m, Val(k));
  }
}
