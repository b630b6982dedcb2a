/**
 * One round of insert's main loop: a new node holding the key is linked
 * into a layer between p1 and p1's right neighbour, and above the copy
 * made on the layer below.
 */
module Splicing {
  import opened Keys
  import opened SortedLayers
  import opened Lattice
  import opened Promotion

  /** Row r with node x placed right after position a. */
  function InsertAfter(r: seq<nat>, a: nat, x: nat): (s: seq<nat>)
    requires a < |r|
    ensures |s| == |r| + 1 && s[a + 1] == x
    ensures forall j :: 0 <= j <= a ==> s[j] == r[j]
    ensures forall j :: a + 1 < j < |s| ==> s[j] == r[j - 1]
  {
    r[..a + 1] + [x] + r[a + 1..]
  }

  /**
   * The arena once a node holding k is appended and linked between p1 and
   * q, with `down` (if any) as the copy below it.
   */
  ghost function Splice(nodes: seq<Node>, p1: nat, q: nat, k: Key, down: Link): (r: seq<Node>)
    requires p1 < |nodes| && q < |nodes| && (down.Some? ==> down.value < |nodes|)
    ensures |r| == |nodes| + 1
  {
    var n := |nodes|;
    var linked := nodes[p1 := nodes[p1].(right := Some(n))][q := nodes[q].(left := Some(n))]
                  + [Node(k, Some(p1), Some(q), None, down)];
    if down.Some? then linked[down.value := linked[down.value].(up := Some(n))] else linked
  }

  /**
   * Where insert splices: layer h at position a, with the key strictly
   * between the keys at a and a + 1; on layers above the bottom, `down` is
   * the copy just made on the layer below, which has no up link yet.
   */
  ghost predicate SpliceReady(nodes: seq<Node>, rows: seq<seq<nat>>, level: map<nat, nat>, root: nat,
                              h: nat, a: nat, k: int, down: Link)
  {
    && WellFormed(nodes, rows, level, root)
    && h < |rows| && a + 1 < |rows[h]|
    && Before(nodes[rows[h][a]].key, Val(k)) && Before(Val(k), nodes[rows[h][a + 1]].key)
    && (h == 0 <==> down.None?)
    && (down.Some? ==>
          down.value < |nodes| && down.value in rows[h - 1]
          && nodes[down.value].key == Val(k) && nodes[down.value].up.None?)
  }

  /** The keys of the layer spliced into gain the key, in order. */
  lemma SpliceRowKeys(nodes: seq<Node>, r: seq<nat>, a: nat, k: int, down: Link, nodes': seq<Node>, r': seq<nat>)
    requires Horizontal(nodes, r) && a + 1 < |r|
    requires Before(nodes[r[a]].key, Val(k)) && Before(Val(k), nodes[r[a + 1]].key)
    requires down.Some? ==> down.value < |nodes|
    requires nodes' == Splice(nodes, r[a], r[a + 1], Val(k), down)
    requires r' == InsertAfter(r, a, |nodes|)
    ensures InArena(nodes', r') && KeysOf(nodes', r') == InsertKey(KeysOf(nodes, r), Val(k))
    ensures Bounded(KeysOf(nodes', r'))
  {
    var ks := KeysOf(nodes, r);
    InsertBetween(ks, Val(k), a);
    SpliceKeyFrame(nodes, r[a], r[a + 1], Val(k), down, nodes');
    forall j | 0 <= j < |r'| ensures nodes'[r'[j]].key == (ks[..a + 1] + [Val(k)] + ks[a + 1..])[j] {
      if j > a + 1 {
        assert r'[j] == r[j - 1];
      }
    }
    assert KeysOf(nodes', r') == ks[..a + 1] + [Val(k)] + ks[a + 1..];
  }

  /** The layer spliced into stays doubly linked from end to end. */
  lemma SpliceRowLinks(nodes: seq<Node>, r: seq<nat>, a: nat, k: int, down: Link, nodes': seq<Node>, r': seq<nat>)
    requires Horizontal(nodes, r) && a + 1 < |r|
    requires Before(nodes[r[a]].key, Val(k)) && Before(Val(k), nodes[r[a + 1]].key)
    requires down.Some? ==> down.value < |nodes|
    requires nodes' == Splice(nodes, r[a], r[a + 1], Val(k), down)
    requires r' == InsertAfter(r, a, |nodes|)
    requires InArena(nodes', r')
    ensures nodes'[r'[0]].left == None && nodes'[r'[|r'| - 1]].right == None
    ensures forall j :: 0 <= j < |r'| - 1 ==> Adjacent(nodes', r', j)
  {
    RowIndex(nodes, r, a, a + 1);
    forall j | 0 <= j < |r'| - 1 ensures Adjacent(nodes', r', j) {
      if j < a {
        assert Adjacent(nodes, r, j);
        RowIndex(nodes, r, j, a);
        RowIndex(nodes, r, j, a + 1);
        RowIndex(nodes, r, j + 1, a + 1);
      } else if j > a + 1 {
        assert Adjacent(nodes, r, j - 1);
        RowIndex(nodes, r, j - 1, a);
        RowIndex(nodes, r, j, a);
        RowIndex(nodes, r, j, a + 1);
      }
    }
    RowIndex(nodes, r, 0, a + 1);
    RowIndex(nodes, r, |r| - 1, a);
  }

  /** The layer spliced into stays a layer, and its keys gain the key. */
  lemma SpliceRow(nodes: seq<Node>, r: seq<nat>, a: nat, k: int, down: Link, nodes': seq<Node>, r': seq<nat>)
    requires Horizontal(nodes, r) && a + 1 < |r|
    requires Before(nodes[r[a]].key, Val(k)) && Before(Val(k), nodes[r[a + 1]].key)
    requires down.Some? ==> down.value < |nodes|
    requires nodes' == Splice(nodes, r[a], r[a + 1], Val(k), down)
    requires r' == InsertAfter(r, a, |nodes|)
    ensures Horizontal(nodes', r') && KeysOf(nodes', r') == InsertKey(KeysOf(nodes, r), Val(k))
  {
    SpliceRowKeys(nodes, r, a, k, down, nodes', r');
    SpliceRowLinks(nodes, r, a, k, down, nodes', r');
  }

  /** Every other layer keeps its nodes' keys and horizontal links. */
  lemma SpliceOthers(nodes: seq<Node>, rows: seq<seq<nat>>, level: map<nat, nat>, root: nat,
                     h: nat, a: nat, k: int, down: Link, nodes': seq<Node>, l: nat)
    requires SpliceReady(nodes, rows, level, root, h, a, k, down)
    requires nodes' == Splice(nodes, rows[h][a], rows[h][a + 1], Val(k), down)
    requires l < |rows| && l != h
    ensures Horizontal(nodes', rows[l]) && KeysOf(nodes', rows[l]) == KeysOf(nodes, rows[l])
  {
    var r := rows[l];
    assert Horizontal(nodes, r);
    forall i | 0 <= i < |r|
      ensures nodes'[r[i]].key == nodes[r[i]].key && nodes'[r[i]].left == nodes[r[i]].left
              && nodes'[r[i]].right == nodes[r[i]].right
    {
      assert level[r[i]] == l && level[rows[h][a]] == h && level[rows[h][a + 1]] == h;
    }
    RowFrame(nodes, nodes', r);
  }

  /** The copy below the new node sits on layer h - 1, away from p1 and q. */
  lemma DownApart(nodes: seq<Node>, rows: seq<seq<nat>>, level: map<nat, nat>, root: nat,
                  h: nat, a: nat, k: int, down: Link) returns (e: nat)
    requires SpliceReady(nodes, rows, level, root, h, a, k, down) && down.Some?
    ensures e < |rows[h - 1]| && rows[h - 1][e] == down.value
    ensures down.value != rows[h][a] && down.value != rows[h][a + 1]
  {
    e := Position(rows, h - 1, down.value);
    assert level[rows[h - 1][e]] == h - 1 && level[rows[h][a]] == h && level[rows[h][a + 1]] == h;
  }

  /** The spliced lattice's layers hold the old ones' nodes. */
  lemma SpliceMembers(rows: seq<seq<nat>>, h: nat, a: nat, x: nat, rows': seq<seq<nat>>)
    requires h < |rows| && a + 1 < |rows[h]| && rows' == rows[h := InsertAfter(rows[h], a, x)]
    ensures |rows'| == |rows|
    ensures forall l, y :: 0 <= l < |rows| && y in rows[l] ==> y in rows'[l]
  {
    var s := rows'[h];
    forall y | y in rows[h] ensures y in s {
      var i :| 0 <= i < |rows[h]| && rows[h][i] == y;
      if i <= a {
        assert s[i] == y;
      } else {
        assert s[i + 1] == y;
      }
    }
  }

  /** Where a node of the spliced lattice, other than the new one, stood before. */
  lemma SpliceIndex(rows: seq<seq<nat>>, h: nat, a: nat, x: nat, rows': seq<seq<nat>>, l: nat, i: nat)
    returns (i0: nat)
    requires h < |rows| && a + 1 < |rows[h]| && rows' == rows[h := InsertAfter(rows[h], a, x)]
    requires l < |rows'| && i < |rows'[l]| && !(l == h && i == a + 1)
    ensures i0 < |rows[l]| && rows'[l][i] == rows[l][i0]
  {
    if l != h || i <= a {
      i0 := i;
    } else {
      i0 := i - 1;
    }
  }

  /** Every node above the bottom of the spliced lattice keeps a copy below that points back up. */
  lemma SpliceDown(nodes: seq<Node>, rows: seq<seq<nat>>, level: map<nat, nat>, root: nat,
                   h: nat, a: nat, k: int, down: Link, nodes': seq<Node>, rows': seq<seq<nat>>)
    requires SpliceReady(nodes, rows, level, root, h, a, k, down)
    requires nodes' == Splice(nodes, rows[h][a], rows[h][a + 1], Val(k), down)
    requires rows' == rows[h := InsertAfter(rows[h], a, |nodes|)]
    ensures forall l, i {:trigger DownOk(nodes', rows', l, rows'[l][i])} ::
              1 <= l < |rows'| && 0 <= i < |rows'[l]| ==> DownOk(nodes', rows', l, rows'[l][i])
  {
    SpliceMembers(rows, h, a, |nodes|, rows');
    var p1, q := rows[h][a], rows[h][a + 1];
    forall l, i | 1 <= l < |rows'| && 0 <= i < |rows'[l]| ensures DownOk(nodes', rows', l, rows'[l][i]) {
      var x := rows'[l][i];
      if l == h && i == a + 1 {
        var e := DownApart(nodes, rows, level, root, h, a, k, down);
        assert nodes'[down.value].up == Some(|nodes|);
      } else {
        var i0 := SpliceIndex(rows, h, a, |nodes|, rows', l, i);
        assert DownOk(nodes, rows, l, rows[l][i0]);
        var e := nodes[x].down.value;
        assert nodes'[x].down == nodes[x].down;
        assert nodes'[e].key == nodes[e].key;
        assert nodes'[e].up == nodes[e].up;
      }
    }
  }

  /** Every up link of the spliced lattice leads to a copy above that points back down. */
  lemma SpliceUp(nodes: seq<Node>, rows: seq<seq<nat>>, level: map<nat, nat>, root: nat,
                 h: nat, a: nat, k: int, down: Link, nodes': seq<Node>, rows': seq<seq<nat>>)
    requires SpliceReady(nodes, rows, level, root, h, a, k, down)
    requires nodes' == Splice(nodes, rows[h][a], rows[h][a + 1], Val(k), down)
    requires rows' == rows[h := InsertAfter(rows[h], a, |nodes|)]
    ensures forall l, i {:trigger UpOk(nodes', rows', l, rows'[l][i])} ::
              0 <= l < |rows'| - 1 && 0 <= i < |rows'[l]| ==> UpOk(nodes', rows', l, rows'[l][i])
  {
    SpliceMembers(rows, h, a, |nodes|, rows');
    var p1, q := rows[h][a], rows[h][a + 1];
    forall l, i | 0 <= l < |rows'| - 1 && 0 <= i < |rows'[l]| ensures UpOk(nodes', rows', l, rows'[l][i]) {
      var x := rows'[l][i];
      if l == h && i == a + 1 {
      } else if down == Some(x) {
        var e := DownApart(nodes, rows, level, root, h, a, k, down);
        assert rows'[h][a + 1] == |nodes|;
      } else {
        var i0 := SpliceIndex(rows, h, a, |nodes|, rows', l, i);
        assert UpOk(nodes, rows, l, rows[l][i0]);
        assert nodes'[x].up == nodes[x].up;
        if nodes[x].up.Some? {
          var u := nodes[x].up.value;
          assert nodes'[u].key == nodes[u].key && nodes'[u].down == nodes[u].down;
        }
      }
    }
  }

  /** Every layer of the spliced lattice is a layer; only layer h changes its keys. */
  lemma SpliceRows(nodes: seq<Node>, rows: seq<seq<nat>>, level: map<nat, nat>, root: nat,
                    h: nat, a: nat, k: int, down: Link, nodes': seq<Node>, rows': seq<seq<nat>>)
    requires SpliceReady(nodes, rows, level, root, h, a, k, down)
    requires nodes' == Splice(nodes, rows[h][a], rows[h][a + 1], Val(k), down)
    requires rows' == rows[h := InsertAfter(rows[h], a, |nodes|)]
    ensures Rows(nodes', rows')
    ensures View(nodes', rows') == View(nodes, rows)[h := InsertKey(View(nodes, rows)[h], Val(k))]
  {
    assert Horizontal(nodes, rows[h]);
    SpliceRow(nodes, rows[h], a, k, down, nodes', rows'[h]);
    forall l | 0 <= l < |rows'| ensures Horizontal(nodes', rows'[l]) {
      if l != h {
        SpliceOthers(nodes, rows, level, root, h, a, k, down, nodes', l);
      }
    }
    forall l | 0 <= l < |rows'|
      ensures View(nodes', rows')[l] == View(nodes, rows)[h := InsertKey(View(nodes, rows)[h], Val(k))][l]
    {
      if l != h {
        SpliceOthers(nodes, rows, level, root, h, a, k, down, nodes', l);
      }
    }
  }

  /** The new node stands on layer h; every other node keeps its layer. */
  lemma SpliceLevels(nodes: seq<Node>, rows: seq<seq<nat>>, level: map<nat, nat>, root: nat,
                    h: nat, a: nat, k: int, down: Link, nodes': seq<Node>, rows': seq<seq<nat>>)
    requires SpliceReady(nodes, rows, level, root, h, a, k, down)
    requires nodes' == Splice(nodes, rows[h][a], rows[h][a + 1], Val(k), down)
    requires rows' == rows[h := InsertAfter(rows[h], a, |nodes|)]
    ensures forall l, i :: 0 <= l < |rows'| && 0 <= i < |rows'[l]| ==>
              rows'[l][i] in level[|nodes| := h] && level[|nodes| := h][rows'[l][i]] == l
  {
    var level' := level[|nodes| := h];
    forall l, i | 0 <= l < |rows'| && 0 <= i < |rows'[l]| ensures rows'[l][i] in level' && level'[rows'[l][i]] == l {
      if !(l == h && i == a + 1) {
        var i0 := SpliceIndex(rows, h, a, |nodes|, rows', l, i);
        assert Horizontal(nodes, rows[l]);
      }
    }
  }

  /** The bottom layer still has no down links. */
  lemma SpliceBottom(nodes: seq<Node>, rows: seq<seq<nat>>, level: map<nat, nat>, root: nat,
                    h: nat, a: nat, k: int, down: Link, nodes': seq<Node>, rows': seq<seq<nat>>)
    requires SpliceReady(nodes, rows, level, root, h, a, k, down)
    requires nodes' == Splice(nodes, rows[h][a], rows[h][a + 1], Val(k), down)
    requires rows' == rows[h := InsertAfter(rows[h], a, |nodes|)]
    ensures forall i :: 0 <= i < |rows'[0]| ==> nodes'[rows'[0][i]].down == None
  {
    forall i | 0 <= i < |rows'[0]| ensures nodes'[rows'[0][i]].down == None {
      if !(h == 0 && i == a + 1) {
        var i0 := SpliceIndex(rows, h, a, |nodes|, rows', 0, i);
        assert Horizontal(nodes, rows[0]);
      }
    }
  }

  /** The copy below the new node is not on the top layer. */
  lemma DownBelowTop(nodes: seq<Node>, rows: seq<seq<nat>>, level: map<nat, nat>, root: nat,
                     h: nat, a: nat, k: int, down: Link)
    requires SpliceReady(nodes, rows, level, root, h, a, k, down)
    ensures forall i :: 0 <= i < |Top(rows)| ==> down != Some(Top(rows)[i])
  {
    if down.Some? {
      var e := DownApart(nodes, rows, level, root, h, a, k, down);
      forall i | 0 <= i < |Top(rows)| ensures down != Some(Top(rows)[i]) {
        assert level[rows[h - 1][e]] == h - 1 && level[Top(rows)[i]] == |rows| - 1;
      }
    }
  }

  /** The top layer still has no up links, and the root stays its first node. */
  lemma SpliceTop(nodes: seq<Node>, rows: seq<seq<nat>>, root: nat,
                  h: nat, a: nat, k: int, down: Link, nodes': seq<Node>, rows': seq<seq<nat>>)
    requires |rows| >= 1 && h < |rows| && a + 1 < |rows[h]| && |Top(rows)| >= 1 && root == Top(rows)[0]
    requires rows[h][a] < |nodes| && rows[h][a + 1] < |nodes| && (down.Some? ==> down.value < |nodes|)
    requires forall i :: 0 <= i < |Top(rows)| ==> Top(rows)[i] < |nodes| && nodes[Top(rows)[i]].up == None
    requires forall i :: 0 <= i < |Top(rows)| ==> down != Some(Top(rows)[i])
    requires nodes' == Splice(nodes, rows[h][a], rows[h][a + 1], Val(k), down)
    requires rows' == rows[h := InsertAfter(rows[h], a, |nodes|)]
    ensures forall i :: 0 <= i < |Top(rows')| ==> nodes'[Top(rows')[i]].up == None
    ensures root == Top(rows')[0]
  {
    var t := |rows| - 1;
    SpliceUpFrame(nodes, rows[h][a], rows[h][a + 1], Val(k), down, nodes');
    forall i | 0 <= i < |Top(rows')| ensures nodes'[Top(rows')[i]].up == None {
      if !(h == t && i == a + 1) {
        var i0 := SpliceIndex(rows, h, a, |nodes|, rows', t, i);
        assert Top(rows')[i] == Top(rows)[i0];
      }
    }
  }

  /** Splicing keeps every key and gives the new node the key spliced in. */
  lemma SpliceKeyFrame(nodes: seq<Node>, p1: nat, q: nat, k: Key, down: Link, nodes': seq<Node>)
    requires p1 < |nodes| && q < |nodes| && (down.Some? ==> down.value < |nodes|)
    requires nodes' == Splice(nodes, p1, q, k, down)
    ensures forall x :: 0 <= x < |nodes| ==> nodes'[x].key == nodes[x].key
    ensures nodes'[|nodes|].key == k
  {
  }

  /** Splicing sets only the up link of the copy below; the new node has none. */
  lemma SpliceUpFrame(nodes: seq<Node>, p1: nat, q: nat, k: Key, down: Link, nodes': seq<Node>)
    requires p1 < |nodes| && q < |nodes| && (down.Some? ==> down.value < |nodes|)
    requires nodes' == Splice(nodes, p1, q, k, down)
    ensures forall x :: 0 <= x < |nodes| && down != Some(x) ==> nodes'[x].up == nodes[x].up
    ensures nodes'[|nodes|].up == None
  {
  }

  /**
   * Splicing keeps the lattice well formed, and its abstract value gains
   * the key on layer h.
   */
  lemma SpliceKeeps(nodes: seq<Node>, rows: seq<seq<nat>>, level: map<nat, nat>, root: nat,
                    h: nat, a: nat, k: int, down: Link, nodes': seq<Node>, rows': seq<seq<nat>>)
    requires SpliceReady(nodes, rows, level, root, h, a, k, down)
    requires nodes' == Splice(nodes, rows[h][a], rows[h][a + 1], Val(k), down)
    requires rows' == rows[h := InsertAfter(rows[h], a, |nodes|)]
    ensures WellFormed(nodes', rows', level[|nodes| := h], root)
    ensures View(nodes', rows') == View(nodes, rows)[h := InsertKey(View(nodes, rows)[h], Val(k))]
    ensures rows'[h][a + 1] == |nodes| && nodes'[|nodes|].up.None?
  {
    SpliceRows(nodes, rows, level, root, h, a, k, down, nodes', rows');
    SpliceLevels(nodes, rows, level, root, h, a, k, down, nodes', rows');
    SpliceBottom(nodes, rows, level, root, h, a, k, down, nodes', rows');
    assert Horizontal(nodes, rows[h]);
    DownBelowTop(nodes, rows, level, root, h, a, k, down);
    SpliceTop(nodes, rows, root, h, a, k, down, nodes', rows');
    SpliceDown(nodes, rows, level, root, h, a, k, down, nodes', rows');
    SpliceUp(nodes, rows, level, root, h, a, k, down, nodes', rows');
  }

  /** Where the new node goes: p1 and its right neighbour q are linked, distinct, and apart from `down`. */
  lemma SpliceLinks(nodes: seq<Node>, rows: seq<seq<nat>>, level: map<nat, nat>, root: nat,
                    h: nat, a: nat, k: int, down: Link)
    requires SpliceReady(nodes, rows, level, root, h, a, k, down)
    ensures rows[h][a] < |nodes| && rows[h][a + 1] < |nodes| && rows[h][a] != rows[h][a + 1]
    ensures nodes[rows[h][a]].right == Some(rows[h][a + 1])
    ensures down.Some? ==> down.value != rows[h][a] && down.value != rows[h][a + 1]
  {
    assert Horizontal(nodes, rows[h]);
    RowLinks(nodes, rows[h], a);
    RowIndex(nodes, rows[h], a, a + 1);
    if down.Some? {
      var e := DownApart(nodes, rows, level, root, h, a, k, down);
    }
  }

  /**
   * After the walk left on layer h from the new copy at j to the nearest
   * node a with a copy above: the next copy goes on layer h + 1 right of
   * that copy above, at position c, with the copy at j below it.
   */
  lemma SpliceAbove(nodes: seq<Node>, rows: seq<seq<nat>>, level: map<nat, nat>, root: nat,
                    h: nat, a: nat, j: nat, k: int) returns (c: nat)
    requires WellFormed(nodes, rows, level, root) && h + 1 < |rows| && a < j < |rows[h]|
    requires nodes[rows[h][a]].up.Some? && nodes[rows[h][j]].key == Val(k)
    requires forall b :: a < b <= j ==> nodes[rows[h][b]].up.None?
    ensures SpliceReady(nodes, rows, level, root, h + 1, c, k, Some(rows[h][j]))
    ensures nodes[rows[h][a]].up == Some(rows[h + 1][c])
  {
    c := PastAbove(nodes, rows, level, root, h, a, j);
    assert Horizontal(nodes, rows[h]);
    RowOrder(nodes, rows[h], a, j);
    assert rows[h + 1 - 1] == rows[h];
    assert nodes[rows[h][j]].up.None?;
  }

  /** Insert grows the bottom row by exactly one node. */
  lemma AddedBottomRow(nodes: seq<Node>, rows: seq<seq<nat>>, nodes': seq<Node>, rows': seq<seq<nat>>, k: int, copies: nat)
    requires Rows(nodes, rows) && Rows(nodes', rows') && |rows| >= 1 && copies >= 1
    requires View(nodes', rows') == Added(View(nodes, rows), k, copies)
    ensures |rows'[0]| == |rows[0]| + 1
  {
    AddedBottom(View(nodes, rows), k, copies);
    assert |View(nodes', rows')[0]| == |rows'[0]|;
    assert |View(nodes, rows)[0]| == |rows[0]|;
  }

  /**
   * The state at the head of insert's loop: a copy of the key is due in
   * layer h, right of p1 at position a and above pDown; the key is already
   * on the layers below h; and the calls of random() still to come account
   * for the rest of the `total` promotions.
   */
  ghost predicate SpliceLoop(nodes: seq<Node>, rows: seq<seq<nat>>, level: map<nat, nat>, root: nat,
                             forced: nat, flag: bool, before: seq<seq<Key>>, k: int, coins: seq<bool>, total: nat,
                             h: nat, a: nat, down: Link, p1: nat)
  {
    && SpliceReady(nodes, rows, level, root, h, a, k, down) && p1 == rows[h][a]
    && View(nodes, rows) == Grow(before, k, h, Max(|before|, h + 1))
    && h + Promotions(forced, flag, coins, h) == total
  }

  /** The state once insert's loop is over: the key has all its copies and no promotion is left forced. */
  ghost predicate SpliceDone(nodes: seq<Node>, rows: seq<seq<nat>>, level: map<nat, nat>, root: nat,
                             forced: nat, flag: bool, before: seq<seq<Key>>, k: int, total: nat)
  {
    && WellFormed(nodes, rows, level, root)
    && View(nodes, rows) == Added(before, k, 1 + total)
    && forced == 0 && !flag
  }

  /** The state at the head of insert's loop while it promotes, and once it is over otherwise. */
  ghost predicate SpliceState(nodes: seq<Node>, rows: seq<seq<nat>>, level: map<nat, nat>, root: nat,
                              forced: nat, flag: bool, before: seq<seq<Key>>, k: int, coins: seq<bool>, total: nat,
                              promote: bool, h: nat, a: nat, down: Link, p1: nat)
  {
    if promote then SpliceLoop(nodes, rows, level, root, forced, flag, before, k, coins, total, h, a, down, p1)
    else SpliceDone(nodes, rows, level, root, forced, flag, before, k, total)
  }

  /** Insert's loop starts on the bottom layer, with the lattice as it was. */
  lemma SpliceEnter(nodes: seq<Node>, rows: seq<seq<nat>>, level: map<nat, nat>, root: nat,
                    forced: nat, flag: bool, before: seq<seq<Key>>, k: int, coins: seq<bool>, total: nat,
                    a: nat, p: nat)
    requires SpliceReady(nodes, rows, level, root, 0, a, k, None) && p == rows[0][a]
    requires before == View(nodes, rows) && total == Promotions(forced, flag, coins, 0)
    ensures SpliceLoop(nodes, rows, level, root, forced, flag, before, k, coins, total, 0, a, None, p)
  {
    assert Grow(before, k, 0, |before|) == before;
  }

  /** Insert splices into the bottom layer right of the node search stopped on, when that node does not hold the key. */
  lemma SpliceStart(nodes: seq<Node>, rows: seq<seq<nat>>, level: map<nat, nat>, root: nat, i: nat, k: int)
    requires WellFormed(nodes, rows, level, root) && i + 1 < |rows[0]|
    requires AtMost(nodes[rows[0][i]].key, k) && nodes[rows[0][i]].key != Val(k)
    requires Before(Val(k), nodes[rows[0][i + 1]].key)
    ensures SpliceReady(nodes, rows, level, root, 0, i, k, None)
  {
  }
}
