/**
 * The four-way linked lattice of a skip list, as an arena: nodes are
 * addressed by their index in a sequence and refer to their neighbours by
 * index. The ghost `rows` lists, for each layer from the bottom up, the
 * nodes of that layer from left to right; `level` maps a node to its layer.
 */
module Lattice {
  import opened Keys
  import opened SortedLayers

  datatype Option<T> = None | Some(value: T)

  /** A neighbour reference: an arena index, or none (`undefined` in the source). */
  type Link = Option<nat>

  /** A node of the lattice: its key and its four neighbours. */
  datatype Node = Node(key: Key, left: Link, right: Link, up: Link, down: Link)

  ghost predicate InArena(nodes: seq<Node>, r: seq<nat>)
  {
    forall i :: 0 <= i < |r| ==> r[i] < |nodes|
  }

  /** The keys of a row of nodes, left to right. */
  ghost function KeysOf(nodes: seq<Node>, r: seq<nat>): seq<Key>
    requires InArena(nodes, r)
  {
    seq(|r|, i requires 0 <= i < |r| => nodes[r[i]].key)
  }

  /** The nodes at i and i + 1 of a row point at each other. */
  ghost predicate Adjacent(nodes: seq<Node>, r: seq<nat>, i: nat)
    requires InArena(nodes, r) && i + 1 < |r|
  {
    nodes[r[i]].right == Some(r[i + 1]) && nodes[r[i + 1]].left == Some(r[i])
  }

  /**
   * One layer: a doubly linked list from a left sentinel to a right
   * sentinel whose keys strictly increase.
   */
  ghost predicate Horizontal(nodes: seq<Node>, r: seq<nat>)
  {
    && InArena(nodes, r)
    && Bounded(KeysOf(nodes, r))
    && nodes[r[0]].left == None
    && nodes[r[|r| - 1]].right == None
    && (forall i :: 0 <= i < |r| - 1 ==> Adjacent(nodes, r, i))
  }

  ghost predicate Rows(nodes: seq<Node>, rows: seq<seq<nat>>)
  {
    forall l :: 0 <= l < |rows| ==> Horizontal(nodes, rows[l])
  }

  /** Node x of layer l has a copy below it that points back up at it. */
  ghost predicate DownOk(nodes: seq<Node>, rows: seq<seq<nat>>, l: nat, x: nat)
    requires 1 <= l < |rows|
  {
    && x < |nodes|
    && nodes[x].down.Some?
    && var d := nodes[x].down.value;
       d < |nodes| && d in rows[l - 1] && nodes[d].key == nodes[x].key && nodes[d].up == Some(x)
  }

  /** If node x of layer l has an up link, it leads to a copy above that points back down. */
  ghost predicate UpOk(nodes: seq<Node>, rows: seq<seq<nat>>, l: nat, x: nat)
    requires l + 1 < |rows|
  {
    && x < |nodes|
    && (nodes[x].up.Some? ==>
          var u := nodes[x].up.value;
          u < |nodes| && u in rows[l + 1] && nodes[u].key == nodes[x].key && nodes[u].down == Some(x))
  }

  /** The top layer. */
  ghost function Top(rows: seq<seq<nat>>): seq<nat>
    requires |rows| >= 1
  {
    rows[|rows| - 1]
  }

  /**
   * The lattice invariant, with one exemption used while remove climbs a
   * column: the copy of key k on layer `gap` need not have a copy below.
   * With gap 0 there is no exemption (see WellFormed).
   */
  ghost predicate Linked(nodes: seq<Node>, rows: seq<seq<nat>>, level: map<nat, nat>, root: nat, gap: nat, k: Key)
  {
    && |rows| >= 1
    && Rows(nodes, rows)
    && (forall l, i :: 0 <= l < |rows| && 0 <= i < |rows[l]| ==> rows[l][i] in level && level[rows[l][i]] == l)
    && root == Top(rows)[0]
    && (forall i :: 0 <= i < |rows[0]| ==> nodes[rows[0][i]].down == None)
    && (forall i :: 0 <= i < |Top(rows)| ==> nodes[Top(rows)[i]].up == None)
    && (forall l, i {:trigger DownOk(nodes, rows, l, rows[l][i])} ::
          1 <= l < |rows| && 0 <= i < |rows[l]| && !(l == gap && nodes[rows[l][i]].key == k) ==>
          DownOk(nodes, rows, l, rows[l][i]))
    && (forall l, i {:trigger UpOk(nodes, rows, l, rows[l][i])} ::
          0 <= l < |rows| - 1 && 0 <= i < |rows[l]| ==> UpOk(nodes, rows, l, rows[l][i]))
  }

  /**
   * Every layer bounded by its sentinels and sorted; every node above the
   * bottom linked to the copy of its key below; the root the top-left sentinel.
   */
  ghost predicate WellFormed(nodes: seq<Node>, rows: seq<seq<nat>>, level: map<nat, nat>, root: nat)
  {
    Linked(nodes, rows, level, root, 0, LeftSentinel)
  }

  /** The abstract value: the keys of every layer, bottom layer first. */
  ghost function View(nodes: seq<Node>, rows: seq<seq<nat>>): (v: seq<seq<Key>>)
    requires Rows(nodes, rows)
    ensures |v| == |rows|
  {
    seq(|rows|, l requires 0 <= l < |rows| => KeysOf(nodes, rows[l]))
  }

  // ---------------------------------------------------------------------
  // Facts about one layer
  // ---------------------------------------------------------------------

  lemma RowOrder(nodes: seq<Node>, r: seq<nat>, a: nat, b: nat)
    requires Horizontal(nodes, r) && a < b < |r|
    ensures Before(nodes[r[a]].key, nodes[r[b]].key)
  {
    SortedAt(KeysOf(nodes, r), a, b);
  }

  /** Within a layer a node, and a key, stands at one position only. */
  lemma RowIndex(nodes: seq<Node>, r: seq<nat>, a: nat, b: nat)
    requires Horizontal(nodes, r) && a < |r| && b < |r|
    ensures r[a] == r[b] || nodes[r[a]].key == nodes[r[b]].key ==> a == b
  {
    if a < b {
      RowOrder(nodes, r, a, b);
    } else if b < a {
      RowOrder(nodes, r, b, a);
    }
  }

  /** A layer whose nodes keep their keys and horizontal links keeps its keys and stays a layer. */
  lemma RowFrame(nodes: seq<Node>, nodes': seq<Node>, r: seq<nat>)
    requires Horizontal(nodes, r) && |nodes| <= |nodes'|
    requires forall i :: 0 <= i < |r| ==>
               nodes'[r[i]].key == nodes[r[i]].key && nodes'[r[i]].left == nodes[r[i]].left
               && nodes'[r[i]].right == nodes[r[i]].right
    ensures Horizontal(nodes', r) && KeysOf(nodes', r) == KeysOf(nodes, r)
  {
    assert KeysOf(nodes', r) == KeysOf(nodes, r);
    forall i | 0 <= i < |r| - 1 ensures Adjacent(nodes', r, i) {
      assert Adjacent(nodes, r, i);
    }
  }

  lemma RowLinks(nodes: seq<Node>, r: seq<nat>, i: nat)
    requires Horizontal(nodes, r) && i < |r|
    ensures i + 1 < |r| ==> nodes[r[i]].right == Some(r[i + 1])
    ensures i + 1 == |r| ==> nodes[r[i]].right == None
    ensures 0 < i ==> nodes[r[i]].left == Some(r[i - 1])
    ensures i == 0 ==> nodes[r[i]].left == None
  {
    if i + 1 < |r| {
      assert Adjacent(nodes, r, i);
    }
    if 0 < i {
      assert Adjacent(nodes, r, i - 1);
    }
  }

  lemma RowEnds(nodes: seq<Node>, r: seq<nat>)
    requires Horizontal(nodes, r)
    ensures |r| >= 2 && nodes[r[0]].key == LeftSentinel && nodes[r[|r| - 1]].key == RightSentinel
  {
    assert KeysOf(nodes, r)[0] == nodes[r[0]].key;
  }

  /** Keys in order stand at positions in order. */
  lemma IndexOrder(nodes: seq<Node>, r: seq<nat>, a: nat, b: nat)
    requires Horizontal(nodes, r) && a < |r| && b < |r|
    requires Before(nodes[r[a]].key, nodes[r[b]].key)
    ensures a < b
  {
    BeforeIsStrictTotal(nodes[r[a]].key, nodes[r[b]].key, nodes[r[a]].key);
    if b < a {
      RowOrder(nodes, r, b, a);
    }
  }

  /** A node holding a number is strictly inside its layer. */
  lemma NumberInside(nodes: seq<Node>, r: seq<nat>, i: nat)
    requires Horizontal(nodes, r) && i < |r| && nodes[r[i]].key.Val?
    ensures 0 < i < |r| - 1
  {
    RowEnds(nodes, r);
  }

  // ---------------------------------------------------------------------
  // Facts about the lattice
  // ---------------------------------------------------------------------

  lemma Position(rows: seq<seq<nat>>, l: nat, x: nat) returns (i: nat)
    requires l < |rows| && x in rows[l]
    ensures i < |rows[l]| && rows[l][i] == x
  {
    i :| 0 <= i < |rows[l]| && rows[l][i] == x;
  }

  /** Every node of a layer above the bottom has the copy of its key below it. */
  lemma Below(nodes: seq<Node>, rows: seq<seq<nat>>, level: map<nat, nat>, root: nat, l: nat, i: nat) returns (j: nat)
    requires WellFormed(nodes, rows, level, root) && 1 <= l < |rows| && i < |rows[l]|
    ensures j < |rows[l - 1]| && nodes[rows[l][i]].down == Some(rows[l - 1][j])
    ensures nodes[rows[l - 1][j]].key == nodes[rows[l][i]].key
    ensures nodes[rows[l - 1][j]].up == Some(rows[l][i])
  {
    assert DownOk(nodes, rows, l, rows[l][i]);
    j := Position(rows, l - 1, nodes[rows[l][i]].down.value);
  }

  /** The up link of a node below the top leads to the copy of its key above. */
  lemma Above(nodes: seq<Node>, rows: seq<seq<nat>>, level: map<nat, nat>, root: nat, gap: nat, k: Key,
              l: nat, i: nat) returns (j: nat)
    requires Linked(nodes, rows, level, root, gap, k) && l + 1 < |rows| && i < |rows[l]|
    requires nodes[rows[l][i]].up.Some?
    ensures j < |rows[l + 1]| && nodes[rows[l][i]].up == Some(rows[l + 1][j])
    ensures nodes[rows[l + 1][j]].key == nodes[rows[l][i]].key
    ensures nodes[rows[l + 1][j]].down == Some(rows[l][i])
  {
    assert UpOk(nodes, rows, l, rows[l][i]);
    j := Position(rows, l + 1, nodes[rows[l][i]].up.value);
  }

  /** The abstract value keeps the shape of a skip list. */
  lemma ViewShape(nodes: seq<Node>, rows: seq<seq<nat>>, level: map<nat, nat>, root: nat)
    requires WellFormed(nodes, rows, level, root)
    ensures Shape(View(nodes, rows))
  {
    var v := View(nodes, rows);
    forall l | 0 <= l < |v| ensures Bounded(v[l]) {
      assert Horizontal(nodes, rows[l]);
    }
    forall l | 1 <= l < |v| ensures NestedAt(v, l) {
      forall i | 0 <= i < |v[l]| ensures v[l][i] in v[l - 1] {
        assert v[l] == KeysOf(nodes, rows[l]);
        var j := Below(nodes, rows, level, root, l, i);
        assert v[l - 1][j] == v[l][i];
      }
    }
  }

  /** Below the top, the left sentinel of a layer always has an up link. */
  lemma LeftSentinelHasUp(nodes: seq<Node>, rows: seq<seq<nat>>, level: map<nat, nat>, root: nat, l: nat)
    requires WellFormed(nodes, rows, level, root) && l < |rows|
    ensures l + 1 < |rows| ==> nodes[rows[l][0]].up.Some?
  {
    if l + 1 < |rows| {
      RowEnds(nodes, rows[l + 1]);
      var j := Below(nodes, rows, level, root, l + 1, 0);
      RowEnds(nodes, rows[l]);
      RowIndex(nodes, rows[l], 0, j);
    }
  }

  /** Exactly the nodes of the bottom layer lack a down link. */
  lemma DownLink(nodes: seq<Node>, rows: seq<seq<nat>>, level: map<nat, nat>, root: nat, l: nat, i: nat)
    requires WellFormed(nodes, rows, level, root) && l < |rows| && i < |rows[l]|
    ensures nodes[rows[l][i]].down.None? <==> l == 0
  {
    if l > 0 {
      var j := Below(nodes, rows, level, root, l, i);
    }
  }

  /**
   * What a search stops on decides lookup: if p sits at i on the bottom
   * layer with key at most `key` and its right neighbour's key above
   * `key`, then `key` is stored exactly when p holds it.
   */
  lemma FloorDecides(nodes: seq<Node>, rows: seq<seq<nat>>, level: map<nat, nat>, root: nat, i: nat, key: int)
    requires WellFormed(nodes, rows, level, root) && i + 1 < |rows[0]|
    requires AtMost(nodes[rows[0][i]].key, key) && Before(Val(key), nodes[rows[0][i + 1]].key)
    ensures Val(key) in View(nodes, rows)[0] <==> nodes[rows[0][i]].key == Val(key)
  {
    var r := rows[0];
    var v := View(nodes, rows)[0];
    assert v == KeysOf(nodes, r);
    if Val(key) in v {
      var j :| 0 <= j < |v| && v[j] == Val(key);
      if j > i + 1 {
        RowOrder(nodes, r, i + 1, j);
        BeforeIsStrictTotal(Val(key), nodes[r[i + 1]].key, Val(key));
      } else if j == i + 1 {
        BeforeIsStrictTotal(Val(key), Val(key), Val(key));
      } else if j < i {
        RowOrder(nodes, r, j, i);
      }
    }
    if nodes[r[i]].key == Val(key) {
      assert v[i] == Val(key);
    }
  }

  /**
   * Where insert climbs: if x at a on layer l is the nearest node left of
   * position j with an up link, then the node right of x's copy above has
   * a key beyond that at j.
   */
  lemma PastAbove(nodes: seq<Node>, rows: seq<seq<nat>>, level: map<nat, nat>, root: nat, l: nat, a: nat, j: nat)
    returns (c: nat)
    requires WellFormed(nodes, rows, level, root) && l + 1 < |rows| && a < j < |rows[l]|
    requires nodes[rows[l][a]].up.Some?
    requires forall b :: a < b <= j ==> nodes[rows[l][b]].up.None?
    ensures c + 1 < |rows[l + 1]| && nodes[rows[l][a]].up == Some(rows[l + 1][c])
    ensures nodes[rows[l + 1][c]].key == nodes[rows[l][a]].key
    ensures Before(nodes[rows[l][j]].key, nodes[rows[l + 1][c + 1]].key)
  {
    var r := rows[l];
    var s := rows[l + 1];
    c := Above(nodes, rows, level, root, 0, LeftSentinel, l, a);
    RowOrder(nodes, r, a, j);
    RowEnds(nodes, s);
    RowOrder(nodes, s, c, c + 1);
    var e := Below(nodes, rows, level, root, l + 1, c + 1);
    // the copy below s[c + 1] lies right of r[a]; it has an up link, so it lies right of r[j]
    IndexOrder(nodes, r, a, e);
    RowOrder(nodes, r, j, e);
  }

  /** A lattice with no exempted node is well formed. */
  lemma GapClosed(nodes: seq<Node>, rows: seq<seq<nat>>, level: map<nat, nat>, root: nat, gap: nat, k: Key)
    requires Linked(nodes, rows, level, root, gap, k)
    requires gap < |rows| ==> k !in View(nodes, rows)[gap]
    ensures WellFormed(nodes, rows, level, root)
  {
    forall l, i | 1 <= l < |rows| && 0 <= i < |rows[l]| ensures DownOk(nodes, rows, l, rows[l][i]) {
      if l == gap {
        assert View(nodes, rows)[l][i] == nodes[rows[l][i]].key;
      }
    }
  }

  /** A well-formed lattice satisfies every exemption. */
  lemma GapOpen(nodes: seq<Node>, rows: seq<seq<nat>>, level: map<nat, nat>, root: nat, k: Key)
    requires WellFormed(nodes, rows, level, root)
    ensures Linked(nodes, rows, level, root, 0, k)
  {
  }
}
