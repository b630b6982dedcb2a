/**
 * The SkipList object: a lattice of four-way linked nodes entered at the
 * root, the left sentinel of the top layer. Search walks right and down,
 * lookup reports what search stopped on, insert splices the key into the
 * bottom layer and keeps promoting it while random() answers true, and
 * remove unlinks every copy of the key from the bottom up.
 */
module SkipLists {
  import opened Keys
  import opened SortedLayers
  import opened Promotion
  import opened Lattice
  import opened Splicing
  import opened Raising
  import opened Unlinking

  /** SkipList.endOfLayer: follow right links from p to the last node of its layer. */
  method EndOfLayer(nodes: seq<Node>, p: nat, ghost r: seq<nat>, ghost i: nat) returns (e: nat)
    requires Horizontal(nodes, r) && i < |r| && p == r[i]
    ensures e == r[|r| - 1]
  {
    e := p;
    ghost var j := i;
    while nodes[e].right.Some?
      invariant j < |r| && e == r[j]
      decreases |r| - j
    {
      RowLinks(nodes, r, j);
      e := nodes[e].right.value;
      j := j + 1;
    }
    RowLinks(nodes, r, j);
  }

  /**
   * The inner loop of search: from p, at position i of layer r, go right
   * while the right neighbour's key is at most `key`.
   */
  method WalkRight(nodes: seq<Node>, key: int, p: nat, ghost r: seq<nat>, ghost i: nat) returns (q: nat, ghost j: nat)
    requires Horizontal(nodes, r) && i + 1 < |r| && p == r[i] && AtMost(nodes[p].key, key)
    ensures i <= j && j + 1 < |r| && q == r[j]
    ensures AtMost(nodes[q].key, key) && Before(Val(key), nodes[r[j + 1]].key)
  {
    q, j := p, i;
    RowEnds(nodes, r);
    while true
      invariant i <= j && j + 1 < |r| && q == r[j] && AtMost(nodes[q].key, key)
      decreases |r| - j
    {
      RowLinks(nodes, r, j);
      var next := nodes[q].right.value;
      CompareAgreesWithOrder(nodes[next].key, Val(key));
      if CompareKeys(nodes[next].key, Val(key)) > 0 {
        break;
      }
      q := next;
      j := j + 1;
    }
    RowLinks(nodes, r, j);
    CompareAgreesWithOrder(nodes[r[j + 1]].key, Val(key));
  }

  class SkipList {
    /** Every node ever created, addressed by index; removed nodes stay, unreachable. */
    var nodes: seq<Node>
    /** The left sentinel of the top layer. */
    var root: nat
    /** Counts the keys inserted; remove does not decrease it. */
    var size: nat
    /** Where the last search stopped. */
    var currNode: Link
    /** The promotions still forced for the next insertion (the txtRandom text field). */
    var forced: nat
    /** SkipList.FLAG: set while a forced run of promotions is in progress. */
    var flag: bool
    /** The nodes of each layer, bottom layer first, from left sentinel to right sentinel. */
    ghost var rows: seq<seq<nat>>
    /** The layer of each node in a row. */
    ghost var level: map<nat, nat>

    ghost predicate Valid()
      reads this
    {
      WellFormed(nodes, rows, level, root) && |rows[0]| - 2 <= size
    }

    /** The keys of every layer, bottom layer first. */
    ghost function Contents(): (c: seq<seq<Key>>)
      reads this
      requires Valid()
      ensures Shape(c)
    {
      ViewShape(nodes, rows, level, root);
      View(nodes, rows)
    }

    /** init: the controls start with no forced promotions and FLAG clear; then reset. */
    constructor ()
      ensures Valid() && Contents() == [Empty()] && size == 0
      ensures forced == 0 && !flag && currNode == None
    {
      forced := 0;
      flag := false;
      currNode := None;
      new;
      Reset();
    }

    /** reset: an empty skip list, one layer holding just the two sentinels. */
    method Reset()
      modifies this`nodes, this`root, this`size, this`rows, this`level
      ensures Valid() && Contents() == [Empty()] && size == 0
    {
      nodes := [Node(LeftSentinel, None, Some(1), None, None), Node(RightSentinel, Some(0), None, None, None)];
      root := 0;
      size := 0;
      rows := [[0, 1]];
      level := map[0 := 0, 1 := 0];
      assert Adjacent(nodes, rows[0], 0);
      assert KeysOf(nodes, rows[0]) == Empty();
      assert Horizontal(nodes, rows[0]);
      assert Top(rows) == [0, 1];
    }

    /**
     * random(): the next promotion decision. A positive forced count is
     * spent first, setting FLAG; the call after a forced run answers false
     * and clears FLAG; otherwise the coin decides.
     */
    method Random(coin: bool) returns (promote: bool)
      modifies this`forced, this`flag
      ensures Draw(forced, flag, promote) == RandomStep(old(forced), old(flag), coin)
    {
      if forced > 0 {
        flag := true;
        forced := forced - 1;
        return true;
      }
      if flag {
        flag := false;
        forced := 0;
        return false;
      }
      promote := coin;
    }

    /**
     * search: from the root go right while the right neighbour's key is at
     * most `key`, then down, until there is no layer below. It stops on the
     * bottom-layer node with the largest key not above `key`.
     */
    method Search(key: int) returns (ghost i: nat)
      requires Valid()
      modifies this`currNode
      ensures Valid()
      ensures i + 1 < |rows[0]| && currNode == Some(rows[0][i])
      ensures AtMost(nodes[rows[0][i]].key, key) && Before(Val(key), nodes[rows[0][i + 1]].key)
    {
      var p := root;
      ghost var l: nat := |rows| - 1;
      i := 0;
      RowEnds(nodes, rows[l]);
      while true
        invariant l < |rows| && i + 1 < |rows[l]| && p == rows[l][i] && AtMost(nodes[p].key, key)
        decreases l
      {
        assert Horizontal(nodes, rows[l]);
        p, i := WalkRight(nodes, key, p, rows[l], i);
        DownLink(nodes, rows, level, root, l, i);
        if nodes[p].down.None? {
          break;
        }
        var j := Below(nodes, rows, level, root, l, i);
        RowEnds(nodes, rows[l - 1]);
        p := nodes[p].down.value;
        l := l - 1;
        i := j;
      }
      currNode := Some(p);
    }

    /** lookup: the key is stored exactly when search stops on a node holding it. */
    method Lookup(key: int) returns (found: bool)
      requires Valid()
      modifies this`currNode
      ensures Valid()
      ensures found <==> Val(key) in Contents()[0]
    {
      ghost var i := Search(key);
      found := CompareKeys(nodes[currNode.value].key, Val(key)) == 0;
      FloorDecides(nodes, rows, level, root, i, key);
    }

    /**
     * insert: if search finds the key, nothing changes. Otherwise the key is
     * spliced into the bottom layer right of where search stopped, and
     * while random() answers true a copy goes into the layer above, right
     * of the nearest node to the left that has a copy above it; a new,
     * empty top layer is added when there is none. `coins` supplies the
     * coin of each call of random() in turn (false once it runs out).
     */
    method Insert(key: int, coins: seq<bool>) returns (inserted: bool)
      requires Valid()
      modifies this
      ensures Valid()
      ensures inserted <==> Val(key) !in old(Contents())[0]
      ensures !inserted ==> nodes == old(nodes) && root == old(root) && Contents() == old(Contents())
                            && size == old(size) && forced == old(forced) && flag == old(flag)
      ensures inserted ==> Contents() == Added(old(Contents()), key, 1 + Promotions(old(forced), old(flag), coins, 0))
                           && size == old(size) + 1 && forced == 0 && !flag
    {
      ghost var i := Search(key);
      var p1 := currNode.value;
      FloorDecides(nodes, rows, level, root, i, key);
      if CompareKeys(Val(key), nodes[p1].key) == 0 {
        return false;
      }
      CompareAgreesWithOrder(Val(key), nodes[p1].key);
      inserted := true;
      InsertFresh(key, coins, p1, i);
    }

    /**
     * The part of insert after search: the key is absent, and p1, at
     * position i of the bottom layer, is where search stopped.
     */
    method InsertFresh(key: int, coins: seq<bool>, p1: nat, ghost i: nat)
      requires Valid() && i + 1 < |rows[0]| && p1 == rows[0][i]
      requires AtMost(nodes[p1].key, key) && nodes[p1].key != Val(key) && Before(Val(key), nodes[rows[0][i + 1]].key)
      modifies this`nodes, this`rows, this`level, this`root, this`size, this`forced, this`flag
      ensures Valid()
      ensures Contents() == Added(old(Contents()), key, 1 + Promotions(old(forced), old(flag), coins, 0))
      ensures size == old(size) + 1 && forced == 0 && !flag
    {
      SpliceStart(nodes, rows, level, root, i, key);
      ghost var before := View(nodes, rows);
      ghost var total := Promotions(forced, flag, coins, 0);
      SpliceEnter(nodes, rows, level, root, forced, flag, before, key, coins, total, i, p1);
      ghost var nodes0, rows0 := nodes, rows;
      size := size + 1;
      SpliceCopies(key, coins, p1, i, before, total);
      AddedBottomRow(nodes0, rows0, nodes, rows, key, 1 + total);
      assert Contents() == View(nodes, rows);
    }

    /**
     * The loop of insert: splice a copy of the key right of p1, at position
     * a of the bottom layer, and keep adding a copy one layer up while
     * random() answers true.
     */
    method SpliceCopies(key: int, coins: seq<bool>, p: nat, ghost a0: nat, ghost before: seq<seq<Key>>, ghost total: nat)
      requires SpliceLoop(nodes, rows, level, root, forced, flag, before, key, coins, total, 0, a0, None, p)
      modifies this`nodes, this`rows, this`level, this`root, this`forced, this`flag
      ensures SpliceDone(nodes, rows, level, root, forced, flag, before, key, total)
    {
      ghost var a: nat := a0;
      var p1: nat := p;
      var pDown: Link := None;
      var call: nat := 0;
      var promote := true;
      while promote
        invariant SpliceState(nodes, rows, level, root, forced, flag, before, key, coins, total, promote, call, a, pDown, p1)
        invariant call <= total
        decreases total - call, promote
      {
        promote, p1, pDown, call, a := SpliceRound(p1, key, pDown, coins, call, before, total, a);
      }
    }

    /**
     * One round of insert's loop: link a new node holding the key right of
     * p1, flip a coin, and when it says to promote, climb to the node of
     * the layer above where the next copy goes.
     */
    method SpliceRound(p1: nat, key: int, pDown: Link, coins: seq<bool>, call: nat,
                       ghost before: seq<seq<Key>>, ghost total: nat, ghost a: nat)
      returns (promote: bool, q1: nat, qDown: Link, next: nat, ghost c: nat)
      requires SpliceLoop(nodes, rows, level, root, forced, flag, before, key, coins, total, call, a, pDown, p1)
      modifies this`nodes, this`rows, this`level, this`root, this`forced, this`flag
      ensures SpliceState(nodes, rows, level, root, forced, flag, before, key, coins, total, promote, next, c, qDown, q1)
      ensures next <= total && next == if promote then call + 1 else call
    {
      // link a new node holding the key between p1 and its right neighbour, and flip a coin
      var p2;
      promote, p2 := SpliceFlip(p1, key, pDown, coins, call, before, total, call, a);
      if promote {
        // go left to a node with a copy above it, adding a top layer if need be, and climb
        q1, qDown, next, c := ClimbGrow(p1, p2, key, coins, call, before, total, a);
      } else {
        q1, qDown, next, c := p1, pDown, call, a;
      }
    }

    /**
     * One copy of the key goes into layer h, then random() decides whether
     * the key climbs further.
     */
    method SpliceFlip(p1: nat, key: int, pDown: Link, coins: seq<bool>, call: nat,
                      ghost before: seq<seq<Key>>, ghost total: nat, ghost h: nat, ghost a: nat)
      returns (promote: bool, p2: nat)
      requires SpliceLoop(nodes, rows, level, root, forced, flag, before, key, coins, total, h, a, pDown, p1) && call == h
      modifies this`nodes, this`rows, this`level, this`forced, this`flag
      ensures WellFormed(nodes, rows, level, root) && root == old(root)
      ensures |rows| == old(|rows|) && a + 2 < |rows[h]| && rows[h][a] == p1 && rows[h][a + 1] == p2
      ensures nodes[p2].key == Val(key) && nodes[p2].up.None?
      ensures View(nodes, rows) == Grow(before, key, h + 1, Max(|before|, h + 1))
      ensures promote ==> h + 1 + Promotions(forced, flag, coins, h + 1) == total
      ensures !promote ==> SpliceDone(nodes, rows, level, root, forced, flag, before, key, total)
    {
      p2 := SpliceStep(p1, key, pDown, h, a);
      GrowStep(before, key, h, Max(|before|, h + 1));
      ghost var forced0, flag0 := forced, flag;
      promote := Random(Coin(coins, call));
      PromotionsStep(forced0, flag0, coins, h, Draw(forced, flag, promote));
    }

    /**
     * From p1, left of the new copy p2 in layer h, climb to the node of
     * layer h + 1 where the next copy goes, adding an empty top layer when
     * layer h is the top.
     */
    method ClimbGrow(p1: nat, p2: nat, key: int, coins: seq<bool>, call: nat,
                     ghost before: seq<seq<Key>>, ghost total: nat, ghost a: nat)
      returns (q1: nat, qDown: Link, next: nat, ghost c: nat)
      requires WellFormed(nodes, rows, level, root) && call < |rows| && a + 2 < |rows[call]|
      requires p1 == rows[call][a] && p2 == rows[call][a + 1] && nodes[p2].key == Val(key) && nodes[p2].up.None?
      requires |rows| == Max(|before|, call + 1) && View(nodes, rows) == Grow(before, key, call + 1, |rows|)
      requires call + 1 + Promotions(forced, flag, coins, call + 1) == total
      modifies this`nodes, this`rows, this`level, this`root
      ensures SpliceLoop(nodes, rows, level, root, forced, flag, before, key, coins, total, next, c, qDown, q1)
      ensures next == call + 1 && next <= total
    {
      ghost var height := |rows|;
      q1, c := Climb(p1, p2, key, call, a);
      if height == call + 1 {
        GrowTop(before, key, call + 1, height);
      }
      qDown, next := Some(p2), call + 1;
    }

    /** One copy of the key goes into layer h, right of p1 at position a, above pDown. */
    method SpliceStep(p1: nat, key: int, pDown: Link, ghost h: nat, ghost a: nat) returns (p2: nat)
      requires SpliceReady(nodes, rows, level, root, h, a, key, pDown) && p1 == rows[h][a]
      modifies this`nodes, this`rows, this`level
      ensures WellFormed(nodes, rows, level, root)
      ensures View(nodes, rows) == old(View(nodes, rows))[h := InsertKey(old(View(nodes, rows))[h], Val(key))]
      ensures |rows| == old(|rows|) && a + 2 < |rows[h]| && rows[h][a] == p1 && rows[h][a + 1] == p2
      ensures nodes[p2].key == Val(key) && nodes[p2].up.None?
    {
      SpliceLinks(nodes, rows, level, root, h, a, key, pDown);
      ghost var n0 := nodes;
      ghost var rows0 := rows;
      ghost var level0 := level;
      p2 := LinkNode(p1, Val(key), pDown);
      rows := rows[h := InsertAfter(rows[h], a, p2)];
      level := level[p2 := h];
      SpliceKeeps(n0, rows0, level0, root, h, a, key, pDown, nodes, rows);
    }

    /**
     * From p, at position a of layer h, just left of the new copy p2: go
     * left to a node with a copy above it (adding a top layer if there is
     * none) and up to that copy, where the next copy of the key goes.
     */
    method Climb(p: nat, p2: nat, key: int, ghost h: nat, ghost a: nat) returns (p1: nat, ghost c: nat)
      requires WellFormed(nodes, rows, level, root) && h < |rows| && a + 2 < |rows[h]|
      requires p == rows[h][a] && p2 == rows[h][a + 1] && nodes[p2].key == Val(key) && nodes[p2].up.None?
      modifies this`nodes, this`rows, this`level, this`root
      ensures SpliceReady(nodes, rows, level, root, h + 1, c, key, Some(p2)) && p1 == rows[h + 1][c]
      ensures old(|rows|) == h + 1 ==> View(nodes, rows) == old(View(nodes, rows)) + [Empty()]
      ensures old(|rows|) > h + 1 ==> View(nodes, rows) == old(View(nodes, rows))
    {
      ghost var b: nat;
      var q;
      q, b := WalkLeft(p, h, a, a + 1);
      c := SpliceAbove(nodes, rows, level, root, h, b, a + 1, key);
      p1 := nodes[q].up.value;
    }

    /**
     * The inner loop of insert: from p1, at position a of layer h, go left
     * until a node with a copy above it; at the top layer's left sentinel,
     * add a new, empty top layer first. The new copy at j, right of a, and
     * every node between have no copy above.
     */
    method WalkLeft(p: nat, ghost h: nat, ghost a: nat, ghost j: nat) returns (p1: nat, ghost b: nat)
      requires WellFormed(nodes, rows, level, root) && h < |rows| && a < j < |rows[h]| - 1 && p == rows[h][a]
      requires forall c :: a < c <= j ==> nodes[rows[h][c]].up.None?
      modifies this`nodes, this`rows, this`level, this`root
      ensures WellFormed(nodes, rows, level, root) && h + 1 < |rows| && rows[h] == old(rows[h])
      ensures b < j && p1 == rows[h][b] && nodes[p1].up.Some?
      ensures forall c :: b < c <= j ==> nodes[rows[h][c]].up.None?
      ensures nodes[rows[h][j]].key == old(nodes[rows[h][j]].key)
      ensures old(|rows|) == h + 1 ==> View(nodes, rows) == old(View(nodes, rows)) + [Empty()]
      ensures old(|rows|) > h + 1 ==> View(nodes, rows) == old(View(nodes, rows))
    {
      p1 := p;
      b := a;
      while true
        invariant unchanged(this)
        invariant b < j && p1 == rows[h][b]
        invariant forall c :: b < c <= j ==> nodes[rows[h][c]].up.None?
        decreases b
      {
        assert Horizontal(nodes, rows[h]);
        RowLinks(nodes, rows[h], b);
        if nodes[p1].up.Some? {
          LeftSentinelHasUp(nodes, rows, level, root, h);
          break;
        } else if nodes[p1].left.Some? {
          p1 := nodes[p1].left.value;
          b := b - 1;
        } else {
          // p1 is the top layer's left sentinel: add a new, empty top layer
          LeftSentinelHasUp(nodes, rows, level, root, h);
          assert b == 0 && h + 1 == |rows| && rows[h] == Top(rows);
          ghost var n1 := nodes;
          ghost var rows1 := rows;
          ghost var level1 := level;
          ghost var t := |nodes|;
          ghost var root1 := root;
          AddLayer(p1, rows[h]);
          assert RaiseReady(n1, rows1, level1, root1, rows1[h][0], rows1[h][|rows1[h]| - 1]);
          assert nodes == Raise(n1, rows1[h][0], rows1[h][|rows1[h]| - 1]);
          rows := rows + [[t, t + 1]];
          level := level[t := |rows1|][t + 1 := |rows1|];
          RaiseKeeps(n1, rows1, level1, root1, rows1[h][0], rows1[h][|rows1[h]| - 1], nodes, rows, level);
          RaiseFrame(n1, rows1, level1, root1, rows1[h][0], rows1[h][|rows1[h]| - 1], nodes);
          assert rows[h] == rows1[h];
          return;
        }
      }
    }

    /** Links a new node holding k between p1 and its right neighbour, above pDown if any. */
    method LinkNode(p1: nat, k: Key, pDown: Link) returns (p2: nat)
      requires p1 < |nodes| && nodes[p1].right.Some? && nodes[p1].right.value < |nodes|
      requires p1 != nodes[p1].right.value
      requires pDown.Some? ==> pDown.value < |nodes| && pDown.value != p1 && pDown.value != nodes[p1].right.value
      modifies this`nodes
      ensures p2 == old(|nodes|) && nodes == Splice(old(nodes), p1, old(nodes[p1].right.value), k, pDown)
    {
      var q := nodes[p1].right.value;
      p2 := |nodes|;
      nodes := nodes + [Node(k, None, None, None, None)];
      nodes := nodes[p2 := nodes[p2].(right := Some(q))];
      nodes := nodes[q := nodes[q].(left := Some(p2))];
      nodes := nodes[p2 := nodes[p2].(left := Some(p1))];
      nodes := nodes[p1 := nodes[p1].(right := Some(p2))];
      if pDown.Some? {
        nodes := nodes[p2 := nodes[p2].(down := pDown)];
        nodes := nodes[pDown.value := nodes[pDown.value].(up := Some(p2))];
      }
    }

    /**
     * A new top layer above the layer r whose left sentinel is p1: two new
     * sentinels over r's ends, the left one the new root.
     */
    method AddLayer(p1: nat, ghost r: seq<nat>)
      requires Horizontal(nodes, r) && p1 == r[0]
      modifies this`nodes, this`root
      ensures nodes == Raise(old(nodes), r[0], r[|r| - 1]) && root == old(|nodes|)
    {
      RowEnds(nodes, r);
      RowIndex(nodes, r, 0, |r| - 1);
      var e := EndOfLayer(nodes, p1, r, 0);
      var topRoot := |nodes|;
      nodes := nodes + [Node(LeftSentinel, None, None, None, None)];
      nodes := nodes + [Node(RightSentinel, None, None, None, None)];
      nodes := nodes[topRoot := nodes[topRoot].(right := Some(topRoot + 1))];
      nodes := nodes[topRoot + 1 := nodes[topRoot + 1].(left := Some(topRoot))];
      nodes := nodes[topRoot := nodes[topRoot].(down := Some(p1))];
      nodes := nodes[p1 := nodes[p1].(up := Some(topRoot))];
      nodes := nodes[topRoot + 1 := nodes[topRoot + 1].(down := Some(e))];
      nodes := nodes[e := nodes[e].(up := Some(topRoot + 1))];
      root := topRoot;
    }

    /**
     * remove: if search does not find the key, nothing changes. Otherwise
     * every copy of the key is unlinked from its layer, from the bottom up,
     * following up links. Layers left empty stay; size is not decreased.
     */
    method Remove(key: int) returns (removed: bool)
      requires Valid()
      modifies this`nodes, this`rows, this`currNode
      ensures Valid()
      ensures removed <==> Val(key) in old(Contents())[0]
      ensures !removed ==> nodes == old(nodes) && rows == old(rows) && Contents() == old(Contents())
      ensures Contents() == Erase(old(Contents()), key)
    {
      ghost var i := Search(key);
      var p1 := currNode.value;
      FloorDecides(nodes, rows, level, root, i, key);
      ghost var before := Contents();
      assert EraseBelow(before, key, 0) == before;
      if CompareKeys(Val(key), nodes[p1].key) != 0 {
        EraseAbsent(before, key, 0);
        return false;
      }
      removed := true;
      UnlinkCopies(key, p1, i);
      assert |View(nodes, rows)[0]| <= |before[0]|;
    }

    /**
     * The loop of remove: unlink the copy x of the key at position i of the
     * bottom layer, then the copy above it, and so on up the lattice.
     */
    method UnlinkCopies(key: int, x: nat, ghost i0: nat)
      requires WellFormed(nodes, rows, level, root) && i0 < |rows[0]| && x == rows[0][i0] && nodes[x].key == Val(key)
      modifies this`nodes, this`rows
      ensures WellFormed(nodes, rows, level, root)
      ensures View(nodes, rows) == Erase(old(View(nodes, rows)), key)
    {
      ghost var before := View(nodes, rows);
      UnlinkEnter(nodes, rows, level, root, key, i0);
      ghost var m: nat := 0;
      ghost var i := i0;
      var p: Link := Some(x);
      while p.Some?
        invariant UnlinkLoop(nodes, rows, level, root, before, key, m, i, p)
        decreases |before| - m
      {
        p, i := UnlinkRound(key, p.value, before, m, i);
        m := m + 1;
      }
      UnlinkExit(nodes, rows, level, root, before, key, m, i);
    }

    /** One round of remove's loop: unlink the copy y on layer m and follow its up link. */
    method UnlinkRound(key: int, y: nat, ghost before: seq<seq<Key>>, ghost m: nat, ghost i: nat)
      returns (p: Link, ghost j: nat)
      requires UnlinkLoop(nodes, rows, level, root, before, key, m, i, Some(y))
      modifies this`nodes, this`rows
      ensures UnlinkLoop(nodes, rows, level, root, before, key, m + 1, j, p)
    {
      UnlinkPlace(nodes, rows, level, root, m, i, key);
      ghost var n0 := nodes;
      ghost var rows0 := rows;
      Unlink(y);
      rows := rows[m := RemoveAt(rows[m], i)];
      j := UnlinkStep(n0, rows0, level, root, m, i, key, before, nodes, rows);
      p := nodes[y].up;
    }

    /** The node x leaves its layer: its left and right neighbours are linked to each other. */
    method Unlink(x: nat)
      requires x < |nodes| && nodes[x].left.Some? && nodes[x].right.Some?
      requires nodes[x].left.value < |nodes| && nodes[x].right.value < |nodes|
      modifies this`nodes
      ensures nodes == Bypass(old(nodes), old(nodes[x].left.value), old(nodes[x].right.value))
    {
      var left := nodes[x].left.value;
      var right := nodes[x].right.value;
      nodes := nodes[left := nodes[left].(right := nodes[x].right)];
      nodes := nodes[right := nodes[right].(left := nodes[x].left)];
    }
  }
}
