/**
 * The step of insert that grows the lattice when the new key must climb
 * above the top layer: two fresh sentinels form a new, empty top layer
 * over the sentinels of the old top, and the left one becomes the root.
 */
module Raising {
  import opened Keys
  import opened SortedLayers
  import opened Lattice

  /**
   * The arena once two sentinels are appended above bl and br, the left
   * and right sentinels of the current top layer.
   */
  ghost function Raise(nodes: seq<Node>, bl: nat, br: nat): (r: seq<Node>)
    requires bl < |nodes| && br < |nodes|
    ensures |r| == |nodes| + 2
  {
    seq(|nodes| + 2, x requires 0 <= x < |nodes| + 2 =>
      if x == |nodes| then Node(LeftSentinel, None, Some(|nodes| + 1), None, Some(bl))
      else if x == |nodes| + 1 then Node(RightSentinel, Some(|nodes|), None, None, Some(br))
      else if x == bl then nodes[x].(up := Some(|nodes|))
      else if x == br then nodes[x].(up := Some(|nodes| + 1))
      else nodes[x])
  }

  /** The old top layer's two sentinels. */
  ghost predicate RaiseReady(nodes: seq<Node>, rows: seq<seq<nat>>, level: map<nat, nat>, root: nat,
                             bl: nat, br: nat)
  {
    && WellFormed(nodes, rows, level, root)
    && bl == Top(rows)[0] && br == Top(rows)[|Top(rows)| - 1]
  }

  /** The old layers keep their keys and links; the new top is the empty layer. */
  lemma RaiseRows(nodes: seq<Node>, rows: seq<seq<nat>>, level: map<nat, nat>, root: nat,
                  bl: nat, br: nat, nodes': seq<Node>, rows': seq<seq<nat>>)
    requires RaiseReady(nodes, rows, level, root, bl, br)
    requires nodes' == Raise(nodes, bl, br) && rows' == rows + [[|nodes|, |nodes| + 1]]
    ensures Rows(nodes', rows') && View(nodes', rows') == View(nodes, rows) + [Empty()]
  {
    forall l | 0 <= l < |rows| ensures Horizontal(nodes', rows[l]) && KeysOf(nodes', rows[l]) == KeysOf(nodes, rows[l]) {
      assert Horizontal(nodes, rows[l]);
      RowFrame(nodes, nodes', rows[l]);
    }
    var t := [|nodes|, |nodes| + 1];
    assert KeysOf(nodes', t) == Empty();
    assert Adjacent(nodes', t, 0);
    assert Horizontal(nodes', t);
    assert rows'[|rows|] == t;
    assert forall l :: 0 <= l < |rows| ==> rows'[l] == rows[l];
  }

  /** The new sentinels stand on the new top layer; the other nodes keep theirs. */
  lemma RaiseLevels(nodes: seq<Node>, rows: seq<seq<nat>>, level: map<nat, nat>, root: nat,
                    bl: nat, br: nat, nodes': seq<Node>, rows': seq<seq<nat>>, level': map<nat, nat>)
    requires RaiseReady(nodes, rows, level, root, bl, br)
    requires rows' == rows + [[|nodes|, |nodes| + 1]]
    requires level' == level[|nodes| := |rows|][|nodes| + 1 := |rows|]
    ensures forall l, i :: 0 <= l < |rows'| && 0 <= i < |rows'[l]| ==> rows'[l][i] in level' && level'[rows'[l][i]] == l
  {
    forall l, i | 0 <= l < |rows'| && 0 <= i < |rows'[l]| ensures rows'[l][i] in level' && level'[rows'[l][i]] == l {
      if l < |rows| {
        assert rows'[l] == rows[l];
        assert Horizontal(nodes, rows[l]);
      }
    }
  }

  /** No down links on the bottom, none up on the new top, whose left sentinel is the root. */
  lemma RaiseEnds(nodes: seq<Node>, rows: seq<seq<nat>>, level: map<nat, nat>, root: nat,
                  bl: nat, br: nat, nodes': seq<Node>, rows': seq<seq<nat>>)
    requires RaiseReady(nodes, rows, level, root, bl, br)
    requires nodes' == Raise(nodes, bl, br) && rows' == rows + [[|nodes|, |nodes| + 1]]
    ensures forall i :: 0 <= i < |rows'[0]| ==> nodes'[rows'[0][i]].down == None
    ensures forall i :: 0 <= i < |Top(rows')| ==> nodes'[Top(rows')[i]].up == None
    ensures |nodes| == Top(rows')[0]
  {
    assert rows'[0] == rows[0];
    assert Horizontal(nodes, rows[0]);
    assert Top(rows') == [|nodes|, |nodes| + 1];
  }

  /** Every node above the bottom keeps a copy below; the new sentinels stand over the old ones. */
  lemma RaiseDown(nodes: seq<Node>, rows: seq<seq<nat>>, level: map<nat, nat>, root: nat,
                  bl: nat, br: nat, nodes': seq<Node>, rows': seq<seq<nat>>)
    requires RaiseReady(nodes, rows, level, root, bl, br)
    requires nodes' == Raise(nodes, bl, br) && rows' == rows + [[|nodes|, |nodes| + 1]]
    ensures forall l, i {:trigger DownOk(nodes', rows', l, rows'[l][i])} ::
              1 <= l < |rows'| && 0 <= i < |rows'[l]| ==> DownOk(nodes', rows', l, rows'[l][i])
  {
    var t := |rows| - 1;
    RowEnds(nodes, rows[t]);
    assert rows'[t] == rows[t];
    assert Top(rows)[0] in rows[t] && Top(rows)[|Top(rows)| - 1] in rows[t];
    forall l, i | 1 <= l < |rows'| && 0 <= i < |rows'[l]| ensures DownOk(nodes', rows', l, rows'[l][i]) {
      if l < |rows| {
        var x := rows[l][i];
        assert rows'[l] == rows[l] && rows'[l - 1] == rows[l - 1];
        assert DownOk(nodes, rows, l, x);
        var e := nodes[x].down.value;
        var j := Position(rows, l - 1, e);
        assert level[rows[l - 1][j]] == l - 1 && level[Top(rows)[0]] == t;
        assert level[Top(rows)[|Top(rows)| - 1]] == t;
      }
    }
  }

  /** Every up link leads to a copy above; the old top's sentinels now lead to the new ones. */
  lemma RaiseUp(nodes: seq<Node>, rows: seq<seq<nat>>, level: map<nat, nat>, root: nat,
                bl: nat, br: nat, nodes': seq<Node>, rows': seq<seq<nat>>)
    requires RaiseReady(nodes, rows, level, root, bl, br)
    requires nodes' == Raise(nodes, bl, br) && rows' == rows + [[|nodes|, |nodes| + 1]]
    ensures forall l, i {:trigger UpOk(nodes', rows', l, rows'[l][i])} ::
              0 <= l < |rows'| - 1 && 0 <= i < |rows'[l]| ==> UpOk(nodes', rows', l, rows'[l][i])
  {
    var t := |rows| - 1;
    RowEnds(nodes, rows[t]);
    assert Horizontal(nodes, rows[t]);
    RowIndex(nodes, rows[t], 0, |rows[t]| - 1);
    forall l, i | 0 <= l < |rows'| - 1 && 0 <= i < |rows'[l]| ensures UpOk(nodes', rows', l, rows'[l][i]) {
      var x := rows[l][i];
      assert rows'[l] == rows[l];
      if l < t {
        assert rows'[l + 1] == rows[l + 1];
        assert UpOk(nodes, rows, l, x);
        assert level[rows[l][i]] == l && level[Top(rows)[0]] == t;
        assert level[Top(rows)[|Top(rows)| - 1]] == t;
      } else {
        assert Top(rows)[i] == x;
        assert rows'[t + 1] == [|nodes|, |nodes| + 1];
      }
    }
  }

  /**
   * Adding the new top layer keeps the lattice well formed, makes the new
   * left sentinel the root, and adds an empty layer to the abstract value.
   */
  lemma RaiseKeeps(nodes: seq<Node>, rows: seq<seq<nat>>, level: map<nat, nat>, root: nat,
                   bl: nat, br: nat, nodes': seq<Node>, rows': seq<seq<nat>>, level': map<nat, nat>)
    requires RaiseReady(nodes, rows, level, root, bl, br)
    requires nodes' == Raise(nodes, bl, br) && rows' == rows + [[|nodes|, |nodes| + 1]]
    requires level' == level[|nodes| := |rows|][|nodes| + 1 := |rows|]
    ensures WellFormed(nodes', rows', level', |nodes|)
    ensures View(nodes', rows') == View(nodes, rows) + [Empty()]
  {
    RaiseRows(nodes, rows, level, root, bl, br, nodes', rows');
    RaiseLevels(nodes, rows, level, root, bl, br, nodes', rows', level');
    RaiseEnds(nodes, rows, level, root, bl, br, nodes', rows');
    RaiseDown(nodes, rows, level, root, bl, br, nodes', rows');
    RaiseUp(nodes, rows, level, root, bl, br, nodes', rows');
  }

  /** The old top's left sentinel gains its copy above; the old top's interior nodes are untouched. */
  lemma RaiseFrame(nodes: seq<Node>, rows: seq<seq<nat>>, level: map<nat, nat>, root: nat,
                   bl: nat, br: nat, nodes': seq<Node>)
    requires RaiseReady(nodes, rows, level, root, bl, br) && nodes' == Raise(nodes, bl, br)
    ensures nodes'[bl].up == Some(|nodes|)
    ensures forall i :: 0 < i < |Top(rows)| - 1 ==> nodes'[Top(rows)[i]] == nodes[Top(rows)[i]]
  {
    var t := Top(rows);
    assert Horizontal(nodes, t);
    RowIndex(nodes, t, 0, |t| - 1);
    forall i | 0 < i < |t| - 1 ensures nodes'[t[i]] == nodes[t[i]] {
      RowIndex(nodes, t, i, 0);
      RowIndex(nodes, t, i, |t| - 1);
    }
  }
}
