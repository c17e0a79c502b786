/**
 * The id pass as the script runs it (script.js, lines 53-57): the hierarchy's nodes
 * are visited in pre-order, and each visit writes the node's id from its name and
 * from the id already written into its parent. Here the nodes are numbered in
 * visiting order, `names[i]` and `parents[i]` describe node `i`, and the ids are
 * written into an array.
 */
module PreOrder {
  import opened Hierarchy

  /** Each node's parent is visited before it; -1 marks a node without a parent. */
  predicate ParentsFirst(parents: seq<int>) {
    forall i :: 0 <= i < |parents| ==> -1 <= parents[i] < i
  }

  /** The id of node `i`: its name, after its parent's id and a dot when it has a parent. */
  function PathId(names: seq<string>, parents: seq<int>, i: nat): string
    requires |names| == |parents| && ParentsFirst(parents) && i < |names|
    decreases i
  {
    if parents[i] < 0 then names[i] else Dotted(PathId(names, parents, parents[i]), names[i])
  }

  /** The ids of all nodes, in visiting order. */
  function PathIds(names: seq<string>, parents: seq<int>): (ids: seq<string>)
    requires |names| == |parents| && ParentsFirst(parents)
    ensures |ids| == |names|
  {
    seq(|names|, i requires 0 <= i < |names| => PathId(names, parents, i))
  }

  /**
   * `ids` obeys the script's rule at every node: a node's id is its name, after its
   * parent's id and a dot when it has a parent.
   */
  predicate FollowsParents(names: seq<string>, parents: seq<int>, ids: seq<string>) {
    && |names| == |parents| == |ids|
    && ParentsFirst(parents)
    && forall i :: 0 <= i < |ids| ==> FollowsParentAt(names, parents, ids, i)
  }

  /** The rule at node `i`. */
  predicate FollowsParentAt(names: seq<string>, parents: seq<int>, ids: seq<string>, i: nat)
    requires |names| == |parents| == |ids| && ParentsFirst(parents) && i < |ids|
  {
    ids[i] == if parents[i] < 0 then names[i] else Dotted(ids[parents[i]], names[i])
  }

  /** The rule leaves no choice: ids obey it exactly when they are the path ids. */
  lemma FollowsParentsExactlyPathIds(names: seq<string>, parents: seq<int>, ids: seq<string>)
    requires |names| == |parents| == |ids| && ParentsFirst(parents)
    ensures FollowsParents(names, parents, ids) <==> ids == PathIds(names, parents)
  {
    if FollowsParents(names, parents, ids) {
      forall i | 0 <= i < |ids|
        ensures ids[i] == PathId(names, parents, i)
      {
        FollowsParentsAt(names, parents, ids, i);
      }
    }
  }

  lemma {:induction false} FollowsParentsAt(names: seq<string>, parents: seq<int>, ids: seq<string>, i: nat)
    requires FollowsParents(names, parents, ids) && i < |ids|
    ensures ids[i] == PathId(names, parents, i)
    decreases i
  {
    assert FollowsParentAt(names, parents, ids, i);
    if parents[i] >= 0 {
      FollowsParentsAt(names, parents, ids, parents[i]);
    }
  }

  /**
   * `eachBefore(d => d.data.id = (d.parent ? d.parent.data.id + "." : "") + d.data.name)`:
   * one pass in visiting order, reading the id the parent already received.
   */
  method AssignIdsInPlace(names: seq<string>, parents: seq<int>, ids: array<string>)
    requires |names| == |parents| == ids.Length && ParentsFirst(parents)
    modifies ids
    ensures ids[..] == PathIds(names, parents)
    ensures FollowsParents(names, parents, ids[..])
  {
    for i := 0 to ids.Length
      invariant forall k :: 0 <= k < i ==> ids[k] == PathId(names, parents, k)
    {
      ids[i] := (if parents[i] >= 0 then ids[parents[i]] + "." else "") + names[i];
    }
    assert forall k :: 0 <= k < ids.Length ==> ids[..][k] == PathIds(names, parents)[k];
    FollowsParentsExactlyPathIds(names, parents, ids[..]);
  }

  // The pre-order numbering of a tree.

  /** The names of `t`'s nodes in visiting order. */
  function Names(t: Tree): (ns: seq<string>)
    ensures |ns| >= 1 && ns[0] == t.name
    decreases t
  {
    [t.name] + NamesOfAll(t.children)
  }

  function NamesOfAll(ts: seq<Tree>): seq<string>
    decreases ts
  {
    if ts == [] then [] else Names(ts[0]) + NamesOfAll(ts[1..])
  }

  /** The parent indices of `t`'s nodes in visiting order, `t` numbered `at` with parent `parent`. */
  function Parents(t: Tree, parent: int, at: nat): (ps: seq<int>)
    ensures |ps| == |Names(t)| && ps[0] == parent
    decreases t
  {
    [parent] + ParentsOfAll(t.children, at, at + 1)
  }

  /** The same for a list of siblings whose parent is `parent`, the first numbered `at`. */
  function ParentsOfAll(ts: seq<Tree>, parent: int, at: nat): (ps: seq<int>)
    ensures |ps| == |NamesOfAll(ts)|
    decreases ts
  {
    if ts == [] then [] else Parents(ts[0], parent, at) + ParentsOfAll(ts[1..], parent, at + |Names(ts[0])|)
  }

  /** The ids of a labelled tree in visiting order. */
  function Ids(r: IdTree): (ids: seq<string>)
    ensures |ids| >= 1 && ids[0] == r.id
    decreases r
  {
    [r.id] + IdsOfAll(r.children)
  }

  function IdsOfAll(rs: seq<IdTree>): seq<string>
    decreases rs
  {
    if rs == [] then [] else Ids(rs[0]) + IdsOfAll(rs[1..])
  }

  /**
   * The ids `Label(t, id)` gives, in visiting order, computed on the unlabelled tree.
   * It exists only to carry the proofs below; FlatIdsOfLabel shows it equals
   * `Ids(Label(t, id))`.
   */
  function FlatIds(t: Tree, id: string): (ids: seq<string>)
    ensures |ids| == |Names(t)|
    decreases t
  {
    [id] + FlatIdsOfAll(t.children, id)
  }

  /** The same for a list of siblings whose parent has the id `parentId`. */
  function FlatIdsOfAll(ts: seq<Tree>, parentId: string): (ids: seq<string>)
    ensures |ids| == |NamesOfAll(ts)|
    decreases ts
  {
    if ts == [] then [] else FlatIds(ts[0], Dotted(parentId, ts[0].name)) + FlatIdsOfAll(ts[1..], parentId)
  }

  lemma {:induction false} FlatIdsOfLabel(t: Tree, id: string)
    ensures Ids(Label(t, id)) == FlatIds(t, id)
    decreases t
  {
    var r := Label(t, id);
    FlatIdsOfLabelSiblings(t.children, r.children, id);
  }

  lemma {:induction false} FlatIdsOfLabelSiblings(ts: seq<Tree>, rs: seq<IdTree>, parentId: string)
    requires |rs| == |ts|
    requires forall i :: 0 <= i < |ts| ==> rs[i] == Label(ts[i], Dotted(parentId, ts[i].name))
    ensures IdsOfAll(rs) == FlatIdsOfAll(ts, parentId)
    decreases ts
  {
    if ts != [] {
      FlatIdsOfLabel(ts[0], Dotted(parentId, ts[0].name));
      FlatIdsOfLabelSiblings(ts[1..], rs[1..], parentId);
    }
  }

  /** Numbering a tree from `at` under an earlier parent gives every node an earlier parent. */
  lemma {:induction false} ParentsPrecede(t: Tree, parent: int, at: nat)
    requires -1 <= parent < at
    ensures forall k :: 0 <= k < |Parents(t, parent, at)| ==> -1 <= Parents(t, parent, at)[k] < at + k
    decreases t
  {
    ParentsOfAllPrecede(t.children, at, at + 1);
  }

  lemma {:induction false} ParentsOfAllPrecede(ts: seq<Tree>, parent: int, at: nat)
    requires -1 <= parent < at
    ensures forall k :: 0 <= k < |ParentsOfAll(ts, parent, at)| ==> -1 <= ParentsOfAll(ts, parent, at)[k] < at + k
    decreases ts
  {
    if ts != [] {
      var n := |Names(ts[0])|;
      ParentsPrecede(ts[0], parent, at);
      ParentsOfAllPrecede(ts[1..], parent, at + n);
    }
  }

  /** A slice that is a concatenation splits into the two parts at the seam. */
  lemma SliceSplit<T>(s: seq<T>, at: nat, x: seq<T>, y: seq<T>)
    requires at + |x| + |y| <= |s| && s[at..at + |x| + |y|] == x + y
    ensures s[at..at + |x|] == x && s[at + |x|..at + |x| + |y|] == y
  {
    assert s[at..at + |x|] == s[at..at + |x| + |y|][..|x|];
    assert s[at + |x|..at + |x| + |y|] == s[at..at + |x| + |y|][|x|..];
  }

  /** Two adjacent slices join into one. */
  lemma SliceJoin<T>(s: seq<T>, at: nat, n: nat, k: nat, x: seq<T>, y: seq<T>, xy: seq<T>)
    requires at + n + k <= |s|
    requires s[at..at + n] == x && s[at + n..at + n + k] == y && xy == x + y
    ensures s[at..at + n + k] == xy
  {
    assert s[at..at + n + k] == s[at..at + n] + s[at + n..at + n + k];
  }

  /**
   * The nodes of `t` are numbered from `at` on in visiting order, its root under
   * `parent`: node `at` is `t`'s root and its children follow from `at + 1`.
   */
  predicate PlacedTree(t: Tree, names: seq<string>, parents: seq<int>, parent: int, at: nat)
    decreases t
  {
    && at + |Names(t)| <= |names| == |parents|
    && names[at] == t.name && parents[at] == parent
    && PlacedSiblings(t.children, names, parents, at, at + 1)
  }

  /** The nodes of the siblings `ts` are numbered from `at` on, one sibling after another. */
  predicate PlacedSiblings(ts: seq<Tree>, names: seq<string>, parents: seq<int>, parent: int, at: nat)
    decreases ts
  {
    && at + |NamesOfAll(ts)| <= |names| == |parents|
    && (ts != [] ==>
          && PlacedTree(ts[0], names, parents, parent, at)
          && PlacedSiblings(ts[1..], names, parents, parent, at + |Names(ts[0])|))
  }

  /** Where a stretch of `names` and `parents` is the flattening of `t`, `t` is numbered there. */
  lemma {:induction false} FlatteningPlacesTree(t: Tree, names: seq<string>, parents: seq<int>, parent: int, at: nat)
    requires at + |Names(t)| <= |names| == |parents|
    requires names[at..at + |Names(t)|] == Names(t)
    requires parents[at..at + |Names(t)|] == Parents(t, parent, at)
    ensures PlacedTree(t, names, parents, parent, at)
    decreases t
  {
    SliceSplit(names, at, [t.name], NamesOfAll(t.children));
    SliceSplit(parents, at, [parent], ParentsOfAll(t.children, at, at + 1));
    assert names[at] == names[at..at + 1][0];
    assert parents[at] == parents[at..at + 1][0];
    FlatteningPlacesSiblings(t.children, names, parents, at, at + 1);
  }

  /** The flattening of a sibling group is the first sibling's, then the rest's. */
  lemma FlatteningSplits(ts: seq<Tree>, names: seq<string>, parents: seq<int>, parent: int, at: nat)
    requires ts != [] && at + |NamesOfAll(ts)| <= |names| == |parents|
    requires names[at..at + |NamesOfAll(ts)|] == NamesOfAll(ts)
    requires parents[at..at + |NamesOfAll(ts)|] == ParentsOfAll(ts, parent, at)
    ensures names[at..at + |Names(ts[0])|] == Names(ts[0])
    ensures parents[at..at + |Names(ts[0])|] == Parents(ts[0], parent, at)
    ensures names[at + |Names(ts[0])|..at + |NamesOfAll(ts)|] == NamesOfAll(ts[1..])
    ensures parents[at + |Names(ts[0])|..at + |NamesOfAll(ts)|] == ParentsOfAll(ts[1..], parent, at + |Names(ts[0])|)
  {
    var t := ts[0];
    assert |NamesOfAll(ts)| == |Names(t)| + |NamesOfAll(ts[1..])|;
    SliceSplit(names, at, Names(t), NamesOfAll(ts[1..]));
    SliceSplit(parents, at, Parents(t, parent, at), ParentsOfAll(ts[1..], parent, at + |Names(t)|));
  }

  lemma {:induction false} FlatteningPlacesSiblings(ts: seq<Tree>, names: seq<string>, parents: seq<int>,
                                                    parent: int, at: nat)
    requires at + |NamesOfAll(ts)| <= |names| == |parents|
    requires names[at..at + |NamesOfAll(ts)|] == NamesOfAll(ts)
    requires parents[at..at + |NamesOfAll(ts)|] == ParentsOfAll(ts, parent, at)
    ensures PlacedSiblings(ts, names, parents, parent, at)
    decreases ts
  {
    if ts != [] {
      var t := ts[0];
      FlatteningSplits(ts, names, parents, parent, at);
      FlatteningPlacesTree(t, names, parents, parent, at);
      FlatteningPlacesSiblings(ts[1..], names, parents, parent, at + |Names(t)|);
    }
  }

  /**
   * Inside a larger numbering, the nodes of `t` occupy the indices from `at` on; if
   * ids that follow the parent rule give node `at` the id `id`, they give `t`'s nodes
   * the ids of `Label(t, id)`.
   */
  lemma {:induction false} PassLabelsSubtree(t: Tree, id: string, names: seq<string>, parents: seq<int>,
                                             ids: seq<string>, parent: int, at: nat)
    requires FollowsParents(names, parents, ids) && PlacedTree(t, names, parents, parent, at)
    requires ids[at] == id
    ensures ids[at..at + |Names(t)|] == FlatIds(t, id)
    decreases t
  {
    PassLabelsSiblings(t.children, id, names, parents, ids, at, at + 1);
    assert ids[at..at + 1] == [id];
    SliceJoin(ids, at, 1, |NamesOfAll(t.children)|, [id], FlatIdsOfAll(t.children, id), FlatIds(t, id));
  }

  /** Ids laid out for the first sibling and then for the rest are the ids of the whole group. */
  lemma FlatIdsJoin(ids: seq<string>, ts: seq<Tree>, parentId: string, at: nat)
    requires ts != [] && at + |NamesOfAll(ts)| <= |ids|
    requires ids[at..at + |Names(ts[0])|] == FlatIds(ts[0], Dotted(parentId, ts[0].name))
    requires ids[at + |Names(ts[0])|..at + |Names(ts[0])| + |NamesOfAll(ts[1..])|] == FlatIdsOfAll(ts[1..], parentId)
    ensures ids[at..at + |NamesOfAll(ts)|] == FlatIdsOfAll(ts, parentId)
  {
    var n := |Names(ts[0])|;
    assert |NamesOfAll(ts)| == n + |NamesOfAll(ts[1..])|;
    SliceJoin(ids, at, n, |NamesOfAll(ts[1..])|,
              FlatIds(ts[0], Dotted(parentId, ts[0].name)), FlatIdsOfAll(ts[1..], parentId), FlatIdsOfAll(ts, parentId));
  }

  lemma {:induction false} PassLabelsSiblings(ts: seq<Tree>, parentId: string, names: seq<string>,
                                              parents: seq<int>, ids: seq<string>, parent: nat, at: nat)
    requires FollowsParents(names, parents, ids) && PlacedSiblings(ts, names, parents, parent, at)
    requires parent < at && ids[parent] == parentId
    ensures ids[at..at + |NamesOfAll(ts)|] == FlatIdsOfAll(ts, parentId)
    decreases ts
  {
    if ts != [] {
      var t := ts[0];
      var n := |Names(t)|;
      assert |NamesOfAll(ts)| == n + |NamesOfAll(ts[1..])|;
      PassLabelsSiblings(ts[1..], parentId, names, parents, ids, parent, at + n);
      assert FollowsParentAt(names, parents, ids, at);
      PassLabelsSubtree(t, Dotted(parentId, t.name), names, parents, ids, parent, at);
      FlatIdsJoin(ids, ts, parentId, at);
    }
  }

  /**
   * Run on the tree's nodes in visiting order, the in-place pass writes exactly the
   * ids of the recursive definition.
   */
  lemma PassMatchesAssignIds(t: Tree)
    ensures ParentsFirst(Parents(t, -1, 0))
    ensures PathIds(Names(t), Parents(t, -1, 0)) == Ids(AssignIds(t))
  {
    var names, parents := Names(t), Parents(t, -1, 0);
    ParentsPrecede(t, -1, 0);
    var ids := PathIds(names, parents);
    FollowsParentsExactlyPathIds(names, parents, ids);
    assert names[0..|names|] == names && parents[0..|names|] == parents;
    FlatteningPlacesTree(t, names, parents, -1, 0);
    PassLabelsSubtree(t, t.name, names, parents, ids, -1, 0);
    FlatIdsOfLabel(t, t.name);
    assert ids[0..|names|] == ids;
  }

  /** The whole pass over a tree: number its nodes in visiting order, then write their ids. */
  method AssignTreeIds(t: Tree) returns (ids: array<string>)
    ensures ids[..] == Ids(AssignIds(t))
  {
    var names, parents := Names(t), Parents(t, -1, 0);
    PassMatchesAssignIds(t);
    ids := new string[|names|];
    AssignIdsInPlace(names, parents, ids);
  }
}
