/**
 * The id pass over the data tree (script.js, lines 54-57): visiting parents before
 * children, each node's id is written as its name, prefixed by its parent's id and
 * a dot when it has a parent.
 */
module Hierarchy {

  /** A node of the fetched tree as the id pass sees it: its name and its children in order. */
  datatype Tree = Tree(name: string, children: seq<Tree>)

  /** The same tree after the pass: every node carries the id written into it. */
  datatype IdTree = IdTree(name: string, id: string, children: seq<IdTree>)

  /** A child's id: the parent's id, a dot, the child's name. */
  function Dotted(parentId: string, name: string): string {
    parentId + "." + name
  }

  /** The tree `t` labelled top-down, its root taking the id `id`. */
  function Label(t: Tree, id: string): (r: IdTree)
    ensures Erase(r) == t
  {
    IdTree(t.name, id,
      seq(|t.children|, i requires 0 <= i < |t.children| =>
        Label(t.children[i], Dotted(id, t.children[i].name))))
  }

  /** The whole pass: the root has no parent, so its id is its own name. */
  function AssignIds(t: Tree): (r: IdTree)
    ensures Erase(r) == t
  {
    Label(t, t.name)
  }

  /** Forgets the ids: the tree the pass started from. */
  function Erase(r: IdTree): (t: Tree)
    ensures |t.children| == |r.children|
  {
    Tree(r.name, seq(|r.children|, i requires 0 <= i < |r.children| => Erase(r.children[i])))
  }

  /** Every child's id is its parent's id, a dot and its own name, all the way down. */
  predicate WellLabelled(r: IdTree) {
    forall i :: 0 <= i < |r.children| ==>
      r.children[i].id == Dotted(r.id, r.children[i].name) && WellLabelled(r.children[i])
  }

  /** The pass gives the root its name and every child its parent's id, a dot and its name. */
  lemma {:induction false} AssignIdsWellLabelled(t: Tree)
    ensures AssignIds(t).id == t.name
    ensures WellLabelled(AssignIds(t))
  {
    LabelWellLabelled(t, t.name);
  }

  lemma {:induction false} LabelWellLabelled(t: Tree, id: string)
    ensures WellLabelled(Label(t, id))
  {
    var r := Label(t, id);
    forall i | 0 <= i < |r.children|
      ensures r.children[i].id == Dotted(r.id, r.children[i].name) && WellLabelled(r.children[i])
    {
      LabelWellLabelled(t.children[i], Dotted(id, t.children[i].name));
    }
  }

  /**
   * Conversely, a labelling of `t` whose root id is the root's name and in which every
   * child's id is its parent's id, a dot and its name is the one the pass produces.
   */
  lemma {:induction false} WellLabelledIsAssignIds(r: IdTree)
    requires WellLabelled(r)
    requires r.id == r.name
    ensures r == AssignIds(Erase(r))
  {
    WellLabelledIsLabel(r);
  }

  lemma {:induction false} WellLabelledIsLabel(r: IdTree)
    requires WellLabelled(r)
    ensures r == Label(Erase(r), r.id)
  {
    var t := Erase(r);
    var l := Label(t, r.id);
    forall i | 0 <= i < |r.children|
      ensures r.children[i] == l.children[i]
    {
      WellLabelledIsLabel(r.children[i]);
    }
    assert r.children == l.children;
  }

  // Paths: a path is the list of child indices followed from the root.

  predicate ValidPath(t: Tree, p: seq<nat>) {
    p == [] || (p[0] < |t.children| && ValidPath(t.children[p[0]], p[1..]))
  }

  /** The node reached from `t` along `p`. */
  function SubtreeAt(t: Tree, p: seq<nat>): Tree
    requires ValidPath(t, p)
  {
    if p == [] then t else SubtreeAt(t.children[p[0]], p[1..])
  }

  /** The labelled node reached from `r` along `p`. */
  function NodeAt(r: IdTree, p: seq<nat>): IdTree
    requires ValidPath(Erase(r), p)
  {
    if p == [] then r else NodeAt(r.children[p[0]], p[1..])
  }

  /** The names met on the way from the root to the node at `p`, both ends included. */
  function NamesAlong(t: Tree, p: seq<nat>): (ns: seq<string>)
    requires ValidPath(t, p)
    ensures |ns| == |p| + 1 && ns[0] == t.name
  {
    if p == [] then [t.name] else [t.name] + NamesAlong(t.children[p[0]], p[1..])
  }

  /** Names joined with dots: `a.b.c`. */
  function JoinDots(ns: seq<string>): string
    requires |ns| >= 1
  {
    if |ns| == 1 then ns[0] else ns[0] + "." + JoinDots(ns[1..])
  }

  lemma {:induction false} JoinDotsDotted(a: string, ns: seq<string>)
    requires |ns| >= 1
    ensures JoinDots([Dotted(a, ns[0])] + ns[1..]) == a + "." + JoinDots(ns)
  {
    var xs := [Dotted(a, ns[0])] + ns[1..];
    if |ns| > 1 {
      assert xs[1..] == ns[1..];
    }
  }

  /**
   * The id of every node is the dot-joined list of names from the root down to it.
   */
  lemma {:induction false} AssignIdsAlongPath(t: Tree, p: seq<nat>)
    requires ValidPath(t, p)
    ensures NodeAt(AssignIds(t), p).id == JoinDots(NamesAlong(t, p))
  {
    LabelAlongPath(t, t.name, p);
  }

  lemma {:induction false} LabelAlongPath(t: Tree, id: string, p: seq<nat>)
    requires ValidPath(t, p)
    ensures NodeAt(Label(t, id), p).id == JoinDots([id] + NamesAlong(t, p)[1..])
    decreases p
  {
    if p != [] {
      var c := t.children[p[0]];
      var cid := Dotted(id, c.name);
      LabelAlongPath(c, cid, p[1..]);
      var ns := NamesAlong(c, p[1..]);
      assert NamesAlong(t, p)[1..] == ns;
      JoinDotsDotted(id, ns);
      assert [cid] + ns[1..] == [Dotted(id, ns[0])] + ns[1..];
    }
  }

  lemma {:induction false} ValidPathAppend(t: Tree, p: seq<nat>, q: seq<nat>)
    requires ValidPath(t, p + q)
    ensures ValidPath(t, p) && ValidPath(SubtreeAt(t, p), q)
    decreases p
  {
    if p != [] {
      assert (p + q)[1..] == p[1..] + q;
      ValidPathAppend(t.children[p[0]], p[1..], q);
    } else {
      assert p + q == q;
    }
  }

  lemma {:induction false} NamesAlongAppend(t: Tree, p: seq<nat>, q: seq<nat>)
    requires ValidPath(t, p + q)
    ensures ValidPath(t, p) && ValidPath(SubtreeAt(t, p), q)
    ensures NamesAlong(t, p + q) == NamesAlong(t, p) + NamesAlong(SubtreeAt(t, p), q)[1..]
    decreases p
  {
    ValidPathAppend(t, p, q);
    if p != [] {
      var c := t.children[p[0]];
      assert (p + q)[1..] == p[1..] + q;
      NamesAlongAppend(c, p[1..], q);
      var tail := NamesAlong(SubtreeAt(c, p[1..]), q)[1..];
      calc {
        NamesAlong(t, p + q);
        [t.name] + NamesAlong(c, p[1..] + q);
        [t.name] + (NamesAlong(c, p[1..]) + tail);
        ([t.name] + NamesAlong(c, p[1..])) + tail;
      }
    } else {
      assert p + q == q;
    }
  }

  lemma {:induction false} JoinDotsAppend(a: seq<string>, b: seq<string>)
    requires |a| >= 1 && |b| >= 1
    ensures JoinDots(a + b) == JoinDots(a) + "." + JoinDots(b)
    decreases |a|
  {
    if |a| > 1 {
      assert (a + b)[1..] == a[1..] + b;
      JoinDotsAppend(a[1..], b);
    } else {
      assert (a + b)[1..] == b;
    }
  }

  /**
   * An ancestor's id followed by a dot begins the id of each of its descendants;
   * in particular a parent's id and a dot begin each child's id.
   */
  lemma {:induction false} AncestorIdIsPrefix(t: Tree, p: seq<nat>, q: seq<nat>)
    requires ValidPath(t, p + q) && q != []
    ensures ValidPath(t, p)
    ensures NodeAt(AssignIds(t), p).id + "." <= NodeAt(AssignIds(t), p + q).id
  {
    NamesAlongAppend(t, p, q);
    AssignIdsAlongPath(t, p);
    AssignIdsAlongPath(t, p + q);
    var a := NamesAlong(t, p);
    var b := NamesAlong(SubtreeAt(t, p), q)[1..];
    JoinDotsAppend(a, b);
  }

  /**
   * The pass gives no uniqueness guarantee: two siblings with the same name receive
   * the same id, and so do a child named `b.c` and a grandchild `c` under a child `b`.
   */
  lemma SharedIdsExist()
    ensures var t := Tree("root", [Tree("a", []), Tree("a", [])]);
      AssignIds(t).children[0].id == AssignIds(t).children[1].id == "root.a"
    ensures var t := Tree("a", [Tree("b.c", []), Tree("b", [Tree("c", [])])]);
      AssignIds(t).children[0].id == AssignIds(t).children[1].children[0].id == "a.b.c"
  {
    var b := Tree("b", [Tree("c", [])]);
    var t := Tree("a", [Tree("b.c", []), b]);
    assert Dotted("a", "b") == "a.b";
    assert Dotted("a.b", "c") == "a.b.c";
    assert AssignIds(t).children[1] == Label(b, "a.b");
    assert Label(b, "a.b").children[0] == Label(Tree("c", []), "a.b.c");
  }

  // Conditions under which ids are unique.

  predicate DotFree(s: string) {
    '.' !in s
  }

  /** Within every family siblings have different names, and no name holds a dot. */
  predicate Distinguishable(t: Tree) {
    && DotFree(t.name)
    && (forall i, j :: 0 <= i < j < |t.children| ==> t.children[i].name != t.children[j].name)
    && (forall i :: 0 <= i < |t.children| ==> Distinguishable(t.children[i]))
  }

  lemma {:induction false} DistinguishableNamesAlong(t: Tree, p: seq<nat>)
    requires Distinguishable(t) && ValidPath(t, p)
    ensures forall k :: 0 <= k < |NamesAlong(t, p)| ==> DotFree(NamesAlong(t, p)[k])
    decreases p
  {
    if p != [] {
      DistinguishableNamesAlong(t.children[p[0]], p[1..]);
    }
  }

  /** Different paths in a distinguishable tree meet different name lists. */
  lemma {:induction false} NamesAlongInjective(t: Tree, p: seq<nat>, q: seq<nat>)
    requires Distinguishable(t) && ValidPath(t, p) && ValidPath(t, q) && p != q
    ensures NamesAlong(t, p) != NamesAlong(t, q)
    decreases p
  {
    if p != [] && q != [] {
      var a := NamesAlong(t.children[p[0]], p[1..]);
      var b := NamesAlong(t.children[q[0]], q[1..]);
      assert NamesAlong(t, p)[1..] == a && NamesAlong(t, q)[1..] == b;
      if p[0] != q[0] {
        assert a[0] != b[0];
      } else {
        assert p[1..] != q[1..];
        NamesAlongInjective(t.children[p[0]], p[1..], q[1..]);
      }
    }
  }

  /** Joining dot-free names with dots loses nothing: the names can be read back. */
  lemma {:induction false} JoinDotsInjective(a: seq<string>, b: seq<string>)
    requires |a| >= 1 && |b| >= 1
    requires forall k :: 0 <= k < |a| ==> DotFree(a[k])
    requires forall k :: 0 <= k < |b| ==> DotFree(b[k])
    requires JoinDots(a) == JoinDots(b)
    ensures a == b
    decreases |a|
  {
    var x, y := a[0], b[0];
    var s := JoinDots(a);
    if |a| > 1 {
      assert s[|x|] == '.';
      if |b| == 1 {
        assert false;
      }
    }
    if |b| > 1 {
      assert s[|y|] == '.';
      if |a| == 1 {
        assert false;
      }
    }
    if |a| > 1 && |b| > 1 {
      if |x| < |y| {
        assert false;
      } else if |y| < |x| {
        assert false;
      }
      assert x == s[..|x|] == y;
      assert JoinDots(a[1..]) == s[|x| + 1..] == JoinDots(b[1..]);
      JoinDotsInjective(a[1..], b[1..]);
      assert a == [x] + a[1..] && b == [y] + b[1..];
    }
  }

  /**
   * When siblings have distinct names and no name holds a dot, different nodes get
   * different ids.
   */
  lemma IdsUniqueWhenDistinguishable(t: Tree, p: seq<nat>, q: seq<nat>)
    requires Distinguishable(t) && ValidPath(t, p) && ValidPath(t, q) && p != q
    ensures NodeAt(AssignIds(t), p).id != NodeAt(AssignIds(t), q).id
  {
    AssignIdsAlongPath(t, p);
    AssignIdsAlongPath(t, q);
    DistinguishableNamesAlong(t, p);
    DistinguishableNamesAlong(t, q);
    NamesAlongInjective(t, p, q);
    if JoinDots(NamesAlong(t, p)) == JoinDots(NamesAlong(t, q)) {
      JoinDotsInjective(NamesAlong(t, p), NamesAlong(t, q));
    }
  }
}
