/** The hierarchy both core files walk: a TreeNode of the tree view, or an
    Object3D of the host's scene (id, name and ordered children; an absent
    `children` array behaves exactly like an empty one everywhere in the core). */
module Trees {
  import opened Lists

  datatype Option<T> = None | Some(value: T)

  datatype Tree = Node(id: int, name: string, children: seq<Tree>)

  /** The identifiers of `t` in depth-first pre-order, children in order. */
  function Ids(t: Tree): seq<int>
  {
    [t.id] + IdsOf(t.children)
  }

  function IdsOf(ts: seq<Tree>): seq<int>
  {
    if ts == [] then [] else Ids(ts[0]) + IdsOf(ts[1..])
  }

  /** The identifiers of a list of nodes, one per node. */
  function NodeIds(ns: seq<Tree>): (r: seq<int>)
    ensures |r| == |ns| && forall i :: 0 <= i < |ns| ==> r[i] == ns[i].id
  {
    if ns == [] then [] else [ns[0].id] + NodeIds(ns[1..])
  }

  /** The hierarchy invariant: no identifier occurs twice. */
  predicate UniqueIds(t: Tree)
  {
    Distinct(Ids(t))
  }

  /** The node reached from `t` by following child indices `p`. */
  function At(t: Tree, p: seq<nat>): Option<Tree>
    decreases |p|
  {
    if p == [] then Some(t)
    else if p[0] < |t.children| then At(t.children[p[0]], p[1..])
    else None
  }

  /** Pre-order search, the first match wins (three.js `getObjectById`,
      which also looks at the object itself). */
  function FindById(t: Tree, id: int): (r: Option<Tree>)
    ensures r.Some? ==> r.value.id == id
    ensures r.None? <==> id !in Ids(t)
  {
    if t.id == id then Some(t) else FindIn(t.children, id)
  }

  function FindIn(ts: seq<Tree>, id: int): (r: Option<Tree>)
    ensures r.Some? ==> r.value.id == id
    ensures r.None? <==> id !in IdsOf(ts)
  {
    if ts == [] then None
    else match FindById(ts[0], id)
      case Some(n) => Some(n)
      case None => FindIn(ts[1..], id)
  }

  /** The node found carries identifiers of the hierarchy only. */
  lemma {:induction false} FoundIds(t: Tree, id: int)
    requires FindById(t, id).Some?
    ensures multiset(Ids(FindById(t, id).value)) <= multiset(Ids(t))
    decreases t, 1
  {
    if t.id != id {
      FoundInIds(t.children, id);
    }
  }

  lemma {:induction false} FoundInIds(ts: seq<Tree>, id: int)
    requires FindIn(ts, id).Some?
    ensures multiset(Ids(FindIn(ts, id).value)) <= multiset(IdsOf(ts))
    decreases ts, 0
  {
    assert IdsOf(ts) == Ids(ts[0]) + IdsOf(ts[1..]);
    if FindById(ts[0], id).Some? {
      FoundIds(ts[0], id);
    } else {
      FoundInIds(ts[1..], id);
    }
  }

  // ---------------------------------------------------------------------------
  // Facts about identifiers

  lemma {:induction false} IdsOfAppend(a: seq<Tree>, b: seq<Tree>)
    ensures IdsOf(a + b) == IdsOf(a) + IdsOf(b)
  {
    if a == [] {
      assert a + b == b;
    } else {
      assert (a + b)[0] == a[0];
      assert (a + b)[1..] == a[1..] + b;
      IdsOfAppend(a[1..], b);
    }
  }

  lemma {:induction false} IdsOfLast(ts: seq<Tree>)
    requires ts != []
    ensures IdsOf(ts) == IdsOf(ts[..|ts| - 1]) + Ids(ts[|ts| - 1])
  {
    var n := |ts| - 1;
    assert ts == ts[..n] + [ts[n]];
    IdsOfAppend(ts[..n], [ts[n]]);
    assert IdsOf([ts[n]]) == Ids(ts[n]) + IdsOf([]);
  }

  /** Every identifier of a child list belongs to one of the children. */
  lemma {:induction false} IdsOfMember(ts: seq<Tree>, x: int)
    ensures x in IdsOf(ts) <==> exists i :: 0 <= i < |ts| && x in Ids(ts[i])
  {
    if ts != [] {
      IdsOfMember(ts[1..], x);
      if x in IdsOf(ts[1..]) {
        var i :| 0 <= i < |ts[1..]| && x in Ids(ts[1..][i]);
        assert x in Ids(ts[i + 1]);
      }
      forall i | 0 < i < |ts| && x in Ids(ts[i])
        ensures x in IdsOf(ts[1..])
      {
        assert ts[1..][i - 1] == ts[i];
      }
    }
  }

  /** The identifiers of child `i` form a block inside the child list's identifiers. */
  lemma {:induction false} IdsOfSplit(ts: seq<Tree>, i: nat)
    requires i < |ts|
    ensures IdsOf(ts) == IdsOf(ts[..i]) + Ids(ts[i]) + IdsOf(ts[i + 1..])
  {
    assert ts == ts[..i] + ([ts[i]] + ts[i + 1..]);
    IdsOfAppend(ts[..i], [ts[i]] + ts[i + 1..]);
    assert ([ts[i]] + ts[i + 1..])[0] == ts[i];
    assert ([ts[i]] + ts[i + 1..])[1..] == ts[i + 1..];
  }

  /** In a child list with unique identifiers each child is unique on its own and shares no
      identifier with a sibling. */
  lemma SiblingsDisjoint(cs: seq<Tree>, i: nat)
    requires Distinct(IdsOf(cs)) && i < |cs|
    ensures Distinct(Ids(cs[i]))
    ensures forall j :: 0 <= j < |cs| && j != i ==>
              forall x :: x in Ids(cs[i]) ==> x !in Ids(cs[j])
  {
    IdsOfSplit(cs, i);
    DistinctAppend(IdsOf(cs[..i]) + Ids(cs[i]), IdsOf(cs[i + 1..]));
    DistinctAppend(IdsOf(cs[..i]), Ids(cs[i]));
    forall j | 0 <= j < |cs| && j != i
      ensures forall x :: x in Ids(cs[i]) ==> x !in Ids(cs[j])
    {
      if j < i {
        forall x | x in Ids(cs[j]) ensures x in IdsOf(cs[..i]) {
          IdsOfMember(cs[..i], x);
          assert cs[..i][j] == cs[j];
        }
      } else {
        forall x | x in Ids(cs[j]) ensures x in IdsOf(cs[i + 1..]) {
          IdsOfMember(cs[i + 1..], x);
          assert cs[i + 1..][j - i - 1] == cs[j];
        }
      }
    }
  }

  /** Uniqueness holds in every child of a hierarchy with unique identifiers. */
  lemma ChildUnique(t: Tree, i: nat)
    requires UniqueIds(t) && i < |t.children|
    ensures UniqueIds(t.children[i])
    ensures t.id !in Ids(t.children[i])
    ensures forall j :: 0 <= j < |t.children| && j != i ==>
              forall x :: x in Ids(t.children[i]) ==> x !in Ids(t.children[j])
  {
    DistinctAppend([t.id], IdsOf(t.children));
    SiblingsDisjoint(t.children, i);
    IdsOfMember(t.children, t.id);
  }

  /** An identifier of the hierarchy is the identifier of the node at some path. */
  lemma {:induction false} IdAtSomePath(t: Tree, x: int) returns (p: seq<nat>)
    requires x in Ids(t)
    ensures At(t, p).Some? && At(t, p).value.id == x
    decreases t
  {
    if x == t.id {
      p := [];
    } else {
      IdsOfMember(t.children, x);
      var i :| 0 <= i < |t.children| && x in Ids(t.children[i]);
      var q := IdAtSomePath(t.children[i], x);
      p := [i] + q;
      assert p[1..] == q;
    }
  }

  lemma NodeIdsAppend(a: seq<Tree>, b: seq<Tree>)
    ensures NodeIds(a + b) == NodeIds(a) + NodeIds(b)
  {
  }

  /** One step down a path. */
  lemma AtStep(t: Tree, p: seq<nat>)
    requires p != [] && p[0] < |t.children|
    ensures At(t, p) == At(t.children[p[0]], p[1..])
  {
  }

  /** Following `p` then `q` is following `p + q`. */
  lemma {:induction false} AtAppend(t: Tree, p: seq<nat>, q: seq<nat>)
    requires At(t, p).Some?
    ensures At(t, p + q) == At(At(t, p).value, q)
    decreases |p|
  {
    if p == [] {
      assert p + q == q;
    } else {
      assert (p + q)[0] == p[0] && (p + q)[1..] == p[1..] + q;
      AtAppend(t.children[p[0]], p[1..], q);
    }
  }

  /** Every prefix of a path leads to a node. */
  lemma {:induction false} AtPrefix(t: Tree, p: seq<nat>, k: nat)
    requires At(t, p).Some? && k <= |p|
    ensures At(t, p[..k]).Some?
    decreases k
  {
    if k > 0 {
      assert p[..k][0] == p[0] && p[..k][1..] == p[1..][..k - 1];
      AtPrefix(t.children[p[0]], p[1..], k - 1);
    }
  }

  /** The node at a path carries an identifier of the hierarchy. */
  lemma AtIdIn(t: Tree, p: seq<nat>)
    requires At(t, p).Some?
    ensures At(t, p).value.id in Ids(t)
  {
    AtIds(t, p);
    assert Ids(At(t, p).value)[0] == At(t, p).value.id;
    assert At(t, p).value.id in multiset(Ids(At(t, p).value));
  }

  /** With unique identifiers, an identifier names at most one path. */
  lemma {:induction false} UniquePath(t: Tree, p1: seq<nat>, p2: seq<nat>)
    requires UniqueIds(t) && At(t, p1).Some? && At(t, p2).Some?
    requires At(t, p1).value.id == At(t, p2).value.id
    ensures p1 == p2
    decreases |p1|
  {
    if p1 == [] && p2 != [] {
      ChildUnique(t, p2[0]);
      AtIdIn(t.children[p2[0]], p2[1..]);
    } else if p1 != [] && p2 == [] {
      ChildUnique(t, p1[0]);
      AtIdIn(t.children[p1[0]], p1[1..]);
    } else if p1 != [] {
      ChildUnique(t, p1[0]);
      AtIdIn(t.children[p1[0]], p1[1..]);
      AtIdIn(t.children[p2[0]], p2[1..]);
      UniquePath(t.children[p1[0]], p1[1..], p2[1..]);
      assert p1 == [p1[0]] + p1[1..] && p2 == [p2[0]] + p2[1..];
    }
  }

  /** The node at any path carries identifiers of the hierarchy only. */
  lemma {:induction false} AtIds(t: Tree, p: seq<nat>)
    requires At(t, p).Some?
    ensures multiset(Ids(At(t, p).value)) <= multiset(Ids(t))
    decreases |p|
  {
    if p != [] {
      var i := p[0];
      AtIds(t.children[i], p[1..]);
      IdsOfSplit(t.children, i);
    }
  }
}
