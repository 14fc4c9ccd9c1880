/** The intrusive n-ary tree of n_tree.h: nodes with `next`, `parent` and `child` pointers, forming
    a forest. A removed node keeps its old `parent` and `next`, so "ancestor" always means the raw
    walk along `parent`. */
module NTree {
  import opened Common
  import opened Ordering

  class Node {
    var next: Node?
    var parent: Node?
    var child: Node?

    /** NTREE_ELT_INIT. */
    constructor ()
      ensures next == null && parent == null && child == null
    {
      next, parent, child := null, null, null;
    }
  }

  /** The ancestor walk `p` once `c` has been given a father whose walk is `up`: from `c` on,
      it goes up through the new father. */
  ghost function Rewalk(p: seq<Node>, c: Node, up: seq<Node>): seq<Node> {
    if p == [] then []
    else if p[0] == c then [c] + up
    else [p[0]] + Rewalk(p[1..], c, up)
  }

  lemma RewalkCons(n: Node, p: seq<Node>, c: Node, up: seq<Node>)
    ensures Rewalk([n] + p, c, up) == if n == c then [c] + up else [n] + Rewalk(p, c, up)
  {
    assert ([n] + p)[1..] == p;
  }

  lemma {:induction false} RewalkAbsent(p: seq<Node>, c: Node, up: seq<Node>)
    requires c !in p
    ensures Rewalk(p, c, up) == p
  {
    if p != [] {
      RewalkAbsent(p[1..], c, up);
    }
  }

  /** The children of `f`, from its `child` along `next`, are exactly `s`; all of them name
      `f` as their parent. */
  ghost predicate ChildList(f: Node, s: seq<Node>)
    reads f`child, s`next, s`parent
  {
    && f.child == ItemAt<Node?>(s, 0, null)
    && (forall i: nat :: i < |s| ==> s[i].next == ItemAt<Node?>(s, i + 1, null) && s[i].parent == f)
    && forall i, j :: 0 <= i < j < |s| ==> s[i] != s[j]
  }

  /** The walk along `parent` from `n` is finite: it is `n` followed by its parent's. */
  ghost predicate WalkOk(n: Node, walk: map<Node, seq<Node>>)
    requires n in walk
    reads n`parent
  {
    if n.parent == null then walk[n] == [n]
    else n.parent in walk && walk[n] == [n] + walk[n.parent]
  }

  ghost predicate AllWithin(kids: map<Node, seq<Node>>, nodes: set<Node>) {
    forall f :: f in kids ==> forall i :: 0 <= i < |kids[f]| ==> kids[f][i] in nodes
  }

  ghost predicate Unlinked(c: Node, kids: map<Node, seq<Node>>) {
    forall f :: f in kids ==> c !in kids[f]
  }

  lemma StillUnlinked(kids: map<Node, seq<Node>>, f: Node, s: seq<Node>, c: Node)
    requires Unlinked(c, kids) && c !in s
    ensures Unlinked(c, kids[f := s])
  {
  }

  lemma BuildNone(cs: seq<Node>, cmp: (Node, Node) -> int)
    ensures BuildAfter(cs[..0], cmp) == []
  {
  }

  lemma BuiltFrom(cs: seq<Node>, n: nat, cmp: (Node, Node) -> int)
    requires n < |cs| && cs[n] !in cs[..n]
    ensures n > 0 ==> BuildAfter(cs[..n], cmp) != []
    ensures cs[n] !in BuildAfter(cs[..n], cmp)
    ensures forall i :: 0 <= i < |BuildAfter(cs[..n], cmp)| ==> BuildAfter(cs[..n], cmp)[i] in cs
  {
    hide BuildAfter, BuildBefore;
    BuildWithin(cs[..n], cmp, set c | c in cs[..n]);
    BuildLength(cs[..n], cmp);
  }

  lemma BuildNext(cs: seq<Node>, n: nat, cmp: (Node, Node) -> int)
    requires n < |cs|
    ensures BuildAfter(cs[..n + 1], cmp) == InsertAfter(BuildAfter(cs[..n], cmp), cs[n], cmp)
  {
    assert cs[..n + 1][..n] == cs[..n];
  }

  /** The ancestor walks once `c` hangs under `f`. */
  ghost function Regrown(walk: map<Node, seq<Node>>, c: Node, f: Node): map<Node, seq<Node>>
    requires f in walk
  {
    map n | n in walk :: Rewalk(walk[n], c, walk[f])
  }

  lemma RegrownOk(n: Node, walk: map<Node, seq<Node>>, c: Node, f: Node)
    requires n in walk && f in walk && c in walk
    requires n != c && WalkOk(n, walk)
    ensures WalkOk(n, Regrown(walk, c, f))
  {
    if n.parent == null {
      RewalkCons(n, [], c, walk[f]);
      assert [n] + [] == [n];
    } else {
      RewalkCons(n, walk[n.parent], c, walk[f]);
    }
  }

  lemma RegrownChild(walk: map<Node, seq<Node>>, c: Node, f: Node)
    requires c in walk && f in walk && walk[c] != [] && walk[c][0] == c
    requires c !in walk[f] && c.parent == f
    ensures Regrown(walk, c, f)[f] == walk[f]
    ensures WalkOk(c, Regrown(walk, c, f))
  {
    RewalkAbsent(walk[f], c, walk[f]);
    RewalkCons(c, walk[c][1..], c, walk[f]);
    assert walk[c] == [c] + walk[c][1..];
  }

  lemma ChildLinkedIn(f: Node, s: seq<Node>, i: nat, c: Node)
    requires i <= |s| && c !in s && c.parent == f
    requires forall j, k :: 0 <= j < k < |s| ==> s[j] != s[k]
    requires forall j :: 0 <= j < |s| ==> s[j].parent == f
    requires c.next == ItemAt<Node?>(s, i, null)
    requires if i == 0 then f.child == c else f.child == ItemAt<Node?>(s, 0, null) && s[i - 1].next == c
    requires forall j: nat :: j < |s| && j != i - 1 ==> s[j].next == ItemAt<Node?>(s, j + 1, null)
    ensures ChildList(f, InsertAt(s, i, c))
  {
    hide InsertAt;
    InsertAtIndex<Node>(s, i, c);
    var r: seq<Node> := InsertAt<Node>(s, i, c);
    forall j: nat | j < |r|
      ensures r[j].next == ItemAt<Node?>(r, j + 1, null) && r[j].parent == f
    {
    }
  }

  lemma ChildLinkedPast(f: Node, s: seq<Node>, i: nat)
    requires i < |s|
    requires forall j, k :: 0 <= j < k < |s| ==> s[j] != s[k]
    requires forall j :: 0 <= j < |s| ==> s[j].parent == f
    requires if i == 0 then f.child == ItemAt<Node?>(s, 1, null)
             else f.child == ItemAt<Node?>(s, 0, null) && s[i - 1].next == ItemAt<Node?>(s, i + 1, null)
    requires forall j: nat :: j < |s| && j != i - 1 ==> s[j].next == ItemAt<Node?>(s, j + 1, null)
    ensures ChildList(f, s[..i] + s[i + 1..])
  {
    var r := s[..i] + s[i + 1..];
    forall j: nat | j < |r|
      ensures r[j].next == ItemAt<Node?>(r, j + 1, null) && r[j].parent == f
    {
      if j < i {
        assert r[j] == s[j];
      } else {
        assert r[j] == s[j + 1];
      }
    }
  }

  /** `ntree_prepend_child`, on the children `s` of `f`. */
  method Prepend(f: Node, c: Node, ghost s: seq<Node>)
    requires ChildList(f, s) && c !in s
    modifies f`child, c`next, c`parent
    ensures c.parent == f && ChildList(f, [c] + s)
  {
    var tmp := f.child;
    c.parent := f;
    f.child := c;
    c.next := tmp;
    ChildLinkedIn(f, s, 0, c);
    assert InsertAt(s, 0, c) == [c] + s;
  }

  /** `ntree_foreach_child_cond`: walk the children of `f` while `keep` holds; `before` is the last
      one passed, and `i` how many were. */
  method WalkWhile(f: Node, keep: Node -> bool, ghost s: seq<Node>)
    returns (walker: Node?, before: Node?, ghost i: nat)
    requires ChildList(f, s)
    ensures i <= |s| && walker == ItemAt<Node?>(s, i, null)
    ensures before == if i == 0 then null else s[i - 1]
    ensures forall j :: 0 <= j < i ==> keep(s[j])
    ensures i < |s| ==> !keep(s[i])
  {
    walker, before, i := f.child, null, 0;
    while walker != null && keep(walker)
      invariant i <= |s| && walker == ItemAt<Node?>(s, i, null)
      invariant before == if i == 0 then null else s[i - 1]
      invariant forall j :: 0 <= j < i ==> keep(s[j])
      decreases |s| - i
    {
      before := walker;
      walker := walker.next;
      i := i + 1;
    }
  }

  /** Links `c` after the child `before`, or first when there is none. */
  method LinkAfter(f: Node, before: Node?, c: Node, ghost s: seq<Node>, ghost i: nat)
    requires ChildList(f, s) && c !in s && c.parent == f
    requires i <= |s| && before == if i == 0 then null else s[i - 1]
    modifies f`child, c`next, s`next
    ensures ChildList(f, InsertAt(s, i, c))
  {
    hide InsertAt;
    if before == null {
      c.next := f.child;
      f.child := c;
    } else {
      c.next := before.next;
      before.next := c;
    }
    ChildLinkedIn(f, s, i, c);
  }

  lemma NoChildren(f: Node, s: seq<Node>)
    requires ChildList(f, s)
    ensures f.child == null <==> s == []
  {
  }

  lemma OnlyChild(f: Node, c: Node, s: seq<Node>)
    requires s == [] && f.child == c && c.parent == f
    ensures ChildList(f, InsertAt(s, 0, c)) <==> c.next == null
  {
    assert InsertAt(s, 0, c) == [c];
    assert c.next == null <==> [c][0].next == ItemAt<Node?>([c], 1, null);
  }

  /** `ntree_insert_child`, on the children `s` of `f`: after every child not greater. An only child
      keeps whatever `next` it had, so the result is a child list exactly if that does not matter or
      was null. */
  method Insert(f: Node, c: Node, cmp: (Node, Node) -> int, ghost s: seq<Node>)
    requires ChildList(f, s) && c !in s
    modifies f`child, c`next, c`parent, s`next
    ensures c.parent == f
    ensures ChildList(f, InsertAfter(s, c, cmp)) <==> s != [] || old(c.next) == null
    ensures s == [] ==> f.child == c && c.next == old(c.next)
  {
    hide ChildList, Span, InsertAt, InsertAfter;
    NoChildren(f, s);
    c.parent := f;
    if f.child == null {
      f.child := c;
      InsertAfterAt(s, c, cmp, 0);
      OnlyChild(f, c, s);
    } else {
      var walker, pwalk;
      ghost var i;
      walker, pwalk, i := WalkWhile(f, (w: Node) => cmp(w, c) <= 0, s);
      InsertAfterAt(s, c, cmp, i);
      LinkAfter(f, pwalk, c, s, i);
    }
  }

  /** `ntree_remove_child`, on the children `s` of `f`. The pointers of `c` stay as they were. */
  method Remove(f: Node, c: Node, ghost s: seq<Node>)
    requires ChildList(f, s)
    modifies f`child, s`next
    ensures ChildList(f, Without(s, c))
    ensures c.next == old(c.next)
  {
    hide Span, Without;
    var walker, pwalk;
    ghost var i;
    walker, pwalk, i := WalkWhile(f, (w: Node) => w != c, s);
    WithoutAt(s, c, i);
    if walker != null {
      if pwalk != null {
        pwalk.next := walker.next;
      } else {
        f.child := walker.next;
      }
      ChildLinkedPast(f, s, i);
    }
  }

  /** Different fathers have different children. */
  lemma ChildrenDisjoint(f: Node, s: seq<Node>, g: Node, t: seq<Node>)
    requires ChildList(f, s) && ChildList(g, t) && f != g
    ensures forall i, j :: 0 <= i < |s| && 0 <= j < |t| ==> s[i] != t[j]
  {
  }

  lemma RemovedInTurn(c: Node, d: Node)
    requires c != d
    ensures Without([c, d], c) == [d] && Without([d], d) == []
  {
    WithoutAt([c, d], c, 0);
    WithoutAt([d], d, 0);
  }

  lemma InsertedAlone(c: Node, cmp: (Node, Node) -> int)
    ensures InsertAfter([], c, cmp) == [c]
  {
    InsertAfterAt([], c, cmp, 0);
  }

  lemma TwoLinked(f: Node, c: Node, d: Node)
    requires f.child == c && c.next == d && d.next == null && c.parent == f && d.parent == f && c != d
    ensures ChildList(f, [c, d])
  {
  }

  /** A set of nodes, the child sequence of each, and the walk from each along `parent`. */
  class Forest {
    ghost var nodes: set<Node>
    ghost var kids: map<Node, seq<Node>>
    ghost var walk: map<Node, seq<Node>>

    ghost predicate Valid()
      reads this, nodes
    {
      && kids.Keys == nodes && walk.Keys == nodes
      && AllWithin(kids, nodes)
      && (forall f :: f in nodes ==> ChildList(f, kids[f]))
      && (forall n :: n in nodes ==> WalkOk(n, walk))
    }

    /** Separate nodes form a forest. */
    constructor (ns: set<Node>)
      requires forall n :: n in ns ==> n.parent == null && n.child == null
      ensures Valid() && nodes == ns
      ensures forall n :: n in ns ==> kids[n] == [] && walk[n] == [n]
    {
      nodes := ns;
      kids := map n | n in ns :: [];
      walk := map n | n in ns :: [n];
    }

    /** What a caller must know to hang `c` under `f`: `c` is in no child sequence, and not on the
        raw ancestor walk of `f`, which starts with `f` itself. */
    ghost predicate CanAdopt(f: Node, c: Node)
      requires Valid()
      reads this, nodes
    {
      f in nodes && c in nodes && Unlinked(c, kids) && c !in walk[f]
    }

    lemma WalkStarts(n: Node)
      requires Valid() && n in nodes
      ensures walk[n] != [] && walk[n][0] == n
    {
      assert WalkOk(n, walk);
    }

    lemma Domains()
      requires Valid()
      ensures kids.Keys == nodes && walk.Keys == nodes
    {
      hide ChildList, WalkOk, AllWithin;
    }

    lemma NotAChild(f: Node, c: Node)
      requires Valid() && f in nodes && Unlinked(c, kids)
      ensures f in kids && c !in kids[f]
    {
      hide ChildList, WalkOk, AllWithin;
    }

    lemma FathersApart(f: Node)
      requires Valid() && f in nodes
      ensures forall g :: g in nodes && g != f ==>
                forall i, j :: 0 <= i < |kids[f]| && 0 <= j < |kids[g]| ==> kids[f][i] != kids[g][j]
    {
      hide ChildList, WalkOk;
      forall g | g in nodes && g != f
        ensures forall i, j :: 0 <= i < |kids[f]| && 0 <= j < |kids[g]| ==> kids[f][i] != kids[g][j]
      {
        ChildrenDisjoint(f, kids[f], g, kids[g]);
      }
    }

    /** The maps to record once `c` has been linked under `f`: a forest if `f` has the children `s`. */
    ghost method Adopt(f: Node, c: Node, s: seq<Node>)
      requires f in nodes && c in nodes && kids.Keys == nodes && walk.Keys == nodes
      requires AllWithin(kids, nodes) && forall i :: 0 <= i < |s| ==> s[i] in nodes
      requires forall g :: g in nodes && g != f ==> ChildList(g, kids[g])
      requires forall n :: n in nodes && n != c ==> WalkOk(n, walk)
      requires c !in walk[f] && c.parent == f && walk[c] != [] && walk[c][0] == c
      modifies this
      ensures Valid() <==> ChildList(f, s)
      ensures nodes == old(nodes)
      ensures kids == old(kids)[f := s] && walk == Regrown(old(walk), c, f)
      ensures walk[f] == old(walk[f])
    {
      hide ChildList, Rewalk, WalkOk;
      forall n | n in nodes
        ensures WalkOk(n, Regrown(walk, c, f))
      {
        if n == c {
          RegrownChild(walk, c, f);
        } else {
          RegrownOk(n, walk, c, f);
        }
      }
      RegrownChild(walk, c, f);
      walk := Regrown(walk, c, f);
      kids := kids[f := s];
    }

    /** `ntree_prepend_child`. */
    method PrependChild(f: Node, c: Node)
      requires Valid() && CanAdopt(f, c)
      modifies this, f`child, c`next, c`parent
      ensures Valid() && nodes == old(nodes)
      ensures kids == old(kids)[f := [c] + old(kids[f])]
      ensures walk == Regrown(old(walk), c, f) && walk[f] == old(walk[f])
    {
      hide Rewalk, ChildList, WalkOk;
      WalkStarts(c);
      Prepend(f, c, kids[f]);
      Adopt(f, c, [c] + kids[f]);
    }

    /** `ntree_insert_child`. The forest stays one unless a stale `next` of `c`, left by an earlier
        removal, becomes visible under a childless father. */
    method InsertChild(f: Node, c: Node, cmp: (Node, Node) -> int)
      requires Valid() && CanAdopt(f, c)
      modifies this, f`child, c`next, c`parent, kids[f]`next
      ensures Valid() <==> old(kids[f]) != [] || old(c.next) == null
      ensures c.parent == f
      ensures old(kids[f]) == [] ==> f.child == c && c.next == old(c.next)
      ensures nodes == old(nodes)
      ensures kids == old(kids)[f := InsertAfter(old(kids[f]), c, cmp)]
      ensures walk == Regrown(old(walk), c, f) && walk[f] == old(walk[f])
    {
      hide Rewalk, ChildList, WalkOk, InsertAfter;
      WalkStarts(c);
      FathersApart(f);
      InsertWithin(kids[f], c, cmp, nodes);
      Insert(f, c, cmp, kids[f]);
      Adopt(f, c, InsertAfter(kids[f], c, cmp));
    }

    /** `ntree_remove_child`. No ancestor walk changes. */
    method RemoveChild(f: Node, c: Node)
      requires Valid() && f in nodes
      modifies this, f`child, kids[f]`next
      ensures Valid() && nodes == old(nodes) && walk == old(walk)
      ensures kids == old(kids)[f := Without(old(kids[f]), c)]
      ensures c.next == old(c.next)
    {
      hide ChildList, WalkOk, Without, Unlinked;
      FathersApart(f);
      WithoutWithin(kids[f], c, nodes);
      Remove(f, c, kids[f]);
      kids := kids[f := Without(kids[f], c)];
    }

    // ----- what a forest guarantees -----

    /** The walk from any node that a walk passes is the rest of that walk. */
    lemma {:induction false} WalkSuffix(n: Node, i: nat)
      requires Valid() && n in nodes && i < |walk[n]|
      ensures walk[n][i] in nodes && walk[n][i..] == walk[walk[n][i]]
      decreases i
    {
      hide ChildList;
      assert WalkOk(n, walk);
      if i > 0 {
        WalkSuffix(n.parent, i - 1);
      }
    }

    /** Ancestor walks have no cycle: no node is passed twice. */
    lemma NoCycle(n: Node, i: nat, j: nat)
      requires Valid() && n in nodes && i < j < |walk[n]|
      ensures walk[n][i] != walk[n][j]
    {
      WalkSuffix(n, i);
      WalkSuffix(n, j);
    }

    lemma WalkStep(n: Node)
      requires Valid() && n in nodes
      ensures n in walk
      ensures n.parent == null ==> walk[n] == [n]
      ensures n.parent != null ==> n.parent in nodes && n.parent in walk && walk[n] == [n] + walk[n.parent]
    {
      hide ChildList, AllWithin;
      assert WalkOk(n, walk);
    }

    /** What is left of an ancestor walk at `walker`. */
    ghost function Rest(walker: Node?): seq<Node>
      reads this
    {
      if walker != null && walker in walk then walk[walker] else []
    }

    /** A linked child's walk goes through its father, it is a child of nobody else, and it is not
        among the ancestors of its father. */
    lemma LinkedUnder(f: Node, c: Node)
      requires Valid() && f in nodes && c in kids[f]
      ensures c in nodes && c.parent == f && walk[c] == [c] + walk[f]
      ensures forall g :: g in nodes && c in kids[g] ==> g == f
      ensures c !in walk[f]
    {
      assert ChildList(f, kids[f]) && WalkOk(c, walk);
      if c in walk[f] {
        var i: nat :| i < |walk[f]| && walk[f][i] == c;
        NoCycle(c, 0, i + 1);
      }
    }

    /** `ntree_foreach_ancestor` ends, having visited the proper ancestors from the nearest up. */
    method Ancestors(n: Node) returns (visited: seq<Node>)
      requires Valid() && n in nodes && n in walk
      ensures [n] + visited == walk[n]
    {
      hide Valid;
      WalkStep(n);
      visited := [];
      var walker := n.parent;
      while walker != null
        invariant walker == null || walker in nodes
        invariant [n] + visited + Rest(walker) == walk[n]
        decreases |Rest(walker)|
      {
        WalkStep(walker);
        assert [n] + visited + ([walker] + Rest(walker.parent)) == [n] + (visited + [walker]) + Rest(walker.parent);
        visited := visited + [walker];
        walker := walker.parent;
      }
    }

    /** `ntree_foreach_child` visits the children in order. */
    method Children(f: Node) returns (visited: seq<Node>)
      requires Valid() && f in nodes
      ensures visited == kids[f]
    {
      ghost var s, i: nat := kids[f], 0;
      assert ChildList(f, s);
      visited := [];
      var walker := f.child;
      while walker != null
        invariant i <= |s| && walker == ItemAt<Node?>(s, i, null) && visited == s[..i]
        decreases |s| - i
      {
        visited := visited + [walker];
        walker := walker.next;
        i := i + 1;
      }
    }

    /** One of a series of insertions under `f`, which had the child sequences `kids0` before. */
    method InsertNext(f: Node, cs: seq<Node>, n: nat, cmp: (Node, Node) -> int, ghost kids0: map<Node, seq<Node>>)
      requires Valid() && n < |cs| && f in nodes && f in kids0
      requires kids == kids0[f := BuildAfter(cs[..n], cmp)]
      requires cs[n] in nodes && Unlinked(cs[n], kids0) && cs[n] !in walk[f] && cs[n] !in cs[..n]
      requires n == 0 ==> cs[n].next == null
      modifies this, f`child, cs`next, cs`parent
      ensures Valid() && nodes == old(nodes) && walk[f] == old(walk[f])
      ensures kids == kids0[f := BuildAfter(cs[..n + 1], cmp)]
    {
      hide Valid, Unlinked, Regrown, InsertAfter, BuildAfter;
      Domains();
      BuiltFrom(cs, n, cmp);
      StillUnlinked(kids0, f, BuildAfter(cs[..n], cmp), cs[n]);
      BuildNext(cs, n, cmp);
      InsertChild(f, cs[n], cmp);
    }

    /** Inserting nodes one by one under a childless father leaves it with their stable sort. */
    method InsertChildren(f: Node, cs: seq<Node>, cmp: (Node, Node) -> int)
      requires Valid() && f in nodes && kids[f] == []
      requires forall i :: 0 <= i < |cs| ==> CanAdopt(f, cs[i])
      requires forall i, j :: 0 <= i < j < |cs| ==> cs[i] != cs[j]
      requires cs != [] ==> cs[0].next == null
      modifies this, f`child, cs`next, cs`parent
      ensures Valid() && nodes == old(nodes)
      ensures kids == old(kids)[f := BuildAfter(cs, cmp)]
    {
      hide Valid, Unlinked, BuildAfter;
      Domains();
      ghost var kids0, up := kids, walk[f];
      BuildNone(cs, cmp);
      assert kids0[f := []] == kids0;
      for n := 0 to |cs|
        invariant Valid() && nodes == old(nodes) && f in walk && walk[f] == up
        invariant kids == kids0[f := BuildAfter(cs[..n], cmp)]
        invariant n == 0 && cs != [] ==> cs[0].next == null
      {
        InsertNext(f, cs, n, cmp, kids0);
        Domains();
      }
      assert cs[..|cs|] == cs;
    }

    /** Inserting a child and removing it restores every child sequence. */
    method InsertThenRemove(f: Node, c: Node, cmp: (Node, Node) -> int)
      requires Valid() && CanAdopt(f, c)
      requires kids[f] == [] ==> c.next == null
      modifies this, f`child, c`next, c`parent, kids[f]`next
      ensures Valid() && nodes == old(nodes) && kids == old(kids)
    {
      hide Valid, Unlinked, Regrown, InsertAfter, Without;
      Domains();
      NotAChild(f, c);
      WithoutUndoesInsert(kids[f], c, cmp);
      InsertWithin(kids[f], c, cmp, (set k | k in kids[f]) + {c});
      InsertChild(f, c, cmp);
      RemoveChild(f, c);
      assert kids == old(kids);
    }

    lemma TwoChildren(f: Node, c: Node, d: Node)
      requires Valid() && f in nodes && kids[f] == [c, d]
      ensures c != d && c in nodes && d in nodes && f in walk && c !in walk[f]
      ensures c.next == d && d.next == null && c.parent == f && d.parent == f
      ensures Unlinked(c, kids[f := []]) && Unlinked(d, kids[f := []])
    {
      assert ChildList(f, kids[f]);
      assert kids[f][0].next == ItemAt<Node?>(kids[f], 1, null) && kids[f][1].next == ItemAt<Node?>(kids[f], 2, null);
      LinkedUnder(f, c);
      LinkedUnder(f, d);
    }

    lemma LastChild(f: Node, d: Node)
      requires Valid() && f in nodes && kids[f] == [d]
      ensures d.next == null
    {
      assert ChildList(f, kids[f]);
      assert kids[f][0].next == ItemAt<Node?>(kids[f], 1, null);
    }

    /** With the operations alone: both children of a father removed and the first put back, the
        walk meets the second again, which was not put back. */
    method ReinsertFirst(f: Node, c: Node, d: Node, cmp: (Node, Node) -> int)
      requires Valid() && f in nodes && kids[f] == [c, d]
      modifies this, f`child, c`next, c`parent, d`next
      ensures kids == old(kids)[f := [c]]
      ensures !Valid() && ChildList(f, [c, d])
    {
      hide Valid, Unlinked, Regrown, InsertAfter, Without, ChildList;
      Domains();
      TwoChildren(f, c, d);
      RemovedInTurn(c, d);
      InsertedAlone(c, cmp);
      RemoveChild(f, c);
      Domains();
      LastChild(f, d);
      RemoveChild(f, d);
      Domains();
      assert kids == old(kids)[f := []];
      InsertChild(f, c, cmp);
      TwoLinked(f, c, d);
    }
  }
}
