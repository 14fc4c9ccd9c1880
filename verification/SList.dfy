/** The intrusive singly linked list of s_list.h. `nodes` is the list that a root pointer denotes. */
module SList {
  import opened Common
  import opened Ordering

  class Elt {
    var next: Elt?

    constructor ()
      ensures next == null
    {
      next := null;
    }
  }

  /** Following `next` from `root` visits exactly `nodes` and ends. */
  ghost predicate IsList(root: Elt?, nodes: seq<Elt>)
    reads nodes
  {
    && root == ItemAt<Elt?>(nodes, 0, null)
    && forall i: nat :: i < |nodes| ==> nodes[i].next == ItemAt<Elt?>(nodes, i + 1, null)
  }

  /** A list that ends has no node twice. */
  lemma {:induction false} NoRepeats(root: Elt?, nodes: seq<Elt>, i: nat, j: nat)
    requires IsList(root, nodes) && i < j < |nodes|
    ensures nodes[i] != nodes[j]
    decreases |nodes| - j
  {
    if j + 1 < |nodes| {
      NoRepeats(root, nodes, i + 1, j + 1);
    }
    assert nodes[i].next == ItemAt<Elt?>(nodes, i + 1, null) && nodes[j].next == ItemAt<Elt?>(nodes, j + 1, null);
  }

  lemma AllDistinct(root: Elt?, nodes: seq<Elt>)
    requires IsList(root, nodes)
    ensures forall i, j :: 0 <= i < j < |nodes| ==> nodes[i] != nodes[j]
  {
    forall i, j | 0 <= i < j < |nodes|
      ensures nodes[i] != nodes[j]
    {
      NoRepeats(root, nodes, i, j);
    }
  }

  lemma {:induction false} SameUpTo(root: Elt?, a: seq<Elt>, b: seq<Elt>, n: nat)
    requires IsList(root, a) && IsList(root, b) && n <= |a| && n <= |b|
    ensures a[..n] == b[..n] && ItemAt<Elt?>(a, n, null) == ItemAt<Elt?>(b, n, null)
    decreases n
  {
    if n > 0 {
      SameUpTo(root, a, b, n - 1);
      assert a[n - 1].next == ItemAt<Elt?>(a, n, null) && b[n - 1].next == ItemAt<Elt?>(b, n, null);
    }
  }

  /** A root denotes at most one list. */
  lemma ListUnique(root: Elt?, a: seq<Elt>, b: seq<Elt>)
    requires IsList(root, a) && IsList(root, b)
    ensures a == b
  {
    var n := if |a| < |b| then |a| else |b|;
    SameUpTo(root, a, b, n);
    assert ItemAt<Elt?>(a, n, null) == ItemAt<Elt?>(b, n, null);
    assert |a| == |b|;
    assert a == a[..n] && b == b[..n];
  }

  /** The links around position `i` make the list with `link` put there. */
  lemma LinkedIn(root: Elt?, nodes: seq<Elt>, i: nat, link: Elt)
    requires i <= |nodes|
    requires link.next == ItemAt<Elt?>(nodes, i, null)
    requires if i == 0 then root == link else root == ItemAt<Elt?>(nodes, 0, null) && nodes[i - 1].next == link
    requires forall j: nat :: j < |nodes| && j != i - 1 ==> nodes[j].next == ItemAt<Elt?>(nodes, j + 1, null)
    ensures IsList(root, InsertAt(nodes, i, link))
  {
    var r := InsertAt(nodes, i, link);
    forall j: nat | j < |r|
      ensures r[j].next == ItemAt<Elt?>(r, j + 1, null)
    {
      if j < i {
        assert r[j] == nodes[j];
      } else if j > i {
        assert r[j] == nodes[j - 1];
      }
    }
  }

  /** `slist_insert_elt`: insert `link` before the first node not smaller, and return the root. */
  method InsertElt(root: Elt?, link: Elt, cmp: (Elt, Elt) -> int, ghost nodes: seq<Elt>) returns (newr: Elt?)
    requires IsList(root, nodes) && link !in nodes
    modifies nodes, link
    ensures IsList(newr, InsertBefore(nodes, link, cmp))
  {
    hide Span, InsertAt, InsertBefore;
    AllDistinct(root, nodes);
    var walk, pwalk: Elt? := root, null;
    newr := root;
    ghost var i: nat := 0;
    while walk != null && cmp(walk, link) < 0
      invariant i <= |nodes| && walk == ItemAt<Elt?>(nodes, i, null)
      invariant pwalk == if i == 0 then null else nodes[i - 1]
      invariant forall j :: 0 <= j < i ==> cmp(nodes[j], link) < 0
      decreases |nodes| - i
    {
      pwalk := walk;
      walk := walk.next;
      i := i + 1;
    }
    InsertBeforeAt(nodes, link, cmp, i);
    if pwalk == null {
      link.next := root;
      newr := link;
    } else {
      link.next := pwalk.next;
      pwalk.next := link;
    }
    LinkedIn(newr, nodes, i, link);
  }

  /** The links past position `i` make the list without its node. */
  lemma LinkedPast(root: Elt?, nodes: seq<Elt>, i: nat)
    requires i < |nodes|
    requires if i == 0 then root == ItemAt<Elt?>(nodes, 1, null)
             else root == ItemAt<Elt?>(nodes, 0, null) && nodes[i - 1].next == ItemAt<Elt?>(nodes, i + 1, null)
    requires forall j: nat :: j < |nodes| && j != i - 1 ==> nodes[j].next == ItemAt<Elt?>(nodes, j + 1, null)
    ensures IsList(root, nodes[..i] + nodes[i + 1..])
  {
    var r := nodes[..i] + nodes[i + 1..];
    forall j: nat | j < |r|
      ensures r[j].next == ItemAt<Elt?>(r, j + 1, null)
    {
      if j < i {
        assert r[j] == nodes[j];
      } else {
        assert r[j] == nodes[j + 1];
      }
    }
  }

  /** `slist_remove_elt`: unlink `node` if it is in the list, and return the root. The links of
      `node` itself are left as they were. */
  method RemoveElt(root: Elt?, node: Elt, ghost nodes: seq<Elt>) returns (newr: Elt?)
    requires IsList(root, nodes)
    modifies nodes
    ensures IsList(newr, Without(nodes, node))
    ensures node.next == old(node.next)
    ensures node !in nodes ==> newr == root && forall n :: n in nodes ==> n.next == old(n.next)
  {
    hide Span, Without;
    AllDistinct(root, nodes);
    var walk, pwalk: Elt? := root, null;
    newr := root;
    ghost var i: nat := 0;
    while walk != null && walk != node
      invariant i <= |nodes| && walk == ItemAt<Elt?>(nodes, i, null)
      invariant pwalk == if i == 0 then null else nodes[i - 1]
      invariant forall j :: 0 <= j < i ==> nodes[j] != node
      decreases |nodes| - i
    {
      pwalk := walk;
      walk := walk.next;
      i := i + 1;
    }
    WithoutAt(nodes, node, i);
    if walk == node {
      if pwalk == null {
        newr := root.next;
      } else {
        pwalk.next := walk.next;
      }
      LinkedPast(newr, nodes, i);
    }
  }

  /** Building a list from empty: sorted, with equal nodes in the opposite order to their arrival. */
  method Build(xs: seq<Elt>, cmp: (Elt, Elt) -> int) returns (root: Elt?)
    requires forall i, j :: 0 <= i < j < |xs| ==> xs[i] != xs[j]
    modifies xs
    ensures IsList(root, BuildBefore(xs, cmp))
  {
    hide InsertBefore;
    root := null;
    for n := 0 to |xs|
      invariant IsList(root, BuildBefore(xs[..n], cmp))
    {
      ghost var built := BuildBefore(xs[..n], cmp);
      BuildWithin(xs[..n], cmp, set x | x in xs[..n]);
      root := InsertElt(root, xs[n], cmp, built);
      assert xs[..n + 1][..n] == xs[..n];
    }
    assert xs[..|xs|] == xs;
  }

  /** Inserting a fresh node and removing it again gives back the same root and the same list. */
  method InsertThenRemove(root: Elt?, link: Elt, cmp: (Elt, Elt) -> int, ghost nodes: seq<Elt>) returns (newr: Elt?)
    requires IsList(root, nodes) && link !in nodes
    modifies nodes, link
    ensures newr == root && IsList(root, nodes)
    ensures forall i: nat :: i < |nodes| ==> nodes[i].next == old(nodes[i].next)
  {
    hide InsertBefore, Without;
    InsertWithin(nodes, link, cmp, (set n | n in nodes) + {link});
    WithoutUndoesInsert(nodes, link, cmp);
    var r := InsertElt(root, link, cmp, nodes);
    newr := RemoveElt(r, link, InsertBefore(nodes, link, cmp));
  }
}
