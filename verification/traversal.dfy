/**
  An explicit listing of the pass: list every (node, parent) visit in pre-order,
  then apply each node's own rule along that list. The recursive classifier is
  proved to be exactly this, so every node is visited once, parents before
  children, siblings in order, and no rule is skipped because another matched.
 */
module Traversal {
  import opened Wrappers
  import opened SyntaxTree
  import opened Highlights
  import opened IdentifierHighlighting

  datatype Visit = Visit(node: Node, parent: Option<Node>)

  /** Every visit of the walk over the subtree rooted at `n`, in pre-order. */
  function PreOrder(n: Node, parent: Option<Node>): seq<Visit>
    decreases n, 1
  {
    [Visit(n, parent)] + PreOrderAll(Children(n), n)
  }

  function PreOrderAll(cs: seq<Node>, parent: Node): seq<Visit>
    requires forall c | c in cs :: c < parent
    decreases parent, 0, |cs|
  {
    if cs == [] then []
    else
      assert cs[0] in cs;
      assert forall c | c in cs[1..] :: c in cs;
      PreOrder(cs[0], Some(parent)) + PreOrderAll(cs[1..], parent)
  }

  /** Each visit's own rule, applied along `vs` in order. */
  function OwnAll(vs: seq<Visit>): Pass
  {
    if vs == [] then Nothing else Then(Own(vs[0].node, vs[0].parent), OwnAll(vs[1..]))
  }

  lemma {:induction false} OwnAllAppend(a: seq<Visit>, b: seq<Visit>)
    ensures OwnAll(a + b) == Then(OwnAll(a), OwnAll(b))
  {
    if a == [] {
      assert a + b == b;
      assert Then(Nothing, OwnAll(b)) == OwnAll(b);
    } else {
      assert (a + b)[1..] == a[1..] + b;
      OwnAllAppend(a[1..], b);
      ThenAssociative(Own(a[0].node, a[0].parent), OwnAll(a[1..]), OwnAll(b));
    }
  }

  /** The recursive pass equals the rules applied along the pre-order listing. */
  lemma {:induction false} ClassifyIsPreOrder(n: Node, parent: Option<Node>)
    ensures Classify(n, parent) == OwnAll(PreOrder(n, parent))
    decreases n, 1
  {
    ClassifyAllIsPreOrder(Children(n), n);
    OwnAllAppend([Visit(n, parent)], PreOrderAll(Children(n), n));
    assert OwnAll([Visit(n, parent)]) == Then(Own(n, parent), Nothing);
  }

  lemma {:induction false} ClassifyAllIsPreOrder(cs: seq<Node>, parent: Node)
    requires forall c | c in cs :: c < parent
    ensures ClassifyAll(cs, parent) == OwnAll(PreOrderAll(cs, parent))
    decreases parent, 0, |cs|
  {
    if cs == [] {
    } else {
      assert cs[0] in cs;
      assert forall c | c in cs[1..] :: c in cs;
      ClassifyIsPreOrder(cs[0], Some(parent));
      ClassifyAllIsPreOrder(cs[1..], parent);
      OwnAllAppend(PreOrder(cs[0], Some(parent)), PreOrderAll(cs[1..], parent));
    }
  }

  /** A highlight is in the output of a listing exactly when some visit's own rule emits it. */
  lemma {:induction false} InOwnAll(vs: seq<Visit>, h: Highlight)
    ensures h in OwnAll(vs).highlights <==> exists v | v in vs :: h in Own(v.node, v.parent).highlights
  {
    if vs != [] {
      InOwnAll(vs[1..], h);
      assert vs[0] in vs;
      assert forall v | v in vs :: v == vs[0] || v in vs[1..];
    }
  }

  /** The walk reaches every child of every node it reaches, with that node as parent. */
  lemma {:induction false} ChildVisited(n: Node, parent: Option<Node>, v: Visit, c: Node)
    requires v in PreOrder(n, parent) && c in Children(v.node)
    ensures Visit(c, Some(v.node)) in PreOrder(n, parent)
    decreases n, 1
  {
    if v == Visit(n, parent) {
      FirstVisitListed(Children(n), n, c);
    } else {
      assert v in PreOrderAll(Children(n), n);
      ChildVisitedAll(Children(n), n, v, c);
    }
  }

  lemma {:induction false} ChildVisitedAll(cs: seq<Node>, parent: Node, v: Visit, c: Node)
    requires forall c | c in cs :: c < parent
    requires v in PreOrderAll(cs, parent) && c in Children(v.node)
    ensures Visit(c, Some(v.node)) in PreOrderAll(cs, parent)
    decreases parent, 0, |cs|
  {
    assert cs != [];
    assert cs[0] in cs;
    assert forall c | c in cs[1..] :: c in cs;
    if v in PreOrder(cs[0], Some(parent)) {
      ChildVisited(cs[0], Some(parent), v, c);
    } else {
      ChildVisitedAll(cs[1..], parent, v, c);
    }
  }

  /** Each node of the list `cs` is visited, with `parent` as its parent. */
  lemma {:induction false} FirstVisitListed(cs: seq<Node>, parent: Node, c: Node)
    requires forall c | c in cs :: c < parent
    requires c in cs
    ensures Visit(c, Some(parent)) in PreOrderAll(cs, parent)
    decreases |cs|
  {
    assert cs[0] in cs;
    assert forall c | c in cs[1..] :: c in cs;
    if c == cs[0] {
      assert PreOrder(c, Some(parent))[0] == Visit(c, Some(parent));
    } else {
      FirstVisitListed(cs[1..], parent, c);
    }
  }

  /** Every visit's parent is the walk's own starting parent or a node the walk visits. */
  lemma {:induction false} ParentVisited(n: Node, parent: Option<Node>, v: Visit)
    requires v in PreOrder(n, parent)
    ensures v.parent == parent || exists w | w in PreOrder(n, parent) :: Some(w.node) == v.parent
    decreases n, 1
  {
    if v != Visit(n, parent) {
      assert v in PreOrderAll(Children(n), n);
      ParentVisitedAll(Children(n), n, v);
      if v.parent == Some(n) {
        assert PreOrder(n, parent)[0] == Visit(n, parent);
      }
    }
  }

  lemma {:induction false} ParentVisitedAll(cs: seq<Node>, parent: Node, v: Visit)
    requires forall c | c in cs :: c < parent
    requires v in PreOrderAll(cs, parent)
    ensures v.parent == Some(parent) || exists w | w in PreOrderAll(cs, parent) :: Some(w.node) == v.parent
    decreases parent, 0, |cs|
  {
    assert cs != [];
    assert cs[0] in cs;
    assert forall c | c in cs[1..] :: c in cs;
    if v in PreOrder(cs[0], Some(parent)) {
      ParentVisited(cs[0], Some(parent), v);
    } else {
      ParentVisitedAll(cs[1..], parent, v);
    }
  }
}
