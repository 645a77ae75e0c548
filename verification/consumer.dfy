/**
  The pass as the process runs it: a loop that pops the next node to visit,
  hands its rule's highlights to the consumer, and schedules its children ahead
  of everything still pending. It delivers exactly what `Classify` describes.
 */
module Consumer {
  import opened Wrappers
  import opened SyntaxTree
  import opened Highlights
  import opened IdentifierHighlighting
  import opened Traversal

  /** The visits of the children `cs` of `parent`, in order. */
  function ChildVisits(cs: seq<Node>, parent: Node): (vs: seq<Visit>)
    ensures |vs| == |cs|
    ensures forall i | 0 <= i < |cs| :: vs[i] == Visit(cs[i], Some(parent))
  {
    if cs == [] then [] else [Visit(cs[0], Some(parent))] + ChildVisits(cs[1..], parent)
  }

  /** Every visit still owed by a stack of scheduled visits, in the order they will happen. */
  ghost function Pending(stack: seq<Visit>): seq<Visit>
  {
    if stack == [] then [] else PreOrder(stack[0].node, stack[0].parent) + Pending(stack[1..])
  }

  lemma {:induction false} PendingAppend(a: seq<Visit>, b: seq<Visit>)
    ensures Pending(a + b) == Pending(a) + Pending(b)
  {
    if a == [] {
      assert a + b == b;
    } else {
      assert (a + b)[1..] == a[1..] + b;
      PendingAppend(a[1..], b);
    }
  }

  lemma {:induction false} PendingChildren(cs: seq<Node>, parent: Node)
    requires forall c | c in cs :: c < parent
    ensures Pending(ChildVisits(cs, parent)) == PreOrderAll(cs, parent)
    decreases |cs|
  {
    if cs != [] {
      assert forall c | c in cs[1..] :: c in cs;
      var vs := ChildVisits(cs, parent);
      assert vs[1..] == ChildVisits(cs[1..], parent);
      PendingChildren(cs[1..], parent);
    }
  }

  /** Popping `stack[0]` and pushing its children leaves every visit but that one still owed. */
  lemma PendingStep(stack: seq<Visit>)
    requires stack != []
    ensures Pending(stack) == [stack[0]] + Pending(ChildVisits(Children(stack[0].node), stack[0].node) + stack[1..])
  {
    var v := stack[0];
    PendingAppend(ChildVisits(Children(v.node), v.node), stack[1..]);
    PendingChildren(Children(v.node), v.node);
  }

  /** Run the pass over the whole tree, appending every highlight and log entry as the visitor does. */
  method Run(root: Node) returns (highlights: seq<Highlight>, log: seq<LogEntry>)
    ensures Pass(highlights, log) == Classify(root, None)
  {
    highlights, log := [], [];
    var stack := [Visit(root, None)];
    assert stack[1..] == [];
    assert Pending(stack) == PreOrder(root, None) + [];
    assert Pending(stack) == PreOrder(root, None);
    var all := OwnAll(PreOrder(root, None));
    assert Then(Nothing, all) == all;
    while stack != []
      invariant Then(Pass(highlights, log), OwnAll(Pending(stack))) == OwnAll(PreOrder(root, None))
      decreases |Pending(stack)|
    {
      var v := stack[0];
      var own := Own(v.node, v.parent);
      var next := ChildVisits(Children(v.node), v.node) + stack[1..];
      PendingStep(stack);
      assert ([v] + Pending(next))[1..] == Pending(next);
      ThenAssociative(Pass(highlights, log), own, OwnAll(Pending(next)));
      highlights := highlights + own.highlights;
      log := log + own.log;
      stack := next;
    }
    ClassifyIsPreOrder(root, None);
    assert Pass(highlights, log) == Then(Pass(highlights, log), Nothing);
  }
}
