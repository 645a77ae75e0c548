/**
  What the highlighting pass produces: (tag, range) highlights handed to the
  highlighting consumer in order, and the entries it logs silently.
 */
module Highlights {
  import opened SyntaxTree

  /** The highlighting attribute ids the pass uses; a closed set. */
  datatype Tag = Keyword | TypeIdentifier | FieldIdentifier | VariableIdentifier | FunctionIdentifier

  datatype Highlight = Highlight(tag: Tag, range: Range)

  /** One cast failure logged silently; it names the function declaration it came from. */
  datatype LogEntry = InvalidCast(declaration: Range)

  /** The output of (part of) a pass: highlights in consumer order, and the log. */
  datatype Pass = Pass(highlights: seq<Highlight>, log: seq<LogEntry>)

  const Nothing := Pass([], [])

  function Emit(highlights: seq<Highlight>): Pass
  {
    Pass(highlights, [])
  }

  /** `a` followed by `b`. */
  function Then(a: Pass, b: Pass): Pass
  {
    Pass(a.highlights + b.highlights, a.log + b.log)
  }

  lemma ThenAssociative(a: Pass, b: Pass, c: Pass)
    ensures Then(Then(a, b), c) == Then(a, Then(b, c))
  {
    assert (a.highlights + b.highlights) + c.highlights == a.highlights + (b.highlights + c.highlights);
    assert (a.log + b.log) + c.log == a.log + (b.log + c.log);
  }

  /** One highlight with `tag` per name node, in name order. */
  function NameHighlights(names: seq<Node>, tag: Tag): (hs: seq<Highlight>)
    ensures |hs| == |names|
    ensures forall i | 0 <= i < |names| :: hs[i] == Highlight(tag, names[i].range)
  {
    if names == [] then [] else [Highlight(tag, names[0].range)] + NameHighlights(names[1..], tag)
  }

  lemma InNameHighlights(names: seq<Node>, tag: Tag, h: Highlight)
    ensures h in NameHighlights(names, tag) <==> h.tag == tag && exists n | n in names :: n.range == h.range
  {
    var hs := NameHighlights(names, tag);
    if h in hs {
      var i :| 0 <= i < |hs| && hs[i] == h;
      assert names[i] in names;
    }
    if h.tag == tag && exists n | n in names :: n.range == h.range {
      var n :| n in names && n.range == h.range;
      var i :| 0 <= i < |names| && names[i] == n;
      assert hs[i] == h;
    }
  }

  /** How many highlights in `hs` carry `tag`. */
  function CountTag(hs: seq<Highlight>, tag: Tag): nat
  {
    if hs == [] then 0 else (if hs[0].tag == tag then 1 else 0) + CountTag(hs[1..], tag)
  }

  /** A sequence with no highlight of `tag` counts none. */
  lemma {:induction false} CountTagAbsent(hs: seq<Highlight>, tag: Tag)
    requires forall i | 0 <= i < |hs| :: hs[i].tag != tag
    ensures CountTag(hs, tag) == 0
  {
    if hs != [] {
      CountTagAbsent(hs[1..], tag);
    }
  }

  lemma {:induction false} CountTagAppend(a: seq<Highlight>, b: seq<Highlight>, tag: Tag)
    ensures CountTag(a + b, tag) == CountTag(a, tag) + CountTag(b, tag)
  {
    if a == [] {
      assert a + b == b;
    } else {
      assert (a + b)[1..] == a[1..] + b;
      CountTagAppend(a[1..], b, tag);
    }
  }

  lemma {:induction false} CountNameHighlights(names: seq<Node>, tag: Tag, other: Tag)
    ensures CountTag(NameHighlights(names, tag), other) == if tag == other then |names| else 0
  {
    if names != [] {
      CountNameHighlights(names[1..], tag, other);
    }
  }
}
