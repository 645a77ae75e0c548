/**
  Properties of a whole pass. `Expected` says, without reference to how the rules
  are computed, which highlight a visit justifies; the pass emits a highlight
  exactly when some visit of the walk justifies it.
 */
module PassProperties {
  import opened Wrappers
  import opened SyntaxTree
  import opened Highlights
  import opened IdentifierHighlighting
  import opened Traversal

  /** The field declaration's content, first variable and that variable's type are all present. */
  predicate TypedField(n: Node)
  {
    n.FieldDeclaration? && FieldTypeNode(n.content).Some?
  }

  /** The visit `v` justifies highlight `h`. */
  ghost predicate Expected(v: Visit, h: Highlight)
  {
    var n := v.node;
    match h.tag
    case Keyword =>
      (n.BuiltInType? || n.Semantic?) && n.range == h.range
    case TypeIdentifier =>
      || (n.SingleVariableDeclaration? && n.typeNode.Some? && n.typeNode.value.range == h.range)
      || (TypedField(n) && n.content.value.firstVariable.value.typeNode.value.range == h.range)
      || (n.StructDeclaration? && n.name.range == h.range)
      || (n.FunctionDeclaration? && n.returnType.range == h.range)
    case FieldIdentifier =>
      || (n.FieldOperator? && n.field.range == h.range)
      || (TypedField(n) && exists m | m in n.content.value.names :: m.range == h.range)
    case VariableIdentifier =>
      n.VariableDeclaration? && exists m | m in n.names :: m.range == h.range
    case FunctionIdentifier =>
      || (n.PostfixExpression? && |n.operators| > 0 && n.operators[0].CallOperator?
          && n.operand.Identifier? && n.operand.range == h.range)
      || (n.CallOperator? && v.parent.Some? && v.parent.value.PostfixExpression?
          && v.parent.value.operand.Identifier? && v.parent.value.operand.range == h.range)
      || (n.FunctionDeclaration? && n.name.Identifier? && n.name.range == h.range)
  }

  /** A node's own rule emits `h` exactly when the visit justifies it. */
  lemma OwnMatchesExpected(v: Visit, h: Highlight)
    ensures h in Own(v.node, v.parent).highlights <==> Expected(v, h)
  {
    match v.node
    case VariableDeclaration(_, _, names, _) =>
      InNameHighlights(names, VariableIdentifier, h);
    case FieldDeclaration(_, content, _) =>
      if TypedField(v.node) {
        InNameHighlights(content.value.names, FieldIdentifier, h);
      }
    case _ =>
  }

  /** Both directions: the pass emits `h` iff some visit of the walk justifies it. */
  lemma ClassifyCharacterized(t: Node, parent: Option<Node>, h: Highlight)
    ensures h in Classify(t, parent).highlights <==> exists v | v in PreOrder(t, parent) :: Expected(v, h)
  {
    ClassifyIsPreOrder(t, parent);
    InOwnAll(PreOrder(t, parent), h);
    forall v | v in PreOrder(t, parent)
      ensures h in Own(v.node, v.parent).highlights <==> Expected(v, h)
    {
      OwnMatchesExpected(v, h);
    }
  }

  /** The range a visit of `t` contributes lies on some node of `t`. */
  ghost predicate RangeInTree(t: Node, r: Range)
  {
    exists w | w in PreOrder(t, None) :: w.node.range == r
  }

  /** A child of a visited node lies in the tree. */
  lemma ChildRangeInTree(t: Node, v: Visit, c: Node)
    requires v in PreOrder(t, None) && c in Children(v.node)
    ensures RangeInTree(t, c.range)
  {
    ChildVisited(t, None, v, c);
  }

  /** The ranges the field rule reads, two and three levels below the field declaration, lie in the tree. */
  lemma FieldRangesInTree(t: Node, v: Visit, h: Highlight)
    requires v in PreOrder(t, None) && TypedField(v.node)
    requires h.tag == TypeIdentifier ==> h.range == v.node.content.value.firstVariable.value.typeNode.value.range
    requires h.tag != TypeIdentifier ==> exists m | m in v.node.content.value.names :: m.range == h.range
    ensures RangeInTree(t, h.range)
  {
    var content := v.node.content.value;
    var first := content.firstVariable.value;
    ChildVisited(t, None, v, content);
    var vc := Visit(content, Some(v.node));
    if h.tag == TypeIdentifier {
      ChildVisited(t, None, vc, first);
      ChildRangeInTree(t, Visit(first, Some(content)), first.typeNode.value);
    } else {
      var m :| m in content.names && m.range == h.range;
      ChildRangeInTree(t, vc, m);
    }
  }

  /** The operand a call operator's rule reads from its parent lies in the tree. */
  lemma CalleeRangeInTree(t: Node, v: Visit)
    requires v in PreOrder(t, None) && v.parent.Some? && v.parent.value.PostfixExpression?
    ensures RangeInTree(t, v.parent.value.operand.range)
  {
    ParentVisited(t, None, v);
    var w :| w in PreOrder(t, None) && Some(w.node) == v.parent;
    ChildRangeInTree(t, w, w.node.operand);
  }

  /** The range a justified highlight carries is the range of some node of the tree. */
  lemma ExpectedRangeInTree(t: Node, v: Visit, h: Highlight)
    requires v in PreOrder(t, None) && Expected(v, h)
    ensures RangeInTree(t, h.range)
  {
    var n := v.node;
    match h.tag
    case Keyword =>
    case TypeIdentifier =>
      if n.SingleVariableDeclaration? && n.typeNode.Some? && n.typeNode.value.range == h.range {
        ChildRangeInTree(t, v, n.typeNode.value);
      } else if n.StructDeclaration? && n.name.range == h.range {
        ChildRangeInTree(t, v, n.name);
      } else if n.FunctionDeclaration? && n.returnType.range == h.range {
        ChildRangeInTree(t, v, n.returnType);
      } else {
        FieldRangesInTree(t, v, h);
      }
    case FieldIdentifier =>
      if n.FieldOperator? && n.field.range == h.range {
        ChildRangeInTree(t, v, n.field);
      } else {
        FieldRangesInTree(t, v, h);
      }
    case VariableIdentifier =>
      var m :| m in n.names && m.range == h.range;
      ChildRangeInTree(t, v, m);
    case FunctionIdentifier =>
      if n.PostfixExpression? && n.operand.range == h.range {
        ChildRangeInTree(t, v, n.operand);
      } else if n.FunctionDeclaration? && n.name.range == h.range {
        ChildRangeInTree(t, v, n.name);
      } else {
        CalleeRangeInTree(t, v);
      }
  }

  /** The pass never invents a range: every highlight's range is the range of some node of the tree. */
  lemma RangesComeFromTree(t: Node, h: Highlight)
    requires h in Classify(t, None).highlights
    ensures RangeInTree(t, h.range)
  {
    ClassifyCharacterized(t, None, h);
    var v :| v in PreOrder(t, None) && Expected(v, h);
    ExpectedRangeInTree(t, v, h);
  }

  /** KEYWORD is emitted on a range iff a built-in type or semantic node of the tree has that range. */
  lemma KeywordsAreBuiltInTypesAndSemantics(t: Node, parent: Option<Node>, r: Range)
    ensures Highlight(Keyword, r) in Classify(t, parent).highlights <==>
            exists v | v in PreOrder(t, parent) :: (v.node.BuiltInType? || v.node.Semantic?) && v.node.range == r
  {
    ClassifyCharacterized(t, parent, Highlight(Keyword, r));
  }

  /**
    For every function declaration of the tree, TYPE_IDENTIFIER on its return type is
    emitted, and FUNCTION_IDENTIFIER on its name whenever the name is an identifier.
   */
  lemma FunctionDeclarationsHighlighted(t: Node, parent: Option<Node>, v: Visit)
    requires v in PreOrder(t, parent) && v.node.FunctionDeclaration?
    ensures Highlight(TypeIdentifier, v.node.returnType.range) in Classify(t, parent).highlights
    ensures v.node.name.Identifier? ==> Highlight(FunctionIdentifier, v.node.name.range) in Classify(t, parent).highlights
  {
    ClassifyCharacterized(t, parent, Highlight(TypeIdentifier, v.node.returnType.range));
    ClassifyCharacterized(t, parent, Highlight(FunctionIdentifier, v.node.name.range));
  }

  /** The number of names declared by the variable declarations among `vs`. */
  function DeclaredNames(vs: seq<Visit>): nat
  {
    if vs == [] then 0
    else (if vs[0].node.VariableDeclaration? then |vs[0].node.names| else 0) + DeclaredNames(vs[1..])
  }

  /** Only a variable declaration's own rule emits VARIABLE_IDENTIFIER, once per name. */
  lemma OwnVariableCount(v: Visit)
    ensures CountTag(Own(v.node, v.parent).highlights, VariableIdentifier) ==
            if v.node.VariableDeclaration? then |v.node.names| else 0
  {
    match v.node
    case VariableDeclaration(_, _, names, _) =>
      CountNameHighlights(names, VariableIdentifier, VariableIdentifier);
    case FieldDeclaration(_, content, _) =>
      if TypedField(v.node) {
        var fields := NameHighlights(content.value.names, FieldIdentifier);
        CountNameHighlights(content.value.names, FieldIdentifier, VariableIdentifier);
        CountTagAppend([Highlight(TypeIdentifier, content.value.firstVariable.value.typeNode.value.range)], fields, VariableIdentifier);
      }
    case _ =>
      CountTagAbsent(Own(v.node, v.parent).highlights, VariableIdentifier);
  }

  lemma {:induction false} VariableCountAlong(vs: seq<Visit>)
    ensures CountTag(OwnAll(vs).highlights, VariableIdentifier) == DeclaredNames(vs)
  {
    if vs != [] {
      var v := vs[0];
      VariableCountAlong(vs[1..]);
      CountTagAppend(Own(v.node, v.parent).highlights, OwnAll(vs[1..]).highlights, VariableIdentifier);
      OwnVariableCount(v);
    }
  }

  /** A pass emits exactly one VARIABLE_IDENTIFIER per name declared by a variable declaration of the tree. */
  lemma VariableHighlightCount(t: Node, parent: Option<Node>)
    ensures CountTag(Classify(t, parent).highlights, VariableIdentifier) == DeclaredNames(PreOrder(t, parent))
  {
    ClassifyIsPreOrder(t, parent);
    VariableCountAlong(PreOrder(t, parent));
  }

  /** One entry per function declaration among `vs` whose name is not an identifier, in order. */
  function CastFailures(vs: seq<Visit>): seq<LogEntry>
  {
    if vs == [] then []
    else
      (if vs[0].node.FunctionDeclaration? && !vs[0].node.name.Identifier? then [InvalidCast(vs[0].node.range)] else [])
      + CastFailures(vs[1..])
  }

  lemma {:induction false} LogAlong(vs: seq<Visit>)
    ensures OwnAll(vs).log == CastFailures(vs)
  {
    if vs != [] {
      LogAlong(vs[1..]);
    }
  }

  /**
    The log holds exactly one entry per function declaration whose name failed to cast,
    in pre-order; nothing else is ever logged.
   */
  lemma LogIsCastFailures(t: Node, parent: Option<Node>)
    ensures Classify(t, parent).log == CastFailures(PreOrder(t, parent))
  {
    ClassifyIsPreOrder(t, parent);
    LogAlong(PreOrder(t, parent));
  }

  /**
    `foo()`: the postfix rule and the call-operator rule both fire, so the pass over a plain
    call starts with the same FUNCTION_IDENTIFIER highlight twice.
   */
  lemma PlainCallHighlightedTwice(n: Node, parent: Option<Node>)
    requires n.PostfixExpression? && n.operand.Identifier?
    requires |n.operators| > 0 && n.operators[0].CallOperator?
    ensures var h := Highlight(FunctionIdentifier, n.operand.range);
            var hs := Classify(n, parent).highlights;
            |hs| >= 2 && hs[0] == h && hs[1] == h
  {
    var h := Highlight(FunctionIdentifier, n.operand.range);
    var cs := Children(n);
    assert cs[0] == n.operand && cs[1..] == n.operators;
    assert ClassifyAll(Children(n.operand), n.operand) == Nothing;
    assert Classify(n.operand, Some(n)) == Nothing;
    var call := n.operators[0];
    assert forall c | c in n.operators :: c in cs;
    var first := Classify(call, Some(n));
    assert first.highlights[0] == h;
    assert ClassifyAll(cs, n).highlights == first.highlights + ClassifyAll(n.operators[1..], n).highlights;
  }

  /**
    The call rule fires for every call operator under a postfix expression with an
    identifier operand, wherever the call sits among the operators. When the call is the
    first operator it repeats the postfix rule's highlight; when it comes later, as in the
    method-style call `tex.Sample(s)`, the postfix rule is silent and the call rule alone
    tags the operand as a function.
   */
  lemma CallRuleOverlapsPostfixRule(n: Node, parent: Option<Node>, k: nat)
    requires n.PostfixExpression? && n.operand.Identifier?
    requires k < |n.operators| && n.operators[k].CallOperator?
    ensures var h := Highlight(FunctionIdentifier, n.operand.range);
            && Visit(n.operators[k], Some(n)) in PreOrder(n, parent)
            && Own(n.operators[k], Some(n)) == Emit([h])
            && h in Classify(n, parent).highlights
    ensures k == 0 ==> Own(n, parent) == Own(n.operators[k], Some(n))
    ensures !n.operators[0].CallOperator? ==> Own(n, parent) == Nothing
  {
    var h := Highlight(FunctionIdentifier, n.operand.range);
    var root := Visit(n, parent);
    assert PreOrder(n, parent)[0] == root;
    assert n.operators[k] in Children(n);
    ChildVisited(n, parent, root, n.operators[k]);
    assert Expected(Visit(n.operators[k], Some(n)), h);
    ClassifyCharacterized(n, parent, h);
  }

  /**
    Rules do not take precedence over each other: a built-in type that is a field's type
    gets TYPE_IDENTIFIER from the field rule and KEYWORD from its own rule.
   */
  lemma BuiltInFieldTypeGetsBothTags(fd: Node, parent: Option<Node>)
    requires TypedField(fd) && fd.content.value.firstVariable.value.typeNode.value.BuiltInType?
    ensures var r := fd.content.value.firstVariable.value.typeNode.value.range;
            && Highlight(TypeIdentifier, r) in Classify(fd, parent).highlights
            && Highlight(Keyword, r) in Classify(fd, parent).highlights
  {
    var content := fd.content.value;
    var first := content.firstVariable.value;
    var builtIn := first.typeNode.value;
    var r := builtIn.range;
    var root := Visit(fd, parent);
    assert PreOrder(fd, parent)[0] == root;
    assert Expected(root, Highlight(TypeIdentifier, r));
    ClassifyCharacterized(fd, parent, Highlight(TypeIdentifier, r));
    ChildVisited(fd, parent, root, content);
    ChildVisited(fd, parent, Visit(content, Some(fd)), first);
    ChildVisited(fd, parent, Visit(first, Some(content)), builtIn);
    assert Expected(Visit(builtIn, Some(first)), Highlight(Keyword, r));
    ClassifyCharacterized(fd, parent, Highlight(Keyword, r));
  }
}
