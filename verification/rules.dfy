/**
  One lemma per visitor override: what a node of that kind contributes to the
  pass, and that the pass then carries on into all of the node's children.
 */
module Rules {
  import opened Wrappers
  import opened SyntaxTree
  import opened Highlights
  import opened IdentifierHighlighting

  /** The pass over the children of `n`, with `n` as their parent. */
  function Descend(n: Node): Pass
  {
    ClassifyAll(Children(n), n)
  }

  /** A field access contributes one FIELD_IDENTIFIER on its field node, then visits the field node. */
  lemma VisitFieldOperator(n: Node, parent: Option<Node>)
    requires n.FieldOperator?
    ensures Classify(n, parent).highlights == [Highlight(FieldIdentifier, n.field.range)] + Classify(n.field, Some(n)).highlights
    ensures Classify(n, parent).log == Classify(n.field, Some(n)).log
  {
    var below := Classify(n.field, Some(n));
    var cs := Children(n);
    assert cs == [n.field] && cs[1..] == [];
    assert ClassifyAll(cs[1..], n) == Nothing;
    assert Descend(n) == Then(below, Nothing);
    assert below.highlights + [] == below.highlights && below.log + [] == below.log;
  }

  /** A postfix expression contributes FUNCTION_IDENTIFIER on its operand exactly when it is a plain call. */
  lemma VisitPostfixExpression(n: Node, parent: Option<Node>)
    requires n.PostfixExpression?
    ensures |n.operators| > 0 && n.operators[0].CallOperator? && n.operand.Identifier? ==>
              Classify(n, parent) == Then(Emit([Highlight(FunctionIdentifier, n.operand.range)]), Descend(n))
    ensures !(|n.operators| > 0 && n.operators[0].CallOperator? && n.operand.Identifier?) ==>
              Classify(n, parent) == Descend(n)
  {
  }

  /**
    A call operator under a postfix expression with an identifier operand contributes
    FUNCTION_IDENTIFIER on that operand, wherever the call sits among the operators; any
    other call operator contributes nothing of its own.
   */
  lemma VisitCallOperator(n: Node, parent: Option<Node>)
    requires n.CallOperator?
    ensures (match parent
             case Some(PostfixExpression(_, Identifier(r), _)) =>
               Classify(n, parent) == Then(Emit([Highlight(FunctionIdentifier, r)]), Descend(n))
             case _ => Classify(n, parent) == Descend(n))
  {
  }

  /** A single-variable declaration contributes TYPE_IDENTIFIER on its type node. */
  lemma VisitSingleVariableDeclaration(n: Node, parent: Option<Node>)
    requires n.SingleVariableDeclaration?
    ensures n.typeNode.Some? ==>
              Classify(n, parent) == Then(Emit([Highlight(TypeIdentifier, n.typeNode.value.range)]), Descend(n))
    ensures n.typeNode.None? ==> Classify(n, parent) == Descend(n)
  {
  }

  /** A variable declaration contributes one VARIABLE_IDENTIFIER per name node, in name order, and nothing else. */
  lemma VisitVariableDeclaration(n: Node, parent: Option<Node>)
    requires n.VariableDeclaration?
    ensures var own := Classify(n, parent).highlights[..|n.names|];
            && |own| == |n.names|
            && (forall i | 0 <= i < |n.names| :: own[i] == Highlight(VariableIdentifier, n.names[i].range))
            && Classify(n, parent) == Then(Emit(own), Descend(n))
    ensures CountTag(Own(n, parent).highlights, VariableIdentifier) == |n.names|
  {
    CountNameHighlights(n.names, VariableIdentifier, VariableIdentifier);
    var hs := NameHighlights(n.names, VariableIdentifier);
    assert (hs + Descend(n).highlights)[..|n.names|] == hs;
  }

  /** A built-in type contributes exactly one KEYWORD on its own range, never TYPE_IDENTIFIER. */
  lemma VisitBuiltInType(n: Node, parent: Option<Node>)
    requires n.BuiltInType?
    ensures Classify(n, parent) == Emit([Highlight(Keyword, n.range)])
    ensures CountTag(Classify(n, parent).highlights, TypeIdentifier) == 0
  {
  }

  /** A semantic contributes exactly one KEYWORD on its own range, never TYPE_IDENTIFIER. */
  lemma VisitSemantic(n: Node, parent: Option<Node>)
    requires n.Semantic?
    ensures Classify(n, parent) == Emit([Highlight(Keyword, n.range)])
    ensures CountTag(Classify(n, parent).highlights, TypeIdentifier) == 0
  {
  }

  /**
    A field declaration whose content, first variable or type node is missing contributes
    nothing; otherwise TYPE_IDENTIFIER on that type and FIELD_IDENTIFIER per name.
    Its children are visited either way.
   */
  lemma VisitFieldDeclaration(n: Node, parent: Option<Node>)
    requires n.FieldDeclaration?
    ensures match n.content
            case Some(VariableDeclaration(_, Some(SingleVariableDeclaration(_, Some(t), _)), names, _)) =>
              Classify(n, parent) == Then(Emit([Highlight(TypeIdentifier, t.range)] + NameHighlights(names, FieldIdentifier)), Descend(n))
            case _ => Classify(n, parent) == Descend(n)
  {
  }

  /** A struct contributes TYPE_IDENTIFIER on its name. */
  lemma VisitStructDeclaration(n: Node, parent: Option<Node>)
    requires n.StructDeclaration?
    ensures Classify(n, parent) == Then(Emit([Highlight(TypeIdentifier, n.name.range)]), Descend(n))
  {
  }

  /**
    A function declaration always contributes TYPE_IDENTIFIER on its return type; then
    FUNCTION_IDENTIFIER on its name if the name is an identifier, or else one log entry.
    Its children are visited either way.
   */
  lemma VisitFunctionDeclaration(n: Node, parent: Option<Node>)
    requires n.FunctionDeclaration?
    ensures Classify(n, parent).highlights[0] == Highlight(TypeIdentifier, n.returnType.range)
    ensures n.name.Identifier? ==>
              Classify(n, parent) ==
              Then(Emit([Highlight(TypeIdentifier, n.returnType.range), Highlight(FunctionIdentifier, n.name.range)]), Descend(n))
    ensures !n.name.Identifier? ==>
              Classify(n, parent) ==
              Then(Pass([Highlight(TypeIdentifier, n.returnType.range)], [InvalidCast(n.range)]), Descend(n))
  {
  }
}
