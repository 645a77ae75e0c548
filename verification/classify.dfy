/**
  The identifier highlighting process: one rule per node kind, applied in a
  pre-order walk. At every node the rule's highlights come first, then the walk
  carries on into the node's children whether or not the rule matched.
 */
module IdentifierHighlighting {
  import opened Wrappers
  import opened SyntaxTree
  import opened Highlights

  /** The type node of a field declaration's first variable, when every step of the chain is present. */
  function FieldTypeNode(content: Option<Node>): (t: Option<Node>)
    ensures t.Some? ==> content.Some? && content.value.VariableDeclaration?
    ensures t.Some? <==>
              && content.Some? && content.value.VariableDeclaration?
              && content.value.firstVariable.Some? && content.value.firstVariable.value.SingleVariableDeclaration?
              && content.value.firstVariable.value.typeNode.Some?
    ensures t.Some? ==> t == content.value.firstVariable.value.typeNode
  {
    match content
    case Some(VariableDeclaration(_, Some(SingleVariableDeclaration(_, typeNode, _)), _, _)) => typeNode
    case _ => None
  }

  /** Whether the postfix expression's first operator is a call and its operand a bare identifier. */
  predicate IsPlainCall(operand: Node, operators: seq<Node>)
  {
    |operators| > 0 && operators[0].CallOperator? && operand.Identifier?
  }

  /** Whether `parent` is a postfix expression whose operand is a bare identifier. */
  predicate CalledThroughIdentifier(parent: Option<Node>)
  {
    parent.Some? && parent.value.PostfixExpression? && parent.value.operand.Identifier?
  }

  /** The field rule: guarded by the whole chain down to the type node being present. */
  function FieldDeclarationRule(content: Option<Node>): seq<Highlight>
  {
    match FieldTypeNode(content)
    case Some(t) => [Highlight(TypeIdentifier, t.range)] + NameHighlights(content.value.names, FieldIdentifier)
    case None => []
  }

  function FunctionDeclarationRule(declaration: Range, returnType: Node, name: Node): Pass
  {
    if name.Identifier? then
      Emit([Highlight(TypeIdentifier, returnType.range), Highlight(FunctionIdentifier, name.range)])
    else
      Pass([Highlight(TypeIdentifier, returnType.range)], [InvalidCast(declaration)])
  }

  /** What the rule for `n`'s kind contributes, `parent` being the node `n` hangs under. */
  function Own(n: Node, parent: Option<Node>): Pass
  {
    match n
    case FieldOperator(_, field) => Emit([Highlight(FieldIdentifier, field.range)])
    case PostfixExpression(_, operand, operators) =>
      if IsPlainCall(operand, operators) then Emit([Highlight(FunctionIdentifier, operand.range)]) else Nothing
    case CallOperator(_, _) =>
      // Any call under the expression, not only its first operator: `tex.Sample(s)` tags `tex`.
      if CalledThroughIdentifier(parent) then Emit([Highlight(FunctionIdentifier, parent.value.operand.range)])
      else Nothing
    case SingleVariableDeclaration(_, typeNode, _) =>
      // Skips a missing type node instead of dereferencing it; see Findings.
      if typeNode.Some? then Emit([Highlight(TypeIdentifier, typeNode.value.range)]) else Nothing
    case VariableDeclaration(_, _, names, _) => Emit(NameHighlights(names, VariableIdentifier))
    case BuiltInType(range) => Emit([Highlight(Keyword, range)])
    case FieldDeclaration(_, content, _) => Emit(FieldDeclarationRule(content))
    case StructDeclaration(_, name, _) => Emit([Highlight(TypeIdentifier, name.range)])
    case FunctionDeclaration(range, returnType, name, _, _) => FunctionDeclarationRule(range, returnType, name)
    case Semantic(range) => Emit([Highlight(Keyword, range)])
    case Identifier(_) => Nothing
    case Other(_, _) => Nothing
  }

  /** The pass over the subtree rooted at `n`: its own rule, then its children in order. */
  function Classify(n: Node, parent: Option<Node>): Pass
    decreases n, 1
  {
    Then(Own(n, parent), ClassifyAll(Children(n), n))
  }

  function ClassifyAll(cs: seq<Node>, parent: Node): Pass
    requires forall c | c in cs :: c < parent
    decreases parent, 0, |cs|
  {
    if cs == [] then Nothing
    else
      assert cs[0] in cs;
      assert forall c | c in cs[1..] :: c in cs;
      Then(Classify(cs[0], Some(parent)), ClassifyAll(cs[1..], parent))
  }
}
