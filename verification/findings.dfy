/**
  The single-variable rule as the source writes it, next to the corrected rule the
  rest of the model uses, with the input on which they differ.

  The single-variable rule reads its type node without a null check, while the
  field-declaration rule checks that very node for null first. A field whose
  type is not yet typed passes the field guard and then aborts the pass two
  levels further down, when the walk reaches the field's first variable. The
  corrected rule skips the missing type.
 */
module Findings {
  import opened Wrappers
  import opened SyntaxTree
  import opened Highlights
  import opened IdentifierHighlighting
  import opened Traversal

  /** The outcome of one rule that may throw. */
  datatype RuleOutcome = Emitted(highlights: seq<Highlight>) | Aborted

  /** The single-variable rule as written: a missing type node is dereferenced, and the pass aborts. */
  function SingleVariableRuleAsWritten(n: Node): RuleOutcome
    requires n.SingleVariableDeclaration?
  {
    match n.typeNode
    case None => Aborted
    case Some(t) => Emitted([Highlight(TypeIdentifier, t.range)])
  }

  /** A field declaration whose first variable has no type node yet. */
  ghost predicate UntypedField(fd: Node)
  {
    && fd.FieldDeclaration?
    && fd.content.Some? && fd.content.value.VariableDeclaration?
    && fd.content.value.firstVariable.Some? && fd.content.value.firstVariable.value.SingleVariableDeclaration?
    && fd.content.value.firstVariable.value.typeNode.None?
  }

  /**
    As written: on an untyped field the field rule's guard skips the node, yet the walk
    still reaches the first variable, whose rule aborts.
   */
  lemma AsWrittenAbortsBehindFieldGuard(fd: Node, parent: Option<Node>)
    requires UntypedField(fd)
    ensures Own(fd, parent) == Nothing
    ensures exists v | v in PreOrder(fd, parent) ::
              v.node.SingleVariableDeclaration? && SingleVariableRuleAsWritten(v.node).Aborted?
  {
    var content := fd.content.value;
    var first := content.firstVariable.value;
    var root := Visit(fd, parent);
    assert PreOrder(fd, parent)[0] == root;
    ChildVisited(fd, parent, root, content);
    ChildVisited(fd, parent, Visit(content, Some(fd)), first);
  }

  /**
    Corrected: on an untyped field neither the field rule nor the first variable's rule
    emits anything, the walk still visits that variable, and the pass over each of the two
    is exactly the pass over its children.
   */
  lemma MissingTypeSkippedSilently(fd: Node, parent: Option<Node>)
    requires UntypedField(fd)
    ensures Own(fd, parent) == Nothing
    ensures var content := fd.content.value;
            var first := content.firstVariable.value;
            && Visit(first, Some(content)) in PreOrder(fd, parent)
            && Own(first, Some(content)) == Nothing
    ensures Classify(fd, parent) == ClassifyAll(Children(fd), fd)
    ensures var content := fd.content.value;
            var first := content.firstVariable.value;
            Classify(first, Some(content)) == ClassifyAll(Children(first), first)
  {
    var content := fd.content.value;
    var first := content.firstVariable.value;
    var root := Visit(fd, parent);
    assert PreOrder(fd, parent)[0] == root;
    ChildVisited(fd, parent, root, content);
    ChildVisited(fd, parent, Visit(content, Some(fd)), first);
  }

  /** `struct S { bar; }`: the field `bar` has no type yet. */
  const BarVariable := SingleVariableDeclaration(Range(11, 14), None, [])
  const BarContent := VariableDeclaration(Range(11, 14), Some(BarVariable), [Identifier(Range(11, 14))], [])
  const BarField := FieldDeclaration(Range(11, 15), Some(BarContent), [])
  const UntypedStruct := StructDeclaration(Range(0, 17), Identifier(Range(7, 8)), [BarField])

  /** As written, the walk over `struct S { bar; }` reaches a rule that aborts. */
  lemma UntypedStructAbortsAsWritten()
    ensures Visit(BarVariable, Some(BarContent)) in PreOrder(UntypedStruct, None)
    ensures SingleVariableRuleAsWritten(BarVariable).Aborted?
  {
    var root := Visit(UntypedStruct, None);
    assert PreOrder(UntypedStruct, None)[0] == root;
    ChildVisited(UntypedStruct, None, root, BarField);
    ChildVisited(UntypedStruct, None, Visit(BarField, Some(UntypedStruct)), BarContent);
    ChildVisited(UntypedStruct, None, Visit(BarContent, Some(BarField)), BarVariable);
  }

  /** Corrected, the same input yields the struct's type name and the variable name, and nothing is logged. */
  lemma UntypedStructHighlighted()
    ensures Classify(UntypedStruct, None) ==
            Emit([Highlight(TypeIdentifier, Range(7, 8)), Highlight(VariableIdentifier, Range(11, 14))])
  {
    var name := Identifier(Range(11, 14));
    var variable := Highlight(VariableIdentifier, Range(11, 14));
    assert Children(BarVariable) == [];
    assert Classify(BarVariable, Some(BarContent)) == Then(Nothing, Nothing);
    assert Classify(name, Some(BarContent)) == Then(Nothing, Nothing);
    assert Children(BarContent) == [BarVariable, name];
    assert ClassifyAll([name], BarContent) == Then(Nothing, Nothing);
    assert ClassifyAll([BarVariable, name], BarContent) == Then(Nothing, Nothing);
    assert Own(BarContent, Some(BarField)) == Emit([variable]);
    assert Classify(BarContent, Some(BarField)) == Then(Emit([variable]), Nothing);
    assert Children(BarField) == [BarContent];
    assert ClassifyAll([BarContent], BarField) == Then(Emit([variable]), Nothing);
    assert Own(BarField, Some(UntypedStruct)) == Nothing;
    assert Classify(BarField, Some(UntypedStruct)) == Then(Nothing, Emit([variable]));
    var structName := Identifier(Range(7, 8));
    assert Classify(structName, Some(UntypedStruct)) == Then(Nothing, Nothing);
    assert Children(UntypedStruct) == [structName, BarField];
    assert ClassifyAll([BarField], UntypedStruct) == Then(Emit([variable]), Nothing);
    assert ClassifyAll([structName, BarField], UntypedStruct) == Then(Nothing, Emit([variable]));
    assert Own(UntypedStruct, None) == Emit([Highlight(TypeIdentifier, Range(7, 8))]);
  }
}
