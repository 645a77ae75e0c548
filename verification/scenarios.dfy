/**
  Whole passes over small shader fragments, with document offsets as ranges.
 */
module Scenarios {
  import opened Wrappers
  import opened SyntaxTree
  import opened Highlights
  import opened IdentifierHighlighting

  lemma ClassifyOne(a: Node, parent: Node)
    requires a < parent
    ensures ClassifyAll([a], parent) == Classify(a, Some(parent))
  {
    var c := Classify(a, Some(parent));
    assert [a][1..] == [];
    assert c.highlights + [] == c.highlights && c.log + [] == c.log;
  }

  lemma ClassifyTwo(a: Node, b: Node, parent: Node)
    requires a < parent && b < parent
    ensures ClassifyAll([a, b], parent) == Then(Classify(a, Some(parent)), Classify(b, Some(parent)))
  {
    assert [a, b][1..] == [b];
    ClassifyOne(b, parent);
  }

  /** `float3 bar` as a first variable: typed by a built-in type, with nothing after it. */
  predicate BuiltInTypedVariable(first: Node)
  {
    first.SingleVariableDeclaration? && first.rest == [] && first.typeNode.Some? && first.typeNode.value.BuiltInType?
  }

  /** `float3 bar` as a declaration: one identifier name, its first variable as above. */
  predicate OneBuiltInTypedName(content: Node)
  {
    && content.VariableDeclaration? && content.rest == []
    && |content.names| == 1 && content.names[0].Identifier?
    && content.firstVariable.Some? && BuiltInTypedVariable(content.firstVariable.value)
  }

  /** `float3 bar;` as a field declaration. */
  predicate BuiltInTypedField(field: Node)
  {
    field.FieldDeclaration? && field.rest == [] && field.content.Some? && OneBuiltInTypedName(field.content.value)
  }

  /** `struct Foo { float3 bar; };`: an identifier name and one such field. */
  predicate StructOfOneBuiltInTypedField(s: Node)
  {
    s.StructDeclaration? && s.name.Identifier? && |s.members| == 1 && BuiltInTypedField(s.members[0])
  }

  /** `float3 bar` as a first variable: TYPE_IDENTIFIER then KEYWORD on the built-in type. */
  lemma TypedVariable(first: Node, parent: Option<Node>)
    requires BuiltInTypedVariable(first)
    ensures var t := first.typeNode.value.range;
            Classify(first, parent) == Emit([Highlight(TypeIdentifier, t), Highlight(Keyword, t)])
  {
    var builtIn := first.typeNode.value;
    assert Children(first) == [builtIn] && builtIn in Children(first);
    ClassifyOne(builtIn, first);
    assert Children(builtIn) == [];
    assert Classify(builtIn, Some(first)) == Then(Emit([Highlight(Keyword, builtIn.range)]), Nothing);
  }

  /** The declaration `float3 bar`: VARIABLE_IDENTIFIER on `bar`, then its first variable's highlights. */
  lemma FieldContent(content: Node, parent: Option<Node>)
    requires OneBuiltInTypedName(content)
    ensures var t := content.firstVariable.value.typeNode.value.range;
            Classify(content, parent) ==
            Emit([Highlight(VariableIdentifier, content.names[0].range), Highlight(TypeIdentifier, t), Highlight(Keyword, t)])
  {
    var first := content.firstVariable.value;
    var name := content.names[0];
    var t := first.typeNode.value.range;
    var typed := [Highlight(TypeIdentifier, t), Highlight(Keyword, t)];
    var variable := Highlight(VariableIdentifier, name.range);
    assert ClassifyAll(Children(content), content) == Emit(typed) by {
      TypedVariable(first, Some(content));
      assert Children(name) == [];
      assert Classify(name, Some(content)) == Nothing;
      assert Children(content) == [first, name] && first in Children(content) && name in Children(content);
      ClassifyTwo(first, name, content);
      assert Then(Emit(typed), Nothing) == Emit(typed);
    }
    assert Own(content, parent) == Emit([variable]) by {
      assert NameHighlights(content.names, VariableIdentifier) == [variable];
    }
    assert Then(Emit([variable]), Emit(typed)) == Emit([variable] + typed);
  }

  /** The field `float3 bar;`: the field rule's two highlights, then the declaration's three. */
  lemma FieldOfFoo(field: Node, parent: Option<Node>)
    requires BuiltInTypedField(field)
    ensures var t := field.content.value.firstVariable.value.typeNode.value.range;
            var name := field.content.value.names[0].range;
            Classify(field, parent) ==
            Emit([Highlight(TypeIdentifier, t), Highlight(FieldIdentifier, name),
                  Highlight(VariableIdentifier, name), Highlight(TypeIdentifier, t), Highlight(Keyword, t)])
  {
    var content := field.content.value;
    var t := content.firstVariable.value.typeNode.value.range;
    var name := content.names[0].range;
    var own := [Highlight(TypeIdentifier, t), Highlight(FieldIdentifier, name)];
    var below := [Highlight(VariableIdentifier, name), Highlight(TypeIdentifier, t), Highlight(Keyword, t)];
    assert ClassifyAll(Children(field), field) == Emit(below) by {
      FieldContent(content, Some(field));
      assert Children(field) == [content] && content in Children(field);
      ClassifyOne(content, field);
    }
    assert Own(field, parent) == Emit(own) by {
      assert FieldTypeNode(field.content) == content.firstVariable.value.typeNode;
      assert NameHighlights(content.names, FieldIdentifier) == [Highlight(FieldIdentifier, name)];
    }
    assert Then(Emit(own), Emit(below)) == Emit(own + below);
  }

  /** A struct with an identifier name and one member: the name, then the member's highlights. */
  lemma StructWithOneMember(s: Node, parent: Option<Node>)
    requires s.StructDeclaration? && s.name.Identifier? && |s.members| == 1
    ensures Classify(s, parent) == Then(Emit([Highlight(TypeIdentifier, s.name.range)]), Classify(s.members[0], Some(s)))
  {
    var m := s.members[0];
    var below := Classify(m, Some(s));
    assert ClassifyAll(Children(s), s) == below by {
      assert Children(s) == [s.name, m] && s.name in Children(s) && m in Children(s);
      ClassifyTwo(s.name, m, s);
      assert Children(s.name) == [];
      assert Classify(s.name, Some(s)) == Nothing;
      assert Then(Nothing, below) == below;
    }
    assert Own(s, parent) == Emit([Highlight(TypeIdentifier, s.name.range)]);
  }

  /**
    `struct Foo { float3 bar; };`: the struct name, then the field rule (type and field
    name), the variable-declaration rule (name), the single-variable rule (type) and the
    built-in type's own keyword. No rule suppresses another, and `float3` gets TYPE_IDENTIFIER twice.
   */
  lemma StructWithBuiltInField(s: Node)
    requires StructOfOneBuiltInTypedField(s)
    ensures var foo := s.name.range;
            var content := s.members[0].content.value;
            var float3 := content.firstVariable.value.typeNode.value.range;
            var bar := content.names[0].range;
            Classify(s, None) == Emit([
              Highlight(TypeIdentifier, foo),
              Highlight(TypeIdentifier, float3),
              Highlight(FieldIdentifier, bar),
              Highlight(VariableIdentifier, bar),
              Highlight(TypeIdentifier, float3),
              Highlight(Keyword, float3)])
  {
    var content := s.members[0].content.value;
    var float3 := content.firstVariable.value.typeNode.value.range;
    var bar := content.names[0].range;
    var name := Highlight(TypeIdentifier, s.name.range);
    var field := [Highlight(TypeIdentifier, float3), Highlight(FieldIdentifier, bar),
                  Highlight(VariableIdentifier, bar), Highlight(TypeIdentifier, float3), Highlight(Keyword, float3)];
    assert Classify(s, None) == Then(Emit([name]), Emit(field)) by {
      FieldOfFoo(s.members[0], Some(s));
      StructWithOneMember(s, None);
    }
    assert Then(Emit([name]), Emit(field)) == Emit([name] + field);
  }

  /**
    `tex.Sample(s)`: an identifier operand followed by a field access to an identifier and
    then a call with one identifier argument.
   */
  predicate MethodCallWithOneArgument(n: Node)
  {
    && n.PostfixExpression? && n.operand.Identifier? && |n.operators| == 2
    && n.operators[0].FieldOperator? && n.operators[0].field.Identifier?
    && n.operators[1].CallOperator? && |n.operators[1].arguments| == 1 && n.operators[1].arguments[0].Identifier?
  }

  /**
    `tex.Sample(s)`: FIELD_IDENTIFIER on `Sample`, then FUNCTION_IDENTIFIER on the object
    `tex` from the call rule, although `tex` is not a function.
   */
  lemma MethodStyleCall(n: Node, parent: Option<Node>)
    requires MethodCallWithOneArgument(n)
    ensures Classify(n, parent) ==
            Emit([Highlight(FieldIdentifier, n.operators[0].field.range), Highlight(FunctionIdentifier, n.operand.range)])
  {
    var access := n.operators[0];
    var call := n.operators[1];
    var field := Highlight(FieldIdentifier, access.field.range);
    var callee := Highlight(FunctionIdentifier, n.operand.range);
    assert Classify(access, Some(n)) == Emit([field]) by {
      assert Children(access) == [access.field] && access.field in Children(access);
      ClassifyOne(access.field, access);
      assert Classify(access.field, Some(access)) == Nothing;
      assert Then(Emit([field]), Nothing) == Emit([field]);
    }
    assert Classify(call, Some(n)) == Emit([callee]) by {
      var argument := call.arguments[0];
      assert Children(call) == [argument] && argument in Children(call);
      ClassifyOne(argument, call);
      assert Classify(argument, Some(call)) == Nothing;
      assert Own(call, Some(n)) == Emit([callee]);
      assert Then(Emit([callee]), Nothing) == Emit([callee]);
    }
    assert ClassifyAll(Children(n), n) == Emit([field, callee]) by {
      assert Children(n) == [n.operand, access, call];
      assert access in Children(n) && call in Children(n);
      assert Classify(n.operand, Some(n)) == Nothing;
      assert [n.operand, access, call][1..] == [access, call];
      ClassifyTwo(access, call, n);
      assert Then(Emit([field]), Emit([callee])) == Emit([field, callee]);
      assert Then(Nothing, Emit([field, callee])) == Emit([field, callee]);
    }
    assert Own(n, parent) == Nothing;
  }

  /** `void Main() { }`: return type, function name, then the keyword for `void`. */
  lemma VoidMain()
    ensures
      var main := FunctionDeclaration(Range(0, 15), BuiltInType(Range(0, 4)), Identifier(Range(5, 9)), [], []);
      Classify(main, None) == Emit([
        Highlight(TypeIdentifier, Range(0, 4)),
        Highlight(FunctionIdentifier, Range(5, 9)),
        Highlight(Keyword, Range(0, 4))])
  {
  }

  /** A function whose name node fails the cast: its return type is still highlighted and one entry is logged. */
  lemma FunctionNameCastFails()
    ensures
      var broken := FunctionDeclaration(Range(0, 15), BuiltInType(Range(0, 4)), Other(Range(5, 9), []), [], []);
      Classify(broken, None) == Pass([
        Highlight(TypeIdentifier, Range(0, 4)),
        Highlight(Keyword, Range(0, 4))], [InvalidCast(Range(0, 15))])
  {
  }

  /** `foo()`: the same FUNCTION_IDENTIFIER on `foo` twice, once from each rule. */
  lemma PlainCall()
    ensures
      var call := PostfixExpression(Range(0, 5), Identifier(Range(0, 3)), [CallOperator(Range(3, 5), [])]);
      Classify(call, None) == Emit([
        Highlight(FunctionIdentifier, Range(0, 3)),
        Highlight(FunctionIdentifier, Range(0, 3))])
  {
  }
}
