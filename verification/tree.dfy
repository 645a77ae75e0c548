/**
  The already-parsed Cg/HLSL syntax tree that the identifier highlighting pass reads.
  The pass never changes the tree, so it is an immutable datatype here. Each variant
  is a node kind the pass has a rule for; `Identifier` is a bare name and `Other`
  stands for every node kind without a rule (files, blocks, statements, ...).
 */
module SyntaxTree {
  import opened Wrappers

  /** A document range, kept opaque: the pass only copies ranges, never computes them. */
  datatype Range = Range(start: nat, end: nat)

  datatype Node =
    | Identifier(range: Range)
    | BuiltInType(range: Range)
    | Semantic(range: Range)
      /** `.field` after an expression */
    | FieldOperator(range: Range, field: Node)
      /** `( arguments )` after an expression */
    | CallOperator(range: Range, arguments: seq<Node>)
      /** an operand followed by its postfix operators, e.g. `foo()` or `a.b` */
    | PostfixExpression(range: Range, operand: Node, operators: seq<Node>)
      /** one typed variable, e.g. a function parameter; the type may be missing mid-edit */
    | SingleVariableDeclaration(range: Range, typeNode: Option<Node>, rest: seq<Node>)
      /** `float a, b`: the first typed variable and every declared name */
    | VariableDeclaration(range: Range, firstVariable: Option<Node>, names: seq<Node>, rest: seq<Node>)
      /** a member of a struct; its content is a variable declaration when present */
    | FieldDeclaration(range: Range, content: Option<Node>, rest: seq<Node>)
    | StructDeclaration(range: Range, name: Node, members: seq<Node>)
      /** the function header's return type and name, its parameters and its body */
    | FunctionDeclaration(range: Range, returnType: Node, name: Node, parameters: seq<Node>, body: seq<Node>)
    | Other(range: Range, children: seq<Node>)

  function Present(o: Option<Node>): seq<Node>
  {
    match o
    case None => []
    case Some(n) => [n]
  }

  /** The children of a node, in the order the traversal visits them. */
  function Children(n: Node): (cs: seq<Node>)
    ensures forall c | c in cs :: c < n
  {
    match n
    case Identifier(_) => []
    case BuiltInType(_) => []
    case Semantic(_) => []
    case FieldOperator(_, field) => [field]
    case CallOperator(_, arguments) => arguments
    case PostfixExpression(_, operand, operators) => [operand] + operators
    case SingleVariableDeclaration(_, typeNode, rest) => Present(typeNode) + rest
    case VariableDeclaration(_, first, names, rest) => Present(first) + names + rest
    case FieldDeclaration(_, content, rest) => Present(content) + rest
    case StructDeclaration(_, name, members) => [name] + members
    case FunctionDeclaration(_, returnType, name, parameters, body) => [returnType, name] + parameters + body
    case Other(_, children) => children
  }
}
