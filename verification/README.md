# Cg identifier highlighting, modelled in Dafny

This project models the identifier highlighting process of the Cg/HLSL daemon stage in
resharper-unity (`CgIdentifierHighlightingStage.IdentifierHighlightingProcess`). The process
walks an already-parsed shader syntax tree. For each node kind it has a rule for, it hands
(attribute id, document range) highlights to the highlighting consumer. It then always continues
into the node's children. The rules are:

- field access: FIELD_IDENTIFIER on the field name;
- a postfix expression that is a plain call `foo(...)` (first operator a call, operand a bare identifier): FUNCTION_IDENTIFIER on `foo`;
- a call operator whose parent is a postfix expression with a bare identifier operand: FUNCTION_IDENTIFIER on that operand. The call need not be the first operator. So `foo()` gets the highlight twice, and in a method-style call `tex.Sample(s)` the object `tex` is tagged as a function. The source's own comment at line 127 says the rule is also wrong for a user-declared type's constructor call;
- single-variable declaration: TYPE_IDENTIFIER on its type;
- variable declaration: VARIABLE_IDENTIFIER per declared name;
- built-in type and semantic: KEYWORD on the whole node;
- field declaration: TYPE_IDENTIFIER on the first variable's type and FIELD_IDENTIFIER per name, guarded by a null check;
- struct: TYPE_IDENTIFIER on its name;
- function declaration: TYPE_IDENTIFIER on the return type, and FUNCTION_IDENTIFIER on the name. A failed cast of the name node is logged silently instead.

Layout:

- `wrappers.dfy`, `tree.dfy`: the syntax tree as an immutable `datatype Node`. Ranges are opaque pairs of naturals. `Children` fixes the visiting order.
- `highlights.dfy`: tags, highlights, log entries. `Pass` holds the highlights in consumer order plus the log. `NameHighlights` models `HighlightNameNodes`.
- `classify.dfy`: `Own` holds the rule for each node kind. `Classify`/`ClassifyAll` is the pre-order walk: a node's own highlights, then its children's, in order.
- `rules.dfy`: one lemma per `Visit…Node` override.
- `traversal.dfy`: an explicit pre-order listing of every (node, parent) visit. `Classify` is proved equal to applying each visit's rule along that listing. The listing follows the same `Children` recursion as `Classify`; the algorithm that reaches the same result by a different route is `Consumer.Run`.
- `properties.dfy`: whole-pass properties. These cover a declarative characterisation of what is emitted (both directions), ranges, counts, the log, the duplicate for plain calls, and no precedence between rules.
- `consumer.dfy`: `Run`, a loop with an explicit stack that appends to the consumer as the visitor does. It is proved to deliver exactly `Classify`.
- `findings.dfy`: the single-variable rule as written, next to the corrected rule the model uses (see Findings).
- `scenarios.dfy`: whole passes over small fragments.

The pass is a pure function of the tree, so running it twice over the same tree gives the same output.

The model follows the code, with one exception:

- The single-variable rule dereferences its type node without a null check (line 63). The model skips a missing type instead, emitting nothing for that node and carrying on. The rule as written, and the input on which it aborts the pass, are in `findings.dfy` and under Findings.

Two consequences of the code as written:

- For `struct Foo { float3 bar; };` the code emits six highlights (`Scenarios.StructWithBuiltInField`). `float3` gets TYPE_IDENTIFIER from both the field rule and the single-variable rule, and KEYWORD from its own rule. `bar` gets FIELD_IDENTIFIER and also VARIABLE_IDENTIFIER.
- The same (tag, range) pair can be emitted twice: `foo()`, and `float3` above. The code does not deduplicate, and neither does the model.

## Model

| member | source | states |
|---|---|---|
| Highlights.NameHighlights | resharper/src/resharper-unity/Cg/Daemon/Stages/CgIdentifierHighlightingStage.cs:133-139 | one highlight per name node, with the given tag, on that name's range, in name order |
| Highlights.InNameHighlights | resharper/src/resharper-unity/Cg/Daemon/Stages/CgIdentifierHighlightingStage.cs:133-139 | a highlight comes from the name loop iff it has the loop's tag and the range of some name node |
| Highlights.CountNameHighlights | resharper/src/resharper-unity/Cg/Daemon/Stages/CgIdentifierHighlightingStage.cs:133-139 | the name loop emits exactly N highlights of its tag for N names, and none of any other tag |
| Rules.VisitFieldOperator | resharper/src/resharper-unity/Cg/Daemon/Stages/CgIdentifierHighlightingStage.cs:42-46 | a field access contributes exactly one FIELD_IDENTIFIER, on its field node's range, then the field node is visited |
| Rules.VisitPostfixExpression | resharper/src/resharper-unity/Cg/Daemon/Stages/CgIdentifierHighlightingStage.cs:48-58 | FUNCTION_IDENTIFIER on the operand iff the first operator is a call and the operand a bare identifier, else nothing of its own; children visited in both cases |
| Rules.VisitCallOperator | resharper/src/resharper-unity/Cg/Daemon/Stages/CgIdentifierHighlightingStage.cs:124-131 | a call operator whose parent is a postfix expression with an identifier operand contributes FUNCTION_IDENTIFIER on that operand, wherever it sits among the operators; any other call operator contributes nothing of its own; children visited in both cases |
| Rules.VisitSingleVariableDeclaration | resharper/src/resharper-unity/Cg/Daemon/Stages/CgIdentifierHighlightingStage.cs:60-65 | TYPE_IDENTIFIER on the type node, then the children (a missing type is skipped, see Findings) |
| Rules.VisitVariableDeclaration | resharper/src/resharper-unity/Cg/Daemon/Stages/CgIdentifierHighlightingStage.cs:67-71 | a declaration with N names starts its output with exactly N VARIABLE_IDENTIFIER highlights, one per name range, in name order |
| Rules.VisitBuiltInType | resharper/src/resharper-unity/Cg/Daemon/Stages/CgIdentifierHighlightingStage.cs:73-77 | exactly one KEYWORD on the node's own range; no TYPE_IDENTIFIER |
| Rules.VisitSemantic | resharper/src/resharper-unity/Cg/Daemon/Stages/CgIdentifierHighlightingStage.cs:118-122 | exactly one KEYWORD on the node's own range; no TYPE_IDENTIFIER |
| Rules.VisitFieldDeclaration | resharper/src/resharper-unity/Cg/Daemon/Stages/CgIdentifierHighlightingStage.cs:79-91 | nothing of its own if the content, first variable or type node is absent; otherwise TYPE_IDENTIFIER on that type followed by FIELD_IDENTIFIER per content name; children visited in both cases |
| Rules.VisitStructDeclaration | resharper/src/resharper-unity/Cg/Daemon/Stages/CgIdentifierHighlightingStage.cs:93-97 | TYPE_IDENTIFIER on the struct's name, then the children |
| Rules.VisitFunctionDeclaration | resharper/src/resharper-unity/Cg/Daemon/Stages/CgIdentifierHighlightingStage.cs:99-116 | always TYPE_IDENTIFIER on the return type first; FUNCTION_IDENTIFIER on the name only if it is an identifier, else one log entry; children visited either way |
| Traversal.ClassifyIsPreOrder | resharper/src/resharper-unity/Cg/Daemon/Stages/CgIdentifierHighlightingStage.cs:42-131 | the pass equals applying every node's own rule along an explicit pre-order listing of all visits: each node visited once, after its parent, siblings in order |
| Traversal.ClassifyAllIsPreOrder | resharper/src/resharper-unity/Cg/Daemon/Stages/CgIdentifierHighlightingStage.cs:42-131 | the same for a sequence of sibling subtrees |
| Traversal.ChildVisited | resharper/src/resharper-unity/Cg/Daemon/Stages/CgIdentifierHighlightingStage.cs:42-131 | every child of every visited node is visited, with that node as its parent, whether or not a rule matched |
| Traversal.ParentVisited | resharper/src/resharper-unity/Cg/Daemon/Stages/CgIdentifierHighlightingStage.cs:124-131 | the parent a call operator's rule inspects is itself a node of the walk |
| PassProperties.OwnMatchesExpected | resharper/src/resharper-unity/Cg/Daemon/Stages/CgIdentifierHighlightingStage.cs:42-131 | a node's rule emits a highlight iff the declarative per-tag description of the rules justifies it |
| PassProperties.ClassifyCharacterized | resharper/src/resharper-unity/Cg/Daemon/Stages/CgIdentifierHighlightingStage.cs:42-131 | a highlight is in the pass output iff some visit of the tree justifies it (both directions); rules are additive, none excludes another |
| PassProperties.RangesComeFromTree | resharper/src/resharper-unity/Cg/Daemon/Stages/CgIdentifierHighlightingStage.cs:42-131 | every emitted range is the range of some node of the input tree |
| PassProperties.KeywordsAreBuiltInTypesAndSemantics | resharper/src/resharper-unity/Cg/Daemon/Stages/CgIdentifierHighlightingStage.cs:73-122 | KEYWORD is emitted on a range iff some built-in type or semantic node of the tree has that range |
| PassProperties.FunctionDeclarationsHighlighted | resharper/src/resharper-unity/Cg/Daemon/Stages/CgIdentifierHighlightingStage.cs:99-116 | for every function declaration in the tree, its return type gets TYPE_IDENTIFIER, and its name gets FUNCTION_IDENTIFIER when it is an identifier |
| PassProperties.VariableHighlightCount | resharper/src/resharper-unity/Cg/Daemon/Stages/CgIdentifierHighlightingStage.cs:67-71 | the number of VARIABLE_IDENTIFIER highlights equals the total number of names over all variable declarations of the tree |
| PassProperties.LogIsCastFailures | resharper/src/resharper-unity/Cg/Daemon/Stages/CgIdentifierHighlightingStage.cs:105-113 | the log holds exactly one entry per function declaration whose name fails the cast, in pre-order, and nothing else |
| PassProperties.PlainCallHighlightedTwice | resharper/src/resharper-unity/Cg/Daemon/Stages/CgIdentifierHighlightingStage.cs:124-131 | for `foo(...)` the postfix rule and the call rule both fire, so the output starts with the same FUNCTION_IDENTIFIER on `foo` twice |
| PassProperties.CallRuleOverlapsPostfixRule | resharper/src/resharper-unity/Cg/Daemon/Stages/CgIdentifierHighlightingStage.cs:124-131 | every call operator under an identifier-operand postfix expression is visited and tags the operand as a function, so the pass contains that highlight; for the first operator this repeats the postfix rule's highlight, and when the first operator is not a call the postfix rule is silent and the call rule alone tags it |
| PassProperties.BuiltInFieldTypeGetsBothTags | resharper/src/resharper-unity/Cg/Daemon/Stages/CgIdentifierHighlightingStage.cs:79-91 | a built-in type used as a field's type gets TYPE_IDENTIFIER from the field rule and KEYWORD from its own rule: no precedence |
| Consumer.Run | resharper/src/resharper-unity/Cg/Daemon/Stages/CgIdentifierHighlightingStage.cs:42-131 | the visitor loop, appending to the consumer, delivers exactly the highlights and log of the pre-order pass |
| Findings.AsWrittenAbortsBehindFieldGuard | resharper/src/resharper-unity/Cg/Daemon/Stages/CgIdentifierHighlightingStage.cs:60-65 | as written, a field whose first variable has no type passes the field guard silently but the walk reaches that variable, whose rule aborts |
| Findings.UntypedStructAbortsAsWritten | resharper/src/resharper-unity/Cg/Daemon/Stages/CgIdentifierHighlightingStage.cs:60-65 | as written, the walk over `struct S { bar; }` reaches a rule that aborts |
| Findings.MissingTypeSkippedSilently | resharper/src/resharper-unity/Cg/Daemon/Stages/CgIdentifierHighlightingStage.cs:79-91 | corrected, on such a field neither the field rule nor the variable's rule emits anything, the walk still visits that variable, and the pass over the field and over the variable is exactly the pass over its children |
| Findings.UntypedStructHighlighted | resharper/src/resharper-unity/Cg/Daemon/Stages/CgIdentifierHighlightingStage.cs:79-91 | corrected, `struct S { bar; }` yields TYPE_IDENTIFIER on `S` and VARIABLE_IDENTIFIER on `bar`, with an empty log |
| Scenarios.TypedVariable | resharper/src/resharper-unity/Cg/Daemon/Stages/CgIdentifierHighlightingStage.cs:60-77 | a first variable like `float3 bar`, typed by a built-in type, yields TYPE_IDENTIFIER and then KEYWORD on the type |
| Scenarios.FieldContent | resharper/src/resharper-unity/Cg/Daemon/Stages/CgIdentifierHighlightingStage.cs:60-77 | the content `float3 bar` yields VARIABLE_IDENTIFIER on `bar` before its first variable's two highlights |
| Scenarios.FieldOfFoo | resharper/src/resharper-unity/Cg/Daemon/Stages/CgIdentifierHighlightingStage.cs:60-91 | the field `float3 bar;` yields TYPE_IDENTIFIER and FIELD_IDENTIFIER from the field rule, then the content's three highlights |
| Scenarios.StructWithOneMember | resharper/src/resharper-unity/Cg/Daemon/Stages/CgIdentifierHighlightingStage.cs:93-97 | a struct with one member yields its name as TYPE_IDENTIFIER, then exactly that member's pass |
| Scenarios.StructWithBuiltInField | resharper/src/resharper-unity/Cg/Daemon/Stages/CgIdentifierHighlightingStage.cs:60-97 | the exact output, in order, for every struct shaped like `struct Foo { float3 bar; };`: TYPE on `Foo`, TYPE on `float3`, FIELD on `bar`, VARIABLE on `bar`, TYPE on `float3`, KEYWORD on `float3` |
| Scenarios.MethodStyleCall | resharper/src/resharper-unity/Cg/Daemon/Stages/CgIdentifierHighlightingStage.cs:124-131 | the exact output for every call shaped like `tex.Sample(s)`: FIELD_IDENTIFIER on `Sample`, then FUNCTION_IDENTIFIER on the object `tex` |
| Scenarios.VoidMain | resharper/src/resharper-unity/Cg/Daemon/Stages/CgIdentifierHighlightingStage.cs:99-116 | `void Main() { }` yields TYPE_IDENTIFIER on `void`, FUNCTION_IDENTIFIER on `Main`, then KEYWORD on `void` |
| Scenarios.FunctionNameCastFails | resharper/src/resharper-unity/Cg/Daemon/Stages/CgIdentifierHighlightingStage.cs:105-113 | a function whose name node is not an identifier still gets its return type highlighted, and exactly one log entry |
| Scenarios.PlainCall | resharper/src/resharper-unity/Cg/Daemon/Stages/CgIdentifierHighlightingStage.cs:48-58 | `foo()` yields FUNCTION_IDENTIFIER on `foo` exactly twice and nothing else |

## Left out

- Stage ordering attributes, the stage constructor and `CreateProcess` (lines 14-40): host scheduling and registration.
- The base class `CgDaemonStageProcessBase` that dispatches `Visit…Node` and walks children is not part of this model. Its walk is modelled as the node's own rule, then each child in the order `SyntaxTree.Children` lists them.
- `GetDocumentRange`: a range is an opaque pair of naturals stored on each node.
- The logger: a log entry only records the range of the declaration whose name failed the cast.
- The highlighting consumer: modelled as the ordered output sequence. No deduplication, buffering or presentation.
- Sub-nodes the code reads without a null check are always present in the tree type: a field access's field, a struct's name, and a function's return type and name. An absent one would make the code throw, which is not modelled. A struct name of the wrong node kind is highlighted like any other name.
- A content or first variable of the wrong kind counts as absent, and a wrong-kind field-access field or return type is highlighted. With the cast behaviour at lines 107-113 the code would throw at those points instead. Only the function name's cast is caught, so each of these would end the pass. The model does not model those aborts.
- The function header node is folded into the function declaration. It has no rule, and its own range is never emitted.
- The names of a variable declaration are direct children of it. In the real grammar they sit in its first variable and its tails.
- Cancellation, concurrency and the rest of the repository (Rider unit-test strategy selection, the settings class): not part of the highlighting logic.

## Findings

| source | as written | input that shows it | evidently intended | confidence | as-written member | corrected member |
|---|---|---|---|---|---|---|
| resharper/src/resharper-unity/Cg/Daemon/Stages/CgIdentifierHighlightingStage.cs:60-65 | the single-variable rule reads `TypeNode` without a null check, while lines 81-83 guard the same node | `struct S { bar; }` mid-edit: the field guard skips, then the walk reaches the untyped first variable and its rule dereferences the missing type | skip a missing type silently, as the field rule does | low, not executed; depends on the range lookup rejecting a null node and on the first variable being visited as a single-variable declaration | Findings.AsWrittenAbortsBehindFieldGuard | Findings.MissingTypeSkippedSilently |
