# FastScriptReload source rewrite passes, modelled in Dafny

FastScriptReload hot-reloads edited C# scripts in the Unity editor. Before
it compiles a changed type, it runs syntax-tree rewrite passes over the
type's source. This project models three of those passes and proves what they
do.

- **Static-field qualification** (`StaticFieldIdentifierRewriter`). It walks
  the tree in document order. For each type declaration it records the names
  of the type's `public static` fields, in a per-type map and in one flat
  set. A bare identifier that names such a field of its nearest enclosing
  type `T` becomes `T.Name`. Three cases are skipped: an identifier under a
  member access, one shadowed by a parameter of the nearest method, and one
  shadowed by a name of the nearest local-declaration statement.
- **`this`-call casting** (`ThisCallRewriter`). Inside a type `T` it rewrites
  `this` to go through `object`, as `(T)(object)this`, in four places: `this`
  as an argument, `x = this`, `this.M(...)` when `T` declares no method `M`,
  and `return this`.
- **Return bookkeeping** (`ReturnRewriter`). It remembers the class name and
  the method return-type text it saw last, and leaves the tree unchanged.

Files:

- `Syntax.dfy` is the small C#-like syntax tree the passes see.
- `StaticFieldRewriting.dfy` holds the static-field pass. It has pure
  functions for expressions and statements, and `PassUnit`, which threads the
  recorded-names table through the walk. The class
  `StaticFieldIdentifierRewriter` has the two mutable fields, and its methods
  are proved equal to those functions.
- `StaticFieldProperties.dfy` and `StaticFieldExamples.dfy` hold the
  properties of the static-field pass and worked cases.
- `ThisCallRewriting.dfy`, `ThisCallProperties.dfy` and `ThisCallExamples.dfy`
  hold the `this` pass. It is pure, and its casted-`this` builder lives in a
  base class that is not part of this model, so it is a function parameter
  `castThis`.
- `ReturnRewriting.dfy` and `ReturnExamples.dfy` hold the return pass: a class
  with the two fields, proved against the list of declarations the walk
  enters, in document order.

Roslyn's ancestor queries become context passed down the recursion: the
nearest type declaration, the nearest method's parameters, the nearest local
declaration's names and the parent's kind. A type declaration's node identity
becomes its path of child indices (`Key`).

One might expect every bare reference to the field in `T`'s body to be
qualified. The code only rewrites names already recorded when the walk
reaches the identifier, so a use placed before the field's declaration stays
bare. The model follows the code (`UseBeforeDeclarationStaysBare`).

One might also expect every replacement node to inherit the trivia of the
node it replaces. That holds in the static-field pass (`Qualified`), but the
`this` pass's assignment, invocation and return rules build the new node from
parsed text without copying trivia, so the trivia of the replaced `this` (the
indentation before `this.BaseMethod();`, say) is lost. The model follows the
code (`ReceiverTriviaIsDropped`).

## Model

| member | source | states |
|---|---|---|
| Syntax.DeclaratorNames | Assets/Scripts/Editor/Compilation/CodeRewriting/StaticFieldIdentifierRewriter.cs:37 | the names a declaration introduces are exactly its declarators' identifiers |
| Syntax.MethodNames | Assets/Scripts/Editor/Compilation/CodeRewriting/ThisCallRewriter.cs:45 | the set holds exactly the names of the direct members that are method declarations |
| StaticFieldRewriting.IsQualifying | Assets/Scripts/Editor/Compilation/CodeRewriting/StaticFieldIdentifierRewriter.cs:22-27 | a field's names are recorded iff it has `static` and `public` and lacks `private`; with no access modifier, or only `internal`/`protected`, it counts as private |
| StaticFieldRewriting.RecordNames | Assets/Scripts/Editor/Compilation/CodeRewriting/StaticFieldIdentifierRewriter.cs:31-40 | finds or creates the type's entry and adds the names to it and to the flat set; every other entry is unchanged; the table only grows; a flat set that is the union of the entries stays so |
| StaticFieldRewriting.StaticFieldIdentifierRewriter.constructor | Assets/Scripts/Editor/Compilation/CodeRewriting/StaticFieldIdentifierRewriter.cs:12-18 | a fresh rewriter has an empty per-type map and an empty flat set |
| StaticFieldRewriting.StaticFieldIdentifierRewriter.VisitFieldDeclaration | Assets/Scripts/Editor/Compilation/CodeRewriting/StaticFieldIdentifierRewriter.cs:20-44 | the imperative find-or-create and both unions: the whole new state of the map and the flat set, no change for a non-qualifying field, the union invariant kept, and the result equal to `PassField` of the old table |
| StaticFieldRewriting.VisitIdentifierName | Assets/Scripts/Editor/Compilation/CodeRewriting/StaticFieldIdentifierRewriter.cs:47-67 | a name not yet in the flat set is returned unchanged; the only possible change is `T.Name` with `T` the nearest type; with a consistent table the identifier changes iff the nearest type's own set holds it and no exclusion applies; trivia is kept |
| StaticFieldRewriting.Qualified | Assets/Scripts/Editor/Compilation/CodeRewriting/StaticFieldIdentifierRewriter.cs:61-62 | `T.Name` takes the replaced identifier's leading and trailing trivia |
| StaticFieldRewriting.RwExpr | Assets/Scripts/Editor/Compilation/CodeRewriting/StaticFieldIdentifierRewriter.cs:62 | every rewritten expression keeps the trivia before its first token and after its last |
| StaticFieldRewriting.StaticFieldIdentifierRewriter.VisitTypeDeclaration | Assets/Scripts/Editor/Compilation/CodeRewriting/StaticFieldIdentifierRewriter.cs:29 | the loop over the members leaves the result and the table that `PassType` gives for the old table (members see the table as recorded so far) |
| StaticFieldRewriting.StaticFieldIdentifierRewriter.VisitCompilationUnit | Assets/Scripts/Editor/Compilation/CodeRewriting/StaticFieldIdentifierRewriter.cs:10-13 | the document-order walk of a unit yields the tree and table of `PassUnit` of the old table |
| StaticFieldProperties.PassUnitKeepsValid | Assets/Scripts/Editor/Compilation/CodeRewriting/StaticFieldIdentifierRewriter.cs:12-13 | over a whole walk the flat set stays the union of the per-type sets, and both only grow |
| StaticFieldProperties.RecordedFlatIsQualifyingNames | Assets/Scripts/Editor/Compilation/CodeRewriting/StaticFieldIdentifierRewriter.cs:37-40 | after a walk from a fresh rewriter the flat set is exactly the set of names declared by qualifying fields |
| StaticFieldProperties.PassTypeOwnEntry | Assets/Scripts/Editor/Compilation/CodeRewriting/StaticFieldIdentifierRewriter.cs:29-39 | a type's entry exists iff it existed or the type has a qualifying field of its own, and it gains exactly its own fields' names; nested types' names go to their own entries |
| StaticFieldProperties.PassTypeFrame | Assets/Scripts/Editor/Compilation/CodeRewriting/StaticFieldIdentifierRewriter.cs:29-34 | walking a type declaration changes no entry outside that declaration's subtree |
| StaticFieldProperties.ShadowedExprUnchanged | Assets/Scripts/Editor/Compilation/CodeRewriting/StaticFieldIdentifierRewriter.cs:78-95 | an expression whose bare identifiers are all parameters of the nearest method or names of the nearest local declaration is unchanged, whatever the table records; a lambda body is checked against the same scope as its surroundings |
| StaticFieldProperties.MethodParametersShadow | Assets/Scripts/Editor/Compilation/CodeRewriting/StaticFieldIdentifierRewriter.cs:78-85 | a method whose body mentions only its own parameters comes out of the walk unchanged, whatever the table records: the method is the nearest method declaration of every statement in its body, local declarations and nested blocks included |
| StaticFieldProperties.LocalDeclShadows | Assets/Scripts/Editor/Compilation/CodeRewriting/StaticFieldIdentifierRewriter.cs:88-95 | a local declaration whose initializers mention only its own names (or the nearest method's parameters) is unchanged |
| StaticFieldProperties.NoQualifyingFieldNoChange | Assets/Scripts/Editor/Compilation/CodeRewriting/StaticFieldIdentifierRewriter.cs:50 | a unit with no qualifying field comes out unchanged |
| StaticFieldProperties.ExprTwice | Assets/Scripts/Editor/Compilation/CodeRewriting/StaticFieldIdentifierRewriter.cs:72-75 | rewriting an expression twice against the same table equals rewriting it once: `T.F` is under a member access and is not re-qualified |
| StaticFieldProperties.RewriteIdempotent | Assets/Scripts/Editor/Compilation/CodeRewriting/StaticFieldIdentifierRewriter.cs:72-75 | running the pass on its own output changes nothing |
| StaticFieldExamples.CountIsQualified | Assets/Scripts/Editor/Compilation/CodeRewriting/StaticFieldIdentifierRewriter.cs:55-62 | `Count++` after `public static int Count` in `Foo` becomes `Foo.Count++` |
| StaticFieldExamples.UseBeforeDeclarationStaysBare | Assets/Scripts/Editor/Compilation/CodeRewriting/StaticFieldIdentifierRewriter.cs:50 | a use before the field's declaration is not rewritten |
| StaticFieldExamples.InternalStaticIsNotQualified | Assets/Scripts/Editor/Compilation/CodeRewriting/StaticFieldIdentifierRewriter.cs:25 | an `internal static` field is never recorded, so its uses stay bare |
| StaticFieldExamples.LambdaParameterIsNotConsulted | Assets/Scripts/Editor/Compilation/CodeRewriting/StaticFieldIdentifierRewriter.cs:78 | a lambda parameter of the same name does not shadow: `Count => Count` becomes `Count => Foo.Count` |
| StaticFieldExamples.MethodParameterShadows | Assets/Scripts/Editor/Compilation/CodeRewriting/StaticFieldIdentifierRewriter.cs:78-85 | a method parameter of the same name keeps the identifier bare |
| StaticFieldExamples.ConstructorParameterIsNotConsulted | Assets/Scripts/Editor/Compilation/CodeRewriting/StaticFieldIdentifierRewriter.cs:78 | a constructor parameter of the same name does not, so the use is qualified |
| StaticFieldExamples.LocalShadowsOnlyItsOwnDeclaration | Assets/Scripts/Editor/Compilation/CodeRewriting/StaticFieldIdentifierRewriter.cs:88-95 | a local declaration shadows the name inside its own initializer but not in a later statement |
| StaticFieldExamples.MemberAccessTargetStaysBare | Assets/Scripts/Editor/Compilation/CodeRewriting/StaticFieldIdentifierRewriter.cs:72-75 | `Count.ToString()` is left alone |
| StaticFieldExamples.NestedTypeDoesNotSeeOuterField | Assets/Scripts/Editor/Compilation/CodeRewriting/StaticFieldIdentifierRewriter.cs:55-59 | an outer type's field, though in the flat set, is not qualified inside a nested type |
| ThisCallRewriting.CastThroughObject | Assets/Scripts/Editor/Compilation/CodeRewriting/ThisCallRewriter.cs:33 | the parsed replacement is a cast to `T` of a cast to `object` of `this` |
| ThisCallRewriting.RwExpr | Assets/Scripts/Editor/Compilation/CodeRewriting/ThisCallRewriter.cs:16-55 | outside argument position a `this` stays a `this` and nothing else becomes one; cast-ness of any other node is kept |
| ThisCallRewriting.CastFormsKept | Assets/Scripts/Editor/Compilation/CodeRewriting/ThisCallRewriter.cs:23 | outside argument position the forms `(object)this` and `(T)(object)this` are neither created nor destroyed |
| ThisCallRewriting.ThisArgumentRule | Assets/Scripts/Editor/Compilation/CodeRewriting/ThisCallRewriter.cs:16-24 | a `this` whose parent is an argument becomes the casted-`this` expression; in any other position it is unchanged (a one-step unfolding of `RwExpr`, kept as the statement of the rule) |
| ThisCallRewriting.AssignThisRule | Assets/Scripts/Editor/Compilation/CodeRewriting/ThisCallRewriter.cs:26-37 | inside a type, `left op this` keeps `left` and `op` and gets right side `(T)(object)this` with `T` the nearest type; with no type the right side stays `this` (a one-step unfolding, kept as the statement of the rule) |
| ThisCallRewriting.ThisInvocationRule | Assets/Scripts/Editor/Compilation/CodeRewriting/ThisCallRewriter.cs:39-55 | for `this.M(args)` in a type, the callee is unchanged iff the type declares a method `M`; otherwise it becomes `((T)(object)this).M` and the arguments are kept as they were |
| ThisCallRewriting.ReturnThisRule | Assets/Scripts/Editor/Compilation/CodeRewriting/ThisCallRewriter.cs:57-67 | `return this;` in a type becomes `return (T)(object)this;`; with no type it is unchanged (a one-step unfolding, kept as the statement of the rule) |
| ThisCallRewriting.RwStmt | Assets/Scripts/Editor/Compilation/CodeRewriting/ThisCallRewriter.cs:57-67 | a statement keeps its kind, and inside a type no `return this;` is left in it at any depth of blocks and branches |
| ThisCallRewriting.RwBody | Assets/Scripts/Editor/Compilation/CodeRewriting/ThisCallRewriter.cs:57-67 | a member body keeps its length, and inside a type none of its statements holds `return this;` any more |
| ThisCallProperties.ExprErasure | Assets/Scripts/Editor/Compilation/CodeRewriting/ThisCallRewriter.cs:16-55 | when the casted-`this` builder yields a cast through `object` of `this`, a rewritten expression equals the original once the forms of `this` and the trivia of rebuilt tokens are identified |
| ThisCallProperties.StmtErasure | Assets/Scripts/Editor/Compilation/CodeRewriting/ThisCallRewriter.cs:57-67 | the same for statements, including `return this;` |
| ThisCallProperties.RewriteOnlyCastsThis | Assets/Scripts/Editor/Compilation/CodeRewriting/ThisCallRewriter.cs:9-67 | the whole pass changes nothing but the form of `this`: node kinds, names, operators, modifiers and argument lists are kept, and so are type texts outside the casts through `object` of `this` (whose target type the erasure identifies) |
| ThisCallProperties.RewriteLeavesNoReturnThisInTypes | Assets/Scripts/Editor/Compilation/CodeRewriting/ThisCallRewriter.cs:57-67 | after the pass no `return this;` is left anywhere inside a type declaration of the unit, nested blocks, branches and nested types included |
| ThisCallProperties.NoEnclosingExprUnchanged | Assets/Scripts/Editor/Compilation/CodeRewriting/ThisCallRewriter.cs:30-43 | with no enclosing type the assignment and invocation rules never fire: an expression with no `this` argument is unchanged |
| ThisCallProperties.NoEnclosingStmtUnchanged | Assets/Scripts/Editor/Compilation/CodeRewriting/ThisCallRewriter.cs:60-62 | with no enclosing type, a statement with no `this` argument is unchanged, `return this;` included |
| ThisCallExamples.InheritedCallIsCast | Assets/Scripts/Editor/Compilation/CodeRewriting/ThisCallRewriter.cs:43-50 | `this.BaseMethod();` in `Foo`, which does not declare it, becomes `((Foo)(object)this).BaseMethod();` |
| ThisCallExamples.DeclaredMethodCallIsKept | Assets/Scripts/Editor/Compilation/CodeRewriting/ThisCallRewriter.cs:45-47 | `this.Run();` in a type declaring `Run` is unchanged |
| ThisCallExamples.FieldOfSameNameDoesNotBlock | Assets/Scripts/Editor/Compilation/CodeRewriting/ThisCallRewriter.cs:45 | a field named `M` does not stop `this.M()` from being rewritten |
| ThisCallExamples.AssignedButNotInitialized | Assets/Scripts/Editor/Compilation/CodeRewriting/ThisCallRewriter.cs:28-33 | `x = this;` is rewritten while `var x = this;` is not |
| ThisCallExamples.InnerThisArgumentIsNotVisited | Assets/Scripts/Editor/Compilation/CodeRewriting/ThisCallRewriter.cs:49-50 | in `this.M(this)` only the receiver is rewritten; the argument `this` is not visited |
| ThisCallExamples.ReceiverTriviaIsDropped | Assets/Scripts/Editor/Compilation/CodeRewriting/ThisCallRewriter.cs:49-50 | the rebuilt receiver of `this.BaseMethod()` has no leading trivia: the indentation carried by the replaced `this` is lost |
| ThisCallExamples.NotIdempotent | Assets/Scripts/Editor/Compilation/CodeRewriting/ThisCallRewriter.cs:50 | so a second run changes that output again |
| ReturnRewriting.LastClassName | Assets/Scripts/Editor/Compilation/CodeRewriting/ReturnRewriter.cs:20 | the class name held after a sequence of entries is the previous value when no class is entered, and otherwise the identifier of one of the class entries |
| ReturnRewriting.LastReturnType | Assets/Scripts/Editor/Compilation/CodeRewriting/ReturnRewriter.cs:26 | the return type held is the previous value when no method is entered, and otherwise the return-type text of one of the method entries |
| ReturnRewriting.LatestClassEntry | Assets/Scripts/Editor/Compilation/CodeRewriting/ReturnRewriter.cs:18-22 | when some class is entered, the class name held is that of the latest class entry: no class is entered after it |
| ReturnRewriting.LatestMethodEntry | Assets/Scripts/Editor/Compilation/CodeRewriting/ReturnRewriter.cs:24-28 | when some method is entered, the return type held is that of the latest method entry |
| ReturnRewriting.LastClassNameAppend | Assets/Scripts/Editor/Compilation/CodeRewriting/ReturnRewriter.cs:20 | overwriting on entry composes: entering `a` then `b` is entering `b` from what `a` left |
| ReturnRewriting.LastReturnTypeAppend | Assets/Scripts/Editor/Compilation/CodeRewriting/ReturnRewriter.cs:26 | the same for the return type |
| ReturnRewriting.NonClassKeepsClassName | Assets/Scripts/Editor/Compilation/CodeRewriting/ReturnRewriter.cs:18-20 | a struct, interface or record with no nested types leaves the class name as it was |
| ReturnRewriting.ReturnRewriter.constructor | Assets/Scripts/Editor/Compilation/CodeRewriting/ReturnRewriter.cs:11-16 | both fields start out empty |
| ReturnRewriting.ReturnRewriter.VisitTypeDeclaration | Assets/Scripts/Editor/Compilation/CodeRewriting/ReturnRewriter.cs:18-22 | the node comes back unchanged; only a class records its name, on entry, and nothing is restored on exit; the fields end at the latest class and method entered |
| ReturnRewriting.ReturnRewriter.VisitMemberAt | Assets/Scripts/Editor/Compilation/CodeRewriting/ReturnRewriter.cs:24-28 | a method records its return-type text; the member comes back unchanged |
| ReturnRewriting.ReturnRewriter.VisitCompilationUnit | Assets/Scripts/Editor/Compilation/CodeRewriting/ReturnRewriter.cs:18-39 | the pass never changes the tree, and leaves the fields at the unit's latest class and method |
| ReturnExamples.FieldsAfterNestedClass | Assets/Scripts/Editor/Compilation/CodeRewriting/ReturnRewriter.cs:11-12 | after `class Outer { class Inner { int F() {} } string G() {} }` the class name is still `Inner` while the return type is `G`'s `string` |

## Left out

- Roslyn itself (parsing, red/green trees, parent pointers, the visitor's dispatch over every node kind): the tree covers only the node kinds the passes react to or descend through, and ancestor queries become context passed down.
- Text parsing of the synthesized code (`ParseExpression`): the results `T.F`, `(T)(object)this` and `((T)(object)this).M` are built directly as tree nodes.
- Types are kept as source text, so identifiers inside type syntax (generic arguments, array ranks, casts) are not visited; generic type parameters and generic method names are not modelled, and `Identifier.Text` has no type parameters to drop.
- Trivia is an opaque value, copied where the source copies it (`WithTriviaFrom` in the static-field pass); tokens that carry no trivia in the model (punctuation) are not tracked, and whitespace normalisation is not modelled.
- `AddRewriteCommentIfNeeded` and the rewrite-comment option are not part of this model (their base class is not shown); the model returns the node without the optional comment.
- CreateCastedThisExpression is not part of this model: it is the parameter `castThis`, taken to depend only on the nearest type's name and the trivia of `this`; the whole-tree `this` properties assume it yields a cast through `object` of `this` (`CastsThis`).
- `visitIntoStructuredTrivia` is not modelled (structured trivia is never visited).
- The commented-out return-cast rule and `AssemblyChangesLoader.ClassnamePatchedPostfix` are not modelled: the rule is disabled in the source and the postfix belongs to the runtime patch loader, which is not part of this model.
- The pipeline that chooses and orders the passes, the logging import, file watching, compilation and assembly loading are outside this model.
- Statement and expression forms the passes treat only by descending into them (loops, `switch`, `try`, element access, conditional expressions, local functions, lambdas with block bodies, attributes, base lists) are not in the tree; local functions and block lambdas are transparent to the nearest-method query (their parameters are not consulted); a block lambda's own local declaration would become the nearest local-declaration statement for identifiers inside it; a `for`, `foreach`, `catch`, pattern or `out` variable is not a local-declaration statement, so in `for (int Count = 0; Count < n; Count++)` the source would qualify the loop variable's uses as `Foo.Count`.
- Namespace declarations, constructor initializers (`: this(Count)`), object initializers (`new Bar { Count = 1 }`) and named arguments (`Count: 1`) are not in the tree: a namespace is transparent to all three passes; in the static-field pass a bare field name in a constructor initializer or as an object-initializer target would be qualified like any other identifier, and a qualified name in a named-argument position would not fit the name-colon node it replaces.
- Enums and delegates are not type declarations for the nearest-type query and are not in the tree.
- Semantic name resolution and overload resolution: all matches are by name text, as in the source.
