/** A small C#-like syntax tree: the node kinds the three rewrite passes
    look at, and the few queries they make of a node (its first and last
    trivia, the names a declaration introduces, the methods a type declares).

    Types are kept as their source text, so identifiers inside type syntax are
    not nodes of this tree.  The simple name to the right of a dot is a `Name`
    rather than an expression: no pass ever rewrites it. */
module Syntax {

  datatype Option<+T> = None | Some(value: T)

  /** Whitespace and comments around a token, copied but never inspected. */
  datatype Trivia = Trivia(leading: string, trailing: string)

  const NoTrivia := Trivia("", "")

  /** Modifier keywords of a member declaration. */
  datatype Modifier =
    | Public | Private | Protected | Internal
    | Static | Readonly | Const | Volatile
    | Abstract | Virtual | Override | Sealed | Partial | New

  /** The kinds of type declaration (all of them are type declarations in
      the sense of the nearest-enclosing-type query). */
  datatype TypeKind = Class | Struct | Interface | Record

  /** What the parent of an expression node is, as far as the passes ask:
      an argument of a call or object creation, the target of a member access
      (`target.Name`), or anything else. */
  datatype Parent = ArgumentParent | MemberAccessParent | OtherParent

  /** A simple name after a dot, as in `target.Name`. */
  datatype Name = Name(text: string, trivia: Trivia)

  datatype Expr =
    | Ident(name: string, trivia: Trivia)           // a bare identifier name
    | This(trivia: Trivia)                          // `this`
    | Literal(text: string, trivia: Trivia)
    | MemberAccess(target: Expr, member: Name)      // `target.member`
    | Invocation(callee: Expr, args: seq<Expr>)     // `callee(args)`
    | ObjectCreation(typeName: string, args: seq<Expr>)   // `new T(args)`
    | Assignment(op: string, left: Expr, right: Expr)     // `left op right`, op one of `=`, `+=`, ...
    | Binary(op: string, left: Expr, right: Expr)
    | Postfix(op: string, operand: Expr)            // `operand++`
    | Cast(typeName: string, operand: Expr)         // `(typeName)operand`
    | Paren(inner: Expr)                            // `(inner)`
    | Lambda(params: seq<string>, body: Expr)       // `(params) => body`

  /** One declared variable of a field or local declaration: `name = init`. */
  datatype Declarator = Declarator(name: string, init: Option<Expr>)

  datatype Stmt =
    | ExprStmt(expr: Expr)
    | LocalDecl(typeName: string, vars: seq<Declarator>)
    | Return(value: Option<Expr>)
    | Block(body: seq<Stmt>)
    | If(cond: Expr, thn: Stmt, els: Option<Stmt>)

  datatype Member =
    | Field(mods: seq<Modifier>, typeName: string, vars: seq<Declarator>)
    | Method(mods: seq<Modifier>, returnType: string, name: string, params: seq<string>, body: seq<Stmt>)
    | Constructor(mods: seq<Modifier>, name: string, params: seq<string>, body: seq<Stmt>)
    | Property(mods: seq<Modifier>, typeName: string, name: string, getter: seq<Stmt>)
    | NestedType(decl: TypeDecl)

  datatype TypeDecl = TypeDecl(kind: TypeKind, name: string, members: seq<Member>)

  /** A top-level item: a type declaration, or a top-level statement, which
      has no enclosing type declaration. */
  datatype Item = TypeItem(decl: TypeDecl) | GlobalStatement(stmt: Stmt)

  datatype CompilationUnit = CompilationUnit(items: seq<Item>)

  /** Identity of a type declaration node: the child indices leading to it
      from the root.  Two declarations at different places never share one. */
  type Key = seq<nat>

  /** The names a field or local declaration introduces, as a set. */
  function DeclaratorNames(vars: seq<Declarator>): (names: set<string>)
    ensures forall i :: 0 <= i < |vars| ==> vars[i].name in names
    ensures forall n :: n in names ==> exists i :: 0 <= i < |vars| && vars[i].name == n
  {
    set i | 0 <= i < |vars| :: vars[i].name
  }

  /** Names of the method declarations among `members` (direct members only;
      fields, properties, constructors and nested types are not methods). */
  function MethodNames(members: seq<Member>): (names: set<string>)
    ensures forall i :: 0 <= i < |members| && members[i].Method? ==> members[i].name in names
    ensures forall n :: n in names ==> exists i :: 0 <= i < |members| && members[i].Method? && members[i].name == n
  {
    set i | 0 <= i < |members| && members[i].Method? :: members[i].name
  }

  /** Trivia before the first token of an expression (punctuation tokens
      carry none in this model). */
  function LeadingTrivia(e: Expr): string
  {
    match e
    case Ident(_, t) => t.leading
    case This(t) => t.leading
    case Literal(_, t) => t.leading
    case MemberAccess(target, _) => LeadingTrivia(target)
    case Invocation(callee, _) => LeadingTrivia(callee)
    case Assignment(_, left, _) => LeadingTrivia(left)
    case Binary(_, left, _) => LeadingTrivia(left)
    case Postfix(_, operand) => LeadingTrivia(operand)
    case _ => ""
  }

  /** Trivia after the last token of an expression. */
  function TrailingTrivia(e: Expr): string
  {
    match e
    case Ident(_, t) => t.trailing
    case This(t) => t.trailing
    case Literal(_, t) => t.trailing
    case MemberAccess(_, member) => member.trivia.trailing
    case Assignment(_, _, right) => TrailingTrivia(right)
    case Binary(_, _, right) => TrailingTrivia(right)
    case Cast(_, operand) => TrailingTrivia(operand)
    case Lambda(_, body) => TrailingTrivia(body)
    case _ => ""
  }
}
