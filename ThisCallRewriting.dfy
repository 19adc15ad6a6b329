/** The `this`-call pass: inside a type declaration `T`, an occurrence of
    `this` that would be taken as the old type's instance is routed through
    `object` and cast back to `T`, so `this` passed as an argument, assigned,
    used as the receiver of a call to a method `T` does not declare, or
    returned.

    The pass keeps no state; every decision is made from the node, its parent
    kind and its nearest enclosing type declaration, which are passed down
    the recursion as `parent` and `enc`. */
module ThisCallRewriting {
  import opened Syntax

  /** What the pass asks of the nearest enclosing type declaration: its
      identifier text and the names of the methods it declares directly. */
  datatype Enclosing = Enclosing(name: string, methods: set<string>)

  function EnclosingOf(d: TypeDecl): Enclosing
  {
    Enclosing(d.name, MethodNames(d.members))
  }

  function EnclosingName(enc: Option<Enclosing>): Option<string>
  {
    if enc.Some? then Some(enc.value.name) else None
  }

  /** The casted-`this` expression built for a `this` argument.  It is made
      by a base class that is not part of this model, so it is a parameter:
      given the nearest type's name (if any) and the trivia of the `this`
      token, it yields the replacement expression. */
  type CastThis = (Option<string>, Trivia) -> Expr

  /** `(object)this`, with any trivia on the `this`. */
  predicate IsObjectCastOfThis(e: Expr)
  {
    e.Cast? && e.typeName == "object" && e.operand.This?
  }

  /** `(T)(object)this` for some `T`. */
  predicate IsCastedThis(e: Expr)
  {
    e.Cast? && IsObjectCastOfThis(e.operand)
  }

  /** The assumption under which the properties about the whole pass are
      proved: the unseen casted-`this` builder yields a cast through
      `object` of `this`. */
  ghost predicate CastsThis(castThis: CastThis)
  {
    forall n: Option<string>, t: Trivia :: IsCastedThis(castThis(n, t))
  }

  /** `(T)(object)this`, as the pass parses it from text (so without trivia). */
  function CastThroughObject(typeName: string): (r: Expr)
    ensures IsCastedThis(r) && r.typeName == typeName
  {
    Cast(typeName, Cast("object", This(NoTrivia)))
  }

  /** The rewrite of expression `e` whose parent is of kind `parent`. */
  function RwExpr(e: Expr, parent: Parent, enc: Option<Enclosing>, castThis: CastThis): (r: Expr)
    ensures parent != ArgumentParent ==> (r.This? <==> e.This?)
    ensures !e.This? ==> r.Cast? == e.Cast?
  {
    match e
    case This(t) =>
      if parent == ArgumentParent then castThis(EnclosingName(enc), t) else e
    case Assignment(op, left, right) =>
      if right.This? && enc.Some? then
        // the left side is kept as it is, not visited
        Assignment(op, left, CastThroughObject(enc.value.name))
      else
        Assignment(op, RwExpr(left, OtherParent, enc, castThis), RwExpr(right, OtherParent, enc, castThis))
    case Invocation(callee, args) =>
      if enc.Some? && callee.MemberAccess? && callee.target.This? && callee.member.text !in enc.value.methods then
        // the argument list is kept as it is, not visited
        Invocation(MemberAccess(Paren(CastThroughObject(enc.value.name)), Name(callee.member.text, NoTrivia)), args)
      else
        Invocation(RwExpr(callee, OtherParent, enc, castThis),
                   seq(|args|, i requires 0 <= i < |args| => RwExpr(args[i], ArgumentParent, enc, castThis)))
    case MemberAccess(target, member) =>
      MemberAccess(RwExpr(target, MemberAccessParent, enc, castThis), member)
    case ObjectCreation(typeName, args) =>
      ObjectCreation(typeName, seq(|args|, i requires 0 <= i < |args| => RwExpr(args[i], ArgumentParent, enc, castThis)))
    case Binary(op, left, right) =>
      Binary(op, RwExpr(left, OtherParent, enc, castThis), RwExpr(right, OtherParent, enc, castThis))
    case Postfix(op, operand) => Postfix(op, RwExpr(operand, OtherParent, enc, castThis))
    case Cast(typeName, operand) => Cast(typeName, RwExpr(operand, OtherParent, enc, castThis))
    case Paren(inner) => Paren(RwExpr(inner, OtherParent, enc, castThis))
    case Lambda(ps, body) => Lambda(ps, RwExpr(body, OtherParent, enc, castThis))
    case Ident(_, _) => e
    case Literal(_, _) => e
  }

  function RwOptExpr(e: Option<Expr>, enc: Option<Enclosing>, castThis: CastThis): (r: Option<Expr>)
    ensures r.Some? == e.Some?
  {
    if e.Some? then Some(RwExpr(e.value, OtherParent, enc, castThis)) else None
  }

  /** Declarators of a field or local declaration; an initializer's parent is
      not an argument. */
  function RwDeclarators(vars: seq<Declarator>, enc: Option<Enclosing>, castThis: CastThis): (r: seq<Declarator>)
    ensures |r| == |vars|
    ensures forall i :: 0 <= i < |vars| ==> r[i].name == vars[i].name
  {
    seq(|vars|, i requires 0 <= i < |vars| => Declarator(vars[i].name, RwOptExpr(vars[i].init, enc, castThis)))
  }

  /** A statement that is `return this;`, or holds one in a nested block or
      branch. */
  predicate HasReturnThis(s: Stmt)
  {
    match s
    case Return(v) => v.Some? && v.value.This?
    case Block(body) => exists i :: 0 <= i < |body| && HasReturnThis(body[i])
    case If(_, thn, els) => HasReturnThis(thn) || (els.Some? && HasReturnThis(els.value))
    case _ => false
  }

  /** The rewrite of a statement: its kind is kept, and inside a type no
      `return this;` is left at any depth. */
  function RwStmt(s: Stmt, enc: Option<Enclosing>, castThis: CastThis): (r: Stmt)
    ensures r.ExprStmt? == s.ExprStmt? && r.LocalDecl? == s.LocalDecl? && r.Return? == s.Return?
    ensures r.Block? == s.Block? && r.If? == s.If?
    ensures enc.Some? ==> !HasReturnThis(r)
  {
    match s
    case ExprStmt(e) => ExprStmt(RwExpr(e, OtherParent, enc, castThis))
    case LocalDecl(typeName, vars) => LocalDecl(typeName, RwDeclarators(vars, enc, castThis))
    case Return(value) =>
      if value.Some? && value.value.This? && enc.Some? then
        Return(Some(CastThroughObject(enc.value.name)))
      else
        Return(RwOptExpr(value, enc, castThis))
    case Block(body) => Block(seq(|body|, i requires 0 <= i < |body| => RwStmt(body[i], enc, castThis)))
    case If(cond, thn, els) =>
      If(RwExpr(cond, OtherParent, enc, castThis), RwStmt(thn, enc, castThis),
         if els.Some? then Some(RwStmt(els.value, enc, castThis)) else None)
  }

  function RwBody(body: seq<Stmt>, enc: Option<Enclosing>, castThis: CastThis): (r: seq<Stmt>)
    ensures |r| == |body|
    ensures enc.Some? ==> forall i :: 0 <= i < |r| ==> !HasReturnThis(r[i])
  {
    seq(|body|, i requires 0 <= i < |body| => RwStmt(body[i], enc, castThis))
  }

  /** A member of a type declaration whose own context is `enc`; a nested
      type declaration becomes the nearest type for what it contains. */
  function RwMember(m: Member, enc: Option<Enclosing>, castThis: CastThis): (r: Member)
    decreases m, 1
  {
    match m
    case Field(mods, typeName, vars) => Field(mods, typeName, RwDeclarators(vars, enc, castThis))
    case Method(mods, rt, name, ps, body) => Method(mods, rt, name, ps, RwBody(body, enc, castThis))
    case Constructor(mods, name, ps, body) => Constructor(mods, name, ps, RwBody(body, enc, castThis))
    case Property(mods, typeName, name, getter) => Property(mods, typeName, name, RwBody(getter, enc, castThis))
    case NestedType(d) => NestedType(RwType(d, castThis))
  }

  function RwType(d: TypeDecl, castThis: CastThis): (r: TypeDecl)
    ensures r.kind == d.kind && r.name == d.name && |r.members| == |d.members|
    decreases d, 0
  {
    var enc := Some(EnclosingOf(d));
    TypeDecl(d.kind, d.name, seq(|d.members|, i requires 0 <= i < |d.members| => RwMember(d.members[i], enc, castThis)))
  }

  function RwItem(it: Item, castThis: CastThis): (r: Item)
    ensures r.TypeItem? == it.TypeItem?
  {
    match it
    case TypeItem(d) => TypeItem(RwType(d, castThis))
    // a top-level statement has no enclosing type declaration
    case GlobalStatement(s) => GlobalStatement(RwStmt(s, None, castThis))
  }

  /** The whole pass over a compilation unit. */
  function Rewrite(u: CompilationUnit, castThis: CastThis): (r: CompilationUnit)
    ensures |r.items| == |u.items|
  {
    CompilationUnit(seq(|u.items|, i requires 0 <= i < |u.items| => RwItem(u.items[i], castThis)))
  }

  /** Outside argument position, the rewrite keeps the forms `(object)this`
      and `(T)(object)this` and creates no new ones. */
  lemma CastFormsKept(e: Expr, parent: Parent, enc: Option<Enclosing>, castThis: CastThis)
    requires parent != ArgumentParent
    ensures IsObjectCastOfThis(RwExpr(e, parent, enc, castThis)) <==> IsObjectCastOfThis(e)
    ensures IsCastedThis(RwExpr(e, parent, enc, castThis)) <==> IsCastedThis(e)
  {
    if e.Cast? {
      assert RwExpr(e, parent, enc, castThis) == Cast(e.typeName, RwExpr(e.operand, OtherParent, enc, castThis));
      CastFormsKept(e.operand, OtherParent, enc, castThis);
    }
  }

  // ---- the four rules, one lemma each ----

  /** A `this` that is an argument becomes the casted-`this` expression; a
      `this` anywhere else is left as it is. */
  lemma ThisArgumentRule(t: Trivia, parent: Parent, enc: Option<Enclosing>, castThis: CastThis)
    ensures parent == ArgumentParent ==> RwExpr(This(t), parent, enc, castThis) == castThis(EnclosingName(enc), t)
    ensures parent != ArgumentParent ==> RwExpr(This(t), parent, enc, castThis) == This(t)
  {
  }

  /** `left op this` inside a type `T` gets right side `(T)(object)this`,
      and keeps its left side and operator untouched; outside any type the
      assignment keeps its right side `this`. */
  lemma AssignThisRule(op: string, left: Expr, t: Trivia, parent: Parent, enc: Option<Enclosing>, castThis: CastThis)
    ensures var r := RwExpr(Assignment(op, left, This(t)), parent, enc, castThis);
      r.Assignment? && r.op == op &&
      (enc.Some? ==> r.left == left && r.right == CastThroughObject(enc.value.name) && r.right.typeName == enc.value.name) &&
      (enc.None? ==> r.right == This(t))
  {
  }

  /** `this.M(args)` inside a type `T`: the callee is left as it is exactly
      when `T` declares a method named `M`; otherwise the callee becomes
      `((T)(object)this).M` and the arguments are kept without being
      visited. */
  lemma ThisInvocationRule(t: Trivia, m: Name, args: seq<Expr>, parent: Parent, enc: Enclosing, castThis: CastThis)
    ensures var r := RwExpr(Invocation(MemberAccess(This(t), m), args), parent, Some(enc), castThis);
      r.Invocation? && |r.args| == |args| &&
      (r.callee == MemberAccess(This(t), m) <==> m.text in enc.methods) &&
      (m.text !in enc.methods ==>
         r.callee == MemberAccess(Paren(CastThroughObject(enc.name)), Name(m.text, NoTrivia)) && r.args == args)
  {
    var callee := MemberAccess(This(t), m);
    assert RwExpr(This(t), MemberAccessParent, Some(enc), castThis) == This(t);
    assert RwExpr(callee, OtherParent, Some(enc), castThis) == callee;
  }

  /** `return this;` inside a type `T` becomes `return (T)(object)this;`;
      outside any type it is left as it is. */
  lemma ReturnThisRule(t: Trivia, enc: Option<Enclosing>, castThis: CastThis)
    ensures enc.Some? ==> RwStmt(Return(Some(This(t))), enc, castThis) == Return(Some(CastThroughObject(enc.value.name)))
    ensures enc.None? ==> RwStmt(Return(Some(This(t))), enc, castThis) == Return(Some(This(t)))
  {
  }
}
