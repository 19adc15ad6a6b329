/** What the `this`-call pass guarantees about a whole tree: apart from the
    spelling of `this` (bare, or cast through `object`) and the trivia the
    rewritten tokens lose, the output is the input; outside any type
    declaration only `this` arguments are touched; and a few concrete
    consequences of the rules, including that one run is not always enough. */
module ThisCallProperties {
  import opened Syntax
  import opened ThisCallRewriting

  // ---- erasure: the tree with every form of `this` identified ----

  /** `e` with `this`, `(T)(object)this` and `((T)(object)this)` all written
      as `this`, and the trivia of `this` and of a name after a dot dropped. */
  function Erase(e: Expr): Expr
  {
    match e
    case This(_) => This(NoTrivia)
    case Cast(typeName, operand) => if IsCastedThis(e) then This(NoTrivia) else Cast(typeName, Erase(operand))
    case Paren(inner) => if IsCastedThis(inner) then This(NoTrivia) else Paren(Erase(inner))
    case MemberAccess(target, member) => MemberAccess(Erase(target), Name(member.text, NoTrivia))
    case Invocation(callee, args) =>
      Invocation(Erase(callee), seq(|args|, i requires 0 <= i < |args| => Erase(args[i])))
    case ObjectCreation(typeName, args) =>
      ObjectCreation(typeName, seq(|args|, i requires 0 <= i < |args| => Erase(args[i])))
    case Assignment(op, left, right) => Assignment(op, Erase(left), Erase(right))
    case Binary(op, left, right) => Binary(op, Erase(left), Erase(right))
    case Postfix(op, operand) => Postfix(op, Erase(operand))
    case Lambda(ps, body) => Lambda(ps, Erase(body))
    case Ident(_, _) => e
    case Literal(_, _) => e
  }

  function EraseOpt(e: Option<Expr>): Option<Expr>
  {
    if e.Some? then Some(Erase(e.value)) else None
  }

  function EraseDeclarators(vars: seq<Declarator>): seq<Declarator>
  {
    seq(|vars|, i requires 0 <= i < |vars| => Declarator(vars[i].name, EraseOpt(vars[i].init)))
  }

  function EraseStmt(s: Stmt): Stmt
  {
    match s
    case ExprStmt(e) => ExprStmt(Erase(e))
    case LocalDecl(typeName, vars) => LocalDecl(typeName, EraseDeclarators(vars))
    case Return(value) => Return(EraseOpt(value))
    case Block(body) => Block(seq(|body|, i requires 0 <= i < |body| => EraseStmt(body[i])))
    case If(cond, thn, els) =>
      If(Erase(cond), EraseStmt(thn), if els.Some? then Some(EraseStmt(els.value)) else None)
  }

  function EraseBody(body: seq<Stmt>): seq<Stmt>
  {
    seq(|body|, i requires 0 <= i < |body| => EraseStmt(body[i]))
  }

  function EraseMember(m: Member): Member
    decreases m, 1
  {
    match m
    case Field(mods, typeName, vars) => Field(mods, typeName, EraseDeclarators(vars))
    case Method(mods, rt, name, ps, body) => Method(mods, rt, name, ps, EraseBody(body))
    case Constructor(mods, name, ps, body) => Constructor(mods, name, ps, EraseBody(body))
    case Property(mods, typeName, name, getter) => Property(mods, typeName, name, EraseBody(getter))
    case NestedType(d) => NestedType(EraseType(d))
  }

  function EraseType(d: TypeDecl): TypeDecl
    decreases d, 0
  {
    TypeDecl(d.kind, d.name, seq(|d.members|, i requires 0 <= i < |d.members| => EraseMember(d.members[i])))
  }

  function EraseItem(it: Item): Item
  {
    match it
    case TypeItem(d) => TypeItem(EraseType(d))
    case GlobalStatement(s) => GlobalStatement(EraseStmt(s))
  }

  function EraseUnit(u: CompilationUnit): CompilationUnit
  {
    CompilationUnit(seq(|u.items|, i requires 0 <= i < |u.items| => EraseItem(u.items[i])))
  }

  /** The rewrite of an expression changes nothing but the form of `this`. */
  lemma {:induction false} ExprErasure(e: Expr, parent: Parent, enc: Option<Enclosing>, castThis: CastThis)
    requires CastsThis(castThis)
    ensures Erase(RwExpr(e, parent, enc, castThis)) == Erase(e)
    decreases e
  {
    match e
    case This(t) =>
      if parent == ArgumentParent {
        assert IsCastedThis(castThis(EnclosingName(enc), t));
      }
    case Assignment(op, left, right) =>
      if !(right.This? && enc.Some?) {
        ExprErasure(left, OtherParent, enc, castThis);
        ExprErasure(right, OtherParent, enc, castThis);
      }
    case Invocation(callee, args) =>
      if !(enc.Some? && callee.MemberAccess? && callee.target.This? && callee.member.text !in enc.value.methods) {
        ExprErasure(callee, OtherParent, enc, castThis);
        forall i | 0 <= i < |args|
          ensures Erase(RwExpr(args[i], ArgumentParent, enc, castThis)) == Erase(args[i])
        {
          ExprErasure(args[i], ArgumentParent, enc, castThis);
        }
      } else {
        var cast := Paren(CastThroughObject(enc.value.name));
        assert Erase(cast) == Erase(callee.target);
      }
    case MemberAccess(target, _) => ExprErasure(target, MemberAccessParent, enc, castThis);
    case ObjectCreation(_, args) =>
      forall i | 0 <= i < |args|
        ensures Erase(RwExpr(args[i], ArgumentParent, enc, castThis)) == Erase(args[i])
      {
        ExprErasure(args[i], ArgumentParent, enc, castThis);
      }
    case Binary(_, left, right) =>
      ExprErasure(left, OtherParent, enc, castThis);
      ExprErasure(right, OtherParent, enc, castThis);
    case Postfix(_, operand) => ExprErasure(operand, OtherParent, enc, castThis);
    case Cast(_, operand) =>
      CastFormsKept(operand, OtherParent, enc, castThis);
      ExprErasure(operand, OtherParent, enc, castThis);
    case Paren(inner) =>
      CastFormsKept(inner, OtherParent, enc, castThis);
      ExprErasure(inner, OtherParent, enc, castThis);
    case Lambda(_, body) => ExprErasure(body, OtherParent, enc, castThis);
    case Ident(_, _) =>
    case Literal(_, _) =>
  }

  lemma DeclaratorsErasure(vars: seq<Declarator>, enc: Option<Enclosing>, castThis: CastThis)
    requires CastsThis(castThis)
    ensures EraseDeclarators(RwDeclarators(vars, enc, castThis)) == EraseDeclarators(vars)
  {
    forall i | 0 <= i < |vars| && vars[i].init.Some?
      ensures Erase(RwExpr(vars[i].init.value, OtherParent, enc, castThis)) == Erase(vars[i].init.value)
    {
      ExprErasure(vars[i].init.value, OtherParent, enc, castThis);
    }
  }

  lemma {:induction false} StmtErasure(s: Stmt, enc: Option<Enclosing>, castThis: CastThis)
    requires CastsThis(castThis)
    ensures EraseStmt(RwStmt(s, enc, castThis)) == EraseStmt(s)
    decreases s
  {
    match s
    case ExprStmt(e) => ExprErasure(e, OtherParent, enc, castThis);
    case LocalDecl(_, vars) => DeclaratorsErasure(vars, enc, castThis);
    case Return(value) =>
      if value.Some? && !(value.value.This? && enc.Some?) {
        ExprErasure(value.value, OtherParent, enc, castThis);
      }
    case Block(body) =>
      forall i | 0 <= i < |body|
        ensures EraseStmt(RwStmt(body[i], enc, castThis)) == EraseStmt(body[i])
      {
        StmtErasure(body[i], enc, castThis);
      }
    case If(cond, thn, els) =>
      ExprErasure(cond, OtherParent, enc, castThis);
      StmtErasure(thn, enc, castThis);
      if els.Some? {
        StmtErasure(els.value, enc, castThis);
      }
  }

  lemma BodyErasure(body: seq<Stmt>, enc: Option<Enclosing>, castThis: CastThis)
    requires CastsThis(castThis)
    ensures EraseBody(RwBody(body, enc, castThis)) == EraseBody(body)
  {
    forall i | 0 <= i < |body|
      ensures EraseStmt(RwStmt(body[i], enc, castThis)) == EraseStmt(body[i])
    {
      StmtErasure(body[i], enc, castThis);
    }
  }

  lemma {:induction false} MemberErasure(m: Member, enc: Option<Enclosing>, castThis: CastThis)
    requires CastsThis(castThis)
    ensures EraseMember(RwMember(m, enc, castThis)) == EraseMember(m)
    decreases m, 1
  {
    match m
    case Field(_, _, vars) => DeclaratorsErasure(vars, enc, castThis);
    case Method(_, _, _, _, body) => BodyErasure(body, enc, castThis);
    case Constructor(_, _, _, body) => BodyErasure(body, enc, castThis);
    case Property(_, _, _, getter) => BodyErasure(getter, enc, castThis);
    case NestedType(d) => TypeErasure(d, castThis);
  }

  lemma {:induction false} TypeErasure(d: TypeDecl, castThis: CastThis)
    requires CastsThis(castThis)
    ensures EraseType(RwType(d, castThis)) == EraseType(d)
    decreases d, 0
  {
    forall i | 0 <= i < |d.members|
      ensures EraseMember(RwMember(d.members[i], Some(EnclosingOf(d)), castThis)) == EraseMember(d.members[i])
    {
      MemberErasure(d.members[i], Some(EnclosingOf(d)), castThis);
    }
  }

  /** The whole pass changes nothing but the form of `this` (and the trivia
      of the tokens it rebuilds): every node kind, name, operator, modifier,
      type text and argument list is kept. */
  lemma RewriteOnlyCastsThis(u: CompilationUnit, castThis: CastThis)
    requires CastsThis(castThis)
    ensures EraseUnit(Rewrite(u, castThis)) == EraseUnit(u)
  {
    forall i | 0 <= i < |u.items|
      ensures EraseItem(RwItem(u.items[i], castThis)) == EraseItem(u.items[i])
    {
      match u.items[i]
      case TypeItem(d) => TypeErasure(d, castThis);
      case GlobalStatement(s) => StmtErasure(s, None, castThis);
    }
  }

  // ---- no `return this;` is left inside a type ----

  /** Some statement of a member's body (or of a nested type's members)
      is or holds `return this;`. */
  predicate MemberHasReturnThis(m: Member)
    decreases m, 1
  {
    match m
    case Field(_, _, _) => false
    case Method(_, _, _, _, body) => exists i :: 0 <= i < |body| && HasReturnThis(body[i])
    case Constructor(_, _, _, body) => exists i :: 0 <= i < |body| && HasReturnThis(body[i])
    case Property(_, _, _, getter) => exists i :: 0 <= i < |getter| && HasReturnThis(getter[i])
    case NestedType(d) => TypeHasReturnThis(d)
  }

  predicate TypeHasReturnThis(d: TypeDecl)
    decreases d, 0
  {
    exists i :: 0 <= i < |d.members| && MemberHasReturnThis(d.members[i])
  }

  lemma {:induction false} MemberLosesReturnThis(m: Member, enc: Enclosing, castThis: CastThis)
    ensures !MemberHasReturnThis(RwMember(m, Some(enc), castThis))
    decreases m, 1
  {
    if m.NestedType? {
      TypeLosesReturnThis(m.decl, castThis);
    }
  }

  lemma {:induction false} TypeLosesReturnThis(d: TypeDecl, castThis: CastThis)
    ensures !TypeHasReturnThis(RwType(d, castThis))
    decreases d, 0
  {
    forall i | 0 <= i < |d.members|
      ensures !MemberHasReturnThis(RwMember(d.members[i], Some(EnclosingOf(d)), castThis))
    {
      MemberLosesReturnThis(d.members[i], EnclosingOf(d), castThis);
    }
  }

  /** After the pass, no `return this;` is left anywhere inside a type
      declaration of the unit, however deeply nested in blocks, branches or
      nested types; only a top-level statement can still hold one. */
  lemma RewriteLeavesNoReturnThisInTypes(u: CompilationUnit, castThis: CastThis)
    ensures forall i :: 0 <= i < |u.items| && u.items[i].TypeItem? ==>
      Rewrite(u, castThis).items[i].TypeItem? && !TypeHasReturnThis(Rewrite(u, castThis).items[i].decl)
  {
    forall i | 0 <= i < |u.items| && u.items[i].TypeItem?
      ensures !TypeHasReturnThis(RwType(u.items[i].decl, castThis))
    {
      TypeLosesReturnThis(u.items[i].decl, castThis);
    }
  }

  // ---- outside any type declaration ----

  /** No `this` of `e` is directly an argument of a call or creation. */
  predicate NoThisArgument(e: Expr)
  {
    match e
    case Invocation(callee, args) =>
      NoThisArgument(callee) && forall i :: 0 <= i < |args| ==> !args[i].This? && NoThisArgument(args[i])
    case ObjectCreation(_, args) =>
      forall i :: 0 <= i < |args| ==> !args[i].This? && NoThisArgument(args[i])
    case MemberAccess(target, _) => NoThisArgument(target)
    case Assignment(_, left, right) => NoThisArgument(left) && NoThisArgument(right)
    case Binary(_, left, right) => NoThisArgument(left) && NoThisArgument(right)
    case Postfix(_, operand) => NoThisArgument(operand)
    case Cast(_, operand) => NoThisArgument(operand)
    case Paren(inner) => NoThisArgument(inner)
    case Lambda(_, body) => NoThisArgument(body)
    case _ => true
  }

  predicate NoThisArgumentStmt(s: Stmt)
  {
    match s
    case ExprStmt(e) => NoThisArgument(e)
    case LocalDecl(_, vars) => forall i :: 0 <= i < |vars| && vars[i].init.Some? ==> NoThisArgument(vars[i].init.value)
    case Return(value) => value.Some? ==> NoThisArgument(value.value)
    case Block(body) => forall i :: 0 <= i < |body| ==> NoThisArgumentStmt(body[i])
    case If(cond, thn, els) => NoThisArgument(cond) && NoThisArgumentStmt(thn) && (els.Some? ==> NoThisArgumentStmt(els.value))
  }

  /** With no enclosing type declaration the assignment, invocation and
      return rules never fire: an expression without a `this` argument is
      returned unchanged. */
  lemma {:induction false} NoEnclosingExprUnchanged(e: Expr, parent: Parent, castThis: CastThis)
    requires NoThisArgument(e)
    requires parent == ArgumentParent ==> !e.This?
    ensures RwExpr(e, parent, None, castThis) == e
    decreases e
  {
    match e
    case Invocation(callee, args) =>
      NoEnclosingExprUnchanged(callee, OtherParent, castThis);
      forall i | 0 <= i < |args|
        ensures RwExpr(args[i], ArgumentParent, None, castThis) == args[i]
      {
        NoEnclosingExprUnchanged(args[i], ArgumentParent, castThis);
      }
    case ObjectCreation(_, args) =>
      forall i | 0 <= i < |args|
        ensures RwExpr(args[i], ArgumentParent, None, castThis) == args[i]
      {
        NoEnclosingExprUnchanged(args[i], ArgumentParent, castThis);
      }
    case MemberAccess(target, _) => NoEnclosingExprUnchanged(target, MemberAccessParent, castThis);
    case Assignment(_, left, right) =>
      NoEnclosingExprUnchanged(left, OtherParent, castThis);
      NoEnclosingExprUnchanged(right, OtherParent, castThis);
    case Binary(_, left, right) =>
      NoEnclosingExprUnchanged(left, OtherParent, castThis);
      NoEnclosingExprUnchanged(right, OtherParent, castThis);
    case Postfix(_, operand) => NoEnclosingExprUnchanged(operand, OtherParent, castThis);
    case Cast(_, operand) => NoEnclosingExprUnchanged(operand, OtherParent, castThis);
    case Paren(inner) => NoEnclosingExprUnchanged(inner, OtherParent, castThis);
    case Lambda(_, body) => NoEnclosingExprUnchanged(body, OtherParent, castThis);
    case This(_) =>
    case Ident(_, _) =>
    case Literal(_, _) =>
  }

  /** A top-level statement with no `this` argument comes through the pass
      unchanged, including `x = this;`, `this.M();` and `return this;`. */
  lemma {:induction false} NoEnclosingStmtUnchanged(s: Stmt, castThis: CastThis)
    requires NoThisArgumentStmt(s)
    ensures RwStmt(s, None, castThis) == s
    decreases s
  {
    match s
    case ExprStmt(e) => NoEnclosingExprUnchanged(e, OtherParent, castThis);
    case LocalDecl(_, vars) =>
      forall i | 0 <= i < |vars| && vars[i].init.Some?
        ensures RwExpr(vars[i].init.value, OtherParent, None, castThis) == vars[i].init.value
      {
        NoEnclosingExprUnchanged(vars[i].init.value, OtherParent, castThis);
      }
      assert RwDeclarators(vars, None, castThis) == vars;
    case Return(value) =>
      if value.Some? {
        NoEnclosingExprUnchanged(value.value, OtherParent, castThis);
      }
    case Block(body) =>
      forall i | 0 <= i < |body|
        ensures RwStmt(body[i], None, castThis) == body[i]
      {
        NoEnclosingStmtUnchanged(body[i], castThis);
      }
    case If(cond, thn, els) =>
      NoEnclosingExprUnchanged(cond, OtherParent, castThis);
      NoEnclosingStmtUnchanged(thn, castThis);
      if els.Some? {
        NoEnclosingStmtUnchanged(els.value, castThis);
      }
  }
}
