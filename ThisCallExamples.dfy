/** Worked cases of the `this`-call pass on whole compilation units. */
module ThisCallExamples {
  import opened Syntax
  import opened ThisCallRewriting

  function ThisDot(m: string): Expr
  {
    MemberAccess(This(NoTrivia), Name(m, NoTrivia))
  }

  /** `((Foo)(object)this).m` */
  function CastDot(m: string): Expr
  {
    MemberAccess(Paren(CastThroughObject("Foo")), Name(m, NoTrivia))
  }

  function Run(body: seq<Stmt>): Member
  {
    Method([], "void", "Run", [], body)
  }

  function InFoo(members: seq<Member>): CompilationUnit
  {
    CompilationUnit([TypeItem(TypeDecl(Class, "Foo", members))])
  }

  /** The pass over a unit holding one type declaration is the pass over
      that declaration. */
  lemma OneTypeUnit(d: TypeDecl, castThis: CastThis)
    ensures Rewrite(CompilationUnit([TypeItem(d)]), castThis) == CompilationUnit([TypeItem(RwType(d, castThis))])
  {
    assert Rewrite(CompilationUnit([TypeItem(d)]), castThis).items[0] == TypeItem(RwType(d, castThis));
  }

  lemma OneMember(d: TypeDecl, castThis: CastThis)
    requires |d.members| == 1
    ensures RwType(d, castThis) == TypeDecl(d.kind, d.name, [RwMember(d.members[0], Some(EnclosingOf(d)), castThis)])
  {
  }

  /** `(Foo)(object)this` and `((Foo)(object)this).m` are left alone by the
      pass in any position but an argument. */
  lemma CastFormsAreFixed(m: string, parent: Parent, enc: Option<Enclosing>, castThis: CastThis)
    requires parent != ArgumentParent
    ensures RwExpr(CastThroughObject("Foo"), parent, enc, castThis) == CastThroughObject("Foo")
    ensures RwExpr(CastDot(m), parent, enc, castThis) == CastDot(m)
  {
    assert RwExpr(Cast("object", This(NoTrivia)), OtherParent, enc, castThis) == Cast("object", This(NoTrivia));
    assert RwExpr(CastThroughObject("Foo"), OtherParent, enc, castThis) == CastThroughObject("Foo");
    assert RwExpr(Paren(CastThroughObject("Foo")), MemberAccessParent, enc, castThis) == Paren(CastThroughObject("Foo"));
  }

  lemma RunOnly(body: seq<Stmt>)
    ensures MethodNames([Run(body)]) == {"Run"}
  {
    assert [Run(body)][0].name == "Run";
  }

  /** `this.BaseMethod();` in `Foo`, which declares no `BaseMethod`, becomes
      `((Foo)(object)this).BaseMethod();`. */
  lemma InheritedCallIsCast(castThis: CastThis)
    ensures Rewrite(InFoo([Run([ExprStmt(Invocation(ThisDot("BaseMethod"), []))])]), castThis)
         == InFoo([Run([ExprStmt(Invocation(CastDot("BaseMethod"), []))])])
  {
    var body := [ExprStmt(Invocation(ThisDot("BaseMethod"), []))];
    var d := TypeDecl(Class, "Foo", [Run(body)]);
    OneTypeUnit(d, castThis);
    RunOnly(body);
    assert RwStmt(body[0], Some(EnclosingOf(d)), castThis) == ExprStmt(Invocation(CastDot("BaseMethod"), []));
    assert RwBody(body, Some(EnclosingOf(d)), castThis) == [ExprStmt(Invocation(CastDot("BaseMethod"), []))];
    OneMember(d, castThis);
    assert RwMember(d.members[0], Some(EnclosingOf(d)), castThis) == Run([ExprStmt(Invocation(CastDot("BaseMethod"), []))]);
  }

  /** `this.Run();` inside `Foo`, which declares `Run`, is left alone. */
  lemma DeclaredMethodCallIsKept(castThis: CastThis)
    ensures var u := InFoo([Run([ExprStmt(Invocation(ThisDot("Run"), []))])]);
      Rewrite(u, castThis) == u
  {
    var body := [ExprStmt(Invocation(ThisDot("Run"), []))];
    var d := TypeDecl(Class, "Foo", [Run(body)]);
    OneTypeUnit(d, castThis);
    RunOnly(body);
    ThisInvocationRule(NoTrivia, Name("Run", NoTrivia), [], OtherParent, EnclosingOf(d), castThis);
    assert RwStmt(body[0], Some(EnclosingOf(d)), castThis) == body[0];
    assert RwBody(body, Some(EnclosingOf(d)), castThis) == body;
    OneMember(d, castThis);
    assert RwMember(d.members[0], Some(EnclosingOf(d)), castThis) == Run(body);
  }

  /** A field named `M` does not stop `this.M()` from being rewritten. */
  lemma FieldOfSameNameDoesNotBlock(castThis: CastThis)
    ensures Rewrite(InFoo([Field([], "int", [Declarator("M", None)]), Run([ExprStmt(Invocation(ThisDot("M"), []))])]), castThis)
         == InFoo([Field([], "int", [Declarator("M", None)]), Run([ExprStmt(Invocation(CastDot("M"), []))])])
  {
    var f := Field([], "int", [Declarator("M", None)]);
    var body := [ExprStmt(Invocation(ThisDot("M"), []))];
    var d := TypeDecl(Class, "Foo", [f, Run(body)]);
    OneTypeUnit(d, castThis);
    assert [f, Run(body)][1].name == "Run";
    assert MethodNames(d.members) == {"Run"};
    var enc := Some(EnclosingOf(d));
    assert RwDeclarators(f.vars, enc, castThis) == f.vars;
    assert RwMember(f, enc, castThis) == f;
    assert RwStmt(body[0], enc, castThis) == ExprStmt(Invocation(CastDot("M"), []));
    assert RwBody(body, enc, castThis) == [ExprStmt(Invocation(CastDot("M"), []))];
    assert RwType(d, castThis).members == [f, Run([ExprStmt(Invocation(CastDot("M"), []))])];
  }

  /** `x = this;` is rewritten but `var x = this;` is not: the initializer
      of a local declaration is neither an argument nor an assignment. */
  lemma AssignedButNotInitialized(castThis: CastThis)
    ensures Rewrite(InFoo([Run([LocalDecl("var", [Declarator("x", Some(This(NoTrivia)))]),
                                ExprStmt(Assignment("=", Ident("x", NoTrivia), This(NoTrivia)))])]), castThis)
         == InFoo([Run([LocalDecl("var", [Declarator("x", Some(This(NoTrivia)))]),
                        ExprStmt(Assignment("=", Ident("x", NoTrivia), CastThroughObject("Foo")))])])
  {
    var decl := LocalDecl("var", [Declarator("x", Some(This(NoTrivia)))]);
    var body := [decl, ExprStmt(Assignment("=", Ident("x", NoTrivia), This(NoTrivia)))];
    var d := TypeDecl(Class, "Foo", [Run(body)]);
    OneTypeUnit(d, castThis);
    RunOnly(body);
    var enc := Some(EnclosingOf(d));
    assert RwDeclarators(decl.vars, enc, castThis) == decl.vars;
    assert RwStmt(decl, enc, castThis) == decl;
    assert RwBody(body, enc, castThis) == [decl, ExprStmt(Assignment("=", Ident("x", NoTrivia), CastThroughObject("Foo")))];
    OneMember(d, castThis);
    assert RwMember(d.members[0], Some(EnclosingOf(d)), castThis) == Run([decl, ExprStmt(Assignment("=", Ident("x", NoTrivia), CastThroughObject("Foo")))]);
  }

  /** In `this.M(this);` only the receiver is rewritten: once the invocation
      rule fires, the argument `this` is not visited. */
  lemma InnerThisArgumentIsNotVisited(castThis: CastThis)
    ensures Rewrite(InFoo([Run([ExprStmt(Invocation(ThisDot("M"), [This(NoTrivia)]))])]), castThis)
         == InFoo([Run([ExprStmt(Invocation(CastDot("M"), [This(NoTrivia)]))])])
  {
    var body := [ExprStmt(Invocation(ThisDot("M"), [This(NoTrivia)]))];
    var d := TypeDecl(Class, "Foo", [Run(body)]);
    OneTypeUnit(d, castThis);
    RunOnly(body);
    assert RwStmt(body[0], Some(EnclosingOf(d)), castThis) == ExprStmt(Invocation(CastDot("M"), [This(NoTrivia)]));
    assert RwBody(body, Some(EnclosingOf(d)), castThis) == [ExprStmt(Invocation(CastDot("M"), [This(NoTrivia)]))];
    OneMember(d, castThis);
    assert RwMember(d.members[0], Some(EnclosingOf(d)), castThis) == Run([ExprStmt(Invocation(CastDot("M"), [This(NoTrivia)]))]);
  }

  /** Hence the pass is not idempotent: a second run turns the `this`
      argument left by the first into the casted-`this` expression. */
  lemma NotIdempotent(castThis: CastThis)
    requires CastsThis(castThis)
    ensures var u := InFoo([Run([ExprStmt(Invocation(ThisDot("M"), [This(NoTrivia)]))])]);
      Rewrite(Rewrite(u, castThis), castThis) != Rewrite(u, castThis)
  {
    InnerThisArgumentIsNotVisited(castThis);
    var once := [ExprStmt(Invocation(CastDot("M"), [This(NoTrivia)]))];
    var d := TypeDecl(Class, "Foo", [Run(once)]);
    OneTypeUnit(d, castThis);
    RunOnly(once);
    var enc := Some(EnclosingOf(d));
    var arg := castThis(Some("Foo"), NoTrivia);
    assert IsCastedThis(arg);
    CastFormsAreFixed("M", OtherParent, enc, castThis);
    assert EnclosingName(enc) == Some("Foo");
    assert RwExpr(This(NoTrivia), ArgumentParent, enc, castThis) == arg;
    var call := Invocation(CastDot("M"), [This(NoTrivia)]);
    assert RwExpr(call, OtherParent, enc, castThis) == Invocation(CastDot("M"), [arg]);
    assert RwStmt(once[0], enc, castThis) == ExprStmt(Invocation(CastDot("M"), [arg]));
    assert RwType(d, castThis).members[0].body[0].expr.args[0] == arg;
  }

  /** The rebuilt receiver is parsed from text, so the trivia of the
      replaced `this`, here the indentation before `this.BaseMethod()`, is
      not carried over to the new node. */
  lemma ReceiverTriviaIsDropped(castThis: CastThis)
    ensures var r := RwExpr(Invocation(MemberAccess(This(Trivia("    ", "")), Name("BaseMethod", NoTrivia)), []),
                            OtherParent, Some(Enclosing("Foo", {})), castThis);
      r == Invocation(CastDot("BaseMethod"), []) && LeadingTrivia(r) == ""
  {
  }
}
