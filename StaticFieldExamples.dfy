/** Worked inputs for the static-field pass: the qualifying case, and the
    cases the code leaves alone (use before the declaration, shadowing, a
    nested type, a member-access target, a non-public field), plus the one
    shadowing case it does not catch (a constructor parameter). */
module StaticFieldExamples {
  import opened Syntax
  import opened StaticFieldRewriting

  function Id(n: string): Expr { Ident(n, NoTrivia) }

  const PublicStaticCount := Field([Public, Static], "int", [Declarator("Count", None)])

  const BumpCount := ExprStmt(Postfix("++", Id("Count")))

  function OneClass(name: string, members: seq<Member>): CompilationUnit
  {
    CompilationUnit([TypeItem(TypeDecl(Class, name, members))])
  }

  const FooKey: Key := [0]

  function InFoo(name: string): Scope { Scope(Some(TypeRef(FooKey, name)), {}, {}) }

  /** A unit holding one class is rewritten member by member, with the
      class as the nearest type and key `[0]`. */
  lemma OneClassPass(name: string, members: seq<Member>)
    ensures Rewrite(OneClass(name, members))
         == OneClass(name, PassMembersFrom(TypeDecl(Class, name, members), 0, FooKey, InFoo(name), EmptyTable).0)
  {
    var u := OneClass(name, members);
    assert PassItemsFrom(u, 1, PassItemAt(u, 0, EmptyTable).1).0 == [];
  }

  /** The two members of a two-member class, the second seeing the table
      the first left. */
  lemma TwoMembers(d: TypeDecl, key: Key, sc: Scope)
    requires |d.members| == 2
    ensures var (m0, st0) := PassMemberAt(d, 0, key, sc, EmptyTable);
      PassMembersFrom(d, 0, key, sc, EmptyTable).0 == [m0, PassMemberAt(d, 1, key, sc, st0).0]
  {
    var (m0, st0) := PassMemberAt(d, 0, key, sc, EmptyTable);
    var (m1, st1) := PassMemberAt(d, 1, key, sc, st0);
    assert PassMembersFrom(d, 2, key, sc, st1).0 == [];
    assert PassMembersFrom(d, 1, key, sc, st0).0 == [m1];
  }

  lemma CountNames()
    ensures DeclaratorNames([Declarator("Count", None)]) == {"Count"}
    ensures DeclaratorNames([Declarator("Count", Some(Id("Count")))]) == {"Count"}
    ensures ParamNames([]) == {} && ParamNames(["Count"]) == {"Count"}
  {
    assert [Declarator("Count", None)][0].name == "Count";
    assert [Declarator("Count", Some(Id("Count")))][0].name == "Count";
    assert ["Count"][0] == "Count";
  }

  /** The table after recording `public static int Count` in `Foo`. */
  const CountRecorded := FieldTable(map[FooKey := {"Count"}], {"Count"})

  /** Visiting `public static int Count` in a type with key `[0]`. */
  lemma CountFieldRecorded(sc: Scope)
    ensures PassField(PublicStaticCount, FooKey, sc, EmptyTable) == (PublicStaticCount, CountRecorded)
  {
    CountNames();
    assert IsQualifying(PublicStaticCount.mods);
    var st' := RecordNames(EmptyTable, FooKey, {"Count"});
    assert st'.byNode.Keys == {FooKey} && st'.byNode[FooKey] == {"Count"};
    assert st'.byNode == map[FooKey := {"Count"}];
    assert RwDeclarators(PublicStaticCount.vars, sc, CountRecorded) == PublicStaticCount.vars;
  }

  /** `class Foo { public static int Count; void Bump() { Count++; } }`
      becomes `... void Bump() { Foo.Count++; } }`. */
  lemma CountIsQualified()
    ensures Rewrite(OneClass("Foo", [PublicStaticCount, Method([], "void", "Bump", [], [BumpCount])]))
         == OneClass("Foo", [PublicStaticCount,
                             Method([], "void", "Bump", [], [ExprStmt(Postfix("++", Qualified("Foo", "Count", NoTrivia)))])])
  {
    var ms := [PublicStaticCount, Method([], "void", "Bump", [], [BumpCount])];
    var d := TypeDecl(Class, "Foo", ms);
    OneClassPass("Foo", ms);
    TwoMembers(d, FooKey, InFoo("Foo"));
    CountNames();
    assert d.members[0] == PublicStaticCount;
    CountFieldRecorded(InFoo("Foo"));
    assert RwBody([BumpCount], InFoo("Foo"), CountRecorded) == [ExprStmt(Postfix("++", Qualified("Foo", "Count", NoTrivia)))];
  }

  /** Only names recorded so far are rewritten: a use that precedes the
      field's declaration in the file stays bare. */
  lemma UseBeforeDeclarationStaysBare()
    ensures var u := OneClass("Foo", [Method([], "void", "Bump", [], [BumpCount]), PublicStaticCount]);
      Rewrite(u) == u
  {
    var ms := [Method([], "void", "Bump", [], [BumpCount]), PublicStaticCount];
    var d := TypeDecl(Class, "Foo", ms);
    OneClassPass("Foo", ms);
    TwoMembers(d, FooKey, InFoo("Foo"));
    CountNames();
    assert RwBody([BumpCount], InFoo("Foo"), EmptyTable) == [BumpCount];
    assert PassMemberAt(d, 0, FooKey, InFoo("Foo"), EmptyTable) == (ms[0], EmptyTable);
    assert d.members[1] == PublicStaticCount;
    CountFieldRecorded(InFoo("Foo"));
  }

  /** `internal static` (or `protected static`, or plain `static`) counts as
      private: nothing is recorded and nothing is rewritten. */
  lemma InternalStaticIsNotQualified()
    ensures var u := OneClass("Foo", [Field([Internal, Static], "int", [Declarator("Count", None)]),
                                      Method([], "void", "Bump", [], [BumpCount])]);
      Rewrite(u) == u
  {
    var f := Field([Internal, Static], "int", [Declarator("Count", None)]);
    var ms := [f, Method([], "void", "Bump", [], [BumpCount])];
    var d := TypeDecl(Class, "Foo", ms);
    OneClassPass("Foo", ms);
    TwoMembers(d, FooKey, InFoo("Foo"));
    CountNames();
    assert !IsQualifying(f.mods);
    assert RwDeclarators(f.vars, InFoo("Foo"), EmptyTable) == f.vars;
    assert PassMemberAt(d, 0, FooKey, InFoo("Foo"), EmptyTable) == (f, EmptyTable);
    assert RwBody([BumpCount], InFoo("Foo"), EmptyTable) == [BumpCount];
    assert PassMemberAt(d, 1, FooKey, InFoo("Foo"), EmptyTable).0 == ms[1];
  }

  /** A method parameter of the same name shadows the field. */
  lemma MethodParameterShadows()
    ensures var u := OneClass("Foo", [PublicStaticCount, Method([], "void", "Bump", ["Count"], [BumpCount])]);
      Rewrite(u) == u
  {
    var ms := [PublicStaticCount, Method([], "void", "Bump", ["Count"], [BumpCount])];
    var d := TypeDecl(Class, "Foo", ms);
    OneClassPass("Foo", ms);
    TwoMembers(d, FooKey, InFoo("Foo"));
    CountNames();
    assert d.members[0] == PublicStaticCount;
    CountFieldRecorded(InFoo("Foo"));
    assert RwBody([BumpCount], InFoo("Foo").(params := {"Count"}), CountRecorded) == [BumpCount];
  }

  /** A constructor parameter is not consulted, so a constructor parameter
      named like the field is qualified as if it were the field. */
  lemma ConstructorParameterIsNotConsulted()
    ensures Rewrite(OneClass("Foo", [PublicStaticCount, Constructor([], "Foo", ["Count"], [BumpCount])]))
         == OneClass("Foo", [PublicStaticCount,
                             Constructor([], "Foo", ["Count"], [ExprStmt(Postfix("++", Qualified("Foo", "Count", NoTrivia)))])])
  {
    var ms := [PublicStaticCount, Constructor([], "Foo", ["Count"], [BumpCount])];
    var d := TypeDecl(Class, "Foo", ms);
    OneClassPass("Foo", ms);
    TwoMembers(d, FooKey, InFoo("Foo"));
    CountNames();
    assert d.members[0] == PublicStaticCount;
    CountFieldRecorded(InFoo("Foo"));
    assert RwBody([BumpCount], InFoo("Foo"), CountRecorded) == [ExprStmt(Postfix("++", Qualified("Foo", "Count", NoTrivia)))];
  }

  /** A local declaration shadows the field only inside itself:
      `int Count = Count; Count++;` keeps the initializer bare and
      qualifies the later statement. */
  lemma LocalShadowsOnlyItsOwnDeclaration()
    ensures Rewrite(OneClass("Foo", [PublicStaticCount,
                                     Method([], "void", "Bump", [],
                                            [LocalDecl("int", [Declarator("Count", Some(Id("Count")))]), BumpCount])]))
         == OneClass("Foo", [PublicStaticCount,
                             Method([], "void", "Bump", [],
                                    [LocalDecl("int", [Declarator("Count", Some(Id("Count")))]),
                                     ExprStmt(Postfix("++", Qualified("Foo", "Count", NoTrivia)))])])
  {
    var local := LocalDecl("int", [Declarator("Count", Some(Id("Count")))]);
    var ms := [PublicStaticCount, Method([], "void", "Bump", [], [local, BumpCount])];
    var d := TypeDecl(Class, "Foo", ms);
    OneClassPass("Foo", ms);
    TwoMembers(d, FooKey, InFoo("Foo"));
    CountNames();
    assert d.members[0] == PublicStaticCount;
    CountFieldRecorded(InFoo("Foo"));
    assert RwStmt(local, InFoo("Foo"), CountRecorded) == local;
    assert RwBody([local, BumpCount], InFoo("Foo"), CountRecorded)
        == [local, ExprStmt(Postfix("++", Qualified("Foo", "Count", NoTrivia)))];
  }

  /** Under a member access the identifier is left alone: `Count.ToString()`. */
  lemma MemberAccessTargetStaysBare()
    ensures var u := OneClass("Foo", [PublicStaticCount,
                                      Method([], "void", "Show", [],
                                             [ExprStmt(Invocation(MemberAccess(Id("Count"), Name("ToString", NoTrivia)), []))])]);
      Rewrite(u) == u
  {
    var show := ExprStmt(Invocation(MemberAccess(Id("Count"), Name("ToString", NoTrivia)), []));
    var ms := [PublicStaticCount, Method([], "void", "Show", [], [show])];
    var d := TypeDecl(Class, "Foo", ms);
    OneClassPass("Foo", ms);
    TwoMembers(d, FooKey, InFoo("Foo"));
    CountNames();
    assert d.members[0] == PublicStaticCount;
    CountFieldRecorded(InFoo("Foo"));
    assert RwExpr(Id("Count"), MemberAccessParent, InFoo("Foo"), CountRecorded) == Id("Count");
    assert RwStmt(show, InFoo("Foo"), CountRecorded) == show;
    assert RwBody([show], InFoo("Foo"), CountRecorded) == [show];
  }

  /** A field of an outer type is in the flat set but not in the nested
      type's own set, so a use inside the nested type stays bare. */
  lemma NestedTypeDoesNotSeeOuterField()
    ensures var u := OneClass("Outer", [PublicStaticCount,
                                        NestedType(TypeDecl(Class, "Inner", [Method([], "void", "Bump", [], [BumpCount])]))]);
      Rewrite(u) == u
  {
    var inner := TypeDecl(Class, "Inner", [Method([], "void", "Bump", [], [BumpCount])]);
    var ms := [PublicStaticCount, NestedType(inner)];
    var d := TypeDecl(Class, "Outer", ms);
    OneClassPass("Outer", ms);
    TwoMembers(d, FooKey, InFoo("Outer"));
    CountNames();
    assert d.members[0] == PublicStaticCount;
    CountFieldRecorded(InFoo("Outer"));
    var innerScope := Scope(Some(TypeRef(FooKey + [1], "Inner")), {}, {});
    assert RwBody([BumpCount], innerScope, CountRecorded) == [BumpCount];
    assert PassMemberAt(inner, 0, FooKey + [1], innerScope, CountRecorded) == (inner.members[0], CountRecorded);
    assert PassMembersFrom(inner, 1, FooKey + [1], innerScope, CountRecorded).0 == [];
    assert PassMembersFrom(inner, 0, FooKey + [1], innerScope, CountRecorded).0 == inner.members;
    assert PassType(inner, FooKey + [1], InFoo("Outer"), CountRecorded).0 == inner;
  }

  /** A lambda's parameters are not consulted: the nearest method is still
      `Bump`, so in `Count => Count` the body is qualified,
      `Count => Foo.Count`. */
  lemma LambdaParameterIsNotConsulted()
    ensures Rewrite(OneClass("Foo", [PublicStaticCount, Method([], "void", "Bump", [], [ExprStmt(Lambda(["Count"], Id("Count")))])]))
         == OneClass("Foo", [PublicStaticCount,
                             Method([], "void", "Bump", [], [ExprStmt(Lambda(["Count"], Qualified("Foo", "Count", NoTrivia)))])])
  {
    var body := [ExprStmt(Lambda(["Count"], Id("Count")))];
    var ms := [PublicStaticCount, Method([], "void", "Bump", [], body)];
    var d := TypeDecl(Class, "Foo", ms);
    OneClassPass("Foo", ms);
    TwoMembers(d, FooKey, InFoo("Foo"));
    CountNames();
    assert d.members[0] == PublicStaticCount;
    CountFieldRecorded(InFoo("Foo"));
    assert RwBody(body, InFoo("Foo"), CountRecorded) == [ExprStmt(Lambda(["Count"], Qualified("Foo", "Count", NoTrivia)))];
  }
}
