/** What the static-field pass guarantees, proved about the functions that
    specify it: the table stays consistent and only grows, it ends up holding
    exactly the names of the qualifying fields, each type's entry holds the
    names of its own qualifying fields, and running the pass again on its
    output changes nothing. */
module StaticFieldProperties {
  import opened Syntax
  import opened StaticFieldRewriting

  // ---------------------------------------------------------------------
  // Consistency and growth of the table.

  lemma {:induction false} PassTypeKeepsValid(d: TypeDecl, key: Key, sc: Scope, st: FieldTable)
    requires Valid(st)
    ensures Valid(PassType(d, key, sc, st).1) && Grows(st, PassType(d, key, sc, st).1)
    decreases d, |d.members| + 1
  {
    PassMembersKeepValid(d, 0, key, sc.(enclosing := Some(TypeRef(key, d.name))), st);
  }

  lemma {:induction false} PassMembersKeepValid(d: TypeDecl, i: nat, key: Key, sc: Scope, st: FieldTable)
    requires i <= |d.members| && Valid(st)
    ensures Valid(PassMembersFrom(d, i, key, sc, st).1) && Grows(st, PassMembersFrom(d, i, key, sc, st).1)
    decreases d, |d.members| - i
  {
    if i < |d.members| {
      var (_, st1) := PassMemberAt(d, i, key, sc, st);
      PassMemberKeepsValid(d, i, key, sc, st);
      PassMembersKeepValid(d, i + 1, key, sc, st1);
    }
  }

  lemma {:induction false} PassMemberKeepsValid(d: TypeDecl, i: nat, key: Key, sc: Scope, st: FieldTable)
    requires i < |d.members| && Valid(st)
    ensures Valid(PassMemberAt(d, i, key, sc, st).1) && Grows(st, PassMemberAt(d, i, key, sc, st).1)
    decreases d, 0
  {
    match d.members[i]
    case NestedType(nd) => PassTypeKeepsValid(nd, key + [i], sc, st);
    case _ =>
  }

  lemma {:induction false} PassItemsKeepValid(u: CompilationUnit, i: nat, st: FieldTable)
    requires i <= |u.items| && Valid(st)
    ensures Valid(PassItemsFrom(u, i, st).1) && Grows(st, PassItemsFrom(u, i, st).1)
    decreases |u.items| - i
  {
    if i < |u.items| {
      var (_, st1) := PassItemAt(u, i, st);
      match u.items[i] {
        case TypeItem(d) => PassTypeKeepsValid(d, [i], TopScope, st);
        case GlobalStatement(_) =>
      }
      PassItemsKeepValid(u, i + 1, st1);
    }
  }

  /** A pass over a unit keeps the flat set equal to the union of the
      per-type sets, and forgets nothing it had recorded. */
  lemma PassUnitKeepsValid(u: CompilationUnit, st: FieldTable)
    requires Valid(st)
    ensures Valid(PassUnit(u, st).1) && Grows(st, PassUnit(u, st).1)
  {
    PassItemsKeepValid(u, 0, st);
  }

  // ---------------------------------------------------------------------
  // The flat set: exactly the names of the qualifying fields.

  /** Names declared by qualifying field declarations anywhere in `d`,
      nested types included. */
  function QualifyingNames(d: TypeDecl): set<string>
    decreases d, |d.members| + 1
  {
    QualifyingNamesFrom(d, 0)
  }

  function QualifyingNamesFrom(d: TypeDecl, i: nat): set<string>
    requires i <= |d.members|
    decreases d, |d.members| - i
  {
    if i == |d.members| then {} else QualifyingNamesAt(d, i) + QualifyingNamesFrom(d, i + 1)
  }

  function QualifyingNamesAt(d: TypeDecl, i: nat): set<string>
    requires i < |d.members|
    decreases d, 0
  {
    match d.members[i]
    case Field(mods, _, vars) => if IsQualifying(mods) then DeclaratorNames(vars) else {}
    case NestedType(nd) => QualifyingNames(nd)
    case _ => {}
  }

  function UnitQualifyingNamesFrom(u: CompilationUnit, i: nat): set<string>
    requires i <= |u.items|
    decreases |u.items| - i
  {
    if i == |u.items| then {}
    else (match u.items[i] case TypeItem(d) => QualifyingNames(d) case GlobalStatement(_) => {}) + UnitQualifyingNamesFrom(u, i + 1)
  }

  lemma {:induction false} PassTypeFlat(d: TypeDecl, key: Key, sc: Scope, st: FieldTable)
    ensures PassType(d, key, sc, st).1.flat == st.flat + QualifyingNames(d)
    decreases d, |d.members| + 1
  {
    PassMembersFlat(d, 0, key, sc.(enclosing := Some(TypeRef(key, d.name))), st);
  }

  lemma {:induction false} PassMembersFlat(d: TypeDecl, i: nat, key: Key, sc: Scope, st: FieldTable)
    requires i <= |d.members|
    ensures PassMembersFrom(d, i, key, sc, st).1.flat == st.flat + QualifyingNamesFrom(d, i)
    decreases d, |d.members| - i
  {
    if i < |d.members| {
      var (_, st1) := PassMemberAt(d, i, key, sc, st);
      match d.members[i] {
        case NestedType(nd) => PassTypeFlat(nd, key + [i], sc, st);
        case _ =>
      }
      PassMembersFlat(d, i + 1, key, sc, st1);
    }
  }

  lemma {:induction false} PassItemsFlat(u: CompilationUnit, i: nat, st: FieldTable)
    requires i <= |u.items|
    ensures PassItemsFrom(u, i, st).1.flat == st.flat + UnitQualifyingNamesFrom(u, i)
    decreases |u.items| - i
  {
    if i < |u.items| {
      var (_, st1) := PassItemAt(u, i, st);
      match u.items[i] {
        case TypeItem(d) => PassTypeFlat(d, [i], TopScope, st);
        case GlobalStatement(_) =>
      }
      PassItemsFlat(u, i + 1, st1);
    }
  }

  /** After a run from a fresh rewriter, the flat set holds exactly the
      names declared by qualifying fields of the unit. */
  lemma RecordedFlatIsQualifyingNames(u: CompilationUnit)
    ensures PassUnit(u, EmptyTable).1.flat == UnitQualifyingNamesFrom(u, 0)
  {
    PassItemsFlat(u, 0, EmptyTable);
  }

  // ---------------------------------------------------------------------
  // The entry of one type declaration: its own qualifying fields.

  /** `k` is `key` or lies below it. */
  ghost predicate Extends(k: Key, key: Key)
  {
    |key| <= |k| && k[..|key|] == key
  }

  /** The entries outside the subtree at `key` are those of `a`. */
  ghost predicate SameOutside(a: FieldTable, b: FieldTable, key: Key)
  {
    forall k :: !Extends(k, key) ==> (k in a.byNode <==> k in b.byNode) && (k in a.byNode ==> a.byNode[k] == b.byNode[k])
  }

  lemma {:induction false} PassTypeFrame(d: TypeDecl, key: Key, sc: Scope, st: FieldTable)
    ensures SameOutside(st, PassType(d, key, sc, st).1, key)
    decreases d, |d.members| + 1
  {
    PassMembersFrame(d, 0, key, sc.(enclosing := Some(TypeRef(key, d.name))), st);
  }

  lemma {:induction false} PassMembersFrame(d: TypeDecl, i: nat, key: Key, sc: Scope, st: FieldTable)
    requires i <= |d.members|
    ensures SameOutside(st, PassMembersFrom(d, i, key, sc, st).1, key)
    decreases d, |d.members| - i
  {
    if i < |d.members| {
      var (_, st1) := PassMemberAt(d, i, key, sc, st);
      match d.members[i] {
        case NestedType(nd) =>
          PassTypeFrame(nd, key + [i], sc, st);
          forall k | Extends(k, key + [i]) ensures Extends(k, key) {
            assert k[..|key|] == (k[..|key| + 1])[..|key|];
          }
        case _ =>
      }
      PassMembersFrame(d, i + 1, key, sc, st1);
    }
  }

  /** Names of the qualifying fields that are direct members of `d`, from
      member `i` on. */
  function OwnNamesFrom(d: TypeDecl, i: nat): set<string>
    requires i <= |d.members|
    decreases |d.members| - i
  {
    if i == |d.members| then {}
    else (match d.members[i] case Field(mods, _, vars) => if IsQualifying(mods) then DeclaratorNames(vars) else {} case _ => {})
         + OwnNamesFrom(d, i + 1)
  }

  predicate HasQualifyingFieldFrom(d: TypeDecl, i: nat)
    requires i <= |d.members|
  {
    exists j :: i <= j < |d.members| && d.members[j].Field? && IsQualifying(d.members[j].mods)
  }

  function Entry(st: FieldTable, key: Key): set<string>
  {
    if key in st.byNode then st.byNode[key] else {}
  }

  lemma {:induction false} PassMembersOwnEntry(d: TypeDecl, i: nat, key: Key, sc: Scope, st: FieldTable)
    requires i <= |d.members|
    ensures var r := PassMembersFrom(d, i, key, sc, st).1;
      && (key in r.byNode <==> key in st.byNode || HasQualifyingFieldFrom(d, i))
      && Entry(r, key) == Entry(st, key) + OwnNamesFrom(d, i)
    decreases |d.members| - i
  {
    if i < |d.members| {
      var (_, st1) := PassMemberAt(d, i, key, sc, st);
      match d.members[i] {
        case NestedType(nd) =>
          PassTypeFrame(nd, key + [i], sc, st);
          assert !Extends(key, key + [i]);
        case _ =>
      }
      PassMembersOwnEntry(d, i + 1, key, sc, st1);
      if HasQualifyingFieldFrom(d, i) && !(d.members[i].Field? && IsQualifying(d.members[i].mods)) {
        var j :| i <= j < |d.members| && d.members[j].Field? && IsQualifying(d.members[j].mods);
        assert HasQualifyingFieldFrom(d, i + 1);
      }
    }
  }

  /** After the walk of a type declaration, its entry exists exactly when
      it (existed before or) has a qualifying field of its own, and it has
      gained exactly the names of its own qualifying fields: those of nested
      types go to the nested types' entries. */
  lemma PassTypeOwnEntry(d: TypeDecl, key: Key, sc: Scope, st: FieldTable)
    ensures var r := PassType(d, key, sc, st).1;
      && (key in r.byNode <==> key in st.byNode || HasQualifyingFieldFrom(d, 0))
      && Entry(r, key) == Entry(st, key) + OwnNamesFrom(d, 0)
  {
    PassMembersOwnEntry(d, 0, key, sc.(enclosing := Some(TypeRef(key, d.name))), st);
  }

  // ---------------------------------------------------------------------
  // Shadowing: the exclusions at work.

  /** Every bare identifier of `e` (not a name after a dot) is in `names`. */
  predicate MentionsOnly(e: Expr, names: set<string>)
    decreases e
  {
    match e
    case Ident(n, _) => n in names
    case This(_) => true
    case Literal(_, _) => true
    case MemberAccess(target, _) => MentionsOnly(target, names)
    case Invocation(callee, args) => MentionsOnly(callee, names) && forall i :: 0 <= i < |args| ==> MentionsOnly(args[i], names)
    case ObjectCreation(_, args) => forall i :: 0 <= i < |args| ==> MentionsOnly(args[i], names)
    case Assignment(_, l, r) => MentionsOnly(l, names) && MentionsOnly(r, names)
    case Binary(_, l, r) => MentionsOnly(l, names) && MentionsOnly(r, names)
    case Postfix(_, o) => MentionsOnly(o, names)
    case Cast(_, o) => MentionsOnly(o, names)
    case Paren(o) => MentionsOnly(o, names)
    case Lambda(_, b) => MentionsOnly(b, names)
  }

  /** An expression whose identifiers are all parameters of the nearest
      method or names of the nearest local declaration is left as it is,
      whatever the table records. */
  lemma {:induction false} ShadowedExprUnchanged(e: Expr, p: Parent, sc: Scope, st: FieldTable)
    requires MentionsOnly(e, sc.params + sc.locals)
    ensures RwExpr(e, p, sc, st) == e
    decreases e
  {
    match e {
      case Invocation(callee, args) =>
        ShadowedExprUnchanged(callee, OtherParent, sc, st);
        forall j | 0 <= j < |args| { ShadowedExprUnchanged(args[j], ArgumentParent, sc, st); }
      case ObjectCreation(_, args) =>
        forall j | 0 <= j < |args| { ShadowedExprUnchanged(args[j], ArgumentParent, sc, st); }
      case MemberAccess(target, _) => ShadowedExprUnchanged(target, MemberAccessParent, sc, st);
      case Assignment(_, l, r) => ShadowedExprUnchanged(l, OtherParent, sc, st); ShadowedExprUnchanged(r, OtherParent, sc, st);
      case Binary(_, l, r) => ShadowedExprUnchanged(l, OtherParent, sc, st); ShadowedExprUnchanged(r, OtherParent, sc, st);
      case Postfix(_, o) => ShadowedExprUnchanged(o, OtherParent, sc, st);
      case Cast(_, o) => ShadowedExprUnchanged(o, OtherParent, sc, st);
      case Paren(o) => ShadowedExprUnchanged(o, OtherParent, sc, st);
      case Lambda(_, b) => ShadowedExprUnchanged(b, OtherParent, sc, st);
      case _ =>
    }
  }

  lemma MentionsOnlyMore(e: Expr, names: set<string>, more: set<string>)
    requires MentionsOnly(e, names) && names <= more
    ensures MentionsOnly(e, more)
  {
  }

  /** Every bare identifier of statement `s` is in `names`. */
  predicate StmtMentionsOnly(s: Stmt, names: set<string>)
    decreases s
  {
    match s
    case ExprStmt(e) => MentionsOnly(e, names)
    case LocalDecl(_, vars) => forall j :: 0 <= j < |vars| && vars[j].init.Some? ==> MentionsOnly(vars[j].init.value, names)
    case Return(v) => v.Some? ==> MentionsOnly(v.value, names)
    case Block(body) => forall j :: 0 <= j < |body| ==> StmtMentionsOnly(body[j], names)
    case If(c, thn, els) => MentionsOnly(c, names) && StmtMentionsOnly(thn, names) && (els.Some? ==> StmtMentionsOnly(els.value, names))
  }

  /** A statement whose identifiers are all parameters of the nearest method
      is left as it is: a local declaration inside it changes the nearest
      local declaration but not the nearest method. */
  lemma {:induction false} ParamShadowedStmtUnchanged(s: Stmt, sc: Scope, st: FieldTable)
    requires StmtMentionsOnly(s, sc.params)
    ensures RwStmt(s, sc, st) == s
    decreases s
  {
    match s {
      case ExprStmt(e) =>
        MentionsOnlyMore(e, sc.params, sc.params + sc.locals);
        ShadowedExprUnchanged(e, OtherParent, sc, st);
      case LocalDecl(_, vars) =>
        var inner := sc.(locals := DeclaratorNames(vars));
        forall j | 0 <= j < |vars| ensures RwDeclarators(vars, inner, st)[j] == vars[j] {
          if vars[j].init.Some? {
            MentionsOnlyMore(vars[j].init.value, sc.params, inner.params + inner.locals);
            ShadowedExprUnchanged(vars[j].init.value, OtherParent, inner, st);
          }
        }
      case Return(v) =>
        if v.Some? {
          MentionsOnlyMore(v.value, sc.params, sc.params + sc.locals);
          ShadowedExprUnchanged(v.value, OtherParent, sc, st);
        }
      case Block(body) => forall j | 0 <= j < |body| { ParamShadowedStmtUnchanged(body[j], sc, st); }
      case If(c, thn, els) =>
        MentionsOnlyMore(c, sc.params, sc.params + sc.locals);
        ShadowedExprUnchanged(c, OtherParent, sc, st);
        ParamShadowedStmtUnchanged(thn, sc, st);
        if els.Some? { ParamShadowedStmtUnchanged(els.value, sc, st); }
    }
  }

  /** A method whose body mentions only its own parameters comes out of the
      walk unchanged, whatever fields are recorded: the method is the nearest
      method declaration of everything in its body. */
  lemma MethodParametersShadow(d: TypeDecl, i: nat, key: Key, sc: Scope, st: FieldTable)
    requires i < |d.members| && d.members[i].Method?
    requires forall j :: 0 <= j < |d.members[i].body| ==> StmtMentionsOnly(d.members[i].body[j], ParamNames(d.members[i].params))
    ensures PassMemberAt(d, i, key, sc, st) == (d.members[i], st)
  {
    var m := d.members[i];
    var inner := sc.(params := ParamNames(m.params));
    forall j | 0 <= j < |m.body| ensures RwStmt(m.body[j], inner, st) == m.body[j] {
      ParamShadowedStmtUnchanged(m.body[j], inner, st);
    }
    assert RwBody(m.body, inner, st) == m.body;
    assert RwMember(m, sc, st) == m;
  }

  /** A local declaration whose initializers mention only the names it
      declares, or parameters of the nearest method, comes out unchanged:
      the declaration is the nearest local-declaration statement of its own
      initializers. */
  lemma LocalDeclShadows(ty: string, vars: seq<Declarator>, sc: Scope, st: FieldTable)
    requires forall j :: 0 <= j < |vars| && vars[j].init.Some? ==> MentionsOnly(vars[j].init.value, sc.params + DeclaratorNames(vars))
    ensures RwStmt(LocalDecl(ty, vars), sc, st) == LocalDecl(ty, vars)
  {
    var inner := sc.(locals := DeclaratorNames(vars));
    forall j | 0 <= j < |vars| ensures RwDeclarators(vars, inner, st)[j] == vars[j] {
      if vars[j].init.Some? { ShadowedExprUnchanged(vars[j].init.value, OtherParent, inner, st); }
    }
  }

  // ---------------------------------------------------------------------
  // No qualifying field, no change.

  lemma {:induction false} EmptyFlatExprUnchanged(e: Expr, p: Parent, sc: Scope, st: FieldTable)
    requires st.flat == {}
    ensures RwExpr(e, p, sc, st) == e
    decreases e
  {
    match e {
      case Invocation(callee, args) =>
        EmptyFlatExprUnchanged(callee, OtherParent, sc, st);
        forall j | 0 <= j < |args| { EmptyFlatExprUnchanged(args[j], ArgumentParent, sc, st); }
      case ObjectCreation(_, args) =>
        forall j | 0 <= j < |args| { EmptyFlatExprUnchanged(args[j], ArgumentParent, sc, st); }
      case MemberAccess(target, _) => EmptyFlatExprUnchanged(target, MemberAccessParent, sc, st);
      case Assignment(_, l, r) => EmptyFlatExprUnchanged(l, OtherParent, sc, st); EmptyFlatExprUnchanged(r, OtherParent, sc, st);
      case Binary(_, l, r) => EmptyFlatExprUnchanged(l, OtherParent, sc, st); EmptyFlatExprUnchanged(r, OtherParent, sc, st);
      case Postfix(_, o) => EmptyFlatExprUnchanged(o, OtherParent, sc, st);
      case Cast(_, o) => EmptyFlatExprUnchanged(o, OtherParent, sc, st);
      case Paren(o) => EmptyFlatExprUnchanged(o, OtherParent, sc, st);
      case Lambda(_, b) => EmptyFlatExprUnchanged(b, OtherParent, sc, st);
      case _ =>
    }
  }

  lemma EmptyFlatDeclaratorsUnchanged(vars: seq<Declarator>, sc: Scope, st: FieldTable)
    requires st.flat == {}
    ensures RwDeclarators(vars, sc, st) == vars
  {
    forall j | 0 <= j < |vars| ensures RwDeclarators(vars, sc, st)[j] == vars[j] {
      if vars[j].init.Some? { EmptyFlatExprUnchanged(vars[j].init.value, OtherParent, sc, st); }
    }
  }

  lemma {:induction false} EmptyFlatStmtUnchanged(s: Stmt, sc: Scope, st: FieldTable)
    requires st.flat == {}
    ensures RwStmt(s, sc, st) == s
    decreases s
  {
    match s {
      case ExprStmt(e) => EmptyFlatExprUnchanged(e, OtherParent, sc, st);
      case LocalDecl(_, vars) => EmptyFlatDeclaratorsUnchanged(vars, sc.(locals := DeclaratorNames(vars)), st);
      case Return(v) => if v.Some? { EmptyFlatExprUnchanged(v.value, OtherParent, sc, st); }
      case Block(body) => forall j | 0 <= j < |body| { EmptyFlatStmtUnchanged(body[j], sc, st); }
      case If(c, thn, els) =>
        EmptyFlatExprUnchanged(c, OtherParent, sc, st);
        EmptyFlatStmtUnchanged(thn, sc, st);
        if els.Some? { EmptyFlatStmtUnchanged(els.value, sc, st); }
    }
  }

  lemma EmptyFlatBodyUnchanged(body: seq<Stmt>, sc: Scope, st: FieldTable)
    requires st.flat == {}
    ensures RwBody(body, sc, st) == body
  {
    forall j | 0 <= j < |body| { EmptyFlatStmtUnchanged(body[j], sc, st); }
  }

  lemma {:induction false} NoQualifyingType(d: TypeDecl, key: Key, sc: Scope, st: FieldTable)
    requires st.flat == {} && QualifyingNames(d) == {}
    ensures PassType(d, key, sc, st).0 == d && PassType(d, key, sc, st).1.flat == {}
    decreases d, |d.members| + 1
  {
    NoQualifyingMembers(d, 0, key, sc.(enclosing := Some(TypeRef(key, d.name))), st);
  }

  lemma {:induction false} NoQualifyingMembers(d: TypeDecl, i: nat, key: Key, sc: Scope, st: FieldTable)
    requires i <= |d.members| && st.flat == {} && QualifyingNamesFrom(d, i) == {}
    ensures PassMembersFrom(d, i, key, sc, st).0 == d.members[i..]
    ensures PassMembersFrom(d, i, key, sc, st).1.flat == {}
    decreases d, |d.members| - i
  {
    if i < |d.members| {
      var m := d.members[i];
      var (m', st1) := PassMemberAt(d, i, key, sc, st);
      match m {
        case Field(mods, _, vars) =>
          assert st1.flat == QualifyingNamesAt(d, i);
          EmptyFlatDeclaratorsUnchanged(vars, sc, st1);
        case NestedType(nd) => NoQualifyingType(nd, key + [i], sc, st);
        case Method(_, _, _, ps, body) => EmptyFlatBodyUnchanged(body, sc.(params := ParamNames(ps)), st);
        case Constructor(_, _, _, body) => EmptyFlatBodyUnchanged(body, sc, st);
        case Property(_, _, _, getter) => EmptyFlatBodyUnchanged(getter, sc, st);
      }
      assert m' == m && st1.flat == {};
      NoQualifyingMembers(d, i + 1, key, sc, st1);
      assert d.members[i..] == [m] + d.members[i + 1..];
    }
  }

  lemma {:induction false} NoQualifyingItems(u: CompilationUnit, i: nat, st: FieldTable)
    requires i <= |u.items| && st.flat == {} && UnitQualifyingNamesFrom(u, i) == {}
    ensures PassItemsFrom(u, i, st).0 == u.items[i..]
    ensures PassItemsFrom(u, i, st).1.flat == {}
    decreases |u.items| - i
  {
    if i < |u.items| {
      var (item, st1) := PassItemAt(u, i, st);
      match u.items[i] {
        case TypeItem(d) => NoQualifyingType(d, [i], TopScope, st);
        case GlobalStatement(s) => EmptyFlatStmtUnchanged(s, TopScope, st);
      }
      NoQualifyingItems(u, i + 1, st1);
      assert u.items[i..] == [u.items[i]] + u.items[i + 1..];
    }
  }

  /** A unit with no qualifying field (for one, a unit whose static fields
      are all private or lack an access modifier) comes out unchanged. */
  lemma NoQualifyingFieldNoChange(u: CompilationUnit)
    requires UnitQualifyingNamesFrom(u, 0) == {}
    ensures Rewrite(u) == u
  {
    NoQualifyingItems(u, 0, EmptyTable);
    assert u.items[0..] == u.items;
  }

  // ---------------------------------------------------------------------
  // Running the pass on its own output changes nothing: a qualified
  // `T.F` sits under a member access, and every decision of the second run
  // (names recorded, scopes, parents) is the one the first run made.

  lemma {:induction false} ExprTwice(e: Expr, p: Parent, sc: Scope, st: FieldTable)
    ensures RwExpr(RwExpr(e, p, sc, st), p, sc, st) == RwExpr(e, p, sc, st)
    decreases e
  {
    match e {
      case Ident(name, t) =>
        var r := RwExpr(e, p, sc, st);
        if r != e {
          assert RwExpr(r.target, MemberAccessParent, sc, st) == r.target;
        }
      case Invocation(callee, args) =>
        ExprTwice(callee, OtherParent, sc, st);
        forall j | 0 <= j < |args| { ExprTwice(args[j], ArgumentParent, sc, st); }
      case ObjectCreation(_, args) =>
        forall j | 0 <= j < |args| { ExprTwice(args[j], ArgumentParent, sc, st); }
      case MemberAccess(target, _) => ExprTwice(target, MemberAccessParent, sc, st);
      case Assignment(_, l, r) => ExprTwice(l, OtherParent, sc, st); ExprTwice(r, OtherParent, sc, st);
      case Binary(_, l, r) => ExprTwice(l, OtherParent, sc, st); ExprTwice(r, OtherParent, sc, st);
      case Postfix(_, o) => ExprTwice(o, OtherParent, sc, st);
      case Cast(_, o) => ExprTwice(o, OtherParent, sc, st);
      case Paren(o) => ExprTwice(o, OtherParent, sc, st);
      case Lambda(_, b) => ExprTwice(b, OtherParent, sc, st);
      case _ =>
    }
  }

  lemma DeclaratorsTwice(vars: seq<Declarator>, sc: Scope, st: FieldTable)
    ensures RwDeclarators(RwDeclarators(vars, sc, st), sc, st) == RwDeclarators(vars, sc, st)
    ensures DeclaratorNames(RwDeclarators(vars, sc, st)) == DeclaratorNames(vars)
  {
    var r := RwDeclarators(vars, sc, st);
    forall j | 0 <= j < |vars| ensures RwDeclarators(r, sc, st)[j] == r[j] {
      if vars[j].init.Some? { ExprTwice(vars[j].init.value, OtherParent, sc, st); }
    }
    assert forall n :: n in DeclaratorNames(r) <==> n in DeclaratorNames(vars) by {
      forall n ensures n in DeclaratorNames(r) <==> n in DeclaratorNames(vars) {
        if n in DeclaratorNames(vars) {
          var j :| 0 <= j < |vars| && vars[j].name == n;
          assert r[j].name == n;
        }
      }
    }
  }

  lemma {:induction false} StmtTwice(s: Stmt, sc: Scope, st: FieldTable)
    ensures RwStmt(RwStmt(s, sc, st), sc, st) == RwStmt(s, sc, st)
    decreases s
  {
    match s {
      case ExprStmt(e) => ExprTwice(e, OtherParent, sc, st);
      case LocalDecl(_, vars) => DeclaratorsTwice(vars, sc.(locals := DeclaratorNames(vars)), st);
      case Return(v) => if v.Some? { ExprTwice(v.value, OtherParent, sc, st); }
      case Block(body) => forall j | 0 <= j < |body| { StmtTwice(body[j], sc, st); }
      case If(c, thn, els) =>
        ExprTwice(c, OtherParent, sc, st);
        StmtTwice(thn, sc, st);
        if els.Some? { StmtTwice(els.value, sc, st); }
    }
  }

  lemma BodyTwice(body: seq<Stmt>, sc: Scope, st: FieldTable)
    ensures RwBody(RwBody(body, sc, st), sc, st) == RwBody(body, sc, st)
  {
    forall j | 0 <= j < |body| { StmtTwice(body[j], sc, st); }
  }

  lemma {:induction false} PassTypeTwice(d: TypeDecl, key: Key, sc: Scope, st: FieldTable)
    ensures PassType(PassType(d, key, sc, st).0, key, sc, st) == PassType(d, key, sc, st)
    decreases d, |d.members| + 1
  {
    var inner := sc.(enclosing := Some(TypeRef(key, d.name)));
    var d' := PassType(d, key, sc, st).0;
    assert d'.members[0..] == PassMembersFrom(d, 0, key, inner, st).0;
    PassMembersTwice(d, d', 0, key, inner, st);
  }

  /** `d2` agrees with the first run's output from member `i` on. */
  lemma {:induction false} PassMembersTwice(d: TypeDecl, d2: TypeDecl, i: nat, key: Key, sc: Scope, st: FieldTable)
    requires i <= |d.members| == |d2.members|
    requires d2.members[i..] == PassMembersFrom(d, i, key, sc, st).0
    ensures PassMembersFrom(d2, i, key, sc, st) == PassMembersFrom(d, i, key, sc, st)
    decreases d, |d.members| - i
  {
    if i < |d.members| {
      var (m, st1) := PassMemberAt(d, i, key, sc, st);
      assert d2.members[i] == d2.members[i..][0] == m;
      PassMemberTwice(d, d2, i, key, sc, st);
      assert d2.members[i + 1..] == d2.members[i..][1..];
      PassMembersTwice(d, d2, i + 1, key, sc, st1);
    }
  }

  lemma {:induction false} PassMemberTwice(d: TypeDecl, d2: TypeDecl, i: nat, key: Key, sc: Scope, st: FieldTable)
    requires i < |d.members| == |d2.members|
    requires d2.members[i] == PassMemberAt(d, i, key, sc, st).0
    ensures PassMemberAt(d2, i, key, sc, st) == PassMemberAt(d, i, key, sc, st)
    decreases d, 0
  {
    match d.members[i] {
      case Field(mods, _, vars) =>
        var st' := PassMemberAt(d, i, key, sc, st).1;
        DeclaratorsTwice(vars, sc, st');
      case NestedType(nd) => PassTypeTwice(nd, key + [i], sc, st);
      case Method(_, _, _, ps, body) => BodyTwice(body, sc.(params := ParamNames(ps)), st);
      case Constructor(_, _, _, body) => BodyTwice(body, sc, st);
      case Property(_, _, _, getter) => BodyTwice(getter, sc, st);
    }
  }

  lemma {:induction false} PassItemsTwice(u: CompilationUnit, u2: CompilationUnit, i: nat, st: FieldTable)
    requires i <= |u.items| == |u2.items|
    requires u2.items[i..] == PassItemsFrom(u, i, st).0
    ensures PassItemsFrom(u2, i, st) == PassItemsFrom(u, i, st)
    decreases |u.items| - i
  {
    if i < |u.items| {
      var (item, st1) := PassItemAt(u, i, st);
      assert u2.items[i] == u2.items[i..][0] == item;
      match u.items[i] {
        case TypeItem(d) => PassTypeTwice(d, [i], TopScope, st);
        case GlobalStatement(s) => StmtTwice(s, TopScope, st);
      }
      assert u2.items[i + 1..] == u2.items[i..][1..];
      PassItemsTwice(u, u2, i + 1, st1);
    }
  }

  /** The pass is idempotent: a second run over its output (from a fresh
      rewriter, as the pipeline would) returns that output unchanged. */
  lemma RewriteIdempotent(u: CompilationUnit)
    ensures Rewrite(Rewrite(u)) == Rewrite(u)
  {
    var u' := Rewrite(u);
    assert u'.items[0..] == PassItemsFrom(u, 0, EmptyTable).0;
    PassItemsTwice(u, u', 0, EmptyTable);
  }
}
