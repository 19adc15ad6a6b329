/** The static-field qualification pass.  Walking the tree in document order,
    it records, per type declaration, the names of its `public static`
    fields (and all of them in one flat set), and rewrites a bare identifier
    naming such a field of its nearest enclosing type `T` into `T.Name`.

    The recorded names are the pass's one piece of mutable state; they change
    only at field declarations.  Everything else (expressions, statements,
    method bodies) is rewritten by pure functions that read the names
    recorded so far, given here as a `FieldTable` value.  `PassType` and
    `PassUnit` thread that table through the walk and specify the imperative
    class `StaticFieldIdentifierRewriter` at the end of the module. */
module StaticFieldRewriting {
  import opened Syntax

  /** The recorded names: the set of each type declaration (by its key) and
      the flat union across all types. */
  datatype FieldTable = FieldTable(byNode: map<Key, set<string>>, flat: set<string>)

  const EmptyTable := FieldTable(map[], {})

  /** The flat set is exactly the union of the per-type sets. */
  ghost predicate Valid(st: FieldTable)
  {
    && (forall k :: k in st.byNode ==> st.byNode[k] <= st.flat)
    && (forall n :: n in st.flat ==> exists k :: k in st.byNode && n in st.byNode[k])
  }

  /** `b` records everything `a` does, and maybe more. */
  ghost predicate Grows(a: FieldTable, b: FieldTable)
  {
    && a.flat <= b.flat
    && (forall k :: k in a.byNode ==> k in b.byNode && a.byNode[k] <= b.byNode[k])
  }

  /** Whether a field declaration's names are recorded.  A field is private
      when it says `private`, and also when it has neither `private` nor
      `public`; only static fields that are not private qualify. */
  function IsQualifying(mods: seq<Modifier>): (r: bool)
    ensures r <==> Static in mods && Public in mods && Private !in mods
  {
    var isStatic := Static in mods;
    var hasPrivateModifier := Private in mods;
    var hasPublicModifier := Public in mods;
    var isPrivate := hasPrivateModifier || (!hasPublicModifier && !hasPrivateModifier);
    isStatic && !isPrivate
  }

  /** Find-or-create the entry of `key`, then add `names` to it and to the
      flat set. */
  function RecordNames(st: FieldTable, key: Key, names: set<string>): (r: FieldTable)
    ensures r.byNode.Keys == st.byNode.Keys + {key}
    ensures r.byNode[key] == (if key in st.byNode then st.byNode[key] else {}) + names
    ensures forall k :: k in st.byNode && k != key ==> r.byNode[k] == st.byNode[k]
    ensures r.flat == st.flat + names
    ensures Grows(st, r)
    ensures Valid(st) ==> Valid(r)
  {
    var entry := if key in st.byNode then st.byNode[key] else {};
    FieldTable(st.byNode[key := entry + names], st.flat + names)
  }

  /** A type declaration as the nearest-enclosing-type query sees it: its
      node identity and its identifier text. */
  datatype TypeRef = TypeRef(key: Key, name: string)

  /** What a node's ancestors tell the pass: the nearest type declaration,
      the parameter names of the nearest method declaration (constructors
      and lambdas do not count), and the names declared by the nearest
      local-declaration statement. */
  datatype Scope = Scope(enclosing: Option<TypeRef>, params: set<string>, locals: set<string>)

  const TopScope := Scope(None, {}, {})

  /** The exclusions: under a member access, or shadowed by a parameter of the
      nearest method or by a name of the nearest local declaration. */
  predicate InLocalScope(name: string, parent: Parent, sc: Scope)
  {
    || parent == MemberAccessParent
    || name in sc.params
    || name in sc.locals
  }

  /** The nearest type's own recorded set contains `name`. */
  predicate OwnRecorded(name: string, sc: Scope, st: FieldTable)
  {
    sc.enclosing.Some? && sc.enclosing.value.key in st.byNode && name in st.byNode[sc.enclosing.value.key]
  }

  /** `TypeName.name`, taking the replaced identifier's leading trivia on its
      first token and its trailing trivia on its last. */
  function Qualified(typeName: string, name: string, t: Trivia): (r: Expr)
    ensures LeadingTrivia(r) == t.leading && TrailingTrivia(r) == t.trailing
  {
    MemberAccess(Ident(typeName, Trivia(t.leading, "")), Name(name, Trivia("", t.trailing)))
  }

  /** The rewrite of one bare identifier `name` (with trivia `t`). */
  function VisitIdentifierName(name: string, t: Trivia, parent: Parent, sc: Scope, st: FieldTable): (r: Expr)
    // only names recorded so far can be rewritten
    ensures name !in st.flat ==> r == Ident(name, t)
    // the only possible change is qualification with the nearest type's name
    ensures r == Ident(name, t) || (sc.enclosing.Some? && r == Qualified(sc.enclosing.value.name, name, t))
    // with a consistent table the flat set is only a filter: the identifier
    // is qualified exactly when its own type recorded it and nothing shadows it
    ensures Valid(st) ==> (r != Ident(name, t) <==> OwnRecorded(name, sc, st) && !InLocalScope(name, parent, sc))
    ensures LeadingTrivia(r) == t.leading && TrailingTrivia(r) == t.trailing
  {
    if name !in st.flat || InLocalScope(name, parent, sc) then
      Ident(name, t)
    else if OwnRecorded(name, sc, st) then
      Qualified(sc.enclosing.value.name, name, t)
    else
      Ident(name, t)
  }

  // ---------------------------------------------------------------------
  // Expressions and statements: read the table, never change it.

  function RwExpr(e: Expr, parent: Parent, sc: Scope, st: FieldTable): (r: Expr)
    ensures LeadingTrivia(r) == LeadingTrivia(e) && TrailingTrivia(r) == TrailingTrivia(e)
    decreases e
  {
    match e
    case Ident(name, t) => VisitIdentifierName(name, t, parent, sc, st)
    case This(_) => e
    case Literal(_, _) => e
    case MemberAccess(target, member) => MemberAccess(RwExpr(target, MemberAccessParent, sc, st), member)
    case Invocation(callee, args) =>
      Invocation(RwExpr(callee, OtherParent, sc, st),
                 seq(|args|, i requires 0 <= i < |args| => RwExpr(args[i], ArgumentParent, sc, st)))
    case ObjectCreation(ty, args) =>
      ObjectCreation(ty, seq(|args|, i requires 0 <= i < |args| => RwExpr(args[i], ArgumentParent, sc, st)))
    case Assignment(op, left, right) => Assignment(op, RwExpr(left, OtherParent, sc, st), RwExpr(right, OtherParent, sc, st))
    case Binary(op, left, right) => Binary(op, RwExpr(left, OtherParent, sc, st), RwExpr(right, OtherParent, sc, st))
    case Postfix(op, operand) => Postfix(op, RwExpr(operand, OtherParent, sc, st))
    case Cast(ty, operand) => Cast(ty, RwExpr(operand, OtherParent, sc, st))
    case Paren(inner) => Paren(RwExpr(inner, OtherParent, sc, st))
    case Lambda(ps, body) => Lambda(ps, RwExpr(body, OtherParent, sc, st))
  }

  function RwOptExpr(e: Option<Expr>, sc: Scope, st: FieldTable): Option<Expr>
  {
    match e
    case None => None
    case Some(x) => Some(RwExpr(x, OtherParent, sc, st))
  }

  function RwDeclarators(vars: seq<Declarator>, sc: Scope, st: FieldTable): (r: seq<Declarator>)
    ensures |r| == |vars| && forall i :: 0 <= i < |vars| ==> r[i].name == vars[i].name
  {
    seq(|vars|, i requires 0 <= i < |vars| => Declarator(vars[i].name, RwOptExpr(vars[i].init, sc, st)))
  }

  function RwStmt(s: Stmt, sc: Scope, st: FieldTable): Stmt
    decreases s
  {
    match s
    case ExprStmt(e) => ExprStmt(RwExpr(e, OtherParent, sc, st))
    case LocalDecl(ty, vars) => LocalDecl(ty, RwDeclarators(vars, sc.(locals := DeclaratorNames(vars)), st))
    case Return(v) => Return(RwOptExpr(v, sc, st))
    case Block(body) => Block(seq(|body|, i requires 0 <= i < |body| => RwStmt(body[i], sc, st)))
    case If(c, thn, els) =>
      If(RwExpr(c, OtherParent, sc, st), RwStmt(thn, sc, st),
         match els
         case None => None
         case Some(x) => Some(RwStmt(x, sc, st)))
  }

  /** A statement list that is a member's body. */
  function RwBody(body: seq<Stmt>, sc: Scope, st: FieldTable): (r: seq<Stmt>)
    ensures |r| == |body|
  {
    seq(|body|, i requires 0 <= i < |body| => RwStmt(body[i], sc, st))
  }

  /** The parameter names of a method, as a set. */
  function ParamNames(ps: seq<string>): set<string>
  {
    set i | 0 <= i < |ps| :: ps[i]
  }

  // ---------------------------------------------------------------------
  // The walk over declarations, threading the table.

  /** A field declaration: record its names if it qualifies, then rewrite
      its initializers against the updated table. */
  function PassField(f: Member, key: Key, sc: Scope, st: FieldTable): (r: (Member, FieldTable))
    requires f.Field?
    ensures r.0.Field? && r.0.mods == f.mods && r.0.typeName == f.typeName
    ensures r.1 == if IsQualifying(f.mods) then RecordNames(st, key, DeclaratorNames(f.vars)) else st
  {
    var st' := if IsQualifying(f.mods) then RecordNames(st, key, DeclaratorNames(f.vars)) else st;
    (Field(f.mods, f.typeName, RwDeclarators(f.vars, sc, st')), st')
  }

  /** A member that is not a field or a nested type: its body is rewritten
      and the table is unchanged. */
  function RwMember(m: Member, sc: Scope, st: FieldTable): Member
    requires !m.Field? && !m.NestedType?
  {
    match m
    case Method(mods, rt, name, ps, body) => Method(mods, rt, name, ps, RwBody(body, sc.(params := ParamNames(ps)), st))
    case Constructor(mods, name, ps, body) => Constructor(mods, name, ps, RwBody(body, sc, st))
    case Property(mods, ty, name, getter) => Property(mods, ty, name, RwBody(getter, sc, st))
  }

  /** Type declaration `d`, whose key is `key`, met in scope `sc`. */
  function PassType(d: TypeDecl, key: Key, sc: Scope, st: FieldTable): (r: (TypeDecl, FieldTable))
    ensures r.0.kind == d.kind && r.0.name == d.name && |r.0.members| == |d.members|
    decreases d, |d.members| + 1
  {
    var inner := sc.(enclosing := Some(TypeRef(key, d.name)));
    var (ms, st') := PassMembersFrom(d, 0, key, inner, st);
    (TypeDecl(d.kind, d.name, ms), st')
  }

  /** Members `i..` of `d`, in document order. */
  function PassMembersFrom(d: TypeDecl, i: nat, key: Key, sc: Scope, st: FieldTable): (r: (seq<Member>, FieldTable))
    requires i <= |d.members|
    ensures |r.0| == |d.members| - i
    decreases d, |d.members| - i
  {
    if i == |d.members| then ([], st)
    else
      var (m, st1) := PassMemberAt(d, i, key, sc, st);
      var (rest, st2) := PassMembersFrom(d, i + 1, key, sc, st1);
      ([m] + rest, st2)
  }

  /** Member `i` of `d`; a nested type's key extends `key` with `i`. */
  function PassMemberAt(d: TypeDecl, i: nat, key: Key, sc: Scope, st: FieldTable): (r: (Member, FieldTable))
    requires i < |d.members|
    decreases d, 0
  {
    var m := d.members[i];
    match m
    case Field(_, _, _) => PassField(m, key, sc, st)
    case NestedType(nd) =>
      var (nd', st') := PassType(nd, key + [i], sc, st);
      (NestedType(nd'), st')
    case _ => (RwMember(m, sc, st), st)
  }

  /** An item at the top level; a type declaration there has key `[i]`. */
  function PassItemAt(u: CompilationUnit, i: nat, st: FieldTable): (r: (Item, FieldTable))
    requires i < |u.items|
  {
    match u.items[i]
    case TypeItem(d) =>
      var (d', st') := PassType(d, [i], TopScope, st);
      (TypeItem(d'), st')
    case GlobalStatement(s) => (GlobalStatement(RwStmt(s, TopScope, st)), st)
  }

  function PassItemsFrom(u: CompilationUnit, i: nat, st: FieldTable): (r: (seq<Item>, FieldTable))
    requires i <= |u.items|
    ensures |r.0| == |u.items| - i
    decreases |u.items| - i
  {
    if i == |u.items| then ([], st)
    else
      var (item, st1) := PassItemAt(u, i, st);
      var (rest, st2) := PassItemsFrom(u, i + 1, st1);
      ([item] + rest, st2)
  }

  /** One run of the pass over a compilation unit, from a table `st`. */
  function PassUnit(u: CompilationUnit, st: FieldTable): (r: (CompilationUnit, FieldTable))
    ensures |r.0.items| == |u.items|
  {
    var (items, st') := PassItemsFrom(u, 0, st);
    (CompilationUnit(items), st')
  }

  /** The pass as the pipeline runs it: a fresh rewriter per unit. */
  function Rewrite(u: CompilationUnit): CompilationUnit
  {
    PassUnit(u, EmptyTable).0
  }

  // ---------------------------------------------------------------------
  // The rewriter object.

  class StaticFieldIdentifierRewriter {
    var staticFieldNamesByNode: map<Key, set<string>>
    var staticFieldNamesFlat: set<string>

    function Table(): FieldTable
      reads this
    {
      FieldTable(staticFieldNamesByNode, staticFieldNamesFlat)
    }

    constructor ()
      ensures Table() == EmptyTable
    {
      staticFieldNamesByNode := map[];
      staticFieldNamesFlat := {};
    }

    /** Records the names of a qualifying field under its nearest type
        declaration `key` and in the flat set, then rewrites the field's
        initializers. */
    method VisitFieldDeclaration(node: Member, key: Key, sc: Scope) returns (r: Member)
      requires node.Field?
      modifies this
      ensures IsQualifying(node.mods) ==>
        && staticFieldNamesByNode.Keys == old(staticFieldNamesByNode.Keys) + {key}
        && staticFieldNamesByNode[key] == (if key in old(staticFieldNamesByNode) then old(staticFieldNamesByNode[key]) else {}) + DeclaratorNames(node.vars)
        && (forall k :: k in old(staticFieldNamesByNode) && k != key ==> staticFieldNamesByNode[k] == old(staticFieldNamesByNode[k]))
        && staticFieldNamesFlat == old(staticFieldNamesFlat) + DeclaratorNames(node.vars)
      ensures !IsQualifying(node.mods) ==> Table() == old(Table())
      ensures Valid(old(Table())) ==> Valid(Table())
      ensures (r, Table()) == PassField(node, key, sc, old(Table()))
    {
      if IsQualifying(node.mods) {
        if key !in staticFieldNamesByNode {
          staticFieldNamesByNode := staticFieldNamesByNode[key := {}];
        }
        var fieldIdentifierNames := DeclaratorNames(node.vars);
        staticFieldNamesByNode := staticFieldNamesByNode[key := staticFieldNamesByNode[key] + fieldIdentifierNames];
        staticFieldNamesFlat := staticFieldNamesFlat + fieldIdentifierNames;
        assert Table() == RecordNames(old(Table()), key, DeclaratorNames(node.vars));
      }
      r := Field(node.mods, node.typeName, RwDeclarators(node.vars, sc, Table()));
    }

    method VisitTypeDeclaration(d: TypeDecl, key: Key, sc: Scope) returns (r: TypeDecl)
      modifies this
      ensures (r, Table()) == PassType(d, key, sc, old(Table()))
      decreases d, |d.members| + 1
    {
      var inner := sc.(enclosing := Some(TypeRef(key, d.name)));
      ghost var goal := PassMembersFrom(d, 0, key, inner, Table());
      var done: seq<Member> := [];
      var i := 0;
      while i < |d.members|
        invariant 0 <= i <= |d.members|
        invariant done + PassMembersFrom(d, i, key, inner, Table()).0 == goal.0
        invariant PassMembersFrom(d, i, key, inner, Table()).1 == goal.1
      {
        ghost var before := Table();
        var m := VisitMemberAt(d, i, key, inner);
        assert PassMembersFrom(d, i, key, inner, before).0 == [m] + PassMembersFrom(d, i + 1, key, inner, Table()).0;
        done := done + [m];
        i := i + 1;
      }
      assert done == goal.0 && Table() == goal.1;
      r := TypeDecl(d.kind, d.name, done);
    }

    method VisitMemberAt(d: TypeDecl, i: nat, key: Key, sc: Scope) returns (r: Member)
      requires i < |d.members|
      modifies this
      ensures (r, Table()) == PassMemberAt(d, i, key, sc, old(Table()))
      decreases d, 0
    {
      var m := d.members[i];
      match m
      case Field(_, _, _) =>
        r := VisitFieldDeclaration(m, key, sc);
      case NestedType(nd) =>
        var nd' := VisitTypeDeclaration(nd, key + [i], sc);
        r := NestedType(nd');
      case _ =>
        r := RwMember(m, sc, Table());
    }

    method VisitCompilationUnit(u: CompilationUnit) returns (r: CompilationUnit)
      modifies this
      ensures (r, Table()) == PassUnit(u, old(Table()))
    {
      ghost var goal := PassItemsFrom(u, 0, Table());
      var done: seq<Item> := [];
      var i := 0;
      while i < |u.items|
        invariant 0 <= i <= |u.items|
        invariant done + PassItemsFrom(u, i, Table()).0 == goal.0
        invariant PassItemsFrom(u, i, Table()).1 == goal.1
      {
        ghost var before := Table();
        var item: Item;
        match u.items[i] {
          case TypeItem(d) =>
            var d' := VisitTypeDeclaration(d, [i], TopScope);
            item := TypeItem(d');
          case GlobalStatement(s) =>
            item := GlobalStatement(RwStmt(s, TopScope, Table()));
        }
        assert (item, Table()) == PassItemAt(u, i, before);
        assert PassItemsFrom(u, i, before).0 == [item] + PassItemsFrom(u, i + 1, Table()).0;
        done := done + [item];
        i := i + 1;
      }
      assert done == goal.0 && Table() == goal.1;
      r := CompilationUnit(done);
    }
  }
}
