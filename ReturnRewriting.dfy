/** The return pass as it stands: a rewriter that remembers the identifier
    of the class declaration and the return-type text of the method
    declaration it entered most recently, and hands every node back
    unchanged (its return-cast rule is disabled).

    What it remembers is described by the declarations of a tree in document
    order (`Entries`) and by the most recent class or method among them
    (`LastClassName`, `LastReturnType`). */
module ReturnRewriting {
  import opened Syntax

  /** Entering a declaration the pass reacts to: a type declaration of some
      kind, or a method declaration with its return-type text. */
  datatype Entry = TypeEntry(kind: TypeKind, name: string) | MethodEntry(returnType: string)

  predicate IsClassEntry(e: Entry)
  {
    e.TypeEntry? && e.kind == Class
  }

  /** The declarations entered while visiting `d`, in document order: `d`
      itself first, then what its members contain. */
  function Entries(d: TypeDecl): (es: seq<Entry>)
    ensures |es| >= 1 && es[0] == TypeEntry(d.kind, d.name)
    decreases d, |d.members| + 1
  {
    [TypeEntry(d.kind, d.name)] + EntriesFrom(d, 0)
  }

  function EntriesFrom(d: TypeDecl, i: nat): seq<Entry>
    requires i <= |d.members|
    decreases d, |d.members| - i
  {
    if i == |d.members| then [] else EntriesAt(d, i) + EntriesFrom(d, i + 1)
  }

  function EntriesAt(d: TypeDecl, i: nat): seq<Entry>
    requires i < |d.members|
    decreases d, 0
  {
    match d.members[i]
    case Method(_, rt, _, _, _) => [MethodEntry(rt)]
    case NestedType(n) => Entries(n)
    case _ => []
  }

  /** The declarations entered while visiting items `i..` of a unit; a
      top-level statement declares neither classes nor methods. */
  function UnitEntriesFrom(u: CompilationUnit, i: nat): seq<Entry>
    requires i <= |u.items|
    decreases |u.items| - i
  {
    if i == |u.items| then []
    else (if u.items[i].TypeItem? then Entries(u.items[i].decl) else []) + UnitEntriesFrom(u, i + 1)
  }

  /** The class name held after entering `es`, starting from `current`: the
      identifier of the most recently entered class declaration, or
      `current` if `es` enters none. */
  function LastClassName(es: seq<Entry>, current: Option<string>): (r: Option<string>)
    ensures (forall i :: 0 <= i < |es| ==> !IsClassEntry(es[i])) ==> r == current
    ensures (exists i :: 0 <= i < |es| && IsClassEntry(es[i])) ==>
      exists i :: 0 <= i < |es| && IsClassEntry(es[i]) && r == Some(es[i].name)
  {
    if |es| == 0 then current
    else if IsClassEntry(es[|es| - 1]) then Some(es[|es| - 1].name)
    else
      var r := LastClassName(es[..|es| - 1], current);
      assert forall i :: 0 <= i < |es| - 1 ==> es[..|es| - 1][i] == es[i];
      r
  }

  /** The return type held after entering `es`: the return-type text of the
      most recently entered method declaration, or `current`. */
  function LastReturnType(es: seq<Entry>, current: Option<string>): (r: Option<string>)
    ensures (forall i :: 0 <= i < |es| ==> !es[i].MethodEntry?) ==> r == current
    ensures (exists i :: 0 <= i < |es| && es[i].MethodEntry?) ==>
      exists i :: 0 <= i < |es| && es[i].MethodEntry? && r == Some(es[i].returnType)
  {
    if |es| == 0 then current
    else if es[|es| - 1].MethodEntry? then Some(es[|es| - 1].returnType)
    else
      var r := LastReturnType(es[..|es| - 1], current);
      assert forall i :: 0 <= i < |es| - 1 ==> es[..|es| - 1][i] == es[i];
      r
  }

  /** `LastClassName` is the latest class entered: when some class is
      entered, it is the identifier of a class entry after which no class is
      entered. */
  lemma {:induction false} LatestClassEntry(es: seq<Entry>, current: Option<string>)
    ensures (exists i :: 0 <= i < |es| && IsClassEntry(es[i])) ==>
      exists i :: 0 <= i < |es| && IsClassEntry(es[i]) && LastClassName(es, current) == Some(es[i].name) &&
        forall k :: i < k < |es| ==> !IsClassEntry(es[k])
    decreases |es|
  {
    if exists j :: 0 <= j < |es| && IsClassEntry(es[j]) {
      var n := |es| - 1;
      if !IsClassEntry(es[n]) {
        var init := es[..n];
        var j :| 0 <= j < |es| && IsClassEntry(es[j]);
        assert init[j] == es[j];
        LatestClassEntry(init, current);
        var i :| 0 <= i < |init| && IsClassEntry(init[i]) && LastClassName(init, current) == Some(init[i].name) &&
          forall k :: i < k < |init| ==> !IsClassEntry(init[k]);
        assert es[i] == init[i];
        forall k | i < k < |es| ensures !IsClassEntry(es[k]) {
          if k < n { assert es[k] == init[k]; }
        }
      }
    }
  }

  /** `LastReturnType` is the latest method entered, in the same sense. */
  lemma {:induction false} LatestMethodEntry(es: seq<Entry>, current: Option<string>)
    ensures (exists i :: 0 <= i < |es| && es[i].MethodEntry?) ==>
      exists i :: 0 <= i < |es| && es[i].MethodEntry? && LastReturnType(es, current) == Some(es[i].returnType) &&
        forall k :: i < k < |es| ==> !es[k].MethodEntry?
    decreases |es|
  {
    if exists j :: 0 <= j < |es| && es[j].MethodEntry? {
      var n := |es| - 1;
      if !es[n].MethodEntry? {
        var init := es[..n];
        var j :| 0 <= j < |es| && es[j].MethodEntry?;
        assert init[j] == es[j];
        LatestMethodEntry(init, current);
        var i :| 0 <= i < |init| && init[i].MethodEntry? && LastReturnType(init, current) == Some(init[i].returnType) &&
          forall k :: i < k < |init| ==> !init[k].MethodEntry?;
        assert es[i] == init[i];
        forall k | i < k < |es| ensures !es[k].MethodEntry? {
          if k < n { assert es[k] == init[k]; }
        }
      }
    }
  }

  /** Entering `a` then `b` leaves what entering `b` leaves after `a`. */
  lemma {:induction false} LastClassNameAppend(a: seq<Entry>, b: seq<Entry>, current: Option<string>)
    ensures LastClassName(a + b, current) == LastClassName(b, LastClassName(a, current))
    decreases |b|
  {
    if |b| == 0 {
      assert a + b == a;
    } else {
      assert (a + b)[|a + b| - 1] == b[|b| - 1];
      assert (a + b)[..|a + b| - 1] == a + b[..|b| - 1];
      LastClassNameAppend(a, b[..|b| - 1], current);
    }
  }

  lemma {:induction false} LastReturnTypeAppend(a: seq<Entry>, b: seq<Entry>, current: Option<string>)
    ensures LastReturnType(a + b, current) == LastReturnType(b, LastReturnType(a, current))
    decreases |b|
  {
    if |b| == 0 {
      assert a + b == a;
    } else {
      assert (a + b)[|a + b| - 1] == b[|b| - 1];
      assert (a + b)[..|a + b| - 1] == a + b[..|b| - 1];
      LastReturnTypeAppend(a, b[..|b| - 1], current);
    }
  }

  /** A type declaration that is not a class and has no nested types enters
      no class declaration at all, so the class name is left as it was. */
  lemma {:induction false} NonClassKeepsClassName(d: TypeDecl, current: Option<string>)
    requires d.kind != Class
    requires forall i :: 0 <= i < |d.members| ==> !d.members[i].NestedType?
    ensures LastClassName(Entries(d), current) == current
  {
    OnlyMethodEntries(d, 0);
    LatestClassEntry(Entries(d), current);
  }

  lemma {:induction false} OnlyMethodEntries(d: TypeDecl, i: nat)
    requires i <= |d.members|
    requires forall j :: 0 <= j < |d.members| ==> !d.members[j].NestedType?
    ensures forall k :: 0 <= k < |EntriesFrom(d, i)| ==> EntriesFrom(d, i)[k].MethodEntry?
    decreases |d.members| - i
  {
    if i < |d.members| {
      OnlyMethodEntries(d, i + 1);
    }
  }

  class ReturnRewriter {
    /** Return-type text of the method declaration entered last (`None`
        before any). */
    var currentReturnType: Option<string>
    /** Identifier of the class declaration entered last (`None` before any). */
    var currentClassName: Option<string>

    constructor()
      ensures currentReturnType == None && currentClassName == None
    {
      currentReturnType := None;
      currentClassName := None;
    }

    /** Visiting a type declaration: a class records its identifier on
        entry (other kinds do not), then its members are visited in order;
        nothing is restored on exit, and the node comes back as it was. */
    method VisitTypeDeclaration(d: TypeDecl) returns (r: TypeDecl)
      modifies this
      ensures r == d
      ensures currentClassName == LastClassName(Entries(d), old(currentClassName))
      ensures currentReturnType == LastReturnType(Entries(d), old(currentReturnType))
      decreases d, |d.members| + 1
    {
      if d.kind == Class {
        currentClassName := Some(d.name);
      }
      LastClassNameAppend([TypeEntry(d.kind, d.name)], EntriesFrom(d, 0), old(currentClassName));
      LastReturnTypeAppend([TypeEntry(d.kind, d.name)], EntriesFrom(d, 0), old(currentReturnType));
      var i := 0;
      while i < |d.members|
        invariant 0 <= i <= |d.members|
        invariant LastClassName(EntriesFrom(d, i), currentClassName) == LastClassName(Entries(d), old(currentClassName))
        invariant LastReturnType(EntriesFrom(d, i), currentReturnType) == LastReturnType(Entries(d), old(currentReturnType))
        decreases |d.members| - i
      {
        ghost var name, rt := currentClassName, currentReturnType;
        var _ := VisitMemberAt(d, i);
        LastClassNameAppend(EntriesAt(d, i), EntriesFrom(d, i + 1), name);
        LastReturnTypeAppend(EntriesAt(d, i), EntriesFrom(d, i + 1), rt);
        i := i + 1;
      }
      r := d;
    }

    /** Visiting member `i` of `d`: a method records its return-type text on
        entry; a nested type declaration is visited as above. */
    method VisitMemberAt(d: TypeDecl, i: nat) returns (r: Member)
      requires i < |d.members|
      modifies this
      ensures r == d.members[i]
      ensures currentClassName == LastClassName(EntriesAt(d, i), old(currentClassName))
      ensures currentReturnType == LastReturnType(EntriesAt(d, i), old(currentReturnType))
      decreases d, 0
    {
      match d.members[i] {
        case Method(_, rt, _, _, _) =>
          currentReturnType := Some(rt);
        case NestedType(n) =>
          var _ := VisitTypeDeclaration(n);
        case _ =>
      }
      r := d.members[i];
    }

    /** The whole pass: every node comes back unchanged, and the two fields
        end up describing the last class and last method of the unit. */
    method VisitCompilationUnit(u: CompilationUnit) returns (r: CompilationUnit)
      modifies this
      ensures r == u
      ensures currentClassName == LastClassName(UnitEntriesFrom(u, 0), old(currentClassName))
      ensures currentReturnType == LastReturnType(UnitEntriesFrom(u, 0), old(currentReturnType))
    {
      var i := 0;
      while i < |u.items|
        invariant 0 <= i <= |u.items|
        invariant LastClassName(UnitEntriesFrom(u, i), currentClassName) == LastClassName(UnitEntriesFrom(u, 0), old(currentClassName))
        invariant LastReturnType(UnitEntriesFrom(u, i), currentReturnType) == LastReturnType(UnitEntriesFrom(u, 0), old(currentReturnType))
        decreases |u.items| - i
      {
        ghost var name, rt := currentClassName, currentReturnType;
        ghost var here := if u.items[i].TypeItem? then Entries(u.items[i].decl) else [];
        if u.items[i].TypeItem? {
          var _ := VisitTypeDeclaration(u.items[i].decl);
        }
        LastClassNameAppend(here, UnitEntriesFrom(u, i + 1), name);
        LastReturnTypeAppend(here, UnitEntriesFrom(u, i + 1), rt);
        i := i + 1;
      }
      r := u;
    }
  }
}
