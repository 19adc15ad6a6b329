/** The fields of the return pass are overwritten on entry and never
    restored on exit. */
module ReturnExamples {
  import opened Syntax
  import opened ReturnRewriting

  /** `class Outer { class Inner { int F() {} } string G() {} }` */
  function Nested(): CompilationUnit
  {
    CompilationUnit([TypeItem(TypeDecl(Class, "Outer", [
      NestedType(TypeDecl(Class, "Inner", [Method([], "int", "F", [], [])])),
      Method([], "string", "G", [], [])]))])
  }

  /** The entries of `Nested()`: Outer, Inner, F, G. */
  lemma NestedEntries()
    ensures UnitEntriesFrom(Nested(), 0) ==
      [TypeEntry(Class, "Outer"), TypeEntry(Class, "Inner"), MethodEntry("int"), MethodEntry("string")]
  {
    var outer := Nested().items[0].decl;
    var inner := outer.members[0].decl;
    assert EntriesFrom(inner, 1) == [];
    assert EntriesFrom(inner, 0) == [MethodEntry("int")];
    assert Entries(inner) == [TypeEntry(Class, "Inner"), MethodEntry("int")];
    assert EntriesFrom(outer, 2) == [];
    assert EntriesFrom(outer, 1) == [MethodEntry("string")];
    assert EntriesFrom(outer, 0) == [TypeEntry(Class, "Inner"), MethodEntry("int"), MethodEntry("string")];
    assert UnitEntriesFrom(Nested(), 1) == [];
  }

  /** After the pass over `Nested()`, the class name is still `Inner`,
      although `G` belongs to `Outer`, and the return type is `G`'s. */
  method FieldsAfterNestedClass() returns (className: Option<string>, returnType: Option<string>)
    ensures className == Some("Inner")
    ensures returnType == Some("string")
  {
    var rw := new ReturnRewriter();
    var out := rw.VisitCompilationUnit(Nested());
    NestedEntries();
    var es := UnitEntriesFrom(Nested(), 0);
    assert es[..3][..2][..1] == [TypeEntry(Class, "Outer")];
    assert LastClassName(es, None) == Some("Inner");
    className, returnType := rw.currentClassName, rw.currentReturnType;
  }
}
