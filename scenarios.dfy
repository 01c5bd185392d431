/** Concrete uses of a field-type police whose rule rejects fields of the
    primitive type int: every field is a target field, and a field passes
    when its declared type is anything but "int". */
module Scenarios {
  import opened Options
  import opened Police

  function NoPrimitiveInt(): Hooks
  {
    Hooks((f: FieldDescriptor) => true, (f: FieldDescriptor) => f.declaredType != "int")
  }

  /** A form with one int field is reported with that field's message. */
  method ViolatingFieldReported() returns (r: Option<string>)
    ensures r == Some("com.example.UserForm.age")
  {
    var police := new FieldTypePolice(NoPrimitiveInt());
    var form := ClassDescriptor("com.example.UserForm", [FieldDescriptor("age", "int")], []);
    var checks := FieldChecks(police.hooks, [], form);
    assert checks == [Some(FieldMessage(form.name, "age"))];
    assert FieldMessage(form.name, "age") == "com.example.UserForm.age";
    assert Somes(checks[1..]) == [];
    assert ValidateField(police.hooks, [], form) == ["com.example.UserForm.age"];
    r := police.Validate(SourceFile("UserForm.java"), form);
  }

  /** The same kind of field passes once its name is on the ignore list. */
  method IgnoredFieldPasses() returns (r: Option<string>)
    ensures r == None
  {
    var police := new FieldTypePolice(NoPrimitiveInt());
    police := police.SetIgnoreFieldName(["id"]);
    var form := ClassDescriptor("com.example.UserForm", [FieldDescriptor("id", "int")], []);
    assert ValidateField(police.hooks, ["id"], form) == [];
    r := police.Validate(SourceFile("UserForm.java"), form);
  }

  /** An outer class without violations passes and hands its violating inner
      class on; an outer class with a violation hands nothing on. */
  method InnerClassHandedOn() returns (passed: Option<string>, failed: Option<string>)
    ensures passed == None
    ensures failed == Some("com.example.BadForm.count")
  {
    var police := new FieldTypePolice(NoPrimitiveInt());
    var part := ClassDescriptor("com.example.OuterForm$InnerPart", [FieldDescriptor("size", "int")], []);
    var outer := ClassDescriptor("com.example.OuterForm", [FieldDescriptor("title", "String")], [part]);
    var bad := ClassDescriptor("com.example.BadForm", [FieldDescriptor("count", "int")], [part]);
    var file := SourceFile("OuterForm.java");
    assert ValidateField(police.hooks, [], outer) == [];
    passed := police.Validate(file, outer);
    assert police.handled == [(file, part)];
    var checks := FieldChecks(police.hooks, [], bad);
    assert checks == [Some(FieldMessage(bad.name, "count"))];
    assert FieldMessage(bad.name, "count") == "com.example.BadForm.count";
    assert Somes(checks[1..]) == [];
    assert ValidateField(police.hooks, [], bad) == ["com.example.BadForm.count"];
    failed := police.Validate(file, bad);
    assert police.handled == [(file, part)];
  }
}
