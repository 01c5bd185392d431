/** A police rule that checks the declared types of the public fields of a
    class: every in-scope field whose type fails the rule is reported as
    "<class name>.<field name>". The two rule-specific checks (which fields are
    targets, which types are acceptable) are plug-ins; classes and fields are
    given as resolved descriptors instead of being found by reflection. */
module Police {
  import opened Options
  import opened Text

  /** The suffixes of the classes a field-type police looks at by default
      (kept for completeness: nothing in this rule reads it). */
  const DefaultTargetClassSuffixList: seq<string> := ["Form", "ContentResult", "Part"]

  /** One public field of a class: its name and its declared type. */
  datatype FieldDescriptor = FieldDescriptor(name: string, declaredType: string)

  /** A class: its fully qualified name, its public fields in declaration
      order and its declared inner classes in declaration order. */
  datatype ClassDescriptor =
    ClassDescriptor(name: string, publicFields: seq<FieldDescriptor>, declaredClasses: seq<ClassDescriptor>)

  /** The source file a class came from, only ever passed along. */
  datatype SourceFile = SourceFile(path: string)

  /** The two checks a concrete rule supplies. */
  datatype Hooks = Hooks(isTargetField: FieldDescriptor -> bool, validateFieldType: FieldDescriptor -> bool)

  /** The message identifying one field of one class. */
  function FieldMessage(className: string, fieldName: string): (m: string)
    ensures |m| == |className| + 1 + |fieldName|
    ensures m[..|className|] == className && m[|className|] == '.' && m[|className| + 1..] == fieldName
  {
    className + "." + fieldName
  }

  /** A field is reported when it is a target field, its name is not
      ignored and its type fails the rule. */
  predicate IsViolation(hooks: Hooks, ignore: seq<string>, field: FieldDescriptor)
  {
    hooks.isTargetField(field) && field.name !in ignore && !hooks.validateFieldType(field)
  }

  /** What one field is mapped to before the filter: its message, or nothing. */
  function FieldCheck(hooks: Hooks, ignore: seq<string>, className: string, field: FieldDescriptor): Option<string>
  {
    if IsViolation(hooks, ignore, field) then Some(FieldMessage(className, field.name)) else None
  }

  /** Every public field of clazz, in order, mapped by FieldCheck. */
  function FieldChecks(hooks: Hooks, ignore: seq<string>, clazz: ClassDescriptor): seq<Option<string>>
  {
    seq(|clazz.publicFields|, i requires 0 <= i < |clazz.publicFields| =>
      FieldCheck(hooks, ignore, clazz.name, clazz.publicFields[i]))
  }

  /** The error messages of clazz: the mapped fields with the empty ones
      filtered out. There is at most one message per public field. */
  function ValidateField(hooks: Hooks, ignore: seq<string>, clazz: ClassDescriptor): (r: seq<string>)
    ensures |r| <= |clazz.publicFields|
  {
    Somes(FieldChecks(hooks, ignore, clazz))
  }

  /** The positions in clazz.publicFields of the fields that are reported. */
  function ViolatingFieldIndices(hooks: Hooks, ignore: seq<string>, clazz: ClassDescriptor): seq<nat>
  {
    SomeIndices(FieldChecks(hooks, ignore, clazz), 0)
  }

  /** Two messages for the same class are equal only for the same field name. */
  lemma FieldMessageInjective(className: string, a: string, b: string)
    requires FieldMessage(className, a) == FieldMessage(className, b)
    ensures a == b
  {
    assert a == FieldMessage(className, a)[|className| + 1..];
    assert b == FieldMessage(className, b)[|className| + 1..];
  }

  /** The result of ValidateField is exactly the subsequence of violating
      fields, in declaration order, each turned into its message. */
  lemma ValidateFieldExact(hooks: Hooks, ignore: seq<string>, clazz: ClassDescriptor)
    ensures var r := ValidateField(hooks, ignore, clazz);
            var idx := ViolatingFieldIndices(hooks, ignore, clazz);
            var fields := clazz.publicFields;
            && |r| == |idx|
            && (forall k, l :: 0 <= k < l < |idx| ==> idx[k] < idx[l])
            && (forall j :: 0 <= j < |fields| ==> (j in idx <==> IsViolation(hooks, ignore, fields[j])))
            && (forall k :: 0 <= k < |idx| ==>
                 idx[k] < |fields| && r[k] == FieldMessage(clazz.name, fields[idx[k]].name))
  {
    var checks := FieldChecks(hooks, ignore, clazz);
    SomesAtIndices(checks, 0);
    assert checks[0..] == checks;
  }

  /** "C.f" is reported iff some public field named f is a target field, is
      not ignored and fails the type check. */
  lemma ReportedIff(hooks: Hooks, ignore: seq<string>, clazz: ClassDescriptor, fieldName: string)
    ensures FieldMessage(clazz.name, fieldName) in ValidateField(hooks, ignore, clazz) <==>
            exists j :: 0 <= j < |clazz.publicFields| && clazz.publicFields[j].name == fieldName
                        && IsViolation(hooks, ignore, clazz.publicFields[j])
  {
    var r := ValidateField(hooks, ignore, clazz);
    var idx := ViolatingFieldIndices(hooks, ignore, clazz);
    var fields := clazz.publicFields;
    ValidateFieldExact(hooks, ignore, clazz);
    if FieldMessage(clazz.name, fieldName) in r {
      var k :| 0 <= k < |r| && r[k] == FieldMessage(clazz.name, fieldName);
      FieldMessageInjective(clazz.name, fields[idx[k]].name, fieldName);
      assert fields[idx[k]].name == fieldName && IsViolation(hooks, ignore, fields[idx[k]]);
    }
    if j :| 0 <= j < |fields| && fields[j].name == fieldName && IsViolation(hooks, ignore, fields[j]) {
      assert j in idx;
      var k :| 0 <= k < |idx| && idx[k] == j;
      assert r[k] == FieldMessage(clazz.name, fieldName);
    }
  }

  /** A field that is ignored by name, or is not a target field, is never
      reported, whatever its type. */
  lemma OutOfScopeFieldNeverReported(hooks: Hooks, ignore: seq<string>, clazz: ClassDescriptor, j: nat)
    requires j < |clazz.publicFields|
    requires clazz.publicFields[j].name in ignore || !hooks.isTargetField(clazz.publicFields[j])
    ensures j !in ViolatingFieldIndices(hooks, ignore, clazz)
  {
    ValidateFieldExact(hooks, ignore, clazz);
  }

  /** An ignored name never shows up as a message, and neither does a name
      none of whose fields is a target field. */
  lemma OutOfScopeNameNeverReported(hooks: Hooks, ignore: seq<string>, clazz: ClassDescriptor, fieldName: string)
    requires fieldName in ignore ||
             forall j :: 0 <= j < |clazz.publicFields| && clazz.publicFields[j].name == fieldName ==>
                           !hooks.isTargetField(clazz.publicFields[j])
    ensures FieldMessage(clazz.name, fieldName) !in ValidateField(hooks, ignore, clazz)
  {
    ReportedIff(hooks, ignore, clazz, fieldName);
  }

  /** With the initial, empty ignore list a field is reported exactly when
      the two plug-in checks say so. */
  lemma EmptyIgnoreListUsesOnlyHooks(hooks: Hooks, clazz: ClassDescriptor)
    ensures forall j :: 0 <= j < |clazz.publicFields| ==>
              (j in ViolatingFieldIndices(hooks, [], clazz) <==>
               hooks.isTargetField(clazz.publicFields[j]) && !hooks.validateFieldType(clazz.publicFields[j]))
  {
    ValidateFieldExact(hooks, [], clazz);
  }

  /** An ignore list that names none of the fields of clazz has the same
      effect as the initial, empty one. */
  lemma IgnoreListWithoutFieldNames(hooks: Hooks, ignore: seq<string>, clazz: ClassDescriptor)
    requires forall j :: 0 <= j < |clazz.publicFields| ==> clazz.publicFields[j].name !in ignore
    ensures ValidateField(hooks, ignore, clazz) == ValidateField(hooks, [], clazz)
  {
    assert FieldChecks(hooks, ignore, clazz) == FieldChecks(hooks, [], clazz);
  }

  /** The result depends on the plug-ins only through what they say about
      the fields of clazz. */
  lemma HooksAgreeingOnFields(h1: Hooks, h2: Hooks, ignore: seq<string>, clazz: ClassDescriptor)
    requires forall j :: 0 <= j < |clazz.publicFields| ==>
               h1.isTargetField(clazz.publicFields[j]) == h2.isTargetField(clazz.publicFields[j]) &&
               h1.validateFieldType(clazz.publicFields[j]) == h2.validateFieldType(clazz.publicFields[j])
    ensures ValidateField(h1, ignore, clazz) == ValidateField(h2, ignore, clazz)
  {
    assert FieldChecks(h1, ignore, clazz) == FieldChecks(h2, ignore, clazz);
  }

  /** When no class or field name contains a line break, the joined error
      message splits back into exactly the list of error messages. */
  lemma JoinedMessageSplitsBack(hooks: Hooks, ignore: seq<string>, clazz: ClassDescriptor)
    requires '\n' !in clazz.name
    requires forall j :: 0 <= j < |clazz.publicFields| ==> '\n' !in clazz.publicFields[j].name
    requires ValidateField(hooks, ignore, clazz) != []
    ensures Split(Join("\n", ValidateField(hooks, ignore, clazz)), '\n') == ValidateField(hooks, ignore, clazz)
  {
    var r := ValidateField(hooks, ignore, clazz);
    var idx := ViolatingFieldIndices(hooks, ignore, clazz);
    ValidateFieldExact(hooks, ignore, clazz);
    forall k | 0 <= k < |r| ensures '\n' !in r[k] {
      var name := clazz.publicFields[idx[k]].name;
      assert r[k] == clazz.name + "." + name;
    }
    SplitJoin(r, '\n');
  }

  /** One handle request per class of the list, in order, all for srcFile. */
  ghost function Visits(srcFile: SourceFile, classes: seq<ClassDescriptor>): seq<(SourceFile, ClassDescriptor)>
  {
    seq(|classes|, i requires 0 <= i < |classes| => (srcFile, classes[i]))
  }

  /** A field-type police: its plug-in checks, its configuration and a log
      of the classes it has handed on to the inherited handle step. */
  class FieldTypePolice {
    const hooks: Hooks
    /** Class suffixes to look at; no list until one is set. */
    var targetClassSuffixList: Option<seq<string>>
    /** Names of fields never reported. */
    var ignoreFieldNameList: seq<string>
    /** Every (file, class) pair passed to Handle so far, oldest first. */
    ghost var handled: seq<(SourceFile, ClassDescriptor)>

    constructor (hooks: Hooks)
      ensures this.hooks == hooks
      ensures targetClassSuffixList == None && ignoreFieldNameList == [] && handled == []
    {
      this.hooks := hooks;
      targetClassSuffixList := None;
      ignoreFieldNameList := [];
      handled := [];
    }

    /** Replaces the ignore list wholesale and returns this police. */
    method SetIgnoreFieldName(fieldName: seq<string>) returns (self: FieldTypePolice)
      modifies this`ignoreFieldNameList
      ensures self == this && ignoreFieldNameList == fieldName
      ensures targetClassSuffixList == old(targetClassSuffixList) && handled == old(handled)
    {
      ignoreFieldNameList := fieldName;
      return this;
    }

    /** Replaces the target suffix list wholesale and returns this police. */
    method SetTargetClassSuffix(suffixArray: seq<string>) returns (self: FieldTypePolice)
      modifies this`targetClassSuffixList
      ensures self == this && targetClassSuffixList == Some(suffixArray)
      ensures ignoreFieldNameList == old(ignoreFieldNameList) && handled == old(handled)
    {
      targetClassSuffixList := Some(suffixArray);
      return this;
    }

    /** The inherited handle step, whose work lies outside this rule; here it
        only records that clazz from srcFile was handed to it. */
    method Handle(srcFile: SourceFile, clazz: ClassDescriptor)
      modifies this`handled
      ensures handled == old(handled) + [(srcFile, clazz)]
    {
      handled := handled + [(srcFile, clazz)];
    }

    /** Checks clazz. If it has error messages they are returned joined by line
        breaks and no inner class is handled; otherwise every declared inner
        class is handed to Handle once, in declaration order, and nothing is
        returned. */
    method Validate(srcFile: SourceFile, clazz: ClassDescriptor) returns (r: Option<string>)
      modifies this`handled
      ensures var errors := ValidateField(hooks, ignoreFieldNameList, clazz);
              if errors != [] then r == Some(Join("\n", errors)) && handled == old(handled)
              else r == None && handled == old(handled) + Visits(srcFile, clazz.declaredClasses)
    {
      var errors := ValidateField(hooks, ignoreFieldNameList, clazz);
      if errors != [] {
        return Some(Join("\n", errors));
      }
      var inner := clazz.declaredClasses;
      for i := 0 to |inner|
        invariant handled == old(handled) + Visits(srcFile, inner[..i])
      {
        Handle(srcFile, inner[i]);
        assert Visits(srcFile, inner[..i + 1]) == Visits(srcFile, inner[..i]) + [(srcFile, inner[i])];
      }
      assert inner[..|inner|] == inner;
      return None;
    }
  }
}
