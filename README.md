# Field-type police

A model of `AbstractFiledTypePolice`, the base of the police rules that check
the declared types of the public fields of data classes (forms, content
results, parts). A concrete rule supplies two checks: `isTargetField` (is this
field looked at at all) and `validateFieldType` (is its type acceptable). The
base class does the rest:

- `validateField` maps every public field, in declaration order, to the
  message `"<class name>.<field name>"` when the field is a target field, its
  name is not on the ignore list and its type check fails, and drops the
  other fields;
- `validate` returns those messages joined by line breaks when there are any;
  otherwise it hands every declared inner class, in order, to the inherited
  `handle` step and returns nothing;
- two fluent setters replace the ignore list and the target suffix list
  wholesale and return the police itself.

Files:

- `options.dfy` (module `Options`): `Option`, the filter that keeps present
  values (`Somes`) and the positions it keeps (`SomeIndices`).
- `text.dfy` (module `Text`): `Join` (Java's `String.join`) and `Split`, which
  undoes `Join` for a one-character separator on non-empty lists whose
  elements do not contain that separator.
- `police.dfy` (module `Police`): field and class descriptors, the plug-in
  checks as the `Hooks` datatype, `ValidateField` with its lemmas, and the
  class `FieldTypePolice` with its configuration, its setters, `Handle` and
  `Validate`.
- `scenarios.dfy` (module `Scenarios`): concrete uses of the class.

Reflection is replaced by descriptors: a `ClassDescriptor` holds the class
name, its public fields (name and declared type) in order, and its declared
inner classes in order. The source file is an opaque `SourceFile` label.
The plug-in checks are total functions fixed when the police is built (they
stand for a concrete subclass). The inherited `handle` step is modelled by
`Handle`, which only appends the (file, class) pair to the ghost log
`handled`; that log is how the visit order of `Validate` is stated.

The `return` at `AbstractFiledTypePolice.java:59` comes before the loop at
line 63, so a class with violations hands none of its inner classes on, and
`Validate` is proved to leave `handled` unchanged then.

In the Java code `targetClassSuffixList` has no initializer, and nothing in
this file assigns it except `setTargetClassSuffix` (the field is `protected`,
so a subclass could assign it too). The model starts it as `None`.
`defaultTargetClassSuffixList` is kept as a constant, but nothing in this file
reads it.

## Model

| member | source | states |
|---|---|---|
| `Options.Somes` | police-stories-lastaflute/src/test/java/org/docksidestage/unit/police/base/AbstractFiledTypePolice.java:77 | Filtering out the absent values never gives a longer list than the input. |
| `Options.SomeIndices` | police-stories-lastaflute/src/test/java/org/docksidestage/unit/police/base/AbstractFiledTypePolice.java:74-77 | The positions at or after `from` that hold a present value, strictly increasing, and every such position is listed. |
| `Options.SomesAtIndices` | police-stories-lastaflute/src/test/java/org/docksidestage/unit/police/base/AbstractFiledTypePolice.java:74-77 | The filtered list has one element per kept position, and its k-th element is the value at the k-th kept position. So the filter keeps a subsequence in input order. |
| `Text.SplitJoin` | police-stories-lastaflute/src/test/java/org/docksidestage/unit/police/base/AbstractFiledTypePolice.java:59 | If no element contains the separator character, splitting the joined non-empty list gives back exactly that list. |
| `Text.Join` | police-stories-lastaflute/src/test/java/org/docksidestage/unit/police/base/AbstractFiledTypePolice.java:59 | A non-empty list joins to a string that starts with the first element and whose length is the sum of the elements' lengths plus one separator between each two neighbours; the empty list joins to the empty string. |
| `Police.FieldMessage` | police-stories-lastaflute/src/test/java/org/docksidestage/unit/police/base/AbstractFiledTypePolice.java:76 | The message is the class name, then a `.`, then the field name, and nothing else. |
| `Police.ValidateField` | police-stories-lastaflute/src/test/java/org/docksidestage/unit/police/base/AbstractFiledTypePolice.java:71-78 | There are never more error messages than public fields. |
| `Police.FieldMessageInjective` | police-stories-lastaflute/src/test/java/org/docksidestage/unit/police/base/AbstractFiledTypePolice.java:76 | Two `"%s.%s"` messages for the same class are equal only when the field names are equal. |
| `Police.ValidateFieldExact` | police-stories-lastaflute/src/test/java/org/docksidestage/unit/police/base/AbstractFiledTypePolice.java:72-77 | The result has one message per violating field, in strictly increasing field order. A field position is kept iff the field is a target field, its name is not ignored and its type check fails. The k-th message is `"<class>.<name>"` of the k-th kept field. |
| `Police.ReportedIff` | police-stories-lastaflute/src/test/java/org/docksidestage/unit/police/base/AbstractFiledTypePolice.java:75-76 | `"C.f"` is in the result iff some public field named `f` is a target field, is not ignored and fails its type check. |
| `Police.OutOfScopeFieldNeverReported` | police-stories-lastaflute/src/test/java/org/docksidestage/unit/police/base/AbstractFiledTypePolice.java:75 | A field whose name is ignored, or that is not a target field, is never among the reported positions, whatever its type. |
| `Police.OutOfScopeNameNeverReported` | police-stories-lastaflute/src/test/java/org/docksidestage/unit/police/base/AbstractFiledTypePolice.java:75 | An ignored name never appears as a message, and neither does a name none of whose fields is a target field. |
| `Police.EmptyIgnoreListUsesOnlyHooks` | police-stories-lastaflute/src/test/java/org/docksidestage/unit/police/base/AbstractFiledTypePolice.java:75 | With the empty ignore list (the initial one, line 41), a field is reported iff `isTargetField` holds and `validateFieldType` fails. |
| `Police.IgnoreListWithoutFieldNames` | police-stories-lastaflute/src/test/java/org/docksidestage/unit/police/base/AbstractFiledTypePolice.java:75 | An ignore list that names none of the class's fields gives the same result as the empty one. |
| `Police.HooksAgreeingOnFields` | police-stories-lastaflute/src/test/java/org/docksidestage/unit/police/base/AbstractFiledTypePolice.java:83-85 | Two rules whose checks agree on the class's fields give the same result, so the result depends on the checks only through those fields. |
| `Police.JoinedMessageSplitsBack` | police-stories-lastaflute/src/test/java/org/docksidestage/unit/police/base/AbstractFiledTypePolice.java:57-59 | If no class or field name contains a line break, the joined error message splits back into exactly the list of error messages. |
| `Police.FieldTypePolice.constructor` | police-stories-lastaflute/src/test/java/org/docksidestage/unit/police/base/AbstractFiledTypePolice.java:40-41 | A new police has no suffix list, an empty ignore list and an empty handle log. |
| `Police.FieldTypePolice.SetIgnoreFieldName` | police-stories-lastaflute/src/test/java/org/docksidestage/unit/police/base/AbstractFiledTypePolice.java:46-50 | The ignore list becomes exactly the argument. The suffix list and the log are unchanged. The police itself is returned. |
| `Police.FieldTypePolice.SetTargetClassSuffix` | police-stories-lastaflute/src/test/java/org/docksidestage/unit/police/base/AbstractFiledTypePolice.java:87-90 | The suffix list becomes exactly the argument. The ignore list and the log are unchanged. The police itself is returned. |
| `Police.FieldTypePolice.Handle` | police-stories-lastaflute/src/test/java/org/docksidestage/unit/police/base/AbstractFiledTypePolice.java:64 | Each call appends its (file, class) pair to the log, and nothing else changes. |
| `Police.FieldTypePolice.Validate` | police-stories-lastaflute/src/test/java/org/docksidestage/unit/police/base/AbstractFiledTypePolice.java:56-68 | With error messages, it returns them joined by `"\n"` and handles no inner class. Without them, it returns nothing and handles each declared inner class exactly once, in declaration order. |
| `Scenarios.ViolatingFieldReported` | police-stories-lastaflute/src/test/java/org/docksidestage/unit/police/base/AbstractFiledTypePolice.java:57-59 | A form with one `int` field, under a rule that rejects `int`, is reported as `"com.example.UserForm.age"`. |
| `Scenarios.IgnoredFieldPasses` | police-stories-lastaflute/src/test/java/org/docksidestage/unit/police/base/AbstractFiledTypePolice.java:46-50 | The same kind of field passes once its name has been set as ignored. |
| `Scenarios.InnerClassHandedOn` | police-stories-lastaflute/src/test/java/org/docksidestage/unit/police/base/AbstractFiledTypePolice.java:58-65 | A clean outer class passes and hands its inner class on. An outer class with a violation is reported and hands nothing on. |

## Left out

- Reflection (`DfReflectionUtil.getPublicFieldList`, `Class.getDeclaredClasses`, `Field`, `Class.getName`): replaced by the descriptor datatypes. Which fields count as public and how names are formed is decided before the model runs.
- `java.io.File`: an opaque label that is only passed on to `handle`.
- The superclass `AbstractJavaPolice` is not part of this model. So `handle` is only logged and not run: the model assumes it returns normally and leaves the configuration (ignore list, suffix list) alone. An exception thrown from `handle` would end the loop at lines 63-65 early, and a `handle` that changed the configuration would not be captured; `Validate`'s "each declared inner class exactly once" rests on that assumption. Whether it validates the inner class again, and how it picks classes by suffix, is not modelled. The suffix list is kept as plain state with no meaning attached, so a class that fails the suffix match is not modelled either.
- The concrete `isTargetField` and `validateFieldType` of the subclasses: they are free function parameters.
- `String.format` beyond the `"%s.%s"` concatenation, and Java collection internals. In Java, `Arrays.asList` makes a fixed-size view of the varargs array. The model copies the values instead, so aliasing with the caller's array is not captured. A `null` varargs argument is not modelled either.
- Java strings are sequences of UTF-16 code units; the model's `string` is a sequence of Dafny characters.
