# OpenRewrite core, modelled in Dafny

This project models the sequential logic at the heart of OpenRewrite's Java, Maven and YAML tooling. It proves properties of that logic.

- **Type model and type registry.** JavaType's type descriptors are flyweights, interned in static tables.
  - Primitives keep their keywords.
  - Classes are kept in a name → variants table with a relaxed and an exact lookup path.
  - Parameterized types are canonicalised through an identity trie.
  - Variables and methods are interned through buckets and a deep-equality scan.
  - Also modelled: the package/class name split, `isAssignableFrom`, supertype-member flattening and `clearCaches`.
  - Descriptors live in an arena: a reference is an index, so object identity is index equality. The tables are the fields of a `Registry` class.
- **Indentation engine.** This is TabsAndIndentsVisitor's whitespace arithmetic:
  - column width with tab expansion, and `shift`;
  - `indentTo` and the text branch of `indentComment`;
  - the indent type each node gives its children, and the `visitSpace` decision between ALIGN, INDENT and CONTINUATION_INDENT, made with the messages visitors leave on cursor frames.
- **Spacing rules.** SpacesVisitor's rule inserts one space into empty whitespace or removes a single space, and leaves everything else alone. The model covers this rule and how it is applied across parameter, argument, initializer and `for` lists, the binary-operator categories, unary operators and member references.
- **Stop-after.** Both formatting visitors stop once the stop-after tree has been visited.
- **Method patterns.** This is MethodMatcher, with AspectJ-style method and type patterns:
  - the patterns built from a resolved method;
  - the argument regex assembled from `..` and formal types, and the AspectJ name rewriting;
  - the supertype and interface walk;
  - the guards that make `matches` false.

  Regex matching itself is a parameter.
- **Template placeholders.** This is JavaTemplate's Substitutions: `#{any(..)}` / `#{anyArray(..)}` placeholders become typed placeholder expressions marked with `/*__p<n>__*/` comments, and those markers are read back.
- **Small algorithms:**
  - the Maven project topological sort;
  - the MissingOverrideAnnotation override search and its guards;
  - the DeleteKey YAML mapping filter with its prefix handoff;
  - the UsesJavaVersion range search.

The model is built from these files:

| file | module | models |
|---|---|---|
| wrappers.dfy, strings.dfy, numbers.dfy | Wrappers, Strings, Numbers | Option, string helpers and Java `int` helpers |
| java_types.dfy | JavaTypes | type descriptors, Lombok equality, deep equality and the pure queries |
| type_registry.dfy | TypeRegistry | the flyweight tables as a class, with the `build` operations |
| formatting.dfy | Formatting | spaces, comments, the cursor with its message bags, and stop-after |
| tabs_indents.dfy | TabsAndIndents | the indentation engine |
| spaces.dfy | Spaces | the spacing rules |
| method_matcher.dfy | MethodMatching | the method matcher |
| substitutions.dfy | JavaTemplates | placeholder substitution and its markers |
| maven_sort.dfy | MavenSort | the project sort |
| missing_override.dfy | MissingOverride | the override search and its guards |
| delete_key.dfy | DeleteKey | the mapping filter |
| java_version.dfy | JavaVersions | the version-range search |

The code's branches, constants and error cases are kept, with one exception: where a row under "## Findings" records a bug, the code as written is modelled and shown to misbehave, and the operations built on it use the corrected definition ("## Left out" names them). Where the code throws, the model returns `None` or an `Err`, or states the case as a precondition. In the type registry, iteration of a `HashMap` or `HashSet` is taken as insertion order; the Maven sort instead takes any ready project, as a hash order may. Where Java `int` arithmetic matters, it is written out: `/` and `%` truncate toward zero, and `Integer.MAX_VALUE` is an explicit bound.

## Model

| member | source | states |
|---|---|---|
| JavaTypes.Keyword | rewrite-java/src/main/java/org/openrewrite/java/tree/JavaType.java:1127-1189 | getKeyword is inverted by fromKeyword for every primitive |
| JavaTypes.FromKeywordInverse | rewrite-java/src/main/java/org/openrewrite/java/tree/JavaType.java:1127-1189 | fromKeyword finds a primitive exactly for the keywords getKeyword produces, and returns null for every other text |
| JavaTypes.Ordinal | rewrite-java/src/main/java/org/openrewrite/java/tree/JavaType.java:1111-1124 | each primitive has its own place among the thirteen enum constants |
| JavaTypes.InitialArena | rewrite-java/src/main/java/org/openrewrite/java/tree/JavaType.java:1111-1124 | before any build, the objects are the thirteen primitives and Class.OBJECT, and they are well formed (see also line 222) |
| JavaTypes.PrimitiveRefs | rewrite-java/src/main/java/org/openrewrite/java/tree/JavaType.java:1111-1124 | each primitive is the object at its ordinal |
| JavaTypes.FQAboveObject | rewrite-java/src/main/java/org/openrewrite/java/tree/JavaType.java:222 | every fully-qualified type is Class.OBJECT or was created after it |
| JavaTypes.AppendWellFormed | rewrite-java/src/main/java/org/openrewrite/java/tree/JavaType.java:240-258 | creating an object that refers only to existing objects of the right kinds keeps the object graph well formed |
| JavaTypes.TypedExtends | rewrite-java/src/main/java/org/openrewrite/java/tree/JavaType.java:240-258 | an object's references stay correctly typed as more objects are created |
| JavaTypes.DeepEqListRefl | rewrite-java/src/main/java/org/openrewrite/java/tree/JavaType.java:524-527 | a list of references is deep-equal to itself |
| JavaTypes.DeepEqDescRefl | rewrite-java/src/main/java/org/openrewrite/java/tree/JavaType.java:516-528 | every object is deep-equal to itself, except an array with a null element type (see also lines 71-74, 206-209, 672-680, 751-753, 839-850, 993-1006, 1085-1093, 1106-1108, 1192-1194) |
| JavaTypes.MethodDeepEqualsIgnoresName | rewrite-java/src/main/java/org/openrewrite/java/tree/JavaType.java:993-1006 | Method.deepEquals does not compare the method names |
| JavaTypes.DeepEqRefExtends | rewrite-java/src/main/java/org/openrewrite/java/tree/JavaType.java:516-528 | deepEquals of existing objects does not change when new objects are created |
| JavaTypes.DeepEqOptExtends | rewrite-java/src/main/java/org/openrewrite/java/tree/JavaType.java:526 | deepEquals of two optional references does not change when new objects are created |
| JavaTypes.DeepEqListExtends | rewrite-java/src/main/java/org/openrewrite/java/tree/JavaType.java:524-527 | deepEquals of two lists does not change when new objects are created |
| JavaTypes.DeepEqSigExtends | rewrite-java/src/main/java/org/openrewrite/java/tree/JavaType.java:926-930 | signatureDeepEquals does not change when new objects are created |
| JavaTypes.DeepEqDescExtends | rewrite-java/src/main/java/org/openrewrite/java/tree/JavaType.java:516-528 | deepEquals of two objects does not change when new objects are created (see also lines 71-74, 206-209, 672-680, 751-753, 839-850, 993-1006, 1085-1093, 1106-1108, 1192-1194) |
| JavaTypes.DeepEqListBounds | rewrite-java/src/main/java/org/openrewrite/java/tree/JavaType.java:524-527 | the verdict on two lists depends only on their contents |
| JavaTypes.DeepEqSigBounds | rewrite-java/src/main/java/org/openrewrite/java/tree/JavaType.java:926-930 | the verdict on two signatures depends only on their contents |
| JavaTypes.DeepEqDescBounds | rewrite-java/src/main/java/org/openrewrite/java/tree/JavaType.java:516-528 | the verdict on two objects depends only on their contents (see also lines 993-1006) |
| JavaTypes.JEqRefExtends | rewrite-java/src/main/java/org/openrewrite/java/tree/JavaType.java:138-139 | Lombok-generated equals of existing objects does not change when new objects are created (see also lines 543-545, 683-685, 763-764, 1017-1019, 1096-1097) |
| JavaTypes.JEqDescExtends | rewrite-java/src/main/java/org/openrewrite/java/tree/JavaType.java:138-139 | the same for two object descriptions (see also lines 543-545, 683-685, 763-764, 1017-1019, 1096-1097) |
| JavaTypes.JEqOptExtends | rewrite-java/src/main/java/org/openrewrite/java/tree/JavaType.java:1022-1024 | the same for optional references |
| JavaTypes.JEqListExtends | rewrite-java/src/main/java/org/openrewrite/java/tree/JavaType.java:581 | the same for lists of references (see also lines 763-774) |
| JavaTypes.HasFlagsAsWritten | rewrite-java/src/main/java/org/openrewrite/java/tree/JavaType.java:627-630 | as written, a parameterized type over a shallow class never has the flags asked for (see also lines 166-168, 310-312, 711-713, 809-811, 932-934, 1045-1047) |
| JavaTypes.HasFlags | rewrite-java/src/main/java/org/openrewrite/java/tree/JavaType.java:627-630 | a parameterized type answers as its raw type does; a shallow or cyclic class has exactly the single flag Public; a class, variable or method has every flag asked for in its flag set (see also lines 166-168, 310-312, 711-713, 809-811, 932-934, 1045-1047) |
| JavaTypes.ParameterizedHasFlagsDropsTest | rewrite-java/src/main/java/org/openrewrite/java/tree/JavaType.java:627-630 | `List` as a shallow class is Public, but `List<>` built over it is not, as written |
| JavaTypes.Supertype | rewrite-java/src/main/java/org/openrewrite/java/tree/JavaType.java:101 | a supertype is an earlier fully-qualified type; a class gives its own, shallow and cyclic classes give Class.OBJECT, types that are not fully qualified none (see also lines 196-198, 296-299, 662-664, 741-743, 1075-1077) |
| JavaTypes.Interfaces | rewrite-java/src/main/java/org/openrewrite/java/tree/JavaType.java:89 | interfaces are earlier fully-qualified types; a class gives its own, and only classes, parameterized types and type variables have any (see also lines 176-178, 637-640, 721-723, 1055-1057) |
| JavaTypes.Members | rewrite-java/src/main/java/org/openrewrite/java/tree/JavaType.java:93 | members are earlier objects; a class gives its own, shallow and cyclic classes none (see also lines 181-183, 647-650, 726-728, 1060-1062) |
| JavaTypes.Methods | rewrite-java/src/main/java/org/openrewrite/java/tree/JavaType.java:95 | methods are earlier objects; a class gives its own, shallow and cyclic classes none (see also lines 186-188, 652-655, 731-733, 1065-1067) |
| JavaTypes.OwningClass | rewrite-java/src/main/java/org/openrewrite/java/tree/JavaType.java:98 | an owning class is an earlier object, and only classes, parameterized types and type variables have one (see also lines 191-193, 657-660, 736-738, 1070-1072) |
| JavaTypes.Annotations | rewrite-java/src/main/java/org/openrewrite/java/tree/JavaType.java:83 | annotations are earlier objects; shallow and cyclic classes have none (see also lines 161-163, 622-625, 706-708, 1035-1037) |
| JavaTypes.NonPrivate | rewrite-java/src/main/java/org/openrewrite/java/tree/JavaType.java:505-509 | the kept members are exactly the non-private ones |
| JavaTypes.VisibleSupertypeMembers | rewrite-java/src/main/java/org/openrewrite/java/tree/JavaType.java:502-513 | only non-private members are collected; the immediate supertype's non-private members are among them; no supertype, a shallow or a cyclic class gives none; with VisibleMembersFromChain and ChainMembersVisible, a member is collected exactly when it is a non-private member of a type on the supertype chain (see also lines 201-203, 667-669, 746-748, 1080-1082) |
| JavaTypes.NonPrivateSnoc | rewrite-java/src/main/java/org/openrewrite/java/tree/JavaType.java:505-509 | the filter loop handles one more member by keeping it exactly when it is not private |
| JavaTypes.CollectNonPrivate | rewrite-java/src/main/java/org/openrewrite/java/tree/JavaType.java:503-509 | the loop over the supertype's members keeps the non-private ones in order |
| JavaTypes.CollectVisibleSupertypeMembers | rewrite-java/src/main/java/org/openrewrite/java/tree/JavaType.java:502-513 | the method computes the visible supertype members |
| JavaTypes.VisibleMembersFromChain | rewrite-java/src/main/java/org/openrewrite/java/tree/JavaType.java:502-513 | every visible supertype member is a member of some type on the supertype chain |
| JavaTypes.ChainMembers | rewrite-java/src/main/java/org/openrewrite/java/tree/JavaType.java:502-513 | the same holds for parameterized types and type variables, which answer through their raw type or bound (see also lines 667-669, 1080-1082) |
| JavaTypes.ChainMembersVisible | rewrite-java/src/main/java/org/openrewrite/java/tree/JavaType.java:502-513 | every non-private member of every type on the supertype chain, however far up, is among the visible supertype members (see also lines 667-669, 1080-1082) |
| JavaTypes.NamedInUnion | rewrite-java/src/main/java/org/openrewrite/java/tree/JavaType.java:128 | a name occurs in a union of types exactly when it occurs in one part |
| JavaTypes.IsAssignableFromAncestry | rewrite-java/src/main/java/org/openrewrite/java/tree/JavaType.java:125-131 | isAssignableFrom holds exactly when this type is Class.OBJECT or a type reachable from the argument through supertypes and interfaces has this type's name |
| JavaTypes.AnyAssignableAncestry | rewrite-java/src/main/java/org/openrewrite/java/tree/JavaType.java:130 | the interface test succeeds exactly when the list is not empty and the same holds for some interface's ancestry |
| JavaTypes.ClassSegments | rewrite-java/src/main/java/org/openrewrite/java/tree/JavaType.java:105-113 | getClassName drops the leading segments that start with a lower-case letter and keeps all that follow; an empty segment there makes the source throw |
| JavaTypes.PackageSegments | rewrite-java/src/main/java/org/openrewrite/java/tree/JavaType.java:115-123 | getPackageName keeps the leading segments that do not start with an upper-case letter and stops at the first that does; an empty segment there makes the source throw |
| JavaTypes.PackageThenClassSegments | rewrite-java/src/main/java/org/openrewrite/java/tree/JavaType.java:105-123 | when every segment starts with a letter, the package and class segments split the name in two |
| JavaTypes.SplitPoint | rewrite-java/src/main/java/org/openrewrite/java/tree/JavaType.java:109-119 | for letter-led segments the first upper-case segment and the first non-lower-case segment coincide |
| JavaTypes.SegmentInBothNames | rewrite-java/src/main/java/org/openrewrite/java/tree/JavaType.java:105-123 | a worked example: `a._b.C` gives package `a._b` and class `_b.C`, so its `_b` segment, led by neither case, belongs to both |
| JavaTypes.FirstClassFromSpec | rewrite-java/src/main/java/org/openrewrite/java/tree/JavaType.java:347-356 | the scan from a position finds the first class-name start there, and 0 when there is none |
| JavaTypes.FirstClassNameIndexSpec | rewrite-java/src/main/java/org/openrewrite/java/tree/JavaType.java:343-356 | firstClassNameIndex is the first upper-case letter after a dot, and 0 when there is none |
| JavaTypes.FirstClassNameIndexUnique | rewrite-java/src/main/java/org/openrewrite/java/tree/JavaType.java:343-356 | those two facts pin firstClassNameIndex down |
| JavaTypes.OwnerName | rewrite-java/src/main/java/org/openrewrite/java/tree/JavaType.java:358-360 | an owning class name is the prefix before the last dot |
| JavaTypes.OwnerNameWhenDotAfterClass | rewrite-java/src/main/java/org/openrewrite/java/tree/JavaType.java:358-360 | an owning class is derived exactly when a dot follows the first class-name start |
| JavaTypes.ScanClassName | rewrite-java/src/main/java/org/openrewrite/java/tree/JavaType.java:343-356 | the loop computes firstClassNameIndex and lastDot |
| TypeRegistry.NameLeTotal | rewrite-java/src/main/java/org/openrewrite/java/tree/JavaType.java:494 | the String.compareTo order on member names, which compares UTF-16 code units, is total |
| TypeRegistry.NameLeTrans | rewrite-java/src/main/java/org/openrewrite/java/tree/JavaType.java:494 | the name order is transitive |
| TypeRegistry.CodeUnits | rewrite-java/src/main/java/org/openrewrite/java/tree/JavaType.java:494 | a character is one UTF-16 code unit, or two (its surrogate pair) above the Basic Multilingual Plane, each below 0x10000 |
| TypeRegistry.UnitsLeTotal | rewrite-java/src/main/java/org/openrewrite/java/tree/JavaType.java:494 | the lexicographic order on code units, a proper prefix first, is total |
| TypeRegistry.UnitsLeTrans | rewrite-java/src/main/java/org/openrewrite/java/tree/JavaType.java:494 | the code-unit order is transitive |
| TypeRegistry.InsertByName | rewrite-java/src/main/java/org/openrewrite/java/tree/JavaType.java:494 | inserting a member adds exactly that member |
| TypeRegistry.InsertByNameSorted | rewrite-java/src/main/java/org/openrewrite/java/tree/JavaType.java:494 | inserting into a name-sorted list keeps it sorted |
| TypeRegistry.SortByName | rewrite-java/src/main/java/org/openrewrite/java/tree/JavaType.java:494 | sorting the members is a permutation of them |
| TypeRegistry.SortByNameSorted | rewrite-java/src/main/java/org/openrewrite/java/tree/JavaType.java:494 | the sorted members are in name order |
| TypeRegistry.DropSerialPersistentFieldsShape | rewrite-java/src/main/java/org/openrewrite/java/tree/JavaType.java:485-490 | the filter removes every member named serialPersistentFields, keeps every other member, and adds nothing |
| TypeRegistry.StoredMembers | rewrite-java/src/main/java/org/openrewrite/java/tree/JavaType.java:479-497 | the members stored with a class come from the given members |
| TypeRegistry.StoredMembersSorted | rewrite-java/src/main/java/org/openrewrite/java/tree/JavaType.java:479-497 | the stored members are sorted by name |
| TypeRegistry.StoredMembersPermutation | rewrite-java/src/main/java/org/openrewrite/java/tree/JavaType.java:479-497 | for any class but java.lang.String the stored members are a permutation of the given ones |
| TypeRegistry.StringMembersDropSerialPersistentFields | rewrite-java/src/main/java/org/openrewrite/java/tree/JavaType.java:481-490 | java.lang.String keeps every member except serialPersistentFields |
| TypeRegistry.DropSerialPersistentFieldsLoop | rewrite-java/src/main/java/org/openrewrite/java/tree/JavaType.java:485-490 | the loop computes the filtered members |
| TypeRegistry.SortByNameLoop | rewrite-java/src/main/java/org/openrewrite/java/tree/JavaType.java:494 | the sort step computes the name-sorted members |
| TypeRegistry.SortMembers | rewrite-java/src/main/java/org/openrewrite/java/tree/JavaType.java:479-497 | buildCandidate's member handling computes the stored members |
| TypeRegistry.EmptyTrieFind | rewrite-java/src/main/java/org/openrewrite/java/tree/JavaType.java:556-578 | an empty trie finds nothing |
| TypeRegistry.TrieFindStore | rewrite-java/src/main/java/org/openrewrite/java/tree/JavaType.java:555-575 | storing a type along a path makes that path find it and leaves every other path as it was |
| TypeRegistry.TriePathInjective | rewrite-java/src/main/java/org/openrewrite/java/tree/JavaType.java:555-575 | two raw types with parameters share a trie path exactly when both are the same |
| TypeRegistry.FirstDeepEqual | rewrite-java/src/main/java/org/openrewrite/java/tree/JavaType.java:448-452 | the scan finds the first variant deep-equal to the candidate, and none exactly when no variant is (see also lines 798-802, 905-909) |
| TypeRegistry.ScanDeepEqual | rewrite-java/src/main/java/org/openrewrite/java/tree/JavaType.java:448-452 | the loop over the variants finds the first deep-equal one (see also lines 798-802, 905-909) |
| TypeRegistry.FirstDeepEqualAfterAdd | rewrite-java/src/main/java/org/openrewrite/java/tree/JavaType.java:804 | after a failed scan adds the candidate, the next scan finds it at the end (see also line 911) |
| TypeRegistry.Interned | rewrite-java/src/main/java/org/openrewrite/java/tree/JavaType.java:798-802 | an interned object comes from the bucket and is deep-equal to the one asked for (see also lines 905-909) |
| TypeRegistry.VariableBucket | rewrite-java/src/main/java/org/openrewrite/java/tree/JavaType.java:794-796 | the variable bucket holds registered variables with the given name whose types are equal as map keys |
| TypeRegistry.MethodBucket | rewrite-java/src/main/java/org/openrewrite/java/tree/JavaType.java:901-903 | the method bucket holds registered methods with the given name whose declaring types are equal as map keys |
| TypeRegistry.VariableBucketAfterAdd | rewrite-java/src/main/java/org/openrewrite/java/tree/JavaType.java:804 | registering a variable appends it to its own bucket |
| TypeRegistry.MethodBucketAfterAdd | rewrite-java/src/main/java/org/openrewrite/java/tree/JavaType.java:911 | registering a method appends it to its own bucket |
| TypeRegistry.InternedAfterVariableAdd | rewrite-java/src/main/java/org/openrewrite/java/tree/JavaType.java:789-806 | a variable just registered is what the next build of an equal variable returns |
| TypeRegistry.InternedAfterMethodAdd | rewrite-java/src/main/java/org/openrewrite/java/tree/JavaType.java:895-913 | a method just registered is what the next build of an equal method returns |
| TypeRegistry.Candidate | rewrite-java/src/main/java/org/openrewrite/java/tree/JavaType.java:470-500 | the candidate is a class with the given name that refers only to existing objects of the right kinds |
| TypeRegistry.ExactReuse | rewrite-java/src/main/java/org/openrewrite/java/tree/JavaType.java:445-465 | a strict build reuses a variant that is deep-equal to the candidate, or the first variant when the candidate has no supertype and that variant has one; otherwise it adds the candidate |
| TypeRegistry.Registry.constructor | rewrite-java/src/main/java/org/openrewrite/java/tree/JavaType.java:220-222 | the registry starts with the initial objects, only Class.OBJECT under java.lang.Object, and no variables, methods or parameterized types (see also lines 555-558, 765, 855) |
| TypeRegistry.Registry.Find | rewrite-java/src/main/java/org/openrewrite/java/tree/JavaType.java:326-329 | find returns the first variant registered under the name, and null exactly when there is none |
| TypeRegistry.Registry.AddVariant | rewrite-java/src/main/java/org/openrewrite/java/tree/JavaType.java:440-464 | a new variant is created and registered last under its name, and no other table changes |
| TypeRegistry.Registry.BuildExact | rewrite-java/src/main/java/org/openrewrite/java/tree/JavaType.java:444-466 | a strict build returns the reused variant without creating anything, or creates and registers the candidate |
| TypeRegistry.Registry.BuildClass | rewrite-java/src/main/java/org/openrewrite/java/tree/JavaType.java:417-468 | the result is a class with the requested name registered under it; a relaxed build returns the first variant if there is one and otherwise creates the candidate; a strict build behaves as ExactReuse says |
| TypeRegistry.Registry.BuildClassByName | rewrite-java/src/main/java/org/openrewrite/java/tree/JavaType.java:340-365 | build(String) returns the first existing variant, or a new public class of kind Class with no members whose owning class, built first, is the class named before the last dot exactly when one is derived |
| TypeRegistry.Registry.BuildClassWithKind | rewrite-java/src/main/java/org/openrewrite/java/tree/JavaType.java:377-379 | build(String, Kind) returns the first existing variant, or registers a new public class of that kind without an owning class |
| TypeRegistry.Registry.BuildType | rewrite-java/src/main/java/org/openrewrite/java/tree/JavaType.java:52-59 | a primitive keyword gives the primitive object without creating anything; any other name gives a class of that name, the first variant when one exists |
| TypeRegistry.Registry.ParameterizedBuild | rewrite-java/src/main/java/org/openrewrite/java/tree/JavaType.java:550-586 | the parameterized type found along its trie path is returned; when the path holds none, a new one is created and stored there |
| TypeRegistry.Registry.AddVariable | rewrite-java/src/main/java/org/openrewrite/java/tree/JavaType.java:804-805 | a new variable is created; when it is to be kept it joins the registry and the next equal build returns it |
| TypeRegistry.Registry.VariableBuild | rewrite-java/src/main/java/org/openrewrite/java/tree/JavaType.java:789-807 | a deep-equal variable of the bucket is returned; otherwise the new variable is returned and registered unless a Lombok-equal one already blocks the set; when registered, the next equal build returns it |
| TypeRegistry.Registry.AddMethod | rewrite-java/src/main/java/org/openrewrite/java/tree/JavaType.java:911-912 | a new method is created and registered, and the next equal build returns it |
| TypeRegistry.Registry.MethodBuild | rewrite-java/src/main/java/org/openrewrite/java/tree/JavaType.java:895-914 | a deep-equal method of the bucket is returned; otherwise the new method is created and registered; either way the next equal build returns the result |
| TypeRegistry.Registry.ClearCaches | rewrite-java/src/main/java/org/openrewrite/java/tree/JavaType.java:37-44 | clearCaches empties the class, variable and method tables and the trie, and keeps every existing object |
| Formatting.NearestIndex | rewrite-java/src/main/java/org/openrewrite/java/format/TabsAndIndentsVisitor.java:121-130 | the frame found is the nearest one carrying the key: no frame before it carries it, and none at all when nothing is found |
| Formatting.NearestMessage | rewrite-java/src/main/java/org/openrewrite/java/format/TabsAndIndentsVisitor.java:130-133 | a message is found exactly when some frame of the chain carries the key, and it is that frame's message |
| Formatting.NearestMessagePush | rewrite-java/src/main/java/org/openrewrite/java/format/TabsAndIndentsVisitor.java:130 | messages placed on an ancestor stay visible to every element visited below it (see also line 625) |
| Formatting.FirstEnclosing | rewrite-java/src/main/java/org/openrewrite/java/format/TabsAndIndentsVisitor.java:617 | the frame found is the nearest one holding a node of the kind asked for, and none is found only when no frame holds one |
| Formatting.PutAt | rewrite-java/src/main/java/org/openrewrite/java/format/TabsAndIndentsVisitor.java:115 | putting a message changes only the message bag of the chosen frame, by that one key (see also lines 167-169) |
| Formatting.RemoveNearest | rewrite-java/src/main/java/org/openrewrite/java/format/TabsAndIndentsVisitor.java:121-122 | polling removes the key from the nearest frame carrying it and leaves every other frame as it was |
| Formatting.Cursor.constructor | rewrite-java/src/main/java/org/openrewrite/java/format/TabsAndIndentsVisitor.java:48-72 | a cursor starts on the given chain of frames |
| Formatting.Cursor.PutMessageAt | rewrite-java/src/main/java/org/openrewrite/java/format/TabsAndIndentsVisitor.java:115 | the message goes on the chosen frame and nothing else in the chain changes (see also lines 118, 167-169) |
| Formatting.Cursor.PollNearestMessage | rewrite-java/src/main/java/org/openrewrite/java/format/TabsAndIndentsVisitor.java:121-122 | returns the nearest message for the key and removes exactly that one |
| Formatting.Cursor.PutMessageOnFirstEnclosing | rewrite-java/src/main/java/org/openrewrite/java/format/TabsAndIndentsVisitor.java:617 | the message goes on the nearest enclosing frame of the kind, and the chain is unchanged when there is none |
| Formatting.PostVisit | rewrite-java/src/main/java/org/openrewrite/java/format/TabsAndIndentsVisitor.java:615-620 | only the stop-after tree itself puts the `stop` flag, and it puts it on the enclosing compilation unit's frame |
| Formatting.StopIsSticky | rewrite-java/src/main/java/org/openrewrite/java/format/TabsAndIndentsVisitor.java:615-629 | once the stop-after tree has been visited, every later visit within the same compilation unit returns its input unchanged |
| TabsAndIndents.WidthSnoc | rewrite-java/src/main/java/org/openrewrite/java/format/TabsAndIndentsVisitor.java:577-590 | each further character adds tabSize columns for a tab and one otherwise, and a line break or carriage return resets the width to 0 |
| TabsAndIndents.LastLineShape | rewrite-java/src/main/java/org/openrewrite/java/format/TabsAndIndentsVisitor.java:577-590 | the part of the whitespace that is measured is its tail after the last line break, and it holds no line break |
| TabsAndIndents.GetLengthOfWhitespace | rewrite-java/src/main/java/org/openrewrite/java/format/TabsAndIndentsVisitor.java:577-590 | null measures 0; otherwise the result is the width of the text after the last line break, tabs counting tabSize columns |
| TabsAndIndents.Shift | rewrite-java/src/main/java/org/openrewrite/java/format/TabsAndIndentsVisitor.java:539-570 | the builder ends up holding exactly the shifted text: tabs then spaces appended for a positive shift, characters cut off the end otherwise |
| TabsAndIndents.ShiftRightWidth | rewrite-java/src/main/java/org/openrewrite/java/format/TabsAndIndentsVisitor.java:551-558 | a positive shift moves the end of the text exactly `shift` columns to the right, with tabs or with spaces |
| TabsAndIndents.ShiftLeftCuts | rewrite-java/src/main/java/org/openrewrite/java/format/TabsAndIndentsVisitor.java:559-569 | a non-positive shift removes its magnitude in characters (that magnitude divided by tabSize with tabs) from the end, and leaves the text alone when it is shorter than that |
| TabsAndIndents.ShiftLeftWidth | rewrite-java/src/main/java/org/openrewrite/java/format/TabsAndIndentsVisitor.java:559-569 | without tabs, cutting trailing blanks moves the end of the text exactly that many columns to the left |
| TabsAndIndents.RealignLastLine | rewrite-java/src/main/java/org/openrewrite/java/format/TabsAndIndentsVisitor.java:398-403 | shifting a blank last line by the distance from its width to a column ends it at that column (see also lines 545-570) |
| TabsAndIndents.ReindentText | rewrite-java/src/main/java/org/openrewrite/java/format/TabsAndIndentsVisitor.java:464-496 | the re-indenting loops of indentComment compute the corrected re-indented text (up to `drop` blanks after each line break replaced by the margin) |
| TabsAndIndents.ReindentKeepsVisible | rewrite-java/src/main/java/org/openrewrite/java/format/TabsAndIndentsVisitor.java:480-496 | re-indenting with a blank margin changes only blanks: every other character of the comment survives, in order |
| TabsAndIndents.ReindentSingleLine | rewrite-java/src/main/java/org/openrewrite/java/format/TabsAndIndentsVisitor.java:454-456 | a comment text without a line break is left as it is |
| TabsAndIndents.ReindentReplacesMargin | rewrite-java/src/main/java/org/openrewrite/java/format/TabsAndIndentsVisitor.java:464-478 | when every line after a break starts with the old margin, re-indenting replaces each such margin by the new one |
| TabsAndIndents.SkipAsWritten | rewrite-java/src/main/java/org/openrewrite/java/format/TabsAndIndentsVisitor.java:488-490 | the blank-skipping loop as written stops inside the text, or fails when its probe passes the end |
| TabsAndIndents.DedentAsWrittenDropsText | rewrite-java/src/main/java/org/openrewrite/java/format/TabsAndIndentsVisitor.java:480-496 | moving "\n x y" two columns left with the loop as written drops the visible 'x'; the corrected loop keeps it |
| TabsAndIndents.DedentAsWrittenOverruns | rewrite-java/src/main/java/org/openrewrite/java/format/TabsAndIndentsVisitor.java:488 | on "\n " the loop as written reads past the end of the text, where the corrected loop gives "\n" |
| TabsAndIndents.RemarginAsWrittenLosesLineBreak | rewrite-java/src/main/java/org/openrewrite/java/format/TabsAndIndentsVisitor.java:464-478 | the positive-shift loop as written skips the margin's length of characters unseen and so swallows an empty line's line break |
| TabsAndIndents.IndentCommentSpec | rewrite-java/src/main/java/org/openrewrite/java/format/TabsAndIndentsVisitor.java:451-499 | the suffix and comment kind never change; a text comment with no line break, a single-line text comment and a zero shift leave the comment unchanged |
| TabsAndIndents.IndentComment | rewrite-java/src/main/java/org/openrewrite/java/format/TabsAndIndentsVisitor.java:451-499 | the comment re-indented by the distance from the prior suffix's margin width to the column |
| TabsAndIndents.IndentCommentKeepsText | rewrite-java/src/main/java/org/openrewrite/java/format/TabsAndIndentsVisitor.java:458-496 | with a blank margin, re-indenting a comment changes only blanks in its text |
| TabsAndIndents.Reindented | rewrite-java/src/main/java/org/openrewrite/java/format/TabsAndIndentsVisitor.java:424-435 | a comment is re-indented only when its prior suffix holds a line break or it leads a file or class header, and its suffix is untouched |
| TabsAndIndents.IndentToSpec | rewrite-java/src/main/java/org/openrewrite/java/format/TabsAndIndentsVisitor.java:388-396 | a space with no comments and no line break is returned unchanged outside the compilation-unit prefix |
| TabsAndIndents.CuReset | rewrite-java/src/main/java/org/openrewrite/java/format/TabsAndIndentsVisitor.java:392-393 | the compilation-unit reset clears only the whitespace and keeps the comments |
| TabsAndIndents.IndentToCommented | rewrite-java/src/main/java/org/openrewrite/java/format/TabsAndIndentsVisitor.java:392-444 | for a space with comments indentTo is its comment pass over the reset space |
| TabsAndIndents.IndentCommented | rewrite-java/src/main/java/org/openrewrite/java/format/TabsAndIndentsVisitor.java:405-444 | the comment pass keeps the number of comments |
| TabsAndIndents.AlignComments | rewrite-java/src/main/java/org/openrewrite/java/format/TabsAndIndentsVisitor.java:423-444 | the comment pass maps every comment, one result per comment |
| TabsAndIndents.IndentOneComment | rewrite-java/src/main/java/org/openrewrite/java/format/TabsAndIndentsVisitor.java:423-443 | the lambda's result for comment i is that comment re-indented and its suffix re-aligned to its target column |
| TabsAndIndents.AlignSuffix | rewrite-java/src/main/java/org/openrewrite/java/format/TabsAndIndentsVisitor.java:437-441 | a suffix holding a line break is shifted to the column; any other suffix is left alone |
| TabsAndIndents.IndentComments | rewrite-java/src/main/java/org/openrewrite/java/format/TabsAndIndentsVisitor.java:423-444 | the ListUtils.map over the comments yields the aligned comments |
| TabsAndIndents.IndentTo | rewrite-java/src/main/java/org/openrewrite/java/format/TabsAndIndentsVisitor.java:388-449 | the method computes the re-indented space the specification gives |
| TabsAndIndents.IndentBare | rewrite-java/src/main/java/org/openrewrite/java/format/TabsAndIndentsVisitor.java:398-403 | a space without comments has its whitespace shifted only when its indent differs from the column |
| TabsAndIndents.IndentWithComments | rewrite-java/src/main/java/org/openrewrite/java/format/TabsAndIndentsVisitor.java:405-444 | a space with comments gets the leading whitespace and comment pass of the specification |
| TabsAndIndents.ShiftLeadingWhitespace | rewrite-java/src/main/java/org/openrewrite/java/format/TabsAndIndentsVisitor.java:415-420 | the leading whitespace has its last line shifted when it holds a line break or leads the file, and is otherwise kept |
| TabsAndIndents.IndentToReachesColumn | rewrite-java/src/main/java/org/openrewrite/java/format/TabsAndIndentsVisitor.java:398-403 | a blank-indented space on its own line ends up exactly at the column, with no comments added |
| TabsAndIndents.IndentToAlignsCommentSuffixes | rewrite-java/src/main/java/org/openrewrite/java/format/TabsAndIndentsVisitor.java:410-441 | inside a block's end every comment suffix but the last ends at column + indentSize and the last at column; elsewhere all end at column |
| TabsAndIndents.IndentToAlignsLeadingWhitespace | rewrite-java/src/main/java/org/openrewrite/java/format/TabsAndIndentsVisitor.java:410-420 | the whitespace before the comments ends at column + indentSize at a block's end and at column elsewhere |
| TabsAndIndents.LeadingPassResult | rewrite-java/src/main/java/org/openrewrite/java/format/TabsAndIndentsVisitor.java:410-420 | when the leading indent already sits at the final column the whitespace is kept; otherwise only its last line is shifted by the difference |
| TabsAndIndents.PreVisitIndentType | rewrite-java/src/main/java/org/openrewrite/java/format/TabsAndIndentsVisitor.java:77-96 | ALIGN exactly for compilation unit, package, import, label, do-while, array dimension and class declaration; INDENT exactly for block, if, else, for, for-each, while, case and enum value set; CONTINUATION_INDENT for the rest |
| TabsAndIndents.PreVisit | rewrite-java/src/main/java/org/openrewrite/java/format/TabsAndIndentsVisitor.java:76-99 | the node's indent type is put on the current frame and nothing else changes |
| TabsAndIndents.DecideIndentType | rewrite-java/src/main/java/org/openrewrite/java/format/TabsAndIndentsVisitor.java:136-153 | the always-aligned locations, an aligned block prefix and a space after an annotation give ALIGN, beating the EXTENDS rule; otherwise EXTENDS gives CONTINUATION_INDENT, and otherwise the inherited type stays |
| TabsAndIndents.NoteLocation | rewrite-java/src/main/java/org/openrewrite/java/format/TabsAndIndentsVisitor.java:115-124 | only message bags change, and the space aligns to an annotation exactly when it is outside any annotation and an afterAnnotation message was pending |
| TabsAndIndents.NoteLocationKeepsOthers | rewrite-java/src/main/java/org/openrewrite/java/format/TabsAndIndentsVisitor.java:115-124 | the head of visitSpace touches no message key but lastLocation and afterAnnotation |
| TabsAndIndents.NoteLocationOn | rewrite-java/src/main/java/org/openrewrite/java/format/TabsAndIndentsVisitor.java:115-124 | the cursor and the alignment flag end up as the specification of the message updates says |
| TabsAndIndents.SpaceIndent | rewrite-java/src/main/java/org/openrewrite/java/format/TabsAndIndentsVisitor.java:130-164 | an always-aligned space, or one after an annotation, is indented to the nearest lastIndent (0 without one) |
| TabsAndIndents.IndentOf | rewrite-java/src/main/java/org/openrewrite/java/format/TabsAndIndentsVisitor.java:130-164 | the indent the method computes is the one the specification gives |
| TabsAndIndents.VisitSpaceSpec | rewrite-java/src/main/java/org/openrewrite/java/format/TabsAndIndentsVisitor.java:114-172 | visitSpace changes messages only and keeps the length of the cursor chain |
| TabsAndIndents.VisitSpace | rewrite-java/src/main/java/org/openrewrite/java/format/TabsAndIndentsVisitor.java:114-172 | the returned space and the new cursor are those the specification gives |
| TabsAndIndents.VisitSpaceKeepsSameLineSpace | rewrite-java/src/main/java/org/openrewrite/java/format/TabsAndIndentsVisitor.java:126-128 | a space with no comments and no line break comes back unchanged |
| TabsAndIndents.VisitSpaceAlignsToParent | rewrite-java/src/main/java/org/openrewrite/java/format/TabsAndIndentsVisitor.java:140-166 | a space at an always-aligned location is indented to a lastIndent found up the chain, or to 0, without any delta |
| Spaces.SpaceRule | rewrite-java/src/main/java/org/openrewrite/java/format/SpacesVisitor.java:55-63 | a wanted space turns empty whitespace into one space, an unwanted single space becomes empty, and every other whitespace is kept |
| Spaces.SpaceRuleIdempotent | rewrite-java/src/main/java/org/openrewrite/java/format/SpacesVisitor.java:55-83 | applying the basic rule twice gives what applying it once gives |
| Spaces.SpaceRuleKeepsOtherWhitespace | rewrite-java/src/main/java/org/openrewrite/java/format/SpacesVisitor.java:55-63 | whitespace that is neither empty nor a single space is never touched |
| Spaces.SpaceBefore | rewrite-java/src/main/java/org/openrewrite/java/format/SpacesVisitor.java:55-63 | a tree's prefix follows the basic rule and its comments are kept |
| Spaces.SpaceBeforeContainer | rewrite-java/src/main/java/org/openrewrite/java/format/SpacesVisitor.java:65-73 | a container's space before its opening delimiter follows the basic rule and its elements are kept |
| Spaces.SpaceBeforeElement | rewrite-java/src/main/java/org/openrewrite/java/format/SpacesVisitor.java:85-91 | a padded element has its element's prefix spaced and its `after` space kept |
| Spaces.SpaceAfterRule | rewrite-java/src/main/java/org/openrewrite/java/format/SpacesVisitor.java:93-101 | the `after` rule inserts a wanted space into empty whitespace and removes a single space only when the slot has no comments |
| Spaces.SpaceAfter | rewrite-java/src/main/java/org/openrewrite/java/format/SpacesVisitor.java:93-101 | the `after` space follows the `after` rule and the element is kept |
| Spaces.SpaceAfterIsRule | rewrite-java/src/main/java/org/openrewrite/java/format/SpacesVisitor.java:93-101 | without comments the `after` rule is the basic rule, and a single space before a comment is kept |
| Spaces.SpaceAfterIdempotent | rewrite-java/src/main/java/org/openrewrite/java/format/SpacesVisitor.java:93-101 | applying spaceAfter twice gives what applying it once gives |
| Spaces.MapList | rewrite-java/src/main/java/org/openrewrite/java/format/SpacesVisitor.java:187-210 | the per-index list rule never changes the length of the list |
| Spaces.MapListRule | rewrite-java/src/main/java/org/openrewrite/java/format/SpacesVisitor.java:187-210 | element 0 follows the first-element flag and later elements the comma flag; the last `after` follows the closing flag and the others the before-comma flag; comments and J.Empty markers are kept |
| Spaces.MapListIdempotent | rewrite-java/src/main/java/org/openrewrite/java/format/SpacesVisitor.java:187-210 | applying a list rule twice gives what applying it once gives |
| Spaces.MapBefore | rewrite-java/src/main/java/org/openrewrite/java/format/SpacesVisitor.java:178-186 | spacing every prefix by one flag keeps the length of the list |
| Spaces.ParenthesizedElements | rewrite-java/src/main/java/org/openrewrite/java/format/SpacesVisitor.java:178-210 | the parameter or argument list keeps its length |
| Spaces.ParenthesizedEmpty | rewrite-java/src/main/java/org/openrewrite/java/format/SpacesVisitor.java:178-186 | a list led by J.Empty has every prefix follow the empty-parentheses flag and keeps every `after` space |
| Spaces.ParenthesizedNonEmpty | rewrite-java/src/main/java/org/openrewrite/java/format/SpacesVisitor.java:187-210 | element 0 follows the within-parentheses flag and later ones afterComma; the last `after` follows the within flag and the others beforeComma |
| Spaces.ParenthesizedElementsIdempotent | rewrite-java/src/main/java/org/openrewrite/java/format/SpacesVisitor.java:178-210 | re-spacing an already spaced list changes nothing |
| Spaces.VisitMethodDeclaration | rewrite-java/src/main/java/org/openrewrite/java/format/SpacesVisitor.java:170-239 | the parameter list keeps its length |
| Spaces.MethodDeclarationParameters | rewrite-java/src/main/java/org/openrewrite/java/format/SpacesVisitor.java:170-210 | the parameters follow the empty or non-empty parentheses rule and the `(` follows the before-parentheses flag for declarations |
| Spaces.VisitMethodDeclarationIdempotent | rewrite-java/src/main/java/org/openrewrite/java/format/SpacesVisitor.java:170-239 | running the method-declaration rules on their own output changes nothing |
| Spaces.VisitMethodInvocation | rewrite-java/src/main/java/org/openrewrite/java/format/SpacesVisitor.java:241-304 | the argument list keeps its length |
| Spaces.MethodInvocationArguments | rewrite-java/src/main/java/org/openrewrite/java/format/SpacesVisitor.java:241-277 | the arguments follow the empty or non-empty parentheses rule and the `(` follows the before-parentheses flag for calls |
| Spaces.VisitMethodInvocationIdempotent | rewrite-java/src/main/java/org/openrewrite/java/format/SpacesVisitor.java:241-304 | running the method-invocation rules on their own output changes nothing |
| Spaces.VisitNewArray | rewrite-java/src/main/java/org/openrewrite/java/format/SpacesVisitor.java:834-880 | an initializer is kept exactly when there was one, with as many elements |
| Spaces.AfterCommaPassSubsumed | rewrite-java/src/main/java/org/openrewrite/java/format/SpacesVisitor.java:852-878 | with afterComma on, the extra pass before every element but the first changes nothing the list rule would not |
| Spaces.NewArrayBrace | rewrite-java/src/main/java/org/openrewrite/java/format/SpacesVisitor.java:836-851 | inside an annotation only the array's prefix can change, and only when the annotation-parentheses flag is off; elsewhere the initializer's brace follows the array-initializer flag |
| Spaces.NewArrayElements | rewrite-java/src/main/java/org/openrewrite/java/format/SpacesVisitor.java:852-878 | a non-empty initializer's elements follow the list rule with the array-initializer-braces flag |
| Spaces.MapFirst | rewrite-java/src/main/java/org/openrewrite/java/format/SpacesVisitor.java:351-358 | only the first element is mapped, and the others are kept |
| Spaces.ForInit | rewrite-java/src/main/java/org/openrewrite/java/format/SpacesVisitor.java:340-358 | the init list keeps its length |
| Spaces.ForUpdate | rewrite-java/src/main/java/org/openrewrite/java/format/SpacesVisitor.java:367-400 | the update list keeps its length |
| Spaces.VisitForLoop | rewrite-java/src/main/java/org/openrewrite/java/format/SpacesVisitor.java:335-403 | the for control's init and update lists are those the two list rules give |
| Spaces.ForInitPad | rewrite-java/src/main/java/org/openrewrite/java/format/SpacesVisitor.java:340-358 | an empty first init statement follows the empty-initializer pad style when one is set, and the within-for-parentheses flag otherwise; its `after` follows the before-semicolon flag |
| Spaces.ForInitLaterKept | rewrite-java/src/main/java/org/openrewrite/java/format/SpacesVisitor.java:351-358 | init statements after the first are never touched |
| Spaces.ForUpdatePad | rewrite-java/src/main/java/org/openrewrite/java/format/SpacesVisitor.java:368-377 | a single empty update follows the empty-iterator pad style when one is set, and its `after` is kept |
| Spaces.ForUpdateList | rewrite-java/src/main/java/org/openrewrite/java/format/SpacesVisitor.java:378-399 | otherwise the first update follows afterForSemicolon and later ones afterComma; the last `after` follows the within-for-parentheses flag and the others beforeComma |
| Spaces.ApplyBinarySpaceAround | rewrite-java/src/main/java/org/openrewrite/java/format/SpacesVisitor.java:686-720 | the operator itself is never changed |
| Spaces.VisitBinarySpacing | rewrite-java/src/main/java/org/openrewrite/java/format/SpacesVisitor.java:645-720 | one decision from the operator's category flag is the basic rule on both the space before the operator and the right operand's prefix |
| Spaces.SameCategorySameSpacing | rewrite-java/src/main/java/org/openrewrite/java/format/SpacesVisitor.java:645-684 | operators of one category are spaced alike |
| Spaces.VisitBinaryIdempotent | rewrite-java/src/main/java/org/openrewrite/java/format/SpacesVisitor.java:645-720 | spacing a binary twice gives what spacing it once gives |
| Spaces.VisitUnary | rewrite-java/src/main/java/org/openrewrite/java/format/SpacesVisitor.java:724-742 | the operator itself is never changed |
| Spaces.VisitUnaryOperand | rewrite-java/src/main/java/org/openrewrite/java/format/SpacesVisitor.java:724-778 | the space before the operator always follows the unary flag; post-increment and post-decrement leave the operand alone, and every other operator spaces it too |
| Spaces.VisitUnaryIdempotent | rewrite-java/src/main/java/org/openrewrite/java/format/SpacesVisitor.java:724-778 | spacing a unary twice gives what spacing it once gives |
| Spaces.VisitMemberReference | rewrite-java/src/main/java/org/openrewrite/java/format/SpacesVisitor.java:818-831 | as written, the type parameters are never changed, and with type parameters the reference's space is not touched either |
| Spaces.VisitMemberReferenceIntended | rewrite-java/src/main/java/org/openrewrite/java/format/SpacesVisitor.java:818-831 | the qualifier is spaced as before; type parameters, when present, follow the `::` flag |
| Spaces.MemberReferenceTypeParametersIgnored | rewrite-java/src/main/java/org/openrewrite/java/format/SpacesVisitor.java:823-824 | with the `::` flag on and no space before `<T>`, the code as written leaves it without a space where the intended rule inserts one |
| MethodMatching.ReplaceDotRuns | rewrite-java/src/main/java/org/openrewrite/java/MethodMatcher.java:400 | the dot-run rewrite leaves a text without dots unchanged |
| MethodMatching.NoWildcards | rewrite-java/src/main/java/org/openrewrite/java/MethodMatcher.java:401-402 | a text without dots or stars passes the wildcard steps unchanged |
| MethodMatching.StarRewriteDots | rewrite-java/src/main/java/org/openrewrite/java/MethodMatcher.java:401 | after `*` becomes `[^.]*` in a dot-free text, every dot sits right before a `]`, so the rewrite introduces no `..` |
| MethodMatching.NoBracketsEscaped | rewrite-java/src/main/java/org/openrewrite/java/MethodMatcher.java:398-399 | the escaping steps leave a name without brackets alone |
| MethodMatching.NoDoubleDot | rewrite-java/src/main/java/org/openrewrite/java/MethodMatcher.java:402 | a text in which every dot is followed by `]` passes the `..` rewrite unchanged |
| MethodMatching.SimpleNameToken | rewrite-java/src/main/java/org/openrewrite/java/MethodMatcher.java:396-403 | a name token without dots or brackets only has its stars widened, and without stars it is its own pattern |
| MethodMatching.DotRunsOfDots | rewrite-java/src/main/java/org/openrewrite/java/MethodMatcher.java:400 | the dot-run rewrite keeps `.` and `..` as they are |
| MethodMatching.DotDotToken | rewrite-java/src/main/java/org/openrewrite/java/MethodMatcher.java:396-403 | the `..` token becomes the optional-package regular expression |
| MethodMatching.WildcardsDotDot | rewrite-java/src/main/java/org/openrewrite/java/MethodMatcher.java:402 | the `..` rewrite turns `..` into the optional-package expression |
| MethodMatching.DotToken | rewrite-java/src/main/java/org/openrewrite/java/MethodMatcher.java:400 | a lone `.` token stays an unescaped dot, because the replacement's `\.` is a plain dot |
| MethodMatching.OpenBracketToken | rewrite-java/src/main/java/org/openrewrite/java/MethodMatcher.java:398 | `[` is escaped |
| MethodMatching.CloseBracketToken | rewrite-java/src/main/java/org/openrewrite/java/MethodMatcher.java:399 | `]` is escaped |
| MethodMatching.NamePattern | rewrite-java/src/main/java/org/openrewrite/java/MethodMatcher.java:89-91 | a single-token name's pattern is that token's pattern |
| MethodMatching.QualifyJavaLang | rewrite-java/src/main/java/org/openrewrite/java/MethodMatcher.java:279-288 | a dotted class name is kept; any other is kept or prefixed with `java.lang.` |
| MethodMatching.ClassNameOrInterface | rewrite-java/src/main/java/org/openrewrite/java/MethodMatcher.java:272-289 | the target-type pattern is the joined token patterns, possibly prefixed with `java.lang.` |
| MethodMatching.JavaLangArray | rewrite-java/src/main/java/org/openrewrite/java/MethodMatcher.java:279-283 | an array of a java.lang class is qualified by looking up the name before `\[` |
| MethodMatching.Pieces | rewrite-java/src/main/java/org/openrewrite/java/MethodMatcher.java:329-348 | one piece per collected argument |
| MethodMatching.FormalParameterVisitor.constructor | rewrite-java/src/main/java/org/openrewrite/java/MethodMatcher.java:302 | the visitor starts with no arguments |
| MethodMatching.FormalParameterVisitor.VisitTerminal | rewrite-java/src/main/java/org/openrewrite/java/MethodMatcher.java:305-310 | a `...` terminal marks the last argument as varargs and changes nothing else; other terminals change nothing |
| MethodMatching.FormalParameterVisitor.VisitDotDot | rewrite-java/src/main/java/org/openrewrite/java/MethodMatcher.java:313-316 | the `..` wildcard is appended |
| MethodMatching.FormalParameterVisitor.VisitFormalTypePattern | rewrite-java/src/main/java/org/openrewrite/java/MethodMatcher.java:319-322 | a formal type without varargs is appended |
| MethodMatching.FormalParameterVisitor.VisitChildren | rewrite-java/src/main/java/org/openrewrite/java/MethodMatcher.java:326 | visiting the tokens in order collects the arguments their replay gives |
| MethodMatching.FormalParameterVisitor.VisitFormalParametersPattern | rewrite-java/src/main/java/org/openrewrite/java/MethodMatcher.java:325-351 | the loop builds the argument pattern of the collected arguments |
| MethodMatching.CommaPiecesJoin | rewrite-java/src/main/java/org/openrewrite/java/MethodMatcher.java:342-346 | formal types separated by commas give the comma-joined list of their regular expressions |
| MethodMatching.FormalsPattern | rewrite-java/src/main/java/org/openrewrite/java/MethodMatcher.java:329-350 | without `..` the argument pattern is the argument regular expressions joined with commas |
| MethodMatching.LoneDotDotPattern | rewrite-java/src/main/java/org/openrewrite/java/MethodMatcher.java:334-335 | a lone `..` makes the whole argument list optional |
| MethodMatching.LeadingDotDotPattern | rewrite-java/src/main/java/org/openrewrite/java/MethodMatcher.java:338-345 | a leading `..` is an optional prefix ending in a comma, followed by the other arguments |
| MethodMatching.TrailingDotDotPattern | rewrite-java/src/main/java/org/openrewrite/java/MethodMatcher.java:336-337 | a trailing `..` is an optional suffix starting with a comma |
| MethodMatching.VarargsRegex | rewrite-java/src/main/java/org/openrewrite/java/MethodMatcher.java:306-307 | a varargs argument's regular expression gains the escaped `[]`, and the others are unchanged (see also line 376) |
| MethodMatching.TypePatternCases | rewrite-java/src/main/java/org/openrewrite/java/MethodMatcher.java:233-245 | a primitive gives its keyword, a fully-qualified type its name, an array a pattern exactly when it has an element type, and other types none |
| MethodMatching.ElementType | rewrite-java/src/main/java/org/openrewrite/java/MethodMatcher.java:238-241 | the innermost element type sits below the array in the arena |
| MethodMatching.ArrayPatternRoundTrip | rewrite-java/src/main/java/org/openrewrite/java/MethodMatcher.java:238-242 | an array's pattern is its innermost element's pattern with one `[]` per dimension, so both can be read back |
| MethodMatching.ArrayOfUnpatterned | rewrite-java/src/main/java/org/openrewrite/java/MethodMatcher.java:241 | an array whose element has no pattern gets `null[]`, as Java concatenates null |
| MethodMatching.TypePatterns | rewrite-java/src/main/java/org/openrewrite/java/MethodMatcher.java:256-261 | types without a pattern are dropped, so the list is no longer than the types |
| MethodMatching.TypePatternsAllPresent | rewrite-java/src/main/java/org/openrewrite/java/MethodMatcher.java:256-261 | when every type has a pattern the list holds exactly those patterns, in order |
| MethodMatching.JoinPatterns | rewrite-java/src/main/java/org/openrewrite/java/MethodMatcher.java:255-262 | the StringJoiner loop collects the non-null type patterns |
| MethodMatching.MethodPattern | rewrite-java/src/main/java/org/openrewrite/java/MethodMatcher.java:247-267 | methodPattern is the declaring type's name, the simple name and the parenthesised non-null parameter patterns |
| MethodMatching.SignatureTextSplits | rewrite-java/src/main/java/org/openrewrite/java/MethodMatcher.java:255-262 | the parenthesised part splits back at its commas into the parameter patterns, assuming no pattern holds a comma |
| MethodMatching.SupertypeChain | rewrite-java/src/main/java/org/openrewrite/java/MethodMatcher.java:200 | the supertypes walked from a type end at java.lang.Object, a missing supertype standing for it |
| MethodMatching.MethodMatcher.constructor | rewrite-java/src/main/java/org/openrewrite/java/MethodMatcher.java:79-97 | the three patterns are the target-type pattern, the joined name-token patterns and the formal-parameter visitor's pattern |
| MethodMatching.MethodMatcher.MatchesTargetType | rewrite-java/src/main/java/org/openrewrite/java/MethodMatcher.java:193-196 | no type never matches |
| MethodMatching.MethodMatcher.AnyInterfaceMatches | rewrite-java/src/main/java/org/openrewrite/java/MethodMatcher.java:209-213 | the interface loop succeeds exactly when one interface matches |
| MethodMatching.MethodMatcher.StepMatches | rewrite-java/src/main/java/org/openrewrite/java/MethodMatcher.java:200 | a type matches when its supertype (or java.lang.Object) matches |
| MethodMatching.MethodMatcher.InterfaceMatches | rewrite-java/src/main/java/org/openrewrite/java/MethodMatcher.java:204-213 | with matchOverrides, a type matches when one of its interfaces matches |
| MethodMatching.MethodMatcher.ChainNameMatches | rewrite-java/src/main/java/org/openrewrite/java/MethodMatcher.java:198-202 | a type matches when any type on its supertype chain has a matching name, whatever matchOverrides says |
| MethodMatching.MethodMatcher.WithoutOverridesOnlyChain | rewrite-java/src/main/java/org/openrewrite/java/MethodMatcher.java:193-217 | without matchOverrides a match always comes from a name on the supertype chain |
| MethodMatching.MethodMatcher.OverridesReachInterfaces | rewrite-java/src/main/java/org/openrewrite/java/MethodMatcher.java:200-213 | with matchOverrides a matching interface of any type on the supertype chain suffices |
| MethodMatching.MethodMatcher.MatchesType | rewrite-java/src/main/java/org/openrewrite/java/MethodMatcher.java:111-125 | only a method type with a generic signature and a matching name can match |
| MethodMatching.MethodMatcher.MatchesInvocation | rewrite-java/src/main/java/org/openrewrite/java/MethodMatcher.java:159-175 | an invocation without a type or a resolved signature never matches, and a match needs a matching simple name |
| MethodMatching.MethodMatcher.InvocationAgreesWithType | rewrite-java/src/main/java/org/openrewrite/java/MethodMatcher.java:111-125 | an invocation by its type's own name, with equal generic and resolved parameters, matches exactly when its type does (see also lines 159-175) |
| MethodMatching.MethodMatcher.MatchesDeclaration | rewrite-java/src/main/java/org/openrewrite/java/MethodMatcher.java:127-153 | no enclosing type means no match; for the fully wild target pattern only the name and the argument patterns decide |
| MethodMatching.MethodMatcher.MatchesNewClass | rewrite-java/src/main/java/org/openrewrite/java/MethodMatcher.java:177-191 | a constructor call matches only with both types present, a resolved signature, the name `<constructor>` and a matching class |
| JavaTemplates.MarkerIndex | rewrite-java/src/main/java/org/openrewrite/java/internal/template/Substitutions.java:253-255 | a comment text yields an index exactly when it is a `__p<digits>__` marker, and the index fits in a Java int (see also line 35) |
| JavaTemplates.MarkerRoundTrip | rewrite-java/src/main/java/org/openrewrite/java/internal/template/Substitutions.java:78 | the marker written for parameter i is read back as i (see also lines 108, 134, 136, 253-255) |
| JavaTemplates.FirstMarker | rewrite-java/src/main/java/org/openrewrite/java/internal/template/Substitutions.java:250-260 | a found parameter index fits in a Java int |
| JavaTemplates.FirstMarkerNone | rewrite-java/src/main/java/org/openrewrite/java/internal/template/Substitutions.java:250-260 | no index is found exactly when no comment of the space is a marker text comment |
| JavaTemplates.FirstMarkerSkips | rewrite-java/src/main/java/org/openrewrite/java/internal/template/Substitutions.java:251-256 | the first marker text comment decides, whatever follows it |
| JavaTemplates.ParameterIndex | rewrite-java/src/main/java/org/openrewrite/java/internal/template/Substitutions.java:250-260 | the loop over the comments returns the first marker's index |
| JavaTemplates.AnyText | rewrite-java/src/main/java/org/openrewrite/java/internal/template/Substitutions.java:106-137 | an `any` placeholder starts with the marked open parenthesis for its index and ends with `)` |
| JavaTemplates.AnyPrimitive | rewrite-java/src/main/java/org/openrewrite/java/internal/template/Substitutions.java:106-132 | a primitive keyword is replaced by that primitive's default value |
| JavaTemplates.AnyObjectForms | rewrite-java/src/main/java/org/openrewrite/java/internal/template/Substitutions.java:133-137 | `Object` becomes a bare null; `java.lang.Object` becomes a cast null |
| JavaTemplates.AnyCast | rewrite-java/src/main/java/org/openrewrite/java/internal/template/Substitutions.java:135-137 | a name that is no primitive keyword and not `Object` becomes a null cast to that name |
| JavaTemplates.GetTypeName | rewrite-java/src/main/java/org/openrewrite/java/internal/template/Substitutions.java:157-169 | a type name fails only through a method without a resolved signature |
| JavaTemplates.ResultType | rewrite-java/src/main/java/org/openrewrite/java/internal/template/Substitutions.java:164-165 | following method types to their return type ends at a non-method type or nothing |
| JavaTemplates.GetTypeNameOfResult | rewrite-java/src/main/java/org/openrewrite/java/internal/template/Substitutions.java:157-169 | getTypeName of a method type is getTypeName of its return type, and fails exactly when no return type is reachable |
| JavaTemplates.AnyOfPrimitiveType | rewrite-java/src/main/java/org/openrewrite/java/internal/template/Substitutions.java:106-132 | `any` on a parameter of primitive type yields that primitive's default (see also lines 102, 162-163) |
| JavaTemplates.AsArray | rewrite-java/src/main/java/org/openrewrite/java/internal/template/Substitutions.java:69-72 | TypeUtils.asArray gives an array type or nothing |
| JavaTemplates.AttributedArray | rewrite-java/src/main/java/org/openrewrite/java/internal/template/Substitutions.java:68-76 | the array type is found directly or through a method's return type; otherwise the anyArray error is raised |
| JavaTemplates.Rank | rewrite-java/src/main/java/org/openrewrite/java/internal/template/Substitutions.java:81-83 | an array type has at least one dimension |
| JavaTemplates.Innermost | rewrite-java/src/main/java/org/openrewrite/java/internal/template/Substitutions.java:81-83 | the dimension loop stops at an array whose element type is not an array |
| JavaTemplates.ZeroDims | rewrite-java/src/main/java/org/openrewrite/java/internal/template/Substitutions.java:80-83 | each extra dimension adds `[0]` |
| JavaTemplates.NewArrayText | rewrite-java/src/main/java/org/openrewrite/java/internal/template/Substitutions.java:78-91 | the loop over the dimensions builds the anyArray placeholder text |
| JavaTemplates.Unpadded | rewrite-java/src/main/java/org/openrewrite/java/internal/template/Substitutions.java:182-186 | unwrapping right- and left-padded parameters leaves no padding wrapper |
| JavaTemplates.SubstituteSingle | rewrite-java/src/main/java/org/openrewrite/java/internal/template/Substitutions.java:171-188 | substituteSingle throws exactly for a tree that is not an annotation, block, literal or variable declaration |
| JavaTemplates.SubstituteSingleUnpadded | rewrite-java/src/main/java/org/openrewrite/java/internal/template/Substitutions.java:182-186 | a padded parameter is substituted as its element |
| JavaTemplates.BlockPlaceholder | rewrite-java/src/main/java/org/openrewrite/java/internal/template/Substitutions.java:175-183 | a block becomes an empty block behind its marker, padded or not |
| JavaTemplates.AnyName | rewrite-java/src/main/java/org/openrewrite/java/internal/template/Substitutions.java:93-104 | `any` uses the type named in the key when there is one, and java.lang.Object for a parameter that is not a typed tree |
| JavaTemplates.ParametersAfter | rewrite-java/src/main/java/org/openrewrite/java/internal/template/Substitutions.java:138 | the callback keeps the length of the parameter array |
| JavaTemplates.MarkedPlaceholders | rewrite-java/src/main/java/org/openrewrite/java/internal/template/Substitutions.java:78 | every `any` or `anyArray` placeholder text carries the marker of its own parameter index (see also lines 108, 134, 136) |
| JavaTemplates.PlaceholderFailures | rewrite-java/src/main/java/org/openrewrite/java/internal/template/Substitutions.java:49 | the callback fails past the end of the parameters, on an unknown matcher, on `anyArray` of an untyped parameter, and on `any` of something that is not a tree (see also lines 63-65, 139-141) |
| JavaTemplates.PlaceholderCount | rewrite-java/src/main/java/org/openrewrite/java/internal/template/Substitutions.java:47 | a split has no more placeholders than segments |
| JavaTemplates.PassText | rewrite-java/src/main/java/org/openrewrite/java/internal/template/Substitutions.java:47-138 | a successful pass keeps the number of parameters and ends at the start index plus the number of placeholders |
| JavaTemplates.PassLiteral | rewrite-java/src/main/java/org/openrewrite/java/internal/template/Substitutions.java:47 | a pass over literal text only copies the literals and leaves the parameters and the index as they were |
| JavaTemplates.PassInBounds | rewrite-java/src/main/java/org/openrewrite/java/internal/template/Substitutions.java:49-50 | a successful pass with placeholders consumed only parameters that exist: the start index plus the placeholder count is at most the number of parameters |
| JavaTemplates.PassErrStops | rewrite-java/src/main/java/org/openrewrite/java/internal/template/Substitutions.java:47-138 | an exception thrown for an earlier placeholder ends the whole pass with that exception |
| JavaTemplates.Substitutions.constructor | rewrite-java/src/main/java/org/openrewrite/java/internal/template/Substitutions.java:33-40 | the code, the types and the parameter array are kept and the index starts at 0 |
| JavaTemplates.Substitutions.Resolve | rewrite-java/src/main/java/org/openrewrite/java/internal/template/Substitutions.java:47-147 | one callback returns the placeholder text for the current index, advances the index by one, and updates the parameters as the `any` branch does |
| JavaTemplates.Substitutions.ReplacePlaceholders | rewrite-java/src/main/java/org/openrewrite/java/internal/template/Substitutions.java:47-138 | one round succeeds exactly when PassText does, and then returns its text: the literals and the callback answers in order, with the parameters and the index PassText gives; a failing round throws PassText's first exception; a text without placeholders comes back as its literals with nothing changed |
| JavaTemplates.Substitutions.Substitute | rewrite-java/src/main/java/org/openrewrite/java/internal/template/Substitutions.java:42-155 | a returned code is a fixpoint: the last pass over it, started where the one before ended, gave back the code itself and left the final parameters and index; the index never goes back, and a code without placeholders is returned unchanged |
| JavaTemplates.MaybeParameter | rewrite-java/src/main/java/org/openrewrite/java/internal/template/Substitutions.java:239-247 | a tree without a marker comment is kept; a parameter that replaces it keeps the tree's prefix whitespace |
| JavaTemplates.Unsubstitute | rewrite-java/src/main/java/org/openrewrite/java/internal/template/Substitutions.java:194-197 | without parameters the tree is returned as is |
| JavaTemplates.MarkerBringsParameterBack | rewrite-java/src/main/java/org/openrewrite/java/internal/template/Substitutions.java:239-258 | a tree carrying parameter i's marker is replaced by parameter i with the tree's prefix whitespace |
| MavenSort.ProvidersOf | rewrite-maven/src/main/java/org/openrewrite/maven/utilities/MavenProjectParser.java:206-211 | the projects a dependency resolves to are input projects |
| MavenSort.Providers | rewrite-maven/src/main/java/org/openrewrite/maven/utilities/MavenProjectParser.java:205-212 | the projects a list of dependencies resolves to are input projects |
| MavenSort.ProvidersMatch | rewrite-maven/src/main/java/org/openrewrite/maven/utilities/MavenProjectParser.java:205-211 | an input project is depended on exactly when its groupId and artifactId equal those of one of the declared dependencies |
| MavenSort.DependsOn | rewrite-maven/src/main/java/org/openrewrite/maven/utilities/MavenProjectParser.java:203-213 | a project depends only on input projects |
| MavenSort.UnmatchedDependencyIgnored | rewrite-maven/src/main/java/org/openrewrite/maven/utilities/MavenProjectParser.java:207-211 | a dependency no input project provides adds nothing to the table |
| MavenSort.DistinctPositions | rewrite-maven/src/main/java/org/openrewrite/maven/utilities/MavenProjectParser.java:215-224 | a sorted list holds each project at one position only |
| MavenSort.DependenciesBefore | rewrite-maven/src/main/java/org/openrewrite/maven/utilities/MavenProjectParser.java:217-229 | in a dependencies-first list every project comes after everything it depends on |
| MavenSort.BuildTable | rewrite-maven/src/main/java/org/openrewrite/maven/utilities/MavenProjectParser.java:201-213 | the first phase maps every input project, and nothing else, to exactly the projects it depends on |
| MavenSort.AddDependencies | rewrite-maven/src/main/java/org/openrewrite/maven/utilities/MavenProjectParser.java:205-212 | the loop over declared dependencies adds exactly their providers |
| MavenSort.AddProviders | rewrite-maven/src/main/java/org/openrewrite/maven/utilities/MavenProjectParser.java:206-211 | the loop over input projects adds exactly the providers of one dependency |
| MavenSort.Without | rewrite-maven/src/main/java/org/openrewrite/maven/utilities/MavenProjectParser.java:221-226 | removing a placed project drops its key and takes it out of every remaining dependency set |
| MavenSort.FindReady | rewrite-maven/src/main/java/org/openrewrite/maven/utilities/MavenProjectParser.java:218-221 | a project with no unplaced dependencies is found when one exists, and none is reported only when every remaining project still waits |
| MavenSort.Sort | rewrite-maven/src/main/java/org/openrewrite/maven/utilities/MavenProjectParser.java:199-232 | when the source terminates the result is a permutation of the input projects without repeats in which each comes after all it depends on; otherwise the stuck projects form a dependency cycle |
| MavenSort.Start | rewrite-maven/src/main/java/org/openrewrite/maven/utilities/MavenProjectParser.java:215-217 | the table from the first phase with an empty list satisfies the loop invariant |
| MavenSort.Finish | rewrite-maven/src/main/java/org/openrewrite/maven/utilities/MavenProjectParser.java:217-231 | an empty table ends the loop with a complete dependencies-first order |
| MavenSort.Take | rewrite-maven/src/main/java/org/openrewrite/maven/utilities/MavenProjectParser.java:220-228 | placing a project with no unplaced dependencies keeps the loop invariant |
| MavenSort.TakeKeys | rewrite-maven/src/main/java/org/openrewrite/maven/utilities/MavenProjectParser.java:221-222 | the table's keys and the placed projects still partition the input |
| MavenSort.ReadyIsSorted | rewrite-maven/src/main/java/org/openrewrite/maven/utilities/MavenProjectParser.java:220-222 | a ready project is unplaced and its dependencies are all placed |
| MavenSort.TakeSets | rewrite-maven/src/main/java/org/openrewrite/maven/utilities/MavenProjectParser.java:223-225 | after removal each remaining set holds the dependencies not yet placed |
| MavenSort.Appended | rewrite-maven/src/main/java/org/openrewrite/maven/utilities/MavenProjectParser.java:222 | appending a ready project keeps the list duplicate-free and dependencies-first |
| MavenSort.ReadySetIsCycle | rewrite-maven/src/main/java/org/openrewrite/maven/utilities/MavenProjectParser.java:217-230 | when no remaining project is ready the remaining projects form a dependency cycle |
| MavenSort.CycleHasNoOrder | rewrite-maven/src/main/java/org/openrewrite/maven/utilities/MavenProjectParser.java:217-230 | no dependencies-first list contains every project of a cycle |
| MavenSort.CycleAbsent | rewrite-maven/src/main/java/org/openrewrite/maven/utilities/MavenProjectParser.java:217-230 | no project of a cycle can appear in a dependencies-first list |
| MavenSort.SortFailsOnlyOnCycles | rewrite-maven/src/main/java/org/openrewrite/maven/utilities/MavenProjectParser.java:199-232 | when the sort gets stuck no ordering of all the input projects puts dependencies first |
| MissingOverride.SearchPattern | rewrite-java/src/main/java/org/openrewrite/java/cleanup/MissingOverrideAnnotation.java:127 | the pattern searched in a type starts with that type's name, the method's simple name and `(`, ends with `)`, and is the method's own pattern when the type is its declaring type |
| MissingOverride.HasAny | rewrite-java/src/main/java/org/openrewrite/java/cleanup/MissingOverrideAnnotation.java:119-148 | no type, an unattributed method, or a skipped `java.lang.Object` gives false, and so does the declaring type itself when it has no interfaces and no supertype |
| MissingOverride.HitGivesHasAny | rewrite-java/src/main/java/org/openrewrite/java/cleanup/MissingOverrideAnnotation.java:126-146 | every chain of searched interfaces and supertypes that ends in a type with a counting method makes hasAny true at its start |
| MissingOverride.HasAnyHasWitness | rewrite-java/src/main/java/org/openrewrite/java/cleanup/MissingOverrideAnnotation.java:119-148 | hasAny is true only through such a chain |
| MissingOverride.HasAnyIffHit | rewrite-java/src/main/java/org/openrewrite/java/cleanup/MissingOverrideAnnotation.java:119-148 | hasAny is true exactly when a chain of interfaces and supertypes, skipping `java.lang.Object` as the options say, reaches a type other than the declaring type with a non-abstract (for a class) or non-static (otherwise) method that matches the pattern |
| MissingOverride.InheritedHit | rewrite-java/src/main/java/org/openrewrite/java/cleanup/MissingOverrideAnnotation.java:141-146 | a hit found from one of the interfaces or from the supertype is enough for the type itself |
| MissingOverride.DeclaringType | rewrite-java/src/main/java/org/openrewrite/java/cleanup/MissingOverrideAnnotation.java:89-94 | the declaring type of an attributed method is a fully-qualified type |
| MissingOverride.VisitMethodDeclaration | rewrite-java/src/main/java/org/openrewrite/java/cleanup/MissingOverrideAnnotation.java:86-104 | the declaration is returned as is or with `@Override` added; it is added only when attributed, not static, not yet annotated, not in an ignored anonymous class, and exactly when hasAny holds for the declaring type |
| MissingOverride.VisitIdempotent | rewrite-java/src/main/java/org/openrewrite/java/cleanup/MissingOverrideAnnotation.java:91 | visiting an annotated declaration again changes nothing |
| MissingOverride.NoAncestorsNoOverride | rewrite-java/src/main/java/org/openrewrite/java/cleanup/MissingOverrideAnnotation.java:125-147 | a method of a type with no interfaces and no supertype is never annotated |
| DeleteKey.Kept | rewrite-yaml/src/main/java/org/openrewrite/yaml/DeleteKey.java:52-61 | the survivors are never more than the input, and KeptMembers and KeptConcat give which entries survive and that their order is kept |
| DeleteKey.KeptMembers | rewrite-yaml/src/main/java/org/openrewrite/yaml/DeleteKey.java:52-61 | an entry survives exactly when it was in the mapping and the key path does not match it |
| DeleteKey.KeptConcat | rewrite-yaml/src/main/java/org/openrewrite/yaml/DeleteKey.java:52-61 | filtering works part by part, so survivors keep their relative order |
| DeleteKey.KeptNoMatch | rewrite-yaml/src/main/java/org/openrewrite/yaml/DeleteKey.java:52-61 | when the key path matches no entry the entries are unchanged |
| DeleteKey.DeleteEntries | rewrite-yaml/src/main/java/org/openrewrite/yaml/DeleteKey.java:52-65 | the result has one entry per survivor, all equal to the survivors except that the first takes the handed-on prefix when there is one |
| DeleteKey.VisitMapping | rewrite-yaml/src/main/java/org/openrewrite/yaml/DeleteKey.java:49-68 | the loop computes DeleteEntries, and removeUnused is called once per deleted entry |
| DeleteKey.AllRemoved | rewrite-yaml/src/main/java/org/openrewrite/yaml/DeleteKey.java:52-65 | deleting every entry gives an empty mapping, with nothing to hand a prefix to |
| DeleteKey.FirstPrefixHandedOn | rewrite-yaml/src/main/java/org/openrewrite/yaml/DeleteKey.java:53-65 | a deleted first entry of a sequence-entry mapping passes its prefix to the first survivor |
| DeleteKey.NoHandoff | rewrite-yaml/src/main/java/org/openrewrite/yaml/DeleteKey.java:54-63 | outside a sequence entry, or when the first entry stays, deleting is plain filtering |
| JavaVersions.FindJavaVersion | rewrite-java/src/main/java/org/openrewrite/java/search/UsesJavaVersion.java:40 | the result is the version of the first JavaVersion marker, and it is absent exactly when there is no such marker |
| JavaVersions.VisitCompilationUnit | rewrite-java/src/main/java/org/openrewrite/java/search/UsesJavaVersion.java:38-50 | without a JavaVersion marker the unit is returned as is; with one it gains a search-result marker exactly when the version lies in the inclusive range and the minimum is positive |
| JavaVersions.AtLeastRange | rewrite-java/src/main/java/org/openrewrite/java/search/UsesJavaVersion.java:28-50 | with only a minimum, every int version at or above a positive minimum is in range |
| JavaVersions.NonPositiveMinimumNeverMatches | rewrite-java/src/main/java/org/openrewrite/java/search/UsesJavaVersion.java:49 | a minimum of zero or below never marks a unit, whatever the maximum |
| JavaVersions.FirstMarkerDecides | rewrite-java/src/main/java/org/openrewrite/java/search/UsesJavaVersion.java:40-42 | only the first JavaVersion marker decides |

## Left out

- Concurrency and weak references: no `synchronized` blocks, and no `WeakHashMap` or weak-set reclamation. The registry is sequential and keeps every entry until `clearCaches`.
- In the type registry, `HashMap`/`HashSet` iteration order is taken as insertion order, so the "first variant" of a class name is the oldest one.
- TypeUtils.deepEquals is not part of this model. Over lists it is taken as null-safe and element-wise.
- The class flag bitmap is taken as a set of flags, and `Flag.hasFlags` as "every flag asked for is present". Characters are classified as upper- or lower-case on ASCII only.
- Descriptor objects that `build` creates and then discards are not allocated in the arena.
- Cursor.java, Space.java, Comment.java and the J tree classes are not part of this model. They appear as small datatypes that hold only the whitespace, comments and message bags the formatters use. A cursor call that would throw (getParentOrThrow and similar) is a precondition.
- `Space.getIndent`, `StringUtils.commonMargin` and `StringUtils.indent` are not part of this model. They are fields of a `Helpers` parameter, and a null whitespace is taken as the empty string.
- The formatters' style settings are record parameters. A non-positive tab size with tabs enabled is outside the model of `shift`.
- TabsAndIndents.IndentCommentSpec: re-indents a comment with the corrected ReindentText, not with the loops as written at TabsAndIndentsVisitor.java:464-496; those loops are modelled apart (SkipAsWritten and the Findings members), and no operation uses them.
- TabsAndIndents.IndentComment: computes the corrected re-indent, so on the inputs in the Findings rows its text differs from the source's: "\n x y" moved 2 columns left keeps `x`, and "\n " does not fail.
- TabsAndIndents.IndentToSpec: built on IndentCommentSpec, so it gives the corrected comment text too; the same holds for TabsAndIndents.IndentTo.
- TabsAndIndents.VisitSpaceSpec: built on IndentToSpec, so the whole visitSpace chain, TabsAndIndents.VisitSpace included, gives the corrected comment text.
- TabsAndIndentsVisitor's Javadoc DocComment re-margining (TabsAndIndentsVisitor.java:500-534) needs JavadocVisitor; a DocComment is returned as given.
- TabsAndIndentsVisitor's `forInitColumn` (592-611) prints the tree to find a column, and `visitForControl`/`visitForEachControl` (101-111) depend on it. Both are left out.
- Left out of TabsAndIndentsVisitor: `visit(tree, p, parent)` seeding lastIndent from the parent's printed text (48-72), `visitRightPadded` (174-340) and `visitContainer` (342-386). They walk tree shapes and print trees.
- Left out of SpacesVisitor: its other visit methods (class declarations, `if`, `while`, `try`, lambdas, and so on). They apply the same basic rule to other tree slots.
- MethodMatcher's regex matching is the parameter `rx(pattern, text)`. `Class.forName` in TypeVisitor is a set of `java.lang` names.
- MethodMatcher's ANTLR signature parser is not part of this model. The parsed target, name and parameter tokens are inputs.
- Left out of MethodMatcher: `matches(Expression)` (MethodMatcher.java:155-157), the constructor overloads that only delegate (75-77, 99-109), and `isFullyQualifiedClassReference` (227-230).
- MethodMatching.FormalParameterVisitor.VisitTerminal: a `...` marker that does not directly follow a formal type throws in the source; this case is excluded by a precondition.
- The ANTLR TemplateParameterParser is not part of this model. The matcher name and its optional type argument are inputs.
- PropertyPlaceholderHelper is not part of this model. It is the parameter `scan`, which splits a code string into literal text and `#{...}` keys.
- JavaTemplates.Substitutions.Substitute: the source repeats until the string stops changing. The model makes at most `maxRounds` passes and reports `Unstable` otherwise.
- JavaTemplates.Substitutions.Resolve: the placeholder counter is unbounded, so the AtomicInteger's overflow is not modelled.
- Left out of Substitutions: the `SubAnnotation` branch of `unsubstitute` (Substitutions.java:203-210), `unsubstitute(List)` (190-192), the tree traversal (a parameter), and `printTrimmed` (abstracted). `TypeUtils.asArray`/`asMethod` are taken as type tests.
- MavenSort.Sort: where the source's `while` loop never ends (a dependency cycle), the model returns `None` together with the stuck projects. It proves those projects form a cycle and that no order exists.
- MavenProjectParser's parsing, provenance, resource and download code is I/O and is left out.
- MissingOverrideAnnotation's `MethodMatcher` construction for a method signature is the parameter `matches`. `AnnotationMatcher` is a comparison of fully qualified names. `getCursorToParentScope` is the kind of the nearest enclosing scope.
- MissingOverride.HasAny: the source's `withDeclaringType` (MissingOverrideAnnotation.java:127) goes through `Method.build`, which can register new method objects in the shared registry caches while the search runs. The model's search is pure and leaves the registry alone.
- Where MissingOverrideAnnotation places the added `@Override` among other annotations and modifiers is not modelled; it is appended.
- DeleteKey's XPathMatcher is the parameter `matches`. The recursive `super.visitMapping` over children is not modelled, and `removeUnused` is only counted.
- Markers.java is not part of this model. `searchResult` is taken as appending a SearchResult marker.
- The AutoFormat visitors, PolyglotRecipe/PolyglotVisitor and the thin recipe and search wrappers are not part of this model. They chain or call code outside the core.

## Findings

| source | as written | input that shows it | evidently intended | confidence | as-written member | corrected member |
|---|---|---|---|---|---|---|
| rewrite-java/src/main/java/org/openrewrite/java/tree/JavaType.java:627-630 | `Parameterized.hasFlags(test)` calls `type.hasFlags()` and drops `test` | a Parameterized over ShallowClass `java.util.List`, asked for `Public` | forward `test` to the raw type | not executed | JavaTypes.ParameterizedHasFlagsDropsTest | JavaTypes.HasFlags |
| rewrite-java/src/main/java/org/openrewrite/java/format/TabsAndIndentsVisitor.java:480-496 | the negative-shift loop probes `chars[j + i + 1]` while also advancing `i`, so it tests every other character and deletes non-blank text | the text "\n x y" moved 2 columns left gives "\n y"; the text "\n " reads past the end | remove up to \|shift\| leading blanks after each line break | not executed | TabsAndIndents.DedentAsWrittenDropsText | TabsAndIndents.ReindentKeepsVisible |
| rewrite-java/src/main/java/org/openrewrite/java/format/TabsAndIndentsVisitor.java:464-478 | after each `\n` the positive-shift loop skips `margin.length()` characters without looking at them | "\n\n  x" with a 2-column margin moved to 4 columns gives "\n     x", which loses the empty line | replace the old margin of each line by the new one | not executed | TabsAndIndents.RemarginAsWrittenLosesLineBreak | TabsAndIndents.ReindentReplacesMargin |
| rewrite-java/src/main/java/org/openrewrite/java/format/SpacesVisitor.java:823-824 | the result of `withTypeParameters(spaceBefore(..))` is discarded | `Foo::<T>bar` with the `::` spacing flag on stays without a space before `<T>` | assign the result back to `m` | not executed | Spaces.MemberReferenceTypeParametersIgnored | Spaces.VisitMemberReferenceIntended |
