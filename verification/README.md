# Verification model of the buffa-codegen planning layer

`buffa-codegen` turns protobuf descriptors into Rust. Before it emits anything it makes a set of plans:
which Rust module holds a message's nested types, which path names every type, which identifier every
member gets, which enums count as open, how a proto comment becomes a doc comment, which bytes a default
value denotes, and which names an enum's values have. These algorithms are written separately, and they
must agree with each other for every descriptor set a user can write. This project models them in Dafny
and proves what they promise, for all inputs.

The parts, one module each:

- `SnakeCase`, `FieldNames`, `KeywordEscapes` - the names of struct members: the case converter, the
  per-message collision rounds, the merge of exceptions across messages, and the keyword renames.
- `CaseWords` - all four case converters against word starts on characters, and the aliases they give.
- `Deconflict`, `Registry`, `Packages`, `RegisteredTypes`, `RegistryPass` - module names and the registered path of
  every type; the registration passes fill a `TypeRegistry` object.
- `ExternPaths`, `RustPaths`, `RelativePaths`, `SplitPaths`, `PathExamples` - resolution against `extern_path`
  entries, the `__buffa` paths of ancillary types, `super::`-relative references, whole and split at the package
  boundary, and descriptor sets on which paths go wrong.
- `FeatureOverrides`, `RuleNames`, `EnumOpenness`, `FeatureRouting`, `FeatureMeaning`, `FeatureTargets`, `FeatureLaws`,
  `FeatureExamples` - the `enum_type` override pass, what a rule names, the slot that decides an enum, the lookup of
  map entries by type name, the openness that feature resolution reads back, the report of unmatched rules, and a
  descriptor set on which both go wrong.
- `Fences`, `InfoStrings`, `Sanitizer`, `SanitizedText`, `DocComments` - the doc-comment formatter, and a CommonMark
  reader of its output (CommonMark 0.31.2, sections 2.2, 4.4 and 4.5).
- `CEscape` - the unescaping of `bytes` defaults, against a grammar.
- `EnumValues`, `EnumAliases`, `EnumDraw` - variant and alias tables, CamelCase aliases, and the draw of the
  generated `Arbitrary` impl.
- `Text`, `Segments`, `Idents`, `Descriptors` - strings, dotted names, identifiers and descriptor messages.

Loops and in-place updates of the source are methods (over sequences, maps, arrays and the two objects
`FieldNamePlan` and `TypeRegistry`), each proved equal to a specification; the properties are lemmas about
the specifications.

What the proofs assume of their input: fully qualified names are unique, member names and numbers are unique
within a message, value names are unique within an enum, identifiers are ASCII and simple names have no dot, type
names are distinct within a scope, sibling messages do not share a module name (`validate_file` checks the last two,
but module names within one file only), no enum or other field has a name that is a field's path or lies below it,
and the type names a comment can refer to contain no backtick. These assumptions are `requires` clauses.

Where the code does not do what a reader might expect, the exact condition is proved:

- The override pass finds the entry of a map field by the end of a type name, `<message>.<entry>`. A field whose
  message type from elsewhere ends the same way is taken for the map field, against the comment at
  `buffa-codegen/src/feature_overrides.rs:246-251`; the doc comment of `find_map_entry` admits the confusion. A
  value of a map that was closed is opened by exactly the rules that should open it, under all rule lists, if and
  only if the enclosing message has no such lookalike (`PassMeansSpecExactly`); `PassMissesSpec` is a valid set with
  one.
- For an entry's value, only the first matched field that suggests the entry counts as looked up. The rules reported
  as unmatched are those that match no enum, enum-typed field, referenced enum or enum-valued map field, for every
  rule and rule list, if and only if each enum-valued entry is suggested by its map field alone
  (`ReportIsRightExactly`); otherwise a rule that names a map itself can be reported (`MapRuleIsReported`).
- The warning for a message promises final Rust names (`buffa-codegen/src/lib.rs:2329`). A listed name is the final
  one if and only if no other message takes the member further (`ListedNameIsFinal`); `StaleWarningExists` is a pair
  of messages where the warning lists `user_name_f12` for a field that becomes `userName`.
- If a suffixed name still collides, all changed members of the message revert, not only those of the collision
  group that the documentation names (`buffa-codegen/src/lib.rs:1904-1906`); the model follows the code.
- With idiomatic names, two members of a message end with the same name if and only if the message takes a `_f<n>`
  suffix from another message and another of its members converts to that very name (`ResolvedNamesDistinct`,
  `InheritedClashExists`).
- A relative reference names the place where its target is declared, from every scope, if and only if no segment of
  the target's package is `self`, `super`, `crate`, `Self` or `_`: such a segment is written into the path as it is,
  while the module tree declares it with an underscore, or, for `_`, not at all (`ReferencesLand`, `SelfExample`). A
  message or enum named `_` has the same effect. From each scope, what counts are the segments below those shared with
  it (`LandsExactly`).
- Types of a run have distinct paths unless two messages of one package, such as `FooBar` and `Foo_Bar`, convert to
  the same module name and declare a type of one name below it. `validate_file` rejects that within one file only
  (`PathsInjectiveExactly`, `FooBarTwice`).
- A top-level type resolves to its package's module plus its name, unless the package is unnamed and an entry with
  an empty prefix, but none for `.`, is configured (`TypeExtendsPackage`, `EmptyPrefixExample`). Both front ends
  reject an empty prefix (`normalize_extern_path_proto_name`, `buffa-codegen/src/lib.rs:5271`), so this takes a
  `CodeGenConfig.extern_paths` that is filled in directly.
- The doc comment that is emitted reads back as the author wrote it if and only if no opening tilde fence has a
  first kept word that begins with `~`: that word is put right behind the run, lengthens it, and the author's closer
  no longer closes the block (`ReadsAsWritten`, `TildeSwallows`).
- A comment in `enumeration.rs` calls the branch for invalid alias identifiers unreachable. It is reached by value
  names such as `_1`, and by exactly which ones is stated in `InvalidExactly`. Another comment there says that
  protobuf guarantees distinct item identifiers; with distinct value names they are distinct if and only if no value
  is spelled as the escape of another, as `self_` is of `self` (`ItemsDiffer`). An enum with such a pair gets no
  aliases, and the results on aliases hold for it as well.

## Model

| member | source | states |
|---|---|---|
| SnakeCase.IdiomaticSnakeCase | buffa-codegen/src/field_names.rs:118-154 | the one-pass converter, with its remembered cased character, computes the declarative conversion |
| SnakeCase.BoundaryRule | buffa-codegen/src/field_names.rs:118-154 | the underscores that are inserted stand before exactly the positions that start a word |
| CaseWords.IdiomaticRule | buffa-codegen/src/field_names.rs:118-154 | the member converter lowercases, and puts underscores before exactly the word starts as written out on characters |
| CaseWords.SnakeRule | buffa-codegen/src/oneof.rs:1033-1052 | so does the module converter, with its own word starts: a capital behind a lowercase letter, or the last of a run before one |
| SnakeCase.InsertionOnly | buffa-codegen/src/field_names.rs:118-154 | apart from underscores the conversion only lowercases, and leaves no uppercase letter |
| SnakeCase.Unchanged | buffa-codegen/src/field_names.rs:118-154 | exactly the names without an uppercase letter are left alone |
| SnakeCase.Idempotent | buffa-codegen/src/field_names.rs:118-154 | converting twice is converting once |
| SnakeCase.KeepsAuthoredUnderscores | buffa-codegen/src/field_names.rs:118-154 | no leading, trailing or doubled underscore appears or disappears |
| Descriptors.CollectStructMembers | buffa-codegen/src/field_names.rs:384-409 | the two loops over a message collect its struct members, as `Descriptors.StructMembersAre` describes them |
| Descriptors.StructMembersAre | buffa-codegen/src/field_names.rs:384-409 | one member for each named field outside a real oneof and each named oneof that holds a real field, each once, fields first, in the order of declaration, with the declared names and numbers |
| Descriptors.MessagesAre | buffa-codegen/src/field_names.rs:440-472 | the planner visits exactly the messages at every depth that are no map entry and lie in none, each with its full name |
| FieldNames.OneofBesideField | buffa-codegen/src/field_names.rs:384-409 | the oneof `dataValue` beside the field `data_value` is a member, collides with it and keeps its own name |
| FieldNames.SuffixedInjective | buffa-codegen/src/field_names.rs:528-618 | a suffixed name determines the converted name and the number |
| FieldNames.VerbatimStandsApart | buffa-codegen/src/field_names.rs:528-618 | a changed proto name never equals a converted or suffixed name |
| FieldNames.OwnNamesDistinct | buffa-codegen/src/field_names.rs:528-618 | the two collision rounds of one message always end with distinct names |
| FieldNames.GroupByConversion | buffa-codegen/src/field_names.rs:528-618 | the groups are exactly the members that convert alike, in order |
| FieldNames.ResolveGroups | buffa-codegen/src/field_names.rs:528-618 | first round: whatever the order of the groups, colliding changed fields are suffixed and oneofs kept |
| FieldNames.RevertIfShared | buffa-codegen/src/field_names.rs:528-618 | second round: if a name is still shared, every changed member reverts |
| FieldNames.PlanMessage | buffa-codegen/src/field_names.rs:528-618 | one message extends the merged tables by its proposals, and records one warning with all of its adjustments if it has a collision |
| FieldNames.MergedRankIsJoin | buffa-codegen/src/field_names.rs:413-438 | the merged rank is the least upper bound of the ranks the messages propose |
| FieldNames.LookupByRank | buffa-codegen/src/field_names.rs:175-203 | every lookup gives the name of the member's merged rank |
| FieldNames.SnakeNamesUntouched | buffa-codegen/src/field_names.rs:528-618 | a name already in snake_case is never adjusted, by any message |
| FieldNames.MergeIgnoresOrder | buffa-codegen/src/field_names.rs:423-438 | the merged tables do not depend on the order of files and messages |
| FieldNames.SharedNameIsInherited | buffa-codegen/src/field_names.rs:423-438 | two members share a merged name only where one inherits a suffix that the other spells |
| FieldNames.ResolvedNamesDistinct | buffa-codegen/src/field_names.rs:423-438 | merged names of a message are distinct if and only if it inherits no such clash |
| FieldNames.InheritedClashFamily | buffa-codegen/src/field_names.rs:528-618 | a family of message pairs in which the clash happens |
| FieldNames.InheritedClashExists | buffa-codegen/src/field_names.rs:528-618 | the concrete pair A, B with fields 11, 12 and 12, 13 |
| FieldNames.SweepInherited | buffa-codegen/src/field_names.rs:476-518 | a second warning lists what a message takes from the merged tables without having recorded it |
| FieldNames.AdjustedMeansRenamed | buffa-codegen/src/field_names.rs:175-203 | a looked-up name differs from the conversion exactly for adjusted members |
| FieldNames.PlanFieldNames | buffa-codegen/src/field_names.rs:423-518 | the whole run merges the proposals of every message; every adjusted member is listed in a warning for its own message, and whatever is listed is a field or oneof that the message declares and the merge adjusts, with a name it reaches |
| FieldNames.ListedNameIsFinal | buffa-codegen/src/field_names.rs:586-618 | the name a message's own warning lists is the one looked up later, if and only if no other message proposes a higher rank |
| FieldNames.StaleWarningFamily | buffa-codegen/src/field_names.rs:528-618 | a family of message pairs in which the first lists a suffixed name and the second makes it verbatim |
| FieldNames.StaleWarningExists | buffa-codegen/src/field_names.rs:528-618 | the concrete pair with fields 11, 12 and 11, 12, 13 |
| KeywordEscapes.PrefilterIsSound | buffa-codegen/src/field_names.rs:366-378 | the keyword prefilter drops no message with a member whose planned name is a keyword |
| KeywordEscapes.ScopesShowNeed | buffa-codegen/src/field_names.rs:254-364 | the kept scopes show exactly the members that need a rename |
| KeywordEscapes.ScopesShowTaken | buffa-codegen/src/field_names.rs:254-364 | the kept scopes show every name used beside a keyword member |
| KeywordEscapes.RenamedIsFree | buffa-codegen/src/field_names.rs:254-364 | a rename ends in at least two underscores and is free in every generated message that declares the member |
| KeywordEscapes.RenamedExactly | buffa-codegen/src/field_names.rs:254-364 | a member is renamed if and only if it is one of the four keywords and its escape is the name of a member beside it; the rename is the shortest longer extension that is not |
| KeywordEscapes.NamesAre | buffa-codegen/src/field_names.rs:175-203 | the names that the pass reads are the proto names, or in idiomatic mode the names of the merged ranks |
| KeywordEscapes.GeneratedAre | buffa-codegen/src/field_names.rs:254-364 | the pass looks at the files to generate, and at all of them when none are listed |
| Idents.FieldIdentIs | buffa-codegen/src/idents.rs:62-82 | exactly the four keywords that cannot be raw identifiers get an underscore |
| KeywordEscapes.FinalIdentsDistinct | buffa-codegen/src/field_names.rs:254-364 | distinct names stay distinct identifiers after escaping and renaming |
| KeywordEscapes.DefaultModeDistinct | buffa-codegen/src/field_names.rs:254-364 | with proto names, every generated message ends with distinct identifiers |
| KeywordEscapes.IdiomaticModeDistinct | buffa-codegen/src/field_names.rs:254-364 | with idiomatic names, the same fails for exactly the messages with an inherited clash |
| KeywordEscapes.ChooseName | buffa-codegen/src/field_names.rs:254-364 | the growing candidate is the shortest free one |
| KeywordEscapes.PlanKeywordEscapes | buffa-codegen/src/field_names.rs:254-364 | the pass computes the plan for the generated files, warns of every rename in every message that declares it, and of nothing else |
| KeywordEscapes.PlanMemberNames | buffa-codegen/src/context.rs:630-648 | both plans together: final identifiers of a generated message are distinct if and only if it inherits no suffix clash |
| Deconflict.DeconflictModules | buffa-codegen/src/context.rs:249-281 | the loop assigns modules in sorted order, in place, and keeps free bases |
| Deconflict.ChoiceAt | buffa-codegen/src/context.rs:268-279 | each rename is the shortest underscore extension outside what is taken at its turn |
| Deconflict.ModuleAvoidsScope | buffa-codegen/src/context.rs:249-281 | a rename is outside the occupied names, reserved names, sentinel and raw bases, within one underscore more than names taken; a free base is untouched |
| Deconflict.ModuleIsShortest | buffa-codegen/src/context.rs:249-281 | a renamed module is the shortest extension that is not occupied, not the sentinel, not the plain module of any message of the scope, and not chosen by one earlier in the order |
| Deconflict.NameLeIs | buffa-codegen/src/context.rs:266-267 | the order compares converted names and then names, each by its first difference |
| Deconflict.RenamedIsUnique | buffa-codegen/src/context.rs:249-281 | a renamed module differs from every other module of the scope |
| Deconflict.ModulesDistinct | buffa-codegen/src/context.rs:249-281 | modules are distinct if and only if the bases that stay are |
| Deconflict.OrderIndependent | buffa-codegen/src/context.rs:245-281 | a message gets the same module under every order of declaration |
| Deconflict.SortIsStable | buffa-codegen/src/context.rs:266-267 | the sort keeps equal names in the order of declaration |
| Deconflict.SortedUnique | buffa-codegen/src/context.rs:266-267 | the sorted order of distinct names is unique |
| Registry.ComputeOverrideModule | buffa-codegen/src/context.rs:207-220 | the suffix loop of an overridden message stops at a module that is not the mapped type's name |
| Registry.OverriddenSite | buffa-codegen/src/context.rs:207-220 | the nested types of a mapped message stand beside the mapped type, in a module whose name is usable there |
| Registry.NestedInside | buffa-codegen/src/context.rs:1933-2051 | everything emitted below a message lies in that message's module |
| Registry.ModulesDiffer | buffa-codegen/src/context.rs:1933-2051 | modules of different messages of a scope differ |
| Registry.ModuleIsNoType | buffa-codegen/src/context.rs:1933-2051 | a chosen module is none of the occupied names of its scope |
| Registry.ScopeTypesAre | buffa-codegen/src/context.rs:1933-1985 | the occupied names of a message are the Rust names of its nested messages and enums that are emitted, map entries left out |
| Registry.NestedModuleIs | buffa-codegen/src/context.rs:1933-1985 | the module of a nested message is none of these and no reserved name, and is the plain one if and only if that is none |
| Idents.TypeNameIs | buffa-codegen/src/idents.rs:84-108 | a type name gets one underscore behind prefix and name if and only if the two together are a keyword or a primitive; it is then neither |
| Registry.NestedInjective | buffa-codegen/src/context.rs:1933-2051 | no two types emitted below a message share a path, at any depth |
| Packages.ModuleSpellsPackage | buffa-codegen/src/context.rs:545-551 | a package's module is its segments as they are written, none for the unnamed package |
| Packages.NextSegmentIsChild | buffa-codegen/src/context.rs:165-183 | the next segment of any deeper package is among the sub-package modules |
| Packages.ChildSegmentsAre | buffa-codegen/src/context.rs:165-183 | the sub-package modules of a package are exactly the next segments of the packages below it |
| Packages.MessageNamesAre | buffa-codegen/src/context.rs:441-489 | the messages that compete for a package's modules are those its files declare and no entry maps |
| Packages.PackageTypesAre | buffa-codegen/src/context.rs:441-489 | the occupied type names of a package are the Rust names of its top-level messages and enums that no entry maps |
| Packages.TopModuleIsFree | buffa-codegen/src/context.rs:491-525 | the module of a top-level message is no type of its package, no sub-package module, as named or as declared, and no reserved name |
| Packages.TopModuleKeeps | buffa-codegen/src/context.rs:491-525 | it is the plain conversion if and only if that is none of these |
| Packages.EmittedExactly | buffa-codegen/src/context.rs:552-628 | a top-level type is emitted if and only if no file root, no entry for the type and no entry above it maps it; its path is then its package's module and its Rust name |
| Packages.PathPrecedence | buffa-codegen/src/context.rs:552-628 | the first entry that names a type wins over the root of its file, and that over entries above it |
| Registry.OverlapShares | buffa-codegen/src/context.rs:1933-2051 | trees of two messages that hang off one module share the path of a type if and only if they overlap: a type name in common, or nested modules in common that overlap again |
| Registry.ModulesAgree | buffa-codegen/src/context.rs:249-281 | two messages of a scope get one module if and only if they have the same free base |
| Packages.PathsInjectiveExactly | buffa-codegen/src/context.rs:552-628 | no two types a run emits have the same Rust path, in any package and at any depth, if and only if no two top-level messages of a package share a free base and overlap |
| Packages.PathsInjective | buffa-codegen/src/context.rs:552-628 | in particular, when the free bases of each package are distinct over all its files |
| PathExamples.NestedTypeTwice | buffa-codegen/src/lib.rs:4312-4401 | a family of pairs of files that pass the generator's checks, one by one, and register a nested type twice |
| PathExamples.FooBarTwice | buffa-codegen/src/lib.rs:4312-4401 | the messages `FooBar` and `Foo_Bar`, each with a nested `X` |
| RegistryPass.TypeRegistry.Register | buffa-codegen/src/context.rs:588-589 | one insertion into the type and package tables, and nothing else |
| RegistryPass.CollectPackages | buffa-codegen/src/context.rs:441-489 | the pre-pass collects every package with its message names and Rust type names |
| RegistryPass.NameTopModules | buffa-codegen/src/context.rs:491-525 | each package's renamed modules are recorded, and only those that differ from the conversion |
| RegistryPass.ChooseModules | buffa-codegen/src/context.rs:1933-1985 | the modules of one scope, by message name |
| RegistryPass.RegisterMessage | buffa-codegen/src/context.rs:1986-2033 | one nested message: its path, its recorded module and where its own nested types go |
| RegistryPass.RegisterNestedTypes | buffa-codegen/src/context.rs:1933-2051 | the recursive pass records exactly the entries of the message tree, in order |
| RegistryPass.RegisterFile | buffa-codegen/src/context.rs:552-628 | one file extends the tables by exactly its entries |
| RegistryPass.AllRecorded | buffa-codegen/src/context.rs:552-628 | with unique names, no later registration overwrites an earlier one |
| RegisteredTypes.RegisteredExactly | buffa-codegen/src/context.rs:552-628 | the types a run registers are exactly the messages and enums that the files declare, at any depth, each with its package, full name and path |
| RegistryPass.BuildRegistry | buffa-codegen/src/context.rs:407-628 | after the whole pass every type of the set is found as it was registered |
| ExternPaths.Best | buffa-codegen/src/context.rs:1766-1783 | the longest covering entry, the first among equals |
| ExternPaths.ResolveExternPrefix | buffa-codegen/src/context.rs:1758-1794 | the loop finds the exact entry or the longest covering one, and appends the snake_case rest |
| ExternPaths.ResolveExternType | buffa-codegen/src/context.rs:1815-1856 | the same for a type: exact entry, or longest prefix with modules and the escaped type name |
| ExternPaths.TypeByEntry | buffa-codegen/src/context.rs:1815-1856 | when an entry decides, the type's path is the entry's, a converted module for each segment below it, and the escaped name |
| ExternPaths.PackageByEntry | buffa-codegen/src/context.rs:1758-1794 | likewise for a package, all of whose segments below the entry become modules |
| ExternPaths.ResolvedExactly | buffa-codegen/src/context.rs:1815-1856 | a type resolves if and only if an entry names it or an ancestor of it; the first entry that names it gives its path |
| ExternPaths.TypeFollowsPackage | buffa-codegen/src/context.rs:1815-1856 | in a named package every top-level type without an entry resolves to its package's module and its name |
| ExternPaths.TypeExtendsPackage | buffa-codegen/src/context.rs:1758-1856 | the two resolutions agree on every top-level type except in the unnamed package with an empty-prefix entry and no `.` entry |
| ExternPaths.EmptyPrefixAlone | buffa-codegen/src/context.rs:1758-1856 | a list with the empty prefix alone maps the unnamed package to its path with an empty last segment, and types to the path itself |
| ExternPaths.EmptyPrefixExample | buffa-codegen/src/context.rs:1758-1856 | the exception at a concrete list |
| RustPaths.AncillaryPrefix | buffa-codegen/src/context.rs:1669-1717 | the string walk yields the supers, the sentinel, the kind and the recorded modules of the message chain |
| RustPaths.KindNames | buffa-codegen/src/context.rs:1641-1651 | the modules of the four kinds |
| RustPaths.EmissionMatchesRegistration | buffa-codegen/src/context.rs:956-961 | the modules walked at emission are those under which registration put the message's nested types |
| RustPaths.AncillaryMirrorsRegistration | buffa-codegen/src/context.rs:1669-1717 | for every emitted message, the path computed from its name ends in the registered modules of its nested types, behind sentinel and kind |
| RelativePaths.AncillaryLands | buffa-codegen/src/context.rs:1669-1717 | resolved from any module of the package, that path is the registered one moved below the package's sentinel and kind, if and only if it has no segment `_` |
| RelativePaths.SplitJoinsToRelative | buffa-codegen/src/context.rs:1142-1258 | the halves of the split path join to the relative path, for local, cross-package and extern types |
| SplitPaths.ExternIsAbsolute | buffa-codegen/src/context.rs:1142-1258 | every registered type has a split, which is extern if and only if the registered path has several segments and begins with `::` or `crate` |
| SplitPaths.LocalSplit | buffa-codegen/src/context.rs:1142-1258 | for every emitted type, the second half is its path behind its package's module; the first half, resolved from any module of a package, is the target package's module if and only if it descends through names only |
| SplitPaths.ComposedLands | buffa-codegen/src/context.rs:1132-1136 | the halves with sentinel and kind between them name the place below the target package's own sentinel, if and only if both descend through names only |
| SplitPaths.ExternCut | buffa-codegen/src/context.rs:1142-1258 | an absolute path, however short, is split by the number of names of the type below its package |
| SplitPaths.ExternSplit | buffa-codegen/src/context.rs:1142-1258 | for a mapped package, the halves join to the registered path of a type at any depth, and the first half is exactly the Rust path of the package |
| RelativePaths.EmittedShape | buffa-codegen/src/context.rs:552-628 | every emitted path, and every module of nested types, continues its package's module and adds none of `self`, `super`, `crate`, `Self`; it adds `_` only if a message or enum has that name |
| RelativePaths.LandsExactly | buffa-codegen/src/context.rs:1052-1129 | from a module of a package, the reference names the place where the type is declared if and only if it descends through names only and the registered path does not begin with `crate` |
| RelativePaths.KeywordMisdirects | buffa-codegen/src/context.rs:1052-1129 | a segment `self`, `super`, `crate`, `Self` or `_` makes the reference from the root miss |
| RelativePaths.ReferencesLand | buffa-codegen/src/context.rs:1052-1129 | references land from everywhere if and only if no package segment is one of these five and no segment behind the package is `_`; the latter never happens when nothing is named `_` |
| RelativePaths.OwnPackageLands | buffa-codegen/src/context.rs:1052-1129 | when nothing is named `_`, a reference from within its own package lands if and only if the package does not begin with `crate`, whatever else it is called |
| PathExamples.KeywordPackage | buffa-codegen/src/context.rs:1052-1129 | in a package with one of the five behind its first segment, the reference from the root names nothing |
| PathExamples.KeywordExample | buffa-codegen/src/context.rs:1052-1129 | the same for every package of two segments that ends in one of them |
| PathExamples.SelfExample | buffa-codegen/src/lib.rs:3858-3866 | the package `a.Self` is declared as `a::Self_`, and referred to as `a::Self` |
| RelativePaths.FewestSupers | buffa-codegen/src/context.rs:1052-1129 | no path that is right from two scopes of equal depth below different modules climbs less |
| FeatureOverrides.RuleMatches | buffa-codegen/src/feature_overrides.rs:177-186 | every matching rule is marked in the array, not only the first |
| RuleNames.RuleForm | buffa-codegen/src/feature_overrides.rs:177-206 | every rule is white space, a name that does not end in a dot, dots, and white space |
| RuleNames.RuleMeans | buffa-codegen/src/feature_overrides.rs:177-206 | a rule without a name matches every path if it is a single dot and none otherwise; any other rule, with or without leading dot, matches exactly the paths whose segments begin with its own |
| RuleNames.RootOpensAll | buffa-codegen/src/feature_overrides.rs:94-135 | with the rule `.` in the list every enum-typed field, at any depth, resolves open after the pass |
| RuleNames.RootReported | buffa-codegen/src/feature_overrides.rs:54-88 | it is reported as unmatched only if the files hold nothing a rule could name |
| FeatureOverrides.OpenFields | buffa-codegen/src/feature_overrides.rs:233-320 | both passes over a message's fields, with the marks of all paths they look up |
| FeatureOverrides.ApplyToMessage | buffa-codegen/src/feature_overrides.rs:233-320 | the recursive pass rewrites a message tree and marks exactly the rules that match something in it |
| FeatureOverrides.ApplyOpenEnumRules | buffa-codegen/src/feature_overrides.rs:94-135 | the pass over all files, after the local enums have been collected |
| FeatureOverrides.ApplyFeatureOverrides | buffa-codegen/src/feature_overrides.rs:54-88 | nothing without rules; otherwise the rewritten set and, in order, the rules that matched nothing |
| FeatureOverrides.UnmatchedInOrder | buffa-codegen/src/feature_overrides.rs:54-88 | the rules handed back are those that match nothing that was looked up, each at its own place in the list |
| FeatureOverrides.SlotExactly | buffa-codegen/src/feature_overrides.rs:206-320 | an enum-typed field gets its own OPEN slot if and only if its path, its enum or its routed entry matches, and its enum was not opened itself |
| FeatureOverrides.OtherFieldsStay | buffa-codegen/src/feature_overrides.rs:206-320 | a field that is not enum-typed is left as it is |
| FeatureMeaning.ResolveField | buffa-codegen/src/features.rs:44-65 | the resolved closedness of a field: own OPEN slot, referenced enum, feature chain |
| EnumOpenness.FieldIs | buffa-codegen/src/features.rs:44-65 | an enum-typed field is open by its own OPEN slot, otherwise as the enum it refers to; where the table does not know that enum, the nearest set slot decides |
| EnumOpenness.EnumInMessage | buffa-codegen/src/context.rs:2142-2174 | the closedness table has every enum at any depth of a message, by the nearest set slot among its own, its enclosing messages' and its file's |
| EnumOpenness.EnumInFile | buffa-codegen/src/context.rs:2142-2174 | likewise every enum of a file |
| EnumOpenness.TableFinds | buffa-codegen/src/context.rs:2142-2174 | a lookup gives what the table records under the name |
| FeatureMeaning.FileStatesOpened | buffa-codegen/src/context.rs:2142-2174 | the closedness table after the pass is the one before with every matched enum opened |
| FeatureMeaning.LocalIsRegistered | buffa-codegen/src/context.rs:2142-2174 | the enums the pass treats as local are exactly those the closedness table knows |
| FeatureRouting.LookupIsBySuffix | buffa-codegen/src/message.rs:2370-2390 | the lookup gives an entry if and only if the type name ends in the message's name, a dot and the entry's name |
| RuleNames.EntryIsTail | buffa-codegen/src/message.rs:2370-2390 | a type name suggests an entry if and only if its last two segments are the names of the message and the entry |
| FeatureRouting.RoutedBySuffix | buffa-codegen/src/feature_overrides.rs:233-320 | the value of an entry is routed if and only if a rule matches some field whose type name ends in that way |
| FeatureMeaning.RewriteInPlace | buffa-codegen/src/feature_overrides.rs:233-320 | every message at any depth keeps its place, and its fields are rewritten under their own path |
| FeatureMeaning.RewriteMeansRouting | buffa-codegen/src/feature_overrides.rs:206-320 | recording on the enum when local and on the field otherwise opens a field exactly by its path, its enum or its entry's route |
| FeatureMeaning.MapFieldsAreFound | buffa-codegen/src/message.rs:2370-2390 | every field whose type is the entry itself is found by the lookup |
| FeatureMeaning.PassOpensExactly | buffa-codegen/src/feature_overrides.rs:94-135 | for every rule list and enum field: open afterwards if and only if open before, or a rule matches the field, its enum, the map field it is the value of, or a lookalike of that map field |
| FeatureMeaning.PassMeansSpec | buffa-codegen/src/feature_overrides.rs:94-135 | the same without the last case, when the enclosing message has no lookalike of the entry |
| FeatureMeaning.LookalikeMisroutes | buffa-codegen/src/feature_overrides.rs:246-251 | the rule that names just a lookalike opens the value, though it matches neither the field nor its enum nor its map |
| FeatureMeaning.PassMeansSpecExactly | buffa-codegen/src/feature_overrides.rs:94-135 | for a map value closed before, the pass opens by the specification under all rule lists if and only if there is no lookalike |
| FeatureTargets.LookupsAre | buffa-codegen/src/feature_overrides.rs:233-320 | what the pass looks up: all enums, all enum-typed fields with their enums, and for each enum-valued entry the path of the first field that suggests it and that a rule matches |
| FeatureTargets.TargetsAre | buffa-codegen/src/feature_overrides.rs:94-135 | what a rule can name: the enums, the enum-typed fields and their enums, and the fields whose type is an enum-valued entry, each written out on the descriptors |
| FeatureTargets.ReportedExactly | buffa-codegen/src/feature_overrides.rs:54-88 | when entries are named once: a rule is reported if and only if it is in the list and matches no enum, enum-typed field, referenced enum or enum-valued map field |
| FeatureTargets.LookalikeGoesUnreported | buffa-codegen/src/feature_overrides.rs:54-88 | a rule that names a lookalike matches none of these, and is not reported |
| FeatureTargets.LateMapFieldIsReported | buffa-codegen/src/feature_overrides.rs:54-88 | beside a rule for an earlier field that suggests the entry, the rule that names the map field is reported |
| FeatureTargets.ReportIsRightExactly | buffa-codegen/src/feature_overrides.rs:54-88 | the report is right for all rule lists if and only if each enum-valued entry is named once |
| FeatureTargets.ReportIgnoresOrder | buffa-codegen/src/feature_overrides.rs:54-88 | whether a rule is reported does not depend on order or repetition of the rules |
| FeatureExamples.PassMissesSpec | buffa-codegen/src/feature_overrides.rs:246-251 | on a concrete set, the rule `.a.M.x` opens the value of the map `.a.M.foo` |
| FeatureExamples.MapRuleIsReported | buffa-codegen/src/feature_overrides.rs:54-88 | on the same set, the rule `.a.M.foo` is reported as unmatched beside `.a.M.x` |
| FeatureLaws.PassIsIdempotent | buffa-codegen/src/feature_overrides.rs:94-135 | applying the rules again changes nothing |
| FeatureLaws.RuleOrderIrrelevant | buffa-codegen/src/feature_overrides.rs:94-135 | order and repetition of rules do not matter |
| FeatureLaws.UnmatchedRulesAreInert | buffa-codegen/src/feature_overrides.rs:54-88 | deleting the reported rules leaves the rewritten descriptors identical |
| Fences.IndentSplit | buffa-codegen/src/comments.rs:357-370 | the column loop, with tab stops |
| Fences.IndentedForm | buffa-codegen/src/comments.rs:357-375 | column 4 is reached by four spaces or by a tab after at most three, and by nothing else |
| Fences.IndentationIs | buffa-codegen/src/comments.rs:357-375 | how many characters the first four columns take, on the characters of the line |
| Fences.StripIndentIs | buffa-codegen/src/comments.rs:381-392 | an indented line loses exactly these characters, and is left alone if three backticks follow them, behind white space or not |
| Fences.PadIs | buffa-codegen/src/comments.rs:337-347 | one space is put before a line that is not empty and begins with none |
| Fences.PadKeepsMarker | buffa-codegen/src/comments.rs:339-347 | the pad space neither makes nor breaks a fence marker, and moves it by at most one column |
| Fences.PadKeepsIndent | buffa-codegen/src/comments.rs:339-347 | the pad space neither makes nor breaks an indented line |
| Fences.MarkerText | buffa-codegen/src/comments.rs:401-422 | a recognised marker is a legal fence and is spelled by its parts |
| Fences.TextMarker | buffa-codegen/src/comments.rs:401-422 | every legal fence is recognised with the parts it is spelled from |
| Fences.CloserText | buffa-codegen/src/comments.rs:424-437 | a line closes a fence if and only if it is at most three spaces, a run of the fence's character at least as long, and blank space |
| Fences.StrippedClosesNothing | buffa-codegen/src/comments.rs:381-392 | a de-indented line never closes the backtick fence around its block |
| InfoStrings.RewriteInfo | buffa-codegen/src/comments.rs:469-494 | the token loop computes the rewritten info string |
| InfoStrings.InfoIsInert | buffa-codegen/src/comments.rs:444-494 | every rewritten info string is `text` or has a bare `ignore` and no target list; the author's other words stay in front, in order |
| InfoStrings.TokensSplit | buffa-codegen/src/comments.rs:469-494 | the words of an info string are what stands between commas, spaces and tabs |
| InfoStrings.KeptIs | buffa-codegen/src/comments.rs:469-494 | the kept ones are all but those that begin with `ignore-` |
| InfoStrings.InfoText | buffa-codegen/src/comments.rs:469-494 | its words are separated by single commas and nothing else |
| InfoStrings.InfoShape | buffa-codegen/src/comments.rs:469-494 | no backtick is introduced, and a leading tilde comes only from the first kept word |
| Sanitizer.FindBacktickCloser | buffa-codegen/src/comments.rs:605-621 | the nested index loops find the first run of exactly the given length |
| Sanitizer.FindInlineLinkEnd | buffa-codegen/src/comments.rs:626-654 | the index loops find the parenthesis that balances the one behind the bracketed text |
| Sanitizer.FindRefLink | buffa-codegen/src/comments.rs:662-702 | the index loops find both brackets of a reference, and reject one followed by a parenthesis |
| Sanitizer.EscapeAngleBrackets | buffa-codegen/src/comments.rs:710-745 | the loop, and its shortcut for text without angle brackets, escape the brackets outside code spans |
| SanitizedText.AngleCharacters | buffa-codegen/src/comments.rs:710-745 | outside code spans, exactly the angle brackets are escaped |
| SanitizedText.AngleSpans | buffa-codegen/src/comments.rs:710-745 | code spans are copied |
| Sanitizer.ResolveTypeFqn | buffa-codegen/src/comments.rs:804-828 | the loop over enclosing scopes finds the innermost match |
| SanitizedText.InnermostScope | buffa-codegen/src/comments.rs:804-828 | scopes are tried from the inside out, by their segments |
| SanitizedText.TypeOfIs | buffa-codegen/src/comments.rs:804-828 | the fully qualified name is tried before any scope |
| SanitizedText.LinkText | buffa-codegen/src/comments.rs:842-877 | a resolved reference becomes its label, alone or with the path from the crate, unless the path is absolute |
| Sanitizer.SanitizeLine | buffa-codegen/src/comments.rs:500-590 | the escaping loop, with its scanners, computes the sanitized line |
| SanitizedText.PlainCharacter | buffa-codegen/src/comments.rs:500-600 | a character without a meaning stands for itself, an `h` that begins no URL included |
| SanitizedText.ClosingBrackets | buffa-codegen/src/comments.rs:555-575 | brackets that close nothing are escaped |
| SanitizedText.Escaped | buffa-codegen/src/comments.rs:524-531 | a backslash and what it escapes are copied |
| SanitizedText.BareUrl | buffa-codegen/src/comments.rs:576-586 | a URL is put in angle brackets |
| SanitizedText.Autolink | buffa-codegen/src/comments.rs:559-567 | a URL in angle brackets is copied |
| SanitizedText.OpeningAngle | buffa-codegen/src/comments.rs:559-567 | any other opening angle bracket is escaped |
| SanitizedText.CodeSpan | buffa-codegen/src/comments.rs:512-522 | from a run of backticks to the first later run of the same length nothing is changed |
| SanitizedText.LooseBackticks | buffa-codegen/src/comments.rs:512-522 | without one the run alone is copied |
| SanitizedText.InlineLink | buffa-codegen/src/comments.rs:626-654 | a link with balanced parentheses is copied |
| SanitizedText.OpenLink | buffa-codegen/src/comments.rs:626-654 | a link whose parenthesis never closes is none |
| SanitizedText.Reference | buffa-codegen/src/comments.rs:532-554 | a reference becomes its link, or keeps both texts with brackets escaped |
| SanitizedText.LooseBracket | buffa-codegen/src/comments.rs:532-554 | a text in brackets with neither behind it has its bracket escaped |
| SanitizedText.OpenBracket | buffa-codegen/src/comments.rs:662-702 | so has a bracket that another one follows before any closing one |
| Sanitizer.RefsKeepBackticks | buffa-codegen/src/comments.rs:842-877 | a reference that resolves loses no backtick |
| Sanitizer.SanitizedIsProse | buffa-codegen/src/comments.rs:500-590 | a line that is no fence marker and not indented stays so when it is sanitized |
| DocComments.DocLines | buffa-codegen/src/comments.rs:267-335 | the line loop with its two state variables and look-ahead renders the comment |
| DocComments.DocWithTag | buffa-codegen/src/comments.rs:216-234 | the tag is rendered on its own, behind the rendered comment and a blank line |
| DocComments.CodeLengthIsLongest | buffa-codegen/src/comments.rs:286-306 | a block of indented code is the longest run of indented and blank lines that ends in an indented one |
| DocComments.LookAhead | buffa-codegen/src/comments.rs:291-302 | the look-ahead over blank lines tells exactly whether the block goes on |
| DocComments.OpenerReadsBack | buffa-codegen/src/comments.rs:308-312 | an emitted opener reads as the author's fence with the rewritten info, or as a longer run when that begins with a tilde |
| DocComments.FenceReadsBack | buffa-codegen/src/comments.rs:275-284 | from inside a fence the reader sees its content, one close, and then the rest |
| DocComments.CodeReadsBack | buffa-codegen/src/comments.rs:286-306 | the same for the fence put around indented code |
| DocComments.ReadsAsWritten | buffa-codegen/src/comments.rs:267-335 | reading the output gives exactly the author's blocks, all closed, if and only if no opening tilde fence is led by a tilde word |
| DocComments.CodeLineIs | buffa-codegen/src/comments.rs:286-306 | each line inside the fence around indented code is what the author wrote behind the fourth column, the whole line when that begins with three backticks, with one space added unless one is there |
| DocComments.MeaningIsSound | buffa-codegen/src/comments.rs:267-335 | the author's blocks open and close in turn, each inert, with no indented code between them |
| DocComments.OutputIsSafe | buffa-codegen/src/comments.rs:267-335 | when no tilde-fence info contains a tilde, the output ends with no open fence, every opener is inert, and no line outside a fence is indented code |
| DocComments.TagIsOutside | buffa-codegen/src/comments.rs:216-234 | the tag behind such a comment is read exactly as it is read alone |
| DocComments.TildeSwallows | buffa-codegen/src/comments.rs:308-312 | for every tilde-led fence, a comment the author closed leaves the output open |
| DocComments.TildeExample | buffa-codegen/src/comments.rs:308-312 | `~~~ ~x` is such a fence |
| CEscape.Unescape | buffa-codegen/src/defaults.rs:287-405 | the cursor loop returns the bytes or the first error, with its value |
| CEscape.ReadOctal | buffa-codegen/src/defaults.rs:349-365 | at most three octal digits are read, and their value never exceeds 511 |
| CEscape.ReadHex | buffa-codegen/src/defaults.rs:366-395 | the whole run of hex digits is read into a saturating 32-bit accumulator |
| CEscape.SaturatedStep | buffa-codegen/src/defaults.rs:381-388 | the accumulator is the true value cut off at the 32-bit maximum, after every digit |
| CEscape.SaturationIsHarmless | buffa-codegen/src/defaults.rs:378-394 | it exceeds 255 if and only if the unbounded value does |
| CEscape.DecodesExactlyTheGrammar | buffa-codegen/src/defaults.rs:287-405 | unescaping succeeds with some bytes if and only if the maximal-munch grammar spells them with the string |
| CEscape.RoundTrips | buffa-codegen/src/defaults.rs:280-405 | it inverts three-digit-octal escaping, and the escaping convention of `default_value`, for every byte string |
| CEscape.HexRoundTrips | buffa-codegen/src/defaults.rs:366-395 | two-digit hex escapes of every byte string, each digit in either case, unescape to it |
| CEscape.LetterEscape | buffa-codegen/src/defaults.rs:304-348 | the byte each letter escape stands for |
| CEscape.Rejected | buffa-codegen/src/defaults.rs:299-401 | which error a lone backslash, an unknown escape, and a hex escape without digits give |
| CEscape.OctalOverflow | buffa-codegen/src/defaults.rs:349-365 | an octal escape above 255 gives its value as the error |
| CEscape.HexOverflow | buffa-codegen/src/defaults.rs:366-395 | so does a hex escape of any length, with its value cut off at the 32-bit maximum |
| EnumValues.DeprecatedItems | buffa-codegen/src/enumeration.rs:112-126 | the loop over a mutable map marks an item by its own option or by that of the first value with its number |
| EnumValues.GenerateTables | buffa-codegen/src/enumeration.rs:176-239 | the single pass fills the variant, alias, name and record tables |
| EnumValues.VariantsCoverNumbers | buffa-codegen/src/enumeration.rs:176-239 | the variants have every number of the enum exactly once |
| EnumValues.VariantsNameFirstValues | buffa-codegen/src/enumeration.rs:176-239 | each variant is named after the first value of its number |
| EnumValues.ValuesBecomeItems | buffa-codegen/src/enumeration.rs:176-239 | every value becomes one item: a variant, or an alias of the variant with its number |
| EnumValues.TablesByValue | buffa-codegen/src/enumeration.rs:176-239 | what the name and record tables hold for each value: its name, the identifier of the first value with its number, and its own |
| EnumValues.DeprecationByValue | buffa-codegen/src/enumeration.rs:106-126 | an identifier is marked if and only if some item with it is deprecated by its own option or its variant's |
| EnumValues.DeprecationReachesAliases | buffa-codegen/src/enumeration.rs:106-111 | an alias of a deprecated variant is deprecated, whatever its own option says |
| EnumAliases.ToUpperCamelCase | buffa-codegen/src/idents.rs:140-169 | the one-pass CamelCase converter computes the conversion that `CaseWords.CamelRule` describes |
| EnumAliases.ToShoutySnakeCase | buffa-codegen/src/idents.rs:180-200 | the one-pass converter of the enum-name prefix computes the conversion that `CaseWords.ShoutyRule` describes |
| CaseWords.ShoutyRule | buffa-codegen/src/idents.rs:180-200 | it capitalizes, and puts underscores before exactly the capitals that follow a lowercase letter or a digit, or end a run before a lowercase letter |
| CaseWords.CamelRule | buffa-codegen/src/idents.rs:140-169 | the CamelCase converter capitalizes exactly the letters that start a word, lowercases the rest and drops the underscores |
| CaseWords.LettersStay | buffa-codegen/src/idents.rs:140-200 | none of the four converters changes anything but case and underscores |
| CaseWords.ShoutyOfWords | buffa-codegen/src/idents.rs:180-200 | for a name in CamelCase words, the prefix is those words in capitals, joined by underscores |
| CaseWords.CamelOfShouted | buffa-codegen/src/idents.rs:140-169 | and CamelCase takes such a spelling back to the words |
| CaseWords.PrefixComesOff | buffa-codegen/src/enumeration.rs:482-501 | when every value is the prefix and a rest that stays an identifier, every alias is the CamelCase of its rest |
| CaseWords.PrefixStays | buffa-codegen/src/enumeration.rs:482-501 | when one is not, every alias is the CamelCase of the whole value name |
| CaseWords.ConventionalAlias | buffa-codegen/src/enumeration.rs:467-528 | in an enum that follows the style guide, `RULE_LEVEL_HIGH` of `RuleLevel` becomes `High`, for all words |
| EnumAliases.CamelIsValid | buffa-codegen/src/idents.rs:140-169 | a conversion is an identifier unless a digit or nothing follows the leading underscores |
| EnumAliases.IdiomaticAliases | buffa-codegen/src/enumeration.rs:467-622 | constants, or none together with the clashing values of every contested identifier and the values without a valid one |
| EnumAliases.ClaimantIs | buffa-codegen/src/enumeration.rs:507-545 | the values listed for an identifier are those that want it, and, if there are any, the one whose item has it |
| EnumAliases.OwnerIs | buffa-codegen/src/enumeration.rs:507-513 | which is the last value with that item |
| EnumAliases.RecordsWellFormed | buffa-codegen/src/enumeration.rs:176-239 | the results on aliases ask of an enum only that its values have different names |
| EnumAliases.ItemsDiffer | buffa-codegen/src/enumeration.rs:503-506 | items of differently named values have distinct identifiers if and only if no value is a keyword beside its own escape |
| EnumAliases.SameItemSameAlias | buffa-codegen/src/enumeration.rs:494-528 | values that share an item's identifier want the same alias, so that their enum gets none |
| EnumAliases.WithheldExactly | buffa-codegen/src/enumeration.rs:503-545 | nothing is withheld if and only if all identifiers are valid, no two values want the same and none wants another value's |
| EnumAliases.EveryValueReachable | buffa-codegen/src/enumeration.rs:545-585 | when constants are emitted, every value has its CamelCase name, and the constants are distinct from each other and from all items |
| EnumAliases.AliasesDenoteNumbers | buffa-codegen/src/enumeration.rs:545-585 | a CamelCase name denotes the variant with the value's number, and carries the value's deprecation |
| EnumAliases.InvalidExactly | buffa-codegen/src/enumeration.rs:518-528 | which values have no valid identifier: exactly those, with no prefix taken off, whose name goes on with a digit or ends after its leading underscores |
| EnumAliases.InvalidExists | buffa-codegen/src/enumeration.rs:518-528 | `_1` is one, for every enum name |
| EnumDraw.Arbitrary | buffa-codegen/src/enumeration.rs:325-333 | the scaled index is in range and its product fits 64 bits |
| EnumDraw.IndexByStarts | buffa-codegen/src/enumeration.rs:325-333 | the draws of a variant are an interval |
| EnumDraw.DrawIsFair | buffa-codegen/src/enumeration.rs:318-333 | every variant is drawn, and any two by equally many words up to one |
| EnumDraw.DrawsInOrder | buffa-codegen/src/enumeration.rs:325-333 | the draw grows with the word, from the first variant to the last |
| EnumDraw.VariantsFitDraw | buffa-codegen/src/enumeration.rs:325-333 | an enum with a value has between one and 2^32 variants |

## Left out

- Token and `quote!` emission, JSON, text, view and reflection templates, feature gates and extensions: templates over the plans modelled here.
- The import registry: references are modelled with it switched off.
- `FeatureOverrides.ApplyFeatureOverrides`: descriptors are values that the pass returns rewritten, not objects changed in place; only the array of rule marks is updated in place. The one override kind that exists is modelled, without its enum.
- `FeatureMeaning.ResolveField`: only the `enum_type` feature; the other features of the chain take no part in the pass.
- `FieldNames.PlanFieldNames`: a listed oneof may be a synthetic one, which has no struct member, because the sweep goes over all declared oneofs; the assignments inside a warning are a set, where the source keeps a sorted list.
- `KeywordEscapes.PlanKeywordEscapes`: field and oneof renames are one map keyed by member, where the source keeps two maps.
- `RelativePaths.FewestSupers`: speaks of the registered module names, which a keyword package is not declared under.
- Raw identifiers: `r#type` is modelled as the name `type`, from which it differs only in spelling.
- Characters outside ASCII in identifiers; protobuf does not allow them.
- `RegistryPass.BuildRegistry`: Rust paths are sequences of `::` segments, and an empty mapped path has no segment.
- `Sanitizer.SanitizeLine`: how a resolved reference spells its link, and whether the label alone suffices, are parameters, for any choice of which the results hold; the cursor is the rest of the line, and positions are relative to it.
- `DocComments.DocLines`: takes the comment as its lines; splitting at newlines, and the attribute around each line, are not modelled. Markdown containers, lone carriage returns and rustdoc's removal of common indentation are outside the reader.
- Unlinkable or ambiguous references, HTML and link rendering: nothing is claimed about them beyond prose staying prose.
- `EnumValues.GenerateTables`: values carry a name and a number; the two missing-field errors of a malformed descriptor are not modelled.
- `EnumAliases.IdiomaticAliases`: the text of the doc note and of the warning is not modelled, only what it lists.
- `CEscape.Unescape`: works on bytes; error messages are reduced to their kind and value.
- Float defaults, comment lookup tables, the `buffa-build` crate, build scripts and benchmarks.
