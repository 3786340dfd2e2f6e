# Type-annotation intentions for Python, modelled in Dafny

The repository provides two PyCharm intention actions that add type annotations
to a Python file:

- **Add annotation** (`actions/AddAnnotation.kt`). It collects the binding
  targets of the file that can carry an annotation and have none yet.
  - From Python 3.6 on, each target gets a PEP 526 variable annotation.
  - Before 3.6, it gets a PEP 484 type comment.
  - A comment for an unpacking pattern such as `a, (b, c) = ...` is serialised
    as `(T1, (T2, T3))`, with one type and one text range recorded per leaf.
- **Add stub-annotation** (`intentions/AddAnnotation.kt`). It annotates the same
  targets with `Any`. It then rewrites every function of the file:
  - the return annotation becomes `-> Any`;
  - every named parameter other than `self` is re-declared with type `Any`,
    from the last parameter to the first.

The model covers:

- the syntax tree as a closed set of node kinds, with its pre-order walk and
  the two target filters (`canBeAnnotated`, `isAnnotated`);
- the nested type-hint serialiser, as a builder class with its specification
  and correctness lemmas;
- the dispatch of each annotation to the host's insertion utilities;
- both `doInvoke` loops, with their per-target error isolation;
- the document edits of the function path, as a document class.

The host's services are inputs:

- type inference, hint rendering and the PEP 484 compatibility check are an
  `Oracle` value;
- scope, member and `self` resolution are facts carried by each target node;
- the library-file index is one flag of the file, `PyFileModel.inLibrary`.

Modules, one file each:

- `Util` (`util.dfy`): `Option`, order-preserving `Filter`, `Successes` (the
  values of the steps that succeed), `TextRange`, `Join`.
- `Psi` (`psi.dfy`): the tree, the walk, `canBeAnnotated`, `isAnnotated`,
  `SuitableTargets`.
- `TypeHint` (`typehint.dfy`): `generateNestedTypeHint` and
  `getInferredTypeOrObject`.
- `HostInsert` (`insert.dfy`): the insertion utilities and the choice between them.
- `Actions` (`actions.dfy`): `actions/AddAnnotation.kt`.
- `Text` (`text.dfy`): the document buffer.
- `Intentions` (`intentions.dfy`): `intentions/AddAnnotation.kt`.

`canBeAnnotated`, `isAnnotated`, `hasInlineAnnotation`, `isInstanceAttribute`
and `findClassLevelDefinitions` behave the same in both source files. Each is
defined once, in `Psi`. The rows below cite the copy in `actions/AddAnnotation.kt`.
The copy in `intentions/AddAnnotation.kt:133-201` differs only in Kotlin syntax.

## Behaviour notes

- A target with no inferred type gets the type `object`.
- *Add annotation* annotates with the text `Any` together with the inferred
  type. It computes the type's hint text and drops it.
- *Add stub-annotation* replaces an existing return annotation with `-> Any`.
- Unnamed parameter markers (`*`, `/`) and `self` are left as they are.

## Model

| member | source | states |
|---|---|---|
| Psi.Traverse | src/main/kotlin/com/github/nikolaisviridov/testtask/actions/AddAnnotation.kt:51-59 | the accumulator-passing walk appends to `result` exactly the pre-order sites that the selection keeps, in pre-order (shared by `traverseTree`, `traversePsiTreeVariables` and `traversePsiTreeFunctions`) |
| Psi.PreOrder | src/main/kotlin/com/github/nikolaisviridov/testtask/actions/AddAnnotation.kt:51-59 | a node is visited before its children: the walk starts at the element itself |
| Psi.PreOrderLinked | src/main/kotlin/com/github/nikolaisviridov/testtask/actions/AddAnnotation.kt:51-59 | every site of the walk carries its real chain of parents, so the parent and ancestor tests of the filters look at the tree |
| Psi.BindingStatementIndex | src/main/kotlin/com/github/nikolaisviridov/testtask/actions/AddAnnotation.kt:94 | `getParentOfType(WithItem, Assignment, ForPart)` finds the nearest such ancestor; None exactly when no ancestor is one |
| Psi.CanBeAnnotated | src/main/kotlin/com/github/nikolaisviridov/testtask/actions/AddAnnotation.kt:87-95 | false when the direct parent is an import element, comprehension `for`, `global` or `nonlocal`; otherwise true exactly when some ancestor is a with-item, assignment or for-part |
| Psi.HasInlineAnnotation | src/main/kotlin/com/github/nikolaisviridov/testtask/actions/AddAnnotation.kt:159-161 | a binding is annotated inline when it has an annotation value or a type comment, and only then |
| Psi.Candidates | src/main/kotlin/com/github/nikolaisviridov/testtask/actions/AddAnnotation.kt:109-118 | when the AST may be read, the same-named bindings of the control-flow scope; otherwise exactly the file's or class's attributes with the target's name; no candidate list exactly when the AST may not be read and the scope owner is neither a file nor a class |
| Psi.IsInstanceAttribute | src/main/kotlin/com/github/nikolaisviridov/testtask/actions/AddAnnotation.kt:144-157 | false for an unqualified target, outside a class, or outside a function; otherwise true exactly when the qualifier resolves to the function's `self` |
| Psi.ClassTargets | src/main/kotlin/com/github/nikolaisviridov/testtask/actions/AddAnnotation.kt:137-141 | keeps the resolved members that are target expressions at class scope: every such member's binding and only those, empty exactly when there is none, and the first is the binding of the first such member in resolution order |
| Psi.ClassLevelDefinitions | src/main/kotlin/com/github/nikolaisviridov/testtask/actions/AddAnnotation.kt:130-142 | empty when member resolution finds nothing; otherwise every class-scope target expression among the resolved members and only those, the first in resolution order coming first |
| Psi.IsAnnotated | src/main/kotlin/com/github/nikolaisviridov/testtask/actions/AddAnnotation.kt:98-128 | false without a scope owner or a name; an unqualified target with its own annotation value or type comment is annotated; otherwise annotated exactly when some candidate binding has one; a qualified target is annotated exactly when it is an instance attribute with an annotated class-level definition |
| Psi.SuitableTargets | src/main/kotlin/com/github/nikolaisviridov/testtask/actions/AddAnnotation.kt:66-70 | every site it yields is on the walk and suitable: a target expression outside library files, annotatable, not annotated |
| Psi.SuitableTargetsLinked | src/main/kotlin/com/github/nikolaisviridov/testtask/actions/AddAnnotation.kt:51-59 | every target the walk yields carries its real chain of parents, so the binding statement and the topmost pattern found for it lie on its path in the file's tree |
| Psi.SuitableTargetsMembers | src/main/kotlin/com/github/nikolaisviridov/testtask/actions/AddAnnotation.kt:66-70 | a site is a target exactly when the walk visits it and it is suitable; a library file has no targets |
| TypeHint.GetInferredTypeOrObject | src/main/kotlin/com/github/nikolaisviridov/testtask/actions/AddAnnotation.kt:262-265 | the inferred type when there is one, `object` otherwise |
| TypeHint.NestedHint | src/main/kotlin/com/github/nikolaisviridov/testtask/actions/AddAnnotation.kt:234-260 | the functional model of the recursive serialiser: one range for every type recorded, and nothing (an empty hint) for a node that is not a typed expression |
| TypeHint.NestedHintCorrect | src/main/kotlin/com/github/nikolaisviridov/testtask/actions/AddAnnotation.kt:234-260 | serialising a pattern succeeds exactly when every typed leaf's type is compatible; then the text is the pattern's hint text, there is one type per leaf in order, and the ranges locate each leaf's hint inside the text, strictly increasing |
| TypeHint.TupleHintCorrect | src/main/kotlin/com/github/nikolaisviridov/testtask/actions/AddAnnotation.kt:242-251 | a tuple serialises to `(` + its elements' texts joined by `, ` + `)`, with the elements' types and ranges in order |
| TypeHint.ElementsHintCorrect | src/main/kotlin/com/github/nikolaisviridov/testtask/actions/AddAnnotation.kt:244-250 | the first k elements serialise exactly when their leaves are compatible, into their texts joined by `, ` with ranges that locate every leaf |
| TypeHint.LeafHintCorrect | src/main/kotlin/com/github/nikolaisviridov/testtask/actions/AddAnnotation.kt:252-258 | a typed leaf appends one type and one range that starts at the builder length and spans the leaf's hint; an untyped node appends nothing |
| TypeHint.LocatesConcat | src/main/kotlin/com/github/nikolaisviridov/testtask/actions/AddAnnotation.kt:246-249 | appending a separator and an element's hint keeps every earlier range valid and increasing, because the builder only grows |
| TypeHint.ElementsHintFails | src/main/kotlin/com/github/nikolaisviridov/testtask/actions/AddAnnotation.kt:249 | once an element fails, the whole tuple fails |
| TypeHint.AnnotationBuilder.constructor | src/main/kotlin/com/github/nikolaisviridov/testtask/actions/AddAnnotation.kt:227-229 | the builder and both lists start empty |
| TypeHint.AnnotationBuilder.Generate | src/main/kotlin/com/github/nikolaisviridov/testtask/actions/AddAnnotation.kt:234-260 | succeeds exactly when the specification does, and then appends the specified text, types and ranges to the builder's current contents; parentheses pass through to their content |
| TypeHint.AnnotationBuilder.GenerateTuple | src/main/kotlin/com/github/nikolaisviridov/testtask/actions/AddAnnotation.kt:242-251 | the index loop over the elements appends `(`, each element separated by `, `, and `)`, as specified |
| TypeHint.AnnotationBuilder.AppendElement | src/main/kotlin/com/github/nikolaisviridov/testtask/actions/AddAnnotation.kt:246-249 | one loop iteration: `, ` before every element but the first, then the element's hint; it succeeds exactly when the first i + 1 elements serialise, and then the builder holds `(` and their serialisation |
| TypeHint.AnnotationBuilder.AppendLeaf | src/main/kotlin/com/github/nikolaisviridov/testtask/actions/AddAnnotation.kt:252-258 | an incompatible type fails; otherwise appends the type, the range from the current length over the hint's length, and the hint |
| TypeHint.TopmostTarget | src/main/kotlin/com/github/nikolaisviridov/testtask/actions/AddAnnotation.kt:225-226 | the node on the path from the target (the target or one of its ancestors below the nearest binding statement) that is a direct child of that statement; the target itself when that statement is its parent |
| TypeHint.GenerateNestedTypeHint | src/main/kotlin/com/github/nikolaisviridov/testtask/actions/AddAnnotation.kt:224-232 | fails exactly when some leaf of the topmost pattern is incompatible; otherwise yields a nested info that serialises that pattern from offset 0 |
| HostInsert.Dispatch | src/main/kotlin/com/github/nikolaisviridov/testtask/actions/AddAnnotation.kt:196-205 | an instance attribute is annotated on the first class-level definition, or as a standalone attribute when it has none; any other target on itself; the info is passed on unchanged (also lines 211-221, and intentions/AddAnnotation.kt:208-217) |
| Actions.TraverseTree | src/main/kotlin/com/github/nikolaisviridov/testtask/actions/AddAnnotation.kt:51-59 | the target and reference expressions of the file, in pre-order |
| Actions.FindSuitableTargetsUnderCaret | src/main/kotlin/com/github/nikolaisviridov/testtask/actions/AddAnnotation.kt:61-71 | `filterIsInstance` and the three filters chained equal the suitable targets; reference expressions never pass, and the pre-order is kept |
| Actions.IsAvailable | src/main/kotlin/com/github/nikolaisviridov/testtask/actions/AddAnnotation.kt:41-49 | available exactly for a non-docstring Python file with an editor and at least one target; never for a library file |
| Actions.PreferSyntacticAnnotation | src/main/kotlin/com/github/nikolaisviridov/testtask/actions/AddAnnotation.kt:185-187 | the language level is 3.6 or later |
| Actions.VariableAnnotationCall | src/main/kotlin/com/github/nikolaisviridov/testtask/actions/AddAnnotation.kt:189-206 | fails exactly when the inferred type is incompatible; otherwise the insertion that the dispatch chooses for the target (first class-level definition, standalone attribute, or the target itself), with text `Any` and the inferred type |
| Actions.TypeCommentCall | src/main/kotlin/com/github/nikolaisviridov/testtask/actions/AddAnnotation.kt:208-222 | fails exactly when a leaf of the pattern is incompatible; otherwise the type-comment insertion that the dispatch chooses for the target, with a nested hint that serialises the pattern |
| Actions.PlannedCall | src/main/kotlin/com/github/nikolaisviridov/testtask/actions/AddAnnotation.kt:170-180 | level 3.6 or later takes the annotation path and fails only on an incompatible inferred type; earlier levels take the type-comment path and fail only on an incompatible leaf |
| Actions.SuitableAnnotatable | src/main/kotlin/com/github/nikolaisviridov/testtask/actions/AddAnnotation.kt:225 | every target has a binding-statement ancestor, so the type-comment path always finds one |
| Actions.InsertFor | src/main/kotlin/com/github/nikolaisviridov/testtask/actions/AddAnnotation.kt:170-180 | one loop iteration makes the planned call, or none when the exception is caught |
| Actions.DoInvoke | src/main/kotlin/com/github/nikolaisviridov/testtask/actions/AddAnnotation.kt:163-183 | nothing without an editor; otherwise the calls are the planned calls of the targets that succeed, in target order |
| Actions.InsertAll | src/main/kotlin/com/github/nikolaisviridov/testtask/actions/AddAnnotation.kt:169-181 | the loop over the targets collects each target's planned call where it succeeds, in target order, and skips a target whose exception is caught |
| Actions.FailureSkipsOnlyThatTarget | src/main/kotlin/com/github/nikolaisviridov/testtask/actions/AddAnnotation.kt:169-181 | the calls split around any target: those before it, its own call if it succeeds, and those after it, which a failure does not disturb |
| Actions.InvokeCalls | src/main/kotlin/com/github/nikolaisviridov/testtask/actions/AddAnnotation.kt:169-181 | a call is made exactly when it is the planned call of some target |
| Util.SuccessesAround | src/main/kotlin/com/github/nikolaisviridov/testtask/actions/AddAnnotation.kt:169-181 | a step that fails contributes nothing and leaves the steps before and after it as they would be on their own |
| Util.FilterFilter | src/main/kotlin/com/github/nikolaisviridov/testtask/actions/AddAnnotation.kt:66-70 | a chain of filters is one filter by the conjunction of the conditions |
| Text.Splice | src/main/kotlin/com/github/nikolaisviridov/testtask/intentions/AddAnnotation.kt:253-260 | the text before the range is kept, the new text follows, then the text after the range |
| Text.Document.ReplaceString | src/main/kotlin/com/github/nikolaisviridov/testtask/intentions/AddAnnotation.kt:253 | the range is replaced by the string |
| Text.Document.InsertString | src/main/kotlin/com/github/nikolaisviridov/testtask/intentions/AddAnnotation.kt:258-260 | the string is inserted at the offset |
| Intentions.TraversePsiTreeVariables | src/main/kotlin/com/github/nikolaisviridov/testtask/intentions/AddAnnotation.kt:81-90 | the target expressions of the file, in pre-order |
| Intentions.FunctionsOf | src/main/kotlin/com/github/nikolaisviridov/testtask/intentions/AddAnnotation.kt:92-104 | only function definitions, with no filter for already annotated ones |
| Intentions.TraversePsiTreeFunctions | src/main/kotlin/com/github/nikolaisviridov/testtask/intentions/AddAnnotation.kt:92-104 | the per-node library check gives no functions in a library file and every function in pre-order otherwise |
| Intentions.FindSuitableTargets | src/main/kotlin/com/github/nikolaisviridov/testtask/intentions/AddAnnotation.kt:106-114 | the three filters over the variable walk equal the suitable targets, in pre-order |
| Intentions.IsAvailable | src/main/kotlin/com/github/nikolaisviridov/testtask/intentions/AddAnnotation.kt:41-50 | available exactly for a non-docstring Python file with an editor that has a target or a function; never for a library file |
| Intentions.VariableCall | src/main/kotlin/com/github/nikolaisviridov/testtask/intentions/AddAnnotation.kt:203-218 | fails exactly when the type `Any` is incompatible, the same for every target; otherwise an annotation insertion with text `Any` and type `Any` (lines 76-79 give both) |
| Intentions.AnnotateVariables | src/main/kotlin/com/github/nikolaisviridov/testtask/intentions/AddAnnotation.kt:56-62 | the loop over the targets keeps the steps of the targets whose annotation succeeds, in target order, and skips the rest |
| Intentions.AnnotateFunctions | src/main/kotlin/com/github/nikolaisviridov/testtask/intentions/AddAnnotation.kt:64-67 | the loop over the functions annotates each one whose file can be made writable, in order, and leaves the others alone |
| Intentions.DoInvoke | src/main/kotlin/com/github/nikolaisviridov/testtask/intentions/AddAnnotation.kt:52-68 | nothing without an editor; otherwise the variable calls that succeed, in order, then every writable function, in order |
| Intentions.VariablesBeforeFunctions | src/main/kotlin/com/github/nikolaisviridov/testtask/intentions/AddAnnotation.kt:55-67 | the variable part holds only variable annotations and the function part only function annotations |
| Intentions.EveryFunctionAnnotated | src/main/kotlin/com/github/nikolaisviridov/testtask/intentions/AddAnnotation.kt:64-67 | every writable function of a non-library file is annotated, whatever happened to the variables |
| Intentions.VariableStepsAllOrNothing | src/main/kotlin/com/github/nikolaisviridov/testtask/intentions/AddAnnotation.kt:56-62 | with `Any` incompatible no variable is annotated; otherwise every target is, in order, with its dispatched call |
| Intentions.ReturnSplice | src/main/kotlin/com/github/nikolaisviridov/testtask/intentions/AddAnnotation.kt:247-261 | an existing annotation's range becomes exactly `-> Any`; without one, ` -> Any` goes at the colon's start, or ` -> Any:` at the end of the last token when it is not a colon; everything else is unchanged |
| Intentions.AnnotateReturnType | src/main/kotlin/com/github/nikolaisviridov/testtask/intentions/AddAnnotation.kt:246-262 | the document's new text is that splice of its old text |
| Intentions.ReturnSpliceKeepsParameters | src/main/kotlin/com/github/nikolaisviridov/testtask/intentions/AddAnnotation.kt:271-272 | the return splice leaves every parameter's text at its offsets, so the parameters read afterwards are the ones read before |
| Intentions.NewDecl | src/main/kotlin/com/github/nikolaisviridov/testtask/intentions/AddAnnotation.kt:233-238 | a rewritten parameter keeps its name (`""` when absent) and default text and gets type `Any` |
| Intentions.AnnotateParameter | src/main/kotlin/com/github/nikolaisviridov/testtask/intentions/AddAnnotation.kt:228-244 | the parameter's range is replaced by the rendered new declaration |
| Intentions.RebuildStep | src/main/kotlin/com/github/nikolaisviridov/testtask/intentions/AddAnnotation.kt:273-277 | in reverse order, the text up to the end of the next parameter is still the original, and splicing that parameter extends the left-to-right rewrite by one |
| Intentions.RebuildUntouched | src/main/kotlin/com/github/nikolaisviridov/testtask/intentions/AddAnnotation.kt:274 | a function whose parameters are all unnamed or `self` keeps its parameter text |
| Intentions.GeneratePy3kTypeAnnotations | src/main/kotlin/com/github/nikolaisviridov/testtask/intentions/AddAnnotation.kt:270-278 | the return annotation first, then the parameters last to first; the result equals the left-to-right rewrite of every named non-`self` parameter; at each step the parameters still to do keep their original text and offsets |
| Intentions.AnnotateTypes | src/main/kotlin/com/github/nikolaisviridov/testtask/intentions/AddAnnotation.kt:220-225 | a function that cannot be prepared for writing is left alone; otherwise its signature is annotated |

## Left out

- Type inference, `getTypeHint` and `checkPep484Compatibility` belong to the host.
  - They are the fields of an `Oracle` value.
  - The compatibility exception is a None result.
- Scope, control-flow-scope, class-member and `self` resolution belong to the
  host, and so does `ProjectFileIndex.isInLibraryClasses`.
  - Their answers are fields of `TargetFacts` and `PyFileModel`.
  - The library flag is per file, because the source always asks about the
    target's containing file.
- HostInsert.Dispatch decides from the facts that discovery saw.
  - The source asks `isInstanceAttribute` again with a user-initiated type
    context, whose answer to `maySwitchToAST` can differ from discovery's.
  - The source resolves the class-level definitions again at insertion time
    (actions/AddAnnotation.kt:196-197 and 211-212). By then the insertions for
    earlier targets have changed the tree, so a later target's dispatch can
    differ from what the discovery-time facts give.
  - The fallback `PyUtil.isInstanceAttribute` folds into the same `qualifierIsSelf` flag.
- The text written by `PyTypeHintGenerationUtil.insert*` is not part of this model.
  - A call is recorded as utility, binding and info.
  - What `createParameter` renders is a parameter `render`.
- Intentions.DoInvoke records which functions are annotated, not the text of
  the whole file.
  - The source re-reads each function's offsets from the re-parsed tree after
    the earlier edits.
  - The effect on one function's text is Intentions.AnnotateTypes.
- Intentions.AnnotateReturnType does not model the steps after the edit:
  - the re-commit and `forcePsiPostprocessAndRestoreElement`;
  - reading back the new annotation, including the `error` when it is missing;
  - the null result when the document update fails.
- Intentions.AnnotateParameter does not model the caret move or the
  post-processing of the new parameter.
- `WriteAction`, `HintManager` error hints and the editor's `null` check inside
  `annotateTypes` are editor plumbing. `FileModificationService` is kept only as
  the `writable` flag.
- Intentions.VariableCall uses the type `Builtin("Any")` for
  `getObjectType("Any")`. The builtin cache may return no type there.
- `resolveReferenceAugAssignmentsAware` and `expandResolveAugAssignments` are
  never called and do only host resolution.
- The commented-out function-annotation code at actions/AddAnnotation.kt:271-317
  is dead code.
- `getText`, `getFamilyName` and `startInWriteAction` return constants for the IDE.
- services/MyProjectService.kt is not part of this model. It only prints a message.
- Offsets and lengths are unbounded naturals. The source's 32-bit `Int` offsets
  never wrap for a document the editor can hold.
