# mdsmith: schema lattice, label scanners, rule dispatch, builds and configuration

mdsmith checks Markdown documents. This project models the parts of it whose correctness is not
visible in any one function, and proves what each of them is for.

- **The schema evaluator** (`cue/cuelite`). Front matter is lifted to a value, met with a schema's
  value, and accepted if the meet is concrete. `Values` and `Syntax` hold the data model, `Meet` the
  meet as a recursion, `MeetLoops` the loops that compute it, `Engine` the same meet with deferred
  fields forced at every struct. `Semantics` gives values an independent
  meaning, the set of documents each one admits. Against it, `MeetSound`, `MeetExact`, `MeetLaws`
  and `MeetWf` prove what a meet is; `Defaults`, `DefaultMeets`, `Likeness`, `Choices` and `MeetOrder`
  prove what becomes of default marks and of operand order; `Validate`, `Acceptance` and `Unions` prove
  which documents pass. `Eval` is the expression evaluator, compiling and forcing. `Meaning` gives
  expressions without references a meaning of their own, the documents they admit as written, and
  `Combining`, `Constructs`, `Compounds`, `Denotes` and `DeepMeaning` prove that compiling and validating
  keep to it; `Typing` says what compiles and what is refused at once, `Alternatives` what a mark or an
  equal alternative does. `EvalLaws`, `References` and `ThunkEscape` prove what a deferred expression
  depends on and where it may occur. `Thunks`, `ThunkLaws`, `ThunkOrder` and `ThunkSwap` treat the
  fixpoint that resolves deferred fields, and `DeferredSchemas` validation against them.
- **The label scanners**. `Escapes`, `Multiline` and `Paths` model the passes that search for a
  close delimiter, check escapes, strip CR and decode; each pass takes for granted what an earlier
  one established, and here that is its precondition; `SecondSearch` says where a pass that looks
  again ends. `Quoting`, `MultilineQuoting` and
  `PathQuoting` prove that parsing undoes printing, `Refusals` what no path may be. `DupKeys` is the duplicate-key scan over a token
  stream.
- **Rule dispatch**. `KindTable` is the pooled table and the shared tree walk; `WorkerPool` is the
  semaphore-bounded pool as a state machine, used by `CheckSlots` for rules and by `Builds` for build
  targets; `BuildModes` says what the options of a build and its exit code mean.
- **Text edits**. `Lines` and `Edits` are the rename splicer, `Conflicts` the merge driver's line
  machine.
- **Configuration**. `Settings` merges rule settings as values and `SettingsHeap` as the mutable maps
  and slices they are; `ConfigLayers` folds the layers twice, once to apply and once to explain, with
  `StructureRule` for the one rule whose folds differ; `Precedence` and `WordLists` read off the
  configuration alone which layer decides and which lists add up; `MemoKey` is the key under which results are
  shared.

A function is a recursive specification. A method has the loops, maps, arrays or objects of the
source and is proved equal to such a function; the lemmas are about the functions. Clocks, the disk,
subprocesses, the pattern engine and the Unicode letter classes are parameters.

## What the proofs found

The code does not everywhere do what its comments say. Each point names the lemma that shows it.

- `cue/cuelite/value.go:127-129` says operand order does not matter. With struct branches it does: folding equal
  structs ignores closedness and keeps the first one met (`MeetOrder.StructChoicesDoNotCommute`). It does not
  where the folded branches agree (`MeetOrder.AgreeingCommutes`). With deferred fields
  it does too: the scope binds the second operand's value over the first's, so a schema's
  default can replace the document's value in a comparison (`ThunkOrder.OperandOrderMatters`). It does not
  where no name read is bound by both (`ThunkSwap.SwapOnlySwaps`).
- Two defaults that meet to a value with an open list are lost when several branches survive: the list equals nothing,
  itself included (`DefaultMeets.OpenDefaultIsLost`). Other concrete defaults survive as the comments at
  `cue/cuelite/unify.go:448-456` say (`DefaultMeets.BothDefaultsMeet`, `DefaultMeets.FirstDefaultMeets`).
- A choice folds equal alternatives and keeps the first. If the first is the stricter, as in
  `close({a: 1}) or {a: 1}`, documents the other admits are lost, and only then (`Alternatives.FoldKeepsIffLaxer`).
- A name bound to a defaulted choice is read as the default (`cue/cuelite/eval.go:147-154`); the same choice written as
  an operand of `==` is not, and equals nothing (`Alternatives.DefaultIsNotRead`).
- An undeclared optional field met with a closed struct becomes a required bottom, so the meet can be
  smaller than the intersection (`MeetExact.StrayOptionalLosesMembers`).
- A document can be a member of a schema and be refused, if a disjunction branches over structs, or
  over lists that hold disjunctions of lists (`Acceptance.StructBranchesCanReject`,
  `Acceptance.NestedListBranchesCanReject`); which ones pass is `Unions.AcceptedIffSurvivors`.
- `cue/cuelite/eval.go:328-335` defers an `&` so that an undeclared name is refused at compile. Where a sibling is
  concrete but still holds a thunk, an `&` inside a struct literal is deferred once more, in a struct that does
  not declare the name it reads. That happens when data meets the schema (`ThunkEscape.DeferredMeetEscapes`) and
  already in the compiler (`ThunkEscape.CompilingCanEscape`). It does not happen if no alternative of a
  disjunction and no open tail of a list is deferred (`References.CompilingClosesReferences`).
- `cue/cuelite/multiline.go:122` says an offset is never negative. Stripping CR can remove the close delimiter
  altogether; the label is still refused (`Multiline.StrippedCloseCanVanish`, and exactly when in
  `SecondSearch.SecondSearchIff`).
- `cmd/mdsmith/buildjobs.go:26-27` relies on disjoint outputs. Where one target's output is another's input,
  the concurrent pass can skip a target the serial pass rebuilds (`Builds.ChainedTargetsDiffer`); when it does is
  `Builds.FreshTargetRerunIff`.
- `internal/config/merge.go:433` says kind names cannot hold control bytes. The key needs only that they lack U+001F, and
  needs that (`MemoKey.KeyInjective`, `MemoKey.SeparatorInNameCollides`).
- The explained configuration keeps `lists:` (`ConfigLayers.ExplainedIffApplied`). For required-structure it also
  lacks the file a schema comes from, lists what a kind declares behind what the kind's own settings list,
  and enables the rule where those disable it (`internal/config/merge.go:489-503` pushes before it merges,
  `internal/config/provenance.go:274-304` after); `StructureRule.StructureRuleIff` says when none of this shows.

## Model

| member | source | states |
|---|---|---|
| MeetSound.MeetIsSound | cue/cuelite/unify.go:18-66 | A document admitted by the meet of two well-formed values is admitted by both: through bounds, closedness, optional fields, open tails, branch pruning and folding. |
| MeetExact.MeetIsExact | cue/cuelite/unify.go:18-66 | Without disjunctions the meet admits exactly the common documents on which, at every depth, no field of one side (optional ones included) is undeclared in a closed opposite. |
| MeetExact.MeetIsIntersection | cue/cuelite/unify.go:605-659 | If every optional field is declared opposite, or the opposite is open, the meet denotes the intersection. |
| MeetExact.StrayOptionalLosesMembers | cue/cuelite/unify.go:635-642 | The proviso is needed: `{a?: _}` and `close({})` both admit the empty document, their meet admits nothing. |
| MeetWf.MeetIsWf | cue/cuelite/unify.go:18-66 | Meets keep the shape every later pass relies on: unique names, bounds that fit and do not clash, disjunctions of at least two live non-disjunction branches. |
| MeetLaws.MeetCommutes | cue/cuelite/unify.go:18-66 | Without disjunctions the order of the operands changes only the order of fields and of bounds. |
| MeetLaws.MeetAssociates | cue/cuelite/unify.go:18-66 | Without disjunctions three values may be met in either grouping. |
| MeetLaws.MeetIsIdempotent | cue/cuelite/unify.go:18-66 | A disjunction-free value met with itself is itself. |
| MeetLoops.UnifyV | cue/cuelite/unify.go:18-66 | The evaluator with its accumulating loops computes the recursive meet the laws are about. |
| MeetLoops.UnifyBoundLeftV | cue/cuelite/unify.go:313-340 | Appending the bounds and searching for a clash gives the meet of two bounded types. |
| MeetLoops.FindClash | cue/cuelite/unify.go:357-377 | The double loop finds a lower and an upper bound with nothing between them exactly if there are such. |
| MeetLoops.UnifyStructV | cue/cuelite/unify.go:619-659 | The two field passes with an index table and a set of seen names compute the struct meet of values with nothing to force. |
| Engine.UnifyStructV | cue/cuelite/unify.go:605-659 | The forcing loop followed by the two field passes is the struct meet of the evaluator, thunks included. |
| Engine.EngineIsMeet | cue/cuelite/unify.go:18-66 | On values without thunks at any depth the evaluator's meet, forcing at every struct, is the meet the laws are about. |
| Engine.EngineKeepsThunks | cue/cuelite/unify.go:18-66 | At every depth of nesting the thunks of a meet, where a force pass looks, are thunks of its operands. |
| MeetLoops.UnifyListV | cue/cuelite/unify.go:871-899 | The index loop with tails and length checks computes the list meet. |
| MeetLoops.MeetBranchesV | cue/cuelite/unify.go:516-544 | One pass over the cross product, sorting clean from broken meets, gives the branches that survive. |
| MeetFacts.BrokenIff | cue/cuelite/unify.go:572-598 | A meet counts as broken exactly if a bottom is buried in it, under fields, elements or the rest of an open list, and not inside a disjunction. |
| MeetFacts.BottomIff | cue/cuelite/access.go:43-61 | The test that optional fields and sources use finds the same bottoms but those in the rest of a list. |
| MeetLoops.DedupeV | cue/cuelite/eval.go:667-685 | The nested search loop that folds equal concrete branches and raises their mode is the fold the proofs use. |
| MeetLoops.UnifyDisjunctionV | cue/cuelite/unify.go:418-446 | Pruning, folding, collapsing a single survivor and re-marking, in loops, give the meet of a disjunction. |
| MeetLoops.MeetDefaultV | cue/cuelite/unify.go:457-470 | The case analysis over surviving operand defaults gives the reconciled default. |
| DefaultMeets.BothDefaultsMeet | cue/cuelite/unify.go:457-470 | If both operands have a default, each meets the other operand without bottom, and the two meet to a concrete value without an open list, the meet resolves to what that value resolves to. |
| DefaultMeets.FirstDefaultMeets | cue/cuelite/unify.go:457-470 | If only the first operand's default meets the other operand, whatever that is, the meet resolves to what that meet resolves to. |
| DefaultMeets.SecondDefaultMeets | cue/cuelite/unify.go:457-470 | Likewise if only the second operand's default lives. |
| DefaultMeets.NoDefaultLeft | cue/cuelite/unify.go:457-472 | If no operand's default lives, or what the living ones meet to is not concrete, the meet is concrete only by its branches: exactly if all that survive are one concrete value. |
| DefaultMeets.SelfMeetKeepsDefault | cue/cuelite/unify.go:457-470 | A disjunction with a concrete default, met with itself, keeps that default. |
| DefaultMeets.OpenDefaultIsLost | cue/cuelite/unify.go:133-166 | If the defaults meet to a value that does not equal itself, as one with an open list does not, the mark is lost: again only the branches decide. |
| Defaults.ConcreteEqualSymmetric | cue/cuelite/unify.go:133-163 | Concrete equality is symmetric, structs compared through the index of the second one included. |
| Defaults.ConcreteEqualTransitive | cue/cuelite/unify.go:133-163 | Concrete equality is transitive. |
| Defaults.DedupeDistinct | cue/cuelite/eval.go:667-685 | No two folded branches are equal concrete values. |
| Defaults.DedupeKeeps | cue/cuelite/eval.go:667-685 | Folding loses no branch: each one, or an equal concrete one, is still there. |
| Defaults.MeetDefaultIsUnambiguous | cue/cuelite/unify.go:418-446 | A meet never builds an ambiguous default, and branch k is the default exactly if it equals the default reconciled from the operands. |
| Choices.DisjunctionsCommute | cue/cuelite/unify.go:418-446 | If the branches commute pair by pair, two disjunctions meet alike in both orders (same branches, each as often, same default marks) exactly if the first of every set of folded branches is alike in both. |
| MeetOrder.AgreeingCommutes | cue/cuelite/value.go:122-136 | The promise that operand order does not matter, for any two well-formed values, disjunctions at any depth: it holds wherever the branches that fold agree in closedness and optionality with the first one kept. |
| MeetOrder.CommutesIffAgreeing | cue/cuelite/value.go:122-136 | Where branches hold no further disjunction the promise holds exactly under that condition. |
| MeetOrder.DataInEitherOrder | cue/cuelite/value.go:122-136 | Data meets every well-formed schema alike in both orders. |
| MeetOrder.RegularChoicesCommute | cue/cuelite/value.go:122-136 | The promise holds for all values whose branches are open structs with required fields, or struct-free. |
| Likeness.AlikeIffFlags | cue/cuelite/unify.go:133-163 | Two values the folding takes for one are alike exactly if all their structs agree in closedness and all their fields in optionality. |
| MeetOrder.StructChoicesDoNotCommute | cue/cuelite/value.go:122-136 | Otherwise it fails: for `{a: int}` or `{a: 1}`, met with `close({a: int})` or `{a: 1}`, one order admits `{a: 1, b: 1}`, as both operands do, and the other does not. |
| Validate.NoLeavesIffConcrete | cue/cuelite/validate_engine.go:31-139 | Validation reports no leaf exactly for concrete values: the collector and the concreteness test agree on every shape. |
| Validate.LeafIff | cue/cuelite/validate_engine.go:82-139 | A path is reported exactly if walking it, through defaults and past absent optionals, reaches a failing node. |
| Validate.LeavesOnce | cue/cuelite/validate_engine.go:82-139 | No path is reported twice. |
| Validate.ResolveIsMember | cue/cuelite/validate_engine.go:42-77 | The document a concrete value stands for, defaults taken and absent optionals dropped, is admitted by it. |
| Validate.LiftedAdmitsExtensions | cue/cuelite/lift.go:136-177 | Lifted data denotes exactly the extensions of the data: open structs, closed lists. |
| Validate.ValidationIsSound | cue/cuelite/validate_engine.go:17-139 | If data lifted in any field order passes against a schema, the resolved result extends the data and is admitted by the schema. |
| Acceptance.AcceptedIffConforms | cue/cuelite/validate_engine.go:17-139 | If disjunctions branch over struct-free values (nested ones over scalars) and no optional field is bottom, data passes exactly if it conforms: each field present fits, each absent one is optional or has a concrete value of its own. |
| Acceptance.MembersAreAccepted | cue/cuelite/value.go:157-170 | Completeness: on that fragment data that is a member of the schema passes. |
| Acceptance.StructBranchesCanReject | cue/cuelite/unify.go:516-544 | Struct branches must be excluded: `{a: 1}` is a member of `{a: 1}` or `{a: 1, b: int}` and is refused. |
| Acceptance.NestedListBranchesCanReject | cue/cuelite/unify.go:572-598 | So must disjunctions of lists inside branches: `[[1]]` is refused by a choice of `[[1]]` and a list of `[2]` or `[3]`, though it is a member. |
| Unions.UnionConcrete | cue/cuelite/unify.go:418-446 | The meet of a disjunction with anything is concrete exactly if its surviving branch meets are all one concrete value, or one of them is the reconciled default. |
| Unions.AcceptedIffSurvivors | cue/cuelite/validate_engine.go:17-139 | Data passes a choice of any branches, structs included, exactly if some branch survives it and the survivors agree on one concrete value or hold what the default branch makes of the data. |
| Unions.OneCleanBranch | cue/cuelite/unify.go:516-544 | If one branch alone meets the data without a bottom, the choice is that branch and accepts what that branch accepts. |
| Unions.TaggedUnion | cue/cuelite/unify.go:516-544 | Of data with a value under the tag's name: a union whose branches require different scalars there refuses it if the value is none of them, accepts only what the tagged branch accepts, and accepts all of that if the branch meets the data without a buried bottom. |
| Semantics.ClashIff | cue/cuelite/unify.go:391-403 | Two numeric bounds clash exactly if no number satisfies both; on strings likewise, unless both bounds are strict. |
| Constructs.CompareMeans | cue/cuelite/eval.go:482-514 | A comparison of constants is the truth of the relation between their values: numbers across kinds by value, strings in dictionary order, patterns by match. |
| Constructs.BoundAdmits | cue/cuelite/compile.go:558-589 | A bound admits exactly the scalars of its operand's kind that stand in the written relation to it. |
| Meaning.StrLtIsBefore | cue/cuelite/unify.go:250-264 | The recursive order of strings is that of a dictionary: a common start, then the end of the one or a smaller character. |
| Denotes.EvalDenotes | cue/cuelite/eval.go:57-88 | An expression without references evaluates to a value that admits only what is written, and all of it if no meet or fold on the way loses a document: literals, types, signs, bounds, patterns, choices, meets, comparisons, lists, picks, conditional elements, structs, optional and repeated keys, embedded values, `close`, `MinRunes`. |
| Constructs.KeywordsAreNoReferences | cue/cuelite/eval.go:858-864 | The names that are no references are exactly those with a value of their own, and the type keywords those that name a type. |
| Denotes.NamesDenote | cue/cuelite/compile.go:596-620 | The fields a struct expression compiles to are the keys it is written with, through meets, embedding and `close`. |
| DeepMeaning.EvalSettles | cue/cuelite/eval.go:57-88 | On such expressions the evaluator with its own forcing meet, from some depth on, gives what it gives with the plain meet. |
| DeepMeaning.SourceMeans | cue/cuelite/compile.go:23-61 | What the engine compiles a source without references to admits what is written, and strictly exactly that. |
| DeepMeaning.ValidationMeans | cue/cuelite/value.go:157-170 | End to end: a document that passes against a compiled source, completed with defaults, is what the source admits; on tame schemas every document the source admits passes. |
| Combining.CombinesKeeps | cue/cuelite/unify.go:18-66 | A meet loses no common document if both values are choices of scalars, or hold no choice and no optional field faces a closed struct that does not declare it. |
| Typing.WellFormedCompiles | cue/cuelite/compile.go:298-322 | Every expression whose operators have operands of the right sort compiles. |
| Typing.LabelsAllowed | cue/cuelite/compile.go:417-455 | A field under a hidden, definition or bare type label refuses its struct in any scope. |
| Typing.HopelessIsRefused | cue/cuelite/eval.go:352-412 | A comparison with an operand no data can make right is refused even while the other operand waits. |
| Typing.BadElementRefused | cue/cuelite/eval.go:207-247 | An element that can never evaluate refuses the list picked from, whatever the other elements wait for. |
| Typing.BadBodyRefused | cue/cuelite/eval.go:304-309 | So does the body of a conditional element, whatever its condition waits for. |
| Alternatives.MarkedIsDefault | cue/cuelite/eval.go:547-583 | A choice of unmarked alternatives and one marked concrete one, first or last, resolves to the marked one, whatever folds. |
| Alternatives.NestedDefaultStays | cue/cuelite/eval.go:591-610 | A choice in parentheses keeps its default as an alternative of a larger choice that marks nothing else. |
| Alternatives.MarkedChoiceIsOpen | cue/cuelite/eval.go:591-610 | A mark before a choice covers all its alternatives, so two different concrete ones leave no default. |
| Alternatives.TwoMarksAreOpen | cue/cuelite/eval.go:621-659 | Two marks on different concrete values leave no default, whatever folds. |
| Alternatives.BuildOpen | cue/cuelite/eval.go:621-659 | Without a mark a choice of several is open. |
| Alternatives.FoldKeepsIffLaxer | cue/cuelite/eval.go:667-685 | Folding two equal alternatives keeps every document they admit exactly if the first is nowhere the stricter in closedness or optionality. |
| Alternatives.DefaultIsNotRead | cue/cuelite/eval.go:523-530 | A defaulted choice written as an operand equals nothing, though a name bound to it is read as its default. |
| Alternatives.NamedDefaultIsRead | cue/cuelite/eval.go:112-156 | The name of a field that holds a defaulted choice is read as the default. |
| Thunks.ForceThunkFixpoint | cue/cuelite/unify.go:670-703 | The loop bounded by the number of fields computes the unbounded fixpoint: it never runs out of passes while a soft force is possible. |
| Thunks.PassGrows | cue/cuelite/unify.go:670-723 | A pass only adds names to the scope, and the scope has no more names than the two structs have fields. |
| Thunks.ForceKeepsConcrete | cue/cuelite/unify.go:812-854 | Forcing never makes a concrete value incomplete, whatever its thunks evaluate to; the default of a rebuilt disjunction survives. |
| ThunkLaws.TidyPassesAreClean | cue/cuelite/unify.go:710-723 | Where thunks are fields or list elements, no pass ever builds a scope that holds a thunk. |
| ThunkLaws.QuietPassesAreClean | cue/cuelite/unify.go:710-723 | Nor where they are branches of disjunctions without a default. |
| ThunkLaws.SoftForceExhausts | cue/cuelite/unify.go:792-800 | A soft force leaves no thunk the scope could resolve, and makes none. |
| ThunkLaws.SettleIsSettled | cue/cuelite/unify.go:670-703 | When the passes stop, no remaining thunk has all its references concrete, and no name was lost. |
| ThunkLaws.SettledNamesAreLeast | cue/cuelite/unify.go:670-703 | The concrete names at the end lie in every set closed under "all references concrete makes the field concrete". |
| ThunkOrder.OrderDoesNotMatter | cue/cuelite/unify.go:670-703 | If thunks, in fields or list elements, read only names whose binding no pass replaces, forcing early or late gives every field the value it has in the final scope. |
| ThunkOrder.CompiledThunksAreLocal | cue/cuelite/eval.go:800-812 | What the compiler defers depends on the recorded references alone and yields no thunk in a thunk-free scope. |
| ThunkOrder.SchemaCompiles | cue/cuelite/compile.go:186-216 | The schema of the counterexample below is what its source compiles to. |
| ThunkOrder.OperandOrderMatters | cue/cuelite/unify.go:710-723 | The second operand's default overrides the first operand's data in the scope, so data met with schema resolves a field to true and schema met with data to false. |
| ThunkSwap.SwapOnlySwaps | cue/cuelite/unify.go:710-723 | Swapping the operands swaps what they resolve to and changes nothing else, if every name a thunk reads is bound by one of the two structs only, or can never become concrete in one of them, or is bound alike by both. |
| ThunkSwap.SharedNameTells | cue/cuelite/unify.go:710-723 | Where both structs bind a name to concrete values, a field whose expression reads that name alone resolves to what the expression makes of the second operand's value, whichever that is. |
| ThunkSwap.ReadersCompile | cue/cuelite/compile.go:331-344 | The compiler defers `[n][0]` and `n == l` as such fields. |
| ThunkSwap.ReadersTell | cue/cuelite/unify.go:710-723 | So the condition is needed: a swap changes a field `[n][0]` exactly if the two values read differently, and a field `n == l` exactly if one of them alone equals the literal. |
| EvalLaws.DependsOnNames | cue/cuelite/eval.go:57-88 | Two scopes that agree on the names of an expression give it the same value or the same failure. |
| EvalLaws.DependsOnRefs | cue/cuelite/eval.go:819-854 | The recorded references, bound comprehension variables left out, are all that a deferred expression depends on. |
| EvalLaws.LargerScope | cue/cuelite/eval.go:57-88 | What evaluates under a scope evaluates to the same value under every larger one. |
| EvalLaws.ForcedHasNoThunk | cue/cuelite/eval.go:57-343 | In a thunk-free scope evaluation leaves no thunk where a force pass looks, nested structs and dropped branches included. |
| EvalLaws.NeedsConcrete | cue/cuelite/eval.go:57-88 | If a forced expression evaluates, every name in a position it must read is concrete in the scope. |
| References.CompiledIsMade | cue/cuelite/compile.go:298-322 | What a neat expression compiles to, a thunk included, is scoped and reads only the expression's own names; an inert one leaves no thunk. |
| References.StepIsFit | cue/cuelite/unify.go:605-659 | If thunks wait only as fields, list elements or branches that are all stuck, the forcing and the meet keep every thunk of a struct reading the struct's own names, and keep that shape. |
| References.EngineIsFit | cue/cuelite/unify.go:18-66 | At every depth of nesting the evaluator's own meet, forcing included, keeps references closed and makes no thunk and no reference. |
| References.ExprIsMade | cue/cuelite/eval.go:57-812 | Whatever a neat expression evaluates to, compiling or forcing, is scoped and reads only the expression's own names. |
| References.CompilingClosesReferences | cue/cuelite/compile.go:23-61 | Whenever a source compiles in which no alternative of a disjunction and no open tail of a list is deferred, every thunk in a struct reads only names of that struct, none is free, and no bottom is buried in fields or list elements. |
| References.ForcingKeepsScoped | cue/cuelite/unify.go:812-854 | Forcing a neat expression in a scope of such values without thunks keeps references closed and leaves no thunk. |
| ThunkEscape.CompilingCanEscape | cue/cuelite/compile.go:23-61 | Otherwise it can fail: with any expression that compiles to a concrete value holding a thunk, a source that meets two structs compiles to a struct with a thunk reading a name it does not declare. |
| ThunkEscape.DeferredMeetEscapes | cue/cuelite/eval.go:315-344 | And with any such expression a source compiles in which data makes the first pass force a field whose inner `&` is deferred again, inside a struct that does not declare the name it reads. |
| ThunkEscape.ExcludedShapesWait | cue/cuelite/eval.go:547-583 | A deferred alternative beside a default and a deferred open tail, which neat sources exclude, are such expressions. |
| DeferredSchemas.DeferredMeetIsPlain | cue/cuelite/unify.go:605-659 | Data met with a schema that has deferred fields is data met with what those fields resolve to. |
| DeferredSchemas.DeferredValidationIsSound | cue/cuelite/validate_engine.go:17-139 | A document that passes such a schema resolves to an extension of the data that the resolved schema admits. |
| DeferredSchemas.FailedFieldRefuses | cue/cuelite/eval.go:800-812 | If in the final scope the expression of a field still waiting fails, the document is refused. |
| DeferredSchemas.UnboundFieldRefuses | cue/cuelite/eval.go:800-812 | So it is if such a field must read a name that has no concrete value there. |
| DeferredSchemas.DeferredFieldIsMet | cue/cuelite/unify.go:670-703 | Where the expression evaluates, the document's field is met with its value. |
| Escapes.CloseIndexLoop | cue/cuelite/path.go:664-684 | The delimiter search, skipping each introducer with its selector, finds the first real close. |
| Escapes.CloseLeavesAligned | cue/cuelite/path.go:664-684 | In what lies before the close, at every hash level, each escape introducer is followed by its selector. |
| Escapes.EscapeStaysAligned | cue/cuelite/unquote.go:93-116 | After any escape it accepts, surrogate pairs included, the decoder stands where the delimiter search stood. |
| Escapes.Unquote | cue/cuelite/unquote.go:278-307 | On aligned bodies the decode loop is total: the selector is indexed without a check and always in range. |
| Multiline.StrippedIsAligned | cue/cuelite/multiline.go:157-174 | When the second delimiter search over the stripped token ends exactly at its end, the stripped body is aligned and starts with its newline. |
| Multiline.SpacesAre | cue/cuelite/multiline.go:259-290 | The white space of an indentation is the twenty-five characters of Unicode's property and no others. |
| Multiline.StrippedCloseCanVanish | cue/cuelite/multiline.go:88-145 | Stripping CR can remove the close: for a level-1 body ending in backslash, CR, `#` the second search finds none, and the label is refused. |
| SecondSearch.SecondSearchIff | cue/cuelite/multiline.go:88-145 | Over any accepted raw body the second search ends at the body's end exactly if no close comes earlier and the stripped body does not end in an introducer without selector; it finds none exactly if no close comes earlier and it does, which takes a hash level and a removed CR. |
| Multiline.RawEscapesOkLoop | cue/cuelite/multiline.go:185-201 | The raw escape check walks the body as its specification does. |
| Multiline.IndentationLoop | cue/cuelite/multiline.go:259-290 | The backward scan finds the indentation before the closing delimiter and where it begins. |
| Multiline.DecodeLinesLoop | cue/cuelite/multiline.go:308-356 | The loop with its two newline flags and a builder decodes aligned bodies as the recursive decoder does. |
| Multiline.ParseMultilineLoop | cue/cuelite/multiline.go:38-56 | Close search, raw check, CR stripping, second search and decoding in sequence, with no index check between them. |
| MultilineQuoting.MultilineRoundTrip | cue/cuelite/multiline.go:38-430 | Any list of lines, each character in any escape style, indented and triple-quoted at any hash level, is delimited where it ends and decodes to the lines joined by newlines. |
| Quoting.HalvesJoin | cue/cuelite/unquote.go:132-167 | Splitting an astral code point into halves and joining them gives it back (sections 2.1 and 2.2 of RFC 2781). |
| Quoting.CodePointRead | cue/cuelite/unquote.go:218-244 | A `\u` or `\U` escape of any digit case and level is read as its code point and width. |
| Quoting.LabelRoundTrip | cue/cuelite/path.go:631-654 | A string written in any mix of literal, short, four-digit, eight-digit and surrogate-pair escapes ends where it was closed, is aligned, and decodes to itself. |
| Quoting.LoneHalfRefused | cue/cuelite/unquote.go:132-167 | A surrogate half not completed by its other half in the same dialect is refused. |
| Paths.ParsePathLoop | cue/cuelite/path.go:142-171 | The cursor loops parse exactly the paths the grammar functions describe, errors included. |
| PathQuoting.PathRoundTrip | cue/cuelite/path.go:142-240 | Any non-empty path of non-empty labels, printed with dots or brackets, parses back to its labels: bare identifiers (at the head no keyword), quoted, raw and triple-quoted strings, with blanks, newlines and comments before them and at the end. Letters and digits are taken to be no white space. |
| PathQuoting.KeywordRefused | cue/cuelite/path.go:465-467 | A head that reads true, false or null is refused, whatever precedes and follows it. |
| PathQuoting.CharactersAre | cue/cuelite/path.go:494-526 | The blanks, identifier starts and identifier characters, one by one within ASCII and by the letter and digit classes beyond. |
| Refusals.LeadingMarkIgnored | cue/cuelite/path.go:142-171 | A byte order mark at the start is passed over. |
| Refusals.ParsedPathIsSound | cue/cuelite/path.go:142-171 | A path that parses has a label, no empty one, no NUL, and a byte order mark at most at its start. |
| Refusals.StrayRefused | cue/cuelite/path.go:212-240 | After any printed start of a path, text that neither continues nor ends it refuses it: junk after a selector, anything after the end, the wrong kind of label after a dot or bracket. |
| Refusals.OneLineOnly | cue/cuelite/unquote.go:278-307 | A label on one line holds no newline and no carriage return, raw or escaped. |
| Refusals.KnownEscape | cue/cuelite/unquote.go:181-208 | An escape that is decoded has one of the selectors of the grammar. |
| Refusals.BlockLinesIndented | cue/cuelite/multiline.go:308-356 | In a block that is read blanks alone precede the close, and every line is empty or starts with them. |
| Refusals.ElidedCloseRefused | cue/cuelite/multiline.go:308-356 | A newline elided right before the closing line elides nothing: the block is refused. |
| DupKeys.ScanDuplicateKeys | cue/cuelite/dupkeys.go:24-77 | The loop over a stack of mutable levels reports what the machine on values reports. |
| DupKeys.HandleToken | cue/cuelite/dupkeys.go:24-77 | One token changes at most the top two levels, exactly as the machine on values does. |
| DupKeys.DupLevel.RecordKey | cue/cuelite/dupkeys.go:188-205 | Takes a token in key position, tells whether the key is a fault, and otherwise remembers it. |
| DupKeys.MachineIsMeaning | cue/cuelite/dupkeys.go:24-77 | On the tokens of any document the machine reports the first fault in document order. |
| DupKeys.FineIffStrict | cue/cuelite/dupkeys.go:24-77 | A document is fine exactly if no object at any depth repeats a U+FFFD-free key and no key has an unpaired surrogate escape; a reported key really repeats. |
| DupKeys.RawScanFindsUnpaired | cue/cuelite/dupkeys.go:110-148 | The raw scan is true exactly if tokenising the escapes of section 7 of RFC 8259 leaves an unpaired surrogate. |
| DupKeys.RawHasLoneSurrogateLoop | cue/cuelite/dupkeys.go:110-148 | The index loop with its manual skips computes that scan. |
| DupKeys.DigitsRead | cue/cuelite/dupkeys.go:152-172 | Four hex digits of either case are read as the number they spell. |
| KindTable.Table.Build | internal/checker/checker.go:297-349 | Whatever the pooled arrays held, afterwards row k lists exactly the rules interested in kind k, in rule order. |
| KindTable.RowMultiplicity | internal/checker/checker.go:297-349 | A rule is in row k as often as its scope lists k; a generic rule is in no row. |
| KindTable.OwnWalkAnswers | internal/checker/checker.go:392-416 | A rule walking alone answers the visits of the tree in their order: every node entered, its children, then left. |
| KindTable.DispatchKindScoped | internal/checker/checker.go:392-397 | Without generic rules, entering visits alone append to every bucket what that rule's own full walk would report. |
| KindTable.DispatchWithGeneric | internal/checker/checker.go:401-416 | The same with generic rules, which also see every node entering and leaving. |
| KindTable.WalkInto | internal/checker/checker.go:369-377 | Building the table and choosing the walk append to every rule's bucket, and to no other, that rule's own walk. |
| KindTable.RunNodeCheckers | internal/checker/checker.go:369-377 | One shared walk over a reused table reports, grouped in rule order, what every rule's own walk reports. |
| WorkerPool.StepKeepsInv | cmd/mdsmith/buildjobs.go:28-75 | Acquire, run, store, write and release each keep the pool invariant. |
| WorkerPool.RunKeepsInv | cmd/mdsmith/buildjobs.go:28-75 | In every state of every run at most cap workers are in flight and each slot holds only its own worker's result. |
| WorkerPool.NeverStuck | cmd/mdsmith/buildjobs.go:28-75 | With a cap of at least one, some step is possible until the join returns. |
| WorkerPool.SlotsWrittenOnce | cmd/mdsmith/buildjobs.go:28-75 | A slot once written never changes. |
| WorkerPool.RunsEnd | cmd/mdsmith/buildjobs.go:28-75 | Runs are no longer than six steps a job, and one that cannot go on has joined. |
| WorkerPool.EveryScheduleIsSerial | cmd/mdsmith/buildjobs.go:28-75 | For jobs that touch separate files every schedule leaves the slots and the disk of the serial loop. |
| CheckSlots.RunSerially | internal/checker/checker.go:465-495 | The loop taken when one worker is allowed fills every pending slot and leaves the others. |
| CheckSlots.EveryScheduleFillsSlots | internal/checker/checker.go:465-495 | Every schedule of the slot workers fills the slots as that loop does. |
| CheckSlots.CheckConfiguredRules | internal/checker/checker.go:114-164 | Whatever the cap, the schedule and the state of the pooled table, a file's diagnostics are the reports of every rule run alone, in rule order. |
| CheckSlots.ConcatenatedInOrder | internal/checker/checker.go:114-164 | Slots that each hold their rule's reports, filled in whatever order, concatenate to the reports in rule order. |
| Builds.LookupAfterPut | internal/build/cache.go:88-117 | An entry put is found under its output set, and every other lookup is unchanged. |
| Builds.DispatchTargets | cmd/mdsmith/buildpass.go:424-472 | The serial pass: files, cache and exit code are those of the recursive pass over the targets. |
| BuildModes.VerdictIff | cmd/mdsmith/buildpass.go:561-577 | A target fails if an input is missing; else it is fresh exactly if the cache records this command on these inputs giving the outputs there are, and neither force nor no-cache overrides that. |
| BuildModes.QuietPass | cmd/mdsmith/buildpass.go:497-548 | A dry run or a check for staleness changes neither files nor cache and sees every target as it is. |
| BuildModes.CheckTells | cmd/mdsmith/buildpass.go:424-472 | A check for staleness exits with 2 exactly if some target that could run is stale, and else with 0. |
| BuildModes.RunTells | cmd/mdsmith/buildpass.go:497-548 | In a real run a target is skipped exactly if fresh at its turn, and rebuilt exactly if its recipe then produces its outputs. |
| BuildModes.RunExits | cmd/mdsmith/buildpass.go:424-472 | A real run exits with 0 exactly if no target failed and a cache that had to be saved was saved. |
| Builds.FoldResults | cmd/mdsmith/buildjobs.go:69-74 | After the join the slots are folded in declared order, and the cache is written only then. |
| Builds.ConcurrentBuildIsSerial | cmd/mdsmith/buildjobs.go:28-75 | If no target writes a file another one reads or writes, every schedule ends with the files, cache and outcomes of the serial pass. |
| Builds.FreshTargetRerunIff | cmd/mdsmith/buildjobs.go:28-58 | Of targets that share no output, one that is fresh up front is left alone by every worker, while the serial pass runs it exactly if earlier targets have changed one of its inputs. |
| Builds.ChainedTargetsDiffer | cmd/mdsmith/buildjobs.go:28-58 | Otherwise it may not: where one target feeds the next, the serial pass rebuilds both and the concurrent one skips the second, its verdict being fixed up front. |
| Builds.FreshNeedsNoRun | internal/build/staleness.go:326-377 | With a cache that records what recipes produce, running a fresh target would change no file. |
| Builds.PassKeepsHonest | cmd/mdsmith/buildpass.go:477-488 | A pass keeps the cache honest, chained targets included. |
| Builds.FreshAfterPass | cmd/mdsmith/buildpass.go:424-472 | After a pass over separate targets everything that did not fail is fresh, so a second pass skips it. |
| Lines.JoinAfterSplit | cmd/mdsmith/rename.go:381-390 | Joining the split lines gives the text back, CRs and a missing final newline included. |
| Lines.SplitAfterJoin | cmd/mdsmith/rename.go:367-378 | Splitting joined lines gives the lines back. |
| Edits.SplitKeepCR | cmd/mdsmith/rename.go:367-378 | The index loop splits at line feeds only. |
| Edits.GroupByLine | cmd/mdsmith/rename.go:323-336 | Grouping fails exactly if some edit spans lines, and otherwise gives each line its edits. |
| Edits.ApplyEdits | cmd/mdsmith/rename.go:322-363 | Whatever order the map yields lines in, the result is each line edited on its own, or an error exactly if some line fails. |
| Edits.LineIsEdited | cmd/mdsmith/rename.go:322-363 | On one line, right-to-left splicing of separate ranges is simultaneous replacement; the trailing CR is kept. |
| Edits.SortIsStable | cmd/mdsmith/rename.go:342-344 | Edits that start at the same position stay in the order they are listed in. |
| Edits.OffsetCuts | internal/mdtext/utf16.go:50-64 | A position counts UTF-16 units: cutting a row there cuts its UTF-16 encoding there, or right after a surrogate pair it falls into. |
| Edits.CarriageReturnStays | cmd/mdsmith/rename.go:322-363 | A carriage return that ends a line is no part of the row: edits leave it where it is. |
| Edits.WellPlacedSucceeds | cmd/mdsmith/rename.go:322-363 | Well-placed edits never fail, every row is its original with all ranges replaced at once, and other lines are unchanged. |
| Edits.OrderIrrelevant | cmd/mdsmith/rename.go:322-363 | The order in which well-placed edits are listed does not matter. |
| Conflicts.StripLines | cmd/mdsmith/mergedriver.go:375-415 | The line machine keeps exactly the lines not dropped, in order. |
| Conflicts.MarkersRecognised | cmd/mdsmith/mergedriver.go:437-461 | Indented or not, a line starting with seven of a kind is that conflict marker and no other. |
| Conflicts.OthersAreNoMarkers | cmd/mdsmith/mergedriver.go:437-461 | A line starting with anything else, or with six of a kind, is no conflict marker. |
| Conflicts.SectionsRecognised | cmd/mdsmith/mergedriver.go:417-433 | A section starts at its name followed by its close, a blank or nothing, and ends at its closing tag. |
| Conflicts.StripSectionConflicts | cmd/mdsmith/mergedriver.go:375-415 | Splitting, running the line machine and joining gives the stripped text. |
| Conflicts.OnlyMarkersDropped | cmd/mdsmith/mergedriver.go:375-415 | Dropped lines are conflict markers with a section start before them and no end between, and all but opening ones follow a dropped opening one with neither a close nor an end between. |
| Conflicts.StripTwice | cmd/mdsmith/mergedriver.go:375-415 | A second pass changes nothing. |
| Conflicts.HasConflictMarkers | cmd/mdsmith/mergedriver.go:466-474 | The scan is true exactly if some line is an opening or closing marker. |
| Conflicts.CleanMeansNoLeftOver | cmd/mdsmith/mergedriver.go:375-474 | The stripped text has markers exactly if the content had some that no section's own conflict accounts for. |
| Settings.MergeSettingsMap | internal/config/deepmerge.go:39-53 | Key by key in any order, the loop computes the recursive merge. |
| Settings.AssociatesIff | internal/config/deepmerge.go:69-97 | Three values merge associatively exactly if a condition on their shapes holds: the outer two absorb what the middle one disagrees with. |
| Settings.RuleAssociatesIff | internal/config/deepmerge.go:23-36 | The same for whole rule configurations; bool-only layers keep inherited settings and never get in the way. |
| Settings.AgreeingLayersAssociate | internal/config/deepmerge.go:23-36 | Layers that agree on the shape of every key path merge associatively, replaced and appended lists alike. |
| Settings.AbsorbedIff | internal/config/deepmerge.go:69-97 | The condition used above says exactly that merging the later value over the earlier gives the later. |
| SettingsHeap.CloneAny | internal/config/deepmerge.go:170-195 | On mutable maps and slices the copy stands for the same value and is made of new nodes only. |
| SettingsHeap.MergeSettingsMap | internal/config/deepmerge.go:39-53 | On mutable maps the loops write into a new map, leave both inputs as they are, and build the recursive merge from new nodes only. |
| SettingsHeap.MergeAny | internal/config/deepmerge.go:69-97 | The same for a leaf or nested value, appended lists included. |
| SettingsHeap.MergeRuleCfg | internal/config/deepmerge.go:23-36 | The result shares no map or slice with either layer, a layer without settings included, and stands for their merge. |
| SettingsHeap.PushEntry | internal/config/merge.go:553-566 | Pushing an entry writes the rule's own map alone and leaves it standing for the settings with the entry appended. |
| SettingsHeap.MergeThenPush | internal/config/merge.go:489-503 | After a merge and a push in place the configuration's layers still stand for what they did. |
| ConfigLayers.FirstPicksAreFirst | internal/config/provenance.go:484-523 | Kept are exactly the picks no earlier pick has the name of, in the order picked. |
| ConfigLayers.KindAppliesIff | internal/config/kindmatch.go:32-45 | A kind applies to a file exactly if the front matter names it, or some assignment does that has a selector, whose patterns match the path and whose fields are all present. |
| ConfigLayers.FirstPicksDistinct | internal/config/provenance.go:484-523 | Each kind is kept once and none is lost. |
| ConfigLayers.ResolveKindsWithSources | internal/config/provenance.go:484-523 | The explaining resolver keeps the first pick of every kind, with its source. |
| ConfigLayers.ResolveEffectiveKinds | internal/config/merge.go:347-369 | The applying resolver, a separate loop, gives the same kinds in the same order. |
| ConfigLayers.Apply | internal/config/merge.go:445-470 | Merging a layer rule by rule in any map order adds it at every rule it mentions and nowhere else. |
| ConfigLayers.ComputeEffectiveRules | internal/config/merge.go:445-517 | The closure that mutates the result map layer by layer computes the fold over all layers. |
| Precedence.StrongestDecides | internal/config/merge.go:445-517 | Read off the configuration alone: a flag or setting of a rule is there exactly if something sets it, and where values are replaced it is what the strongest says, overrides before kinds, these before the user's explicit rules, these before the convention, later before earlier. |
| Precedence.OverrideWins | internal/config/merge.go:445-517 | The last matching override that mentions a rule wins over everything. |
| Precedence.KindWins | internal/config/merge.go:445-517 | The last listed kind that mentions a rule wins over the user's rules, the convention and the defaults. |
| Precedence.ExplicitWins | internal/config/provenance.go:343-354 | A rule the user set explicitly wins over the convention. |
| Precedence.ConventionWins | internal/config/merge.go:445-517 | The convention wins over a rule that is not explicit. |
| Precedence.RuleStands | internal/config/merge.go:445-517 | A rule nobody else mentions is as it was configured, explicit or not. |
| Precedence.EffectiveNames | internal/config/merge.go:445-517 | Effective are exactly the rules that the user, the convention, a listed kind or a matching override mentions. |
| Precedence.StrongestSwitches | internal/config/merge.go:666-691 | A category is switched by the strongest that mentions it; one nobody mentions is on if valid. |
| Precedence.ExplicitIff | internal/config/merge.go:632-664 | Explicit are the user's explicit rules and those a listed kind or a matching override mentions. |
| WordLists.ListsAccumulate | internal/config/deepmerge.go:69-97 | A setting that appends, word lists always, ends up as the lists of all layers that set it, in layer order. |
| WordLists.WordListsExpand | internal/config/merge.go:507-527 | In the effective rules every rule's word lists, joined over the layers, are expanded into its target setting and removed; nothing else changes. |
| ConfigLayers.BuildRuleResolution | internal/config/provenance.go:371-414 | The running final value and the chain are the fold of the layers and the layers that set the rule. |
| ConfigLayers.MergedIsFinal | internal/config/merge.go:445-517 | Before word lists are expanded, applied and explained entries agree for every rule but required-structure. |
| ConfigLayers.ExplainedIffApplied | internal/config/provenance.go:153-176 | Both cover the same rules, and a rule's entries agree exactly if no layer sets `lists:` for it. |
| StructureRule.StructureRuleIff | internal/config/provenance.go:274-304 | For required-structure the two agree exactly if no listed kind with a schema takes it from a named file or lists other sources of its own, none with a path pattern lists other patterns, the last kind to touch the rule does not both declare and disable it unless an override sets it again, and no layer sets `lists:`. |
| StructureRule.StructureTwin | internal/config/merge.go:489-503 | Before expansion, too: always the same settings but for the entries of the two pushed lists and the flag, and equal exactly under that condition. |
| StructureRule.UndeclaredAgree | internal/config/provenance.go:274-304 | They agree for files whose kinds declare neither schema nor path pattern. |
| StructureRule.PatternOffDiffers | internal/config/merge.go:489-503 | They differ without any schema where a kind with a path pattern disables the rule: the applied entry is off, the explained one on. |
| ConfigLayers.StructureRuleDiffers | internal/config/provenance.go:274-304 | They differ for every kind with a schema from a named file: only the applied entry names it. |
| ConfigLayers.BuildLeaf | internal/config/provenance.go:416-447 | A leaf's chain lists the layers that set it, and its winner is the last. |
| ConfigLayers.LeafWins | internal/config/provenance.go:416-447 | Every leaf of an explained rule has a non-empty chain that merges to its final value, and its winner is that value exactly if it overwrites what the older ones leave, as replaced settings and the flag always do. |
| ConfigLayers.FinalKeys | internal/config/deepmerge.go:39-53 | A setting is in the final entry exactly if some layer set it. |
| MemoKey.EffectiveSignature | internal/config/merge.go:426-443 | The builder loops write the key of the file's kinds and matching overrides. |
| MemoKey.KeyInjective | internal/config/merge.go:426-443 | Keys of names without the unit separator are equal only for equal kind lists and equal override sets. |
| MemoKey.SeparatorInNameCollides | internal/config/merge.go:426-443 | A kind name containing the separator has the key of two names. |
| MemoKey.SameKeySameConfiguration | internal/config/merge.go:409-415 | Two files with the same key have the same rules, categories and explicit rules. |

## Left out

Statements weaker than one might expect:

- Acceptance.AcceptedIffConforms: is limited to disjunctions over struct-free branches and to schemas whose optional fields are not bottom at any depth, because outside that fragment acceptance depends on which branches happen to fold; a member refused is shown for each kind of branch excluded, and Unions.AcceptedIffSurvivors decides acceptance for any branches.
- Unions.TaggedUnion: a tagged branch that is concrete and yet buries a bottom, as the rest of an open list in an absent optional field, is accepted by itself and need not be by the union.
- DefaultMeets.FirstDefaultMeets: the living default, and what it meets to, are concrete values without an open list, and if the other operand is a disjunction the default holds none and is not top.
- Denotes.EvalDenotes: excludes references, which DeferredSchemas and References treat, choices as operands of comparisons and conditions, and `close` of what is not written as a struct; a strict reading asks of each meet that Combining.CombinesKeeps applies and of each fold that Alternatives.FoldKeepsIffLaxer does, since elsewhere documents are lost.
- Typing.WellFormedCompiles: sufficient; an operand that is a meet or pick of constants compiles too.
- DeepMeaning.ValidationMeans: completeness has the limits of Acceptance.AcceptedIffConforms.
- Semantics.ClashIff: two strict bounds on strings may leave nothing between them; the code does not look for that.
- Precedence.StrongestDecides: excludes required-structure, which StructureRule treats, and settings that are maps or lists that append, which merge instead; WordLists treats the latter.
- PathQuoting.PathRoundTrip: a comment ends with its newline, and the letters and digits beyond ASCII are neither white space nor a byte order mark.
- MeetLaws.MeetAssociates: excludes disjunctions, because a meet drops a default that is not concrete and grouping then decides which defaults are dropped.
- MeetOrder.CommutesIffAgreeing: excludes branches that hold further disjunctions, where two disagreements inside may cancel; for those Agreeing is sufficient.
- ThunkLaws.SettleIsSettled: needs that no pass builds a scope holding a thunk, which holds where thunks are fields or list elements; a thunk in a disjunction branch may sit in a value that is already concrete by its default.
- ThunkSwap.SwapOnlySwaps: the condition is sufficient; that it is needed is shown for the two readers of ThunkSwap.ReadersTell, since another expression may read two different values alike.
- References.CompilingClosesReferences: the condition is on the source and sufficient; a source outside it may compile to closed references all the same, and ThunkEscape.CompilingCanEscape shows for every expression that waits and is concrete a source where it does not.
- ThunkOrder.OrderDoesNotMatter: thunks are fields or list elements; it needs that the names thunks read keep their binding through the passes; a name bound by both structs may be rebound.
- StructureRule.StructureRuleIff: takes the two pushed settings to be lists wherever a layer sets them; the rule refuses anything else.
- References.ForcingKeepsScoped: needs a neat expression and a scope without thunks, without which it is false.
- DeferredSchemas.DeferredValidationIsSound: supposes that the resolved schema is well formed and holds no further thunk.
- Builds.ConcurrentBuildIsSerial: separate files are sufficient, not necessary; some chained targets agree by luck of their verdicts.
- WorkerPool.EveryScheduleIsSerial: the steps are those at which workers touch shared state; a recipe's own run is one step.

Not modelled:

- The reason and path of a bottom, and the wording of errors; leaves carry their path.
- Rounding, NaN and int64 limits: floats are reals and integers unbounded.
- Surrogates and invalid UTF-8 inside strings: a string is a sequence of Unicode scalar values, so a byte offset is a position in it; the rename splicer's rows likewise.
- The pass over the syntax tree that refuses a default mark outside a disjunction (`cue/cuelite/compile.go:63-181`); sources are taken after it.
- The meet of a bare thunk: it is bottom here, as it is in the code where the thunk's expression cannot be evaluated without siblings.
- When `unifyV` ends on values with thunks (`cue/cuelite/unify.go:37-41`): a thunk forced there without a scope may be deferred again, as the one in `a: (0 < b | int) & int, a: int, b: int`, and is then met again. `Engine` cuts the nesting at a depth; what is proved holds at every depth, and so of every run that ends.
- The lexer and parser of expressions, the JSON and YAML decoders, compiled patterns, and the Unicode letter and digit classes.
- `cue/cuelite/evalrow.go`, the row evaluator over concrete data.
- Typed string and integer slices in settings, which are plain lists here, the difference between a nil and an empty list, and the spare capacity of a slice that is appended to.
- Word-list expansion, settings translation, inline schemas and glob matching: functions given to the configuration fold.
- Build globs, hooks, post-condition checks, recipes that write undeclared files, and hash collisions: an input's hash is its content, and a recipe is a function of its command and inputs.
- Sorting rules into walk, block and whole-file rules; block-level rules; panic recovery; filtering of diagnostics in generated sections; source excerpts.
- The command line, git and editor integration, and writing files.
