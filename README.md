# Ember+ generic module: discovery, value cache, actions and feedbacks

A Dafny model of the core of a Companion module that talks to Ember+
providers. The core has three parts:

- **Discovery and registration** (`src/index.ts`). The instance derives its
  scope, node-filter, parameter-filter and monitored-path lists from the
  configuration. It then walks the provider tree depth-first, children in
  order. Offline nodes are skipped and only scoped children are entered.
  Qualifying parameters are registered under a dotted label, up to 2048
  entries. After that it registers the explicitly configured paths. Every
  registered parameter's value is normalized and cached under its label:
  an enumeration entry, the value divided by the factor, or the raw value.
- **Actions** (`src/actions.ts`). Set value (five request types), set from
  an expression, increment/decrement and toggle. Each one resolves a
  dotted path to a parameter, then clamps, saturates, negates or refuses.
  The result is one write with a type tag, or a warning.
- **Feedbacks** (`src/feedback.ts`). These compare the cached value of a
  label with a number, boolean or text (JavaScript loose equality), or with
  a threshold (greater or less).

The project is laid out as follows:

- `instance.dfy` holds class `EmberPlusInstance`. Its fields are the
  configuration, the derived lists, the monitored list (a `seq`) and the
  value cache (a `map`). Its methods follow the source's loops and its
  recursion.
- Each state-changing method is proved against a specification function in
  `discovery.dfy`. `WalkNode`/`WalkChild`/`WalkChildren` give the
  registrations the walk makes. `ExplicitRegistrations` gives those that
  explicit registration makes. `ApplyRegistrations` gives the cache they
  leave.
- The lemmas about these functions give the 2048 bound, child order, the
  offline skip, the scope test, labels and filters.
- Actions and feedbacks are pure functions (`actions.dfy`, `feedback.dfy`).
- The JavaScript semantics they rely on live in `js.dfy`:
  - numbers with NaN and infinities over exact rationals;
  - `Number(text)`;
  - loose `==`;
  - `<` and `>`;
  - truthiness;
  - `Array.prototype.at`.
- Text operations (`split`, `join`, `includes`, `replace` of one
  character) live in `text.dfy`.
- The provider tree is the datatype `EmberTree.TreeNode`. The client's
  `getElementByPathAsync` becomes `EmberTree.ElementByAddress`, and
  `getElementByNumber` becomes `EmberTree.ChildByNumber` (the first child
  with that number).

Behaviour of the code that the model keeps as written:

- Under a non-empty label, a child without identifier is labelled
  `parent.undefined`. The `|| ''` fallback applies to the whole
  concatenation, never to the identifier (`Discovery.TopLevelLabelExample`, `Discovery.NestedLabelExample`).
- Under the empty label, only the first `#` is removed from an identifier.
- Explicit registration has no 2048 check. It pushes every path whose child
  resolves, even a child that is not a parameter; such a child's value is
  not cached.
- The 2048 check is made again at each element reached, not once for the
  whole walk. Nothing removes duplicate labels.
- `configUpdated` rebuilds the lists and empties the monitored list, but
  keeps the cached values (`Instance.EmberPlusInstance.ConfigUpdated`).
  Nothing clears the cache, so values cached under labels that are no
  longer monitored stay.
- Apart from the boolean request, the set-value action sends any value
  that reads as a number with the integer tag, whatever the request type.
  This covers text such as `""`,
  since `Number("")` is 0 (`Actions.SetValueNumericTextIsInteger`).
- Expression text that does not read as a number is written as NaN
  (`Actions.ExpressionNotANumber`).
- A rejected parent lookup in an action ends the callback with a rejected
  promise and no log line (`Actions.Outcome.LookupFailed`). A missing
  child, or one that is not a parameter, gives one warning
  (`WarnNotFound`).

## Model

| member | source | states |
|---|---|---|
| Instance.EmberPlusInstance.constructor | src/index.ts:28-36 | `init` stores the configuration, derives the scope, node-filter, parameter-filter and explicit-path lists from their comma strings, and starts with an empty monitored list and cache |
| Instance.EmberPlusInstance.ConfigUpdated | src/index.ts:41-50 | the lists are re-derived from the new configuration and the monitored list is emptied; the cached values are kept |
| Instance.EmberPlusInstance.SetupParseFilters | src/index.ts:123-137 | the three lists are reset, then each set string gives its comma items in order, and each scope item becomes its path with its `.`-segments |
| Instance.EmberPlusInstance.SetupMonitoredParams | src/index.ts:114-121 | the monitored list is emptied; each comma item of the monitored string becomes one explicit entry whose path and label are the item, in order |
| Instance.CommaItemsRejoin | src/index.ts:117-135 | every configuration string is exactly its items joined by commas (an unset `''` has no items), and no item holds a comma |
| Instance.ScopesRejoin | src/index.ts:127-130 | each scope keeps its item as path, and its segments re-join by `.` to that path |
| Instance.ExplicitEntriesRejoin | src/index.ts:117-120 | the entries configured from a monitored-paths string give it back: their paths, and likewise their labels, joined by commas (an unset string gives no entries) |
| Instance.EmberPlusInstance.HandleChangedValue | src/index.ts:168-185 | a parameter's normalized value is cached under the given key and every other key is unchanged; a non-parameter changes nothing |
| Instance.EmberPlusInstance.AddMonitoredParameter | src/index.ts:254-264 | the entry `{path, label}` is appended once at the end of the monitored list and the element's value is cached under the label |
| Instance.EmberPlusInstance.FirstAdmittingScope | src/index.ts:199-211 | returns the first scope admitting the child at this depth, or -1 when none does; no earlier scope admits it, so a child is entered at most once |
| Instance.EmberPlusInstance.QualifiesForRegistration | src/index.ts:221-247 | the filter loops with their early returns accept a leaf exactly when `Discovery.LeafQualifies` holds |
| Instance.EmberPlusInstance.HandleEmberTreeParsing | src/index.ts:187-252 | the walk appends exactly the entries of `Discovery.WalkNode`, in order, and leaves the cache `ApplyRegistrations` of those registrations; a list of at most 2048 entries stays at most 2048 |
| Instance.EmberPlusInstance.ParseChildren | src/index.ts:191-218 | the children loop: children in order, each seeing the entries its elder siblings added, append exactly the entries of `Discovery.WalkChildren` from the first child and cache their values |
| Instance.EmberPlusInstance.ParseChild | src/index.ts:193-217 | one child: an offline node, or a child no scope admits, adds nothing; otherwise the child is walked under its label at depth + 1 |
| Instance.EmberPlusInstance.RegisterParameters | src/index.ts:139-166 | the configured paths are processed in order; exactly those whose child resolves are appended, with no 2048 check, and a failing path is skipped |
| Instance.EmberPlusInstance.OnConnected | src/index.ts:84-98 | after the directory is fetched: the auto-parse walk from the root with label `''` at depth 0 when enabled, then explicit registration |
| Discovery.WalkNode | src/index.ts:187-252 | the registrations the walk makes below an element, in order; `HandleEmberTreeParsing` is proved to append exactly these, `WalkNodeBound` keeps them within 2048 and `WalkNodeSound` shows each qualifies |
| Discovery.WalkChild | src/index.ts:193-217 | what one child contributes; `OfflineNodeSkipped`, `NoScopesWalksEveryRetainedChild` and `ParseChild` state its cases |
| Discovery.WalkChildren | src/index.ts:192-218 | the children loop with the running count; `WalkChildrenBound`, `WalkChildrenSound`, `OfflineParameterRegistered`, `WalkStep` and `ParseChildren` state its properties |
| Discovery.LeafQualifies | src/index.ts:222-247 | the filter decision for a leaf; `QualifiesForRegistration` is proved equal to it, and `NodeFilterExample` and `ParamFilterExample` exhibit its modes |
| Discovery.ScopeAdmits | src/index.ts:201-204 | the two-branch scope test; `ScopeExample`, `ScopeIsTextPrefix` and `FirstAdmittingScope` state it |
| Discovery.ChildLabel | src/index.ts:194-216 | the label passed to a child; `TopLevelLabelExample` and `NestedLabelExample` exhibit it and `WalkNodeSound` shows each registered label extends the one it was reached under |
| Discovery.ExplicitRegistrations | src/index.ts:141-164 | the entries explicit registration pushes; `RegisterParameters` is proved to push exactly these, with `ExplicitRegistrationsBound`, `ExplicitRegistrationsSound` and `ExplicitRegistrationsComplete` stating their properties |
| Discovery.WalkNodeBound | src/index.ts:190-220 | starting from at most 2048 monitored entries, discovery never takes the list past 2048 |
| Discovery.WalkChildrenBound | src/index.ts:190-218 | the same bound across the children loop, each child seeing the entries its elder siblings added |
| Discovery.WalkNodeSound | src/index.ts:220-255 | every registration is a parameter that passes the filters, whose entry path is the element's path and whose label extends the label it was reached under |
| Discovery.WalkChildrenSound | src/index.ts:192-217 | the same for every registration made below a container's children |
| Discovery.OfflineParameterRegistered | src/index.ts:197 | a parameter child that is offline is still walked: when it qualifies it is registered in its place in child order |
| Discovery.OfflineNodeSkipped | src/index.ts:197 | an offline node child contributes nothing, whatever lies below it |
| Discovery.NoScopesWalksEveryRetainedChild | src/index.ts:212-216 | with no scopes every child except an offline node is walked, under its label, one level deeper |
| Discovery.ScopeExample | src/index.ts:201-204 | scope `1.2` admits `1.2.3` at depth 2 (the path is deep enough and starts with the scope) and `1` at depth 0 (the scope starts with the path); scope `1.5` rejects `1.2.3` |
| Discovery.ScopeIsTextPrefix | src/index.ts:202 | the scope test is a text prefix, so scope `1.2` also admits `1.20` |
| Discovery.TopLevelLabelExample | src/index.ts:194-216 | under `''` the label is the identifier without its first `#` (`#Gain` gives `Gain`), and `''` for a missing identifier |
| Discovery.NestedLabelExample | src/index.ts:194-216 | under a non-empty label the child's label is `parent.identifier` with only the first `#` removed (`Main` and `Level#1#` give `Main.Level1#`), and `parent.undefined` for a missing identifier |
| Discovery.NodeFilterExample | src/index.ts:222-247 | with no filters every leaf qualifies; with a node filter alone the filter must occur in the label (`Main` in `Main.Gain` does, the longer `Main.Gain.Aux` does not) |
| Discovery.ParamFilterExample | src/index.ts:222-246 | with a node filter, a parameter filter list must also match the identifier exactly; a parameter filter alone needs an exact match, and a leaf matching none is not registered |
| Discovery.ExplicitRegistrationsBound | src/index.ts:141-163 | explicit registration appends at most one entry per configured path |
| Discovery.ExplicitRegistrationsSound | src/index.ts:141-163 | every entry it appends is a configured one whose path resolves to the registered element |
| Discovery.ExplicitRegistrationsComplete | src/index.ts:141-163 | when every configured path resolves, the appended entries are exactly the configured ones, in order |
| Discovery.EntriesSnoc | src/index.ts:154 | pushing one more registration appends its entry to the monitored list |
| Discovery.ApplyKeepsOthers | src/index.ts:174-180 | registering parameters changes the cached value of no key outside their labels |
| Discovery.ApplyAppend | src/index.ts:168-185 | caching two runs of registrations in turn is caching their concatenation |
| Discovery.RegisterInTurn | src/index.ts:192-218 | registering one child's entries after its elder siblings' leaves the list and the cache that registering both runs together does, the list growing by the child's count |
| Discovery.WalkStep | src/index.ts:192-218 | after one child, the rest of the walk is that of the younger siblings, started from the new count |
| Discovery.EntriesAppend | src/index.ts:255 | the entries of concatenated registrations are the concatenated entries |
| ValueNormalizer.Normalize | src/index.ts:170-180 | the value cached for a parameter; `NormalizeKinds`, `NormalizeEnumerationIndex`, `NormalizeIgnoresFactor`, `NormalizeScales` and `NormalizePassesThrough` state its branches |
| ValueNormalizer.NormalizeKinds | src/index.ts:170-180 | an enumerated parameter caches `''` or one of its enumeration entries; otherwise a factor yields a number |
| ValueNormalizer.NormalizeEnumerationIndex | src/index.ts:171-174 | an integer index selects its entry, a negative one counts from the end, and an index out of range caches `''` |
| ValueNormalizer.NormalizeIgnoresFactor | src/index.ts:171-175 | the factor is not consulted for an enumerated parameter |
| ValueNormalizer.NormalizeScales | src/index.ts:177-179 | without enumeration the value is divided by a nonzero factor |
| ValueNormalizer.NormalizePassesThrough | src/index.ts:180 | without enumeration and factor the raw value is cached unchanged, or `''` when absent |
| ValueNormalizer.NormalizeOffOnExample | src/index.ts:172-174 | enumeration `Off\nOn` with value 1 caches `On`, with value 5 caches `''` |
| ValueNormalizer.NormalizeFactorExample | src/index.ts:177-179 | value 1500 with factor 100 caches 15 |
| PathResolver.SplitSelected | src/actions.ts:43-45 | the parent segments and the last segment re-join by `.` to the selected path, and no segment holds a `.` |
| PathResolver.ParentAddressRejoins | src/actions.ts:43-47 | the parent address joined with `.` and the last segment is the selected path; without a parent the last segment is the whole path |
| PathResolver.Resolve | src/actions.ts:43-49 | the split of a path into parent address and child number, then both lookups (the same steps as src/index.ts:143-149); `ResolveFound` and `ResolveTopLevel` state its outcome |
| PathResolver.ResolveFound | src/actions.ts:47-49 | a path resolves exactly when its parent address is found and that element has a child numbered `Number(last)`; the element found is such a child |
| PathResolver.ResolveTopLevel | src/index.ts:143-149 | the decimal text of a root child's number, unique among the earlier children, resolves to that child |
| EmberTree.ChildByNumber | src/actions.ts:49 | the child found is a child with that number, and none is found exactly when no child has it |
| Actions.Target | src/actions.ts:47-53 | the lookup every action starts with; `TargetOutcomes` states its three outcomes |
| Actions.TargetOutcomes | src/actions.ts:47-53 | a rejected parent lookup ends the action; a missing child or one that is not a parameter gives the not-found warning; only a parameter reaches the decision |
| Actions.ClampToBounds | src/actions.ts:58-61 | an enumerated parameter, or a value that is NaN, is left unchanged; otherwise the result is the value, the maximum or the minimum |
| Actions.ClampWithinBounds | src/actions.ts:55-62 | between finite bounds min <= max every non-NaN value lands in [min, max]: a number above the maximum becomes the maximum, one below the minimum the minimum, and an in-range one is unchanged |
| Actions.ClampExact | src/actions.ts:58-61 | for any finite bounds, in either order, a finite value becomes the maximum when above it, else the minimum when below it, else stays |
| Actions.ClampInvertedExample | src/actions.ts:58-61 | with minimum 10 and maximum 5 the maximum check comes first, so 7 becomes 5 |
| Actions.DecideSetValue | src/actions.ts:53-92 | the boolean request always writes its value with the boolean tag; the boolean tag is used for no other request; the string tag only for the string request on a parameter typed `string`; only the integer request can change the value |
| Actions.SetValueRouting | src/actions.ts:63-77 | apart from the boolean request, the integer tag is used exactly when the maximum is truthy or the value reads as a number |
| Actions.SetValueStringTag | src/actions.ts:78-92 | the string tag is used exactly when the maximum is falsy, the value is not a number, the request is string and the declared type is `string`; the wrong-type warning exactly when no branch writes |
| Actions.SetValueNumericTextIsInteger | src/actions.ts:71-77 | the string request with text `""` is sent with the integer tag |
| Actions.SetIntegerWithinBounds | src/actions.ts:55-77 | the integer request on a non-enumerated parameter with finite bounds writes a number in [min, max]: the maximum for a value above it, the minimum for one below it, else the requested value |
| Actions.SetIntegerExample | src/actions.ts:55-62 | with bounds 0..10 the integer request sends 10 for 15 and 0 for -3 |
| Actions.SetValueNotClamped | src/actions.ts:55-77 | real and enum requests, and any request on an enumerated parameter, send a numeric value unclamped with the integer tag |
| Actions.SetValue | src/actions.ts:33-96 | a rejected parent lookup fails the action, a missing or non-parameter target gives the not-found warning, and a parameter gets the set-value decision |
| Actions.DecideExpression | src/actions.ts:116-138 | writes exactly when the maximum is truthy, always a number with the integer tag; otherwise the wrong-type warning |
| Actions.ExpressionWithinBounds | src/actions.ts:119-131 | text reading as a number is written clamped into finite bounds: the maximum when above it, the minimum when below it, else the number itself |
| Actions.ExpressionNotANumber | src/actions.ts:122-131 | text that does not read as a number passes both checks and is written as NaN |
| Actions.ExpressionExample | src/actions.ts:119-131 | text `42` against bounds 0..10 is written as 10 |
| Actions.SetValueExpression | src/actions.ts:98-142 | lookup failure, not-found warning, or the expression decision on the parameter |
| Actions.DecideStep | src/actions.ts:162-212 | writes exactly when the maximum is truthy, always a number with the integer tag; an absent maximum or a maximum of 0 gives the warning |
| Actions.IncrementSaturates | src/actions.ts:165-185 | an increment writes the sum, or the maximum when the sum exceeds it, so never more than the maximum |
| Actions.DecrementSaturates | src/actions.ts:186-206 | any other step type subtracts, and writes the minimum when the difference falls below it, so never less than the minimum |
| Actions.DecrementWithoutMinimum | src/actions.ts:189-205 | without a minimum the difference is written unfloored |
| Actions.EnumeratedStepNotSaturated | src/actions.ts:168-190 | on an enumerated parameter the raw sum or difference is written |
| Actions.IncrementExample | src/actions.ts:165-176 | value 8, increment 5, maximum 10 writes 10 |
| Actions.SetIncrementDecrement | src/actions.ts:144-216 | lookup failure, not-found warning, or the step decision on the parameter |
| Actions.DecideToggle | src/actions.ts:236-248 | writes exactly when the current value is `true` or `false`, the negated value with the boolean tag |
| Actions.ToggleTwiceRestores | src/actions.ts:238-242 | toggling the written value again gives back the original |
| Actions.SetToggle | src/actions.ts:218-252 | lookup failure, not-found warning, or the toggle decision on the parameter |
| Actions.NoWriteWithoutParameter | src/actions.ts:93-95 | no action writes unless the selected path resolves to a parameter (the same guard recurs at lines 139-141, 213-215 and 249-251) |
| Feedback.ParameterEquals | src/feedback.ts:52-56 | true only for a label with a cached value |
| Feedback.BoolEqual | src/feedback.ts:82-86 | true only for a label with a cached value |
| Feedback.EnumEqual | src/feedback.ts:112-114 | true only for a label with a cached value |
| Feedback.HitThreshold | src/feedback.ts:143-148 | true only for a cached value that reads as a number |
| Feedback.BelowThreshold | src/feedback.ts:177-182 | true only for a cached value that reads as a number |
| Feedback.ThresholdsExclusive | src/feedback.ts:143-182 | the two threshold feedbacks are never both true, and both are false when the value equals the threshold |
| Feedback.ThresholdsTrichotomy | src/feedback.ts:143-182 | for a finite cached number and threshold the threshold feedbacks are exactly `>` and `<`, equality is exactly `==`, and one of the three holds (equality being the `Parameter Equals` test of lines 52-56) |
| Feedback.MissingLabelIsFalse | src/feedback.ts:52-182 | every feedback is false for a label without a cached value |
| Feedback.NaNIsNeitherAboveNorBelow | src/feedback.ts:143-182 | a NaN cached value is neither above nor below any threshold, and equals no number |
| Feedback.ParameterEqualsByKind | src/feedback.ts:52-56 | a cached number equals the option exactly when it is that number, text when `Number(text)` is, a boolean when it is 1 or 0 accordingly |
| Feedback.BoolEqualByKind | src/feedback.ts:82-86 | a cached boolean equals the checkbox exactly when they agree; cached text when it reads as 1 or 0 accordingly |
| Feedback.EnumEqualOnText | src/feedback.ts:112-114 | a cached entry equals the option text exactly when the texts are the same |
| Feedback.ThresholdExample | src/feedback.ts:143-148 | cached 7 is above threshold 5 and not below it |
| Js.ArrayAt | src/index.ts:174 | `at` yields an item of the array or nothing |
| Js.LessAsymmetric | src/feedback.ts:143-182 | `<` is asymmetric with NaN included, and neither `<` nor `>` holds between equal numbers |
| Js.LooseEqualsSymmetric | src/feedback.ts:54 | loose equality is symmetric |
| Js.NumberOfDecimalText | src/index.ts:149 | `Number` of the decimal text of a natural number is that number |
| Text.JoinSplit | src/actions.ts:43-47 | joining the pieces of a split with the same separator gives back the text |
| Text.SplitJoin | src/index.ts:173 | splitting a join of pieces without the separator gives back the pieces |
| Text.ContainsAt | src/index.ts:224 | `includes` holds exactly when the text occurs at some index |

## Left out

- The connection lifecycle is left out: `setupEmberConnection`, `connectAsync`, `disconnectAsync`, the event listeners, removing listeners, and status updates. These are network I/O and events. `OnConnected` models only what follows `getDirectoryAsync` on connect.
- The fetched tree is a given value: `getDirectoryAsync` (for the root and for each entered node) and the `getDirectory` subscriptions are foreign calls into the Ember+ client. A later value-change notification is `HandleChangedValue` called with the new element.
- `getElementByPathAsync` is modelled as one child lookup per `.` segment (`EmberTree.ElementByAddress`). The client library is not part of this model.
- `setValueAsync`, logging and warning text are left out. A write and a warning are `Actions.Outcome` values.
- `parseVariablesInString` is a host call. Its result is the `text` input of `Actions.SetValueExpression`.
- `setVariableDefinitions`, `setVariableValues`, `checkFeedbacks`, `updateCompanionBits` and all option and field descriptors are host calls or UI. The feedbacks read the cache map directly, since it holds the values `setVariableValues` publishes.
- Numbers are exact rationals with NaN and infinities. There is no floating-point rounding, no `-0`, and no `toString` formatting.
- ValueNormalizer.Normalize: the factor branch caches the quotient itself, not its `toString()` text. The feedbacks compare that quotient as a number.
- `Number(text)` covers only an optional sign, decimal digits with an optional fraction, and `Infinity`. It leaves out surrounding white space, exponents and hexadecimal forms.
- Loose equality covers only numbers, text and booleans.
- Parameter type names are taken as the lowercase names of the client's ParameterType values (`"string"` and so on). The client's `parameterTypeToString` is not part of this model.
- Action option values are always present. The `?? 0` fallback for an absent set value is left out.
- Every element has a `path`, so the fallback to `''` for the entry path is never taken.
- Interleaving of `configUpdated` or value notifications with an in-flight walk is a concurrency concern and is left out. The model runs each operation to completion.
- Elements other than nodes and parameters (matrices, functions) are `Other`. They are never entered or registered, as in the code.
