# Surveyor core in Dafny

Surveyor describes a survey as a tree of schema elements, declared through a small Ruby DSL:

- a `Survey` at the root;
- the containers `Section`, `Sequence` and `Multiplier`;
- the leaves `StringElement`, `TextElement`, `SelectorElement` and `RadioElement`.

The answers to a survey live in a `Hob`, a record bound to a container. A Hob has one slot per
accepted element of its container. Sections are transparent, so their elements' slots belong to
the enclosing Hob. A Sequence gets a nested Hob, and a Multiplier gets a list of item Hobs.

Positions in the tree are named by a `DomNamer`. It is a bracketed form name (`survey[a][b][]`)
together with a colon-joined id (`survey:a:b:0`). An `ObjectStack` pairs each schema node with the
data it addresses. Validation walks the survey pre-order and records messages in the root Hob's
error collection, keyed by the dotted form of the namer id.

This project models all of the above, plus the parser that builds schema trees and option sheets.
It proves, among others: that `update` and `to_h` agree (loading a Hob's own `to_h` back changes
nothing, on schemas whose names do not collide), that `initialize` and `update` keep every slot in
its element's shape, and that validation records exactly the messages of the pre-order walk. The
hypotheses of each are listed under "## Left out".

## Modules

- `strings.dfy` (`Strings`): Ruby `split` and `join`, and `downcase`, `gsub` and `to_s`. The plain
  field split and Ruby's trailing-empty-dropping split are kept apart.
- `values.dfy` (`Values`): option values and Ruby truthiness. `Input` is the shape of the plain
  nested hashes and arrays that `update` consumes and `to_h` produces. It is an ordered entry list,
  because Ruby hashes keep insertion order.
- `element.rb` is modelled in `element.dfy` (`Elements`):
  - the `Node` datatype, with a kind tag per class;
  - `Located`, a node together with its ancestor chain, standing in for the `parent` reference;
  - `type`, `path_name`, `survey`, `readonly?`, `Element.i18n` and `label`, and the multiplier
    labels.
- `container.dfy` (`Containers`):
  - `accepted_elements` and `accepted_element_at`;
  - `find` over dotted paths;
  - `Section#base_value`;
  - `clone`, as a method over the children loop.
- `survey.dfy` (`Surveys`): `Survey.new` and `Survey.clone_for_factor`.
- `dom_namer.dfy` (`DomNamers`): `plus`/`+`, `mult`/`*`, and walks made of several steps.
- `hob.dfy` (`Hobs`):
  - default values per kind;
  - `setup_interface_from` as a function of the accepted elements;
  - `simple_out` per kind, and `Hob#to_h`.
- `lists.dfy` (`Lists`): `delete_at`, and the reverse removal loop of the multiplier merge.
- `hob_update.dfy` (`HobUpdates`): `update_field` per kind, `Hob#update`, and the multiplier
  add/update/delete merge. Each is a function returning the new state and an `Outcome`, so the
  state left behind when Ruby raises half-way is modelled too.
- `hob_update_methods.dfy` (`HobUpdateMethods`): the same loops as methods, proved equal to the
  functions.
- `object_stack.dfy` (`ObjectStacks`): frames, `owner_object`, `+`, `mult`, `error?`, and
  `traverse_deep_first`, both as a function and as a method.
- `validation.dfy` (`Validations`):
  - the error key;
  - `error_for?` and `mark_error` on an error map;
  - the leaf rules of String, Text and Selector;
  - the recursive `validate_value` of containers and multipliers.
- `hob_object.dfy` (`HobObjects`): the class `Hob`. Its slots and errors are updated in place by
  `setup_interface_from`, `update`, `[]=`, `mark_error` and `validate`.
- `binding.dfy` (`Bindings`): the shape a slot's value takes for its element, kept by `initialize`
  and `update`; and the round trip of `update` with `to_h`.
- `parser.dfy` (`Parsers`): `Parser`, `ContainerParser` and `SheetParser` as classes running lists
  of DSL commands. Each is proved against a function over those lists.

## Model

| member | source | states |
|---|---|---|
| `Strings.RubySplit` | lib/surveyor/container.rb:195 | `split` drops trailing empty fields: the result is a prefix of the field split whose last field is non-empty |
| `Strings.SplitJoin` | lib/surveyor/container.rb:195 | splitting fields joined by a separator they do not contain gives back the fields |
| `Strings.JoinSplit` | lib/surveyor/hob.rb:185 | joining the fields of a split with the separator gives back the string |
| `Strings.NatToString` | lib/surveyor/dom_namer.rb:18 | the decimal text of an index is non-empty and all digits |
| `Strings.NatToStringValue` | lib/surveyor/dom_namer.rb:18 | read back as a decimal numeral, the text is the index itself, and it has no leading zero unless the index is 0 |
| `Strings.NatToStringInjective` | lib/surveyor/dom_namer.rb:18 | two indices have the same text exactly when they are equal, so item ids never collide |
| `Strings.IntToString` | lib/surveyor/dom_namer.rb:18 | an integer's text is its digits, with a leading "-" when negative |
| `Strings.Downcase` | lib/surveyor/element.rb:184 | same length, each character lower-cased |
| `Strings.ReplaceChar` | lib/surveyor/survey.rb:119 | after `gsub('.', '__')` no "." is left, and a string without "." is unchanged |
| `Strings.ReplaceCharPieces` | lib/surveyor/survey.rb:119 | `gsub` of one character is the replacement when it is the searched one and the character itself otherwise, and `gsub` of a concatenation is the concatenation of the results: every "." becomes "__" and everything else is kept in order |
| `Strings.ReplaceCharAppend` | lib/surveyor/survey.rb:119 | `gsub` distributes over concatenation |
| `Values.Opt` | lib/surveyor/element.rb:218 | a missing option reads as nil; a present one reads as its value |
| `Values.Lookup` | lib/surveyor/multiplier.rb:143 | a hash lookup yields nil when no entry has the key, and otherwise the value of an entry with that key |
| `Values.Index` | lib/surveyor/multiplier.rb:143 | `[]` on a hash is lookup; on nil, a boolean or an array it fails |
| `Values.Store` | lib/surveyor/container.rb:146 | after `hash[k] = v`, `k` maps to `v` and every other key is unchanged; a new key is appended last |
| `Elements.TypeNames` | lib/surveyor/element.rb:183-186 | `type` is the lower-cased class name without a trailing "element"; it is "multiplier" exactly for a Multiplier |
| `Elements.DropSuffixStringElement` | lib/surveyor/element.rb:183-186 | example: StringElement has type "string" |
| `Elements.DropSuffixTextElement` | lib/surveyor/element.rb:183-186 | example: TextElement has type "text" |
| `Elements.DropSuffixSelectorElement` | lib/surveyor/element.rb:183-186 | example: SelectorElement has type "selector" |
| `Elements.DropSuffixRadioElement` | lib/surveyor/element.rb:183-186 | example: RadioElement has type "radio" |
| `Elements.DropSuffixSection` | lib/surveyor/element.rb:183-186 | example: Section has type "section" |
| `Elements.DropSuffixSequence` | lib/surveyor/element.rb:183-186 | example: Sequence has type "sequence" |
| `Elements.DropSuffixMultiplier` | lib/surveyor/element.rb:183-186 | example: Multiplier has type "multiplier" |
| `Elements.DropSuffixSurvey` | lib/surveyor/element.rb:183-186 | example: Survey has type "survey" |
| `Elements.IdOf` | lib/surveyor/dom_namer.rb:10 | a node's id is its truthy `:id` option, otherwise its name |
| `Elements.Child` | lib/surveyor/element.rb:163-167 | a child is placed one level below its container, with that container as parent; a well-placed container gives well-placed children |
| `Elements.PathNameIsJoin` | lib/surveyor/element.rb:192-194 | `path_name` is the names from the root to the node joined with "." (a root's is its name) |
| `Elements.SurveyOf` | lib/surveyor/element.rb:200-202 | `survey` is the parentless root of the ancestor chain |
| `Elements.ReadOnlyNearest` | lib/surveyor/element.rb:217-219 | `readonly?` is the truthy `:readonly` option of the nearest node on the chain up to the root that has one, otherwise false |
| `Elements.DottedKeyIsI18nKey` | lib/surveyor/element.rb:306 | lower-case identifier segments joined by "." match the i18n key pattern |
| `Elements.I18nPriority` | lib/surveyor/element.rb:301-312 | `i18n` gives the first decisive key from the front: a translated i18n key, or a literal key; the last key is the fallback text; nil keys are skipped |
| `Elements.FoldIsFirstDecisive` | lib/surveyor/element.rb:303-311 | the right-to-left `inject` equals the first-decisive reading |
| `Elements.LabelPriority` | lib/surveyor/element.rb:208-210 | the label is the `:label` option, then `survey.<path_name>`, then `survey.attributes.<name>`, then the humanized name |
| `Elements.ActionKeys` | lib/surveyor/multiplier.rb:82-89 | example: `survey.label_add` and `survey.label_remove` are i18n keys |
| `Elements.ActionLabelDefaults` | lib/surveyor/multiplier.rb:82-89 | without the option, the add/remove labels are the translation of the key, otherwise the English default |
| `Elements.ActionLabelDefault` | lib/surveyor/multiplier.rb:82-89 | `i18n(nil, key, default)` is the key's translation when there is one, else the default |
| `Containers.AcceptedElements` | lib/surveyor/container.rb:160-162 | every accepted element is identifiable: Sections are flattened away |
| `Containers.AcceptedAppend` | lib/surveyor/container.rb:160-162 | the accepted elements of a concatenation are the concatenation of the accepted elements (`collect` then `flatten`) |
| `Containers.AcceptedFlattens` | lib/surveyor/container.rb:160-162 | children that are all identifiable are accepted as they are; a Section is replaced by its own accepted elements |
| `Containers.AcceptedSmaller` | lib/surveyor/container.rb:160-162 | every accepted element is a subtree of the children, no larger than they are together |
| `Containers.AcceptedElementAtSound` | lib/surveyor/container.rb:169-179 | a result has the requested name; there is one exactly when the name is reachable through children and Sections; an identifiable result is an accepted element |
| `Containers.ReachesSearched` | lib/surveyor/container.rb:169-179 | a name is reachable exactly when it is among the names `accepted_element_at` examines, in its order of examination |
| `Containers.AcceptedSearched` | lib/surveyor/container.rb:160-179 | every accepted element's name is among the examined names |
| `Containers.AcceptedElementAtFinds` | lib/surveyor/container.rb:160-179 | when the examined names are distinct, `accepted_element_at` of each accepted element's name returns that element (the converse of `AcceptedElementAtSound`) |
| `Containers.AcceptedElementAtDirect` | lib/surveyor/container.rb:169-179 | the first direct child with the name is returned when no earlier Section contains it |
| `Containers.FirstNamed` | lib/surveyor/container.rb:199 | `detect` yields a child with that name, or nil when no child has it |
| `Containers.FindPathSound` | lib/surveyor/container.rb:193-202 | a found element is reached through direct children named by the segments, and bears the last segment's name |
| `Containers.FindEmpty` | lib/surveyor/container.rb:193-197 | `find('')` returns the container itself |
| `Containers.FindDotted` | lib/surveyor/container.rb:193-195 | `find` of a dotted path is the segment walk over its fields |
| `Containers.SectionBaseValue` | lib/surveyor/section.rb:9-11 | a Section has no base value: NoBaseValueError |
| `Containers.Clone` | lib/surveyor/container.rb:84-90 | `clone` gives the same node (kind, name, options, children); it fails with WrongParentError exactly when a Survey would be cloned under a parent, at any depth |
| `Containers.CloneChildren` | lib/surveyor/container.rb:86-88 | the children loop gives the same children in order, or WrongParentError when one of them cannot be cloned |
| `Surveys.NewSurvey` | lib/surveyor/survey.rb:92-94 | a new Survey has no parent and no elements; its `path_name` is its name and it is its own `survey` |
| `Surveys.CloneForFactor` | lib/surveyor/survey.rb:118-124 | the factor survey is named after the multiplier's `path_name` with "." replaced by "__"; its options add `no_label`; its children are the multiplier's children, in order |
| `DomNamers.Start` | lib/surveyor/survey.rb:79 | the starting namer has the survey's name and id |
| `DomNamers.ApplyParts` | lib/surveyor/dom_namer.rb:9-23 | `+ e` appends `[name]` to the name and `:id` to the id; `* i` appends `[]` and `:i` |
| `DomNamers.StepExtends` | lib/surveyor/dom_namer.rb:9-19 | each step returns a namer whose name and id strictly extend the receiver's |
| `DomNamers.WalkId` | lib/surveyor/dom_namer.rb:9-19 | after a walk, the id is the start id and the step segments joined by ":" |
| `DomNamers.WalkIdStep` | lib/surveyor/dom_namer.rb:9-19 | the same, one step at a time |
| `DomNamers.WalkName` | lib/surveyor/dom_namer.rb:9-19 | after a walk, the name is the start name followed by the bracketed step segments |
| `Hobs.SelectorDefault` | lib/surveyor/selector_element.rb:97-99 | a selector defaults to `{'value' => '', 'other' => ''}`, in that order |
| `Hobs.NewHob` | lib/surveyor/hob.rb:21-24 | a fresh Hob is bound to its container, with one slot per accepted element name |
| `Hobs.DefaultShapes` | lib/surveyor/element.rb:226-229 | leaves default to '' (a selector to its pair), a Multiplier to `[]`, any other container to a fresh Hob on it |
| `Hobs.SetupOver` | lib/surveyor/hob.rb:214-228 | setting up over existing slots overrides them with the fresh slots |
| `Hobs.SetupTwice` | lib/surveyor/hob.rb:214-228 | setting up twice gives the same slots as once |
| `Hobs.SetupKeys` | lib/surveyor/hob.rb:214-228 | the slot names are exactly the accepted element names |
| `Hobs.SetupDefaults` | lib/surveyor/hob.rb:218-220 | an accepted element that no later one shadows holds its own default value |
| `Hobs.ItemsOut` | lib/surveyor/multiplier.rb:112-122 | a multiplier's `simple_out` has one hash per item, the i-th being the hash over the accepted elements of the i-th item Hob |
| `Hobs.StoreFresh` | lib/surveyor/container.rb:146 | storing a new key appends it to the hash keys |
| `Hobs.FieldsOutKeys` | lib/surveyor/container.rb:142-150 | the output keys are the accepted names that have a slot, in order |
| `Hobs.FieldsOutOther` | lib/surveyor/container.rb:142-150 | keys that are not accepted names keep their value |
| `Hobs.FieldsOutLookup` | lib/surveyor/container.rb:142-150 | each accepted name maps to that element's `simple_out` of its slot |
| `Hobs.ToHIsFieldsOut` | lib/surveyor/hob.rb:47-53 | both branches of `to_h` (the container's `simple_out`, and for a multiplier-bound Hob the single item of `simple_out([self])`) are the hash over the container's accepted elements |
| `Hobs.ToHFresh` | lib/surveyor/hob.rb:47-53 | `to_h` of a fresh Hob has exactly the accepted names as keys, each with its element's default output |
| `Hobs.AllSlotted` | lib/surveyor/container.rb:142-150 | when every accepted element has a slot, the output keys are all the accepted names |
| `Lists.DeleteAt` | lib/surveyor/multiplier.rb:160 | `delete_at(k)` removes the k-th element, or leaves the list alone past its end |
| `Lists.RemoveRevKeeps` | lib/surveyor/multiplier.rb:158-162 | deleting ascending indices from the last one down keeps exactly the elements at the other indices, in order |
| `Lists.RemoveRevIn` | lib/surveyor/multiplier.rb:158-162 | the removal loop only drops items: every survivor was in the list |
| `Lists.KeepAfterDelete` | lib/surveyor/multiplier.rb:160 | deleting index k keeps the prefix's survivors followed by the suffix |
| `HobUpdates.Updated` | lib/surveyor/multiplier.rb:141-149 | every unmarked existing item is updated in place; marked items are left as they are until removal |
| `HobUpdates.MarkedBelow` | lib/surveyor/multiplier.rb:141-145 | the removal list holds, in ascending order, exactly the marked existing indices |
| `HobUpdates.MergeGuards` | lib/surveyor/multiplier.rb:134-139 | a non-array fails with InvalidFieldMatchError, a shorter array with SmallerArrayError, both before any change |
| `HobUpdates.MergeExistingDone` | lib/surveyor/multiplier.rb:141-149 | after a successful pass over the existing items, they are updated and the marked ones are queued for removal |
| `HobUpdates.MergeNewDone` | lib/surveyor/multiplier.rb:150-157 | new unmarked items are appended as fresh Hobs updated with the item; marked ones are dropped |
| `HobUpdates.MergeNewMarked` | lib/surveyor/multiplier.rb:151 | a marked new item adds nothing |
| `HobUpdates.MergeNewUnmarked` | lib/surveyor/multiplier.rb:151-156 | an unmarked new item adds one Hob bound to the multiplier |
| `HobUpdates.MergeDone` | lib/surveyor/multiplier.rb:140-163 | after the merge, surviving old items (updated) keep their order and come before the new items |
| `HobUpdates.MergeLength` | lib/surveyor/multiplier.rb:140-163 | after the merge, the length is the number of unmarked incoming items |
| `HobUpdates.AddedCount` | lib/surveyor/multiplier.rb:150-157 | one new Hob per unmarked new item |
| `HobUpdates.KeepCount` | lib/surveyor/multiplier.rb:158-162 | removal leaves one item per unmarked existing index |
| `HobUpdates.UpdateEntriesFrame` | lib/surveyor/hob.rb:36-40 | the entry loop keeps the container and the slot names, and leaves slots that no remaining entry names unchanged |
| `HobUpdates.PairCount` | lib/surveyor/hob.rb:36 | `each` runs once per hash entry or array item |
| `HobUpdates.FieldAt` | lib/surveyor/hob.rb:36 | the first block parameter (`field`) of `each`: a hash entry's key; an array item's first element when the item is an array, the item itself otherwise |
| `HobUpdates.ValueAt` | lib/surveyor/hob.rb:36 | the `value`: a hash entry's value; an array item's second element when it has one, nil otherwise |
| `HobUpdates.UpdateOnlyNamed` | lib/surveyor/hob.rb:34-41 | `update` keeps the container and the slot names, and changes only slots that some `field` of the hash or array names; an empty hash or array changes nothing; anything that does not respond to `each` fails before anything changes |
| `HobUpdates.PairListUpdate` | lib/surveyor/hob.rb:34-41 | updating with the array of `[key, value]` pairs of a hash has exactly the effect of updating with the hash |
| `HobUpdates.UpdateResolves` | lib/surveyor/hob.rb:37-38 | a successful update has resolved every key through `accepted_element_at` |
| `HobUpdates.UnknownFieldFirst` | lib/surveyor/hob.rb:37-38 | a first key that resolves to nothing fails with UnknownFieldError and changes nothing |
| `HobUpdates.LeafUpdates` | lib/surveyor/string_element.rb:63-68 | String and Text take a string and refuse anything else; a Selector takes any value as-is; Radio is not implemented; a Section raises NoBaseValueError |
| `HobUpdates.SequenceUpdate` | lib/surveyor/container.rb:111-116 | a container refuses a non-hash with InvalidFieldMatchError and otherwise updates its nested Hob |
| `HobUpdateMethods.UpdateFieldM` | lib/surveyor/container.rb:111-116 | the in-place `update_field` loops compute exactly the function's new value and outcome |
| `HobUpdateMethods.UpdateHobM` | lib/surveyor/hob.rb:34-41 | the in-place `update` loop computes exactly the function's new Hob and outcome |
| `HobUpdateMethods.MergeItemsM` | lib/surveyor/multiplier.rb:133-164 | the index loop, the appends and the reverse `delete_at` loop compute the merge function's result |
| `ObjectStacks.NewStack` | lib/surveyor/object_stack.rb:20-25 | the root frame has no parent and the survey's starting namer |
| `ObjectStacks.OwnerObject` | lib/surveyor/object_stack.rb:44-47 | the owner object is a Hob of an identifiable container |
| `ObjectStacks.Ancestry` | lib/surveyor/object_stack.rb:44-47 | the chain of frames from a frame up through its parents starts at the frame, and is a single frame exactly for the root |
| `ObjectStacks.OwnerObjectNearest` | lib/surveyor/object_stack.rb:44-47 | `owner_object` climbs past array objects and Hobs of Sections to the nearest frame holding a Hob of an identifiable container, and returns that Hob; it fails when the climb meets any other object or runs past the root |
| `ObjectStacks.PlusFrame` | lib/surveyor/object_stack.rb:56-64 | `+ e` keeps the root object; for a Section it keeps object and namer; otherwise its object is the owner's slot `e.name` and its namer `namer + e` |
| `ObjectStacks.MultFrame` | lib/surveyor/object_stack.rb:77-82 | `mult` fails with CannotMultiplyError unless the element is a Multiplier; otherwise the item frame keeps the element and the root object, holds the item Hob, and uses `namer * idx` |
| `ObjectStacks.HasError` | lib/surveyor/object_stack.rb:104-106 | `error?` is the root Hob's `error_for?` of the frame's namer |
| `ObjectStacks.PreOrder` | lib/surveyor/object_stack.rb:112-131 | a frame is visited before its children; leaves have none; a failing visit stops the walk |
| `ObjectStacks.TraverseM` | lib/surveyor/object_stack.rb:112-131 | the nested traversal loops produce the traversal function's marks and outcome |
| `ObjectStacks.ElemsM` | lib/surveyor/object_stack.rb:123-127 | the loop over accepted elements produces the function's marks and outcome |
| `ObjectStacks.TraverseValidates` | lib/surveyor/object_stack.rb:112-131 | validating through the traversal callback records the same messages as the container recursion |
| `ObjectStacks.TraverseItemsValidate` | lib/surveyor/multiplier.rb:175-183 | for multiplier items, traversal and recursion agree |
| `ObjectStacks.TraverseElemsValidate` | lib/surveyor/container.rb:127-132 | for accepted elements, traversal and recursion agree |
| `Validations.Then` | lib/surveyor/container.rb:129-131 | running two validations in turn keeps both sets of marks, and stops at the first failure |
| `Validations.ThenAssoc` | lib/surveyor/container.rb:129-131 | chaining validations is associative |
| `Validations.ErrorKey` | lib/surveyor/hob.rb:172 | the error key fails exactly when the id splits into no fields |
| `Validations.ErrorKeyOfWalk` | lib/surveyor/hob.rb:185 | for a walked namer, the key is the step ids joined by "." (the survey id dropped) |
| `Validations.ErrorFor` | lib/surveyor/hob.rb:171-174 | `error_for?` holds exactly when messages are recorded under the namer's key |
| `Validations.Append` | lib/surveyor/hob.rb:186 | `errors[k] << m` appends `m` under `k` and leaves other keys alone |
| `Validations.ApplyMarksEffect` | lib/surveyor/hob.rb:184-187 | after recording, each marked key has messages, earlier messages are kept, unmarked keys are untouched |
| `Validations.LeafCodes` | lib/surveyor/string_element.rb:78-86 | one validation records at most one code, `not_present` or `not_matching` |
| `Validations.StringRules` | lib/surveyor/string_element.rb:78-86 | required and blank gives `not_present` and skips the regexp; a blank value is never `not_matching`; a non-blank mismatch is |
| `Validations.TextRules` | lib/surveyor/text_element.rb:68-72 | a text field records `not_present` exactly when required and blank, and has no regexp rule |
| `Validations.SelectorRules` | lib/surveyor/selector_element.rb:130-134 | only `value` matters: `not_present` when required and it is blank; `other` is never inspected |
| `Validations.LeafMarks` | lib/surveyor/hob.rb:184-187 | a leaf records its code as `survey.errors.<code>` under its error key |
| `Validations.LeafAsWritten` | lib/surveyor/container.rb:130 | as written, a leaf that has a code to record fails instead of recording it |
| `Validations.RequiredBlankAsWritten` | lib/surveyor/container.rb:130 | example: a required blank string field: the code as written fails; the corrected leaf records `survey.errors.not_present` under "first" |
| `Validations.SlotOf` | lib/surveyor/container.rb:130 | `current_value.send(name)` succeeds exactly on a Hob that has that slot |
| `Validations.MarksAreMessages` | lib/surveyor/container.rb:127-132 | every message recorded by validation is `survey.errors.not_present` or `survey.errors.not_matching` |
| `Validations.ItemsAreMessages` | lib/surveyor/multiplier.rb:175-183 | the same for multiplier items |
| `Validations.ElemsAreMessages` | lib/surveyor/container.rb:127-132 | the same for accepted elements |
| `HobObjects.Hob.constructor` | lib/surveyor/hob.rb:21-24 | a new Hob holds the fresh slots and no errors |
| `HobObjects.Hob.SetupInterfaceFrom` | lib/surveyor/hob.rb:214-228 | the set-up loop gives the slots of the set-up function and keeps the errors |
| `HobObjects.Hob.Create` | lib/surveyor/hob.rb:21-26 | a missing container fails with ValidSurveyError; otherwise the Hob is the fresh Hob updated with the initial map, failing as that update fails |
| `HobObjects.Hob.Update` | lib/surveyor/hob.rb:34-41 | `update` clears the errors, then changes the slots as the update function does |
| `HobObjects.Hob.Get` | lib/surveyor/hob.rb:60-62 | `h[name]` is the slot's value, and fails for a name without a slot |
| `HobObjects.Hob.Set` | lib/surveyor/hob.rb:70-72 | `h[name] = v` replaces that slot only, and fails without change for a name without a slot |
| `HobObjects.Hob.ToHash` | lib/surveyor/hob.rb:47-53 | `to_h` of the object is the projection of its container and slots |
| `HobObjects.Hob.ErrorForNamer` | lib/surveyor/hob.rb:171-174 | `error_for?` fails when the id has no key, otherwise holds exactly when messages are recorded under the key |
| `HobObjects.Hob.MarkError` | lib/surveyor/hob.rb:184-187 | `mark_error` appends `survey.errors.<code>` under the key, after which `error_for?` holds; the slots are unchanged |
| `HobObjects.MissingLocalId` | lib/surveyor/hob.rb:99 | the callback as written records nothing and fails, since `os.local_id` is undefined |
| `HobObjects.Hob.ValidateAsWritten` | lib/surveyor/hob.rb:96-101 | as written, `validate` does nothing for a non-survey; for a survey the traversal stops at its first visit, the root frame, and fails, recording nothing |
| `HobObjects.Hob.Validate` | lib/surveyor/hob.rb:96-101 | `validate` does nothing for a non-survey; for a survey it records exactly the messages of the pre-order traversal, which equal the recursive validation's |
| `Bindings.NewHobBound` | lib/surveyor/hob.rb:21-24 | on a schema with distinct accepted names at every level, a fresh Hob gives every accepted element a slot whose value has that element's shape (a string for String/Text/Radio, a selector pair, a nested Hob for a container, Hobs bound to the multiplier for a Multiplier) |
| `Bindings.DefaultBound` | lib/surveyor/element.rb:226-229 | each element's default value has that element's shape |
| `Bindings.BoundCoherent` | lib/surveyor/object_stack.rb:56-82 | a value with its element's shape is one the object stack can walk without a shape error |
| `Bindings.NewHobCoherent` | lib/surveyor/hob.rb:21-24 | a fresh Hob of a survey or sequence with distinct names can be walked by the object stack |
| `Bindings.UpdateFieldBound` | lib/surveyor/container.rb:111-116 | `update_field` keeps the value in its element's shape, whether it succeeds or fails half-way |
| `Bindings.UpdateHobBound` | lib/surveyor/hob.rb:34-41 | `update` keeps the container and keeps every slot in its element's shape, whatever the input and wherever it fails |
| `Bindings.UpdateEntriesBound` | lib/surveyor/hob.rb:36-40 | each pass of the `each` loop keeps the slots in shape |
| `Bindings.SlotUpdateBound` | lib/surveyor/hob.rb:39 | `self[field] = element.update_field(...)` keeps the slots in shape |
| `Bindings.MergeItemsBound` | lib/surveyor/multiplier.rb:133-164 | the multiplier merge keeps every item a Hob bound to the multiplier, with its slots in shape |
| `Bindings.MergeExistingBound` | lib/surveyor/multiplier.rb:141-149 | the pass over existing items keeps them in shape |
| `Bindings.MergeNewBound` | lib/surveyor/multiplier.rb:150-157 | the new items are fresh Hobs, updated, in shape |
| `Bindings.CreateCoherent` | lib/surveyor/hob.rb:21-26 | `Hob.new(container, hash)` on a survey or sequence with distinct names gives a Hob the object stack can walk, whatever the hash and even when the update fails half-way |
| `Bindings.RequiredBlankHob` | lib/surveyor/hob.rb:96-101 | example: validating a fresh Hob of a survey with a required string `first` records `survey.errors.not_present` under "first" |
| `Bindings.SingleFieldSurvey` | lib/surveyor/hob.rb:21-24 | example: a survey with one string field accepts exactly that field, and a fresh Hob holds '' for it |
| `Bindings.OutEntries` | lib/surveyor/container.rb:142-150 | the `to_h` entries of a list of accepted elements, one per element, in order |
| `Bindings.FieldsOutAll` | lib/surveyor/container.rb:142-150 | with distinct names that all have slots, `simple_out` appends exactly one entry per accepted element, in order |
| `Bindings.FieldsOutStep` | lib/surveyor/container.rb:144-148 | one step of the `inject`: the first element's entry is appended |
| `Bindings.StoreNew` | lib/surveyor/container.rb:146 | storing a key not yet in the hash appends it |
| `Bindings.OutEntriesCons` | lib/surveyor/container.rb:142-150 | the entries of a non-empty list are the first element's entry followed by the rest's |
| `Bindings.NotMarked` | lib/surveyor/multiplier.rb:143 | the `to_h` of an item never carries a "deleted" mark when the multiplier accepts no element named "deleted" |
| `Bindings.FieldRoundTrip` | lib/surveyor/element.rb:235-258 | `update_field(v, simple_out(v))` gives back `v` and succeeds, for every element kind but Radio |
| `Bindings.MergeRoundTrip` | lib/surveyor/multiplier.rb:112-164 | merging a multiplier's own `simple_out` back updates each item with its own hash and removes none |
| `Bindings.HobRoundTrip` | lib/surveyor/container.rb:111-150 | updating a nested Hob with its own `simple_out` gives it back unchanged |
| `Bindings.EntriesRoundTrip` | lib/surveyor/hob.rb:36-40 | the `each` loop over a Hob's own output changes nothing from any entry on |
| `Bindings.EntryRoundTrip` | lib/surveyor/hob.rb:37-39 | one entry of a Hob's own output rewrites its slot with the same value |
| `Bindings.UpdateToH` | test/dummy/app/controllers/hobs_controller.rb:29-37 | a Hob whose slots have their elements' shapes, on a schema without Radio and with distinct names, loads its own `to_h` back unchanged and without error, so saving `to_h` and reloading it with `Hob.new` (lines 29 and 37) gives the same document |
| `Parsers.Chomp` | lib/surveyor/parser.rb:191 | `chomp('=')` removes one trailing "=" |
| `Parsers.Register` | lib/surveyor/parser.rb:210-217 | options are merged under the dot-joined path ('' for the root); other paths and other options are kept |
| `Parsers.RunCmd` | lib/surveyor/parser.rb:187-206 | one argument sets an option; several fail with ParsingError; no arguments and an unknown element fail with ParsingError |
| `Parsers.ChainRegisters` | lib/surveyor/parser.rb:187-217 | a chain of element names ending in an option assignment registers the option under the joined path |
| `Parsers.SheetUnknownElement` | lib/surveyor/parser.rb:196-197 | example: naming an element `find` cannot resolve fails with ParsingError |
| `Parsers.AddChild` | lib/surveyor/parser.rb:95 | a declaration appends exactly one child at the end of the container |
| `Parsers.NodeOf` | lib/surveyor/parser.rb:92-147 | a declaration builds a node of its kind, name and options, with its nested declarations as children |
| `Parsers.NodesOf` | lib/surveyor/parser.rb:92-147 | the nodes of a declaration list, sheets left out |
| `Parsers.DeclStep` | lib/surveyor/parser.rb:92-169 | each declaration appends its node; `radio` without values, a sheet outside a Survey, a sheet with a block and a hash, and a non-hash sheet fail with ParsingError |
| `Parsers.BuildBody` | lib/surveyor/parser.rb:92-124 | a successful block appends exactly the nodes of its declarations, in order |
| `Parsers.SurveyStep` | lib/surveyor/parser.rb:61-65 | `survey` builds a Survey with its name and options, and the declared children |
| `Parsers.SurveysOf` | lib/surveyor/parser.rb:41-45 | each declared survey becomes one Survey, in declaration order |
| `Parsers.SurveysOfStep` | lib/surveyor/parser.rb:61-65 | surveys built so far followed by the rest equal the whole |
| `Parsers.Shape` | lib/surveyor/parser.rb:44 | the result is nil for no surveys, the survey for one, the list for several |
| `Parsers.NestedCounts` | lib/surveyor/parser.rb:92-96 | a nested declaration gets as many children as its block declares |
| `Parsers.NoSheetsCount` | lib/surveyor/parser.rb:92-135 | without sheets there is one node per declaration |
| `Parsers.NodesOfAt` | lib/surveyor/parser.rb:92-135 | without sheets the i-th node is the i-th declaration's |
| `Parsers.SheetParser.constructor` | lib/surveyor/parser.rb:177-181 | a new sheet parser holds its element and an empty sheet |
| `Parsers.SheetParser.RegisterOptions` | lib/surveyor/parser.rb:210-217 | the sheet is updated as `Register` states |
| `Parsers.SheetParser.Call` | lib/surveyor/parser.rb:187-206 | one call changes the sheet as the command function does, and fails exactly when it does |
| `Parsers.SheetParser.Run` | lib/surveyor/parser.rb:162-163 | evaluating a block runs its calls in order, with the command function's result |
| `Parsers.ContainerParser.constructor` | lib/surveyor/parser.rb:80-82 | a container parser starts on its container, with no sheets |
| `Parsers.ContainerParser.Declare` | lib/surveyor/parser.rb:92-169 | one declaration changes the container as `DeclStep` does, and fails exactly when it does |
| `Parsers.ContainerParser.Run` | lib/surveyor/parser.rb:94 | a block's declarations change the container as `BuildBody` does |
| `Parsers.Parser.constructor` | lib/surveyor/parser.rb:50-52 | a new parser has no surveys |
| `Parsers.Parser.Survey` | lib/surveyor/parser.rb:61-65 | `survey` appends the built survey, and fails exactly when building it fails |
| `Parsers.Parser.Define` | lib/surveyor/parser.rb:41-45 | `define` returns the shaped list of the surveys built, or the first error |

## Left out

- HTML rendering is not modelled: the `HtmlRenderer` classes, `emit_tag`, the form and template
  helpers, and the selector widget logic. It produces markup, not state.
- ActiveModel integration and `HobErrors#full_messages` are not modelled. They are message
  formatting through I18n.
- `I18n.t` is the parameter `tr`, an uninterpreted lookup. `String#humanize` is a parameter too.
- A regular-expression match is the parameter `matches`, an abstract predicate over (pattern, value).
- The DSL's evaluation mechanics (`instance_eval`, `instance_exec`, `method_missing`, reading a
  stream in `parse_stream`) are not modelled. Blocks are lists of declaration or sheet commands,
  and `parse_string`/`parse_stream` are the same as `define` on such a list.
- A nested `SheetParser` and its `parent` chain are modelled by the element reached plus the path
  of names from the sheet root. `register_options` on the nested parser is registration under that
  path.
- `Survey#sheets` and `Survey#apply_sheet` are not part of this model. The sheets a survey declares
  are kept beside it, in `Parsers.Built`.
- `RadioElement` is not part of this model. A radio node has `Element`'s behaviour: default '', and
  identity `simple_out`. Its `update_field` and `validate_value` give NotImplemented, as the base
  class raises.
- `ParsingError` is raised by parser.rb, but lib/surveyor/exceptions.rb does not define it. The model
  keeps it as its own error.
- `DomNamer.start`, called at lib/surveyor/object_stack.rb:24, is not defined in the files. It is
  modelled as the namer that lib/surveyor/survey.rb:79 builds: the survey's name, and its `:id` or
  name.
- `Section#identifiable?` is not overridden in section.rb. Every caller (element.rb:270-272,
  container.rb:172-174, hob.rb:223-225) relies on Sections being non-identifiable, so the model takes
  identifiable to mean "not a Section".
- `accepted_element_at` follows the code: children are examined in order. For each child, its own
  name is checked first, and then, if it is a Section, its contents. This is not a search of all
  direct children before any Section.
- The `parent` back-reference is replaced by `Located`, an explicit ancestor chain. Clones compare
  as values, because a value tree cannot alias the original. `Containers.Clone` therefore states
  equality of the copy, not distinct identity.
- Per-Hob error collections of nested Hobs are not modelled. Only the root `Hob` object holds
  errors, which is where `validate` and `mark_error` write.
- Ruby's generic `NoMethodError`/`TypeError` on a value of the wrong shape is one error,
  `TypeMismatch`.
- Eigenclass accessors from `define_method` are the slot map, reached through `Get` and `Set`.
- Bindings.UpdateToH: holds only for `Reloadable` schemas. Every level must have distinct accepted
  names, with no name both a Section's and a field's. There is no RadioElement, whose `update_field`
  raises. No Multiplier accepts an element named "deleted", which `update_field` would read as a
  removal mark. With a name collision, `to_h` keeps one entry per key and `update` writes the
  colliding slots in turn, so no round trip is promised.
- Bindings.NewHobBound, Bindings.UpdateHobBound, Bindings.CreateCoherent: stated for schemas with
  distinct accepted names at every level, since colliding names share one slot holding one shape.
- Containers.AcceptedElementAtFinds: stated when the names `accepted_element_at` examines are
  distinct. Otherwise the first match in examination order wins, which `AcceptedElementAtDirect`
  describes.
- Bindings.RequiredBlankHob, Validations.RequiredBlankAsWritten, Parsers.SheetUnknownElement, the
  `Elements.DropSuffix…` lemmas and Elements.ActionKeys: worked examples on fixed inputs, beside
  the general lemmas.

## Findings

| source | as written | input that shows it | evidently intended | confidence | as-written member | corrected member |
|---|---|---|---|---|---|---|
| lib/surveyor/hob.rb:99 | `validate` calls `os.local_id`, which `ObjectStack` does not define, so it raises for every survey | any Hob bound to a Survey | each leaf records its code under the key derived from the frame's namer id (lib/surveyor/hob.rb:185) | not executed | `HobObjects.Hob.ValidateAsWritten` | `HobObjects.Hob.Validate` |
| lib/surveyor/container.rb:130 (also lib/surveyor/multiplier.rb:180) | containers call leaves with `(value, dom_namer + elem, root_hob)`, but leaves expect `(value, local_id, errors)`; `root_hob[dom_namer]` calls `send` with a DomNamer and raises whenever a code is to be recorded | a Survey with `string :first, :required => true` and `first` left blank | record `survey.errors.not_present` under the key "first" | not executed | `Validations.LeafAsWritten` | `Validations.LeafMarks` |
