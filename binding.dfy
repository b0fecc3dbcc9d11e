/** How Hob data stays bound to its schema (lib/surveyor/hob.rb, container.rb, multiplier.rb):
    `Hob.new` gives every accepted element a slot holding a value of the element's kind, and
    `update` only ever replaces a slot through that element's `update_field`, so the shape is
    kept. On such data, `update(to_h)` is a successful no-op. */
module Bindings {
  import opened Strings
  import opened Values
  import opened Elements
  import opened Containers
  import opened Hobs
  import opened HobUpdates
  import opened Lists
  import opened ObjectStacks
  import opened DomNamers
  import opened Validations

  /** Data shaped by its element: a String or Text field holds a string, a Selector its
      submitted value; a Sequence or Survey holds a Hob bound to it, and a Multiplier a list
      of Hobs bound to it, each with a shaped slot for every accepted element. A Section
      holds no data of its own. */
  predicate Bound(e: Node, v: Value)
    decreases Size(e), 1
  {
    match e
    case Field(SelectorKind, _, _) => v.Choice?
    case Field(_, _, _) => v.Text?
    case Container(SectionKind, _, _, _) => false
    case Container(MultiplierKind, _, _, _) =>
      v.Items? && forall h :: h in v.items ==> h.container == e && BoundSlots(e, h)
    case Container(_, _, _, _) => v.Sub? && v.hob.container == e && BoundSlots(e, v.hob)
  }

  predicate BoundSlots(c: Node, h: HobVal)
    requires c.Container?
    decreases Size(c), 0
  {
    AcceptedSmaller(c.elements);
    forall a :: a in AcceptedElements(c.elements) ==> a.name in h.slots && Bound(a, h.slots[a.name])
  }

  /** Every container of the schema (Sections flattened) has distinct accepted names. */
  predicate DistinctTree(e: Node)
    decreases Size(e)
  {
    e.Field? ||
      (DistinctNames(AcceptedElements(e.elements)) &&
       (AcceptedSmaller(e.elements);
        forall a :: a in AcceptedElements(e.elements) ==> DistinctTree(a)))
  }

  // ---------------------------------------------------------------------------
  // Construction binds

  /** `Hob.new(c)` gives every accepted element a slot with a value of its kind. */
  lemma {:induction false} NewHobBound(c: Node)
    requires c.Container? && DistinctTree(c)
    ensures NewHob(c).container == c && BoundSlots(c, NewHob(c))
    decreases Size(c), 1
  {
    var acc := AcceptedElements(c.elements);
    AcceptedSmaller(c.elements);
    forall a | a in acc
      ensures a.name in NewHob(c).slots && Bound(a, NewHob(c).slots[a.name])
    {
      var i :| 0 <= i < |acc| && acc[i] == a;
      SetupDefaults(c.elements, i);
      DefaultBound(a);
    }
  }

  /** An accepted element's default value is shaped by it. */
  lemma {:induction false} DefaultBound(a: Node)
    requires Identifiable(a) && DistinctTree(a)
    ensures Bound(a, DefaultValue(a))
    decreases Size(a), 2
  {
    DefaultShapes(a);
    if a.Container? && !a.IsMultiplier() {
      NewHobBound(a);
    }
  }

  /** Shaped data is coherent, which is what drives validation from the traversal. */
  lemma {:induction false} BoundCoherent(e: Node, v: Value)
    requires Bound(e, v)
    ensures Coherent(e, v)
    decreases Size(e), 1
  {
    if e.Container? {
      var acc := AcceptedElements(e.elements);
      if e.IsMultiplier() {
        forall i | 0 <= i < |v.items|
          ensures CoherentSlots(e, acc, v.items[i], 0)
        {
          assert v.items[i] in v.items;
          BoundSlotsCoherent(e, acc, v.items[i], 0);
        }
      } else {
        BoundSlotsCoherent(e, acc, v.hob, 0);
      }
    }
  }

  lemma {:induction false} BoundSlotsCoherent(c: Node, acc: seq<Node>, h: HobVal, k: nat)
    requires c.Container? && acc == AcceptedElements(c.elements) && BoundSlots(c, h)
    ensures CoherentSlots(c, acc, h, k)
    decreases Size(c), 0, |acc| - k
  {
    if k < |acc| {
      AcceptedSmaller(c.elements);
      assert acc[k] in acc;
      BoundCoherent(acc[k], h.slots[acc[k].name]);
      BoundSlotsCoherent(c, acc, h, k + 1);
    }
  }

  /** A new Hob on a Sequence or Survey whose containers have distinct accepted names is
      coherent, so validating it follows the `validate_value` recursion. */
  lemma NewHobCoherent(c: Node)
    requires c.IsSequenceLike() && DistinctTree(c)
    ensures Coherent(c, Sub(NewHob(c)))
  {
    NewHobBound(c);
    BoundCoherent(c, Sub(NewHob(c)));
  }

  // ---------------------------------------------------------------------------
  // Update keeps the binding

  /** `update_field` leaves a slot shaped by its element, whether it completes or raises. */
  lemma {:induction false} UpdateFieldBound(e: Node, cur: Value, x: Input)
    requires DistinctTree(e) && Bound(e, cur)
    ensures Bound(e, UpdateField(e, cur, x).0)
    decreases Iterable(x), x, 5, 0
  {
    if e.IsMultiplier() {
      MergeItemsBound(e, cur, x);
    } else if e.Container? && x.IMap? {
      UpdateOnlyNamed(cur.hob, x);
      UpdateHobBound(cur.hob, x);
    }
  }

  /** `update` leaves every slot shaped by its element, whether it completes or raises. */
  lemma {:induction false} UpdateHobBound(h: HobVal, x: Input)
    requires h.container.Container? && DistinctTree(h.container) && BoundSlots(h.container, h)
    ensures UpdateHob(h, x).0.container == h.container
    ensures BoundSlots(h.container, UpdateHob(h, x).0)
    decreases Iterable(x), x, 4, 0
  {
    if Iterable(x) {
      UpdateEntriesBound(h, x, 0);
    }
  }

  lemma {:induction false} UpdateEntriesBound(h: HobVal, x: Input, i: nat)
    requires Iterable(x) && i <= PairCount(x)
    requires h.container.Container? && DistinctTree(h.container) && BoundSlots(h.container, h)
    ensures UpdateEntries(h, x, i).0.container == h.container
    ensures BoundSlots(h.container, UpdateEntries(h, x, i).0)
    decreases Iterable(x), x, 3, PairCount(x) - i
  {
    if i < PairCount(x) && FieldAt(x, i).Some? {
      var key := FieldAt(x, i).value;
      var c := h.container;
      match AcceptedElementAt(Children(c), key) {
        case None =>
        case Some(e) =>
          if key in h.slots {
            var (v, o) := UpdateField(e, h.slots[key], ValueAt(x, i));
            var h' := h.(slots := h.slots[key := v]);
            SlotUpdateBound(h, key, e, ValueAt(x, i));
            if o.Done? {
              UpdateEntriesBound(h', x, i + 1);
            }
          }
      }
    }
  }

  /** One pair: the element `accepted_element_at` finds is the only accepted element with that
      name, or a Section, whose update raises and changes nothing. */
  lemma SlotUpdateBound(h: HobVal, key: string, e: Node, val: Input)
    requires h.container.Container? && DistinctTree(h.container) && BoundSlots(h.container, h)
    requires AcceptedElementAt(Children(h.container), key) == Some(e) && key in h.slots
    ensures BoundSlots(h.container, h.(slots := h.slots[key := UpdateField(e, h.slots[key], val).0]))
    decreases Iterable(val), val, 6, 0
  {
    var c := h.container;
    var acc := AcceptedElements(c.elements);
    var v := UpdateField(e, h.slots[key], val).0;
    AcceptedSmaller(c.elements);
    AcceptedElementAtSound(c.elements, key);
    if Identifiable(e) {
      var i :| 0 <= i < |acc| && acc[i] == e;
      UpdateFieldBound(e, h.slots[key], val);
      forall a | a in acc && a.name == key ensures a == e {
        var j :| 0 <= j < |acc| && acc[j] == a;
        assert i == j;
      }
    } else {
      assert v == h.slots[key];
    }
  }

  /** The multiplier merge keeps every item a Hob bound to the multiplier with shaped slots:
      updated items stay bound, new items start as bound fresh Hobs, and deletions only drop
      items. */
  lemma {:induction false} MergeItemsBound(m: Node, cur: Value, x: Input)
    requires m.IsMultiplier() && DistinctTree(m) && Bound(m, cur)
    ensures Bound(m, MergeItems(m, cur, x).0)
    decreases Iterable(x), x, 4, 1
  {
    if x.IList? && |x.items| >= |cur.items| {
      MergeExistingBound(m, cur.items, x, 0, []);
    }
  }

  lemma {:induction false} MergeExistingBound(m: Node, items: seq<HobVal>, x: Input, i: nat, removed: seq<nat>)
    requires x.IList? && i <= |items| <= |x.items|
    requires m.IsMultiplier() && DistinctTree(m) && Bound(m, Items(items))
    ensures Bound(m, MergeExisting(m, items, x, i, removed).0)
    decreases Iterable(x), x, 3, |items| - i
  {
    if i == |items| {
      MergeNewBound(m, items, x, |items|, removed);
    } else if DeletedMark(x.items[i]) == Ok(true) {
      MergeExistingBound(m, items, x, i + 1, removed + [i]);
    } else if DeletedMark(x.items[i]) == Ok(false) {
      assert items[i] in items;
      UpdateHobBound(items[i], x.items[i]);
      var items' := items[i := UpdateHob(items[i], x.items[i]).0];
      assert forall h :: h in items' ==> h in items || h == UpdateHob(items[i], x.items[i]).0;
      if UpdateHob(items[i], x.items[i]).1.Done? {
        MergeExistingBound(m, items', x, i + 1, removed);
      }
    }
  }

  lemma {:induction false} MergeNewBound(m: Node, items: seq<HobVal>, x: Input, j: nat, removed: seq<nat>)
    requires x.IList? && j <= |x.items|
    requires m.IsMultiplier() && DistinctTree(m) && Bound(m, Items(items))
    ensures Bound(m, MergeNew(m, items, x, j, removed).0)
    decreases Iterable(x), x, 2, |x.items| - j
  {
    if j == |x.items| {
      RemoveRevIn(items, removed);
    } else if DeletedMark(x.items[j]) == Ok(true) {
      MergeNewBound(m, items, x, j + 1, removed);
    } else if DeletedMark(x.items[j]) == Ok(false) {
      NewHobBound(m);
      UpdateHobBound(NewHob(m), x.items[j]);
      var h := UpdateHob(NewHob(m), x.items[j]).0;
      assert forall g :: g in items + [h] ==> g in items || g == h;
      if UpdateHob(NewHob(m), x.items[j]).1.Done? {
        MergeNewBound(m, items + [h], x, j + 1, removed);
      }
    }
  }

  /** `Hob.new(c, hash)`: whatever the initial hash, and even when its update raises half
      way, the data of a Sequence or Survey Hob stays coherent. */
  lemma CreateCoherent(c: Node, init: Input)
    requires c.IsSequenceLike() && DistinctTree(c)
    ensures Coherent(c, Sub(NewHob(c)))
    ensures Coherent(c, Sub(UpdateHob(NewHob(c), init).0))
  {
    NewHobBound(c);
    UpdateHobBound(NewHob(c), init);
    BoundCoherent(c, Sub(NewHob(c)));
    BoundCoherent(c, Sub(UpdateHob(NewHob(c), init).0));
  }

  /** The required-blank example on a whole Hob: a fresh Hob on survey `s` holding a required
      String `first` is coherent, so the traversal that `validate` runs records what the
      `validate_value` recursion records: `survey.errors.not_present` under the key "first". */
  lemma {:induction false} RequiredBlankHob(first: Node, survey: Node, matches: (OptVal, string) -> bool)
    requires first == Field(StringKind, "first", map["required" := Bool(true)])
    requires survey == Container(SurveyKind, "s", map[], [first])
    ensures Traverse(NewStack(survey, Sub(NewHob(survey))), Visitor(matches))
      == Marks([Mark("first", "survey.errors.not_present")], Done)
  {
    var h := NewHob(survey);
    var root := NewStack(survey, Sub(h));
    SingleFieldSurvey(first, survey);
    NewHobCoherent(survey);
    TraverseValidates(root, matches);
    RequiredBlankAsWritten(first, survey, matches);
    var acc := AcceptedElements(survey.elements);
    var leaf := LeafMarks(first, Text(""), Plus(Start(survey), first), matches);
    var rest := ValidateElems(survey, acc, Sub(h), Start(survey), 1, matches);
    assert !survey.IsMultiplier();
    assert ValidateValue(survey, Sub(h), Start(survey), matches)
      == ValidateElems(survey, acc, Sub(h), Start(survey), 0, matches);
    assert SlotOf(Sub(h), acc[0].name) == Ok(Text(""));
    assert ValidateValue(acc[0], Text(""), Plus(Start(survey), acc[0]), matches) == leaf;
    assert rest == NoMarks;
  }

  /** A survey with one String field: its only accepted element is the field, and a fresh Hob
      holds '' for it. */
  lemma SingleFieldSurvey(first: Node, survey: Node)
    requires first.Field? && first.fieldKind == StringKind
    requires survey == Container(SurveyKind, "s", map[], [first])
    ensures AcceptedElements(survey.elements) == [first]
    ensures DistinctTree(survey)
    ensures first.name in NewHob(survey).slots && NewHob(survey).slots[first.name] == Text("")
  {
    assert [first][1..] == [];
    assert AcceptedElements(survey.elements) == [first] + AcceptedElements([]);
    SetupDefaults(survey.elements, 0);
    DefaultShapes(first);
  }

  // ---------------------------------------------------------------------------
  // update(to_h)

  /** A schema whose data `update` can take back from `to_h`: no field is a Radio (it has no
      `update_field`), every container's search meets each name once, its accepted names are
      distinct, and no Multiplier accepts an element named "deleted" (its value would read as
      a deletion mark). */
  predicate Reloadable(e: Node)
    decreases Size(e)
  {
    match e
    case Field(kind, _, _) => kind != RadioKind
    case Container(_, _, _, es) =>
      Unique(SearchedNames(es)) && DistinctNames(AcceptedElements(es)) &&
      (e.IsMultiplier() ==> "deleted" !in AcceptedNames(es)) &&
      (AcceptedSmaller(es);
       forall a :: a in AcceptedElements(es) ==> Reloadable(a))
  }

  /** The hash `to_h` builds when every accepted element has a slot and the names are distinct:
      one pair per accepted element, in order. */
  function OutEntries(acc: seq<Node>, slots: map<string, Value>): (r: seq<Entry>)
    requires forall a :: a in acc ==> a.name in slots
    ensures |r| == |acc|
    ensures forall j :: 0 <= j < |acc| ==> r[j] == Entry(acc[j].name, SimpleOut(acc[j], slots[acc[j].name]))
  {
    seq(|acc|, j requires 0 <= j < |acc| => Entry(acc[j].name, SimpleOut(acc[j], slots[acc[j].name])))
  }

  lemma {:induction false} FieldsOutAll(owner: Node, acc: seq<Node>, slots: map<string, Value>, hash: seq<Entry>)
    requires forall x :: x in acc ==> Size(x) < Size(owner)
    requires DistinctNames(acc)
    requires forall a :: a in acc ==> a.name in slots
    requires forall j :: 0 <= j < |acc| ==> acc[j].name !in Keys(hash)
    ensures FieldsOut(owner, acc, slots, hash) == hash + OutEntries(acc, slots)
    decreases |acc|
  {
    if |acc| == 0 {
      assert hash + OutEntries(acc, slots) == hash;
    } else {
      var hash' := FieldsOutStep(owner, acc, slots, hash);
      var rest := acc[1..];
      assert forall x :: x in rest ==> x in acc;
      assert DistinctNames(rest) by {
        forall i, j | 0 <= i < j < |rest| ensures rest[i].name != rest[j].name {
          assert rest[i] == acc[i + 1] && rest[j] == acc[j + 1];
        }
      }
      FieldsOutAll(owner, rest, slots, hash');
      OutEntriesCons(acc, slots);
      AppendAssoc(hash, [Entry(acc[0].name, SimpleOut(acc[0], slots[acc[0].name]))], OutEntries(rest, slots));
    }
  }

  /** The first accepted element appends its pair, and the rest are still new keys. */
  lemma FieldsOutStep(owner: Node, acc: seq<Node>, slots: map<string, Value>, hash: seq<Entry>) returns (hash': seq<Entry>)
    requires |acc| > 0
    requires forall x :: x in acc ==> Size(x) < Size(owner)
    requires DistinctNames(acc)
    requires forall a :: a in acc ==> a.name in slots
    requires forall j :: 0 <= j < |acc| ==> acc[j].name !in Keys(hash)
    ensures hash' == hash + [Entry(acc[0].name, SimpleOut(acc[0], slots[acc[0].name]))]
    ensures FieldsOut(owner, acc, slots, hash) == FieldsOut(owner, acc[1..], slots, hash')
    ensures forall j :: 0 <= j < |acc[1..]| ==> acc[1..][j].name !in Keys(hash')
  {
    var e := acc[0];
    assert e in acc;
    StoreNew(hash, e.name, SimpleOut(e, slots[e.name]));
    hash' := hash + [Entry(e.name, SimpleOut(e, slots[e.name]))];
    forall j | 0 <= j < |acc[1..]| ensures acc[1..][j].name !in Keys(hash') {
      assert acc[1..][j] == acc[j + 1];
    }
  }

  lemma StoreNew(hash: seq<Entry>, key: string, v: Input)
    requires key !in Keys(hash)
    ensures Store(hash, key, v) == hash + [Entry(key, v)]
    ensures Keys(hash + [Entry(key, v)]) == Keys(hash) + [key]
  {
    forall j | 0 <= j < |hash| ensures hash[j].key != key {
      assert Keys(hash)[j] == hash[j].key;
    }
  }

  lemma OutEntriesCons(acc: seq<Node>, slots: map<string, Value>)
    requires |acc| > 0 && forall a :: a in acc ==> a.name in slots
    ensures OutEntries(acc, slots) == [Entry(acc[0].name, SimpleOut(acc[0], slots[acc[0].name]))] + OutEntries(acc[1..], slots)
  {
    assert forall a :: a in acc[1..] ==> a in acc;
  }

  /** The item hashes `to_h` gives a Multiplier's items carry no "deleted" mark. */
  lemma NotMarked(m: Node, h: HobVal)
    requires m.IsMultiplier() && Reloadable(m) && BoundSlots(m, h)
    ensures DeletedMark(HashOut(m, h.slots)) == Ok(false)
  {
    var acc := AcceptedElements(m.elements);
    var out := HashOut(m, h.slots);
    AcceptedSmaller(m.elements);
    FieldsOutKeys(m, acc, h.slots, []);
    AllSlotted(acc, h.slots);
    forall j | 0 <= j < |out.entries| ensures out.entries[j].key != "deleted" {
      assert Keys(out.entries)[j] == out.entries[j].key;
    }
  }

  /** `update_field(v, simple_out(v))` gives `v` back and completes. */
  lemma {:induction false} FieldRoundTrip(e: Node, v: Value)
    requires Reloadable(e) && Bound(e, v)
    ensures UpdateField(e, v, SimpleOut(e, v)) == (v, Done)
    decreases Size(e), 3
  {
    if e.IsMultiplier() {
      MergeRoundTrip(e, v.items, IList(ItemsOut(e, v.items)), 0);
    } else if e.Container? {
      HobRoundTrip(e, v.hob);
    }
  }

  lemma {:induction false} MergeRoundTrip(m: Node, hs: seq<HobVal>, x: Input, i: nat)
    requires m.IsMultiplier() && Reloadable(m) && Bound(m, Items(hs))
    requires x == IList(ItemsOut(m, hs)) && i <= |hs|
    ensures MergeExisting(m, hs, x, i, []) == (Items(hs), Done)
    decreases Size(m), 2, |hs| - i
  {
    if i == |hs| {
      assert MergeNew(m, hs, x, |hs|, []) == (Items(RemoveRev(hs, [])), Done);
    } else {
      assert hs[i] in hs;
      NotMarked(m, hs[i]);
      HobRoundTrip(m, hs[i]);
      assert hs[i := hs[i]] == hs;
      MergeRoundTrip(m, hs, x, i + 1);
    }
  }

  lemma HobRoundTrip(c: Node, h: HobVal)
    requires c.Container? && Reloadable(c) && h.container == c && BoundSlots(c, h)
    ensures UpdateHob(h, HashOut(c, h.slots)) == (h, Done)
    decreases Size(c), 1
  {
    var acc := AcceptedElements(c.elements);
    AcceptedSmaller(c.elements);
    FieldsOutAll(c, acc, h.slots, []);
    assert HashOut(c, h.slots) == IMap(OutEntries(acc, h.slots));
    EntriesRoundTrip(c, h, HashOut(c, h.slots), 0);
  }

  lemma {:induction false} EntriesRoundTrip(c: Node, h: HobVal, x: Input, i: nat)
    requires c.Container? && Reloadable(c) && h.container == c && BoundSlots(c, h)
    requires x == IMap(OutEntries(AcceptedElements(c.elements), h.slots)) && i <= |x.entries|
    ensures UpdateEntries(h, x, i) == (h, Done)
    decreases Size(c), 0, |x.entries| - i, 1
  {
    if i < |x.entries| {
      EntryRoundTrip(c, h, x, i);
      EntriesRoundTrip(c, h, x, i + 1);
    }
  }

  /** One pair of `to_h`: its key finds its own element, whose `update_field` gives the slot
      back, so the Hob is unchanged. */
  lemma EntryRoundTrip(c: Node, h: HobVal, x: Input, i: nat)
    requires c.Container? && Reloadable(c) && h.container == c && BoundSlots(c, h)
    requires x == IMap(OutEntries(AcceptedElements(c.elements), h.slots)) && i < |x.entries|
    ensures UpdateEntries(h, x, i) == UpdateEntries(h, x, i + 1)
    decreases Size(c), 0, |x.entries| - i, 0
  {
    var acc := AcceptedElements(c.elements);
    var a := acc[i];
    assert a in acc;
    AcceptedSmaller(c.elements);
    AcceptedElementAtFinds(c.elements, i);
    FieldRoundTrip(a, h.slots[a.name]);
    assert h.(slots := h.slots[a.name := h.slots[a.name]]) == h;
  }

  /** `hob.update(hob.to_h)` on data bound to a reloadable schema completes and changes
      nothing; in particular `to_h` afterwards is the same hash. */
  lemma UpdateToH(h: HobVal)
    requires h.container.Container? && Reloadable(h.container) && BoundSlots(h.container, h)
    ensures UpdateHob(h, ToH(h)) == (h, Done)
    ensures ToH(UpdateHob(h, ToH(h)).0) == ToH(h)
  {
    ToHIsFieldsOut(h);
    HobRoundTrip(h.container, h);
  }
}
