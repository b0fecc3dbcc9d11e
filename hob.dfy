/** The data object bound to a container (lib/surveyor/hob.rb): a Hob holds one slot per
    accepted element of its container (Sections flattened in), each with a value of the
    element's kind. Nested Sequences and Surveys hold nested Hobs; a Multiplier holds a list
    of Hobs bound to the multiplier itself. Here a Hob's data is a value, `HobVal`; the root
    object with its error collection is the class in hob_object.dfy. */
module Hobs {
  import opened Strings
  import opened Values
  import opened Elements
  import opened Containers

  /** What a slot holds: the string of a String, Text or Radio field, the submitted value of a
      Selector, a nested Hob, or the item Hobs of a Multiplier. */
  datatype Value =
    | Text(s: string)
    | Choice(choice: Input)
    | Sub(hob: HobVal)
    | Items(items: seq<HobVal>)

  /** A Hob's container and its slots, keyed by element name. */
  datatype HobVal = HobVal(container: Node, slots: map<string, Value>)

  /** SelectorElement#default_value: `{'value' => '', 'other' => ''}`. */
  function SelectorDefault(): (r: Input)
    ensures r.IMap? && Keys(r.entries) == ["value", "other"]
    ensures Lookup(r.entries, "value") == IStr("") && Lookup(r.entries, "other") == IStr("")
  {
    IMap([Entry("value", IStr("")), Entry("other", IStr(""))])
  }

  /** `default_value` of every kind: '' for String, Text and Radio fields (Element), the
      selector pair, `[]` for a Multiplier, and a new Hob for other containers. A Sequence (or
      Survey) child gets its slots set up a second time, as `setup_interface_from` does. */
  function DefaultValue(e: Node): Value
    decreases Size(e), 1
  {
    match e
    case Field(SelectorKind, _, _) => Choice(SelectorDefault())
    case Field(_, _, _) => Text("")
    case Container(MultiplierKind, _, _, _) => Items([])
    case Container(_, _, _, es) =>
      if e.IsSequenceLike() then Sub(HobVal(e, Setup(es, Setup(es, map[]))))
      else Sub(HobVal(e, Setup(es, map[])))
  }

  /** `setup_interface_from(container)` over a list of elements, left to right: an identifiable
      element gets a slot holding its default value; a Section's elements are set up into the
      same slots. */
  function Setup(es: seq<Node>, m: map<string, Value>): map<string, Value>
    decreases SizeAll(es), 3
  {
    if |es| == 0 then m else Setup(es[1..], SetupOne(es[0], m))
  }

  function SetupOne(e: Node, m: map<string, Value>): map<string, Value>
    decreases Size(e), 2
  {
    if Identifiable(e) then m[e.name := DefaultValue(e)]
    else Setup(e.elements, m)
  }

  /** `Hob.new(container)` without initial values. */
  function NewHob(c: Node): (h: HobVal)
    ensures h.container == c
    ensures forall k :: k in h.slots <==> k in AcceptedNames(Children(c))
  {
    SetupKeys(Children(c));
    HobVal(c, Setup(Children(c), map[]))
  }

  /** Setting up over existing slots overrides them with the slots a fresh set-up gives. */
  lemma {:induction false} SetupOver(es: seq<Node>, m: map<string, Value>)
    ensures Setup(es, m) == m + Setup(es, map[])
    decreases SizeAll(es), 3
  {
    if |es| > 0 {
      SetupOneOver(es[0], m);
      SetupOneOver(es[0], map[]);
      SetupOver(es[1..], SetupOne(es[0], m));
      SetupOver(es[1..], SetupOne(es[0], map[]));
      var a := SetupOne(es[0], map[]);
      var b := Setup(es[1..], map[]);
      assert Setup(es, m) == (m + a) + b;
      assert Setup(es, map[]) == a + b;
      assert (m + a) + b == m + (a + b);
    }
  }

  lemma {:induction false} SetupOneOver(e: Node, m: map<string, Value>)
    ensures SetupOne(e, m) == m + SetupOne(e, map[])
    decreases Size(e), 2
  {
    if !Identifiable(e) {
      SetupOver(e.elements, m);
    }
  }

  /** Setting up twice is setting up once: the second `setup_interface_from` on a Sequence
      child's Hob only resets its slots to fresh defaults. */
  lemma SetupTwice(es: seq<Node>)
    ensures Setup(es, Setup(es, map[])) == Setup(es, map[])
  {
    SetupOver(es, Setup(es, map[]));
  }

  /** A Sequence or Survey child's default is a fresh Hob on it; other containers' defaults
      (Section, or the item list of a Multiplier) are the fresh Hob or an empty list. */
  lemma DefaultShapes(e: Node)
    ensures e.Field? && e.fieldKind != SelectorKind ==> DefaultValue(e) == Text("")
    ensures e.Field? && e.fieldKind == SelectorKind ==> DefaultValue(e) == Choice(SelectorDefault())
    ensures e.IsMultiplier() ==> DefaultValue(e) == Items([])
    ensures e.Container? && !e.IsMultiplier() ==> DefaultValue(e) == Sub(NewHob(e))
  {
    if e.IsSequenceLike() {
      SetupTwice(e.elements);
    }
  }

  /** The slots are exactly the names of the accepted elements. */
  lemma {:induction false} SetupKeys(es: seq<Node>)
    ensures forall k :: k in Setup(es, map[]) <==> k in AcceptedNames(es)
    decreases SizeAll(es), 3
  {
    if |es| > 0 {
      assert SizeAll(es) == Size(es[0]) + SizeAll(es[1..]);
      SetupOver(es[1..], SetupOne(es[0], map[]));
      SetupKeys(es[1..]);
      if !Identifiable(es[0]) {
        SetupKeys(es[0].elements);
      }
      var acc0 := if Identifiable(es[0]) then [es[0]] else AcceptedElements(es[0].elements);
      assert AcceptedElements(es) == acc0 + AcceptedElements(es[1..]);
      assert AcceptedNames(es) == Names(acc0) + AcceptedNames(es[1..]);
      if Identifiable(es[0]) {
        assert Names(acc0) == [es[0].name];
        assert SetupOne(es[0], map[]).Keys == {es[0].name};
      } else {
        assert SetupOne(es[0], map[]) == Setup(es[0].elements, map[]);
        assert Names(acc0) == AcceptedNames(es[0].elements);
      }
      assert forall k :: k in SetupOne(es[0], map[]) <==> k in Names(acc0);
    }
  }

  /** An accepted element whose name no later accepted element repeats has its own default
      value in its slot. */
  lemma {:induction false} SetupDefaults(es: seq<Node>, i: nat)
    requires i < |AcceptedElements(es)|
    requires forall j :: i < j < |AcceptedElements(es)| ==> AcceptedElements(es)[j].name != AcceptedElements(es)[i].name
    ensures var e := AcceptedElements(es)[i];
      e.name in Setup(es, map[]) && Setup(es, map[])[e.name] == DefaultValue(e)
    decreases SizeAll(es), 3
  {
    var acc := AcceptedElements(es);
    var e := acc[i];
    var acc0 := if Identifiable(es[0]) then [es[0]] else AcceptedElements(es[0].elements);
    var rest := AcceptedElements(es[1..]);
    assert acc == acc0 + rest;
    assert SizeAll(es) == Size(es[0]) + SizeAll(es[1..]);
    SetupOver(es[1..], SetupOne(es[0], map[]));
    SetupKeys(es[1..]);
    if i < |acc0| {
      assert e == acc0[i];
      assert e.name !in AcceptedNames(es[1..]) by {
        forall j | 0 <= j < |rest|
          ensures rest[j].name != e.name
        {
          assert rest[j] == acc[|acc0| + j];
        }
      }
      if !Identifiable(es[0]) {
        forall j | i < j < |acc0|
          ensures acc0[j].name != acc0[i].name
        {
          assert acc0[j] == acc[j];
        }
        SetupDefaults(es[0].elements, i);
      }
    } else {
      var k := i - |acc0|;
      assert rest[k] == e;
      forall j | k < j < |rest|
        ensures rest[j].name != rest[k].name
      {
        assert rest[j] == acc[|acc0| + j];
      }
      SetupDefaults(es[1..], k);
    }
  }

  // ---------------------------------------------------------------------------
  // to_h

  /** `simple_out(value)` of an element: the value itself for a leaf (Element and
      SelectorElement), a hash over the accepted elements for a container (Container), and
      one such hash per item for a Multiplier. A value of the wrong shape for its element
      projects to nil; in a Hob built by `initialize` and `update` that arises only when two
      accepted elements share a name, since every slot otherwise keeps its element's shape
      (`Bindings.Bound`). */
  function SimpleOut(e: Node, v: Value): Input
    decreases Size(e), 2, 0, 0
  {
    if e.Field? then
      match v
      case Text(s) => IStr(s)
      case Choice(x) => x
      case _ => INil
    else if e.IsMultiplier() then
      if v.Items? then IList(ItemsOut(e, v.items)) else INil
    else if v.Sub? then HashOut(e, v.hob.slots)
    else INil
  }

  /** Multiplier#simple_out: each item Hob projected over the multiplier's accepted elements. */
  function ItemsOut(m: Node, items: seq<HobVal>): (r: seq<Input>)
    requires m.Container?
    ensures |r| == |items|
    ensures forall i :: 0 <= i < |items| ==> r[i] == HashOut(m, items[i].slots)
    decreases Size(m), 1, |items|, 0
  {
    if |items| == 0 then []
    else [HashOut(m, items[0].slots)] + ItemsOut(m, items[1..])
  }

  /** Container#simple_out of one Hob's slots: the hash built over the accepted elements. */
  function HashOut(c: Node, slots: map<string, Value>): Input
    requires c.Container?
    decreases Size(c), 0, 1
  {
    AcceptedSmaller(c.elements);
    IMap(FieldsOut(c, AcceptedElements(c.elements), slots, []))
  }

  /** The `inject(Hash[])` over accepted elements: each element with a slot stores its
      projected value under its name. */
  function FieldsOut(owner: Node, accepted: seq<Node>, slots: map<string, Value>, hash: seq<Entry>): seq<Entry>
    requires forall x :: x in accepted ==> Size(x) < Size(owner)
    decreases Size(owner), 0, 0, |accepted|
  {
    if |accepted| == 0 then hash
    else
      var e := accepted[0];
      var hash' := if e.name in slots then Store(hash, e.name, SimpleOut(e, slots[e.name])) else hash;
      FieldsOut(owner, accepted[1..], slots, hash')
  }

  /** The names of the accepted elements that have a slot, in order. */
  function SlotNames(accepted: seq<Node>, slots: map<string, Value>): seq<string>
  {
    if |accepted| == 0 then []
    else (if accepted[0].name in slots then [accepted[0].name] else []) + SlotNames(accepted[1..], slots)
  }

  predicate DistinctNames(es: seq<Node>)
  {
    forall i, j :: 0 <= i < j < |es| ==> es[i].name != es[j].name
  }

  /** Storing a new key appends it. */
  lemma StoreFresh(hash: seq<Entry>, key: string, v: Input)
    requires key !in Keys(hash)
    ensures Keys(Store(hash, key, v)) == Keys(hash) + [key]
  {
    forall i | 0 <= i < |hash| ensures hash[i].key != key {
      assert Keys(hash)[i] == hash[i].key;
    }
  }

  /** With distinct names, the projection's keys are the accepted elements that have a slot,
      in order. */
  lemma {:induction false} FieldsOutKeys(owner: Node, accepted: seq<Node>, slots: map<string, Value>, hash: seq<Entry>)
    requires forall x :: x in accepted ==> Size(x) < Size(owner)
    requires DistinctNames(accepted)
    requires forall i :: 0 <= i < |accepted| ==> accepted[i].name !in Keys(hash)
    ensures Keys(FieldsOut(owner, accepted, slots, hash)) == Keys(hash) + SlotNames(accepted, slots)
    decreases |accepted|
  {
    if |accepted| > 0 {
      var e := accepted[0];
      var hash' := if e.name in slots then Store(hash, e.name, SimpleOut(e, slots[e.name])) else hash;
      var added := if e.name in slots then [e.name] else [];
      if e.name in slots {
        StoreFresh(hash, e.name, SimpleOut(e, slots[e.name]));
      }
      assert Keys(hash') == Keys(hash) + added;
      forall i | 0 <= i < |accepted[1..]|
        ensures accepted[1..][i].name !in Keys(hash')
      {
        assert accepted[1..][i] == accepted[i + 1];
      }
      FieldsOutKeys(owner, accepted[1..], slots, hash');
      assert SlotNames(accepted, slots) == added + SlotNames(accepted[1..], slots);
      AppendAssoc(Keys(hash), added, SlotNames(accepted[1..], slots));
    }
  }

  /** A name no remaining accepted element has keeps its value in the hash. */
  lemma {:induction false} FieldsOutOther(owner: Node, accepted: seq<Node>, slots: map<string, Value>, hash: seq<Entry>, k: string)
    requires forall x :: x in accepted ==> Size(x) < Size(owner)
    requires forall i :: 0 <= i < |accepted| ==> accepted[i].name != k
    ensures Lookup(FieldsOut(owner, accepted, slots, hash), k) == Lookup(hash, k)
    decreases |accepted|
  {
    if |accepted| > 0 {
      var e := accepted[0];
      var hash' := if e.name in slots then Store(hash, e.name, SimpleOut(e, slots[e.name])) else hash;
      forall i | 0 <= i < |accepted[1..]| ensures accepted[1..][i].name != k {
        assert accepted[1..][i] == accepted[i + 1];
      }
      FieldsOutOther(owner, accepted[1..], slots, hash', k);
    }
  }

  /** With distinct names, each accepted element with a slot is mapped to its projection of
      the slot. */
  lemma {:induction false} FieldsOutLookup(owner: Node, accepted: seq<Node>, slots: map<string, Value>, hash: seq<Entry>, i: nat)
    requires forall x :: x in accepted ==> Size(x) < Size(owner)
    requires DistinctNames(accepted)
    requires i < |accepted| && accepted[i].name in slots
    ensures Lookup(FieldsOut(owner, accepted, slots, hash), accepted[i].name) == SimpleOut(accepted[i], slots[accepted[i].name])
    decreases |accepted|
  {
    var e := accepted[0];
    var hash' := if e.name in slots then Store(hash, e.name, SimpleOut(e, slots[e.name])) else hash;
    DistinctTail(accepted);
    if i == 0 {
      FieldsOutOther(owner, accepted[1..], slots, hash', e.name);
    } else {
      assert accepted[1..][i - 1] == accepted[i];
      FieldsOutLookup(owner, accepted[1..], slots, hash', i - 1);
    }
  }

  /** Removing the first of distinctly named elements leaves distinct names, none of them the
      first's. */
  lemma DistinctTail(es: seq<Node>)
    requires |es| > 0 && DistinctNames(es)
    ensures DistinctNames(es[1..])
    ensures forall j :: 0 <= j < |es[1..]| ==> es[1..][j].name != es[0].name
  {
    forall j | 0 <= j < |es[1..]| ensures es[1..][j].name != es[0].name {
      assert es[1..][j] == es[j + 1];
    }
  }

  /** `to_h`: the container's projection of this Hob; for a Hob bound to a Multiplier, the
      single item of the multiplier's projection of `[self]`. */
  function ToH(h: HobVal): (r: Input)
    requires h.container.Container?
  {
    if h.container.IsMultiplier() then SimpleOut(h.container, Items([h])).items[0]
    else SimpleOut(h.container, Sub(h))
  }

  /** Both branches of `to_h` are the same hash over the container's accepted elements. */
  lemma ToHIsFieldsOut(h: HobVal)
    requires h.container.Container?
    ensures ToH(h) == HashOut(h.container, h.slots)
  {
    if h.container.IsMultiplier() {
      var out := ItemsOut(h.container, [h]);
      assert [h][1..] == [];
      assert out == [HashOut(h.container, h.slots)] + ItemsOut(h.container, []);
    }
  }

  /** For a container whose accepted names are distinct, `to_h` of a fresh Hob has exactly the
      accepted names as keys, each holding the projection of that element's default. */
  lemma ToHFresh(c: Node)
    requires c.Container? && DistinctNames(AcceptedElements(c.elements))
    ensures ToH(NewHob(c)).IMap?
    ensures Keys(ToH(NewHob(c)).entries) == AcceptedNames(c.elements)
    ensures forall e :: e in AcceptedElements(c.elements) ==>
      Lookup(ToH(NewHob(c)).entries, e.name) == SimpleOut(e, DefaultValue(e))
  {
    var acc := AcceptedElements(c.elements);
    var slots := Setup(c.elements, map[]);
    AcceptedSmaller(c.elements);
    ToHIsFieldsOut(NewHob(c));
    assert ToH(NewHob(c)) == IMap(FieldsOut(c, acc, slots, []));
    FreshKeys(c);
    forall e | e in acc
      ensures Lookup(ToH(NewHob(c)).entries, e.name) == SimpleOut(e, DefaultValue(e))
    {
      var i :| 0 <= i < |acc| && acc[i] == e;
      FreshLookup(c, i);
    }
  }

  /** The output keys of a fresh slot map are the accepted names. */
  lemma FreshKeys(c: Node)
    requires c.Container? && DistinctNames(AcceptedElements(c.elements))
    ensures forall x :: x in AcceptedElements(c.elements) ==> Size(x) < Size(c)
    ensures Keys(FieldsOut(c, AcceptedElements(c.elements), Setup(c.elements, map[]), [])) == AcceptedNames(c.elements)
  {
    var acc := AcceptedElements(c.elements);
    var slots := Setup(c.elements, map[]);
    AcceptedSmaller(c.elements);
    FieldsOutKeys(c, acc, slots, []);
    SetupKeys(c.elements);
    AllSlotted(acc, slots);
  }

  /** The i-th accepted element's entry in the output of a fresh slot map is its default's
      output. */
  lemma FreshLookup(c: Node, i: nat)
    requires c.Container? && DistinctNames(AcceptedElements(c.elements))
    requires i < |AcceptedElements(c.elements)|
    ensures var acc := AcceptedElements(c.elements); var slots := Setup(c.elements, map[]);
      forall x :: x in acc ==> Size(x) < Size(c)
    ensures var acc := AcceptedElements(c.elements); var slots := Setup(c.elements, map[]);
      Lookup(FieldsOut(c, acc, slots, []), acc[i].name) == SimpleOut(acc[i], DefaultValue(acc[i]))
  {
    var acc := AcceptedElements(c.elements);
    var slots := Setup(c.elements, map[]);
    AcceptedSmaller(c.elements);
    SetupDefaults(c.elements, i);
    FieldsOutLookup(c, acc, slots, [], i);
  }

  /** When every accepted element has a slot, the slotted names are all the names. */
  lemma {:induction false} AllSlotted(accepted: seq<Node>, slots: map<string, Value>)
    requires forall i :: 0 <= i < |accepted| ==> accepted[i].name in slots
    ensures SlotNames(accepted, slots) == Names(accepted)
  {
    if |accepted| > 0 {
      AllSlotted(accepted[1..], slots);
      assert Names(accepted) == [accepted[0].name] + Names(accepted[1..]);
    }
  }
}
