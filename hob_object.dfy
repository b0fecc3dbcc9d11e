/** The Hob object of lib/surveyor/hob.rb: its container, its slots (the instance variables
    `setup_interface_from` creates) and its error collection, all updated in place. */
module HobObjects {
  import opened Values
  import opened Elements
  import opened Containers
  import opened Hobs
  import opened HobUpdates
  import opened HobUpdateMethods
  import opened DomNamers
  import opened Validations
  import opened ObjectStacks

  lemma {:induction false} SizeAllMember(es: seq<Node>, i: nat)
    requires i < |es|
    ensures Size(es[i]) <= SizeAll(es)
  {
    if i > 0 {
      SizeAllMember(es[1..], i - 1);
      assert es[1..][i - 1] == es[i];
    }
  }

  /** The callback of lib/surveyor/hob.rb#validate as written: asking a frame for `local_id`
      raises NoMethodError, whatever the frame. */
  function MissingLocalId(f: Frame): (r: Marks)
    ensures r.marks == [] && r.outcome == Fail(TypeMismatch)
  {
    Marks([], Fail(TypeMismatch))
  }

  class Hob {
    const container: Node
    var slots: map<string, Value>
    var errors: Errors

    /** The Hob's data as a value. */
    function Data(): (d: HobVal)
      reads this
      ensures d.container == container && d.slots == slots
    {
      HobVal(container, slots)
    }

    /** `Hob.new(container)`: the slots of a fresh set-up and no errors. */
    constructor (c: Node)
      requires c.Container?
      ensures container == c && Data() == NewHob(c) && errors == map[]
    {
      container := c;
      slots := map[];
      errors := map[];
      new;
      SetupInterfaceFrom(c.elements);
    }

    /** `setup_interface_from`: each identifiable element gets a slot with its default
        value; a Section's elements are set up into this same Hob. */
    method SetupInterfaceFrom(es: seq<Node>)
      modifies this
      ensures slots == Setup(es, old(slots)) && errors == old(errors)
      decreases SizeAll(es)
    {
      var i := 0;
      while i < |es|
        invariant 0 <= i <= |es|
        invariant Setup(es[i..], slots) == Setup(es, old(slots))
        invariant errors == old(errors)
      {
        assert es[i..][1..] == es[i + 1..];
        if Identifiable(es[i]) {
          slots := slots[es[i].name := DefaultValue(es[i])];
        } else {
          SizeAllMember(es, i);
          SetupInterfaceFrom(es[i].elements);
        }
        i := i + 1;
      }
    }

    /** `Hob.new(container, hhash)`: no container raises ValidSurveyError, a field has no
        elements to set up from, and a truthy initial hash is applied with `update`, whose
        exception escapes the constructor. */
    static method Create(c: Option<Node>, init: Input) returns (r: Result<Hob>)
      ensures c.None? ==> r == Err(ValidSurvey)
      ensures c.Some? && c.value.Field? ==> r == Err(TypeMismatch)
      ensures c.Some? && c.value.Container? && !InputTruthy(init) ==>
        r.Ok? && fresh(r.value) && r.value.Data() == NewHob(c.value) && r.value.errors == map[]
      ensures c.Some? && c.value.Container? && InputTruthy(init) ==>
        (r.Ok? <==> UpdateHob(NewHob(c.value), init).1.Done?) &&
        (r.Ok? ==> fresh(r.value) && r.value.Data() == UpdateHob(NewHob(c.value), init).0 && r.value.errors == map[]) &&
        (r.Err? ==> r.error == UpdateHob(NewHob(c.value), init).1.error)
    {
      if c.None? {
        return Err(ValidSurvey);
      }
      if c.value.Field? {
        return Err(TypeMismatch);
      }
      var h := new Hob(c.value);
      if InputTruthy(init) {
        var o := h.Update(init);
        if o.Fail? {
          return Err(o.error);
        }
      }
      r := Ok(h);
    }

    /** `update(hash)`: clears the errors, then reassigns each named slot in order with its
        element's `update_field`. */
    method Update(x: Input) returns (o: Outcome)
      modifies this
      ensures errors == map[]
      ensures (Data(), o) == UpdateHob(old(Data()), x)
    {
      errors := map[];
      if !Iterable(x) {
        return Fail(TypeMismatch);
      }
      var i := 0;
      while i < PairCount(x)
        invariant 0 <= i <= PairCount(x)
        invariant errors == map[]
        invariant UpdateEntries(Data(), x, i) == UpdateHob(old(Data()), x)
      {
        var field := FieldAt(x, i);
        if field.None? {
          return Fail(UnknownField);
        }
        var key := field.value;
        var found := AcceptedElementAt(Children(container), key);
        if found.None? {
          return Fail(UnknownField);
        }
        if key !in slots {
          return Fail(TypeMismatch);
        }
        var v, o' := UpdateFieldM(found.value, slots[key], ValueAt(x, i));
        slots := slots[key := v];
        if o'.Fail? {
          return o';
        }
        i := i + 1;
      }
      o := Done;
    }

    /** `hob[name]`: the slot's content; a name without a slot has no reader method. */
    function Get(name: string): (r: Result<Value>)
      reads this
      ensures r.Ok? <==> name in slots
      ensures r.Ok? ==> r.value == slots[name]
    {
      if name in slots then Ok(slots[name]) else Err(TypeMismatch)
    }

    /** `hob[name] = value`. */
    method Set(name: string, v: Value) returns (o: Outcome)
      modifies this
      ensures o.Done? <==> name in old(slots)
      ensures o.Done? ==> slots == old(slots)[name := v] && Get(name) == Ok(v)
      ensures o.Fail? ==> slots == old(slots)
      ensures errors == old(errors)
    {
      if name !in slots {
        return Fail(TypeMismatch);
      }
      slots := slots[name := v];
      o := Done;
    }

    /** `to_h`. */
    function ToHash(): (r: Input)
      reads this
      requires container.Container?
      ensures r == HashOut(container, slots)
    {
      ToHIsFieldsOut(Data());
      ToH(Data())
    }

    /** `error_for?(dom_namer)`: whether messages are recorded under the namer's key; an
        id without a key (`[][1..-1]` is nil) raises. */
    function ErrorForNamer(namer: DomNamer): (r: Result<bool>)
      reads this
      ensures r.Err? <==> ErrorKey(namer.id).Err?
      ensures r.Ok? ==> (r.value <==> HasMessages(errors, ErrorKey(namer.id).value))
    {
      ErrorFor(errors, namer)
    }

    /** `mark_error(dom_namer, code)`: appends `survey.errors.<code>` under the namer's key,
        after which `error_for?` holds for that namer. */
    method MarkError(namer: DomNamer, code: string) returns (o: Outcome)
      modifies this
      ensures o.Fail? <==> ErrorKey(namer.id).Err?
      ensures o.Fail? ==> errors == old(errors)
      ensures o.Done? ==> errors == Append(old(errors), ErrorKey(namer.id).value, "survey.errors." + code)
      ensures o.Done? ==> ErrorForNamer(namer) == Ok(true)
      ensures slots == old(slots)
    {
      var k := ErrorKey(namer.id);
      if k.Err? {
        return Fail(k.error);
      }
      errors := Append(errors, k.value, "survey.errors." + code);
      o := Done;
    }

    /** `validate` as written: the traversal's callback evaluates `os.local_id`, which
        ObjectStack does not define, before it calls `validate_value`. Each visit therefore
        raises, the first one (the root frame) ends the walk, and nothing is recorded. */
    method ValidateAsWritten() returns (o: Outcome)
      ensures container.IsSurvey() ==> o == Fail(TypeMismatch)
      ensures !container.IsSurvey() ==> o == Done
    {
      if !container.IsSurvey() {
        return Done;
      }
      var root := NewStack(container, Sub(Data()));
      var ms := TraverseM(root, MissingLocalId);
      PreOrder(root, MissingLocalId);
      o := ms.outcome;
    }

    /** `validate`, with each leaf recording through `mark_error` under its namer's key:
        nothing happens unless the container is a Survey; otherwise the traversal's marks are
        appended in order, which are the marks of the survey's `validate_value` recursion
        whenever the data is bound coherently. */
    method Validate(matches: (OptVal, string) -> bool) returns (o: Outcome)
      modifies this
      ensures slots == old(slots)
      ensures !container.IsSurvey() ==> errors == old(errors) && o == Done
      ensures container.IsSurvey() ==>
        var ms := Traverse(NewStack(container, Sub(Data())), Visitor(matches));
        errors == ApplyMarks(old(errors), ms.marks) && o == ms.outcome
      ensures container.IsSurvey() && Coherent(container, Sub(Data())) ==>
        var ms := ValidateValue(container, Sub(Data()), Start(container), matches);
        errors == ApplyMarks(old(errors), ms.marks) && o == ms.outcome
    {
      if !container.IsSurvey() {
        return Done;
      }
      var root := NewStack(container, Sub(Data()));
      var ms := TraverseM(root, Visitor(matches));
      if Coherent(container, Sub(Data())) {
        TraverseValidates(root, matches);
      }
      ghost var start := errors;
      var i := 0;
      while i < |ms.marks|
        invariant 0 <= i <= |ms.marks|
        invariant slots == old(slots)
        invariant ApplyMarks(errors, ms.marks[i..]) == ApplyMarks(start, ms.marks)
      {
        assert ms.marks[i..][1..] == ms.marks[i + 1..];
        errors := Append(errors, ms.marks[i].key, ms.marks[i].message);
        i := i + 1;
      }
      assert ms.marks[i..] == [];
      o := ms.outcome;
    }
  }
}
