/** ObjectStack: a position in a survey instance, pairing a schema element with the data
    bound to it, the frame it was reached from and its DomNamer. Sections hold no data and
    add no naming step; a multiplier has an array-level frame and, through `mult`, one
    item-level frame per item. The deep-first traversal visits a frame before its children. */
module ObjectStacks {
  import opened Strings
  import opened Values
  import opened Elements
  import opened Containers
  import opened Hobs
  import opened DomNamers
  import opened Validations

  datatype Frame = Frame(element: Node, obj: Value, parent: Option<Frame>, namer: DomNamer)

  /** `ObjectStack.new(element, object)`: a parentless frame named from its element. */
  function NewStack(e: Node, obj: Value): (f: Frame)
    ensures f.parent.None? && f.namer.name == e.name && f.namer.id == IdOf(e)
  {
    Frame(e, obj, None, Start(e))
  }

  /** `root_object`: the object of the parentless frame the chain starts from. */
  function RootObject(f: Frame): Value
    decreases f
  {
    match f.parent
    case None => f.obj
    case Some(p) => RootObject(p)
  }

  /** `owner_object`: the Hob holding the data of the current element, climbing past the
      array-level frames and the Hobs of non-identifiable containers. Asking a frame whose
      object is a plain value (or the parentless frame, when climbing) raises. */
  function OwnerObject(f: Frame): (r: Result<HobVal>)
    ensures r.Ok? ==> Identifiable(r.value.container)
    decreases f
  {
    match f.obj
    case Sub(h) =>
      if Identifiable(h.container) then Ok(h)
      else if f.parent.Some? then OwnerObject(f.parent.value) else Err(TypeMismatch)
    case Items(_) =>
      if f.parent.Some? then OwnerObject(f.parent.value) else Err(TypeMismatch)
    case _ => Err(TypeMismatch)
  }

  /** The frames from `f` up to the parentless one, nearest first. */
  function Ancestry(f: Frame): (r: seq<Frame>)
    ensures |r| > 0 && r[0] == f
    ensures f.parent.None? <==> |r| == 1
    decreases f
  {
    [f] + (if f.parent.Some? then Ancestry(f.parent.value) else [])
  }

  /** A frame whose object is a Hob of an identifiable container: `owner_object` stops there. */
  predicate Owns(f: Frame)
  {
    f.obj.Sub? && Identifiable(f.obj.hob.container)
  }

  /** A frame `owner_object` climbs past: an array-level frame, or a Section's Hob. */
  predicate Passes(f: Frame)
  {
    f.obj.Items? || (f.obj.Sub? && !Identifiable(f.obj.hob.container))
  }

  /** `owner_object` answers the Hob of the nearest frame up the chain that owns one, provided
      every frame below it is one to climb past; it raises at the first frame holding a plain
      value, and when the parentless frame is still one to climb past. */
  lemma {:induction false} OwnerObjectNearest(f: Frame, k: nat)
    requires k < |Ancestry(f)|
    requires forall j :: 0 <= j < k ==> Passes(Ancestry(f)[j])
    ensures Owns(Ancestry(f)[k]) ==> OwnerObject(f) == Ok(Ancestry(f)[k].obj.hob)
    ensures !Owns(Ancestry(f)[k]) && !Passes(Ancestry(f)[k]) ==> OwnerObject(f) == Err(TypeMismatch)
    ensures Passes(Ancestry(f)[k]) && k == |Ancestry(f)| - 1 ==> OwnerObject(f) == Err(TypeMismatch)
    decreases k
  {
    if k > 0 {
      assert Passes(Ancestry(f)[0]);
      var p := f.parent.value;
      AncestryStep(f);
      OwnerObjectNearest(p, k - 1);
    }
  }

  lemma AncestryStep(f: Frame)
    requires f.parent.Some?
    ensures |Ancestry(f)| == |Ancestry(f.parent.value)| + 1
    ensures forall j :: 0 <= j < |Ancestry(f.parent.value)| ==> Ancestry(f)[j + 1] == Ancestry(f.parent.value)[j]
  {
    assert Ancestry(f) == [f] + Ancestry(f.parent.value);
  }

  function DomId(f: Frame): string
  {
    f.namer.id
  }

  function DomName(f: Frame): string
  {
    f.namer.name
  }

  /** `self + element`: an identifiable element takes its slot of the owner object and one
      more naming step; a section keeps the object and the namer. */
  function PlusFrame(f: Frame, e: Node): (r: Result<Frame>)
    ensures r.Ok? ==> r.value.element == e && r.value.parent == Some(f) && RootObject(r.value) == RootObject(f)
    ensures !Identifiable(e) ==> r == Ok(Frame(e, f.obj, Some(f), f.namer))
    ensures Identifiable(e) ==>
      (r.Ok? <==> OwnerObject(f).Ok? && e.name in OwnerObject(f).value.slots) &&
      (r.Ok? ==> r.value.obj == OwnerObject(f).value.slots[e.name] &&
                 DomId(r.value) == DomId(f) + ":" + IdOf(e) &&
                 DomName(r.value) == DomName(f) + "[" + e.name + "]")
  {
    if Identifiable(e) then
      match OwnerObject(f)
      case Err(x) => Err(x)
      case Ok(h) =>
        if e.name in h.slots then Ok(Frame(e, h.slots[e.name], Some(f), Plus(f.namer, e)))
        else Err(TypeMismatch)
    else Ok(Frame(e, f.obj, Some(f), f.namer))
  }

  /** `mult(obj, idx)`: the item-level frame of a multiplier. */
  function MultFrame(f: Frame, h: HobVal, idx: nat): (r: Result<Frame>)
    ensures r.Err? <==> !f.element.IsMultiplier()
    ensures r.Err? ==> r.error == CannotMultiply
    ensures r.Ok? ==> (r.value.element == f.element && r.value.obj == Sub(h) && r.value.parent == Some(f) &&
      RootObject(r.value) == RootObject(f) &&
      DomId(r.value) == DomId(f) + ":" + NatToString(idx) && DomName(r.value) == DomName(f) + "[]")
  {
    TypeNames(f.element);
    if TypeName(f.element) == "multiplier" then Ok(Frame(f.element, Sub(h), Some(f), Mult(f.namer, idx)))
    else Err(CannotMultiply)
  }

  /** `error?`: whether the root Hob, whose error collection is `rootErrors`, holds messages
      for this frame's namer. */
  function HasError(f: Frame, rootErrors: Errors): (r: Result<bool>)
    ensures RootObject(f).Sub? ==> r == ErrorFor(rootErrors, f.namer)
    ensures !RootObject(f).Sub? ==> r == Err(TypeMismatch)
  {
    if RootObject(f).Sub? then ErrorFor(rootErrors, f.namer) else Err(TypeMismatch)
  }

  // ---------------------------------------------------------------------------------------
  // Deep-first traversal

  /** `traverse_deep_first(&visit)`: the callback's effect on this frame, then on every
      frame below it; a multiplier walks its items in index order, each through its
      accepted elements; any other container walks its accepted elements. */
  function Traverse(f: Frame, visit: Frame -> Marks): Marks
    decreases Size(f.element), 2, 0
  {
    if f.element.Field? then Then(visit(f), NoMarks)
    else if f.element.IsMultiplier() then
      if f.obj.Items? then Then(visit(f), TraverseItems(f, AcceptedElements(f.element.elements), f.obj.items, 0, visit))
      else Then(visit(f), Marks([], Fail(TypeMismatch)))
    else Then(visit(f), TraverseElems(f, AcceptedElements(f.element.elements), 0, visit))
  }

  function TraverseItems(f: Frame, acc: seq<Node>, hs: seq<HobVal>, i: nat, visit: Frame -> Marks): Marks
    requires f.element.Container? && acc == AcceptedElements(f.element.elements)
    decreases Size(f.element), 1, |hs| - i
  {
    if i >= |hs| then NoMarks
    else match MultFrame(f, hs[i], i)
      case Err(x) => Marks([], Fail(x))
      case Ok(g) => Then(TraverseElems(g, acc, 0, visit), TraverseItems(f, acc, hs, i + 1, visit))
  }

  function TraverseElems(f: Frame, acc: seq<Node>, k: nat, visit: Frame -> Marks): Marks
    requires f.element.Container? && acc == AcceptedElements(f.element.elements)
    decreases Size(f.element), 0, |acc| - k
  {
    if k >= |acc| then NoMarks
    else
      AcceptedSmaller(f.element.elements);
      assert acc[k] in AcceptedElements(f.element.elements);
      match PlusFrame(f, acc[k])
      case Err(x) => Marks([], Fail(x))
      case Ok(g) => Then(Traverse(g, visit), TraverseElems(f, acc, k + 1, visit))
  }

  /** Pre-order: the callback runs on a frame before anything below it, and when it raises
      nothing below is visited. */
  lemma PreOrder(f: Frame, visit: Frame -> Marks)
    ensures visit(f).outcome.Fail? ==> Traverse(f, visit) == visit(f)
    ensures visit(f).outcome.Done? ==> visit(f).marks <= Traverse(f, visit).marks
    ensures f.element.Field? ==> Traverse(f, visit) == visit(f)
  {
    if f.element.Field? {
      assert visit(f).marks + [] == visit(f).marks;
    }
  }

  /** Ruby's loops: the callback on this frame, then a loop over the items (multiplier)
      and, inside, a loop over the accepted elements. */
  method TraverseM(f: Frame, visit: Frame -> Marks) returns (r: Marks)
    ensures r == Traverse(f, visit)
    decreases Size(f.element), 2, 0
  {
    r := visit(f);
    if r.outcome.Fail? {
      return;
    }
    if f.element.Field? {
      assert r.marks + [] == r.marks;
      return;
    }
    var acc := AcceptedElements(f.element.elements);
    if f.element.IsMultiplier() {
      if !f.obj.Items? {
        r := Then(r, Marks([], Fail(TypeMismatch)));
        return;
      }
      var hs := f.obj.items;
      var i := 0;
      while i < |hs|
        invariant 0 <= i <= |hs|
        invariant r.outcome.Done?
        invariant Then(r, TraverseItems(f, acc, hs, i, visit)) == Traverse(f, visit)
      {
        var g := MultFrame(f, hs[i], i).value;
        var sub := ElemsM(g, acc, visit);
        ThenAssoc(r, sub, TraverseItems(f, acc, hs, i + 1, visit));
        r := Then(r, sub);
        if r.outcome.Fail? {
          return;
        }
        i := i + 1;
      }
      assert r.marks + [] == r.marks;
    } else {
      var sub := ElemsM(f, acc, visit);
      r := Then(r, sub);
    }
  }

  /** The loop over the accepted elements of a frame's element. */
  method ElemsM(f: Frame, acc: seq<Node>, visit: Frame -> Marks) returns (r: Marks)
    requires f.element.Container? && acc == AcceptedElements(f.element.elements)
    ensures r == TraverseElems(f, acc, 0, visit)
    decreases Size(f.element), 1, 0
  {
    AcceptedSmaller(f.element.elements);
    r := NoMarks;
    assert Then(r, TraverseElems(f, acc, 0, visit)) == TraverseElems(f, acc, 0, visit) by {
      assert [] + TraverseElems(f, acc, 0, visit).marks == TraverseElems(f, acc, 0, visit).marks;
    }
    var k := 0;
    while k < |acc|
      invariant 0 <= k <= |acc|
      invariant r.outcome.Done?
      invariant Then(r, TraverseElems(f, acc, k, visit)) == TraverseElems(f, acc, 0, visit)
    {
      assert acc[k] in AcceptedElements(f.element.elements);
      var g := PlusFrame(f, acc[k]);
      if g.Err? {
        r := Then(r, Marks([], Fail(g.error)));
        return;
      }
      var sub := TraverseM(g.value, visit);
      ThenAssoc(r, sub, TraverseElems(f, acc, k + 1, visit));
      r := Then(r, sub);
      if r.outcome.Fail? {
        return;
      }
      k := k + 1;
    }
    assert r.marks + [] == r.marks;
  }

  // ---------------------------------------------------------------------------------------
  // Validation driven by the traversal

  /** The validation callback: a leaf records its codes through `mark_error`; a container
      records nothing itself, its children being visited by the traversal. */
  function Visit(f: Frame, matches: (OptVal, string) -> bool): Marks
  {
    if f.element.Field? then LeafMarks(f.element, f.obj, f.namer, matches) else NoMarks
  }

  function Visitor(matches: (OptVal, string) -> bool): Frame -> Marks
  {
    f => Visit(f, matches)
  }

  /** Data bound the way Hob construction and update bind it: a multiplier's items and the
      Hob of any other container belong to identifiable containers, recursively through the
      slots of the accepted elements; only a multiplier holds a list (or an element without
      accepted elements, which never looks inside). */
  predicate Coherent(e: Node, v: Value)
    decreases Size(e), 1
  {
    if e.Field? then true
    else if e.IsMultiplier() then
      v.Items? ==> forall i :: 0 <= i < |v.items| ==>
        Identifiable(v.items[i].container) && CoherentSlots(e, AcceptedElements(e.elements), v.items[i], 0)
    else
      (v.Items? ==> |AcceptedElements(e.elements)| == 0) &&
      (v.Sub? ==> Identifiable(v.hob.container) && CoherentSlots(e, AcceptedElements(e.elements), v.hob, 0))
  }

  predicate CoherentSlots(owner: Node, acc: seq<Node>, h: HobVal, k: nat)
    requires owner.Container? && acc == AcceptedElements(owner.elements)
    decreases Size(owner), 0, |acc| - k
  {
    if k >= |acc| then true
    else
      AcceptedSmaller(owner.elements);
      assert acc[k] in AcceptedElements(owner.elements);
      (acc[k].name in h.slots ==> Coherent(acc[k], h.slots[acc[k].name])) && CoherentSlots(owner, acc, h, k + 1)
  }

  /** Driving validation from the traversal callback records exactly what the recursion of
      `validate_value` records, in the same order and with the same outcome. */
  lemma {:induction false} TraverseValidates(f: Frame, matches: (OptVal, string) -> bool)
    requires Coherent(f.element, f.obj)
    ensures Traverse(f, Visitor(matches)) == ValidateValue(f.element, f.obj, f.namer, matches)
    decreases Size(f.element), 2, 0
  {
    var visit := Visitor(matches);
    if f.element.Field? {
      assert visit(f) == LeafMarks(f.element, f.obj, f.namer, matches);
      ThenUnit(visit(f));
    } else {
      var acc := AcceptedElements(f.element.elements);
      assert visit(f) == NoMarks;
      if f.element.IsMultiplier() {
        if f.obj.Items? {
          TraverseItemsValidate(f, acc, f.obj.items, 0, matches);
          ThenUnit(TraverseItems(f, acc, f.obj.items, 0, visit));
        } else {
          ThenUnit(Marks([], Fail(TypeMismatch)));
        }
      } else {
        TraverseElemsValidate(f, acc, 0, matches);
        ThenUnit(TraverseElems(f, acc, 0, visit));
      }
    }
  }

  lemma {:induction false} TraverseItemsValidate(f: Frame, acc: seq<Node>, hs: seq<HobVal>, i: nat,
                                                 matches: (OptVal, string) -> bool)
    requires f.element.IsMultiplier() && acc == AcceptedElements(f.element.elements)
    requires forall j :: 0 <= j < |hs| ==> Identifiable(hs[j].container) && CoherentSlots(f.element, acc, hs[j], 0)
    ensures TraverseItems(f, acc, hs, i, Visitor(matches)) == ValidateItems(f.element, hs, i, f.namer, matches)
    decreases Size(f.element), 1, |hs| - i
  {
    if i < |hs| {
      var g := MultFrame(f, hs[i], i).value;
      assert g.namer == Mult(f.namer, i);
      TraverseElemsValidate(g, acc, 0, matches);
      TraverseItemsValidate(f, acc, hs, i + 1, matches);
    }
  }

  lemma {:induction false} TraverseElemsValidate(f: Frame, acc: seq<Node>, k: nat, matches: (OptVal, string) -> bool)
    requires f.element.Container? && acc == AcceptedElements(f.element.elements)
    requires f.obj.Sub? ==> Identifiable(f.obj.hob.container) && CoherentSlots(f.element, acc, f.obj.hob, k)
    requires f.obj.Items? ==> k >= |acc|
    ensures TraverseElems(f, acc, k, Visitor(matches)) == ValidateElems(f.element, acc, f.obj, f.namer, k, matches)
    decreases Size(f.element), 0, |acc| - k
  {
    if k < |acc| {
      AcceptedSmaller(f.element.elements);
      var e := acc[k];
      assert e in AcceptedElements(f.element.elements);
      assert Identifiable(e);
      if f.obj.Sub? {
        assert OwnerObject(f) == Ok(f.obj.hob);
        if e.name in f.obj.hob.slots {
          var g := Frame(e, f.obj.hob.slots[e.name], Some(f), Plus(f.namer, e));
          assert PlusFrame(f, e) == Ok(g);
          assert SlotOf(f.obj, e.name) == Ok(g.obj);
          assert Coherent(e, g.obj);
          TraverseValidates(g, matches);
          TraverseElemsValidate(f, acc, k + 1, matches);
        } else {
          assert PlusFrame(f, e) == Err(TypeMismatch);
          assert SlotOf(f.obj, e.name) == Err(TypeMismatch);
        }
      } else {
        assert OwnerObject(f) == Err(TypeMismatch);
        assert PlusFrame(f, e) == Err(TypeMismatch);
        assert SlotOf(f.obj, e.name) == Err(TypeMismatch);
      }
    }
  }
}
