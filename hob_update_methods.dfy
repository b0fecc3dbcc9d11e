/** The update loops as Ruby runs them: Hob#update iterating over the incoming pairs, each
    element's `update_field`, and Multiplier#update_field with its three loops (update or
    schedule the existing items, append new ones, delete the scheduled ones from the highest
    index down). Each is proved to compute the function of HobUpdates that specifies it. */
module HobUpdateMethods {
  import opened Values
  import opened Elements
  import opened Containers
  import opened Hobs
  import opened HobUpdates
  import opened Lists

  method UpdateFieldM(e: Node, cur: Value, x: Input) returns (v: Value, o: Outcome)
    ensures (v, o) == UpdateField(e, cur, x)
    decreases Iterable(x), x, 5, 0
  {
    match e {
      case Field(SelectorKind, _, _) =>
        v, o := Choice(x), Done;
      case Field(RadioKind, _, _) =>
        v, o := cur, Fail(NotImplemented);
      case Field(_, _, _) =>
        if x.IStr? {
          v, o := Text(x.s), Done;
        } else {
          v, o := cur, Fail(InvalidFieldMatch);
        }
      case Container(SectionKind, _, _, _) =>
        v, o := cur, Fail(NoBaseValue);
      case Container(MultiplierKind, _, _, _) =>
        v, o := MergeItemsM(e, cur, x);
      case Container(_, _, _, _) =>
        if !x.IMap? {
          return cur, Fail(InvalidFieldMatch);
        }
        if !cur.Sub? {
          return cur, Fail(TypeMismatch);
        }
        var h;
        h, o := UpdateHobM(cur.hob, x);
        v := Sub(h);
    }
  }

  /** Hob#update: the pairs in order, each slot reassigned with its element's update. */
  method UpdateHobM(h: HobVal, x: Input) returns (r: HobVal, o: Outcome)
    ensures (r, o) == UpdateHob(h, x)
    decreases Iterable(x), x, 4, 0
  {
    if !Iterable(x) {
      return h, Fail(TypeMismatch);
    }
    r := h;
    var i := 0;
    while i < PairCount(x)
      invariant 0 <= i <= PairCount(x)
      invariant UpdateEntries(r, x, i) == UpdateHob(h, x)
    {
      var field := FieldAt(x, i);
      if field.None? {
        return r, Fail(UnknownField);
      }
      var key := field.value;
      var found := AcceptedElementAt(Children(r.container), key);
      if found.None? {
        return r, Fail(UnknownField);
      }
      if key !in r.slots {
        return r, Fail(TypeMismatch);
      }
      var v, o' := UpdateFieldM(found.value, r.slots[key], ValueAt(x, i));
      r := r.(slots := r.slots[key := v]);
      if o'.Fail? {
        return r, o';
      }
      i := i + 1;
    }
    o := Done;
  }

  /** Multiplier#update_field. */
  method MergeItemsM(m: Node, cur: Value, x: Input) returns (v: Value, o: Outcome)
    ensures (v, o) == MergeItems(m, cur, x)
    decreases Iterable(x), x, 4, 1
  {
    if !x.IList? {
      return cur, Fail(InvalidFieldMatch);
    }
    if !cur.Items? {
      return cur, Fail(TypeMismatch);
    }
    if |x.items| < |cur.items| {
      return cur, Fail(SmallerArray);
    }
    var items := cur.items;
    var removed: seq<nat> := [];
    var i := 0;
    while i < |cur.items|
      invariant 0 <= i <= |cur.items| == |items|
      invariant MergeExisting(m, items, x, i, removed) == MergeItems(m, cur, x)
    {
      var mark := DeletedMark(x.items[i]);
      if mark.Err? {
        return Items(items), Fail(mark.error);
      }
      if mark.value {
        removed := removed + [i];
      } else {
        var h, o' := UpdateHobM(items[i], x.items[i]);
        items := items[i := h];
        if o'.Fail? {
          return Items(items), o';
        }
      }
      i := i + 1;
    }
    var j := |cur.items|;
    while j < |x.items|
      invariant |cur.items| <= j <= |x.items|
      invariant MergeNew(m, items, x, j, removed) == MergeItems(m, cur, x)
    {
      var mark := DeletedMark(x.items[j]);
      if mark.Err? {
        return Items(items), Fail(mark.error);
      }
      if !mark.value {
        var h, o' := UpdateHobM(NewHob(m), x.items[j]);
        if o'.Fail? {
          return Items(items), o';
        }
        items := items + [h];
      }
      j := j + 1;
    }
    ghost var all := items;
    var k := |removed|;
    assert removed[..k] == removed;
    while k > 0
      invariant 0 <= k <= |removed|
      invariant RemoveRev(items, removed[..k]) == RemoveRev(all, removed)
    {
      assert removed[..k][..k - 1] == removed[..k - 1];
      items := DeleteAt(items, removed[k - 1]);
      k := k - 1;
    }
    v, o := Items(items), Done;
  }
}
