/** Partial updates (lib/surveyor/hob.rb#update and every element's `update_field`, with the
    Multiplier merge of lib/surveyor/multiplier.rb). Ruby updates nested Hobs and item arrays
    in place and may raise half way; every function here therefore answers the new value
    together with the outcome, and after a failure the value is the partially updated one
    that the caller's slot then holds. */
module HobUpdates {
  import opened Strings
  import opened Values
  import opened Elements
  import opened Containers
  import opened Hobs
  import opened Lists

  /** A value Ruby's `each` walks with two block parameters: a Hash or an Array. */
  predicate Iterable(x: Input)
  {
    x.IMap? || x.IList?
  }

  /** The number of pairs `each` yields. */
  function PairCount(x: Input): (n: nat)
    requires Iterable(x)
    ensures n == if x.IMap? then |x.entries| else |x.items|
  {
    if x.IMap? then |x.entries| else |x.items|
  }

  /** The field of the i-th pair: a Hash gives its key; an Array item that is itself an Array
      gives its first element, any other item gives itself. Only a String can equal an
      element's name, so anything else is no field at all. */
  function FieldAt(x: Input, i: nat): (k: Option<string>)
    requires Iterable(x) && i < PairCount(x)
    ensures x.IMap? ==> k == Some(x.entries[i].key)
    ensures x.IList? && x.items[i].IStr? ==> k == Some(x.items[i].s)
    ensures x.IList? && x.items[i].IList? && |x.items[i].items| > 0 && x.items[i].items[0].IStr? ==>
      k == Some(x.items[i].items[0].s)
    ensures k.Some? && x.IList? ==> x.items[i].IStr? || (x.items[i].IList? && |x.items[i].items| > 0)
  {
    if x.IMap? then Some(x.entries[i].key)
    else
      var item := x.items[i];
      if item.IStr? then Some(item.s)
      else if item.IList? && |item.items| > 0 && item.items[0].IStr? then Some(item.items[0].s)
      else None
  }

  /** The value of the i-th pair: a Hash gives the key's value; an Array item that is itself
      an Array gives its second element, and nil when it has fewer; any other item gives nil. */
  function ValueAt(x: Input, i: nat): (v: Input)
    requires Iterable(x) && i < PairCount(x)
    ensures x.IMap? ==> v == x.entries[i].val
    ensures x.IList? && x.items[i].IList? && |x.items[i].items| > 1 ==> v == x.items[i].items[1]
    ensures x.IList? && !(x.items[i].IList? && |x.items[i].items| > 1) ==> v == INil
  {
    if x.IMap? then x.entries[i].val
    else
      var item := x.items[i];
      if item.IList? && |item.items| > 1 then item.items[1] else INil
  }

  /** `update_field(current, partial)` of each kind. */
  function UpdateField(e: Node, cur: Value, x: Input): (Value, Outcome)
    decreases Iterable(x), x, 5, 0
  {
    match e
    case Field(SelectorKind, _, _) => (Choice(x), Done)
    case Field(RadioKind, _, _) => (cur, Fail(NotImplemented))
    case Field(_, _, _) => if x.IStr? then (Text(x.s), Done) else (cur, Fail(InvalidFieldMatch))
    case Container(SectionKind, _, _, _) => (cur, Fail(NoBaseValue))
    case Container(MultiplierKind, _, _, _) => MergeItems(e, cur, x)
    case Container(_, _, _, _) =>
      if !x.IMap? then (cur, Fail(InvalidFieldMatch))
      else if !cur.Sub? then (cur, Fail(TypeMismatch))
      else var (h, o) := UpdateHob(cur.hob, x); (Sub(h), o)
  }

  /** Hob#update(hash): each pair `each` yields, in order; a field `accepted_element_at`
      cannot resolve raises UnknownFieldError; otherwise the slot receives the element's
      `update_field` of its current content. A value with no `each` raises. */
  function UpdateHob(h: HobVal, x: Input): (HobVal, Outcome)
    decreases Iterable(x), x, 4, 0
  {
    if Iterable(x) then UpdateEntries(h, x, 0) else (h, Fail(TypeMismatch))
  }

  function UpdateEntries(h: HobVal, x: Input, i: nat): (HobVal, Outcome)
    requires Iterable(x) && i <= PairCount(x)
    decreases Iterable(x), x, 3, PairCount(x) - i
  {
    if i == PairCount(x) then (h, Done)
    else
      match FieldAt(x, i)
      case None => (h, Fail(UnknownField))
      case Some(key) =>
        match AcceptedElementAt(Children(h.container), key)
        case None => (h, Fail(UnknownField))
        case Some(e) =>
          if key !in h.slots then (h, Fail(TypeMismatch))
          else
            var (v, o) := UpdateField(e, h.slots[key], ValueAt(x, i));
            var h' := h.(slots := h.slots[key := v]);
            if o.Fail? then (h', o) else UpdateEntries(h', x, i + 1)
  }

  // ---------------------------------------------------------------------------
  // Multiplier#update_field

  /** `item['deleted']`: the marker that asks for an item's removal; any value but nil and
      false counts. Reading it from a value that is not a hash (or string) raises. */
  function DeletedMark(item: Input): Result<bool>
  {
    match Index(item, "deleted")
    case Ok(v) => Ok(InputTruthy(v))
    case Err(err) => Err(err)
  }

  predicate Marked(item: Input)
  {
    DeletedMark(item) == Ok(true)
  }

  /** The merge: the incoming list must be an Array no shorter than the current one; then the
      existing items are updated in place or scheduled for removal, the further incoming items
      are appended as new Hobs unless marked, and the scheduled items are deleted, from the
      highest index down. */
  function MergeItems(m: Node, cur: Value, x: Input): (Value, Outcome)
    decreases Iterable(x), x, 4, 1
  {
    if !x.IList? then (cur, Fail(InvalidFieldMatch))
    else if !cur.Items? then (cur, Fail(TypeMismatch))
    else if |x.items| < |cur.items| then (cur, Fail(SmallerArray))
    else MergeExisting(m, cur.items, x, 0, [])
  }

  /** The first loop, over the indices of the current items. */
  function MergeExisting(m: Node, items: seq<HobVal>, x: Input, i: nat, removed: seq<nat>): (Value, Outcome)
    requires x.IList? && i <= |items| <= |x.items|
    decreases Iterable(x), x, 3, |items| - i
  {
    if i == |items| then MergeNew(m, items, x, |items|, removed)
    else
      match DeletedMark(x.items[i])
      case Err(err) => (Items(items), Fail(err))
      case Ok(marked) =>
        if marked then MergeExisting(m, items, x, i + 1, removed + [i])
        else
          var (h, o) := UpdateHob(items[i], x.items[i]);
          var items' := items[i := h];
          if o.Fail? then (Items(items'), o) else MergeExisting(m, items', x, i + 1, removed)
  }

  /** The second loop, over the incoming items past the current length: a new Hob bound to
      the multiplier is updated with the item and then appended. */
  function MergeNew(m: Node, items: seq<HobVal>, x: Input, j: nat, removed: seq<nat>): (Value, Outcome)
    requires x.IList? && j <= |x.items|
    decreases Iterable(x), x, 2, |x.items| - j
  {
    if j == |x.items| then (Items(RemoveRev(items, removed)), Done)
    else
      match DeletedMark(x.items[j])
      case Err(err) => (Items(items), Fail(err))
      case Ok(marked) =>
        if marked then MergeNew(m, items, x, j + 1, removed)
        else
          var (h, o) := UpdateHob(NewHob(m), x.items[j]);
          if o.Fail? then (Items(items), o) else MergeNew(m, items + [h], x, j + 1, removed)
  }

  // ---------------------------------------------------------------------------
  // Properties of the merge

  /** What the first loop makes of the current items in place: a marked position keeps its
      item (it is deleted afterwards); any other holds its item updated with the incoming one. */
  function Updated(cur: seq<HobVal>, xs: seq<Input>): (r: seq<HobVal>)
    requires |cur| <= |xs|
    ensures |r| == |cur|
    ensures forall k :: 0 <= k < |cur| ==> r[k] == if Marked(xs[k]) then cur[k] else UpdateHob(cur[k], xs[k]).0
  {
    seq(|cur|, k requires 0 <= k < |cur| => if Marked(xs[k]) then cur[k] else UpdateHob(cur[k], xs[k]).0)
  }

  /** The positions below `hi` whose incoming item is marked, ascending: `to_be_removed`. */
  function MarkedBelow(xs: seq<Input>, hi: nat): (r: seq<nat>)
    requires hi <= |xs|
    ensures Ascending(r)
    ensures forall i :: 0 <= i < |r| ==> r[i] < hi
    ensures forall k: nat :: k in Elems(r) <==> k < hi && Marked(xs[k])
  {
    if hi == 0 then []
    else
      var r := MarkedBelow(xs, hi - 1) + (if Marked(xs[hi - 1]) then [hi - 1] else []);
      assert forall k: nat :: k in Elems(r) <==> k in Elems(MarkedBelow(xs, hi - 1)) || (Marked(xs[hi - 1]) && k == hi - 1) by {
        forall k: nat ensures k in Elems(r) <==> k in Elems(MarkedBelow(xs, hi - 1)) || (Marked(xs[hi - 1]) && k == hi - 1) {
          if k in Elems(r) {
            var i :| 0 <= i < |r| && r[i] == k;
            if i < |MarkedBelow(xs, hi - 1)| {
              assert MarkedBelow(xs, hi - 1)[i] == k;
            }
          }
          if k in Elems(MarkedBelow(xs, hi - 1)) {
            var i :| 0 <= i < |MarkedBelow(xs, hi - 1)| && MarkedBelow(xs, hi - 1)[i] == k;
            assert r[i] == k;
          }
          if Marked(xs[hi - 1]) && k == hi - 1 {
            assert r[|r| - 1] == k;
          }
        }
      }
      r
  }

  /** The positions of the marked incoming items among the first `hi`. */
  function MarkedPositions(xs: seq<Input>, hi: nat): (gone: set<nat>)
    requires hi <= |xs|
  {
    set k: nat | k < hi && Marked(xs[k])
  }

  /** The items the second loop appends: one new Hob per unmarked incoming item, updated with it. */
  function Added(m: Node, ys: seq<Input>): seq<HobVal>
  {
    if |ys| == 0 then []
    else (if Marked(ys[0]) then [] else [UpdateHob(NewHob(m), ys[0]).0]) + Added(m, ys[1..])
  }

  /** The number of unmarked items. */
  function Unmarked(xs: seq<Input>): nat
  {
    if |xs| == 0 then 0 else Unmarked(xs[..|xs| - 1]) + (if Marked(xs[|xs| - 1]) then 0 else 1)
  }

  /** The completed second loop appends the new items, then deletes the scheduled positions. */
  lemma {:induction false} MergeNewDone(m: Node, items: seq<HobVal>, x: Input, j: nat, removed: seq<nat>)
    requires x.IList? && j <= |x.items|
    ensures MergeNew(m, items, x, j, removed).1 == Done ==>
      MergeNew(m, items, x, j, removed).0 == Items(RemoveRev(items + Added(m, x.items[j..]), removed))
    decreases |x.items| - j
  {
    if j == |x.items| {
      assert x.items[j..] == [];
      assert items + [] == items;
    } else if DeletedMark(x.items[j]).Ok? {
      if Marked(x.items[j]) {
        MergeNewDone(m, items, x, j + 1, removed);
        MergeNewMarked(m, items, x, j, removed);
      } else {
        var h := UpdateHob(NewHob(m), x.items[j]).0;
        MergeNewDone(m, items + [h], x, j + 1, removed);
        MergeNewUnmarked(m, items, x, j, removed);
      }
    }
  }

  lemma MergeNewMarked(m: Node, items: seq<HobVal>, x: Input, j: nat, removed: seq<nat>)
    requires x.IList? && j < |x.items| && Marked(x.items[j])
    requires MergeNew(m, items, x, j + 1, removed).1 == Done ==>
      MergeNew(m, items, x, j + 1, removed).0 == Items(RemoveRev(items + Added(m, x.items[j + 1..]), removed))
    ensures MergeNew(m, items, x, j, removed).1 == Done ==>
      MergeNew(m, items, x, j, removed).0 == Items(RemoveRev(items + Added(m, x.items[j..]), removed))
  {
    assert MergeNew(m, items, x, j, removed) == MergeNew(m, items, x, j + 1, removed);
    var ys := x.items[j..];
    assert ys[0] == x.items[j] && ys[1..] == x.items[j + 1..];
    assert Added(m, ys) == Added(m, x.items[j + 1..]);
  }

  lemma MergeNewUnmarked(m: Node, items: seq<HobVal>, x: Input, j: nat, removed: seq<nat>)
    requires x.IList? && j < |x.items| && DeletedMark(x.items[j]) == Ok(false)
    requires var h := UpdateHob(NewHob(m), x.items[j]).0;
      MergeNew(m, items + [h], x, j + 1, removed).1 == Done ==>
      MergeNew(m, items + [h], x, j + 1, removed).0 == Items(RemoveRev(items + [h] + Added(m, x.items[j + 1..]), removed))
    ensures MergeNew(m, items, x, j, removed).1 == Done ==>
      MergeNew(m, items, x, j, removed).0 == Items(RemoveRev(items + Added(m, x.items[j..]), removed))
  {
    var (h, o) := UpdateHob(NewHob(m), x.items[j]);
    if o.Done? {
      assert MergeNew(m, items, x, j, removed) == MergeNew(m, items + [h], x, j + 1, removed);
      var ys := x.items[j..];
      assert ys[0] == x.items[j] && ys[1..] == x.items[j + 1..];
      assert Added(m, ys) == [h] + Added(m, x.items[j + 1..]);
      assert items + [h] + Added(m, x.items[j + 1..]) == items + Added(m, ys);
    } else {
      assert MergeNew(m, items, x, j, removed).1 == o;
    }
  }

  /** The completed first loop has updated every unmarked position in place and scheduled
      every marked one; the second loop and the deletions follow. */
  lemma {:induction false} MergeExistingDone(m: Node, cur: seq<HobVal>, items: seq<HobVal>, x: Input, i: nat, target: Value)
    requires x.IList? && i <= |cur| == |items| <= |x.items|
    requires items[..i] == Updated(cur, x.items)[..i] && items[i..] == cur[i..]
    requires target == Items(RemoveRev(Updated(cur, x.items) + Added(m, x.items[|cur|..]), MarkedBelow(x.items, |cur|)))
    ensures MergeExisting(m, items, x, i, MarkedBelow(x.items, i)).1 == Done ==>
      MergeExisting(m, items, x, i, MarkedBelow(x.items, i)).0 == target
    decreases |cur| - i
  {
    if i == |cur| {
      assert items == items[..i] == Updated(cur, x.items);
      MergeNewDone(m, items, x, |items|, MarkedBelow(x.items, i));
    } else if DeletedMark(x.items[i]).Ok? {
      if Marked(x.items[i]) {
        MarkedPrefix(cur, items, x.items, i);
        MergeExistingDone(m, cur, items, x, i + 1, target);
        ExistingMarkedStep(m, items, x, i, MarkedBelow(x.items, i));
        assert MarkedBelow(x.items, i + 1) == MarkedBelow(x.items, i) + [i];
      } else {
        UnmarkedPrefix(cur, items, x.items, i);
        MergeExistingDone(m, cur, items[i := UpdateHob(items[i], x.items[i]).0], x, i + 1, target);
        ExistingUnmarkedStep(m, items, x, i, MarkedBelow(x.items, i));
        assert MarkedBelow(x.items, i + 1) == MarkedBelow(x.items, i);
      }
    } else {
      ExistingErrStep(m, items, x, i, MarkedBelow(x.items, i));
    }
  }

  /** One marked position of the first loop: schedule it and go on. */
  lemma ExistingMarkedStep(m: Node, items: seq<HobVal>, x: Input, i: nat, removed: seq<nat>)
    requires x.IList? && i < |items| <= |x.items| && DeletedMark(x.items[i]) == Ok(true)
    ensures MergeExisting(m, items, x, i, removed) == MergeExisting(m, items, x, i + 1, removed + [i])
  {
  }

  /** A position whose marker cannot be read stops the first loop. */
  lemma ExistingErrStep(m: Node, items: seq<HobVal>, x: Input, i: nat, removed: seq<nat>)
    requires x.IList? && i < |items| <= |x.items| && DeletedMark(x.items[i]).Err?
    ensures MergeExisting(m, items, x, i, removed).1.Fail?
  {
  }

  lemma MarkedPrefix(cur: seq<HobVal>, items: seq<HobVal>, xs: seq<Input>, i: nat)
    requires i < |cur| == |items| <= |xs| && Marked(xs[i])
    requires items[..i] == Updated(cur, xs)[..i] && items[i..] == cur[i..]
    ensures items[..i + 1] == Updated(cur, xs)[..i + 1] && items[i + 1..] == cur[i + 1..]
  {
    var upd := Updated(cur, xs);
    assert items[i] == cur[i] == upd[i];
    assert items[..i + 1] == items[..i] + [items[i]];
    assert upd[..i + 1] == upd[..i] + [upd[i]];
  }

  lemma UnmarkedPrefix(cur: seq<HobVal>, items: seq<HobVal>, xs: seq<Input>, i: nat)
    requires i < |cur| == |items| <= |xs| && !Marked(xs[i])
    requires items[..i] == Updated(cur, xs)[..i] && items[i..] == cur[i..]
    ensures var items' := items[i := UpdateHob(items[i], xs[i]).0];
      items'[..i + 1] == Updated(cur, xs)[..i + 1] && items'[i + 1..] == cur[i + 1..]
  {
    var upd := Updated(cur, xs);
    var h := UpdateHob(items[i], xs[i]).0;
    var items' := items[i := h];
    assert items[i] == cur[i];
    assert upd[i] == h;
    assert items'[..i + 1] == items[..i] + [h];
    assert upd[..i + 1] == upd[..i] + [upd[i]];
    assert items'[i + 1..] == items[i + 1..];
  }

  /** One unmarked position of the first loop: update in place, then go on, or stop. */
  lemma ExistingUnmarkedStep(m: Node, items: seq<HobVal>, x: Input, i: nat, removed: seq<nat>)
    requires x.IList? && i < |items| <= |x.items| && DeletedMark(x.items[i]) == Ok(false)
    ensures var u := UpdateHob(items[i], x.items[i]);
      MergeExisting(m, items, x, i, removed)
        == if u.1.Done? then MergeExisting(m, items[i := u.0], x, i + 1, removed) else (Items(items[i := u.0]), u.1)
  {
  }

  /** A merge that completes leaves the current items updated in place with the marked ones
      removed, in their old order, followed by a new Hob for each unmarked incoming item past
      the current length, in incoming order. */
  lemma MergeDone(m: Node, cur: seq<HobVal>, xs: seq<Input>)
    ensures MergeItems(m, Items(cur), IList(xs)).1 == Done ==>
      |cur| <= |xs| &&
      MergeItems(m, Items(cur), IList(xs)).0
        == Items(KeepIdx(Updated(cur, xs), MarkedPositions(xs, |cur|)) + Added(m, xs[|cur|..]))
  {
    if |cur| <= |xs| {
      var x := IList(xs);
      assert cur[..0] == Updated(cur, xs)[..0];
      var rs := MarkedBelow(xs, |cur|);
      var a := Updated(cur, xs);
      MergeExistingDone(m, cur, cur, x, 0, Items(RemoveRev(a + Added(m, xs[|cur|..]), rs)));
      RemoveRevKeeps(a + Added(m, xs[|cur|..]), rs);
      KeepAppend(a, Added(m, xs[|cur|..]), Elems(rs));
      assert Elems(rs) == MarkedPositions(xs, |cur|);
    }
  }

  lemma {:induction false} UnmarkedAppend(a: seq<Input>, b: seq<Input>)
    ensures Unmarked(a + b) == Unmarked(a) + Unmarked(b)
    decreases |b|
  {
    if |b| == 0 {
      assert a + b == a;
    } else {
      UnmarkedAppend(a, b[..|b| - 1]);
      assert (a + b)[..|a + b| - 1] == a + b[..|b| - 1];
    }
  }

  lemma {:induction false} AddedCount(m: Node, ys: seq<Input>)
    ensures |Added(m, ys)| == Unmarked(ys)
    decreases |ys|
  {
    if |ys| > 0 {
      AddedCount(m, ys[1..]);
      UnmarkedAppend([ys[0]], ys[1..]);
      assert [ys[0]] + ys[1..] == ys;
      assert [ys[0]][..0] == [];
    }
  }

  lemma {:induction false} KeepCount(s: seq<HobVal>, xs: seq<Input>, gone: set<nat>)
    requires |s| <= |xs|
    requires forall k: nat :: k < |s| ==> (k in gone <==> Marked(xs[k]))
    ensures |KeepIdx(s, gone)| == Unmarked(xs[..|s|])
    decreases |s|
  {
    if |s| > 0 {
      KeepCount(s[..|s| - 1], xs, gone);
      assert xs[..|s|][..|s| - 1] == xs[..|s| - 1];
    }
  }

  /** A merge that completes leaves exactly as many items as there are unmarked incoming items. */
  lemma MergeLength(m: Node, cur: seq<HobVal>, xs: seq<Input>)
    ensures MergeItems(m, Items(cur), IList(xs)).1 == Done ==>
      MergeItems(m, Items(cur), IList(xs)).0.Items? &&
      |MergeItems(m, Items(cur), IList(xs)).0.items| == Unmarked(xs)
  {
    MergeDone(m, cur, xs);
    if MergeItems(m, Items(cur), IList(xs)).1 == Done {
      KeepCount(Updated(cur, xs), xs, MarkedPositions(xs, |cur|));
      AddedCount(m, xs[|cur|..]);
      UnmarkedAppend(xs[..|cur|], xs[|cur|..]);
      assert xs[..|cur|] + xs[|cur|..] == xs;
    }
  }

  /** The merge checks its arguments before touching any item: a non-Array raises
      InvalidFieldMatchError and a shorter Array raises SmallerArrayError, leaving the items. */
  lemma MergeGuards(m: Node, cur: Value, x: Input)
    requires m.IsMultiplier()
    ensures !x.IList? ==> UpdateField(m, cur, x) == (cur, Fail(InvalidFieldMatch))
    ensures x.IList? && cur.Items? && |x.items| < |cur.items| ==> UpdateField(m, cur, x) == (cur, Fail(SmallerArray))
  {
  }

  // ---------------------------------------------------------------------------
  // Properties of Hob#update

  /** An update (complete or interrupted) keeps the Hob bound to its container, keeps its slot
      names, and changes no slot that no remaining pair names. */
  lemma {:induction false} UpdateEntriesFrame(h: HobVal, x: Input, i: nat)
    requires Iterable(x) && i <= PairCount(x)
    ensures UpdateEntries(h, x, i).0.container == h.container
    ensures UpdateEntries(h, x, i).0.slots.Keys == h.slots.Keys
    ensures forall k :: k in h.slots && (forall j :: i <= j < PairCount(x) ==> FieldAt(x, j) != Some(k)) ==>
      UpdateEntries(h, x, i).0.slots[k] == h.slots[k]
    decreases PairCount(x) - i
  {
    if i < PairCount(x) && FieldAt(x, i).Some? {
      var key := FieldAt(x, i).value;
      match AcceptedElementAt(Children(h.container), key) {
        case None =>
        case Some(e) =>
          if key in h.slots {
            var (v, o) := UpdateField(e, h.slots[key], ValueAt(x, i));
            var h' := h.(slots := h.slots[key := v]);
            if o.Done? {
              UpdateEntriesFrame(h', x, i + 1);
            }
          }
      }
    }
  }

  /** `update` keeps the container and the slot names and changes only the slots its pairs
      name; an empty Hash or Array changes nothing and succeeds; a value `each` cannot walk
      raises before anything changes. */
  lemma UpdateOnlyNamed(h: HobVal, x: Input)
    ensures UpdateHob(h, x).0.container == h.container
    ensures UpdateHob(h, x).0.slots.Keys == h.slots.Keys
    ensures x.IMap? ==> forall k :: k in h.slots && k !in Keys(x.entries) ==> UpdateHob(h, x).0.slots[k] == h.slots[k]
    ensures Iterable(x) ==> forall k :: k in h.slots && (forall j :: 0 <= j < PairCount(x) ==> FieldAt(x, j) != Some(k)) ==>
      UpdateHob(h, x).0.slots[k] == h.slots[k]
    ensures Iterable(x) && PairCount(x) == 0 ==> UpdateHob(h, x) == (h, Done)
    ensures !Iterable(x) ==> UpdateHob(h, x) == (h, Fail(TypeMismatch))
  {
    if Iterable(x) {
      UpdateEntriesFrame(h, x, 0);
      if x.IMap? {
        forall k | k in h.slots && k !in Keys(x.entries)
          ensures forall j :: 0 <= j < PairCount(x) ==> FieldAt(x, j) != Some(k)
        {
          forall j | 0 <= j < PairCount(x) ensures FieldAt(x, j) != Some(k) {
            assert Keys(x.entries)[j] == x.entries[j].key;
          }
        }
      }
    }
  }

  /** The Array `[[k1, v1], [k2, v2], ...]` of a Hash's pairs. */
  function PairList(es: seq<Entry>): (r: seq<Input>)
    ensures |r| == |es|
    ensures forall i :: 0 <= i < |es| ==> r[i] == IList([IStr(es[i].key), es[i].val])
  {
    if |es| == 0 then [] else [IList([IStr(es[0].key), es[0].val])] + PairList(es[1..])
  }

  /** `each` yields the same pairs from a Hash and from the Array of its pairs, so `update`
      does the same with either, from any position on. */
  lemma {:induction false} PairListEntries(h: HobVal, es: seq<Entry>, i: nat)
    requires i <= |es|
    ensures UpdateEntries(h, IList(PairList(es)), i) == UpdateEntries(h, IMap(es), i)
    decreases |es| - i
  {
    var a, b := IList(PairList(es)), IMap(es);
    if i < |es| {
      assert FieldAt(a, i) == FieldAt(b, i) == Some(es[i].key);
      assert ValueAt(a, i) == ValueAt(b, i) == es[i].val;
      var key := es[i].key;
      match AcceptedElementAt(Children(h.container), key) {
        case None =>
        case Some(e) =>
          if key in h.slots {
            var h' := h.(slots := h.slots[key := UpdateField(e, h.slots[key], es[i].val).0]);
            PairListEntries(h', es, i + 1);
          }
      }
    }
  }

  lemma PairListUpdate(h: HobVal, es: seq<Entry>)
    ensures UpdateHob(h, IList(PairList(es))) == UpdateHob(h, IMap(es))
  {
    PairListEntries(h, es, 0);
  }

  /** A completed update met only fields that `accepted_element_at` resolves and that have a
      slot; so a pair whose field names no accepted element makes the update fail (with
      UnknownFieldError, unless an earlier pair has failed already). */
  lemma {:induction false} UpdateResolves(h: HobVal, x: Input, i: nat)
    requires Iterable(x) && i <= PairCount(x)
    ensures UpdateEntries(h, x, i).1 == Done ==>
      forall j :: i <= j < PairCount(x) ==>
        FieldAt(x, j).Some? &&
        AcceptedElementAt(Children(h.container), FieldAt(x, j).value).Some? && FieldAt(x, j).value in h.slots
    decreases PairCount(x) - i
  {
    if i < PairCount(x) && FieldAt(x, i).Some? {
      var key := FieldAt(x, i).value;
      match AcceptedElementAt(Children(h.container), key) {
        case None =>
        case Some(e) =>
          if key in h.slots {
            var (v, o) := UpdateField(e, h.slots[key], ValueAt(x, i));
            var h' := h.(slots := h.slots[key := v]);
            if o.Done? {
              UpdateResolves(h', x, i + 1);
            }
          }
      }
    }
  }

  /** A first pair whose field names no accepted element (or is no String) raises
      UnknownFieldError and changes nothing. */
  lemma UnknownFieldFirst(h: HobVal, x: Input)
    requires Iterable(x) && PairCount(x) > 0
    requires FieldAt(x, 0).None? || AcceptedElementAt(Children(h.container), FieldAt(x, 0).value).None?
    ensures UpdateHob(h, x) == (h, Fail(UnknownField))
  {
  }

  /** Leaves: a String or Text field takes an incoming String as its new content whatever it
      held, and raises InvalidFieldMatchError on anything else; a Selector takes any incoming
      value as it is; a Section always raises NoBaseValueError; a Radio field has no update. */
  lemma LeafUpdates(e: Node, cur: Value, x: Input)
    ensures e.Field? && (e.fieldKind == StringKind || e.fieldKind == TextKind) ==>
      (UpdateField(e, cur, x).1 == Done <==> x.IStr?) &&
      (x.IStr? ==> UpdateField(e, cur, x).0 == Text(x.s)) &&
      (!x.IStr? ==> UpdateField(e, cur, x) == (cur, Fail(InvalidFieldMatch)))
    ensures e.Field? && e.fieldKind == SelectorKind ==> UpdateField(e, cur, x) == (Choice(x), Done)
    ensures e.Field? && e.fieldKind == RadioKind ==> UpdateField(e, cur, x) == (cur, Fail(NotImplemented))
    ensures e.IsSection() ==> UpdateField(e, cur, x) == (cur, Fail(NoBaseValue))
  {
  }

  /** A Sequence or Survey element takes only a hash, and updates its Hob in place: the slot
      keeps the same Hob, bound to the same container with the same slot names. */
  lemma SequenceUpdate(e: Node, cur: Value, x: Input)
    requires e.IsSequenceLike()
    ensures !x.IMap? ==> UpdateField(e, cur, x) == (cur, Fail(InvalidFieldMatch))
    ensures x.IMap? && cur.Sub? ==>
      && UpdateField(e, cur, x) == (Sub(UpdateHob(cur.hob, x).0), UpdateHob(cur.hob, x).1)
      && UpdateField(e, cur, x).0.hob.container == cur.hob.container
      && UpdateField(e, cur, x).0.hob.slots.Keys == cur.hob.slots.Keys
  {
    if x.IMap? && cur.Sub? {
      UpdateOnlyNamed(cur.hob, x);
    }
  }
}
