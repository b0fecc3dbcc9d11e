/** Validation of survey data: the leaf rules of StringElement, TextElement and
    SelectorElement, the error key derived from a namer id (Hob#mark_error and
    Hob#error_for?), and the recursion of Container#validate_value and
    Multiplier#validate_value that walks the data alongside the schema.

    The effect of validation on a Hob's error collection is modelled as the ordered list of
    marks it appends, together with the outcome (an exception stops the walk and keeps the
    marks appended before it). */
module Validations {
  import opened Strings
  import opened Values
  import opened Elements
  import opened Containers
  import opened Hobs
  import opened DomNamers

  /** Error collection of a Hob: messages per dotted key. */
  type Errors = map<string, seq<string>>

  /** One appended message. */
  datatype Mark = Mark(key: string, message: string)

  /** The marks appended so far and whether the walk raised. */
  datatype Marks = Marks(marks: seq<Mark>, outcome: Outcome)

  /** Doing `a`, then `b` unless `a` raised. */
  function Then(a: Marks, b: Marks): (r: Marks)
    ensures a.outcome.Fail? ==> r == a
    ensures a.outcome.Done? ==> r.marks == a.marks + b.marks && r.outcome == b.outcome
  {
    if a.outcome.Fail? then a else Marks(a.marks + b.marks, b.outcome)
  }

  lemma ThenAssoc(a: Marks, b: Marks, c: Marks)
    ensures Then(Then(a, b), c) == Then(a, Then(b, c))
  {
    if a.outcome.Done? && b.outcome.Done? {
      assert (a.marks + b.marks) + c.marks == a.marks + (b.marks + c.marks);
    }
  }

  const NoMarks := Marks([], Done)

  /** Doing nothing first, or last, changes nothing. */
  lemma ThenUnit(a: Marks)
    ensures Then(NoMarks, a) == a && Then(a, NoMarks) == a
  {
    assert [] + a.marks == a.marks && a.marks + [] == a.marks;
  }

  // ---------------------------------------------------------------------------------------
  // Error keys

  /** `id.split(':')[1..-1].join('.')`: the namer id without its first segment, dotted.
      An id that splits into nothing (empty, or colons only) makes `[][1..-1]` nil and the
      join raise. */
  function ErrorKey(id: string): (r: Result<string>)
    ensures r.Err? <==> RubySplit(id, ':') == []
  {
    var parts := RubySplit(id, ':');
    if |parts| == 0 then Err(TypeMismatch) else Ok(Join(parts[1..], "."))
  }

  /** The key of a namer reached from a root namer by `+` and `*` steps is the dotted list
      of the step segments, provided the root id and the segments hold no ':' and the last
      segment is not empty. */
  lemma ErrorKeyOfWalk(root: DomNamer, steps: seq<Step>)
    requires ':' !in root.id && root.id != ""
    requires forall i :: 0 <= i < |steps| ==> ':' !in IdSegment(steps[i])
    requires |steps| > 0 ==> IdSegment(steps[|steps| - 1]) != ""
    ensures ErrorKey(Walk(root, steps).id) == Ok(Join(IdSegments(steps), "."))
  {
    var parts := [root.id] + IdSegments(steps);
    WalkId(root, steps);
    assert forall i :: 0 <= i < |parts| ==> ':' !in parts[i] by {
      forall i | 0 <= i < |parts| ensures ':' !in parts[i] {
        if i > 0 {
          assert parts[i] == IdSegment(steps[i - 1]);
        }
      }
    }
    SplitJoin(parts, ':');
    assert parts[|parts| - 1] != "";
    assert DropTrailingEmpty(parts) == parts;
    assert parts[1..] == IdSegments(steps);
  }

  /** `errors[k].any?`: the key holds at least one message. */
  predicate HasMessages(errors: Errors, k: string)
  {
    k in errors && |errors[k]| > 0
  }

  /** Hob#error_for?(dom_namer). */
  function ErrorFor(errors: Errors, namer: DomNamer): (r: Result<bool>)
    ensures r.Ok? ==> ErrorKey(namer.id).Ok? && (r.value <==> HasMessages(errors, ErrorKey(namer.id).value))
    ensures r.Err? ==> ErrorKey(namer.id).Err?
  {
    match ErrorKey(namer.id)
    case Err(e) => Err(e)
    case Ok(k) => Ok(HasMessages(errors, k))
  }

  /** `errors[k] << message`: appends under the key, creating it when missing. */
  function Append(errors: Errors, k: string, message: string): (r: Errors)
    ensures r.Keys == errors.Keys + {k}
    ensures r[k] == (if k in errors then errors[k] else []) + [message]
    ensures forall j :: j in errors && j != k ==> r[j] == errors[j]
  {
    errors[k := (if k in errors then errors[k] else []) + [message]]
  }

  /** The marks applied one after the other. */
  function ApplyMarks(errors: Errors, marks: seq<Mark>): Errors
    decreases |marks|
  {
    if |marks| == 0 then errors
    else ApplyMarks(Append(errors, marks[0].key, marks[0].message), marks[1..])
  }

  /** After applying marks, every marked key has messages, existing messages are kept in
      front, and keys that were not marked are untouched. */
  lemma {:induction false} ApplyMarksEffect(errors: Errors, marks: seq<Mark>)
    ensures forall i :: 0 <= i < |marks| ==> HasMessages(ApplyMarks(errors, marks), marks[i].key)
    ensures forall k :: k in errors ==> k in ApplyMarks(errors, marks) && errors[k] <= ApplyMarks(errors, marks)[k]
    ensures forall k :: (forall i :: 0 <= i < |marks| ==> marks[i].key != k) ==>
      (k in ApplyMarks(errors, marks) <==> k in errors) &&
      (k in errors ==> ApplyMarks(errors, marks)[k] == errors[k])
    decreases |marks|
  {
    if |marks| > 0 {
      var e1 := Append(errors, marks[0].key, marks[0].message);
      ApplyMarksEffect(e1, marks[1..]);
      forall i | 0 <= i < |marks| ensures HasMessages(ApplyMarks(errors, marks), marks[i].key) {
        if i > 0 {
          assert marks[i] == marks[1..][i - 1];
        } else {
          assert HasMessages(e1, marks[0].key);
        }
      }
      forall k | (forall i :: 0 <= i < |marks| ==> marks[i].key != k)
        ensures (k in ApplyMarks(errors, marks) <==> k in errors) &&
          (k in errors ==> ApplyMarks(errors, marks)[k] == errors[k])
      {
        assert marks[0].key != k;
        forall i | 0 <= i < |marks[1..]| ensures marks[1..][i].key != k {
          assert marks[1..][i] == marks[i + 1];
        }
      }
    }
  }

  // ---------------------------------------------------------------------------------------
  // Leaf rules

  const NotPresent := "not_present"
  const NotMatching := "not_matching"

  /** ActiveSupport's `blank?` on a slot value: a Hob is an object and never blank. */
  predicate ValueBlank(v: Value)
  {
    match v
    case Text(s) => BlankString(s)
    case Choice(x) => Blank(x)
    case Sub(_) => false
    case Items(hs) => |hs| == 0
  }

  /** `current_value['value']` for a selector value. */
  function SelectedBlank(v: Value): Result<bool>
  {
    match v
    case Choice(x) => (match Index(x, "value") case Ok(y) => Ok(Blank(y)) case Err(e) => Err(e))
    case Text(s) => (match Index(IStr(s), "value") case Ok(y) => Ok(Blank(y)) case Err(e) => Err(e))
    case Sub(h) => if "value" in h.slots then Ok(ValueBlank(h.slots["value"])) else Err(TypeMismatch)
    case Items(_) => Err(TypeMismatch)
  }

  predicate Required(e: Node)
  {
    Truthy(Opt(e.options, "required"))
  }

  /** The codes one leaf's `validate_value` records for its value; `matches(pattern, s)`
      stands for `Regexp.new(pattern).match(s)`. A radio element has no rules of its own
      and raises ImplementedBySubclassError. */
  function LeafCodes(e: Node, v: Value, matches: (OptVal, string) -> bool): (r: Result<seq<string>>)
    requires e.Field?
    ensures r.Ok? ==> |r.value| <= 1
    ensures r.Ok? && |r.value| == 1 ==> r.value[0] == NotPresent || r.value[0] == NotMatching
    ensures r.Err? <==> (e.fieldKind == RadioKind ||
      (e.fieldKind == StringKind && !(Required(e) && ValueBlank(v)) && Truthy(Opt(e.options, "regexp"))
        && !ValueBlank(v) && !v.Text?) ||
      (e.fieldKind == SelectorKind && Required(e) && SelectedBlank(v).Err?))
  {
    match e.fieldKind
    case StringKind =>
      if Required(e) && ValueBlank(v) then Ok([NotPresent])
      else if Truthy(Opt(e.options, "regexp")) then
        if ValueBlank(v) then Ok([])
        else if !v.Text? then Err(TypeMismatch)
        else if matches(e.options["regexp"], v.s) then Ok([])
        else Ok([NotMatching])
      else Ok([])
    case TextKind =>
      if Required(e) && ValueBlank(v) then Ok([NotPresent]) else Ok([])
    case SelectorKind =>
      if !Required(e) then Ok([])
      else (match SelectedBlank(v) case Err(x) => Err(x) case Ok(b) => Ok(if b then [NotPresent] else []))
    case RadioKind => Err(NotImplemented)
  }

  /** The string rules: a required blank value is not present and its pattern is not
      consulted; a blank value is never reported as not matching; a present value that the
      pattern rejects is reported as not matching. */
  lemma StringRules(e: Node, v: Value, matches: (OptVal, string) -> bool)
    requires e.Field? && e.fieldKind == StringKind
    ensures Required(e) && ValueBlank(v) ==> LeafCodes(e, v, matches) == Ok([NotPresent])
    ensures ValueBlank(v) ==> LeafCodes(e, v, matches).Ok? && NotMatching !in LeafCodes(e, v, matches).value
    ensures v.Text? && !ValueBlank(v) && Truthy(Opt(e.options, "regexp")) ==>
      (LeafCodes(e, v, matches) == Ok([NotMatching]) <==> !matches(e.options["regexp"], v.s))
    ensures !Required(e) && !Truthy(Opt(e.options, "regexp")) ==> LeafCodes(e, v, matches) == Ok([])
  {
  }

  /** The text rule: only a required blank value is reported; there is no pattern. */
  lemma TextRules(e: Node, v: Value, matches: (OptVal, string) -> bool)
    requires e.Field? && e.fieldKind == TextKind
    ensures LeafCodes(e, v, matches) == (if Required(e) && ValueBlank(v) then Ok([NotPresent]) else Ok([]))
    ensures forall other: (OptVal, string) -> bool :: LeafCodes(e, v, matches) == LeafCodes(e, v, other)
  {
  }

  /** The selector rule looks at the chosen `value` only: two choices that agree on it are
      judged alike, whatever their `other`. */
  lemma SelectorRules(e: Node, x: Input, y: Input, matches: (OptVal, string) -> bool)
    requires e.Field? && e.fieldKind == SelectorKind && x.IMap? && y.IMap?
    requires Lookup(x.entries, "value") == Lookup(y.entries, "value")
    ensures LeafCodes(e, Choice(x), matches) == LeafCodes(e, Choice(y), matches)
    ensures LeafCodes(e, Choice(x), matches) ==
      Ok(if Required(e) && Blank(Lookup(x.entries, "value")) then [NotPresent] else [])
  {
  }

  /** A leaf's codes recorded through `mark_error` under the namer's key. The key is only
      computed when there is something to record. */
  function LeafMarks(e: Node, v: Value, namer: DomNamer, matches: (OptVal, string) -> bool): (r: Marks)
    requires e.Field?
    ensures LeafCodes(e, v, matches).Err? ==> r == Marks([], Fail(LeafCodes(e, v, matches).error))
    ensures LeafCodes(e, v, matches) == Ok([]) ==> r == NoMarks
    ensures r.outcome.Done? && |r.marks| > 0 ==>
      ErrorKey(namer.id).Ok? && |r.marks| == 1 && r.marks[0].key == ErrorKey(namer.id).value &&
      r.marks[0].message == "survey.errors." + LeafCodes(e, v, matches).value[0]
  {
    match LeafCodes(e, v, matches)
    case Err(x) => Marks([], Fail(x))
    case Ok(codes) =>
      if |codes| == 0 then NoMarks
      else match ErrorKey(namer.id)
        case Err(x) => Marks([], Fail(x))
        case Ok(k) => Marks([Mark(k, "survey.errors." + codes[0])], Done)
  }

  /** A leaf's validation as the container and multiplier recursion call it: the namer lands
      where the leaf expects its key and the root Hob where it expects the error collection,
      so recording a code asks the Hob for a reader named by a DomNamer, which raises
      (a TypeError). Nothing is ever recorded. */
  function LeafAsWritten(e: Node, v: Value, matches: (OptVal, string) -> bool): (r: Marks)
    requires e.Field?
    ensures r.marks == []
    ensures r.outcome.Done? <==> LeafCodes(e, v, matches) == Ok([])
    ensures LeafCodes(e, v, matches).Err? ==> r.outcome == Fail(LeafCodes(e, v, matches).error)
  {
    match LeafCodes(e, v, matches)
    case Err(x) => Marks([], Fail(x))
    case Ok(codes) => if |codes| == 0 then NoMarks else Marks([], Fail(TypeMismatch))
  }

  /** In survey `s`, the error key of the field `first` is "first". */
  lemma FirstKey(survey: Node, first: Node)
    requires first == Field(StringKind, "first", map["required" := Bool(true)])
    requires survey == Container(SurveyKind, "s", map[], [first])
    ensures ErrorKey(Plus(Start(survey), first).id) == Ok("first")
  {
    assert "id" !in first.options && "id" !in survey.options;
    assert IdOf(survey) == "s" && IdOf(first) == "first";
    var steps := [Into(first)];
    assert steps[1..] == [];
    assert Plus(Start(survey), first) == Walk(Start(survey), steps);
    ErrorKeyOfWalk(Start(survey), steps);
    assert IdSegments(steps) == ["first"];
    assert Join(["first"], ".") == "first";
  }

  /** A required string left blank has the code `not_present`. */
  lemma RequiredBlankCodes(first: Node, matches: (OptVal, string) -> bool)
    requires first == Field(StringKind, "first", map["required" := Bool(true)])
    ensures LeafCodes(first, Text(""), matches) == Ok([NotPresent])
  {
    assert Required(first) && ValueBlank(Text(""));
  }

  /** A leaf with one code records that code's message under its key. */
  lemma LeafMarksOne(e: Node, v: Value, namer: DomNamer, matches: (OptVal, string) -> bool, code: string, k: string)
    requires e.Field? && LeafCodes(e, v, matches) == Ok([code]) && ErrorKey(namer.id) == Ok(k)
    ensures LeafMarks(e, v, namer, matches) == Marks([Mark(k, "survey.errors." + code)], Done)
  {
  }

  /** As written, a leaf with a code to record raises. */
  lemma LeafAsWrittenOne(e: Node, v: Value, matches: (OptVal, string) -> bool, code: string)
    requires e.Field? && LeafCodes(e, v, matches) == Ok([code])
    ensures LeafAsWritten(e, v, matches) == Marks([], Fail(TypeMismatch))
  {
  }

  /** A required string `first` left blank in survey `s`: the as-written call raises and
      records nothing, while recording under the namer's key yields the `not_present`
      message under the key `first`. */
  lemma {:induction false} RequiredBlankAsWritten(first: Node, survey: Node, matches: (OptVal, string) -> bool)
    requires first == Field(StringKind, "first", map["required" := Bool(true)])
    requires survey == Container(SurveyKind, "s", map[], [first])
    ensures LeafAsWritten(first, Text(""), matches) == Marks([], Fail(TypeMismatch))
    ensures LeafMarks(first, Text(""), Plus(Start(survey), first), matches) == Marks([Mark("first", "survey.errors.not_present")], Done)
  {
    RequiredBlankCodes(first, matches);
    FirstKey(survey, first);
    LeafAsWrittenOne(first, Text(""), matches, NotPresent);
    LeafMarksOne(first, Text(""), Plus(Start(survey), first), matches, NotPresent, "first");
    assert "survey.errors." + NotPresent == "survey.errors.not_present";
  }

  // ---------------------------------------------------------------------------------------
  // Container and multiplier recursion

  /** `value.send(name)`: the slot of a Hob; anything else has no such method. */
  function SlotOf(v: Value, name: string): (r: Result<Value>)
    ensures r.Ok? <==> v.Sub? && name in v.hob.slots
  {
    if v.Sub? && name in v.hob.slots then Ok(v.hob.slots[name]) else Err(TypeMismatch)
  }

  /** `e.validate_value(v, namer, root_hob)`. */
  function ValidateValue(e: Node, v: Value, namer: DomNamer, matches: (OptVal, string) -> bool): Marks
    decreases Size(e), 2, 0
  {
    if e.Field? then LeafMarks(e, v, namer, matches)
    else if e.IsMultiplier() then
      if v.Items? then ValidateItems(e, v.items, 0, namer, matches) else Marks([], Fail(TypeMismatch))
    else ValidateElems(e, AcceptedElements(e.elements), v, namer, 0, matches)
  }

  /** Multiplier#validate_value from item `i` on: each item's accepted elements under
      `namer * i`. */
  function ValidateItems(m: Node, hs: seq<HobVal>, i: nat, namer: DomNamer, matches: (OptVal, string) -> bool): Marks
    requires m.Container?
    decreases Size(m), 1, |hs| - i
  {
    if i >= |hs| then NoMarks
    else Then(ValidateElems(m, AcceptedElements(m.elements), Sub(hs[i]), Mult(namer, i), 0, matches),
              ValidateItems(m, hs, i + 1, namer, matches))
  }

  /** Container#validate_value from accepted element `k` on: each with its slot of `v`
      and `namer + elem`. */
  function ValidateElems(owner: Node, acc: seq<Node>, v: Value, namer: DomNamer, k: nat,
                         matches: (OptVal, string) -> bool): Marks
    requires owner.Container? && acc == AcceptedElements(owner.elements)
    decreases Size(owner), 0, |acc| - k
  {
    if k >= |acc| then NoMarks
    else
      AcceptedSmaller(owner.elements);
      assert acc[k] in AcceptedElements(owner.elements);
      match SlotOf(v, acc[k].name)
      case Err(x) => Marks([], Fail(x))
      case Ok(c) => Then(ValidateValue(acc[k], c, Plus(namer, acc[k]), matches),
                         ValidateElems(owner, acc, v, namer, k + 1, matches))
  }

  /** Every mark a walk records carries a message of the form `survey.errors.<code>`. */
  lemma {:induction false} MarksAreMessages(e: Node, v: Value, namer: DomNamer, matches: (OptVal, string) -> bool)
    ensures forall i :: 0 <= i < |ValidateValue(e, v, namer, matches).marks| ==>
      ValidateValue(e, v, namer, matches).marks[i].message in
        {"survey.errors." + NotPresent, "survey.errors." + NotMatching}
    decreases Size(e), 2, 0
  {
    if e.Field? {
    } else if e.IsMultiplier() {
      if v.Items? {
        ItemsAreMessages(e, v.items, 0, namer, matches);
      }
    } else {
      ElemsAreMessages(e, AcceptedElements(e.elements), v, namer, 0, matches);
    }
  }

  lemma {:induction false} ItemsAreMessages(m: Node, hs: seq<HobVal>, i: nat, namer: DomNamer, matches: (OptVal, string) -> bool)
    requires m.Container?
    ensures forall j :: 0 <= j < |ValidateItems(m, hs, i, namer, matches).marks| ==>
      ValidateItems(m, hs, i, namer, matches).marks[j].message in
        {"survey.errors." + NotPresent, "survey.errors." + NotMatching}
    decreases Size(m), 1, |hs| - i
  {
    if i < |hs| {
      ElemsAreMessages(m, AcceptedElements(m.elements), Sub(hs[i]), Mult(namer, i), 0, matches);
      ItemsAreMessages(m, hs, i + 1, namer, matches);
    }
  }

  lemma {:induction false} ElemsAreMessages(owner: Node, acc: seq<Node>, v: Value, namer: DomNamer, k: nat,
                                            matches: (OptVal, string) -> bool)
    requires owner.Container? && acc == AcceptedElements(owner.elements)
    ensures forall j :: 0 <= j < |ValidateElems(owner, acc, v, namer, k, matches).marks| ==>
      ValidateElems(owner, acc, v, namer, k, matches).marks[j].message in
        {"survey.errors." + NotPresent, "survey.errors." + NotMatching}
    decreases Size(owner), 0, |acc| - k
  {
    if k < |acc| {
      AcceptedSmaller(owner.elements);
      assert acc[k] in AcceptedElements(owner.elements);
      if SlotOf(v, acc[k].name).Ok? {
        MarksAreMessages(acc[k], SlotOf(v, acc[k].name).value, Plus(namer, acc[k]), matches);
        ElemsAreMessages(owner, acc, v, namer, k + 1, matches);
      }
    }
  }
}
