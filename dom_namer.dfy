/** DomNamer (lib/surveyor/dom_namer.rb): an immutable pair of a bracketed form-field name
    and a colon-joined DOM id, extended one element or one item index at a time. */
module DomNamers {
  import opened Strings
  import opened Values
  import opened Elements

  datatype DomNamer = DomNamer(name: string, id: string)

  /** The namer of a root element: its name, and its `:id` option or else its name. */
  function Start(e: Node): (d: DomNamer)
    ensures d.name == e.name && d.id == IdOf(e)
  {
    DomNamer(e.name, IdOf(e))
  }

  /** `plus(e)` (also `+`): name `name[e.name]`, id `id:<e's id or name>`. */
  function Plus(d: DomNamer, e: Node): (r: DomNamer)
  {
    DomNamer(d.name + "[" + e.name + "]", d.id + ":" + IdOf(e))
  }

  /** `mult(i)` (also `*`): name `name[]`, id `id:i`. */
  function Mult(d: DomNamer, i: nat): (r: DomNamer)
  {
    DomNamer(d.name + "[]", d.id + ":" + NatToString(i))
  }

  /** One navigation step: into an element, or into an item of a multiplier. */
  datatype Step = Into(e: Node) | Item(index: nat)

  function Apply(d: DomNamer, s: Step): DomNamer
  {
    match s
    case Into(e) => Plus(d, e)
    case Item(i) => Mult(d, i)
  }

  /** The namer after a series of steps. */
  function Walk(d: DomNamer, steps: seq<Step>): DomNamer
    decreases |steps|
  {
    if |steps| == 0 then d else Walk(Apply(d, steps[0]), steps[1..])
  }

  /** The id segment and the name segment a step contributes. */
  function IdSegment(s: Step): string
  {
    match s
    case Into(e) => IdOf(e)
    case Item(i) => NatToString(i)
  }

  function NameSegment(s: Step): string
  {
    match s
    case Into(e) => "[" + e.name + "]"
    case Item(_) => "[]"
  }

  function IdSegments(steps: seq<Step>): (r: seq<string>)
    ensures |r| == |steps|
    ensures forall i :: 0 <= i < |steps| ==> r[i] == IdSegment(steps[i])
  {
    seq(|steps|, i requires 0 <= i < |steps| => IdSegment(steps[i]))
  }

  function Concat(parts: seq<string>): string
  {
    if |parts| == 0 then "" else parts[0] + Concat(parts[1..])
  }

  function NameSegments(steps: seq<Step>): (r: seq<string>)
    ensures |r| == |steps|
    ensures forall i :: 0 <= i < |steps| ==> r[i] == NameSegment(steps[i])
  {
    seq(|steps|, i requires 0 <= i < |steps| => NameSegment(steps[i]))
  }

  /** Appending a non-empty suffix strictly extends a string. */
  lemma Extends(a: string, t: string)
    requires |t| > 0
    ensures |a| < |a + t| && (a + t)[..|a|] == a && (a + t)[|a|] == t[0]
  {
  }

  /** Both steps give a new namer whose name and id strictly extend the receiver's, the id
      continuing with a ':'. */
  lemma StepExtends(d: DomNamer, s: Step)
    ensures |d.name| < |Apply(d, s).name| && Apply(d, s).name[..|d.name|] == d.name
    ensures |d.id| < |Apply(d, s).id| && Apply(d, s).id[..|d.id|] == d.id
    ensures Apply(d, s).id[|d.id|] == ':'
  {
    var seg := IdSegment(s);
    var r := Apply(d, s);
    assert r.id == d.id + (":" + seg);
    assert r.name == d.name + NameSegment(s);
    Extends(d.id, ":" + seg);
    Extends(d.name, NameSegment(s));
  }

  lemma ApplyParts(d: DomNamer, s: Step)
    ensures Apply(d, s).id == d.id + ":" + IdSegment(s)
    ensures Apply(d, s).name == d.name + NameSegment(s)
  {
    match s {
      case Into(e) =>
        assert Plus(d, e).name == d.name + "[" + e.name + "]";
      case Item(i) =>
    }
  }

  /** After a walk the id is the starting id and the step segments joined with ':'. */
  lemma {:induction false} WalkId(d: DomNamer, steps: seq<Step>)
    ensures Walk(d, steps).id == Join([d.id] + IdSegments(steps), ":")
    decreases |steps|
  {
    if |steps| == 0 {
      assert [d.id] + IdSegments(steps) == [d.id];
    } else {
      WalkId(Apply(d, steps[0]), steps[1..]);
      WalkIdStep(d, steps);
    }
  }

  lemma WalkIdStep(d: DomNamer, steps: seq<Step>)
    requires |steps| > 0
    requires Walk(Apply(d, steps[0]), steps[1..]).id == Join([Apply(d, steps[0]).id] + IdSegments(steps[1..]), ":")
    ensures Walk(d, steps).id == Join([d.id] + IdSegments(steps), ":")
  {
    var segs := IdSegments(steps);
    assert IdSegments(steps[1..]) == segs[1..];
    ApplyParts(d, steps[0]);
    JoinPrefix(d.id, segs[0], segs[1..], ":");
    assert [d.id] + segs == [d.id, segs[0]] + segs[1..];
  }

  /** After a walk the name is the starting name followed by each step's bracketed segment. */
  lemma {:induction false} WalkName(d: DomNamer, steps: seq<Step>)
    ensures Walk(d, steps).name == d.name + Concat(NameSegments(steps))
    decreases |steps|
  {
    if |steps| == 0 {
      assert NameSegments(steps) == [];
    } else {
      var d1 := Apply(d, steps[0]);
      var names := NameSegments(steps);
      WalkName(d1, steps[1..]);
      assert NameSegments(steps[1..]) == names[1..];
      ApplyParts(d, steps[0]);
      calc {
        Walk(d, steps).name;
        Walk(d1, steps[1..]).name;
        d.name + names[0] + Concat(names[1..]);
        d.name + Concat(names);
      }
    }
  }

  /** Merging the first two parts of a join. */
  lemma JoinPrefix(a: string, b: string, rest: seq<string>, sep: string)
    ensures Join([a + sep + b] + rest, sep) == Join([a, b] + rest, sep)
  {
    if |rest| == 0 {
      assert [a, b] + rest == [a, b];
      assert [a, b][1..] == [b];
      assert [a + sep + b] + rest == [a + sep + b];
    } else {
      assert ([a, b] + rest)[1..] == [b] + rest;
      assert ([a + sep + b] + rest)[1..] == rest;
    }
  }
}
