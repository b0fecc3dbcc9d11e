/** Containers (lib/surveyor/container.rb, section.rb, survey.rb#clone): Section transparency
    through the accepted elements, name lookup, dotted-path lookup and structural clones. */
module Containers {
  import opened Strings
  import opened Values
  import opened Elements

  /** `accepted_elements`: the identifiable children in order, each Section child replaced
      by its own accepted elements, recursively. */
  function AcceptedElements(es: seq<Node>): (r: seq<Node>)
    ensures forall i :: 0 <= i < |r| ==> Identifiable(r[i])
  {
    if |es| == 0 then []
    else (if Identifiable(es[0]) then [es[0]] else AcceptedElements(es[0].elements)) + AcceptedElements(es[1..])
  }

  /** Accepted elements are smaller than the list they come from. */
  lemma {:induction false} AcceptedSmaller(es: seq<Node>)
    ensures forall x :: x in AcceptedElements(es) ==> Size(x) <= SizeAll(es)
  {
    if |es| > 0 {
      AcceptedSmaller(es[1..]);
      if !Identifiable(es[0]) {
        AcceptedSmaller(es[0].elements);
      }
      assert AcceptedElements(es) == (if Identifiable(es[0]) then [es[0]] else AcceptedElements(es[0].elements)) + AcceptedElements(es[1..]);
    }
  }

  /** `accepted_elements` distributes over concatenation: the accepted elements of a list are
      those of its parts, in order. */
  lemma {:induction false} AcceptedAppend(a: seq<Node>, b: seq<Node>)
    ensures AcceptedElements(a + b) == AcceptedElements(a) + AcceptedElements(b)
    decreases |a|
  {
    if |a| == 0 {
      assert a + b == b;
    } else {
      AcceptedAppend(a[1..], b);
      assert (a + b)[0] == a[0];
      assert (a + b)[1..] == a[1..] + b;
      AppendAssoc(if Identifiable(a[0]) then [a[0]] else AcceptedElements(a[0].elements),
                  AcceptedElements(a[1..]), AcceptedElements(b));
    }
  }

  /** Without Sections the accepted elements are the children themselves, in order; a Section
      contributes exactly its own accepted elements in its place. */
  lemma {:induction false} AcceptedFlattens(es: seq<Node>, s: Node)
    requires s.IsSection()
    ensures (forall i :: 0 <= i < |es| ==> Identifiable(es[i])) ==> AcceptedElements(es) == es
    ensures AcceptedElements([s]) == AcceptedElements(s.elements)
    decreases |es|
  {
    assert [s][1..] == [];
    assert AcceptedElements(s.elements) + [] == AcceptedElements(s.elements);
    if |es| > 0 {
      AcceptedFlattens(es[1..], s);
      assert [es[0]] + es[1..] == es;
    }
  }

  function AcceptedNames(es: seq<Node>): seq<string>
  {
    Names(AcceptedElements(es))
  }

  /** A node named `name` is a child, or is reachable from a child through Sections. */
  predicate Reaches(es: seq<Node>, name: string)
  {
    |es| > 0 && (es[0].name == name || (es[0].IsSection() && Reaches(es[0].elements, name)) || Reaches(es[1..], name))
  }

  /** `accepted_element_at(name)`: scans the children in order; a child with that name is
      returned, and a Section child is searched before moving on to the next child. */
  function AcceptedElementAt(es: seq<Node>, name: string): (r: Option<Node>)
  {
    if |es| == 0 then None
    else if es[0].name == name then Some(es[0])
    else if es[0].IsSection() && AcceptedElementAt(es[0].elements, name).Some? then AcceptedElementAt(es[0].elements, name)
    else AcceptedElementAt(es[1..], name)
  }

  /** What `accepted_element_at` finds has the name asked for; it finds something exactly when
      such a node is reachable through Sections; and an identifiable result is one of the
      accepted elements. */
  lemma {:induction false} AcceptedElementAtSound(es: seq<Node>, name: string)
    ensures AcceptedElementAt(es, name).Some? ==> AcceptedElementAt(es, name).value.name == name
    ensures AcceptedElementAt(es, name).Some? <==> Reaches(es, name)
    ensures AcceptedElementAt(es, name).Some? && Identifiable(AcceptedElementAt(es, name).value) ==>
      AcceptedElementAt(es, name).value in AcceptedElements(es)
  {
    if |es| > 0 {
      AcceptedElementAtSound(es[1..], name);
      if es[0].IsSection() {
        AcceptedElementAtSound(es[0].elements, name);
      }
    }
  }

  /** The names `accepted_element_at` compares, in the order it meets them: each child's
      name, followed, for a Section, by the names inside it. */
  function SearchedNames(es: seq<Node>): seq<string>
  {
    if |es| == 0 then []
    else [es[0].name] + (if es[0].IsSection() then SearchedNames(es[0].elements) else []) + SearchedNames(es[1..])
  }

  predicate Unique(names: seq<string>)
  {
    forall i, j :: 0 <= i < j < |names| ==> names[i] != names[j]
  }

  lemma UniqueSplit(a: seq<string>, b: seq<string>)
    requires Unique(a + b)
    ensures Unique(a) && Unique(b)
    ensures forall n :: n in a ==> n !in b
  {
    assert forall i :: 0 <= i < |a| ==> (a + b)[i] == a[i];
    assert forall j :: 0 <= j < |b| ==> (a + b)[|a| + j] == b[j];
  }

  /** A name is reachable through Sections exactly when the search compares it. */
  lemma {:induction false} ReachesSearched(es: seq<Node>, n: string)
    ensures Reaches(es, n) <==> n in SearchedNames(es)
  {
    if |es| > 0 {
      ReachesSearched(es[1..], n);
      if es[0].IsSection() {
        ReachesSearched(es[0].elements, n);
      }
    }
  }

  /** Every accepted element's name is compared by the search. */
  lemma {:induction false} AcceptedSearched(es: seq<Node>, k: nat)
    requires k < |AcceptedElements(es)|
    ensures AcceptedElements(es)[k].name in SearchedNames(es)
  {
    var a0 := if Identifiable(es[0]) then [es[0]] else AcceptedElements(es[0].elements);
    assert AcceptedElements(es) == a0 + AcceptedElements(es[1..]);
    if k >= |a0| {
      AcceptedSearched(es[1..], k - |a0|);
    } else if !Identifiable(es[0]) {
      AcceptedSearched(es[0].elements, k);
    }
  }

  /** When no name is met twice, every accepted element is what `accepted_element_at` finds
      for its name (the converse of AcceptedElementAtSound). */
  lemma {:induction false} AcceptedElementAtFinds(es: seq<Node>, k: nat)
    requires k < |AcceptedElements(es)|
    requires Unique(SearchedNames(es))
    ensures AcceptedElementAt(es, AcceptedElements(es)[k].name) == Some(AcceptedElements(es)[k])
    decreases es, 1
  {
    var a0 := if Identifiable(es[0]) then [es[0]] else AcceptedElements(es[0].elements);
    var s0 := if es[0].IsSection() then SearchedNames(es[0].elements) else [];
    assert AcceptedElements(es) == a0 + AcceptedElements(es[1..]);
    HeadSearched(es);
    if k < |a0| {
      if !Identifiable(es[0]) {
        FindsInSection(es, k, s0);
      }
    } else {
      FindsInRest(es, k - |a0|, s0);
    }
  }

  /** Distinct examined names split into the first child's name, the names examined inside it
      when it is a Section, and the rest's names: each part distinct, and no name in two parts. */
  lemma HeadSearched(es: seq<Node>)
    requires |es| > 0 && Unique(SearchedNames(es))
    ensures var s0 := if es[0].IsSection() then SearchedNames(es[0].elements) else [];
      var s1 := SearchedNames(es[1..]);
      Unique(s0) && Unique(s1) && es[0].name !in s0 && es[0].name !in s1 &&
      forall n :: n in s0 ==> n !in s1
  {
    var s0 := if es[0].IsSection() then SearchedNames(es[0].elements) else [];
    var s1 := SearchedNames(es[1..]);
    AppendAssoc([es[0].name], s0, s1);
    UniqueSplit([es[0].name], s0 + s1);
    UniqueSplit(s0, s1);
    assert es[0].name !in s0 && es[0].name !in s1 by {
      assert forall n :: n in s0 || n in s1 ==> n in s0 + s1;
    }
  }

  lemma FindsInSection(es: seq<Node>, k: nat, s0: seq<string>)
    requires |es| > 0 && es[0].IsSection() && k < |AcceptedElements(es[0].elements)|
    requires s0 == SearchedNames(es[0].elements) && Unique(s0) && es[0].name !in s0
    requires AcceptedElements(es)[k] == AcceptedElements(es[0].elements)[k]
    ensures AcceptedElementAt(es, AcceptedElements(es)[k].name) == Some(AcceptedElements(es)[k])
    decreases es, 0
  {
    AcceptedSearched(es[0].elements, k);
    AcceptedElementAtFinds(es[0].elements, k);
  }

  lemma FindsInRest(es: seq<Node>, k: nat, s0: seq<string>)
    requires |es| > 0 && k < |AcceptedElements(es[1..])|
    requires s0 == (if es[0].IsSection() then SearchedNames(es[0].elements) else [])
    requires Unique(SearchedNames(es[1..]))
    requires es[0].name !in SearchedNames(es[1..])
    requires forall n :: n in s0 ==> n !in SearchedNames(es[1..])
    ensures var e := AcceptedElements(es[1..])[k]; AcceptedElementAt(es, e.name) == Some(e)
    decreases es, 0
  {
    var e := AcceptedElements(es[1..])[k];
    AcceptedSearched(es[1..], k);
    AcceptedElementAtFinds(es[1..], k);
    if es[0].IsSection() {
      ReachesSearched(es[0].elements, e.name);
      AcceptedElementAtSound(es[0].elements, e.name);
    }
  }

  /** Without Sections in the way, a child with the name is found, and it is the first such child. */
  lemma {:induction false} AcceptedElementAtDirect(es: seq<Node>, name: string, k: nat)
    requires k < |es| && es[k].name == name
    requires forall j :: 0 <= j < k ==> es[j].name != name && !(es[j].IsSection() && Reaches(es[j].elements, name))
    ensures AcceptedElementAt(es, name) == Some(es[k])
  {
    if k > 0 {
      if es[0].IsSection() {
        AcceptedElementAtSound(es[0].elements, name);
      }
      AcceptedElementAtDirect(es[1..], name, k - 1);
    }
  }

  /** The first child with a given name (`elements.detect`). */
  function FirstNamed(es: seq<Node>, name: string): (r: Option<Node>)
    ensures r.Some? ==> r.value in es && r.value.name == name
    ensures r.None? ==> forall i :: 0 <= i < |es| ==> es[i].name != name
  {
    if |es| == 0 then None else if es[0].name == name then Some(es[0]) else FirstNamed(es[1..], name)
  }

  /** `find` on a list of path segments: an empty path finds the node itself, a missing
      segment gives nil, and looking inside a leaf raises (leaves have no `find`). */
  function FindPath(n: Node, segs: seq<string>): Result<Option<Node>>
    decreases |segs|
  {
    if n.Field? then Err(TypeMismatch)
    else if |segs| == 0 then Ok(Some(n))
    else match FirstNamed(n.elements, segs[0])
      case None => Ok(None)
      case Some(child) => if |segs| == 1 then Ok(Some(child)) else FindPath(child, segs[1..])
  }

  /** `find(path)`: the path is split on dots, Ruby-style (trailing empty segments dropped). */
  function Find(n: Node, path: string): Result<Option<Node>>
  {
    FindPath(n, RubySplit(path, '.'))
  }

  /** `m` is reached from `n` by following direct children named by `segs`. */
  predicate OnPath(n: Node, segs: seq<string>, m: Node)
    decreases |segs|
  {
    if |segs| == 0 then m == n
    else n.Container? && exists i :: 0 <= i < |n.elements| && n.elements[i].name == segs[0] && OnPath(n.elements[i], segs[1..], m)
  }

  /** A found node lies on the path through direct children (Sections are not skipped), and a
      non-empty path ends at a node with the last segment's name. */
  lemma {:induction false} FindPathSound(n: Node, segs: seq<string>)
    ensures FindPath(n, segs).Ok? && FindPath(n, segs).value.Some? ==> OnPath(n, segs, FindPath(n, segs).value.value)
    ensures FindPath(n, segs).Ok? && FindPath(n, segs).value.Some? && |segs| > 0 ==>
      FindPath(n, segs).value.value.name == segs[|segs| - 1]
    decreases |segs|
  {
    if n.Container? && |segs| > 0 {
      var c := FirstNamed(n.elements, segs[0]);
      if c.Some? {
        var i :| 0 <= i < |n.elements| && n.elements[i] == c.value;
        if |segs| == 1 {
          assert OnPath(c.value, segs[1..], c.value);
        } else {
          FindPathSound(c.value, segs[1..]);
        }
      }
    }
  }

  /** `find('')` is the container itself. */
  lemma FindEmpty(n: Node)
    requires n.Container?
    ensures Find(n, "") == Ok(Some(n))
  {
    assert Split("", '.') == [""];
  }

  /** A dotted path of non-empty, dot-free segments is found segment by segment. */
  lemma FindDotted(n: Node, segs: seq<string>)
    requires |segs| > 0 && segs[|segs| - 1] != ""
    requires forall i :: 0 <= i < |segs| ==> '.' !in segs[i]
    ensures Find(n, Join(segs, ".")) == FindPath(n, segs)
  {
    SplitJoin(segs, '.');
    assert Split(Join(segs, "."), '.') == segs;
  }

  // ---------------------------------------------------------------------------
  // Section

  /** Section#base_value: a Section never has a value. */
  function SectionBaseValue(s: Node): (r: Result<Input>)
    requires s.IsSection()
    ensures r == Err(NoBaseValue)
  {
    Err(NoBaseValue)
  }

  // ---------------------------------------------------------------------------
  // Clones

  /** A clone succeeds unless a Survey would be cloned under a parent. */
  predicate Clonable(n: Node, hasParent: bool)
  {
    if n.IsSurvey() && hasParent then false
    else n.Field? || AllClonable(n.elements)
  }

  predicate AllClonable(es: seq<Node>)
  {
    forall i :: 0 <= i < |es| ==> Clonable(es[i], true)
  }

  /** `clone(parent)` of any element: a leaf is rebuilt with the same kind, name and options
      (element.rb); a Survey refuses a parent (survey.rb); other containers copy their options
      and clone every child, in order, under the new node (container.rb). The clone equals the
      original; the original is a value and stays as it was. */
  method Clone(n: Node, hasParent: bool) returns (r: Result<Node>)
    ensures r.Ok? <==> Clonable(n, hasParent)
    ensures r.Ok? ==> r.value == n
    ensures r.Err? ==> r.error == WrongParent
    decreases n, 1
  {
    match n {
      case Field(kind, name, options) =>
        r := Ok(Field(kind, name, options));
      case Container(kind, name, options, es) =>
        if kind == SurveyKind && hasParent {
          return Err(WrongParent);
        }
        var cloned;
        cloned := CloneChildren(n, es);
        if cloned.Err? {
          return Err(cloned.error);
        }
        r := Ok(Container(kind, name, options, cloned.value));
    }
  }

  /** The `elements.each { result.elements << elem.clone(result) }` loop. */
  method CloneChildren(ghost parent: Node, es: seq<Node>) returns (r: Result<seq<Node>>)
    requires parent.Container? && es == parent.elements
    ensures r.Ok? <==> AllClonable(es)
    ensures r.Ok? ==> r.value == es
    ensures r.Err? ==> r.error == WrongParent
    decreases parent, 0
  {
    var out: seq<Node> := [];
    var i := 0;
    while i < |es|
      invariant 0 <= i <= |es|
      invariant out == es[..i]
      invariant forall j :: 0 <= j < i ==> Clonable(es[j], true)
    {
      var c := Clone(es[i], true);
      if c.Err? {
        return Err(c.error);
      }
      out := out + [c.value];
      i := i + 1;
    }
    assert es[..|es|] == es;
    r := Ok(out);
  }
}
