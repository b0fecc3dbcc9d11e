/** The schema tree (lib/surveyor/element.rb and its subclasses): every node has a name
    and an options map; containers also hold an ordered list of child elements. The
    parent back-reference of the Ruby objects is replaced by `Located`, a node together
    with the chain of its ancestors from the parentless root down to its parent. */
module Elements {
  import opened Strings
  import opened Values

  /** The leaf classes: StringElement, TextElement, SelectorElement and RadioElement. */
  datatype FieldKind = StringKind | TextKind | SelectorKind | RadioKind

  /** The container classes: Section, Sequence, Multiplier and Survey. */
  datatype ContainerKind = SectionKind | SequenceKind | MultiplierKind | SurveyKind

  datatype Node =
    | Field(fieldKind: FieldKind, name: string, options: Options)
    | Container(containerKind: ContainerKind, name: string, options: Options, elements: seq<Node>)
  {
    predicate IsSection() { Container? && containerKind == SectionKind }
    predicate IsMultiplier() { Container? && containerKind == MultiplierKind }
    predicate IsSurvey() { Container? && containerKind == SurveyKind }
    /** `Surveyor::Sequence === node`: Survey is a subclass of Sequence. */
    predicate IsSequenceLike() { Container? && (containerKind == SequenceKind || containerKind == SurveyKind) }
  }

  /** The number of nodes in a tree; a measure for recursions that reach descendants. */
  function Size(n: Node): (r: nat)
    ensures r >= 1
    ensures n.Container? ==> r == 1 + SizeAll(n.elements)
  {
    match n
    case Field(_, _, _) => 1
    case Container(_, _, _, es) => 1 + SizeAll(es)
  }

  function SizeAll(es: seq<Node>): nat
  {
    if |es| == 0 then 0 else Size(es[0]) + SizeAll(es[1..])
  }

  /** The children of a node; a leaf has none. */
  function Children(n: Node): seq<Node>
  {
    if n.Container? then n.elements else []
  }

  /** The last segment of the Ruby class name. */
  function ClassName(n: Node): string
  {
    match n
    case Field(StringKind, _, _) => "StringElement"
    case Field(TextKind, _, _) => "TextElement"
    case Field(SelectorKind, _, _) => "SelectorElement"
    case Field(RadioKind, _, _) => "RadioElement"
    case Container(SectionKind, _, _, _) => "Section"
    case Container(SequenceKind, _, _, _) => "Sequence"
    case Container(MultiplierKind, _, _, _) => "Multiplier"
    case Container(SurveyKind, _, _, _) => "Survey"
  }

  /** `type`: the lowercased class name with a trailing "element" removed. */
  function TypeName(n: Node): string
  {
    DropElementSuffix(Downcase(ClassName(n)))
  }

  function DropElementSuffix(s: string): string
  {
    if |s| >= 7 && s[|s| - 7..] == "element" then s[..|s| - 7] else s
  }

  /** `String#downcase` of one class name, character by character. */
  lemma DowncaseName(s: string, t: string)
    requires |s| == |t| && forall i :: 0 <= i < |s| ==> LowerChar(s[i]) == t[i]
    ensures Downcase(s) == t
  {
  }

  /** The type name of each class: the lowercased class name, without the "element" suffix. */
  function KindTypeName(n: Node): string
  {
    match n
    case Field(StringKind, _, _) => "string"
    case Field(TextKind, _, _) => "text"
    case Field(SelectorKind, _, _) => "selector"
    case Field(RadioKind, _, _) => "radio"
    case Container(SectionKind, _, _, _) => "section"
    case Container(SequenceKind, _, _, _) => "sequence"
    case Container(MultiplierKind, _, _, _) => "multiplier"
    case Container(SurveyKind, _, _, _) => "survey"
  }

  /** `type` computes, from the class name, the table above; so only a Multiplier has type "multiplier". */
  lemma TypeNames(n: Node)
    ensures TypeName(n) == KindTypeName(n)
    ensures TypeName(n) == "multiplier" <==> n.IsMultiplier()
  {
    match n
    case Field(StringKind, _, _) => DropSuffixStringElement();
    case Field(TextKind, _, _) => DropSuffixTextElement();
    case Field(SelectorKind, _, _) => DropSuffixSelectorElement();
    case Field(RadioKind, _, _) => DropSuffixRadioElement();
    case Container(SectionKind, _, _, _) => DropSuffixSection();
    case Container(SequenceKind, _, _, _) => DropSuffixSequence();
    case Container(MultiplierKind, _, _, _) => DropSuffixMultiplier();
    case Container(SurveyKind, _, _, _) => DropSuffixSurvey();
  }

  lemma DropSuffixStringElement()
    ensures DropElementSuffix(Downcase("StringElement")) == "string"
  {
    var s, d := "StringElement", "stringelement";
    assert s == [s[0], s[1], s[2], s[3], s[4], s[5], s[6], s[7], s[8], s[9], s[10], s[11], s[12]];
    assert d == [d[0], d[1], d[2], d[3], d[4], d[5], d[6], d[7], d[8], d[9], d[10], d[11], d[12]];
    DowncaseName(s, d);
    assert d[6..] == [d[6], d[7], d[8], d[9], d[10], d[11], d[12]] == "element";
    assert d[..6] == [d[0], d[1], d[2], d[3], d[4], d[5]] == "string";
  }

  lemma DropSuffixTextElement()
    ensures DropElementSuffix(Downcase("TextElement")) == "text"
  {
    var s, d := "TextElement", "textelement";
    assert s == [s[0], s[1], s[2], s[3], s[4], s[5], s[6], s[7], s[8], s[9], s[10]];
    assert d == [d[0], d[1], d[2], d[3], d[4], d[5], d[6], d[7], d[8], d[9], d[10]];
    DowncaseName(s, d);
    assert d[4..] == [d[4], d[5], d[6], d[7], d[8], d[9], d[10]] == "element";
    assert d[..4] == [d[0], d[1], d[2], d[3]] == "text";
  }

  lemma DropSuffixSelectorElement()
    ensures DropElementSuffix(Downcase("SelectorElement")) == "selector"
  {
    var s, d := "SelectorElement", "selectorelement";
    assert s == [s[0], s[1], s[2], s[3], s[4], s[5], s[6], s[7], s[8], s[9], s[10], s[11], s[12], s[13], s[14]];
    assert d == [d[0], d[1], d[2], d[3], d[4], d[5], d[6], d[7], d[8], d[9], d[10], d[11], d[12], d[13], d[14]];
    DowncaseName(s, d);
    assert d[8..] == [d[8], d[9], d[10], d[11], d[12], d[13], d[14]] == "element";
    assert d[..8] == [d[0], d[1], d[2], d[3], d[4], d[5], d[6], d[7]] == "selector";
  }

  lemma DropSuffixRadioElement()
    ensures DropElementSuffix(Downcase("RadioElement")) == "radio"
  {
    var s, d := "RadioElement", "radioelement";
    assert s == [s[0], s[1], s[2], s[3], s[4], s[5], s[6], s[7], s[8], s[9], s[10], s[11]];
    assert d == [d[0], d[1], d[2], d[3], d[4], d[5], d[6], d[7], d[8], d[9], d[10], d[11]];
    DowncaseName(s, d);
    assert d[5..] == [d[5], d[6], d[7], d[8], d[9], d[10], d[11]] == "element";
    assert d[..5] == [d[0], d[1], d[2], d[3], d[4]] == "radio";
  }

  lemma DropSuffixSection()
    ensures DropElementSuffix(Downcase("Section")) == "section"
  {
    var s, d := "Section", "section";
    assert s == [s[0], s[1], s[2], s[3], s[4], s[5], s[6]];
    assert d == [d[0], d[1], d[2], d[3], d[4], d[5], d[6]];
    DowncaseName(s, d);
    assert d[0..][0] != 'e';
  }

  lemma DropSuffixSequence()
    ensures DropElementSuffix(Downcase("Sequence")) == "sequence"
  {
    var s, d := "Sequence", "sequence";
    assert s == [s[0], s[1], s[2], s[3], s[4], s[5], s[6], s[7]];
    assert d == [d[0], d[1], d[2], d[3], d[4], d[5], d[6], d[7]];
    DowncaseName(s, d);
    assert d[1..][1] != 'l';
  }

  lemma DropSuffixMultiplier()
    ensures DropElementSuffix(Downcase("Multiplier")) == "multiplier"
  {
    var s, d := "Multiplier", "multiplier";
    assert s == [s[0], s[1], s[2], s[3], s[4], s[5], s[6], s[7], s[8], s[9]];
    assert d == [d[0], d[1], d[2], d[3], d[4], d[5], d[6], d[7], d[8], d[9]];
    DowncaseName(s, d);
    assert d[3..][0] != 'e';
  }

  lemma DropSuffixSurvey()
    ensures DropElementSuffix(Downcase("Survey")) == "survey"
  {
    var s, d := "Survey", "survey";
    assert s == [s[0], s[1], s[2], s[3], s[4], s[5]];
    assert d == [d[0], d[1], d[2], d[3], d[4], d[5]];
    DowncaseName(s, d);
  }

  /** `identifiable?`: every element but a Section (whose fields belong to its container). */
  predicate Identifiable(n: Node)
  {
    !n.IsSection()
  }

  /** `elem.options[:id] || elem.name`, the id segment an element contributes to DOM ids. */
  function IdOf(n: Node): (r: string)
    ensures Truthy(Opt(n.options, "id")) ==> r == ToS(n.options["id"])
    ensures !Truthy(Opt(n.options, "id")) ==> r == n.name
  {
    var id := Opt(n.options, "id");
    if Truthy(id) then ToS(id) else n.name
  }

  // ---------------------------------------------------------------------------
  // Position in the tree

  /** A node in its tree: `ancestors[0]` is the parentless root, the last ancestor is the parent. */
  datatype Located = Located(ancestors: seq<Node>, node: Node)

  /** Each ancestor is a container holding the next one (or the node itself) as a child. */
  ghost predicate WellLocated(l: Located)
  {
    && (forall i :: 0 <= i < |l.ancestors| ==> l.ancestors[i].Container?)
    && (forall i :: 0 <= i < |l.ancestors| - 1 ==> l.ancestors[i + 1] in l.ancestors[i].elements)
    && (|l.ancestors| > 0 ==> l.node in l.ancestors[|l.ancestors| - 1].elements)
  }

  function Parent(l: Located): (p: Located)
    requires |l.ancestors| > 0
    ensures |p.ancestors| == |l.ancestors| - 1
  {
    Located(l.ancestors[..|l.ancestors| - 1], l.ancestors[|l.ancestors| - 1])
  }

  /** A child of a located container, located one level deeper. */
  function Child(l: Located, i: nat): (c: Located)
    requires l.node.Container? && i < |l.node.elements|
    ensures |c.ancestors| > 0 && Parent(c) == l && c.node == l.node.elements[i]
    ensures WellLocated(l) ==> WellLocated(c)
  {
    Located(l.ancestors + [l.node], l.node.elements[i])
  }

  function Names(nodes: seq<Node>): (r: seq<string>)
    ensures |r| == |nodes|
    ensures forall i :: 0 <= i < |nodes| ==> r[i] == nodes[i].name
  {
    seq(|nodes|, i requires 0 <= i < |nodes| => nodes[i].name)
  }

  /** `path_name`: the parent's path name, a dot and the name; a parentless node's name. */
  function PathName(l: Located): string
    decreases |l.ancestors|
  {
    if |l.ancestors| == 0 then l.node.name else PathName(Parent(l)) + "." + l.node.name
  }

  /** The path name is the names from the root down to the node, joined with dots,
      e.g. `nested.tennis.tournaments.grand_slam.wimbledon`. */
  lemma {:induction false} PathNameIsJoin(l: Located)
    ensures PathName(l) == Join(Names(l.ancestors + [l.node]), ".")
    decreases |l.ancestors|
  {
    if |l.ancestors| == 0 {
      assert Names([l.node]) == [l.node.name];
    } else {
      var p := Parent(l);
      PathNameIsJoin(p);
      assert p.ancestors + [p.node] == l.ancestors;
      assert Names(l.ancestors + [l.node]) == Names(l.ancestors) + [l.node.name];
      JoinSnoc(Names(l.ancestors), ".", l.node.name);
    }
  }

  /** `survey`: follows the parent links to the root. */
  function SurveyOf(l: Located): (r: Located)
    ensures r.ancestors == []
    ensures r.node == if |l.ancestors| == 0 then l.node else l.ancestors[0]
    decreases |l.ancestors|
  {
    if |l.ancestors| == 0 then l else SurveyOf(Parent(l))
  }

  /** `readonly?`: the node's own truthy `:readonly` option, else the parent's answer, else false. */
  function ReadOnly(l: Located): OptVal
    decreases |l.ancestors|
  {
    var own := Opt(l.node.options, "readonly");
    if Truthy(own) then own
    else if |l.ancestors| > 0 then ReadOnly(Parent(l))
    else Bool(false)
  }

  function ReadOnlyOption(n: Node): OptVal
  {
    Opt(n.options, "readonly")
  }

  /** `readonly?` answers the `:readonly` option of the nearest node on the path from the root
      down to this node that has a truthy one, and false when none has. */
  lemma {:induction false} ReadOnlyNearest(l: Located)
    ensures var chain := l.ancestors + [l.node];
      && (Truthy(ReadOnly(l)) <==> exists i :: 0 <= i < |chain| && Truthy(ReadOnlyOption(chain[i])))
      && (!Truthy(ReadOnly(l)) ==> ReadOnly(l) == Bool(false))
      && (Truthy(ReadOnly(l)) ==>
            (exists i :: 0 <= i < |chain| && ReadOnly(l) == ReadOnlyOption(chain[i])
              && forall j :: i < j < |chain| ==> !Truthy(ReadOnlyOption(chain[j]))))
    decreases |l.ancestors|
  {
    var chain := l.ancestors + [l.node];
    var last := |chain| - 1;
    assert chain[last] == l.node;
    if Truthy(ReadOnlyOption(l.node)) {
      assert ReadOnly(l) == ReadOnlyOption(chain[last]);
    } else if |l.ancestors| > 0 {
      var p := Parent(l);
      ReadOnlyNearest(p);
      var pchain := p.ancestors + [p.node];
      assert pchain == l.ancestors;
      assert chain == pchain + [l.node];
      if Truthy(ReadOnly(l)) {
        var i :| 0 <= i < |pchain| && ReadOnly(p) == ReadOnlyOption(pchain[i])
          && forall j :: i < j < |pchain| ==> !Truthy(ReadOnlyOption(pchain[j]));
        assert chain[i] == pchain[i];
        assert forall j :: i < j < |chain| ==> !Truthy(ReadOnlyOption(chain[j])) by {
          forall j | i < j < |chain| ensures !Truthy(ReadOnlyOption(chain[j])) {
            if j < |pchain| { assert chain[j] == pchain[j]; }
          }
        }
      } else {
        forall i | 0 <= i < |chain| ensures !Truthy(ReadOnlyOption(chain[i])) {
          if i < |pchain| { assert chain[i] == pchain[i]; }
        }
      }
    } else {
      assert chain == [l.node];
    }
  }

  // ---------------------------------------------------------------------------
  // Labels

  /** A segment of an I18n key: a lowercase letter, then lowercase letters, `_` or ASCII digits. */
  predicate KeySegment(s: string)
  {
    && |s| > 0 && 'a' <= s[0] <= 'z'
    && forall i :: 1 <= i < |s| ==> ('a' <= s[i] <= 'z' || s[i] == '_' || '0' <= s[i] <= '9')
  }

  predicate AllKeySegments(segs: seq<string>)
  {
    forall i :: 0 <= i < |segs| ==> KeySegment(segs[i])
  }

  predicate AnyKeyLine(lines: seq<string>)
  {
    exists i :: 0 <= i < |lines| && AllKeySegments(Split(lines[i], '.'))
  }

  /** `key =~ /^[a-z][a-z_\d]*(\.[a-z][a-z_\d]*)*$/`; Ruby's anchors match at line
      boundaries, so one line of the key that has the dotted-lowercase shape suffices. */
  predicate IsI18nKey(key: string)
  {
    AnyKeyLine(Split(key, '\n'))
  }

  /** A key segment holds neither a dot nor a line break. */
  lemma KeySegmentChars(seg: string)
    requires KeySegment(seg)
    ensures '.' !in seg && '\n' !in seg
  {
    forall i | 0 <= i < |seg| ensures seg[i] != '.' && seg[i] != '\n' {
      if i > 0 { assert 'a' <= seg[i] <= 'z' || seg[i] == '_' || '0' <= seg[i] <= '9'; }
    }
  }

  /** A dotted path of key segments is an I18n key. */
  lemma DottedKeyIsI18nKey(segs: seq<string>)
    requires |segs| > 0 && AllKeySegments(segs)
    ensures IsI18nKey(Join(segs, "."))
  {
    var key := Join(segs, ".");
    forall i | 0 <= i < |segs| ensures '.' !in segs[i] && '\n' !in segs[i] {
      KeySegmentChars(segs[i]);
    }
    JoinNoChar(segs, ".", '\n');
    SplitFree(key, '\n');
    SplitJoin(segs, '.');
    var lines := Split(key, '\n');
    assert lines[0] == key;
    assert AllKeySegments(Split(lines[0], '.'));
  }

  lemma {:induction false} JoinNoChar(parts: seq<string>, sep: string, c: char)
    requires c !in sep
    requires forall i :: 0 <= i < |parts| ==> c !in parts[i]
    ensures c !in Join(parts, sep)
  {
    if |parts| > 1 {
      JoinNoChar(parts[1..], sep, c);
    }
  }

  /** One step of `Element.i18n`'s right-to-left fold: a nil key keeps the text, an I18n key
      is looked up with the text as fallback, any other key replaces the text. */
  function I18nStep(tr: string -> Option<string>, text: string, key: Option<string>): string
  {
    match key
    case None => text
    case Some(k) =>
      if IsI18nKey(k) then (match tr(k) case Some(t) => t case None => text) else k
  }

  function I18nFold(tr: string -> Option<string>, front: seq<Option<string>>, text: string): string
  {
    if |front| == 0 then text
    else I18nFold(tr, front[..|front| - 1], I18nStep(tr, text, front[|front| - 1]))
  }

  /** `key.to_s` for a possibly nil key. */
  function KeyText(key: Option<string>): string
  {
    match key case None => "" case Some(k) => k
  }

  /** `Element.i18n(*keys)`: the last key, as text, is the default; the other keys are
      folded over it from right to left. `tr` is the translation store. */
  function I18n(tr: string -> Option<string>, keys: seq<Option<string>>): string
  {
    if |keys| == 0 then "" else I18nFold(tr, keys[..|keys| - 1], KeyText(keys[|keys| - 1]))
  }

  /** A key decides the label: it is given, and is either literal text or a translated key. */
  predicate Decisive(tr: string -> Option<string>, key: Option<string>)
  {
    key.Some? && (!IsI18nKey(key.value) || tr(key.value).Some?)
  }

  function DecidedText(tr: string -> Option<string>, key: Option<string>): string
    requires Decisive(tr, key)
  {
    if IsI18nKey(key.value) then tr(key.value).value else key.value
  }

  /** Reference reading of the priority order: the first decisive key, from the left, wins. */
  function FirstDecisive(tr: string -> Option<string>, keys: seq<Option<string>>, default: string): string
  {
    if |keys| == 0 then default
    else if Decisive(tr, keys[0]) then DecidedText(tr, keys[0])
    else FirstDecisive(tr, keys[1..], default)
  }

  lemma {:induction false} FirstDecisiveSnoc(tr: string -> Option<string>, front: seq<Option<string>>, key: Option<string>, default: string)
    ensures FirstDecisive(tr, front + [key], default) == FirstDecisive(tr, front, I18nStep(tr, default, key))
  {
    if |front| == 0 {
      assert [key][1..] == [];
    } else {
      assert (front + [key])[0] == front[0];
      assert (front + [key])[1..] == front[1..] + [key];
      FirstDecisiveSnoc(tr, front[1..], key, default);
    }
  }

  /** The right-to-left fold of `Element.i18n` gives the text of the first decisive key,
      and the last key's text when no key decides. */
  lemma {:induction false} I18nPriority(tr: string -> Option<string>, keys: seq<Option<string>>)
    requires |keys| > 0
    ensures I18n(tr, keys) == FirstDecisive(tr, keys[..|keys| - 1], KeyText(keys[|keys| - 1]))
  {
    FoldIsFirstDecisive(tr, keys[..|keys| - 1], KeyText(keys[|keys| - 1]));
  }

  lemma {:induction false} FoldIsFirstDecisive(tr: string -> Option<string>, front: seq<Option<string>>, text: string)
    ensures I18nFold(tr, front, text) == FirstDecisive(tr, front, text)
    decreases |front|
  {
    if |front| > 0 {
      var init := front[..|front| - 1];
      var key := front[|front| - 1];
      FoldIsFirstDecisive(tr, init, I18nStep(tr, text, key));
      FirstDecisiveSnoc(tr, init, key, text);
      assert init + [key] == front;
    }
  }

  /** An option value used as an I18n key: nil is skipped, anything else is its `to_s`. */
  function OptKey(v: OptVal): Option<string>
  {
    if v.Nil? then None else Some(ToS(v))
  }

  /** `label`: the `:label` option, the `survey.<path_name>` key, the `survey.attributes.<name>`
      key and the humanized name, in priority order. */
  function Label(l: Located, tr: string -> Option<string>, humanize: string -> string): string
  {
    I18n(tr, [OptKey(Opt(l.node.options, "label")),
              Some("survey." + PathName(l)),
              Some("survey.attributes." + l.node.name),
              Some(humanize(l.node.name))])
  }

  /** The label priority written out case by case. */
  lemma LabelPriority(l: Located, tr: string -> Option<string>, humanize: string -> string)
    ensures var k0 := OptKey(Opt(l.node.options, "label"));
      var k1 := Some("survey." + PathName(l));
      var k2 := Some("survey.attributes." + l.node.name);
      && (Decisive(tr, k0) ==> Label(l, tr, humanize) == DecidedText(tr, k0))
      && (!Decisive(tr, k0) && Decisive(tr, k1) ==> Label(l, tr, humanize) == DecidedText(tr, k1))
      && (!Decisive(tr, k0) && !Decisive(tr, k1) && Decisive(tr, k2) ==> Label(l, tr, humanize) == DecidedText(tr, k2))
      && (!Decisive(tr, k0) && !Decisive(tr, k1) && !Decisive(tr, k2) ==> Label(l, tr, humanize) == humanize(l.node.name))
  {
    var k0 := OptKey(Opt(l.node.options, "label"));
    var k1 := Some("survey." + PathName(l));
    var k2 := Some("survey.attributes." + l.node.name);
    var keys := [k0, k1, k2, Some(humanize(l.node.name))];
    I18nPriority(tr, keys);
    var d := humanize(l.node.name);
    assert keys[..3] == [k0, k1, k2];
    assert [k0, k1, k2][1..] == [k1, k2];
    assert [k1, k2][1..] == [k2];
    assert [k2][1..] == [];
    assert FirstDecisive(tr, [k2], d) == if Decisive(tr, k2) then DecidedText(tr, k2) else d;
    assert FirstDecisive(tr, [k1, k2], d) == if Decisive(tr, k1) then DecidedText(tr, k1) else FirstDecisive(tr, [k2], d);
  }

  /** Multiplier#label_add: the `:label_add` option, the `survey.label_add` key, "Add". */
  function LabelAdd(m: Node, tr: string -> Option<string>): string
  {
    I18n(tr, [OptKey(Opt(m.options, "label_add")), Some("survey.label_add"), Some("Add")])
  }

  /** Multiplier#label_remove: the `:label_remove` option, the `survey.label_remove` key, "Remove". */
  function LabelRemove(m: Node, tr: string -> Option<string>): string
  {
    I18n(tr, [OptKey(Opt(m.options, "label_remove")), Some("survey.label_remove"), Some("Remove")])
  }

  lemma SurveySegment()
    ensures KeySegment("survey")
  {
    var a := "survey";
    assert a == [a[0], a[1], a[2], a[3], a[4], a[5]];
  }

  lemma LabelAddSegment()
    ensures KeySegment("label_add")
  {
    var b := "label_add";
    assert b == [b[0], b[1], b[2], b[3], b[4], b[5], b[6], b[7], b[8]];
  }

  lemma LabelRemoveSegment()
    ensures KeySegment("label_remove")
  {
    var c := "label_remove";
    assert c == [c[0], c[1], c[2], c[3], c[4], c[5], c[6], c[7], c[8], c[9], c[10], c[11]];
  }

  /** Two key segments joined by a dot form an I18n key. */
  lemma DottedPair(a: string, b: string)
    requires KeySegment(a) && KeySegment(b)
    ensures IsI18nKey(a + "." + b)
  {
    DottedKeyIsI18nKey([a, b]);
    assert [a, b][1..] == [b];
    assert Join([a, b], ".") == a + "." + b;
  }

  /** The keys of the multiplier's action labels are I18n keys. */
  lemma ActionKeys()
    ensures IsI18nKey("survey.label_add") && IsI18nKey("survey.label_remove")
  {
    SurveySegment();
    LabelAddSegment();
    LabelRemoveSegment();
    DottedPair("survey", "label_add");
    DottedPair("survey", "label_remove");
    assert "survey" + "." + "label_add" == "survey.label_add";
    assert "survey" + "." + "label_remove" == "survey.label_remove";
  }

  /** Without a `:label_add` option the add label is the translation of `survey.label_add`,
      or "Add" when there is none; likewise for the remove label. */
  lemma ActionLabelDefaults(m: Node, tr: string -> Option<string>)
    ensures Opt(m.options, "label_add").Nil? ==>
      LabelAdd(m, tr) == (match tr("survey.label_add") case Some(t) => t case None => "Add")
    ensures Opt(m.options, "label_remove").Nil? ==>
      LabelRemove(m, tr) == (match tr("survey.label_remove") case Some(t) => t case None => "Remove")
  {
    ActionKeys();
    if Opt(m.options, "label_add").Nil? {
      ActionLabelDefault(tr, "survey.label_add", "Add");
    }
    if Opt(m.options, "label_remove").Nil? {
      ActionLabelDefault(tr, "survey.label_remove", "Remove");
    }
  }

  lemma ActionLabelDefault(tr: string -> Option<string>, key: string, default: string)
    requires IsI18nKey(key)
    ensures I18n(tr, [None, Some(key), Some(default)]) == (match tr(key) case Some(t) => t case None => default)
  {
    var keys := [None, Some(key), Some(default)];
    I18nPriority(tr, keys);
    assert keys[..2] == [None, Some(key)];
    assert KeyText(keys[2]) == default;
    assert [None, Some(key)][1..] == [Some(key)];
    assert [Some(key)][1..] == [];
    assert FirstDecisive(tr, [Some(key)], default) == (match tr(key) case Some(t) => t case None => default);
  }
}
