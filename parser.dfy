/** The survey DSL of lib/surveyor/parser.rb. A block of DSL calls is a list of
    declarations: `section`, `sequence` and `multiplier` (each with an optional nested block),
    `string`, `radio`, and `sheet`. A sheet block is a list of SheetParser calls: a call with
    one argument sets an option, a call without arguments names a child element, optionally
    with a block, and may be followed by a chained call on the parser it returns. */
module Parsers {
  import opened Strings
  import opened Values
  import opened Elements
  import opened Containers

  /** Options per dotted element path. */
  type Sheet = map<string, Options>

  /** A call; `hasBlock` tells whether a block (the calls in `block`) was given. */
  datatype SheetCmd = SheetCmd(name: string, args: seq<OptVal>, hasBlock: bool, block: seq<SheetCmd>, next: Option<SheetCmd>)

  /** The `sheet` argument: absent, a Hash, or any other object. */
  datatype SheetArg = NoArg | HashArg(sheet: Sheet) | OtherArg(v: OptVal)

  datatype Decl =
    | DNest(kind: ContainerKind, name: string, options: Options, body: seq<Decl>)
    | DString(name: string, options: Options)
    | DRadio(name: string, options: Options)
    | DSheet(name: string, arg: SheetArg, block: Option<seq<SheetCmd>>)

  datatype SurveyDecl = SurveyDecl(name: string, options: Options, body: seq<Decl>)

  /** A container being populated and the sheets declared in it. */
  datatype Built = Built(container: Node, sheets: map<string, Sheet>)

  /** What `Parser.define` returns: nil, the one survey, or the list of surveys. */
  datatype Parsed = NoSurvey | OneSurvey(survey: Built) | ManySurveys(surveys: seq<Built>)

  function CmdSize(c: SheetCmd): nat
  {
    1 + CmdsSize(c.block) + (match c.next case Some(n) => CmdSize(n) case None => 0)
  }

  function CmdsSize(cs: seq<SheetCmd>): nat
  {
    if |cs| == 0 then 0 else CmdSize(cs[0]) + CmdsSize(cs[1..])
  }

  function DeclSize(d: Decl): nat
  {
    1 + (if d.DNest? then DeclsSize(d.body) else 0)
  }

  function DeclsSize(ds: seq<Decl>): nat
  {
    if |ds| == 0 then 0 else DeclSize(ds[0]) + DeclsSize(ds[1..])
  }

  // ---------------------------------------------------------------------------------------
  // Sheets

  /** `m.to_s.chomp('=')`. */
  function Chomp(name: string): (r: string)
    ensures |name| > 0 && name[|name| - 1] == '=' ==> r == name[..|name| - 1]
    ensures !(|name| > 0 && name[|name| - 1] == '=') ==> r == name
  {
    if |name| > 0 && name[|name| - 1] == '=' then name[..|name| - 1] else name
  }

  /** `register_options`: the option merged into the options stored under the dot-joined
      names from the sheet root down ('' for the root itself). */
  function Register(sheet: Sheet, path: seq<string>, key: string, v: OptVal): (r: Sheet)
    ensures Join(path, ".") in r && key in r[Join(path, ".")] && r[Join(path, ".")][key] == v
    ensures Join(path, ".") in sheet ==> forall k :: k in sheet[Join(path, ".")] && k != key ==> k in r[Join(path, ".")] && r[Join(path, ".")][k] == sheet[Join(path, ".")][k]
    ensures r.Keys == sheet.Keys + {Join(path, ".")}
    ensures path == [] ==> "" in r && key in r[""] && r[""][key] == v
    ensures forall p :: p in sheet && p != Join(path, ".") ==> r[p] == sheet[p]
  {
    var p := Join(path, ".");
    sheet[p := (if p in sheet then sheet[p] else map[])[key := v]]
  }

  /** One SheetParser call on the parser for element `e`, reached by `path` from the root.
      A chained call on the nil a call returns raises. */
  function RunCmd(sheet: Sheet, e: Node, path: seq<string>, c: SheetCmd): (r: Result<Sheet>)
    ensures |c.args| > 1 ==> r == Err(ParsingError)
    ensures |c.args| == 0 && Find(e, c.name) == Ok(None) ==> r == Err(ParsingError)
    ensures |c.args| == 1 && c.next.None? ==> r == Ok(Register(sheet, path, Chomp(c.name), c.args[0]))
    decreases CmdSize(c), 0
  {
    if |c.args| == 1 then
      if c.next.Some? then Err(TypeMismatch) else Ok(Register(sheet, path, Chomp(c.name), c.args[0]))
    else if |c.args| > 1 then Err(ParsingError)
    else match Find(e, c.name)
      case Err(x) => Err(x)
      case Ok(None) => Err(ParsingError)
      case Ok(Some(child)) =>
        if c.hasBlock then
          match RunCmds(sheet, child, path + [child.name], c.block)
          case Err(x) => Err(x)
          case Ok(s) => if c.next.Some? then Err(TypeMismatch) else Ok(s)
        else if c.next.Some? then RunCmd(sheet, child, path + [child.name], c.next.value)
        else Ok(sheet)
  }

  function RunCmds(sheet: Sheet, e: Node, path: seq<string>, cs: seq<SheetCmd>): Result<Sheet>
    decreases CmdsSize(cs), 1
  {
    if |cs| == 0 then Ok(sheet)
    else match RunCmd(sheet, e, path, cs[0])
      case Err(x) => Err(x)
      case Ok(s) => RunCmds(s, e, path, cs[1..])
  }

  /** `a.b.c v`: a chain of element names ending in an option. */
  function Chain(names: seq<string>, option: string, v: OptVal): SheetCmd
  {
    if |names| == 0 then SheetCmd(option, [v], false, [], None)
    else SheetCmd(names[0], [], false, [], Some(Chain(names[1..], option, v)))
  }

  /** The first of several dot-free names that `find` resolves in turn names a child, and
      the rest resolve from that child. */
  lemma FindFirst(e: Node, names: seq<string>)
    requires |names| > 0 && names[0] != "" && '.' !in names[0]
    requires FindPath(e, names).Ok? && FindPath(e, names).value.Some?
    ensures e.Container? && FirstNamed(e.elements, names[0]).Some?
    ensures var child := FirstNamed(e.elements, names[0]).value;
      && child.name == names[0]
      && Find(e, names[0]) == Ok(Some(child))
      && (|names| > 1 ==> FindPath(child, names[1..]) == FindPath(e, names))
  {
    FindDotted(e, [names[0]]);
    assert Join([names[0]], ".") == names[0];
  }

  /** The call naming the first element of a chain runs the rest of the chain on the parser
      of that element. */
  lemma ChainStep(sheet: Sheet, e: Node, path: seq<string>, names: seq<string>, option: string, v: OptVal)
    requires |names| > 0 && names[0] != "" && '.' !in names[0]
    requires FindPath(e, names).Ok? && FindPath(e, names).value.Some?
    ensures e.Container? && FirstNamed(e.elements, names[0]).Some?
    ensures var child := FirstNamed(e.elements, names[0]).value;
      && RunCmd(sheet, e, path, Chain(names, option, v)) == RunCmd(sheet, child, path + [names[0]], Chain(names[1..], option, v))
      && (|names| > 1 ==> FindPath(child, names[1..]) == FindPath(e, names))
  {
    FindFirst(e, names);
    var c := Chain(names, option, v);
    assert c == SheetCmd(names[0], [], false, [], Some(Chain(names[1..], option, v)));
  }

  /** A chain of element names that `find` resolves one by one registers its option under
      the dotted path of those names below the current one. */
  lemma {:induction false} ChainRegisters(sheet: Sheet, e: Node, path: seq<string>, names: seq<string>, option: string, v: OptVal)
    requires forall n :: n in names ==> n != "" && '.' !in n
    requires |names| > 0 ==> FindPath(e, names).Ok? && FindPath(e, names).value.Some?
    ensures RunCmd(sheet, e, path, Chain(names, option, v)) == Ok(Register(sheet, path + names, Chomp(option), v))
    decreases |names|
  {
    if |names| == 0 {
      assert path + names == path;
    } else {
      assert names[0] in names;
      ChainStep(sheet, e, path, names, option, v);
      var child := FirstNamed(e.elements, names[0]).value;
      assert (path + [names[0]]) + names[1..] == path + names;
      ChainRegisters(sheet, child, path + [names[0]], names[1..], option, v);
    }
  }

  // ---------------------------------------------------------------------------------------
  // Declarations

  /** Ruby truthiness of the `sheet` argument. */
  predicate ArgTruthy(a: SheetArg)
  {
    match a
    case NoArg => false
    case HashArg(_) => true
    case OtherArg(v) => Truthy(v)
  }

  function AddChild(b: Built, child: Node): (r: Built)
    requires b.container.Container?
    ensures r.container == b.container.(elements := b.container.elements + [child]) && r.sheets == b.sheets
  {
    b.(container := b.container.(elements := b.container.elements + [child]))
  }

  /** The tree a declaration stands for: the declared kind, name and options, and for a
      nested declaration the trees of its own block. A sheet stands for no element. */
  function NodeOf(d: Decl): (n: Node)
    requires !d.DSheet?
    ensures n.name == d.name && n.options == d.options
    ensures d.DNest? ==> n.Container? && n.containerKind == d.kind && n.elements == NodesOf(d.body)
    ensures d.DString? ==> n == Field(StringKind, d.name, d.options)
    ensures d.DRadio? ==> n == Field(RadioKind, d.name, d.options)
  {
    match d
    case DNest(k, name, o, body) => Container(k, name, o, NodesOf(body))
    case DString(name, o) => Field(StringKind, name, o)
    case DRadio(name, o) => Field(RadioKind, name, o)
  }

  /** The trees of a block's element declarations, in order. */
  function NodesOf(ds: seq<Decl>): (r: seq<Node>)
    ensures |r| <= |ds|
  {
    if |ds| == 0 then []
    else (if ds[0].DSheet? then [] else [NodeOf(ds[0])]) + NodesOf(ds[1..])
  }

  /** One declaration inside a ContainerParser: a new child appended at the end (its block
      parsed first, into it), or a sheet stored for the survey. There is no `survey` call
      inside a container. */
  function DeclStep(b: Built, d: Decl): (r: Result<Built>)
    requires b.container.Container?
    ensures r.Ok? ==> r.value.container.Container? && r.value.container == b.container.(elements := r.value.container.elements)
    ensures d.DSheet? && r.Ok? ==> r.value.container == b.container
    ensures !d.DSheet? && r.Ok? ==>
      r.value.container.elements == b.container.elements + [NodeOf(d)] && r.value.sheets == b.sheets
    ensures d.DNest? && d.kind == SurveyKind ==> r == Err(TypeMismatch)
    ensures d.DString? ==> r.Ok?
    ensures d.DRadio? ==> (r.Err? <==> !Truthy(Opt(d.options, "values"))) && (r.Err? ==> r.error == ParsingError)
    ensures d.DSheet? && !b.container.IsSurvey() ==> r == Err(ParsingError)
    ensures d.DSheet? && d.block.Some? && ArgTruthy(d.arg) ==> r == Err(ParsingError)
    ensures d.DSheet? && d.block.None? ==> (r.Ok? <==> b.container.IsSurvey() && d.arg.HashArg?)
    ensures d.DSheet? && r.Ok? ==> d.name in r.value.sheets
    decreases DeclSize(d), 0
  {
    match d
    case DNest(k, n, o, body) =>
      if k == SurveyKind then Err(TypeMismatch)
      else
        var empty := Built(Container(k, n, o, []), map[]);
        (match BuildBody(empty, body)
         case Err(x) => Err(x)
         case Ok(c) =>
           assert c.container.elements == [] + NodesOf(body) == NodesOf(body);
           assert c.container == NodeOf(d);
           Ok(AddChild(b, c.container)))
    case DString(n, o) => Ok(AddChild(b, Field(StringKind, n, o)))
    case DRadio(n, o) => if Truthy(Opt(o, "values")) then Ok(AddChild(b, Field(RadioKind, n, o))) else Err(ParsingError)
    case DSheet(n, arg, blk) =>
      if !b.container.IsSurvey() then Err(ParsingError)
      else if blk.Some? then
        if ArgTruthy(arg) then Err(ParsingError)
        else (match RunCmds(map[], b.container, [], blk.value)
              case Err(x) => Err(x)
              case Ok(s) => Ok(b.(sheets := b.sheets[n := s])))
      else if arg.HashArg? then Ok(b.(sheets := b.sheets[n := arg.sheet]))
      else Err(ParsingError)
  }

  /** A block of declarations, in order: the children become the existing ones followed by
      the tree of each element declaration, in declaration order; nothing else of the
      container changes. */
  function BuildBody(b: Built, ds: seq<Decl>): (r: Result<Built>)
    requires b.container.Container?
    ensures r.Ok? ==> r.value.container.Container? && r.value.container == b.container.(elements := r.value.container.elements)
    ensures r.Ok? ==> r.value.container.elements == b.container.elements + NodesOf(ds)
    decreases DeclsSize(ds), 1
  {
    if |ds| == 0 then Ok(b)
    else match DeclStep(b, ds[0])
      case Err(x) => Err(x)
      case Ok(b1) =>
        var r := BuildBody(b1, ds[1..]);
        assert r.Ok? ==> r.value.container.elements == b.container.elements + NodesOf(ds) by {
          if r.Ok? && !ds[0].DSheet? {
            assert b.container.elements + [NodeOf(ds[0])] + NodesOf(ds[1..]) == b.container.elements + NodesOf(ds);
          }
        }
        r
  }

  /** `survey(name, options, &blk)`: a new Survey with its block parsed into it. */
  function SurveyStep(s: SurveyDecl): (r: Result<Built>)
    ensures r.Ok? ==> (r.value.container.IsSurvey() && r.value.container.name == s.name &&
      r.value.container.options == s.options)
    ensures r.Ok? ==> r.value.container.elements == NodesOf(s.body)
  {
    var empty := Built(Container(SurveyKind, s.name, s.options, []), map[]);
    BuildBody(empty, s.body)
  }

  function SurveysOf(ss: seq<SurveyDecl>): (r: Result<seq<Built>>)
    ensures r.Ok? ==> (|r.value| == |ss| &&
      forall i :: 0 <= i < |ss| ==> SurveyStep(ss[i]).Ok? && r.value[i] == SurveyStep(ss[i]).value)
  {
    if |ss| == 0 then Ok([])
    else match SurveyStep(ss[0])
      case Err(x) => Err(x)
      case Ok(b) =>
        match SurveysOf(ss[1..])
        case Err(x) => Err(x)
        case Ok(rest) =>
          var r := [b] + rest;
          assert forall i :: 1 <= i < |ss| ==> ss[i] == ss[1..][i - 1] && r[i] == rest[i - 1];
          Ok(r)
  }

  /** Surveys parsed before a rest whose outcome is `r`. */
  function Prepend(ps: seq<Built>, r: Result<seq<Built>>): Result<seq<Built>>
  {
    match r
    case Err(x) => Err(x)
    case Ok(qs) => Ok(ps + qs)
  }

  lemma SurveysOfStep(ss: seq<SurveyDecl>, ps: seq<Built>)
    requires |ss| > 0
    ensures SurveyStep(ss[0]).Err? ==> SurveysOf(ss) == Err(SurveyStep(ss[0]).error)
    ensures SurveyStep(ss[0]).Ok? ==> Prepend(ps, SurveysOf(ss)) == Prepend(ps + [SurveyStep(ss[0]).value], SurveysOf(ss[1..]))
  {
    var s0 := SurveyStep(ss[0]);
    var rest := SurveysOf(ss[1..]);
    if s0.Ok? && rest.Ok? {
      assert SurveysOf(ss) == Ok([s0.value] + rest.value);
      assert ps + ([s0.value] + rest.value) == (ps + [s0.value]) + rest.value;
    }
  }

  /** The result shape of `Parser.define`. */
  function Shape(ps: seq<Built>): (r: Parsed)
    ensures |ps| == 0 <==> r.NoSurvey?
    ensures |ps| == 1 <==> r.OneSurvey?
    ensures r.OneSurvey? ==> r.survey == ps[0]
    ensures |ps| > 1 <==> r.ManySurveys?
    ensures r.ManySurveys? ==> r.surveys == ps
  {
    if |ps| == 0 then NoSurvey else if |ps| == 1 then OneSurvey(ps[0]) else ManySurveys(ps)
  }

  /** The survey `survy` whose `outer` holds `greg`, `lillo` and the multiplier `actors`. */
  function SheetTestSurvey(): Node
  {
    var actors := Container(MultiplierKind, "actors", map[], [Field(StringKind, "name", map[])]);
    var outer := Container(SequenceKind, "outer", map[], [Field(StringKind, "greg", map[]), Field(StringKind, "lillo", map[]), actors]);
    Container(SurveyKind, "survy", map[], [outer])
  }

  /** A chain starting at the unknown `zzzouter` raises ParsingError. */
  lemma SheetUnknownElement(survy: Node, names: seq<string>)
    requires survy == SheetTestSurvey() && names == ["zzzouter", "greg"]
    ensures RunCmd(map[], survy, [], Chain(names, "required", Bool(true))) == Err(ParsingError)
  {
    FindDotted(survy, ["zzzouter"]);
    assert Join(["zzzouter"], ".") == "zzzouter";
    assert FirstNamed(survy.elements, "zzzouter") == None;
  }

  /** A survey of element declarations gets one child per declaration, and a nested
      declaration's child one element per declaration of its own block. */
  lemma NestedCounts(s: SurveyDecl, i: nat)
    requires forall j :: 0 <= j < |s.body| ==> !s.body[j].DSheet?
    requires i < |s.body| && s.body[i].DNest?
    requires forall j :: 0 <= j < |s.body[i].body| ==> !s.body[i].body[j].DSheet?
    ensures SurveyStep(s).Ok? ==>
      (|SurveyStep(s).value.container.elements| == |s.body| &&
       SurveyStep(s).value.container.elements[i].Container? &&
       |SurveyStep(s).value.container.elements[i].elements| == |s.body[i].body|)
  {
    NodesOfAt(s.body, i);
    NoSheetsCount(s.body[i].body);
  }

  lemma {:induction false} NoSheetsCount(ds: seq<Decl>)
    requires forall i :: 0 <= i < |ds| ==> !ds[i].DSheet?
    ensures |NodesOf(ds)| == |ds|
  {
    if |ds| > 0 {
      NoSheetsCount(ds[1..]);
    }
  }

  lemma {:induction false} NodesOfAt(ds: seq<Decl>, i: nat)
    requires forall j :: 0 <= j < |ds| ==> !ds[j].DSheet?
    requires i < |ds|
    ensures |NodesOf(ds)| == |ds| && NodesOf(ds)[i] == NodeOf(ds[i])
    decreases i
  {
    NoSheetsCount(ds);
    if i > 0 {
      NodesOfAt(ds[1..], i - 1);
    }
  }

  // ---------------------------------------------------------------------------------------
  // The parser objects

  /** SheetParser: the root parser's `sheet`, which every nested parser registers into
      through its parent chain; a nested parser is represented by its element and the names
      leading to it from the root. */
  class SheetParser {
    const element: Node
    var sheet: Sheet

    constructor (e: Node)
      ensures element == e && sheet == map[]
    {
      element := e;
      sheet := map[];
    }

    method RegisterOptions(path: seq<string>, key: string, v: OptVal)
      modifies this
      ensures sheet == Register(old(sheet), path, key, v)
    {
      var p := Join(path, ".");
      var current: Options := if p in sheet then sheet[p] else map[];
      sheet := sheet[p := current[key := v]];
    }

    /** `method_missing` on the parser for `e`. */
    method Call(e: Node, path: seq<string>, c: SheetCmd) returns (o: Outcome)
      modifies this
      ensures o.Done? <==> RunCmd(old(sheet), e, path, c).Ok?
      ensures o.Done? ==> sheet == RunCmd(old(sheet), e, path, c).value
      ensures o.Fail? ==> o.error == RunCmd(old(sheet), e, path, c).error
      decreases CmdSize(c), 0
    {
      if |c.args| == 1 {
        RegisterOptions(path, Chomp(c.name), c.args[0]);
        if c.next.Some? {
          return Fail(TypeMismatch);
        }
        return Done;
      }
      if |c.args| > 1 {
        return Fail(ParsingError);
      }
      var found := Find(e, c.name);
      if found.Err? {
        return Fail(found.error);
      }
      if found.value.None? {
        return Fail(ParsingError);
      }
      var child := found.value.value;
      if c.hasBlock {
        o := Run(child, path + [child.name], c.block);
        if o.Done? && c.next.Some? {
          o := Fail(TypeMismatch);
        }
      } else if c.next.Some? {
        o := Call(child, path + [child.name], c.next.value);
      } else {
        o := Done;
      }
    }

    /** `instance_eval` of a sheet block: the calls in order. */
    method Run(e: Node, path: seq<string>, cs: seq<SheetCmd>) returns (o: Outcome)
      modifies this
      ensures o.Done? <==> RunCmds(old(sheet), e, path, cs).Ok?
      ensures o.Done? ==> sheet == RunCmds(old(sheet), e, path, cs).value
      ensures o.Fail? ==> o.error == RunCmds(old(sheet), e, path, cs).error
      decreases CmdsSize(cs), 1
    {
      var i := 0;
      while i < |cs|
        invariant 0 <= i <= |cs|
        invariant RunCmds(sheet, e, path, cs[i..]) == RunCmds(old(sheet), e, path, cs)
      {
        RunCmdsAt(sheet, e, path, cs, i);
        o := Call(e, path, cs[i]);
        if o.Fail? {
          return;
        }
        i := i + 1;
      }
      o := Done;
    }
  }

  /** Running the calls from `i` on is running call `i`, then the calls after it. */
  lemma RunCmdsAt(sheet: Sheet, e: Node, path: seq<string>, cs: seq<SheetCmd>, i: nat)
    requires i < |cs|
    ensures CmdSize(cs[i]) <= CmdsSize(cs)
    ensures RunCmds(sheet, e, path, cs[i..]) ==
      (match RunCmd(sheet, e, path, cs[i])
       case Err(x) => Err(x)
       case Ok(s) => RunCmds(s, e, path, cs[i + 1..]))
  {
    assert cs[i..][0] == cs[i] && cs[i..][1..] == cs[i + 1..];
    CmdsSizeSuffix(cs, i);
  }

  lemma {:induction false} CmdsSizeSuffix(cs: seq<SheetCmd>, i: nat)
    requires i <= |cs|
    ensures CmdsSize(cs[i..]) <= CmdsSize(cs)
    decreases i
  {
    if i > 0 {
      CmdsSizeSuffix(cs[1..], i - 1);
      assert cs[1..][i - 1..] == cs[i..];
    }
  }

  lemma {:induction false} DeclsSizeSuffix(ds: seq<Decl>, i: nat)
    requires i <= |ds|
    ensures DeclsSize(ds[i..]) <= DeclsSize(ds)
    decreases i
  {
    if i > 0 {
      DeclsSizeSuffix(ds[1..], i - 1);
      assert ds[1..][i - 1..] == ds[i..];
    }
  }

  /** ContainerParser: the container whose `elements` the declarations append to, and the
      sheets stored on it. */
  class ContainerParser {
    var container: Node
    var sheets: map<string, Sheet>

    constructor (c: Node)
      requires c.Container?
      ensures container == c && sheets == map[]
    {
      container := c;
      sheets := map[];
    }

    function State(): Built
      reads this
    {
      Built(container, sheets)
    }

    method Declare(d: Decl) returns (o: Outcome)
      requires container.Container?
      modifies this
      ensures o.Done? <==> DeclStep(old(State()), d).Ok?
      ensures o.Done? ==> State() == DeclStep(old(State()), d).value
      ensures o.Fail? ==> o.error == DeclStep(old(State()), d).error
      decreases DeclSize(d), 0
    {
      match d
      case DNest(k, n, opts, body) =>
        if k == SurveyKind {
          return Fail(TypeMismatch);
        }
        var p := new ContainerParser(Container(k, n, opts, []));
        o := p.Run(body);
        if o.Fail? {
          return;
        }
        container := container.(elements := container.elements + [p.container]);
        o := Done;
      case DString(n, opts) =>
        container := container.(elements := container.elements + [Field(StringKind, n, opts)]);
        o := Done;
      case DRadio(n, opts) =>
        if !Truthy(Opt(opts, "values")) {
          return Fail(ParsingError);
        }
        container := container.(elements := container.elements + [Field(RadioKind, n, opts)]);
        o := Done;
      case DSheet(n, arg, blk) =>
        if !container.IsSurvey() {
          return Fail(ParsingError);
        }
        if blk.Some? {
          if ArgTruthy(arg) {
            return Fail(ParsingError);
          }
          var sp := new SheetParser(container);
          o := sp.Run(container, [], blk.value);
          if o.Fail? {
            return;
          }
          sheets := sheets[n := sp.sheet];
        } else {
          if !arg.HashArg? {
            return Fail(ParsingError);
          }
          sheets := sheets[n := arg.sheet];
          o := Done;
        }
    }

    /** `instance_exec` of a block: the declarations in order. */
    method Run(ds: seq<Decl>) returns (o: Outcome)
      requires container.Container?
      modifies this
      ensures o.Done? <==> BuildBody(old(State()), ds).Ok?
      ensures o.Done? ==> State() == BuildBody(old(State()), ds).value
      ensures o.Fail? ==> o.error == BuildBody(old(State()), ds).error
      decreases DeclsSize(ds), 1
    {
      var i := 0;
      while i < |ds|
        invariant 0 <= i <= |ds|
        invariant container.Container?
        invariant BuildBody(State(), ds[i..]) == BuildBody(old(State()), ds)
      {
        assert ds[i..][0] == ds[i] && ds[i..][1..] == ds[i + 1..];
        assert DeclsSize(ds[i..]) <= DeclsSize(ds) by {
          DeclsSizeSuffix(ds, i);
        }
        o := Declare(ds[i]);
        if o.Fail? {
          return;
        }
        i := i + 1;
      }
      o := Done;
    }
  }

  /** Parser: the surveys declared so far. */
  class Parser {
    var surveys: seq<Built>

    constructor ()
      ensures surveys == []
    {
      surveys := [];
    }

    /** `survey(name, options, &blk)`. */
    method Survey(s: SurveyDecl) returns (o: Outcome)
      modifies this
      ensures o.Done? <==> SurveyStep(s).Ok?
      ensures o.Done? ==> surveys == old(surveys) + [SurveyStep(s).value]
      ensures o.Fail? ==> surveys == old(surveys) && o.error == SurveyStep(s).error
    {
      var p := new ContainerParser(Container(SurveyKind, s.name, s.options, []));
      o := p.Run(s.body);
      if o.Fail? {
        return;
      }
      surveys := surveys + [p.State()];
      o := Done;
    }

    /** `Parser.define(&blk)`: the surveys declared in order, shaped as nil, the survey or
        the list; the first error raised stops the definition. */
    static method Define(ss: seq<SurveyDecl>) returns (r: Result<Parsed>)
      ensures SurveysOf(ss).Err? ==> r == Err(SurveysOf(ss).error)
      ensures SurveysOf(ss).Ok? ==> r == Ok(Shape(SurveysOf(ss).value))
    {
      var parser := new Parser();
      var i := 0;
      assert ss[i..] == ss;
      assert SurveysOf(ss).Ok? ==> parser.surveys + SurveysOf(ss).value == SurveysOf(ss).value;
      while i < |ss|
        invariant 0 <= i <= |ss|
        invariant Prepend(parser.surveys, SurveysOf(ss[i..])) == SurveysOf(ss)
      {
        SurveysOfStep(ss[i..], parser.surveys);
        assert ss[i..][0] == ss[i] && ss[i..][1..] == ss[i + 1..];
        var o := parser.Survey(ss[i]);
        if o.Fail? {
          return Err(o.error);
        }
        i := i + 1;
      }
      assert ss[i..] == [];
      assert parser.surveys + [] == parser.surveys;
      r := Ok(Shape(parser.surveys));
    }
  }
}
