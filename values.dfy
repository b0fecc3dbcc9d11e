/** Values shared by the schema tree and the data layer: Ruby's nil/false truthiness,
    element options, the plain nested values that partial updates arrive as and that
    `to_h` produces, and the exceptions the engine raises (lib/surveyor/exceptions.rb). */
module Values {
  import opened Strings

  datatype Option<+T> = None | Some(value: T)

  /** The exceptions of the engine. `TypeMismatch` stands for Ruby's NoMethodError or
      TypeError raised when a value of the wrong shape reaches an operation. */
  datatype Error =
    | InvalidFieldMatch
    | UnknownField
    | SmallerArray
    | NoBaseValue
    | WrongParent
    | CannotMultiply
    | ValidSurvey
    | ParsingError
    | NotImplemented
    | TypeMismatch

  /** What an operation that may raise ended with. */
  datatype Outcome = Done | Fail(error: Error)

  datatype Result<+T> = Ok(value: T) | Err(error: Error)

  /** An option value as written in a declaration (`:required => true`, `:id => 'x'`, ...). */
  datatype OptVal = Nil | Bool(b: bool) | Str(s: string) | Int(i: int) | List(items: seq<OptVal>)

  /** An element's options; keys are the option symbols' names. */
  type Options = map<string, OptVal>

  /** Ruby truthiness: everything but nil and false. */
  predicate Truthy(v: OptVal)
  {
    !(v.Nil? || v == Bool(false))
  }

  /** `options[key]`: a missing key reads as nil. */
  function Opt(options: Options, key: string): (v: OptVal)
    ensures key !in options ==> v == Nil
    ensures key in options ==> v == options[key]
  {
    if key in options then options[key] else Nil
  }

  /** `v.to_s`. Lists use Ruby's `inspect` form without escaping quotes inside strings. */
  function ToS(v: OptVal): string
  {
    match v
    case Nil => ""
    case Bool(b) => if b then "true" else "false"
    case Str(s) => s
    case Int(i) => IntToString(i)
    case List(items) => "[" + InspectAll(items) + "]"
  }

  function Inspect(v: OptVal): string
  {
    match v
    case Nil => "nil"
    case Str(s) => "\"" + s + "\""
    case List(items) => "[" + InspectAll(items) + "]"
    case Bool(b) => if b then "true" else "false"
    case Int(i) => IntToString(i)
  }

  function InspectAll(items: seq<OptVal>): string
    decreases items
  {
    if |items| == 0 then ""
    else if |items| == 1 then Inspect(items[0])
    else Inspect(items[0]) + ", " + InspectAll(items[1..])
  }

  /** A plain value: what a form submission decodes to (strings, hashes, arrays, nil, booleans)
      and what `to_h` projects a Hob to. A hash keeps its insertion order. */
  datatype Input =
    | INil
    | IBool(b: bool)
    | IStr(s: string)
    | IMap(entries: seq<Entry>)
    | IList(items: seq<Input>)

  datatype Entry = Entry(key: string, val: Input)

  /** `hash[key]` on a Ruby Hash: the value stored under `key`, or nil. */
  function Lookup(entries: seq<Entry>, key: string): (v: Input)
    ensures v != INil ==> exists i :: 0 <= i < |entries| && entries[i].key == key && entries[i].val == v
    ensures (forall i :: 0 <= i < |entries| ==> entries[i].key != key) ==> v == INil
  {
    if |entries| == 0 then INil
    else if entries[0].key == key then entries[0].val
    else Lookup(entries[1..], key)
  }

  /** `value[key]` for a string key on any plain value: a Hash looks the key up; a String
      answers the key itself when it occurs in it (`String#[]`) and nil otherwise; nil,
      booleans and arrays raise. */
  function Index(v: Input, key: string): (r: Result<Input>)
    ensures v.IMap? ==> r == Ok(Lookup(v.entries, key))
    ensures (v.INil? || v.IBool? || v.IList?) ==> r == Err(TypeMismatch)
  {
    match v
    case IMap(es) => Ok(Lookup(es, key))
    case IStr(s) => Ok(if Occurs(key, s) then IStr(key) else INil)
    case _ => Err(TypeMismatch)
  }

  /** `needle` occurs somewhere in `s`. */
  predicate Occurs(needle: string, s: string)
  {
    |needle| <= |s| && (s[..|needle|] == needle || Occurs(needle, s[1..]))
  }

  /** Ruby truthiness of a plain value. */
  predicate InputTruthy(v: Input)
  {
    !(v.INil? || v == IBool(false))
  }

  /** ActiveSupport's `blank?` on a plain value. */
  predicate Blank(v: Input)
  {
    match v
    case INil => true
    case IBool(b) => !b
    case IStr(s) => BlankString(s)
    case IMap(es) => |es| == 0
    case IList(xs) => |xs| == 0
  }

  /** `hash[key] = value` on a Ruby Hash: replaces the value in place when the key is
      present, otherwise appends the pair. */
  function Store(entries: seq<Entry>, key: string, val: Input): (r: seq<Entry>)
    ensures Lookup(r, key) == val
    ensures forall k :: k != key ==> Lookup(r, k) == Lookup(entries, k)
    ensures (forall i :: 0 <= i < |entries| ==> entries[i].key != key) ==> r == entries + [Entry(key, val)]
  {
    if |entries| == 0 then [Entry(key, val)]
    else if entries[0].key == key then [Entry(key, val)] + entries[1..]
    else [entries[0]] + Store(entries[1..], key, val)
  }

  function Keys(entries: seq<Entry>): (r: seq<string>)
    ensures |r| == |entries|
    ensures forall i :: 0 <= i < |entries| ==> r[i] == entries[i].key
  {
    seq(|entries|, i requires 0 <= i < |entries| => entries[i].key)
  }
}
