/** The BCON state machine of bcon.c, against the recursive encoder it replaces. */
module Bcon {
  import opened Wrappers
  import opened Bytes
  import opened BsonFormat

  // ---- Entries and tokens ----

  /** The seconds that bson_append_time_t can scale to milliseconds. */
  type seconds = x: int | -0x20_C49B_A5E3_53F7 <= x <= 0x20_C49B_A5E3_53F7

  /** What an entry read under a typespec holds or points to. */
  datatype Datum =
    | Scalar(v: Value)
    | Time(secs: seconds)
    | Doc(items: seq<Item>)
    | Arr(items: seq<Item>)
    | NullPointer

  /** An entry of a BCON array: a string, or a value to be read under a typespec. */
  datatype Item = Text(s: cstring) | Raw(d: Datum)

  datatype Token = Default | End | Typespec | OpenBrace | CloseBrace | OpenBracket | CloseBracket

  /** bcon_token, for strings. */
  function TokenOf(s: cstring): Token {
    if |s| == 4 && s[0] == ':' as int && s[3] == ':' as int &&
       (s[1] == '_' as int || s[1] == 'P' as int || s[1] == 'R' as int) then Typespec
    else if |s| != 1 then Default
    else if s[0] == '{' as int then OpenBrace
    else if s[0] == '}' as int then CloseBrace
    else if s[0] == '[' as int then OpenBracket
    else if s[0] == ']' as int then CloseBracket
    else if s[0] == '.' as int then End
    else Default
  }

  // ---- The append calls ----

  datatype Call =
    | StartObject(key: cstring)
    | StartArray(key: cstring)
    | Finish
    | Append(key: cstring, v: Value)

  /** What bson_bcon_key_value does with an entry; Bad is a type letter or entry it cannot take. */
  datatype Action = Put(v: Value) | PutDoc(items: seq<Item>) | PutArr(items: seq<Item>) | Nothing | Bad

  /** The type letter of a value. */
  predicate Letter(u: int, d: Datum) {
    match d
    case Scalar(Str(_)) => u == 's' as int
    case Scalar(Double(_)) => u == 'f' as int
    case Scalar(Oid(_)) => u == 'o' as int
    case Scalar(Bool(_)) => u == 'b' as int
    case Scalar(Null) => u == 'v' as int
    case Scalar(Symbol(_)) => u == 'x' as int
    case Scalar(Int(_)) => u == 'i' as int
    case Scalar(Long(_)) => u == 'l' as int
    case Scalar(_) => false
    case Time(_) => u == 't' as int
    case Doc(_) => u == 'D' as int
    case Arr(_) => u == 'A' as int
    case NullPointer => false
  }

  /** The type letters of the pointer forms. */
  predicate PointerLetter(u: int) {
    u == 'f' as int || u == 's' as int || u == 'D' as int || u == 'A' as int || u == 'o' as int ||
    u == 'b' as int || u == 't' as int || u == 'x' as int || u == 'i' as int || u == 'l' as int
  }

  function ActionOf(d: Datum): Action {
    match d
    case Scalar(v) => Put(v)
    case Time(secs) => Put(Date(secs * 1000))
    case Doc(items) => PutDoc(items)
    case Arr(items) => PutArr(items)
    case NullPointer => Nothing
  }

  function KeyValue(spec: Option<cstring>, item: Item): Action {
    match (spec, item)
    case (None, Text(s)) => Put(Str(s))
    case (Some(t), Raw(d)) =>
      if TokenOf(t) != Typespec then Bad
      else if t[1] == '_' as int && t[2] == '_' as int then (if d.Scalar? && d.v.Str? then Put(d.v) else Bad)
      else if d.NullPointer? then (if t[1] == 'P' as int then Nothing else Bad)
      else if Letter(t[2], d) && (t[1] == '_' as int || PointerLetter(t[2])) then ActionOf(d)
      else Bad
    case _ => Bad
  }

  // ---- What the typespecs mean ----

  /** ":pu:" */
  function Spec(p: char, u: char): cstring
    requires '\0' < p < 128 as char && '\0' < u < 128 as char
  {
    [':' as int, p as int, u as int, ':' as int]
  }

  /** The marks, and what only looks like one. */
  lemma Tokens(p: char, u: char)
    requires p == '_' || p == 'P' || p == 'R'
    requires '\0' < u < 128 as char
    ensures TokenOf(Spec(p, u)) == Typespec && TokenOf(Spec('Q', u)) == Default
    ensures TokenOf(['{' as int]) == OpenBrace && TokenOf(['}' as int]) == CloseBrace
    ensures TokenOf(['[' as int]) == OpenBracket && TokenOf([']' as int]) == CloseBracket
    ensures TokenOf(['.' as int]) == End && TokenOf(['.' as int, '.' as int]) == Default
    ensures TokenOf([]) == Default && TokenOf([':' as int]) == Default
  {
  }

  /** Each type letter takes a value of its own type, directly, by reference or by pointer. */
  lemma TypedEntries(p: char, f: bytes8, oid: bytes12, b: bool, i: int32, l: int64, secs: seconds)
    requires p == '_' || p == 'P' || p == 'R'
    ensures KeyValue(Some(Spec(p, 'f')), Raw(Scalar(Double(f)))) == Put(Double(f))
    ensures KeyValue(Some(Spec(p, 'o')), Raw(Scalar(Oid(oid)))) == Put(Oid(oid))
    ensures KeyValue(Some(Spec(p, 'b')), Raw(Scalar(Bool(b)))) == Put(Bool(b))
    ensures KeyValue(Some(Spec(p, 'i')), Raw(Scalar(Int(i)))) == Put(Int(i))
    ensures KeyValue(Some(Spec(p, 'l')), Raw(Scalar(Long(l)))) == Put(Long(l))
    ensures KeyValue(Some(Spec(p, 't')), Raw(Time(secs))) == Put(Date(1000 * secs))
  {
  }

  lemma TextEntries(p: char, s: bytes)
    requires p == '_' || p == 'P' || p == 'R'
    ensures KeyValue(Some(Spec(p, 's')), Raw(Scalar(Str(s)))) == Put(Str(s))
    ensures KeyValue(Some(Spec(p, 'x')), Raw(Scalar(Symbol(s)))) == Put(Symbol(s))
  {
  }

  /** Untyped strings, nulls, documents, and pointers that may be null. */
  lemma OtherEntries(p: char, u: char, s: cstring, items: seq<Item>)
    requires p == '_' || p == 'P' || p == 'R'
    requires '\0' < u < 128 as char
    ensures KeyValue(None, Text(s)) == Put(Str(s))
    ensures KeyValue(Some(Spec('_', '_')), Raw(Scalar(Str(s)))) == Put(Str(s))
    ensures KeyValue(Some(Spec('_', 'v')), Raw(Scalar(Null))) == Put(Null)
    ensures KeyValue(Some(Spec(p, 'D')), Raw(Doc(items))) == PutDoc(items)
    ensures KeyValue(Some(Spec(p, 'A')), Raw(Arr(items))) == PutArr(items)
    ensures KeyValue(Some(Spec('P', u)), Raw(NullPointer)) == Nothing
  {
  }

  // ---- The machine ----

  const STACK_SIZE: nat := 1024
  const INDEX_LIMIT: nat := 100_000_000   // a nine-byte buffer holds eight digits

  /** A state with the variables that are live in it. */
  datatype State =
    | InElement
    | DocSpecValue(key: cstring)
    | DocValue(key: cstring, spec: cstring)
    | ArraySpecValue
    | ArrayValue(spec: cstring)

  datatype Machine = Machine(state: State, docs: seq<State>, indexes: seq<nat>, index: nat, calls: seq<Call>)

  datatype Return = OK | INCOMPLETE

  /** How a run ends; Unspecified is a stack or buffer overrun or an entry that cannot be read. */
  datatype Outcome = Finished(r: Return, calls: seq<Call>) | Unspecified

  datatype Next = Go(m: Machine) | Stop(m: Machine) | Broken

  function Digit(d: int): byte
    requires 0 <= d < 10
  {
    48 + d
  }

  /** bson_numstr. */
  function Decimal(n: nat): (s: cstring)
    ensures s != []
  {
    if n < 10 then [Digit(n)] else Decimal(n / 10) + [Digit(n % 10)]
  }

  /** The number that decimal digits spell, read from left to right. */
  function Spelled(s: seq<int>): int {
    if s == [] then 0 else 10 * Spelled(s[..|s| - 1]) + (s[|s| - 1] - '0' as int)
  }

  /** A key is the index in decimal: it spells it, in digits only, without a leading zero. */
  lemma {:induction false} DecimalSpells(n: nat)
    ensures Spelled(Decimal(n)) == n
    ensures forall i :: 0 <= i < |Decimal(n)| ==> '0' as int <= Decimal(n)[i] <= '9' as int
    ensures n > 0 ==> Decimal(n)[0] != '0' as int
  {
    if n < 10 {
      assert Decimal(n)[..0] == [];
    } else {
      DecimalSpells(n / 10);
      assert Decimal(n)[..|Decimal(n)| - 1] == Decimal(n / 10);
    }
  }

  /** The calls one value makes. */
  function ValueRun(key: cstring, spec: Option<cstring>, item: Item): Outcome
    decreases item, 1
  {
    match KeyValue(spec, item)
    case Put(v) => Finished(OK, [Append(key, v)])
    case Nothing => Finished(OK, [])
    case PutDoc(_) => Wrapped(StartObject(key), Run(item.d.items, InElement))
    case PutArr(_) => Wrapped(StartArray(key), Run(item.d.items, ArraySpecValue))
    case Bad => Unspecified
  }

  /** A document or array given by reference is run by a machine of its own. */
  function Wrapped(start: Call, o: Outcome): Outcome {
    if o.Unspecified? then Unspecified else Finished(o.r, [start] + o.calls + [Finish])
  }

  /** One value appended, and the state the machine goes to afterwards. */
  function ValueStep(m: Machine, key: cstring, spec: Option<cstring>, item: Item, state: State): Next
    decreases item, 2
  {
    match ValueRun(key, spec, item)
    case Unspecified => Broken
    case Finished(r, calls) =>
      var m' := m.(state := state, calls := m.calls + calls);
      if r == OK then Go(m') else Stop(m')
  }

  function Push(m: Machine, call: Call, back: State, state: State): Next {
    if |m.docs| >= STACK_SIZE then Broken
    else Go(m.(state := state, docs := m.docs + [back], calls := m.calls + [call]))
  }

  function PushArray(m: Machine, key: cstring, back: State): Next {
    if |m.indexes| >= STACK_SIZE then Broken
    else Push(m.(indexes := m.indexes + [m.index], index := 0), StartArray(key), back, ArraySpecValue)
  }

  function Pop(m: Machine): Next {
    if m.docs == [] then Broken
    else Go(m.(state := m.docs[|m.docs| - 1], docs := m.docs[..|m.docs| - 1], calls := m.calls + [Finish]))
  }

  function PopArray(m: Machine): Next {
    if m.indexes == [] then Broken
    else Pop(m.(index := m.indexes[|m.indexes| - 1], indexes := m.indexes[..|m.indexes| - 1]))
  }

  /** One round of the loop. */
  function Step(m: Machine, item: Item): Next
    decreases item, 3
  {
    match m.state
    case InElement =>
      if !item.Text? then Broken
      else (match TokenOf(item.s)
        case CloseBrace => Pop(m)
        case End => Stop(m)
        case _ => Go(m.(state := DocSpecValue(item.s))))
    case DocSpecValue(key) =>
      if !item.Text? then Broken
      else (match TokenOf(item.s)
        case Typespec => Go(m.(state := DocValue(key, item.s)))
        case OpenBrace => Push(m, StartObject(key), InElement, InElement)
        case OpenBracket => PushArray(m, key, InElement)
        case End => Stop(m)
        case _ => ValueStep(m, key, None, item, InElement))
    case DocValue(key, spec) => ValueStep(m, key, Some(spec), item, InElement)
    case ArraySpecValue =>
      if !item.Text? then Broken
      else (match TokenOf(item.s)
        case Typespec => Go(m.(state := ArrayValue(item.s)))
        case CloseBracket => PopArray(m)
        case End => Stop(m)
        case t =>
          if m.index >= INDEX_LIMIT then Broken
          else
            var key, m' := Decimal(m.index), m.(index := m.index + 1);
            if t == OpenBrace then Push(m', StartObject(key), ArraySpecValue, InElement)
            else if t == OpenBracket then PushArray(m', key, ArraySpecValue)
            else ValueStep(m', key, None, item, ArraySpecValue))
    case ArrayValue(spec) =>
      if m.index >= INDEX_LIMIT then Broken
      else ValueStep(m.(index := m.index + 1), Decimal(m.index), Some(spec), item, ArraySpecValue)
  }

  /** The whole loop, from machine m over the entries left. */
  function Loop(m: Machine, items: seq<Item>, start: State): Outcome
    decreases items, 0
  {
    if items == [] then Unspecified
    else match Step(m, items[0])
      case Broken => Unspecified
      case Stop(m') => Finished(if m'.state == start then OK else INCOMPLETE, m'.calls)
      case Go(m') => Loop(m', items[1..], start)
  }

  function Run(items: seq<Item>, start: State): Outcome
    decreases items, 1
  {
    Loop(Machine(start, [], [], 0, []), items, start)
  }

  // ---- Documents as trees ----

  /** A value as BCON writes it: an untyped string, a typed entry, or a bracketed list. */
  datatype Node =
    | Plain(s: cstring)
    | Typed(spec: cstring, d: Datum)
    | ByRefDoc(spec: cstring, fields: seq<Field>)
    | ByRefArr(spec: cstring, nodes: seq<Node>)
    | Braced(fields: seq<Field>)
    | Bracketed(nodes: seq<Node>)

  datatype Field = Field(key: cstring, node: Node)

  function Mark(c: char): cstring
    requires c == '{' || c == '}' || c == '[' || c == ']' || c == '.'
  {
    [c as int]
  }

  function NodeItems(n: Node): seq<Item>
    decreases n, 0
  {
    match n
    case Plain(s) => [Text(s)]
    case Typed(spec, d) => [Text(spec), Raw(d)]
    case ByRefDoc(spec, fs) => [Text(spec), Raw(Doc(FieldsItems(fs) + [Text(Mark('.'))]))]
    case ByRefArr(spec, ns) => [Text(spec), Raw(Arr(NodesItems(ns) + [Text(Mark('.'))]))]
    case Braced(fs) => [Text(Mark('{'))] + FieldsItems(fs) + [Text(Mark('}'))]
    case Bracketed(ns) => [Text(Mark('['))] + NodesItems(ns) + [Text(Mark(']'))]
  }

  function FieldsItems(fs: seq<Field>): seq<Item>
    decreases fs, 0
  {
    if fs == [] then [] else [Text(fs[0].key)] + NodeItems(fs[0].node) + FieldsItems(fs[1..])
  }

  function NodesItems(ns: seq<Node>): seq<Item>
    decreases ns, 0
  {
    if ns == [] then [] else NodeItems(ns[0]) + NodesItems(ns[1..])
  }

  // ---- The recursive encoder ----

  function EncodeNode(key: cstring, n: Node): seq<Call>
    decreases n, 0
  {
    match n
    case Plain(s) => [Append(key, Str(s))]
    case Typed(_, d) => (match ActionOf(d) case Put(v) => [Append(key, v)] case _ => [])
    case ByRefDoc(_, fs) => [StartObject(key)] + EncodeFields(fs) + [Finish]
    case ByRefArr(_, ns) => [StartArray(key)] + EncodeNodes(ns, 0) + [Finish]
    case Braced(fs) => [StartObject(key)] + EncodeFields(fs) + [Finish]
    case Bracketed(ns) => [StartArray(key)] + EncodeNodes(ns, 0) + [Finish]
  }

  function EncodeFields(fs: seq<Field>): seq<Call>
    decreases fs, 0
  {
    if fs == [] then [] else EncodeNode(fs[0].key, fs[0].node) + EncodeFields(fs[1..])
  }

  /** Array elements are named by their position, counted even where nothing is appended. */
  function EncodeNodes(ns: seq<Node>, i: nat): seq<Call>
    decreases ns, 0
  {
    if ns == [] then [] else EncodeNode(Decimal(i), ns[0]) + EncodeNodes(ns[1..], i + 1)
  }

  // ---- Well-formed input ----

  /** Nesting that the machine's stacks must hold; what is given by reference has stacks of its own. */
  function Depth(n: Node): nat
    decreases n, 0
  {
    match n
    case Braced(fs) => 1 + FieldsDepth(fs)
    case Bracketed(ns) => 1 + NodesDepth(ns)
    case _ => 0
  }

  function FieldsDepth(fs: seq<Field>): nat
    decreases fs, 0
  {
    if fs == [] then 0 else Max(Depth(fs[0].node), FieldsDepth(fs[1..]))
  }

  function NodesDepth(ns: seq<Node>): nat
    decreases ns, 0
  {
    if ns == [] then 0 else Max(Depth(ns[0]), NodesDepth(ns[1..]))
  }

  function Max(a: nat, b: nat): nat {
    if a >= b then a else b
  }

  /** No string is taken for a token where it stands, types fit, and the fixed sizes suffice. */
  predicate NodeOk(n: Node, inArray: bool)
    decreases n, 0
  {
    match n
    case Plain(s) =>
      var t := TokenOf(s);
      t == Default || t == CloseBrace || (t == CloseBracket && !inArray)
    case Typed(spec, d) =>
      var a := KeyValue(Some(spec), Raw(d));
      TokenOf(spec) == Typespec && a == ActionOf(d) && (a.Put? || a.Nothing?)
    case ByRefDoc(spec, fs) =>
      TokenOf(spec) == Typespec && spec[2] == 'D' as int && FieldsOk(fs) && FieldsDepth(fs) <= STACK_SIZE
    case ByRefArr(spec, ns) =>
      TokenOf(spec) == Typespec && spec[2] == 'A' as int && NodesOk(ns) && NodesDepth(ns) <= STACK_SIZE
    case Braced(fs) => FieldsOk(fs)
    case Bracketed(ns) => NodesOk(ns)
  }

  predicate FieldsOk(fs: seq<Field>)
    decreases fs, 0
  {
    fs == [] || (
      && TokenOf(fs[0].key) != CloseBrace && TokenOf(fs[0].key) != End
      && NodeOk(fs[0].node, false)
      && FieldsOk(fs[1..]))
  }

  predicate NodesOk(ns: seq<Node>)
    decreases ns, 1
  {
    |ns| <= INDEX_LIMIT && NodesOkEach(ns)
  }

  predicate NodesOkEach(ns: seq<Node>)
    decreases ns, 0
  {
    ns == [] || (NodeOk(ns[0], true) && NodesOkEach(ns[1..]))
  }

  // ---- The machine refines the encoder ----

  lemma Round(m: Machine, items: seq<Item>, m': Machine, start: State)
    requires items != [] && Step(m, items[0]) == Go(m')
    ensures Loop(m, items, start) == Loop(m', items[1..], start)
  {}

  /** One field: the machine comes back to the same stacks with the encoder's calls made. */
  lemma {:induction false} FieldRuns(m: Machine, f: Field, rest: seq<Item>, start: State)
    requires m.state == InElement && |m.indexes| <= |m.docs| && |m.docs| + Depth(f.node) <= STACK_SIZE
    requires TokenOf(f.key) != CloseBrace && TokenOf(f.key) != End && NodeOk(f.node, false)
    ensures Loop(m, [Text(f.key)] + NodeItems(f.node) + rest, start)
         == Loop(m.(calls := m.calls + EncodeNode(f.key, f.node)), rest, start)
    decreases f, 1
  {
    var items := [Text(f.key)] + NodeItems(f.node) + rest;
    var m1 := m.(state := DocSpecValue(f.key));
    assert items[1..] == NodeItems(f.node) + rest;
    Round(m, items, m1, start);
    NodeRuns(m1, f.key, f.node, rest, start);
  }

  /** A value after its key. */
  lemma {:induction false} NodeRuns(m: Machine, key: cstring, n: Node, rest: seq<Item>, start: State)
    requires m.state == DocSpecValue(key) && |m.indexes| <= |m.docs| && |m.docs| + Depth(n) <= STACK_SIZE
    requires NodeOk(n, false)
    ensures Loop(m, NodeItems(n) + rest, start)
         == Loop(m.(state := InElement, calls := m.calls + EncodeNode(key, n)), rest, start)
    decreases n, 3
  {
    hide Loop;
    hide FieldsOk;
    hide NodesOk;
    match n
    case Plain(s) => PlainRuns(m, m, key, s, InElement, rest, start);
    case Braced(fs) => BracedRuns(m, m, key, fs, InElement, rest, start);
    case Bracketed(ns) => BracketedRuns(m, m, key, ns, InElement, rest, start);
    case _ => TypedRuns(m, key, n, rest, start);
  }

  /** An untyped string, in a field (mm is m) or in an array (mm has counted it). */
  lemma PlainRuns(m: Machine, mm: Machine, key: cstring, s: cstring, back: State, rest: seq<Item>, start: State)
    requires Step(m, Text(s)) == ValueStep(mm, key, None, Text(s), back)
    ensures Loop(m, NodeItems(Plain(s)) + rest, start)
         == Loop(mm.(state := back, calls := mm.calls + EncodeNode(key, Plain(s))), rest, start)
  {
    hide Loop;
    var items := NodeItems(Plain(s)) + rest;
    assert items[0] == Text(s) && items[1..] == rest;
    assert ValueRun(key, None, Text(s)) == Finished(OK, [Append(key, Str(s))]);
    Round(m, items, mm.(state := back, calls := mm.calls + EncodeNode(key, Plain(s))), start);
  }

  lemma {:induction false} BracedRuns(m: Machine, mm: Machine, key: cstring, fs: seq<Field>, back: State,
                                      rest: seq<Item>, start: State)
    requires Step(m, Text(Mark('{'))) == Push(mm, StartObject(key), back, InElement)
    requires |mm.indexes| <= |mm.docs| && |mm.docs| + 1 + FieldsDepth(fs) <= STACK_SIZE && FieldsOk(fs)
    ensures Loop(m, NodeItems(Braced(fs)) + rest, start)
         == Loop(mm.(state := back, calls := mm.calls + EncodeNode(key, Braced(fs))), rest, start)
    decreases fs, 2
  {
    hide Loop;
    hide Step;
    hide FieldsItems;
    hide EncodeFields;
    hide FieldsOk;
    var items := NodeItems(Braced(fs)) + rest;
    var m1 := mm.(state := InElement, docs := mm.docs + [back], calls := mm.calls + [StartObject(key)]);
    assert items[0] == Text(Mark('{')) && items[1..] == FieldsItems(fs) + ([Text(Mark('}'))] + rest);
    Round(m, items, m1, start);
    InsideBraces(m1, fs, mm.docs, back, rest, start);
    assert m1.calls + EncodeFields(fs) + [Finish] == mm.calls + EncodeNode(key, Braced(fs));
  }

  lemma {:induction false} BracketedRuns(m: Machine, mm: Machine, key: cstring, ns: seq<Node>, back: State,
                                         rest: seq<Item>, start: State)
    requires Step(m, Text(Mark('['))) == PushArray(mm, key, back)
    requires |mm.indexes| <= |mm.docs| && |mm.docs| + 1 + NodesDepth(ns) <= STACK_SIZE && NodesOk(ns)
    ensures Loop(m, NodeItems(Bracketed(ns)) + rest, start)
         == Loop(mm.(state := back, calls := mm.calls + EncodeNode(key, Bracketed(ns))), rest, start)
    decreases ns, 2
  {
    hide Loop;
    hide Step;
    hide NodesItems;
    hide EncodeNodes;
    hide NodesOk;
    var items := NodeItems(Bracketed(ns)) + rest;
    var m1 := mm.(state := ArraySpecValue, docs := mm.docs + [back], indexes := mm.indexes + [mm.index],
                  index := 0, calls := mm.calls + [StartArray(key)]);
    assert items[0] == Text(Mark('[')) && items[1..] == NodesItems(ns) + ([Text(Mark(']'))] + rest);
    Round(m, items, m1, start);
    InsideBrackets(m1, ns, mm.docs, back, mm.indexes, mm.index, rest, start);
    assert m1.calls + EncodeNodes(ns, 0) + [Finish] == mm.calls + EncodeNode(key, Bracketed(ns));
  }

  /** From an opening brace to its closing one, which returns to the state below. */
  lemma {:induction false} InsideBraces(m: Machine, fs: seq<Field>, docs: seq<State>, back: State, rest: seq<Item>,
                                        start: State)
    requires m.state == InElement && m.docs == docs + [back]
    requires |m.indexes| <= |m.docs| && |m.docs| + FieldsDepth(fs) <= STACK_SIZE && FieldsOk(fs)
    ensures Loop(m, FieldsItems(fs) + ([Text(Mark('}'))] + rest), start)
         == Loop(m.(state := back, docs := docs, calls := m.calls + EncodeFields(fs) + [Finish]), rest, start)
    decreases fs, 1
  {
    FieldsRun(m, fs, [Text(Mark('}'))] + rest, start);
    assert m.docs[..|m.docs| - 1] == docs;
  }

  lemma {:induction false} InsideBrackets(m: Machine, ns: seq<Node>, docs: seq<State>, back: State,
                                          indexes: seq<nat>, index: nat, rest: seq<Item>, start: State)
    requires m.state == ArraySpecValue && m.index == 0 && m.docs == docs + [back] && m.indexes == indexes + [index]
    requires |m.indexes| <= |m.docs| && |m.docs| + NodesDepth(ns) <= STACK_SIZE && NodesOk(ns)
    ensures Loop(m, NodesItems(ns) + ([Text(Mark(']'))] + rest), start)
         == Loop(m.(state := back, docs := docs, indexes := indexes, index := index,
                    calls := m.calls + EncodeNodes(ns, 0) + [Finish]), rest, start)
    decreases ns, 1
  {
    NodesRun(m, ns, [Text(Mark(']'))] + rest, start);
    assert m.docs[..|m.docs| - 1] == docs && m.indexes[..|m.indexes| - 1] == indexes;
  }

  /** An entry under a typespec makes the encoder's calls, the stacks untouched. */
  lemma {:induction false} TypedValue(m: Machine, key: cstring, n: Node, state: State)
    requires (n.Typed? || n.ByRefDoc? || n.ByRefArr?) && (NodeOk(n, false) || NodeOk(n, true))
    ensures ValueStep(m, key, Some(n.spec), NodeItems(n)[1], state)
         == Go(m.(state := state, calls := m.calls + EncodeNode(key, n)))
    decreases n, 1
  {
    if n.ByRefDoc? {
      DocumentRuns(n.fields);
    } else if n.ByRefArr? {
      ArrayRuns(n.nodes);
    } else if ActionOf(n.d).Nothing? {
      assert m.calls + [] == m.calls;
    }
  }

  /** The same in a field: the typespec is one round, the value the next. */
  lemma {:induction false} TypedRuns(m: Machine, key: cstring, n: Node, rest: seq<Item>, start: State)
    requires m.state == DocSpecValue(key)
    requires (n.Typed? || n.ByRefDoc? || n.ByRefArr?) && NodeOk(n, false)
    ensures Loop(m, NodeItems(n) + rest, start)
         == Loop(m.(state := InElement, calls := m.calls + EncodeNode(key, n)), rest, start)
    decreases n, 2
  {
    var items := NodeItems(n) + rest;
    var m1 := m.(state := DocValue(key, n.spec));
    assert items[0] == Text(n.spec) && items[1] == NodeItems(n)[1];
    assert items[1..][1..] == rest;
    Round(m, items, m1, start);
    TypedValue(m1, key, n, InElement);
    assert Step(m1, items[1..][0]) == ValueStep(m1, key, Some(n.spec), NodeItems(n)[1], InElement);
  }

  lemma {:induction false} FieldsRun(m: Machine, fs: seq<Field>, rest: seq<Item>, start: State)
    requires m.state == InElement && |m.indexes| <= |m.docs| && |m.docs| + FieldsDepth(fs) <= STACK_SIZE
    requires FieldsOk(fs)
    ensures Loop(m, FieldsItems(fs) + rest, start)
         == Loop(m.(calls := m.calls + EncodeFields(fs)), rest, start)
    decreases fs, 0
  {
    hide Loop;
    hide NodeItems;
    hide EncodeNode;
    hide NodeOk;
    hide Depth;
    hide Decimal;
    if fs == [] {
      assert FieldsItems(fs) + rest == rest && m.calls + EncodeFields(fs) == m.calls;
    } else {
      var rest1 := FieldsItems(fs[1..]) + rest;
      assert FieldsItems(fs) + rest == [Text(fs[0].key)] + NodeItems(fs[0].node) + rest1;
      FieldRuns(m, fs[0], rest1, start);
      var calls := EncodeNode(fs[0].key, fs[0].node);
      FieldsRun(m.(calls := m.calls + calls), fs[1..], rest, start);
      assert m.calls + calls + EncodeFields(fs[1..]) == m.calls + EncodeFields(fs);
    }
  }

  /** One array element: its key is the index, which then moves on and outlives whatever is nested. */
  lemma {:induction false} ElementRuns(m: Machine, n: Node, rest: seq<Item>, start: State)
    requires m.state == ArraySpecValue && |m.indexes| <= |m.docs| && |m.docs| + Depth(n) <= STACK_SIZE
    requires NodeOk(n, true) && m.index < INDEX_LIMIT
    ensures Loop(m, NodeItems(n) + rest, start)
         == Loop(m.(index := m.index + 1, calls := m.calls + EncodeNode(Decimal(m.index), n)), rest, start)
    decreases n, 3
  {
    hide Loop;
    hide Decimal;
    hide FieldsOk;
    hide NodesOk;
    var mm, key := m.(index := m.index + 1), Decimal(m.index);
    match n
    case Plain(s) => PlainRuns(m, mm, key, s, ArraySpecValue, rest, start);
    case Braced(fs) => BracedRuns(m, mm, key, fs, ArraySpecValue, rest, start);
    case Bracketed(ns) => BracketedRuns(m, mm, key, ns, ArraySpecValue, rest, start);
    case _ => TypedElementRuns(m, n, rest, start);
  }

  lemma {:induction false} TypedElementRuns(m: Machine, n: Node, rest: seq<Item>, start: State)
    requires m.state == ArraySpecValue && m.index < INDEX_LIMIT
    requires (n.Typed? || n.ByRefDoc? || n.ByRefArr?) && NodeOk(n, true)
    ensures Loop(m, NodeItems(n) + rest, start)
         == Loop(m.(index := m.index + 1, calls := m.calls + EncodeNode(Decimal(m.index), n)), rest, start)
    decreases n, 2
  {
    var items, key := NodeItems(n) + rest, Decimal(m.index);
    var m1 := m.(state := ArrayValue(n.spec));
    assert items[0] == Text(n.spec) && items[1] == NodeItems(n)[1];
    assert items[1..][1..] == rest;
    Round(m, items, m1, start);
    TypedValue(m1.(index := m.index + 1), key, n, ArraySpecValue);
    assert Step(m1, items[1..][0])
        == ValueStep(m1.(index := m.index + 1), key, Some(n.spec), NodeItems(n)[1], ArraySpecValue);
  }

  lemma Associative<T>(a: seq<T>, b: seq<T>, c: seq<T>)
    ensures a + b + c == a + (b + c)
  {
  }

  lemma {:induction false} NodesRun(m: Machine, ns: seq<Node>, rest: seq<Item>, start: State)
    requires m.state == ArraySpecValue && |m.indexes| <= |m.docs| && |m.docs| + NodesDepth(ns) <= STACK_SIZE
    requires NodesOkEach(ns) && m.index + |ns| <= INDEX_LIMIT
    ensures Loop(m, NodesItems(ns) + rest, start)
         == Loop(m.(index := m.index + |ns|, calls := m.calls + EncodeNodes(ns, m.index)), rest, start)
    decreases ns, 0
  {
    hide Loop;
    hide NodeItems;
    hide EncodeNode;
    hide NodeOk;
    hide Depth;
    hide Decimal;
    if ns == [] {
      assert NodesItems(ns) + rest == rest && m.calls + EncodeNodes(ns, m.index) == m.calls;
    } else {
      var rest1 := NodesItems(ns[1..]) + rest;
      Associative(NodeItems(ns[0]), NodesItems(ns[1..]), rest);
      ElementRuns(m, ns[0], rest1, start);
      var calls := EncodeNode(Decimal(m.index), ns[0]);
      var m1 := m.(index := m.index + 1, calls := m.calls + calls);
      NodesRun(m1, ns[1..], rest, start);
      Associative(m.calls, calls, EncodeNodes(ns[1..], m1.index));
    }
  }

  /** A balanced document makes exactly the recursive encoder's calls and ends in its start state. */
  lemma {:induction false} DocumentRuns(fs: seq<Field>)
    requires FieldsOk(fs) && FieldsDepth(fs) <= STACK_SIZE
    ensures Run(FieldsItems(fs) + [Text(Mark('.'))], InElement) == Finished(OK, EncodeFields(fs))
    decreases fs, 1
  {
    FieldsRun(Machine(InElement, [], [], 0, []), fs, [Text(Mark('.'))], InElement);
  }

  lemma {:induction false} ArrayRuns(ns: seq<Node>)
    requires NodesOk(ns) && NodesDepth(ns) <= STACK_SIZE
    ensures Run(NodesItems(ns) + [Text(Mark('.'))], ArraySpecValue) == Finished(OK, EncodeNodes(ns, 0))
    decreases ns, 1
  {
    NodesRun(Machine(ArraySpecValue, [], [], 0, []), ns, [Text(Mark('.'))], ArraySpecValue);
  }

  // ---- Documents cut short ----

  /** A key without a value is reported. */
  lemma {:induction false} KeyWithoutValue(fs: seq<Field>, key: cstring)
    requires FieldsOk(fs) && FieldsDepth(fs) <= STACK_SIZE && TokenOf(key) != CloseBrace && TokenOf(key) != End
    ensures Run(FieldsItems(fs) + [Text(key), Text(Mark('.'))], InElement) == Finished(INCOMPLETE, EncodeFields(fs))
  {
    hide FieldsItems;
    hide EncodeFields;
    hide FieldsOk;
    hide Loop;
    var m := Machine(InElement, [], [], 0, []);
    var rest := [Text(key), Text(Mark('.'))];
    FieldsRun(m, fs, rest, InElement);
    assert [] + EncodeFields(fs) == EncodeFields(fs);
    var m1 := m.(calls := EncodeFields(fs));
    Round(m1, rest, m1.(state := DocSpecValue(key)), InElement);
    CutHere(m1.(state := DocSpecValue(key)), rest[1..]);
  }

  /** An array left open is reported, a sub-document left open is not: its state is the one the loop began in. */
  lemma {:induction false} LeftOpen(fs: seq<Field>, key: cstring)
    requires FieldsOk(fs) && FieldsDepth(fs) <= STACK_SIZE && TokenOf(key) != CloseBrace && TokenOf(key) != End
    ensures Run(FieldsItems(fs) + [Text(key), Text(Mark('[')), Text(Mark('.'))], InElement)
         == Finished(INCOMPLETE, EncodeFields(fs) + [StartArray(key)])
    ensures Run(FieldsItems(fs) + [Text(key), Text(Mark('{')), Text(Mark('.'))], InElement)
         == Finished(OK, EncodeFields(fs) + [StartObject(key)])
  {
    hide FieldsItems;
    hide EncodeFields;
    hide FieldsOk;
    hide Loop;
    var m := Machine(InElement, [], [], 0, []);
    var list := [Text(key), Text(Mark('[')), Text(Mark('.'))];
    var sub := [Text(key), Text(Mark('{')), Text(Mark('.'))];
    FieldsRun(m, fs, list, InElement);
    FieldsRun(m, fs, sub, InElement);
    var m1 := m.(calls := EncodeFields(fs));
    assert [] + EncodeFields(fs) == EncodeFields(fs);
    OpenedAndCut(m1, key, list);
    OpenedAndCut(m1, key, sub);
  }

  lemma OpenedAndCut(m: Machine, key: cstring, items: seq<Item>)
    requires m.state == InElement && m.docs == [] && m.indexes == []
    requires TokenOf(key) != CloseBrace && TokenOf(key) != End
    requires |items| == 3 && items[0] == Text(key) && items[2] == Text(Mark('.'))
    ensures items[1] == Text(Mark('[')) ==>
              Loop(m, items, InElement) == Finished(INCOMPLETE, m.calls + [StartArray(key)])
    ensures items[1] == Text(Mark('{')) ==> Loop(m, items, InElement) == Finished(OK, m.calls + [StartObject(key)])
  {
    hide Loop;
    var m1 := m.(state := DocSpecValue(key));
    Round(m, items, m1, InElement);
    assert items[1..][0] == items[1] && items[1..][1..][0] == items[2];
    if items[1] == Text(Mark('[')) {
      var m2 := m1.(state := ArraySpecValue, docs := [InElement], indexes := [m.index], index := 0,
                    calls := m.calls + [StartArray(key)]);
      Round(m1, items[1..], m2, InElement);
      CutHere(m2, items[1..][1..]);
    }
    if items[1] == Text(Mark('{')) {
      var m2 := m1.(state := InElement, docs := [InElement], calls := m.calls + [StartObject(key)]);
      Round(m1, items[1..], m2, InElement);
      CutHere(m2, items[1..][1..]);
    }
  }

  lemma CutHere(m: Machine, items: seq<Item>)
    requires items != [] && items[0] == Text(Mark('.'))
    requires m.state == InElement || m.state == ArraySpecValue || m.state.DocSpecValue?
    ensures Loop(m, items, InElement) == Finished(if m.state == InElement then OK else INCOMPLETE, m.calls)
  {
  }
}
