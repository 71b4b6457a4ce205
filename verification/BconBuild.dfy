/** The BCON loop of bcon.c as it runs, appending to a document buffer. */
module BconBuild {
  import opened Wrappers
  import opened Bytes
  import opened BsonErrors
  import opened BsonFormat
  import opened Bcon
  import B = BsonBuilder
  import T = BsonRoundTrip
  import Encoding

  // ---- What a run of append calls does to a document ----

  /** A document under construction, its size in bytes, and whether every call so far was sure to succeed. */
  datatype Progress = Progress(doc: Partial, size: nat, fits: bool)

  function Added(s: Progress, e: Element): Progress {
    var size := s.size + |EncodeElement(e)|;
    Progress(s.doc.Add(e), size,
             s.fits && Encoding.Accepted(e.name) && B.ValueAccepted(e.value) && size <= T.SAFE_SIZE)
  }

  function Opened(s: Progress, isArray: bool, key: cstring): Progress {
    var size := s.size + |key| + 6;
    Progress(s.doc.Open(isArray, key), size, s.fits && Encoding.Accepted(key) && size + 1 <= T.SAFE_SIZE)
  }

  function Closed(s: Progress): Progress {
    Progress(if s.doc.Sub? then s.doc.Close() else s.doc, s.size + 1,
             s.fits && s.doc.Sub? && s.size + 1 <= T.SAFE_SIZE)
  }

  function After(s: Progress, c: Call): Progress {
    match c
    case StartObject(key) => Opened(s, false, key)
    case StartArray(key) => Opened(s, true, key)
    case Finish => Closed(s)
    case Append(key, v) => Added(s, Element(key, v))
  }

  function Made(s: Progress, calls: seq<Call>): Progress
    decreases |calls|
  {
    if calls == [] then s else Made(After(s, calls[0]), calls[1..])
  }

  lemma {:induction false} MadeConcat(s: Progress, a: seq<Call>, b: seq<Call>)
    ensures Made(s, a + b) == Made(Made(s, a), b)
    decreases |a|
  {
    hide After;
    if a == [] {
      assert a + b == b;
    } else {
      assert (a + b)[1..] == a[1..] + b;
      MadeConcat(After(s, a[0]), a[1..], b);
    }
  }

  lemma {:induction false} MadeSnoc(s: Progress, a: seq<Call>, c: Call)
    ensures Made(s, a + [c]) == After(Made(s, a), c)
  {
    hide After;
    MadeConcat(s, a, [c]);
    assert Made(Made(s, a), [c]) == Made(After(Made(s, a), c), []);
  }

  // ---- The append calls on a buffer ----

  /** The buffer holds what s says as long as no call has failed, and none fails that s is sure of. */
  ghost predicate Tracks(b: B.Bson, s: Progress, ok: bool, clean: bool)
    reads b, b.data
  {
    && b.Valid() && !b.finished
    && (ok ==> b.doc == s.doc && b.cur == s.size && (clean ==> NotUtf8 !in b.err))
    && (s.fits && b.ownsData ==> ok)
  }

  method Start(b: B.Bson, isArray: bool, key: cstring, ghost s: Progress, ghost ok0: bool, ghost clean: bool)
    returns (ghost ok: bool)
    requires Tracks(b, s, ok0, clean)
    modifies b, b.data
    ensures Tracks(b, Opened(s, isArray, key), ok, clean) && (b.data == old(b.data) || fresh(b.data))
  {
    hide Building;
    hide Encoding.Accepted;
    hide Encoding.ErrorsOf;
    T.NoNameErrors(key);
    var done := b.StartSubdocument(isArray, key);
    ok := ok0 && done;
  }

  method Stop(b: B.Bson, ghost s: Progress, ghost ok0: bool, ghost clean: bool) returns (ghost ok: bool)
    requires Tracks(b, s, ok0, clean)
    modifies b, b.data
    ensures Tracks(b, Closed(s), ok, clean) && (b.data == old(b.data) || fresh(b.data))
  {
    hide Building;
    var done := b.FinishSubdocument();
    ok := ok0 && done;
  }

  twostate lemma Recorded(b: B.Bson, new e: Element, new done: bool, new s: Progress, new ok0: bool, new clean: bool)
    requires old(Tracks(b, s, ok0, clean)) && b.Appended(done, e)
    ensures Tracks(b, Added(s, e), ok0 && done, clean)
  {
    hide Building;
    hide EncodeElement;
    hide Encoding.Accepted;
    hide Encoding.ErrorsOf;
    T.NoNameErrors(e.name);
  }

  /** A value appended by its type letter. */
  method AppendByLetter(b: B.Bson, key: cstring, u: byte, d: Datum, ghost s: Progress, ghost ok0: bool,
                        ghost clean: bool)
    returns (ghost ok: bool)
    requires Tracks(b, s, ok0, clean)
    requires ActionOf(d).Put? && (Letter(u, d) || (u == '_' as int && d.Scalar? && d.v.Str?))
    modifies b, b.data
    ensures Tracks(b, Added(s, Element(key, ActionOf(d).v)), ok, clean) && (b.data == old(b.data) || fresh(b.data))
  {
    hide Building;
    hide EncodeElement;
    hide B.ValueAccepted;
    hide B.Bson.Valid;
    hide Added;
    hide Tracks;
    label start:
    TracksValid(b, s, ok0, clean);
    var done: bool;
    if u == '_' as int || u == 's' as int {
      done := b.AppendStringBase(d.v, key, d.v.s, 2);
    } else if u == 'f' as int {
      done := b.AppendDouble(key, d.v.bits);
    } else if u == 'o' as int {
      done := b.AppendOid(key, d.v.oid);
    } else if u == 'b' as int {
      done := b.AppendBool(key, d.v.b);
    } else if u == 't' as int {
      done := b.AppendDate(key, d.secs * 1000);
    } else if u == 'v' as int {
      done := b.AppendNull(key);
    } else if u == 'x' as int {
      done := b.AppendStringBase(d.v, key, d.v.s, 14);
    } else if u == 'i' as int {
      done := b.AppendInt(key, d.v.i);
    } else {
      done := b.AppendLong(key, d.v.l);
    }
    Recorded(b, Element(key, ActionOf(d).v), done, s, ok0, clean);
    ok := ok0 && done;
  }

  lemma TracksValid(b: B.Bson, s: Progress, ok: bool, clean: bool)
    requires Tracks(b, s, ok, clean)
    ensures b.Valid()
  {
  }

  method AppendKeyValue(b: B.Bson, key: cstring, spec: Option<cstring>, item: Item,
                        ghost s: Progress, ghost ok0: bool, ghost clean: bool)
    returns (ret: Return, ghost ok: bool)
    requires Tracks(b, s, ok0, clean) && ValueRun(key, spec, item).Finished?
    modifies b, b.data
    ensures b.data == old(b.data) || fresh(b.data)
    ensures ret == ValueRun(key, spec, item).r
    ensures Tracks(b, Made(s, ValueRun(key, spec, item).calls), ok, clean)
    decreases item, 1
  {
    hide Tracks;
    hide Run;
    ret, ok := OK, ok0;
    if spec.None? {
      OneCall(s, Append(key, Str(item.s)));
      ok := AppendByLetter(b, key, '_' as int, Scalar(Str(item.s)), s, ok0, clean);
    } else if item.d.NullPointer? {
      assert Made(s, []) == s;
    } else if spec.value[2] == 'D' as int {
      ret, ok := AppendNested(b, false, key, item.d.items, s, ok0, clean);
    } else if spec.value[2] == 'A' as int {
      ret, ok := AppendNested(b, true, key, item.d.items, s, ok0, clean);
    } else {
      OneCall(s, Append(key, ActionOf(item.d).v));
      ok := AppendByLetter(b, key, spec.value[2], item.d, s, ok0, clean);
    }
  }

  lemma OneCall(s: Progress, c: Call)
    ensures Made(s, [c]) == After(s, c)
  {
    MadeSnoc(s, [], c);
    assert [] + [c] == [c];
  }

  /** A document or array given by reference: opened, run on its own, closed. */
  method AppendNested(b: B.Bson, isArray: bool, key: cstring, items: seq<Item>,
                      ghost s: Progress, ghost ok0: bool, ghost clean: bool)
    returns (ret: Return, ghost ok: bool)
    requires Tracks(b, s, ok0, clean)
    requires Run(items, StartState(isArray)).Finished?
    modifies b, b.data
    ensures b.data == old(b.data) || fresh(b.data)
    ensures ret == Run(items, StartState(isArray)).r
    ensures Tracks(b, Made(s, Wrapped(StartCall(isArray, key), Run(items, StartState(isArray))).calls), ok, clean)
    decreases items, 2
  {
    hide Tracks;
    hide Run;
    hide Opened;
    hide Closed;
    ghost var o := Run(items, StartState(isArray));
    ghost var call := StartCall(isArray, key);
    OneCall(s, call);
    MadeConcat(s, [call], o.calls);
    MadeSnoc(s, [call] + o.calls, Finish);
    ok := Start(b, isArray, key, s, ok0, clean);
    ret, ok := AppendWithState(b, items, isArray, Opened(s, isArray, key), ok, clean);
    ok := Stop(b, Made(Opened(s, isArray, key), o.calls), ok, clean);
  }

  function StartState(isArray: bool): State {
    if isArray then ArraySpecValue else InElement
  }

  function StartCall(isArray: bool, key: cstring): Call {
    if isArray then StartArray(key) else StartObject(key)
  }

  // ---- The loop ----

  /** bcon_state_t. */
  datatype Mode = AtElement | AtDocSpec | AtDocValue | AtArraySpec | AtArrayValue

  function StateOf(mode: Mode, key: cstring, spec: Option<cstring>): State {
    match mode
    case AtElement => InElement
    case AtDocSpec => DocSpecValue(key)
    case AtDocValue => DocValue(key, if spec.Some? then spec.value else [])
    case AtArraySpec => ArraySpecValue
    case AtArrayValue => ArrayValue(if spec.Some? then spec.value else [])
  }

  /** The loop's variables and its two stacks. */
  class Variables {
    var mode: Mode
    var key: cstring
    var typespec: Option<cstring>
    const docStack: array<Mode>
    var docs: nat
    var index: nat
    const indexStack: array<nat>
    var indexes: nat
    ghost var m: Machine

    /** They show machine m; a typespec is set exactly while its value is awaited. */
    ghost predicate Valid()
      reads this, docStack, indexStack
    {
      && docs <= docStack.Length == STACK_SIZE && indexes <= indexStack.Length == STACK_SIZE
      && m.state == StateOf(mode, key, typespec)
      && (typespec.Some? <==> mode == AtDocValue || mode == AtArrayValue)
      && m.index == index && m.indexes == indexStack[..indexes]
      && StackShows(docStack[..docs], m.docs)
    }

    constructor (isArray: bool)
      ensures Valid() && fresh(docStack) && fresh(indexStack)
      ensures m == Machine(StartState(isArray), [], [], 0, [])
    {
      mode := if isArray then AtArraySpec else AtElement;
      key, typespec := [], None;
      docStack := new Mode[STACK_SIZE];
      indexStack := new nat[STACK_SIZE];
      docs, index, indexes := 0, 0, 0;
      m := Machine(StartState(isArray), [], [], 0, []);
    }

    method PushState(back: Mode)
      requires Valid() && docs < STACK_SIZE && (back == AtElement || back == AtArraySpec)
      modifies `docs, `m, docStack
      ensures Valid() && m == old(m).(docs := old(m).docs + [StateOf(back, [], None)])
    {
      docStack[docs] := back;
      docs := docs + 1;
      m := m.(docs := m.docs + [StateOf(back, [], None)]);
      assert docStack[..docs] == old(docStack[..docs]) + [back];
    }

    method PopState()
      requires Valid() && docs > 0 && typespec.None?
      modifies `docs, `m, `mode
      ensures Valid() && docs == old(docs) - 1
      ensures m == old(m).(state := old(m).docs[docs], docs := old(m).docs[..docs])
    {
      docs := docs - 1;
      mode := docStack[docs];
      m := m.(state := m.docs[docs], docs := m.docs[..docs]);
      assert docStack[..docs] == old(docStack[..docs])[..docs];
    }

    method PushIndex()
      requires Valid() && indexes < STACK_SIZE
      modifies `indexes, `index, `m, indexStack
      ensures Valid() && m == old(m).(indexes := old(m).indexes + [old(m).index], index := 0)
    {
      indexStack[indexes] := index;
      indexes, index := indexes + 1, 0;
      m := m.(indexes := m.indexes + [m.index], index := 0);
    }

    method PopIndex()
      requires Valid() && indexes > 0
      modifies `indexes, `index, `m
      ensures Valid() && indexes == old(indexes) - 1
      ensures m == old(m).(index := old(m).indexes[indexes], indexes := old(m).indexes[..indexes])
    {
      indexes := indexes - 1;
      index := indexStack[indexes];
      m := m.(index := m.indexes[indexes], indexes := m.indexes[..indexes]);
    }

    /** The next array index as a key. */
    method NextKey()
      requires Valid() && (mode == AtArraySpec || mode == AtArrayValue)
      modifies `index, `m, `key
      ensures Valid() && key == Decimal(old(m).index) && m == old(m).(index := old(m).index + 1)
      ensures Spelled(key) == old(index)
    {
      DecimalSpells(index);
      hide Decimal;
      key := Decimal(index);
      index := index + 1;
      m := m.(index := m.index + 1);
    }
  }

  predicate StackShows(modes: seq<Mode>, states: seq<State>) {
    |modes| == |states| &&
    forall i :: 0 <= i < |modes| ==>
      (modes[i] == AtElement && states[i] == InElement) || (modes[i] == AtArraySpec && states[i] == ArraySpecValue)
  }

  ghost predicate Joint(v: Variables, b: B.Bson, s: Progress, ok: bool, clean: bool)
    reads v, v.docStack, v.indexStack, b, b.data
  {
    v.Valid() && Tracks(b, Made(s, v.m.calls), ok, clean)
  }

  lemma Rounds(m: Machine, items: seq<Item>, i: nat, start: State)
    requires i <= |items| && Loop(m, items[i..], start).Finished?
    ensures i < |items|
    ensures var next := Step(m, items[i]);
            match next
            case Broken => false
            case Stop(m') =>
              Loop(m, items[i..], start) == Finished(if m'.state == start then OK else INCOMPLETE, m'.calls)
            case Go(m') => Loop(m, items[i..], start) == Loop(m', items[i + 1..], start)
  {
    assert items[i..] != [] && items[i..][0] == items[i] && items[i..][1..] == items[i + 1..];
  }

  method OpenObject(v: Variables, b: B.Bson, back: Mode, ghost s: Progress, ghost ok0: bool, ghost clean: bool)
    returns (ghost ok: bool)
    requires Joint(v, b, s, ok0, clean) && v.typespec.None? && v.docs < STACK_SIZE
    requires back == AtElement || back == AtArraySpec
    modifies v, v.docStack, v.indexStack, b, b.data
    ensures b.data == old(b.data) || fresh(b.data)
    ensures Go(v.m) == Push(old(v.m), StartObject(old(v.key)), StateOf(back, [], None), InElement)
    ensures Joint(v, b, s, ok, clean)
  {
    hide Tracks;
    hide Made;
    hide Opened;
    ghost var calls := v.m.calls;
    MadeSnoc(s, calls, StartObject(v.key));
    ok := Start(b, false, v.key, Made(s, calls), ok0, clean);
    v.PushState(back);
    v.mode := AtElement;
    v.m := v.m.(state := InElement, calls := calls + [StartObject(v.key)]);
  }

  method OpenArray(v: Variables, b: B.Bson, back: Mode, ghost s: Progress, ghost ok0: bool, ghost clean: bool)
    returns (ghost ok: bool)
    requires Joint(v, b, s, ok0, clean) && v.typespec.None? && v.docs < STACK_SIZE && v.indexes < STACK_SIZE
    requires back == AtElement || back == AtArraySpec
    modifies v, v.docStack, v.indexStack, b, b.data
    ensures b.data == old(b.data) || fresh(b.data)
    ensures Go(v.m) == PushArray(old(v.m), old(v.key), StateOf(back, [], None))
    ensures Joint(v, b, s, ok, clean)
  {
    hide Tracks;
    hide Made;
    hide Opened;
    ghost var calls := v.m.calls;
    MadeSnoc(s, calls, StartArray(v.key));
    ok := Start(b, true, v.key, Made(s, calls), ok0, clean);
    v.PushIndex();
    v.PushState(back);
    v.mode := AtArraySpec;
    v.m := v.m.(state := ArraySpecValue, calls := calls + [StartArray(v.key)]);
  }

  method CloseArray(v: Variables, b: B.Bson, ghost s: Progress, ghost ok0: bool, ghost clean: bool)
    returns (ghost ok: bool)
    requires Joint(v, b, s, ok0, clean) && v.typespec.None? && v.docs > 0 && v.indexes > 0
    modifies v, b, b.data
    ensures b.data == old(b.data) || fresh(b.data)
    ensures Go(v.m) == PopArray(old(v.m))
    ensures Joint(v, b, s, ok, clean)
  {
    hide Tracks;
    hide Made;
    hide Closed;
    ghost var calls := v.m.calls;
    MadeSnoc(s, calls, Finish);
    ok := Stop(b, Made(s, calls), ok0, clean);
    v.m := v.m.(calls := calls + [Finish]);
    v.PopIndex();
    v.PopState();
  }

  method OnElement(v: Variables, b: B.Bson, item: Item, ghost s: Progress, ghost ok0: bool, ghost clean: bool)
    returns (end: bool, ghost ok: bool)
    requires Joint(v, b, s, ok0, clean) && v.mode == AtElement && !Step(v.m, item).Broken?
    modifies v, v.docStack, v.indexStack, b, b.data
    ensures b.data == old(b.data) || fresh(b.data)
    ensures v.m == Step(old(v.m), item).m && Joint(v, b, s, ok, clean)
    ensures end == Step(old(v.m), item).Stop?
  {
    hide Tracks;
    hide Made;
    hide ValueRun;
    hide Decimal;
    hide Opened;
    hide Closed;
    ghost var calls := v.m.calls;
    ghost var now := Made(s, calls);
    ok := ok0;
    end := false;
    var token := TokenOf(item.s);
    if token == CloseBrace {
      MadeSnoc(s, calls, Finish);
      ok := Stop(b, now, ok, clean);
      v.m := v.m.(calls := calls + [Finish]);
      v.PopState();
    } else if token == End {
      end := true;
    } else {
      v.key, v.mode := item.s, AtDocSpec;
      v.m := v.m.(state := DocSpecValue(item.s));
    }
  }

  method OnDocSpec(v: Variables, b: B.Bson, item: Item, ghost s: Progress, ghost ok0: bool, ghost clean: bool)
    returns (ret: Return, end: bool, ghost ok: bool)
    requires Joint(v, b, s, ok0, clean) && v.mode == AtDocSpec && !Step(v.m, item).Broken?
    modifies v, v.docStack, v.indexStack, b, b.data
    ensures b.data == old(b.data) || fresh(b.data)
    ensures v.m == Step(old(v.m), item).m && Joint(v, b, s, ok, clean)
    ensures (end || ret != OK) == Step(old(v.m), item).Stop?
    decreases item, 2
  {
    hide Tracks;
    hide Made;
    hide ValueRun;
    hide Decimal;
    hide Opened;
    hide Closed;
    ghost var calls := v.m.calls;
    ghost var now := Made(s, calls);
    ok := ok0;
    ret, end := OK, false;
    var token := TokenOf(item.s);
    if token == Typespec {
      v.typespec, v.mode := Some(item.s), AtDocValue;
      v.m := v.m.(state := DocValue(v.key, item.s));
    } else if token == OpenBrace {
      ok := OpenObject(v, b, AtElement, s, ok, clean);
    } else if token == OpenBracket {
      ok := OpenArray(v, b, AtElement, s, ok, clean);
    } else if token == End {
      end := true;
    } else {
      MadeConcat(s, calls, ValueRun(v.key, v.typespec, item).calls);
      v.m := v.m.(state := InElement, calls := calls + ValueRun(v.key, v.typespec, item).calls);
      ret, ok := AppendKeyValue(b, v.key, v.typespec, item, now, ok, clean);
      v.mode := AtElement;
    }
  }

  method OnDocValue(v: Variables, b: B.Bson, item: Item, ghost s: Progress, ghost ok0: bool, ghost clean: bool)
    returns (ret: Return, ghost ok: bool)
    requires Joint(v, b, s, ok0, clean) && v.mode == AtDocValue && !Step(v.m, item).Broken?
    modifies v, v.docStack, v.indexStack, b, b.data
    ensures b.data == old(b.data) || fresh(b.data)
    ensures v.m == Step(old(v.m), item).m && Joint(v, b, s, ok, clean)
    ensures (ret != OK) == Step(old(v.m), item).Stop?
    decreases item, 2
  {
    hide Tracks;
    hide Made;
    hide ValueRun;
    hide Decimal;
    hide Opened;
    hide Closed;
    ghost var calls := v.m.calls;
    ghost var now := Made(s, calls);
    ok := ok0;
    MadeConcat(s, calls, ValueRun(v.key, v.typespec, item).calls);
    v.m := v.m.(state := InElement, calls := calls + ValueRun(v.key, v.typespec, item).calls);
    ret, ok := AppendKeyValue(b, v.key, v.typespec, item, now, ok, clean);
    v.mode := AtElement;
    v.typespec := None;
  }

  /** An element without a typespec: a sub-document, an array or a string, under the next index. */
  method OnNextElement(v: Variables, b: B.Bson, item: Item, ghost s: Progress, ghost ok0: bool, ghost clean: bool)
    returns (ret: Return, ghost ok: bool)
    requires Joint(v, b, s, ok0, clean) && v.mode == AtArraySpec && !Step(v.m, item).Broken?
    requires TokenOf(item.s) != Typespec && TokenOf(item.s) != CloseBracket && TokenOf(item.s) != End
    modifies v, v.docStack, v.indexStack, b, b.data
    ensures b.data == old(b.data) || fresh(b.data)
    ensures v.m == Step(old(v.m), item).m && Joint(v, b, s, ok, clean)
    ensures (ret != OK) == Step(old(v.m), item).Stop?
    decreases item, 2
  {
    hide Tracks;
    hide Made;
    hide ValueRun;
    hide Decimal;
    ret := OK;
    v.NextKey();
    var token := TokenOf(item.s);
    if token == OpenBrace {
      ok := OpenObject(v, b, AtArraySpec, s, ok0, clean);
    } else if token == OpenBracket {
      ok := OpenArray(v, b, AtArraySpec, s, ok0, clean);
    } else {
      ghost var calls := v.m.calls;
      MadeConcat(s, calls, ValueRun(v.key, v.typespec, item).calls);
      v.m := v.m.(calls := calls + ValueRun(v.key, v.typespec, item).calls);
      ret, ok := AppendKeyValue(b, v.key, v.typespec, item, Made(s, calls), ok0, clean);
    }
  }

  method OnArraySpec(v: Variables, b: B.Bson, item: Item, ghost s: Progress, ghost ok0: bool, ghost clean: bool)
    returns (ret: Return, end: bool, ghost ok: bool)
    requires Joint(v, b, s, ok0, clean) && v.mode == AtArraySpec && !Step(v.m, item).Broken?
    modifies v, v.docStack, v.indexStack, b, b.data
    ensures b.data == old(b.data) || fresh(b.data)
    ensures v.m == Step(old(v.m), item).m && Joint(v, b, s, ok, clean)
    ensures (end || ret != OK) == Step(old(v.m), item).Stop?
    decreases item, 3
  {
    hide Tracks;
    hide Made;
    hide ValueStep;
    hide Decimal;
    hide Push;
    hide PushArray;
    ok := ok0;
    ret, end := OK, false;
    var token := TokenOf(item.s);
    if token == Typespec {
      v.typespec, v.mode := Some(item.s), AtArrayValue;
      v.m := v.m.(state := ArrayValue(item.s));
    } else if token == CloseBracket {
      ok := CloseArray(v, b, s, ok, clean);
    } else if token == End {
      end := true;
    } else {
      ret, ok := OnNextElement(v, b, item, s, ok, clean);
    }
  }

  method OnArrayValue(v: Variables, b: B.Bson, item: Item, ghost s: Progress, ghost ok0: bool, ghost clean: bool)
    returns (ret: Return, ghost ok: bool)
    requires Joint(v, b, s, ok0, clean) && v.mode == AtArrayValue && !Step(v.m, item).Broken?
    modifies v, v.docStack, v.indexStack, b, b.data
    ensures b.data == old(b.data) || fresh(b.data)
    ensures v.m == Step(old(v.m), item).m && Joint(v, b, s, ok, clean)
    ensures (ret != OK) == Step(old(v.m), item).Stop?
    decreases item, 2
  {
    hide Tracks;
    hide Made;
    hide ValueRun;
    hide Decimal;
    hide Opened;
    hide Closed;
    ghost var calls := v.m.calls;
    ghost var now := Made(s, calls);
    ok := ok0;
    v.NextKey();
    MadeConcat(s, calls, ValueRun(v.key, v.typespec, item).calls);
    v.m := v.m.(state := ArraySpecValue, calls := calls + ValueRun(v.key, v.typespec, item).calls);
    ret, ok := AppendKeyValue(b, v.key, v.typespec, item, now, ok, clean);
    v.mode := AtArraySpec;
    v.typespec := None;
  }

  method AppendWithState(b: B.Bson, items: seq<Item>, isArray: bool, ghost s: Progress, ghost ok0: bool,
                         ghost clean: bool)
    returns (r: Return, ghost ok: bool)
    requires Tracks(b, s, ok0, clean)
    requires Run(items, StartState(isArray)).Finished?
    modifies b, b.data
    ensures b.data == old(b.data) || fresh(b.data)
    ensures r == Run(items, StartState(isArray)).r
    ensures Tracks(b, Made(s, Run(items, StartState(isArray)).calls), ok, clean)
    decreases items, 1
  {
    hide Tracks;
    hide Loop;
    hide Step;
    hide Made;
    var v := new Variables(isArray);
    var start, ret, end, i := v.mode, OK, false, 0;
    ghost var first, outcome := StartState(isArray), Run(items, StartState(isArray));
    ok := ok0;
    NoCalls(s);
    while ret == OK && !end
      invariant b.data == old(b.data) || fresh(b.data)
      invariant fresh(v) && fresh(v.docStack) && fresh(v.indexStack)
      invariant i <= |items|
      invariant Joint(v, b, s, ok, clean)
      invariant ret == OK && !end ==> Loop(v.m, items[i..], first) == outcome
      invariant ret != OK || end ==> outcome == Finished(if v.m.state == first then OK else INCOMPLETE, v.m.calls)
      decreases |items| - i, !end, ret == OK
    {
      Rounds(v.m, items, i, first);
      match v.mode {
        case AtElement => end, ok := OnElement(v, b, items[i], s, ok, clean);
        case AtDocSpec => ret, end, ok := OnDocSpec(v, b, items[i], s, ok, clean);
        case AtDocValue => ret, ok := OnDocValue(v, b, items[i], s, ok, clean);
        case AtArraySpec => ret, end, ok := OnArraySpec(v, b, items[i], s, ok, clean);
        case AtArrayValue => ret, ok := OnArrayValue(v, b, items[i], s, ok, clean);
      }
      i := i + 1;
    }
    r := if v.mode == start then OK else INCOMPLETE;
  }

  lemma NoCalls(s: Progress)
    ensures Made(s, []) == s
  {
  }

  // ---- The document a tree stands for ----

  function NodeElements(key: cstring, n: Node): seq<Element>
    decreases n, 0
  {
    match n
    case Plain(t) => [Element(key, Str(t))]
    case Typed(_, d) => (match ActionOf(d) case Put(v) => [Element(key, v)] case _ => [])
    case ByRefDoc(_, fs) => [Element(key, Object(FieldsElements(fs)))]
    case ByRefArr(_, ns) => [Element(key, Array(NodesElements(ns, 0)))]
    case Braced(fs) => [Element(key, Object(FieldsElements(fs)))]
    case Bracketed(ns) => [Element(key, Array(NodesElements(ns, 0)))]
  }

  function FieldsElements(fs: seq<Field>): seq<Element>
    decreases fs, 0
  {
    if fs == [] then [] else NodeElements(fs[0].key, fs[0].node) + FieldsElements(fs[1..])
  }

  function NodesElements(ns: seq<Node>, i: nat): seq<Element>
    decreases ns, 0
  {
    if ns == [] then [] else NodeElements(Decimal(i), ns[0]) + NodesElements(ns[1..], i + 1)
  }

  /** Element k of an array is named by its position, whatever stands before it. */
  lemma NamedByPosition(ns: seq<Node>, k: nat)
    requires k < |ns|
    ensures NodesElements(ns, 0) ==
            NodesElements(ns[..k], 0) + (NodeElements(Decimal(k), ns[k]) + NodesElements(ns[k + 1..], k + 1))
    ensures Spelled(Decimal(k)) == k
    ensures forall e :: e in NodeElements(Decimal(k), ns[k]) ==> e.name == Decimal(k)
  {
    hide Decimal;
    hide NodeElements;
    hide NodesElements;
    DecimalSpells(k);
    OneName(Decimal(k), ns[k]);
    assert ns == ns[..k] + ns[k..];
    NodesElementsConcat(ns[..k], ns[k..], 0);
    FirstElements(ns[k..], ns[k], ns[k + 1..], k);
  }

  lemma FirstElements(ns: seq<Node>, n: Node, rest: seq<Node>, i: nat)
    requires ns == [n] + rest
    ensures NodesElements(ns, i) == NodeElements(Decimal(i), n) + NodesElements(rest, i + 1)
  {
    hide Decimal;
    hide NodeElements;
    assert ns[1..] == rest;
  }

  lemma OneName(key: cstring, n: Node)
    ensures forall e :: e in NodeElements(key, n) ==> e.name == key
  {
  }

  lemma {:induction false} NodesElementsConcat(a: seq<Node>, b: seq<Node>, i: nat)
    ensures NodesElements(a + b, i) == NodesElements(a, i) + NodesElements(b, i + |a|)
    decreases |a|
  {
    hide NodeElements;
    hide Decimal;
    if a == [] {
      assert a + b == b;
    } else {
      assert (a + b)[1..] == a[1..] + b;
      NodesElementsConcat(a[1..], b, i + 1);
      Associative(NodeElements(Decimal(i), a[0]), NodesElements(a[1..], i + 1), NodesElements(b, i + |a|));
    }
  }

  /** From s to s' the elements es were appended, each call sure to succeed where es is buildable and fits. */
  predicate Extends(s: Progress, s': Progress, es: seq<Element>) {
    && s'.doc == s.doc.AddAll(es)
    && s'.size == s.size + |EncodeList(es)|
    && (s.fits && T.ElementsBuildable(es) && s'.size <= T.SAFE_SIZE ==> s'.fits)
  }

  lemma {:induction false} BuildableConcat(a: seq<Element>, b: seq<Element>)
    requires T.ElementsBuildable(a + b)
    ensures T.ElementsBuildable(a) && T.ElementsBuildable(b)
  {
    if a == [] {
      assert a + b == b;
    } else {
      assert (a + b)[1..] == a[1..] + b;
      BuildableConcat(a[1..], b);
    }
  }

  lemma {:induction false} ExtendsConcat(s: Progress, s1: Progress, s2: Progress, a: seq<Element>, b: seq<Element>)
    requires Extends(s, s1, a) && Extends(s1, s2, b)
    ensures Extends(s, s2, a + b)
  {
    hide EncodeList;
    hide T.ElementsBuildable;
    EncodeListConcat(a, b);
    assert s.doc.elems + a + b == s.doc.elems + (a + b);
    if T.ElementsBuildable(a + b) {
      BuildableConcat(a, b);
    }
  }

  lemma {:induction false} ExtendsNone(s: Progress)
    ensures Extends(s, s, [])
  {
    assert s.doc.elems + [] == s.doc.elems;
  }

  lemma {:induction false} SingleList(e: Element)
    ensures EncodeList([e]) == EncodeElement(e)
    ensures T.ElementsBuildable([e]) ==> Encoding.Accepted(e.name) && T.ValueBuildable(e.value)
  {
    hide EncodeElement;
    hide Encoding.Accepted;
    hide T.ValueBuildable;
    assert EncodeList([e]) == EncodeElement(e) + EncodeList([]);
  }

  lemma {:induction false} ExtendsLeaf(s: Progress, e: Element)
    requires !e.value.Object? && !e.value.Array?
    ensures Extends(s, Added(s, e), [e])
  {
    hide EncodeElement;
    hide EncodeList;
    hide Encoding.Accepted;
    SingleList(e);
  }

  lemma {:induction false} ExtendsSubdocument(s: Progress, s1: Progress, isArray: bool, key: cstring, es: seq<Element>)
    requires Extends(Opened(s, isArray, key), s1, es)
    ensures Extends(s, Closed(s1), [Element(key, if isArray then Array(es) else Object(es))])
  {
    hide EncodeList;
    hide T.ElementsBuildable;
    hide Encoding.Accepted;
    var e := Element(key, if isArray then Array(es) else Object(es));
    SingleList(e);
    assert [] + es == es;
    assert |EncodeElement(e)| == |key| + 2 + |EncodeDocument(es)|;
  }

  lemma {:induction false} NodeMade(s: Progress, key: cstring, n: Node)
    requires NodeOk(n, false) || NodeOk(n, true)
    ensures Extends(s, Made(s, EncodeNode(key, n)), NodeElements(key, n))
    decreases n, 0
  {
    hide Made;
    hide Extends;
    hide Added;
    hide Opened;
    hide Closed;
    match n
    case Plain(t) =>
      OneCall(s, Append(key, Str(t)));
      ExtendsLeaf(s, Element(key, Str(t)));
    case Typed(_, d) =>
      if ActionOf(d).Put? {
        OneCall(s, Append(key, ActionOf(d).v));
        ExtendsLeaf(s, Element(key, ActionOf(d).v));
      } else {
        NoCalls(s);
        ExtendsNone(s);
      }
    case ByRefDoc(_, fs) => ObjectMade(s, key, fs);
    case ByRefArr(_, ns) =>
      assert NodesOk(ns);
      ArrayMade(s, key, ns);
    case Braced(fs) => ObjectMade(s, key, fs);
    case Bracketed(ns) =>
      assert NodesOk(ns);
      ArrayMade(s, key, ns);
  }

  lemma {:induction false} ObjectMade(s: Progress, key: cstring, fs: seq<Field>)
    requires FieldsOk(fs)
    ensures Extends(s, Made(s, [StartObject(key)] + EncodeFields(fs) + [Finish]),
                    [Element(key, Object(FieldsElements(fs)))])
    decreases fs, 1
  {
    hide Made;
    hide Extends;
    hide Opened;
    hide Closed;
    FieldsMade(Opened(s, false, key), fs);
    Bracketing(s, StartObject(key), EncodeFields(fs));
    ExtendsSubdocument(s, Made(Opened(s, false, key), EncodeFields(fs)), false, key, FieldsElements(fs));
  }

  lemma {:induction false} ArrayMade(s: Progress, key: cstring, ns: seq<Node>)
    requires NodesOk(ns)
    ensures Extends(s, Made(s, [StartArray(key)] + EncodeNodes(ns, 0) + [Finish]),
                    [Element(key, Array(NodesElements(ns, 0)))])
    decreases ns, 1
  {
    hide Made;
    hide Extends;
    hide Opened;
    hide Closed;
    NodesMade(Opened(s, true, key), ns, 0);
    Bracketing(s, StartArray(key), EncodeNodes(ns, 0));
    ExtendsSubdocument(s, Made(Opened(s, true, key), EncodeNodes(ns, 0)), true, key, NodesElements(ns, 0));
  }

  lemma Bracketing(s: Progress, c: Call, calls: seq<Call>)
    ensures Made(s, [c] + calls + [Finish]) == Closed(Made(After(s, c), calls))
  {
    hide Made;
    OneCall(s, c);
    MadeConcat(s, [c], calls);
    MadeSnoc(s, [c] + calls, Finish);
  }

  lemma {:induction false} FieldsMade(s: Progress, fs: seq<Field>)
    requires FieldsOk(fs)
    ensures Extends(s, Made(s, EncodeFields(fs)), FieldsElements(fs))
    decreases fs, 0
  {
    hide Extends;
    hide Made;
    if fs == [] {
      NoCalls(s);
      ExtendsNone(s);
    } else {
      var calls := EncodeNode(fs[0].key, fs[0].node);
      NodeMade(s, fs[0].key, fs[0].node);
      FieldsMade(Made(s, calls), fs[1..]);
      MadeConcat(s, calls, EncodeFields(fs[1..]));
      ExtendsConcat(s, Made(s, calls), Made(s, EncodeFields(fs)),
                    NodeElements(fs[0].key, fs[0].node), FieldsElements(fs[1..]));
    }
  }

  lemma {:induction false} NodesMade(s: Progress, ns: seq<Node>, i: nat)
    requires NodesOkEach(ns)
    ensures Extends(s, Made(s, EncodeNodes(ns, i)), NodesElements(ns, i))
    decreases ns, 0
  {
    hide Extends;
    hide Made;
    hide Decimal;
    if ns == [] {
      NoCalls(s);
      ExtendsNone(s);
    } else {
      var calls := EncodeNode(Decimal(i), ns[0]);
      NodeMade(s, Decimal(i), ns[0]);
      NodesMade(Made(s, calls), ns[1..], i + 1);
      MadeConcat(s, calls, EncodeNodes(ns[1..], i + 1));
      ExtendsConcat(s, Made(s, calls), Made(s, EncodeNodes(ns, i)),
                    NodeElements(Decimal(i), ns[0]), NodesElements(ns[1..], i + 1));
    }
  }

  datatype BconStatus = BconOk | DocumentIncomplete | BsonError

  /**
   * bson_from_bcon, on any entries the loop is defined for. It reports incomplete exactly when
   * the loop does and OK only for a finished document; a balanced array gives the bytes of the
   * document its tree fs stands for. The code never sees fs.
   */
  method FromBcon(items: seq<Item>, ghost fs: seq<Field>) returns (r: BconStatus, b: B.Bson)
    requires Run(items, InElement).Finished?
    ensures r == DocumentIncomplete <==> Run(items, InElement).r == INCOMPLETE
    ensures r == BconOk ==> b.Valid() && b.finished && b.Written() == EncodeDocument(b.doc.elems)
    ensures FieldsOk(fs) && FieldsDepth(fs) <= STACK_SIZE && items == FieldsItems(fs) + [Text(Mark('.'))] ==>
              r != DocumentIncomplete
    ensures FieldsOk(fs) && FieldsDepth(fs) <= STACK_SIZE && items == FieldsItems(fs) + [Text(Mark('.'))] &&
            T.ElementsBuildable(FieldsElements(fs)) && |EncodeDocument(FieldsElements(fs))| <= T.SAFE_SIZE ==>
              r == BconOk && b.Written() == EncodeDocument(FieldsElements(fs))
  {
    hide Made;
    hide Loop;
    hide FieldsOk;
    hide FieldsDepth;
    hide FieldsItems;
    hide T.ElementsBuildable;
    hide Building;
    hide EncodeList;
    ghost var es := FieldsElements(fs);
    b := new B.Bson(B.INITIAL_BUFFER_SIZE);
    ghost var s := Progress(Root([]), 4, true);
    if FieldsOk(fs) && FieldsDepth(fs) <= STACK_SIZE {
      DocumentRuns(fs);
      FieldsMade(s, fs);
      assert [] + es == es;
    }
    var ret, ok := AppendWithState(b, items, false, s, true, true);
    if ret != OK {
      r := DocumentIncomplete;
      return;
    }
    var status := b.Finish();
    r := if status == B.OK then BconOk else BsonError;
  }
}
