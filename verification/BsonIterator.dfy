/** Reading documents back: the iterator and accessors of bson.c. */
module BsonIterator {
  import opened Wrappers
  import opened Bytes
  import opened BsonFormat

  /** The bytes s stand in d from offset p on. */
  ghost predicate HoldsAt(d: bytes, p: nat, s: bytes) {
    p + |s| <= |d| && d[p..p + |s|] == s
  }

  lemma HoldsSplit(d: bytes, p: nat, a: bytes, b: bytes)
    requires HoldsAt(d, p, a + b)
    ensures HoldsAt(d, p, a) && HoldsAt(d, p + |a|, b)
  {
    assert d[p..p + |a|] == d[p..p + |a + b|][..|a|];
    assert d[p + |a|..p + |a| + |b|] == d[p..p + |a + b|][|a|..];
  }

  // ---- Raw accessors ----

  /** p + strlen: the offset of the first zero byte from p on. */
  function CStringEnd(d: bytes, p: nat): (q: nat)
    ensures p <= q
    ensures p <= |d| ==> q <= |d|
    decreases |d| - p
  {
    if p < |d| && d[p] != 0 then CStringEnd(d, p + 1) else p
  }

  /** The little-endian int at p; reads past the buffer are not modelled and give 0. */
  function IntAt(d: bytes, p: nat): int {
    if p + 4 <= |d| then Signed(d[p..p + 4]) else 0
  }

  /** Offset of the value of the element at cur: past the type byte and the name. */
  function ValueAt(d: bytes, cur: nat): (v: nat)
    ensures v > cur
  {
    CStringEnd(d, cur + 1) + 1
  }

  /** How far the iterator steps over a value of type t at v; None is the fatal unknown type. */
  function ValueSize(d: bytes, v: nat, t: byte): Option<int> {
    match t
    case 6 => Some(0)
    case 10 => Some(0)
    case 255 => Some(0)
    case 127 => Some(0)
    case 8 => Some(1)
    case 16 => Some(4)
    case 18 => Some(8)
    case 1 => Some(8)
    case 17 => Some(8)
    case 9 => Some(8)
    case 7 => Some(12)
    case 2 => Some(4 + IntAt(d, v))
    case 14 => Some(4 + IntAt(d, v))
    case 13 => Some(4 + IntAt(d, v))
    case 5 => Some(5 + IntAt(d, v))
    case 3 => Some(IntAt(d, v))
    case 4 => Some(IntAt(d, v))
    case 15 => Some(IntAt(d, v))
    case 12 => Some(4 + 12 + IntAt(d, v))
    case 11 =>
      var p := CStringEnd(d, v) + 1;
      Some(CStringEnd(d, p) + 1 - v)
    case _ => None
  }

  lemma {:induction false} CStringEndAt(d: bytes, p: nat, s: cstring)
    requires HoldsAt(d, p, s + [0])
    ensures CStringEnd(d, p) == p + |s|
    ensures d[p..p + |s|] == s
    decreases |s|
  {
    HoldsSplit(d, p, s, [0]);
    assert d[p + |s|] == d[p + |s|..p + |s| + 1][0] == 0;
    if s != [] {
      assert d[p] == s[0];
      assert d[p..p + |s| + 1][1..] == d[p + 1..p + 1 + |s|];
      assert (s + [0])[1..] == s[1..] + [0];
      CStringEndAt(d, p + 1, s[1..]);
    }
  }

  lemma IntAtHolds(d: bytes, p: nat, x: int32, rest: bytes)
    requires HoldsAt(d, p, LE32(x) + rest)
    ensures IntAt(d, p) == x && HoldsAt(d, p + 4, rest)
  {
    HoldsSplit(d, p, LE32(x), rest);
    Signed32(x);
  }

  /** Both strings of a regex. */
  lemma RegexHolds(d: bytes, p: nat, pattern: cstring, opts: cstring)
    requires HoldsAt(d, p, (pattern + [0]) + (opts + [0]))
    ensures CStringEnd(d, p) == p + |pattern| && d[p..p + |pattern|] == pattern
    ensures var q := p + |pattern| + 1; CStringEnd(d, q) == q + |opts| && d[q..q + |opts|] == opts
  {
    HoldsSplit(d, p, pattern + [0], opts + [0]);
    CStringEndAt(d, p, pattern);
    CStringEndAt(d, p + |pattern| + 1, opts);
  }

  lemma StringHolds(d: bytes, p: nat, s: bytes)
    requires HoldsAt(d, p, EncodeString(s)) && |s| < INT_MAX
    ensures IntAt(d, p) == |s| + 1 && p + 4 + |s| <= |d| && d[p + 4..p + 4 + |s|] == s
  {
    IntAtHolds(d, p, |s| + 1, s + [0]);
    HoldsSplit(d, p + 4, s, [0]);
  }

  lemma DocumentHolds(d: bytes, p: nat, es: seq<Element>)
    requires HoldsAt(d, p, EncodeDocument(es)) && |EncodeDocument(es)| <= INT_MAX
    ensures IntAt(d, p) == |EncodeDocument(es)|
    ensures HoldsAt(d, p + 4, EncodeList(es)) && d[p + 4 + |EncodeList(es)|] == 0
  {
    var list := EncodeList(es);
    IntAtHolds(d, p, |list| + 5, list + [0]);
    HoldsSplit(d, p + 4, list, [0]);
    assert d[p + 4 + |list|] == d[p + 4 + |list|..p + 5 + |list|][0];
  }

  lemma BinaryHolds(d: bytes, p: nat, t: byte, s: bytes)
    requires HoldsAt(d, p, EncodeValue(Binary(t, s))) && |EncodeValue(Binary(t, s))| <= INT_MAX
    ensures p + 5 <= |d| && d[p + 4] == t
    ensures t == BIN_OLD ==> IntAt(d, p) == |s| + 4 && p + 9 + |s| <= |d| && d[p + 9..p + 9 + |s|] == s
    ensures t != BIN_OLD ==> IntAt(d, p) == |s| && p + 5 + |s| <= |d| && d[p + 5..p + 5 + |s|] == s
  {
    hide LE32;
    hide IntAt;
    if t == BIN_OLD {
      var rest := [t] + (LE32(|s|) + s);
      assert EncodeValue(Binary(t, s)) == LE32(|s| + 4) + rest;
      IntAtHolds(d, p, |s| + 4, rest);
      HoldsSplit(d, p + 4, [t], LE32(|s|) + s);
      assert d[p + 4] == d[p + 4..p + 5][0];
      HoldsSplit(d, p + 5, LE32(|s|), s);
    } else {
      var rest := [t] + s;
      assert EncodeValue(Binary(t, s)) == LE32(|s|) + rest;
      IntAtHolds(d, p, |s|, rest);
      HoldsSplit(d, p + 4, [t], s);
      assert d[p + 4] == d[p + 4..p + 5][0];
    }
  }

  lemma ScopedHolds(d: bytes, p: nat, code: cstring, scope: bytes)
    requires HoldsAt(d, p, EncodeScoped(code, scope)) && |EncodeScoped(code, scope)| <= INT_MAX
    ensures IntAt(d, p) == |EncodeScoped(code, scope)|
    ensures IntAt(d, p + 4) == |code| + 1
    ensures CStringEnd(d, p + 8) == p + 8 + |code| && d[p + 8..p + 8 + |code|] == code
    ensures HoldsAt(d, p + 8 + |code| + 1, scope)
  {
    var text := (code + [0]) + scope;
    IntAtHolds(d, p, 4 + 4 + (|code| + 1) + |scope|, LE32(|code| + 1) + text);
    IntAtHolds(d, p + 4, |code| + 1, text);
    HoldsSplit(d, p + 8, code + [0], scope);
    CStringEndAt(d, p + 8, code);
  }

  lemma {:induction false} FixedSizeHolds(d: bytes, p: nat, v: Value)
    requires !v.Str? && !v.Symbol? && !v.Code? && !v.Object? && !v.Array? && !v.Binary? && !v.Regex? && !v.CodeWScope?
    ensures ValueSize(d, p, TypeCode(v)) == Some(|EncodeValue(v)|)
  {
  }

  lemma {:induction false} TextSizeHolds(d: bytes, p: nat, v: Value)
    requires v.Str? || v.Symbol? || v.Code? || v.Binary? || v.Regex?
    requires HoldsAt(d, p, EncodeValue(v)) && |EncodeValue(v)| <= INT_MAX
    ensures ValueSize(d, p, TypeCode(v)) == Some(|EncodeValue(v)|)
  {
    hide IntAt;
    hide CStringEnd;
    hide LE32;
    if v.Binary? {
      BinaryHolds(d, p, v.subtype, v.data);
    } else if v.Regex? {
      RegexHolds(d, p, v.pattern, v.opts);
    } else {
      StringHolds(d, p, v.s);
    }
  }

  lemma {:induction false} NestedSizeHolds(d: bytes, p: nat, v: Value)
    requires v.Object? || v.Array? || v.CodeWScope?
    requires HoldsAt(d, p, EncodeValue(v)) && |EncodeValue(v)| <= INT_MAX
    ensures ValueSize(d, p, TypeCode(v)) == Some(|EncodeValue(v)|)
  {
    hide IntAt;
    hide EncodeList;
    if v.CodeWScope? {
      ScopedHolds(d, p, v.code, EncodeDocument(v.scope));
    } else {
      DocumentHolds(d, p, v.elems);
    }
  }

  /** The iterator's skip is the length of the encoding, whatever the type. */
  lemma {:induction false} ValueSizeHolds(d: bytes, p: nat, v: Value)
    requires HoldsAt(d, p, EncodeValue(v)) && |EncodeValue(v)| <= INT_MAX
    ensures ValueSize(d, p, TypeCode(v)) == Some(|EncodeValue(v)|)
  {
    hide IntAt;
    hide CStringEnd;
    hide EncodeValue;
    if v.Str? || v.Symbol? || v.Code? || v.Binary? || v.Regex? {
      TextSizeHolds(d, p, v);
    } else if v.Object? || v.Array? || v.CodeWScope? {
      NestedSizeHolds(d, p, v);
    } else {
      FixedSizeHolds(d, p, v);
    }
  }

  lemma {:induction false} ElementHolds(d: bytes, cur: nat, e: Element)
    requires HoldsAt(d, cur, EncodeElement(e))
    ensures d[cur] == TypeCode(e.value)
    ensures CStringEnd(d, cur + 1) == cur + 1 + |e.name| && d[cur + 1..cur + 1 + |e.name|] == e.name
    ensures HoldsAt(d, ValueAt(d, cur), EncodeValue(e.value))
  {
    hide EncodeElement;
    hide EncodeValue;
    hide TypeCode;
    hide HoldsAt;
    hide CStringEnd;
    var t, v := [TypeCode(e.value)], EncodeValue(e.value);
    ElementParts(e);
    HoldsSplit(d, cur, t, (e.name + [0]) + v);
    HoldsSplit(d, cur + 1, e.name + [0], v);
    CStringEndAt(d, cur + 1, e.name);
    FirstHeld(d, cur, TypeCode(e.value));
  }

  lemma ElementParts(e: Element)
    ensures EncodeElement(e) == [TypeCode(e.value)] + ((e.name + [0]) + EncodeValue(e.value))
  {
    hide EncodeValue;
    hide TypeCode;
  }

  lemma FirstHeld(d: bytes, p: nat, b: byte)
    requires HoldsAt(d, p, [b])
    ensures p < |d| && d[p] == b
  {
    assert d[p] == d[p..p + 1][0];
  }

  /** Inside a document, each element's bytes start where those before it end. */
  lemma ListHolds(d: bytes, start: nat, es: seq<Element>, k: nat)
    requires HoldsAt(d, start, EncodeDocument(es)) && |EncodeDocument(es)| <= INT_MAX && k <= |es|
    ensures var cur := start + 4 + |EncodeList(es[..k])|;
            && cur < |d|
            && (k == |es| ==> d[cur] == EOO)
            && (k < |es| ==> HoldsAt(d, cur, EncodeElement(es[k])))
            && (k < |es| ==> |EncodeElement(es[k])| <= INT_MAX)
            && (k < |es| ==> cur + |EncodeElement(es[k])| == start + 4 + |EncodeList(es[..k + 1])|)
  {
    hide EncodeElement;
    hide EncodeList;
    DocumentHolds(d, start, es);
    hide LE32;
    if k < |es| {
      EncodeListAt(es, k);
      var before, e, rest := EncodeList(es[..k]), EncodeElement(es[k]), EncodeList(es[k + 1..]);
      Grouping(before, e, rest);
      HoldsSplit(d, start + 4, before, e + rest);
      HoldsSplit(d, start + 4 + |before|, e, rest);
    } else {
      assert es[..k] == es;
    }
  }

  lemma Grouping(a: bytes, b: bytes, c: bytes)
    ensures a + b + c == a + (b + c)
  {
  }

  // ---- The iterator ----

  /** A char widened to an int: bytes from 0x80 up come out negative. */
  function Widened(b: byte): int {
    if b < 128 then b else b - 256
  }

  /** A position in the buffer data, walking the document that starts at offset start. */
  class Iterator {
    const data: bytes
    var cur: nat
    var first: bool
    ghost const start: nat
    ghost const elems: seq<Element>   // the document being walked
    ghost var k: nat                  // and the element the cursor is at

    ghost predicate Valid()
      reads this
    {
      && HoldsAt(data, start, EncodeDocument(elems)) && |EncodeDocument(elems)| <= INT_MAX
      && k <= |elems|
      && cur == start + 4 + |EncodeList(elems[..k])|
      && (first ==> k == 0)
    }

    constructor (data: bytes, start: nat, ghost elems: seq<Element>)
      requires HoldsAt(data, start, EncodeDocument(elems)) && |EncodeDocument(elems)| <= INT_MAX
      ensures Valid() && this.data == data && this.start == start && this.elems == elems
      ensures k == 0 && first
    {
      this.data := data;
      this.cur := start + 4;
      this.first := true;
      this.start := start;
      this.elems := elems;
      this.k := 0;
    }

    /** A copy of the struct. */
    constructor Copy(it: Iterator)
      requires it.Valid()
      ensures Valid() && data == it.data && start == it.start && elems == it.elems
      ensures k == it.k && first == it.first && cur == it.cur
    {
      data, cur, first := it.data, it.cur, it.first;
      start, elems, k := it.start, it.elems, it.k;
    }

    /** Where the cursor stands: at an element's bytes, or at the final zero. */
    lemma AtCursor()
      requires Valid()
      ensures cur < |data|
      ensures k < |elems| ==> HoldsAt(data, cur, EncodeElement(elems[k]))
      ensures k < |elems| ==> |EncodeElement(elems[k])| <= INT_MAX
      ensures k < |elems| ==> cur + |EncodeElement(elems[k])| == start + 4 + |EncodeList(elems[..k + 1])|
      ensures k == |elems| ==> data[cur] == EOO
    {
      hide EncodeDocument;
      hide EncodeElement;
      hide EncodeList;
      ListHolds(data, start, elems, k);
    }

    /** The type of the element at the cursor, EOO at the end. */
    method Type() returns (t: byte)
      requires Valid()
      ensures t == if k < |elems| then TypeCode(elems[k].value) else EOO
    {
      AtCursor();
      if k < |elems| {
        ElementHolds(data, cur, elems[k]);
      }
      t := data[cur];
    }

    method Key() returns (name: bytes)
      requires Valid() && k < |elems|
      ensures name == elems[k].name
    {
      AtCursor();
      ElementHolds(data, cur, elems[k]);
      name := data[cur + 1..CStringEnd(data, cur + 1)];
    }

    method Value() returns (v: nat)
      requires Valid() && k < |elems|
      ensures HoldsAt(data, v, EncodeValue(elems[k].value)) && |EncodeValue(elems[k].value)| <= INT_MAX
      ensures v + |EncodeValue(elems[k].value)| == cur + |EncodeElement(elems[k])|
    {
      hide EncodeList;
      hide EncodeValue;
      hide EncodeDocument;
      hide TypeCode;
      AtCursor();
      ElementHolds(data, cur, elems[k]);
      v := ValueAt(data, cur);
    }

    /** Step to the next element; the first call only looks, and the end is never left. */
    method Next() returns (t: int)
      requires Valid()
      modifies this
      ensures Valid() && !first
      ensures k == if old(first) || old(k) == |elems| then old(k) else old(k) + 1
      ensures t == if k < |elems| then Widened(TypeCode(elems[k].value)) else EOO
      ensures t == 0 <==> k == |elems|
    {
      hide EncodeDocument;
      hide EncodeValue;
      hide EncodeList;
      hide HoldsAt;
      hide ValueSize;
      hide TypeCode;
      if first {
        first := false;
      } else {
        var code := Type();
        if code != EOO {
          var v := Value();
          ValueSizeHolds(data, v, elems[k].value);
          AtCursor();
          cur := v + ValueSize(data, v, code).value;
          k := k + 1;
        }
      }
      var code := Type();
      t := Widened(code);
    }
  }

  /** Position an iterator at the first element called name, or at the end. */
  method Find(data: bytes, start: nat, name: cstring, ghost elems: seq<Element>) returns (it: Iterator, t: byte)
    requires HoldsAt(data, start, EncodeDocument(elems)) && |EncodeDocument(elems)| <= INT_MAX
    ensures fresh(it) && it.Valid() && it.data == data && it.start == start && it.elems == elems
    ensures forall j :: 0 <= j < it.k ==> elems[j].name != name
    ensures it.k < |elems| ==> elems[it.k].name == name
    ensures t == if it.k < |elems| then TypeCode(elems[it.k].value) else EOO
  {
    hide EncodeDocument;
    hide TypeCode;
    hide HoldsAt;
    it := new Iterator(data, start, elems);
    var more := it.Next();
    while more != 0
      invariant it.Valid() && it.data == data && it.start == start && it.elems == elems && !it.first
      invariant fresh(it)
      invariant more == 0 <==> it.k == |elems|
      invariant forall j :: 0 <= j < it.k ==> elems[j].name != name
      decreases |elems| - it.k
    {
      var key := it.Key();
      if key == name {
        break;
      }
      more := it.Next();
    }
    t := it.Type();
  }

  // ---- Walking a whole document ----

  /** The value at v, read with the accessor for its type. */
  method ReadValue(d: bytes, v: nat, t: byte, ghost val: Value) returns (x: Value)
    requires HoldsAt(d, v, EncodeValue(val)) && |EncodeValue(val)| <= INT_MAX && t == TypeCode(val)
    ensures x == val
    decreases val, 0
  {
    hide EncodeList;
    hide IntAt;
    hide CStringEnd;
    hide LE32;
    match t
    case 3 =>
      var es := ReadDocument(d, v, val.elems);
      x := Object(es);
    case 4 =>
      var es := ReadDocument(d, v, val.elems);
      x := Array(es);
    case 15 =>
      ScopedHolds(d, v, val.code, EncodeDocument(val.scope));
      var code := d[v + 8..CStringEnd(d, v + 8)];
      var es := ReadDocument(d, v + 8 + IntAt(d, v + 4), val.scope);
      x := CodeWScope(code, es);
    case _ =>
      x := ReadLeaf(d, v, t, val);
  }

  method ReadLeaf(d: bytes, v: nat, t: byte, ghost val: Value) returns (x: Value)
    requires HoldsAt(d, v, EncodeValue(val)) && |EncodeValue(val)| <= INT_MAX && t == TypeCode(val)
    requires !val.Object? && !val.Array? && !val.CodeWScope?
    ensures x == val
  {
    hide EncodeList;
    hide IntAt;
    hide CStringEnd;
    hide LE32;
    if t == 2 || t == 13 || t == 14 {
      StringHolds(d, v, val.s);
      var s := d[v + 4..v + 4 + IntAt(d, v) - 1];
      x := if t == 2 then Str(s) else if t == 13 then Code(s) else Symbol(s);
    } else if t == 5 {
      BinaryHolds(d, v, val.subtype, val.data);
      var subtype := d[v + 4];
      x := if subtype == BIN_OLD then Binary(subtype, d[v + 9..v + 9 + (IntAt(d, v) - 4)])
           else Binary(subtype, d[v + 5..v + 5 + IntAt(d, v)]);
    } else if t == 11 {
      RegexHolds(d, v, val.pattern, val.opts);
      var p := CStringEnd(d, v);
      x := Regex(d[v..p], d[p + 1..CStringEnd(d, p + 1)]);
    } else {
      x := ReadFixed(d, v, t, val);
    }
  }

  method ReadFixed(d: bytes, v: nat, t: byte, ghost val: Value) returns (x: Value)
    requires HoldsAt(d, v, EncodeValue(val)) && t == TypeCode(val)
    requires !val.Object? && !val.Array? && !val.CodeWScope?
    requires !val.Str? && !val.Symbol? && !val.Code? && !val.Binary? && !val.Regex?
    ensures x == val
  {
    hide LittleEndian;
    hide Signed;
    match t
    case 1 => x := Double(d[v..v + 8]);
    case 6 => x := Undefined;
    case 7 => x := Oid(d[v..v + 12]);
    case 8 => x := Bool(d[v] != 0);
    case 9 =>
      Signed64(val.millis);
      x := Date(Signed(d[v..v + 8]));
    case 10 => x := Null;
    case 16 =>
      Signed32(val.i);
      x := Int(Signed(d[v..v + 4]));
    case 17 =>
      HoldsSplit(d, v, LE32(val.increment), LE32(val.time));
      Signed32(val.increment);
      Signed32(val.time);
      x := Timestamp(Signed(d[v..v + 4]), Signed(d[v + 4..v + 8]));
    case 18 =>
      Signed64(val.l);
      x := Long(Signed(d[v..v + 8]));
    case 127 => x := MaxKey;
    case _ => x := MinKey;
  }

  /** Walk a document with an iterator, sub-documents with iterators of their own. */
  method ReadDocument(d: bytes, start: nat, ghost elems: seq<Element>) returns (r: seq<Element>)
    requires HoldsAt(d, start, EncodeDocument(elems)) && |EncodeDocument(elems)| <= INT_MAX
    ensures r == elems
    decreases elems, 1
  {
    hide EncodeDocument;
    hide EncodeValue;
    hide TypeCode;
    hide HoldsAt;
    var it := new Iterator(d, start, elems);
    r := [];
    var more := it.Next();
    while more != 0
      invariant it.Valid() && it.data == d && it.elems == elems && !it.first
      invariant more == 0 <==> it.k == |elems|
      invariant r == elems[..it.k]
      decreases |elems| - it.k
    {
      var t := it.Type();
      var name := it.Key();
      var v := it.Value();
      var value := ReadValue(d, v, t, elems[it.k].value);
      r := r + [Element(name, value)];
      more := it.Next();
    }
  }
}
