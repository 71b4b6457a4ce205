/**
 * Documents as trees, and the bytes the BSON specification (bsonspec.org) gives
 * them: the productions document, e_list and element.
 */
module BsonFormat {
  import opened Bytes

  type bytes8 = s: bytes | |s| == 8 witness [0, 0, 0, 0, 0, 0, 0, 0]
  type bytes12 = s: bytes | |s| == 12 witness [0, 0, 0, 0, 0, 0, 0, 0, 0, 0, 0, 0]

  /** Doubles are eight opaque bytes. */
  datatype Value =
    | Double(bits: bytes8)
    | Str(s: bytes)
    | Object(elems: seq<Element>)
    | Array(elems: seq<Element>)
    | Binary(subtype: byte, data: bytes)
    | Undefined
    | Oid(oid: bytes12)
    | Bool(b: bool)
    | Date(millis: int64)
    | Null
    | Regex(pattern: cstring, opts: cstring)
    | Code(s: bytes)
    | Symbol(s: bytes)
    | CodeWScope(code: cstring, scope: seq<Element>)
    | Int(i: int32)
    | Timestamp(increment: int32, time: int32)
    | Long(l: int64)
    | MaxKey
    | MinKey

  datatype Element = Element(name: cstring, value: Value)

  const EOO: byte := 0
  const BIN_OLD: byte := 2

  function TypeCode(v: Value): (t: byte)
    ensures t != EOO
  {
    match v
    case Double(_) => 1
    case Str(_) => 2
    case Object(_) => 3
    case Array(_) => 4
    case Binary(_, _) => 5
    case Undefined => 6
    case Oid(_) => 7
    case Bool(_) => 8
    case Date(_) => 9
    case Null => 10
    case Regex(_, _) => 11
    case Code(_) => 13
    case Symbol(_) => 14
    case CodeWScope(_, _) => 15
    case Int(_) => 16
    case Timestamp(_, _) => 17
    case Long(_) => 18
    case MaxKey => 127
    case MinKey => 255
  }

  /** The width of an int field, always 4; as a function it keeps LittleEndian from being unrolled in every proof. */
  function SizeOfInt(x: int): nat {
    4
  }

  function LE32(x: int): (s: bytes)
    ensures |s| == 4
  {
    LittleEndian(x, SizeOfInt(x))
  }

  function EncodeString(s: bytes): bytes {
    LE32(|s| + 1) + (s + [0])
  }

  function EncodeScoped(code: cstring, scope: bytes): bytes {
    LE32(4 + 4 + (|code| + 1) + |scope|) + (LE32(|code| + 1) + ((code + [0]) + scope))
  }

  function EncodeValue(v: Value): bytes
    decreases v, 1
  {
    match v
    case Double(bits) => bits
    case Str(s) => EncodeString(s)
    case Object(es) => EncodeDocument(es)
    case Array(es) => EncodeDocument(es)
    case Binary(t, d) =>
      if t == BIN_OLD then LE32(|d| + 4) + ([t] + (LE32(|d|) + d))
      else LE32(|d|) + ([t] + d)
    case Undefined => []
    case Oid(oid) => oid
    case Bool(b) => [if b then 1 else 0]
    case Date(millis) => LittleEndian(millis, 8)
    case Null => []
    case Regex(p, o) => (p + [0]) + (o + [0])
    case Code(s) => EncodeString(s)
    case Symbol(s) => EncodeString(s)
    case CodeWScope(c, scope) => EncodeScoped(c, EncodeDocument(scope))
    case Int(i) => LE32(i)
    case Timestamp(i, t) => LE32(i) + LE32(t)
    case Long(l) => LittleEndian(l, 8)
    case MaxKey => []
    case MinKey => []
  }

  /** The type byte and the name, before the value. */
  function Header(t: byte, name: cstring): (s: bytes)
    ensures |s| == |name| + 2
  {
    [t] + name + [0]
  }

  function EncodeElement(e: Element): (s: bytes)
    ensures |s| == |e.name| + 2 + |EncodeValue(e.value)|
    decreases e, 2
  {
    Header(TypeCode(e.value), e.name) + EncodeValue(e.value)
  }

  function EncodeList(es: seq<Element>): bytes
    decreases es, 0
  {
    if es == [] then [] else EncodeElement(es[0]) + EncodeList(es[1..])
  }

  function EncodeDocument(es: seq<Element>): (s: bytes)
    ensures |s| == |EncodeList(es)| + 5
    decreases es, 1
  {
    LE32(|EncodeList(es)| + 5) + (EncodeList(es) + [0])
  }

  lemma {:induction false} EncodeListConcat(a: seq<Element>, b: seq<Element>)
    ensures EncodeList(a + b) == EncodeList(a) + EncodeList(b)
  {
    if a == [] {
      assert a + b == b;
    } else {
      assert (a + b)[1..] == a[1..] + b;
      EncodeListConcat(a[1..], b);
    }
  }

  lemma {:induction false} EncodeListSnoc(es: seq<Element>, e: Element)
    ensures EncodeList(es + [e]) == EncodeList(es) + EncodeElement(e)
  {
    EncodeListConcat(es, [e]);
    assert EncodeList([e]) == EncodeElement(e) + EncodeList([]);
  }

  /** Element k of a list sits after the encodings of the elements before it. */
  lemma {:induction false} EncodeListAt(es: seq<Element>, k: nat)
    requires k < |es|
    ensures EncodeList(es) == EncodeList(es[..k]) + EncodeElement(es[k]) + EncodeList(es[k + 1..])
    ensures EncodeList(es[..k + 1]) == EncodeList(es[..k]) + EncodeElement(es[k])
  {
    assert es == es[..k + 1] + es[k + 1..];
    EncodeListConcat(es[..k + 1], es[k + 1..]);
    assert es[..k + 1] == es[..k] + [es[k]];
    EncodeListSnoc(es[..k], es[k]);
  }

  /** The leading length field of a document that fits an int is its size. */
  lemma {:induction false} DocumentSize(es: seq<Element>)
    requires |EncodeDocument(es)| <= INT_MAX
    ensures Signed(EncodeDocument(es)[..4]) == |EncodeDocument(es)|
  {
    var n := |EncodeList(es)| + 5;
    assert EncodeDocument(es)[..4] == LE32(n);
    Signed32(n);
  }

  // ---- The document a builder has open ----

  function SubdocumentType(isArray: bool): byte {
    if isArray then 4 else 3
  }

  /** The finished elements of the document being built, under the sub-documents still open. */
  datatype Partial =
    | Root(elems: seq<Element>)
    | Sub(below: Partial, isArray: bool, name: cstring, elems: seq<Element>)
  {
    function Add(e: Element): Partial {
      this.(elems := elems + [e])
    }

    function AddAll(es: seq<Element>): Partial {
      this.(elems := elems + es)
    }

    function Open(isArray: bool, name: cstring): Partial {
      Sub(this, isArray, name, [])
    }

    /** The open sub-document as a finished element of the one below. */
    function Closed(): Element
      requires Sub?
    {
      Element(name, if isArray then Array(elems) else Object(elems))
    }

    function Close(): Partial
      requires Sub?
    {
      below.Add(Closed())
    }

    /** Bytes from offset 4 on; a length field still open holds zero. */
    function Layout(): bytes {
      match this
      case Root(es) => EncodeList(es)
      case Sub(b, isArray, name, es) =>
        b.Layout() + Header(SubdocumentType(isArray), name) + LE32(0) + EncodeList(es)
    }

    /** Offsets of the open length fields, outermost first. */
    function Offsets(): seq<nat> {
      match this
      case Root(_) => []
      case Sub(b, _, name, _) => b.Offsets() + [4 + |b.Layout()| + |name| + 2]
    }
  }

  lemma {:induction false} AddLayout(p: Partial, e: Element)
    ensures p.Add(e).Layout() == p.Layout() + EncodeElement(e)
    ensures p.Add(e).Offsets() == p.Offsets()
  {
    EncodeListSnoc(p.elems, e);
  }

  /** Closing writes a terminator and patches the true length over the zeros. */
  lemma {:induction false} CloseLayout(p: Partial)
    requires p.Sub?
    ensures p.Close().Layout() == p.below.Layout() + Header(SubdocumentType(p.isArray), p.name)
              + LE32(|EncodeList(p.elems)| + 5) + EncodeList(p.elems) + [0]
    ensures p.Close().Offsets() == p.below.Offsets()
  {
    AddLayout(p.below, p.Closed());
    assert EncodeElement(p.Closed()) == Header(SubdocumentType(p.isArray), p.name) + EncodeDocument(p.elems);
  }

  function Overwritten(s: bytes, pos: nat, t: bytes): (r: bytes)
    requires pos + |t| <= |s|
    ensures |r| == |s|
  {
    s[..pos] + t + s[pos + |t|..]
  }

  /** w is four bytes and then the layout of p, with the open length fields at cells. */
  ghost predicate Building(w: bytes, p: Partial, cells: seq<nat>) {
    |w| >= 4 && w[4..] == p.Layout() && cells == p.Offsets()
  }

  /** Every open length field lies inside what is written, one after another, and holds zero. */
  lemma {:induction false} OpenFields(p: Partial, i: nat)
    requires i < |p.Offsets()|
    ensures var pos := p.Offsets()[i];
            && 4 <= pos && pos <= |p.Layout()|
            && p.Layout()[pos - 4..pos] == LE32(0)
            && (i + 1 < |p.Offsets()| ==> pos + 4 < p.Offsets()[i + 1])
    decreases p
  {
    hide LE32;
    hide EncodeList;
    var head := p.below.Layout() + Header(SubdocumentType(p.isArray), p.name);
    assert p.Layout() == head + LE32(0) + EncodeList(p.elems);
    if i < |p.below.Offsets()| {
      OpenFields(p.below, i);
      var pos := p.below.Offsets()[i];
      assert p.Layout()[pos - 4..pos] == p.below.Layout()[pos - 4..pos];
    }
  }

  lemma {:induction false} AddBuilding(w: bytes, p: Partial, cells: seq<nat>, e: Element)
    requires Building(w, p, cells)
    ensures Building(w + EncodeElement(e), p.Add(e), cells)
  {
    AddLayout(p, e);
    assert (w + EncodeElement(e))[4..] == w[4..] + EncodeElement(e);
  }

  lemma {:induction false} OpenBuilding(w: bytes, p: Partial, cells: seq<nat>, isArray: bool, name: cstring)
    requires Building(w, p, cells)
    ensures Building(w + Header(SubdocumentType(isArray), name) + LE32(0), p.Open(isArray, name),
                     cells + [|w| + |name| + 2])
  {
    var h := Header(SubdocumentType(isArray), name);
    assert (w + h + LE32(0))[4..] == w[4..] + h + LE32(0) + EncodeList([]);
  }

  lemma {:induction false} CloseBuilding(w: bytes, p: Partial, cells: seq<nat>)
    requires Building(w, p, cells) && p.Sub?
    ensures |cells| > 0
    ensures var pos := cells[|cells| - 1];
            && 4 <= pos && pos + 4 <= |w|
            && Building(Overwritten(w + [0], pos, LE32(|w| + 1 - pos)), p.Close(), cells[..|cells| - 1])
  {
    CloseLayout(p);
    Repatched(w, p.below.Layout() + Header(SubdocumentType(p.isArray), p.name), EncodeList(p.elems));
  }

  lemma {:induction false} TopInside(w: bytes, p: Partial, cells: seq<nat>)
    requires Building(w, p, cells) && p.Sub?
    ensures |cells| > 0 && 4 <= cells[|cells| - 1] && cells[|cells| - 1] + 4 <= |w|
  {
    CloseBuilding(w, p, cells);
  }

  lemma Repatched(w: bytes, a: bytes, rest: bytes)
    requires |w| >= 4 && w[4..] == a + LE32(0) + rest
    ensures Overwritten(w + [0], 4 + |a|, LE32(|rest| + 5))[4..] == a + LE32(|rest| + 5) + rest + [0]
  {
    assert w == w[..4] + w[4..];
  }

  lemma {:induction false} FinishBuilding(w: bytes, p: Partial, cells: seq<nat>)
    requires Building(w, p, cells) && p.Root?
    ensures Overwritten(w + [0], 0, LE32(|w| + 1)) == EncodeDocument(p.elems)
  {
    assert w == w[..4] + EncodeList(p.elems);
  }
}
