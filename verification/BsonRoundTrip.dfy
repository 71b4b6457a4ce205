/** Building whole documents with the append calls, reading them back, and copying them. */
module BsonRoundTrip {
  import opened Bytes
  import opened BsonErrors
  import opened BsonFormat
  import opened BsonBuilder
  import opened BsonIterator
  import Encoding

  /** Up to this size growing the buffer cannot overflow, whatever the history. */
  const SAFE_SIZE: nat := 0x3FFF_FFFF

  /** Every name and string in the tree passes the append calls' checks. */
  predicate ElementsBuildable(es: seq<Element>)
    decreases es, 0
  {
    es == [] || (
      && Encoding.Accepted(es[0].name)
      && ValueBuildable(es[0].value)
      && ElementsBuildable(es[1..]))
  }

  predicate ValueBuildable(v: Value)
    decreases v, 1
  {
    match v
    case Object(es) => ElementsBuildable(es)
    case Array(es) => ElementsBuildable(es)
    case CodeWScope(_, es) => ElementsBuildable(es) && ValueAccepted(v)
    case _ => ValueAccepted(v)
  }

  lemma {:induction false} BuildableAt(es: seq<Element>, k: nat)
    requires ElementsBuildable(es) && k < |es|
    ensures Encoding.Accepted(es[k].name) && ValueBuildable(es[k].value)
  {
    if k > 0 {
      BuildableAt(es[1..], k - 1);
    }
  }

  lemma AddAllSnoc(p: Partial, es: seq<Element>, i: nat)
    requires i < |es|
    ensures p.AddAll(es[..i]).Add(es[i]) == p.AddAll(es[..i + 1])
  {
    assert es[..i + 1] == es[..i] + [es[i]];
    assert p.elems + es[..i] + [es[i]] == p.elems + es[..i + 1];
  }

  lemma NothingAdded(p: Partial, es: seq<Element>)
    ensures p.AddAll(es[..0]) == p && EncodeList(es[..0]) == []
  {
    assert es[..0] == [] && p.elems + [] == p.elems;
  }

  lemma EncodeListPrefix(es: seq<Element>, k: nat)
    requires k <= |es|
    ensures |EncodeList(es[..k])| <= |EncodeList(es)|
  {
    hide EncodeList;
    assert es == es[..k] + es[k..];
    EncodeListConcat(es[..k], es[k..]);
  }

  ghost predicate Ready(b: Bson)
    reads b, b.data
  {
    b.Valid() && !b.finished && b.ownsData && NotUtf8 !in b.err
  }

  /** Append a list of elements, each by the call for its type. */
  method BuildElements(b: Bson, es: seq<Element>) returns (ok: bool)
    requires Ready(b)
    modifies b, b.data
    ensures b.data == old(b.data) || fresh(b.data)
    ensures ok ==> Ready(b) && b.doc == old(b.doc).AddAll(es) && b.cur == old(b.cur) + |EncodeList(es)|
    ensures ElementsBuildable(es) && old(b.cur) + |EncodeList(es)| <= SAFE_SIZE ==> ok
    decreases es, 0
  {
    hide EncodeElement;
    hide EncodeList;
    hide ElementsBuildable;
    hide ValueBuildable;
    hide Building;
    ok := true;
    NothingAdded(b.doc, es);
    for i := 0 to |es|
      invariant b.data == old(b.data) || fresh(b.data)
      invariant Ready(b) && b.doc == old(b.doc).AddAll(es[..i])
      invariant b.cur == old(b.cur) + |EncodeList(es[..i])|
    {
      EncodeListAt(es, i);
      EncodeListPrefix(es, i + 1);
      ok := BuildElement(b, es[i]);
      if !ok {
        if ElementsBuildable(es) {
          BuildableAt(es, i);
        }
        return;
      }
      AddAllSnoc(old(b.doc), es, i);
    }
    assert es[..|es|] == es;
  }

  method BuildElement(b: Bson, e: Element) returns (ok: bool)
    requires Ready(b)
    modifies b, b.data
    ensures b.data == old(b.data) || fresh(b.data)
    ensures ok ==> Ready(b) && b.doc == old(b.doc).Add(e) && b.cur == old(b.cur) + |EncodeElement(e)|
    ensures Encoding.Accepted(e.name) && ValueBuildable(e.value) &&
            old(b.cur) + |EncodeElement(e)| <= SAFE_SIZE ==>
              ok
    decreases e, 1
  {
    hide Building;
    hide EncodeList;
    match e.value
    case Object(es) => ok := BuildSubdocument(b, e.name, false, es);
    case Array(es) => ok := BuildSubdocument(b, e.name, true, es);
    case CodeWScope(code, es) => ok := BuildCodeWScope(b, e.name, code, es);
    case _ => ok := BuildLeaf(b, e);
  }

  method BuildSubdocument(b: Bson, name: cstring, isArray: bool, es: seq<Element>) returns (ok: bool)
    requires Ready(b)
    modifies b, b.data
    ensures b.data == old(b.data) || fresh(b.data)
    ensures ok ==> Ready(b) && b.doc == old(b.doc).Add(Element(name, if isArray then Array(es) else Object(es)))
    ensures ok ==> b.cur == old(b.cur) + |name| + 2 + |EncodeDocument(es)|
    ensures Encoding.Accepted(name) && ElementsBuildable(es) &&
            old(b.cur) + |name| + 2 + |EncodeDocument(es)| <= SAFE_SIZE ==>
              ok
    decreases es, 1
  {
    hide Building;
    hide EncodeList;
    hide LE32;
    hide ElementsBuildable;
    ok := b.StartSubdocument(isArray, name);
    if ok {
      assert [] + es == es;
      ok := BuildElements(b, es);
      if ok {
        ok := b.FinishSubdocument();
      }
    }
  }

  method BuildCodeWScope(b: Bson, name: cstring, code: cstring, es: seq<Element>) returns (ok: bool)
    requires Ready(b)
    modifies b, b.data
    ensures b.data == old(b.data) || fresh(b.data)
    ensures ok ==> Ready(b) && b.doc == old(b.doc).Add(Element(name, CodeWScope(code, es)))
    ensures ok ==> b.cur == old(b.cur) + |EncodeElement(Element(name, CodeWScope(code, es)))|
    ensures Encoding.Accepted(name) && ValueBuildable(CodeWScope(code, es)) &&
            old(b.cur) + |EncodeElement(Element(name, CodeWScope(code, es)))| <= SAFE_SIZE ==>
              ok
    decreases es, 1
  {
    hide Building;
    hide EncodeList;
    hide LE32;
    hide ElementsBuildable;
    var scope := new Bson(INITIAL_BUFFER_SIZE);
    assert [] + es == es;
    ok := BuildElements(scope, es);
    if ok {
      var status := scope.Finish();
      ok := status == OK;
      if ok {
        ok := b.AppendCodeWScope(name, code, scope);
      }
    }
  }

  lemma NoNameErrors(name: cstring)
    ensures Encoding.Accepted(name) ==> NotUtf8 !in NameErrors(name)
  {
  }

  method BuildLeaf(b: Bson, e: Element) returns (ok: bool)
    requires Ready(b) && !e.value.Object? && !e.value.Array? && !e.value.CodeWScope?
    modifies b, b.data
    ensures b.data == old(b.data) || fresh(b.data)
    ensures ok ==> Ready(b) && b.doc == old(b.doc).Add(e) && b.cur == old(b.cur) + |EncodeElement(e)|
    ensures Encoding.Accepted(e.name) && ValueAccepted(e.value) &&
            old(b.cur) + |EncodeElement(e)| <= SAFE_SIZE ==>
              ok
  {
    hide Building;
    hide EncodeElement;
    hide EncodeDocument;
    hide Encoding.Accepted;
    hide Encoding.ErrorsOf;
    NoNameErrors(e.name);
    match e.value
    case Double(bits) => ok := b.AppendDouble(e.name, bits);
    case Str(s) => ok := b.AppendStringBase(e.value, e.name, s, 2);
    case Binary(t, d) => ok := b.AppendBinary(e.name, t, d);
    case Undefined => ok := b.AppendUndefined(e.name);
    case Oid(oid) => ok := b.AppendOid(e.name, oid);
    case Bool(x) => ok := b.AppendBool(e.name, x);
    case Date(millis) => ok := b.AppendDate(e.name, millis);
    case Null => ok := b.AppendNull(e.name);
    case Regex(p, o) => ok := b.AppendRegex(e.name, p, o);
    case Code(s) => ok := b.AppendStringBase(e.value, e.name, s, 13);
    case Symbol(s) => ok := b.AppendStringBase(e.value, e.name, s, 14);
    case Int(i) => ok := b.AppendInt(e.name, i);
    case Timestamp(i, t) => ok := b.AppendTimestamp(e.name, i, t);
    case Long(l) => ok := b.AppendLong(e.name, l);
    case MaxKey => ok := b.AppendMaxKey(e.name);
    case MinKey => ok := b.AppendMinKey(e.name);
  }

  /**
   * Whatever tree is built with the append calls is read back unchanged, and every
   * buildable tree of at most SAFE_SIZE bytes does get built.
   */
  method RoundTrip(es: seq<Element>) returns (ok: bool, r: seq<Element>)
    ensures ok ==> r == es
    ensures ElementsBuildable(es) && |EncodeDocument(es)| <= SAFE_SIZE ==> ok
  {
    hide EncodeList;
    hide ElementsBuildable;
    hide Building;
    r := [];
    var b := new Bson(INITIAL_BUFFER_SIZE);
    assert [] + es == es;
    ok := BuildElements(b, es);
    if ok {
      var status := b.Finish();
      ok := status == OK;
      if ok {
        var data := b.FinishedData();
        r := ReadDocument(data, 0, es);
      }
    }
  }

  // ---- Copying ----

  /** Append the element an iterator is positioned at, found by stepping a copy of it. */
  method AppendElement(b: Bson, it: Iterator) returns (ok: bool)
    requires b.Valid() && !b.finished
    requires it.Valid() && it.k < |it.elems| && !it.first
    modifies b, b.data
    ensures b.Valid() && !b.finished && (b.data == old(b.data) || fresh(b.data))
    ensures ok <==> old(b.Room(|EncodeElement(it.elems[it.k])|))
    ensures b.doc == if ok then old(b.doc).Add(it.elems[it.k]) else old(b.doc)
    ensures ok ==> b.err == old(b.err) && b.cur == old(b.cur) + |EncodeElement(it.elems[it.k])|
  {
    hide EncodeElement;
    hide EncodeList;
    hide EncodeDocument;
    hide Building;
    it.AtCursor();
    var next := new Iterator.Copy(it);
    var _ := next.Next();
    ok := b.AppendCopied(it.data[it.cur..next.cur], it.elems[it.k]);
  }

  /** Copying a finished document element by element rebuilds the very same bytes. */
  method CopyDocument(data: bytes, ghost es: seq<Element>) returns (ok: bool, copy: bytes)
    requires data == EncodeDocument(es) && |data| <= INT_MAX
    ensures ok ==> copy == data
    ensures |data| <= SAFE_SIZE ==> ok
  {
    hide EncodeElement;
    hide EncodeList;
    hide EncodeDocument;
    hide Building;
    copy := [];
    var b := new Bson(INITIAL_BUFFER_SIZE);
    ok := CopyElements(b, data, 0, es);
    if ok {
      assert [] + es == es;
      var status := b.Finish();
      ok := status == OK;
      if ok {
        copy := b.FinishedData();
      }
    }
  }

  /** Append every element of the document at start to b. */
  method CopyElements(b: Bson, data: bytes, start: nat, ghost es: seq<Element>) returns (ok: bool)
    requires Ready(b)
    requires HoldsAt(data, start, EncodeDocument(es)) && |EncodeDocument(es)| <= INT_MAX
    modifies b, b.data
    ensures b.data == old(b.data) || fresh(b.data)
    ensures ok ==> Ready(b) && b.doc == old(b.doc).AddAll(es) && b.cur == old(b.cur) + |EncodeList(es)|
    ensures old(b.cur) + |EncodeList(es)| <= SAFE_SIZE ==> ok
  {
    hide EncodeElement;
    hide EncodeList;
    hide EncodeDocument;
    hide Building;
    hide TypeCode;
    hide Partial.Add;
    hide Partial.AddAll;
    hide Bson.Valid;
    ok := true;
    var it := new Iterator(data, start, es);
    var more := it.Next();
    NothingAdded(b.doc, es);
    while more != 0
      invariant b.data == old(b.data) || fresh(b.data)
      invariant fresh(it) && it.Valid() && it.elems == es && !it.first
      invariant more == 0 <==> it.k == |es|
      invariant Ready(b) && b.doc == old(b.doc).AddAll(es[..it.k])
      invariant b.cur == old(b.cur) + |EncodeList(es[..it.k])|
      decreases |es| - it.k
    {
      ghost var i := it.k;
      EncodeListAt(es, i);
      EncodeListPrefix(es, i + 1);
      ok := AppendElement(b, it);
      if !ok {
        return;
      }
      AddAllSnoc(old(b.doc), es, i);
      more := it.Next();
    }
    assert es[..|es|] == es;
  }

  /** Opening a sub-document, copying the elements and closing it appends the same bytes as bson_append_bson. */
  method CopyAsSubdocument(b: Bson, name: cstring, other: Bson) returns (ok: bool)
    requires Ready(b) && other.Valid() && other.finished && other != b && other.data != b.data
    modifies b, b.data
    ensures b.data == old(b.data) || fresh(b.data)
    ensures ok ==> Ready(b) && b.doc == old(b.doc).Add(Element(name, Object(other.doc.elems)))
    ensures ok ==> b.Written()[4..] == old(b.Written())[4..] + EncodeElement(Element(name, Object(other.doc.elems)))
    ensures Encoding.Accepted(name) &&
            old(b.cur) + |EncodeElement(Element(name, Object(other.doc.elems)))| <= SAFE_SIZE ==>
              ok
  {
    hide EncodeList;
    hide LE32;
    ghost var es := other.doc.elems;
    AddLayout(b.doc, Element(name, Object(es)));
    ok := b.StartSubdocument(false, name);
    if ok {
      assert [] + es == es;
      var data := other.FinishedData();
      ok := CopyElements(b, data, 0, es);
      if ok {
        ok := b.FinishSubdocument();
      }
    }
  }
}
