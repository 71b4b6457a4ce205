/** The growable document buffer of bson.c and its append calls. */
module BsonBuilder {
  import opened Bytes
  import opened BsonErrors
  import opened BsonFormat
  import Encoding

  const INITIAL_BUFFER_SIZE: nat := 128
  const LOCAL_STACK_SIZE: nat := 32

  datatype Status = OK | ERROR | FATAL

  /** Where stackPtr points: nowhere, at the array inside the struct, or at the heap. */
  datatype StackHome = NoStack | LocalStack | HeapStack

  /** A double converted to int; out of range gives INT_MIN. */
  function CastToInt(x: nat): int {
    if x <= INT_MAX then x else INT_MIN
  }

  /** The bytes a string argument must be for its append to go through. */
  predicate ValueAccepted(v: Value) {
    match v
    case Str(s) => Encoding.Accepted(s) && |s| < INT_MAX
    case Symbol(s) => Encoding.Accepted(s) && |s| < INT_MAX
    case Code(s) => Encoding.Accepted(s) && |s| < INT_MAX
    case Regex(p, _) => Encoding.Accepted(p)
    case CodeWScope(_, _) => |EncodeValue(v)| <= INT_MAX
    case _ => true
  }

  function NameErrors(name: cstring): set<Flag> {
    Encoding.ErrorsOf(name, true, true, true)
  }

  class Bson {
    var data: array<byte>
    var cur: nat
    var dataSize: int
    var finished: bool
    const ownsData: bool     // fixed by the init call
    var err: set<Flag>
    var stackHome: StackHome
    var stack: seq<nat>      // the cells stackPtr points at; stackSize is its length
    var stackPos: nat
    ghost var doc: Partial   // what has been appended so far

    ghost predicate Sized()
      reads `data, `cur, `dataSize
    {
      data.Length == dataSize && 4 <= cur <= dataSize <= INT_MAX
    }

    ghost function Written(): (s: bytes)
      requires Sized()
      reads `data, `cur, `dataSize, data
      ensures |s| == cur
    {
      data[..cur]
    }

    ghost predicate StackCells()
      reads `stack, `stackPos, `stackHome
    {
      && stackPos <= |stack|
      && (stackHome == NoStack <==> stack == [])
      && (stackHome == LocalStack ==> |stack| == LOCAL_STACK_SIZE)
    }

    ghost predicate Valid()
      reads `data, `cur, `dataSize, `finished, `doc, `stack, `stackPos, `stackHome, data
    {
      && Sized()
      && StackCells()
      && (if finished then doc.Root? && stackPos == 0 && Written() == EncodeDocument(doc.elems)
          else Building(Written(), doc, stack[..stackPos]))
    }

    /** bson_ensure_space(n) succeeds. */
    ghost predicate Room(n: nat)
      reads `cur, `dataSize
    {
      cur + n <= dataSize ||
      (ownsData && (3 * (dataSize + n) / 2 <= INT_MAX || dataSize + n < INT_MAX))
    }

    /** The flag bson_ensure_space(n) leaves when it fails; it replaces all others. */
    ghost function NoRoomError(n: nat): set<Flag>
      reads `dataSize
    {
      if 3 * (dataSize + n) / 2 > INT_MAX && dataSize + n >= INT_MAX then {SizeOverflow} else {DoesNotOwnData}
    }

    /** bson_init_size; bson_init asks for INITIAL_BUFFER_SIZE. */
    constructor (size: int)
      requires 4 <= size <= INT_MAX
      ensures Valid() && fresh(data) && dataSize == size
      ensures !finished && ownsData && err == {} && doc == Root([]) && cur == 4
    {
      data := new byte[size];
      dataSize := size;
      cur := 4;
      finished := false;
      ownsData := true;
      err := {};
      stackHome := NoStack;
      stack := [];
      stackPos := 0;
      doc := Root([]);
    }

    method EnsureSpace(n: nat) returns (ok: bool)
      requires Sized()
      modifies `data, `dataSize, `err
      ensures Sized() && (data == old(data) || fresh(data))
      ensures Written() == old(Written())
      ensures ok <==> old(Room(n))
      ensures ok ==> cur + n <= dataSize && err == old(err)
      ensures ok ==> dataSize == if cur + n <= old(dataSize) then old(dataSize)
                                 else if 3 * (old(dataSize) + n) / 2 <= 0x7FFF_FFFF then 3 * (old(dataSize) + n) / 2
                                 else 0x7FFF_FFFF
      ensures !ok ==> data == old(data) && dataSize == old(dataSize)
      ensures !ok ==> err == old(NoRoomError(n))
    {
      if cur + n <= dataSize {
        return true;
      }
      var newSize := CastToInt(3 * (dataSize + n) / 2);
      if newSize < dataSize {
        if dataSize + n < INT_MAX {
          newSize := INT_MAX;
        } else {
          err := {SizeOverflow};
          return false;
        }
      }
      if !ownsData {
        err := {DoesNotOwnData};
        return false;
      }
      var moved := new byte[newSize];
      forall i | 0 <= i < dataSize {
        moved[i] := data[i];
      }
      data := moved;
      dataSize := newSize;
      return true;
    }

    method AppendBytes(s: bytes)
      requires Sized() && cur + |s| <= dataSize
      modifies `cur, data
      ensures Sized() && cur == old(cur) + |s|
      ensures Written() == old(Written()) + s
    {
      forall i | 0 <= i < |s| {
        data[cur + i] := s[i];
      }
      cur := cur + |s|;
    }

    /** Type byte and name, with room left for dataSize more bytes. */
    method AppendEstart(t: byte, name: cstring, size: nat) returns (ok: bool)
      requires Sized()
      modifies `data, `dataSize, `cur, `err, data
      ensures Sized() && (data == old(data) || fresh(data))
      ensures ok <==> !finished && old(Room(|name| + 2 + size)) && Encoding.Accepted(name)
      ensures ok ==> Written() == old(Written()) + Header(t, name) && cur + size <= dataSize
      ensures !ok ==> Written() == old(Written()) && cur == old(cur)
      ensures finished ==> data == old(data) && err == old(err) + {AlreadyFinished}
      ensures !finished && old(Room(|name| + 2 + size)) ==> err == old(err) + NameErrors(name)
      ensures !finished && !old(Room(|name| + 2 + size)) ==> err == old(NoRoomError(|name| + 2 + size))
    {
      if finished {
        err := err + {AlreadyFinished};
        return false;
      }
      ok := EnsureSpace(1 + (|name| + 1) + size);
      if !ok {
        return false;
      }
      ok, err := Encoding.ValidateString(err, name, true, true, true);
      if !ok {
        return false;
      }
      AppendBytes([t]);
      AppendBytes(name + [0]);
      assert [t] + (name + [0]) == Header(t, name);
      return true;
    }

    /** What every append of a whole element promises, success and failure. */
    twostate predicate Appended(ok: bool, e: Element)
      reads this, data
    {
      && Valid()
      && (data == old(data) || fresh(data))
      && finished == old(finished)
      && doc == (if ok then old(doc).Add(e) else old(doc))
      && (ok <==> !old(finished) && old(Room(|EncodeElement(e)|)) &&
                  Encoding.Accepted(e.name) && ValueAccepted(e.value))
      && (ok ==> err == old(err) + NameErrors(e.name) && cur == old(cur) + |EncodeElement(e)|)
    }

    /** The bytes so far are kept and the document is as it was. */
    twostate predicate Untouched()
      reads this, data
    {
      && unchanged(`finished, `doc, `stack, `stackPos, `stackHome, `cur)
      && Sized() && old(Sized()) && Written() == old(Written())
      && (data == old(data) || fresh(data))
    }

    twostate lemma Refused(e: Element)
      requires old(Valid()) && Untouched()
      requires old(finished) || !old(Room(|EncodeElement(e)|)) || !Encoding.Accepted(e.name) || !ValueAccepted(e.value)
      ensures Appended(false, e)
    {
    }

    /** The element's bytes were added and recorded. */
    twostate lemma Accepted(e: Element)
      requires old(Valid()) && Sized() && (data == old(data) || fresh(data))
      requires unchanged(`finished, `stack, `stackPos, `stackHome)
      requires !finished && old(Room(|EncodeElement(e)|)) && Encoding.Accepted(e.name) && ValueAccepted(e.value)
      requires Written() == old(Written()) + EncodeElement(e)
      requires doc == old(doc).Add(e) && err == old(err) + NameErrors(e.name)
      ensures Appended(true, e)
    {
      AddBuilding(old(Written()), old(doc), stack[..stackPos], e);
    }

    /** Estart followed by the value's bytes; the common body of the appends below. */
    method AppendRaw(t: byte, name: cstring, payload: bytes) returns (ok: bool)
      requires Valid()
      modifies `data, `dataSize, `cur, `err, data
      ensures Sized() && (data == old(data) || fresh(data))
      ensures ok <==> !finished && old(Room(|name| + 2 + |payload|)) && Encoding.Accepted(name)
      ensures ok ==> Written() == old(Written()) + (Header(t, name) + payload)
      ensures ok ==> err == old(err) + NameErrors(name)
      ensures !ok ==> Written() == old(Written()) && cur == old(cur)
    {
      ok := AppendEstart(t, name, |payload|);
      if ok {
        AppendBytes(payload);
        assert old(Written()) + Header(t, name) + payload == old(Written()) + (Header(t, name) + payload);
      }
    }

    method AppendElementBytes(ghost e: Element, t: byte, name: cstring, payload: bytes) returns (ok: bool)
      requires Valid()
      requires EncodeElement(e) == Header(t, name) + payload && e.name == name
      requires ValueAccepted(e.value)
      modifies this, data
      ensures Appended(ok, e)
    {
      ok := AppendRaw(t, name, payload);
      if ok {
        doc := doc.Add(e);
        Accepted(e);
      } else {
        Refused(e);
      }
    }

    method AppendInt(name: cstring, i: int32) returns (ok: bool)
      requires Valid()
      modifies this, data
      ensures Appended(ok, Element(name, Int(i)))
    {
      ok := AppendElementBytes(Element(name, Int(i)), 16, name, LE32(i));
    }

    method AppendLong(name: cstring, l: int64) returns (ok: bool)
      requires Valid()
      modifies this, data
      ensures Appended(ok, Element(name, Long(l)))
    {
      ok := AppendElementBytes(Element(name, Long(l)), 18, name, LittleEndian(l, 8));
    }

    method AppendDouble(name: cstring, bits: bytes8) returns (ok: bool)
      requires Valid()
      modifies this, data
      ensures Appended(ok, Element(name, Double(bits)))
    {
      ok := AppendElementBytes(Element(name, Double(bits)), 1, name, bits);
    }

    method AppendBool(name: cstring, b: bool) returns (ok: bool)
      requires Valid()
      modifies this, data
      ensures Appended(ok, Element(name, Bool(b)))
    {
      ok := AppendElementBytes(Element(name, Bool(b)), 8, name, [if b then 1 else 0]);
    }

    method AppendNull(name: cstring) returns (ok: bool)
      requires Valid()
      modifies this, data
      ensures Appended(ok, Element(name, Null))
    {
      ok := AppendElementBytes(Element(name, Null), 10, name, []);
    }

    method AppendUndefined(name: cstring) returns (ok: bool)
      requires Valid()
      modifies this, data
      ensures Appended(ok, Element(name, Undefined))
    {
      ok := AppendElementBytes(Element(name, Undefined), 6, name, []);
    }

    method AppendMaxKey(name: cstring) returns (ok: bool)
      requires Valid()
      modifies this, data
      ensures Appended(ok, Element(name, MaxKey))
    {
      ok := AppendElementBytes(Element(name, MaxKey), 127, name, []);
    }

    method AppendMinKey(name: cstring) returns (ok: bool)
      requires Valid()
      modifies this, data
      ensures Appended(ok, Element(name, MinKey))
    {
      ok := AppendElementBytes(Element(name, MinKey), 255, name, []);
    }

    /** Strings, symbols and code share one body; the text is checked before the element starts. */
    method AppendStringBase(v: Value, name: cstring, s: bytes, t: byte) returns (ok: bool)
      requires Valid()
      requires (v == Str(s) && t == 2) || (v == Symbol(s) && t == 14) || (v == Code(s) && t == 13)
      modifies this, data
      ensures Appended(ok, Element(name, v))
    {
      hide LE32;
      hide Building;
      hide Encoding.Accepted;
      ghost var e := Element(name, v);
      assert EncodeElement(e) == Header(t, name) + EncodeString(s);
      if |s| + 1 > INT_MAX {
        err := {SizeOverflow};
        ok := false;
      } else {
        ok, err := Encoding.ValidateString(err, s, true, false, false);
        if ok {
          ok := AppendElementBytes(Element(name, v), t, name, EncodeString(s));
        }
      }
    }

    method AppendBinary(name: cstring, t: byte, d: bytes) returns (ok: bool)
      requires Valid()
      modifies this, data
      ensures Appended(ok, Element(name, Binary(t, d)))
    {
      if t == BIN_OLD {
        ok := AppendElementBytes(Element(name, Binary(t, d)), 5, name, LE32(|d| + 4) + ([t] + (LE32(|d|) + d)));
      } else {
        ok := AppendElementBytes(Element(name, Binary(t, d)), 5, name, LE32(|d|) + ([t] + d));
      }
    }

    method AppendOid(name: cstring, oid: bytes12) returns (ok: bool)
      requires Valid()
      modifies this, data
      ensures Appended(ok, Element(name, Oid(oid)))
    {
      ok := AppendElementBytes(Element(name, Oid(oid)), 7, name, oid);
    }

    method AppendTimestamp(name: cstring, increment: int32, time: int32) returns (ok: bool)
      requires Valid()
      modifies this, data
      ensures Appended(ok, Element(name, Timestamp(increment, time)))
    {
      ok := AppendElementBytes(Element(name, Timestamp(increment, time)), 17, name, LE32(increment) + LE32(time));
    }

    method AppendDate(name: cstring, millis: int64) returns (ok: bool)
      requires Valid()
      modifies this, data
      ensures Appended(ok, Element(name, Date(millis)))
    {
      ok := AppendElementBytes(Element(name, Date(millis)), 9, name, LittleEndian(millis, 8));
    }

    /** The bytes of a finished document, as many as its leading length field says. */
    method FinishedData() returns (s: bytes)
      requires Valid() && finished
      ensures s == Written() == EncodeDocument(doc.elems)
    {
      DocumentSize(doc.elems);
      assert data[..4] == Written()[..4];
      var size := Signed(data[..4]);
      s := data[..size];
    }

    /**
     * An element's bytes copied from another document, as bson_append_element does
     * when it is given no new name; nothing is checked but the space.
     */
    method AppendCopied(s: bytes, ghost e: Element) returns (ok: bool)
      requires Valid() && !finished && s == EncodeElement(e)
      modifies this, data
      ensures Valid() && !finished && (data == old(data) || fresh(data))
      ensures ok <==> old(Room(|s|))
      ensures doc == if ok then old(doc).Add(e) else old(doc)
      ensures ok ==> err == old(err) && cur == old(cur) + |s|
    {
      hide EncodeElement;
      ok := EnsureSpace(|s|);
      if ok {
        AddBuilding(Written(), doc, stack[..stackPos], e);
        hide Building;
        AppendBytes(s);
        doc := doc.Add(e);
      }
    }

    /** Another finished document, copied whole as a sub-document. */
    method AppendBson(name: cstring, other: Bson) returns (ok: bool)
      requires Valid() && other.Valid() && other.finished && other != this && other.data != data
      modifies this, data
      ensures Appended(ok, Element(name, Object(other.doc.elems)))
    {
      var payload := other.FinishedData();
      ghost var e := Element(name, Object(other.doc.elems));
      assert EncodeElement(e) == Header(3, name) + payload;
      ok := AppendElementBytes(e, 3, name, payload);
    }

    method AppendCodeWScope(name: cstring, code: cstring, scope: Bson) returns (ok: bool)
      requires Valid() && scope.Valid() && scope.finished && scope != this && scope.data != data
      modifies this, data
      ensures Appended(ok, Element(name, CodeWScope(code, scope.doc.elems)))
    {
      hide LE32;
      hide Building;
      hide EncodeDocument;
      var scopeData := scope.FinishedData();
      ghost var e := Element(name, CodeWScope(code, scope.doc.elems));
      var size := 4 + 4 + (|code| + 1) + |scopeData|;
      var payload := LE32(size) + (LE32(|code| + 1) + ((code + [0]) + scopeData));
      assert EncodeElement(e) == Header(15, name) + payload;
      if size > INT_MAX {
        err := {SizeOverflow};
        ok := false;
        Refused(e);
      } else {
        ok := AppendElementBytes(e, 15, name, payload);
      }
    }

    /**
     * The pattern is checked only after the element has been started, so a bad one
     * leaves a stray header behind; NotUtf8 is then set and Finish refuses the buffer.
     */
    method AppendRegexBytes(name: cstring, pattern: cstring, opts: cstring) returns (ok: bool)
      requires Sized()
      modifies `data, `dataSize, `cur, `err, data
      ensures Sized() && (data == old(data) || fresh(data))
      ensures ok <==> !finished && old(Room(|name| + 2 + |pattern| + 1 + |opts| + 1)) &&
                      Encoding.Accepted(name) && Encoding.Accepted(pattern)
      ensures ok ==> Written() == old(Written()) + (Header(11, name) + ((pattern + [0]) + (opts + [0])))
      ensures ok ==> err == old(err) + NameErrors(name)
      ensures !ok && Encoding.Accepted(pattern) ==> Written() == old(Written()) && cur == old(cur)
      ensures !finished && old(Room(|name| + 2 + |pattern| + 1 + |opts| + 1)) && Encoding.Accepted(name) &&
              !Encoding.Accepted(pattern) ==>
                NotUtf8 in err && Written() == old(Written()) + Header(11, name)
    {
      var payload := (pattern + [0]) + (opts + [0]);
      ok := AppendEstart(11, name, |payload|);
      if ok {
        ok, err := Encoding.ValidateString(err, pattern, true, false, false);
        if ok {
          AppendBytes(payload);
          assert old(Written()) + Header(11, name) + payload == old(Written()) + (Header(11, name) + payload);
        }
      }
    }

    method AppendRegex(name: cstring, pattern: cstring, opts: cstring) returns (ok: bool)
      requires Valid()
      modifies this, data
      ensures Encoding.Accepted(pattern) ==> Appended(ok, Element(name, Regex(pattern, opts)))
      ensures !Encoding.Accepted(pattern) ==> !ok && Sized() && (data == old(data) || fresh(data))
      ensures !Encoding.Accepted(pattern) && !old(finished) && Encoding.Accepted(name) &&
              old(Room(|name| + |pattern| + |opts| + 4)) ==>
                NotUtf8 in err
    {
      ghost var e := Element(name, Regex(pattern, opts));
      assert EncodeElement(e) == Header(11, name) + ((pattern + [0]) + (opts + [0]));
      ok := AppendRegexBytes(name, pattern, opts);
      if ok {
        doc := doc.Add(e);
        Accepted(e);
      } else if Encoding.Accepted(pattern) {
        Refused(e);
      }
    }

    // ---- Sub-documents ----

    /** First the cells inside the struct, then a heap block of twice as many, then doubling. */
    method GrowStack()
      requires StackCells()
      modifies `stackHome, `stack
      ensures |stack| > |old(stack)| && old(stack) <= stack
      ensures stackHome == (if old(stackHome) == NoStack then LocalStack else HeapStack)
      ensures |stack| == if old(stackHome) == NoStack then 32 else 2 * |old(stack)|
    {
      var uninitialized: nat := *;
      match stackHome
      case NoStack =>
        stackHome := LocalStack;
        stack := seq<nat>(LOCAL_STACK_SIZE, _ => 0);
      case LocalStack =>
        stackHome := HeapStack;
        stack := stack + seq<nat>(LOCAL_STACK_SIZE, _ => uninitialized);
      case HeapStack =>
        stack := stack + seq<nat>(|stack|, _ => uninitialized);
    }

    method PushPosition()
      requires StackCells()
      modifies `stackHome, `stack, `stackPos
      ensures StackCells() && stackPos == old(stackPos) + 1
      ensures stack[..stackPos] == old(stack)[..old(stackPos)] + [cur]
    {
      if stackPos >= |stack| {
        GrowStack();
      }
      stack := stack[stackPos := cur];
      stackPos := stackPos + 1;
    }

    /** Room is reserved for the length and the terminator, and the length starts as zero. */
    method StartBytes(t: byte, name: cstring) returns (ok: bool)
      requires Sized() && StackCells()
      modifies `data, `dataSize, `cur, `err, `stackHome, `stack, `stackPos, data
      ensures Sized() && StackCells() && (data == old(data) || fresh(data))
      ensures ok <==> !finished && old(Room(|name| + 2 + 5)) && Encoding.Accepted(name)
      ensures ok ==> Written() == old(Written()) + Header(t, name) + LE32(0)
      ensures ok ==> stack[..stackPos] == old(stack[..stackPos]) + [old(cur) + |name| + 2]
      ensures ok ==> err == old(err) + NameErrors(name)
      ensures !ok ==> Written() == old(Written()) && unchanged(`cur, `stack, `stackPos, `stackHome)
    {
      ok := AppendEstart(t, name, 5);
      if ok {
        PushPosition();
        AppendBytes(LE32(0));
      }
    }

    twostate lemma Opened()
      requires old(Valid()) && !finished && !old(finished) && Sized() && StackCells()
      requires doc.Sub? && doc == old(doc).Open(doc.isArray, doc.name)
      requires Written() == old(Written()) + Header(SubdocumentType(doc.isArray), doc.name) + LE32(0)
      requires stack[..stackPos] == old(stack[..stackPos]) + [old(cur) + |doc.name| + 2]
      ensures Valid()
    {
      OpenBuilding(old(Written()), old(doc), old(stack[..stackPos]), doc.isArray, doc.name);
    }

    method StartSubdocument(isArray: bool, name: cstring) returns (ok: bool)
      requires Valid()
      modifies this, data
      ensures Valid() && (data == old(data) || fresh(data))
      ensures finished == old(finished)
      ensures ok <==> !old(finished) && old(Room(|name| + 2 + 5)) && Encoding.Accepted(name)
      ensures doc == if ok then old(doc).Open(isArray, name) else old(doc)
      ensures ok ==> err == old(err) + NameErrors(name) && cur == old(cur) + |name| + 6
    {
      ok := StartBytes(SubdocumentType(isArray), name);
      if ok {
        doc := doc.Open(isArray, name);
        Opened();
      }
    }

    method Patch32(pos: nat, x: int)
      requires Sized() && pos + 4 <= cur
      modifies data
      ensures Written() == Overwritten(old(Written()), pos, LE32(x))
    {
      var s := LE32(x);
      forall i | 0 <= i < 4 {
        data[pos + i] := s[i];
      }
    }

    /** A terminator byte, and the length since pos written at pos. */
    method Terminate(pos: nat) returns (ok: bool)
      requires Sized() && pos + 4 <= cur
      modifies `data, `dataSize, `cur, `err, data
      ensures Sized() && (data == old(data) || fresh(data))
      ensures ok <==> old(Room(1)) && old(cur) + 1 - pos < INT_MAX
      ensures ok ==> Written() == Overwritten(old(Written()) + [0], pos, LE32(old(cur) + 1 - pos)) && err == old(err)
      ensures !old(Room(1)) ==> Written() == old(Written())
      ensures old(Room(1)) && old(cur) + 1 - pos >= INT_MAX ==> err == {SizeOverflow} && cur == old(cur) + 1
    {
      ok := EnsureSpace(1);
      if ok {
        AppendBytes([0]);
        if cur - pos >= INT_MAX {
          err := {SizeOverflow};
          return false;
        }
        Patch32(pos, cur - pos);
      }
    }

    twostate lemma Closed(pos: nat)
      requires old(Valid()) && !finished && old(doc).Sub? && Sized()
      requires unchanged(`finished, `stack, `stackHome)
      requires stackPos + 1 == old(stackPos) && stack[stackPos] == pos && doc == old(doc).Close()
      requires pos + 4 <= old(cur) && Written() == Overwritten(old(Written()) + [0], pos, LE32(old(cur) + 1 - pos))
      ensures Valid()
    {
      hide LE32;
      hide Overwritten;
      hide EncodeDocument;
      var cells := old(stack[..stackPos]);
      CloseBuilding(old(Written()), old(doc), cells);
      assert cells[..|cells| - 1] == stack[..stackPos];
    }

    /** Close the innermost open sub-document; its length always fits. */
    method FinishSubdocument() returns (ok: bool)
      requires Valid()
      modifies this, data
      ensures Valid() && (data == old(data) || fresh(data))
      ensures finished == old(finished)
      ensures ok <==> old(doc).Sub? && old(Room(1))
      ensures doc == if ok then old(doc).Close() else old(doc)
      ensures ok ==> err == old(err) && cur == old(cur) + 1
      ensures old(doc).Root? ==> err == {NotInSubobject}
    {
      hide Overwritten;
      hide LE32;
      hide Partial.Close;
      hide EncodeDocument;
      if stackPos == 0 {
        err := {NotInSubobject};
        ok := false;
      } else {
        TopInside(Written(), doc, stack[..stackPos]);
        var start := stack[stackPos - 1];
        ok := Terminate(start);
        if ok {
          stackPos := stackPos - 1;
          doc := doc.Close();
          Closed(start);
        }
      }
    }

    /** Terminate the document and write its length into the first four bytes. */
    method Finish() returns (r: Status)
      requires Valid()
      modifies this, data
      ensures Sized() && (data == old(data) || fresh(data)) && doc == old(doc)
      ensures r == FATAL <==> NotUtf8 !in old(err) && !old(finished) && old(doc).Sub?
      ensures r == OK <==> NotUtf8 !in old(err) &&
                           (old(finished) || (old(doc).Root? && old(Room(1)) && old(cur) + 1 < INT_MAX))
      ensures r == OK ==> Valid() && finished && err == old(err)
    {
      if NotUtf8 in err {
        return ERROR;
      }
      if !finished {
        if stackPos != 0 {
          return FATAL;
        }
        FinishBuilding(Written(), doc, stack[..stackPos]);
        var ok := Terminate(0);
        if !ok {
          return ERROR;
        }
        finished := true;
      }
      return OK;
    }
  }
}
