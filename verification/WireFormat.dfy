/** The bytes of small elements and documents, as bsonspec.org spells them out. */
module WireFormat {
  import opened Bytes
  import opened BsonFormat
  import opened BsonIterator

  /** The four bytes of an int, least significant first. */
  lemma IntBytes(x: int)
    ensures LE32(x) == [x % 256, (x / 256) % 256, (x / 0x1_0000) % 256, (x / 0x100_0000) % 256]
  {
    hide Pow256;
    assert LE32(x) == LittleEndian(x, SizeOfInt(x));
    DivDiv(x, 256, 256);
    DivDiv(x, 0x1_0000, 256);
    FourBytes(x, SizeOfInt(x));
  }

  /** The element a with the value v, after its type byte: the name, a NUL and the value's bytes. */
  lemma NamedA(v: Value)
    ensures EncodeElement(Element([0x61], v)) == [TypeCode(v), 0x61, 0] + EncodeValue(v)
  {
  }

  lemma EmptyDocument()
    ensures EncodeDocument([]) == [5, 0, 0, 0, 0]
  {
    IntBytes(5);
  }

  lemma DoubleBytes()
    ensures EncodeElement(Element([0x61], Double([1, 2, 3, 4, 5, 6, 7, 8]))) == [0x01, 0x61, 0, 1, 2, 3, 4, 5, 6, 7, 8]
  {
  }

  lemma OidBytes()
    ensures EncodeElement(Element([0x61], Oid([1, 2, 3, 4, 5, 6, 7, 8, 9, 10, 11, 12])))
         == [0x07, 0x61, 0, 1, 2, 3, 4, 5, 6, 7, 8, 9, 10, 11, 12]
  {
  }

  lemma BoolBytes()
    ensures EncodeElement(Element([0x61], Bool(true))) == [0x08, 0x61, 0, 1]
    ensures EncodeElement(Element([0x61], Bool(false))) == [0x08, 0x61, 0, 0]
  {
  }

  /** The types without a value. */
  lemma BareBytes()
    ensures EncodeElement(Element([0x61], Undefined)) == [0x06, 0x61, 0]
    ensures EncodeElement(Element([0x61], Null)) == [0x0A, 0x61, 0]
    ensures EncodeElement(Element([0x61], MaxKey)) == [0x7F, 0x61, 0]
    ensures EncodeElement(Element([0x61], MinKey)) == [0xFF, 0x61, 0]
  {
  }

  lemma IntElementBytes()
    ensures EncodeElement(Element([0x61], Int(0x0102_0304))) == [0x10, 0x61, 0, 4, 3, 2, 1]
    ensures EncodeElement(Element([0x61], Int(-2))) == [0x10, 0x61, 0, 0xFE, 0xFF, 0xFF, 0xFF]
  {
    hide LE32;
    IntBytes(0x0102_0304);
    IntBytes(-2);
  }

  lemma TimestampBytes()
    ensures EncodeElement(Element([0x61], Timestamp(1, 2))) == [0x11, 0x61, 0, 1, 0, 0, 0, 2, 0, 0, 0]
  {
    hide LE32;
    IntBytes(1);
    IntBytes(2);
  }

  lemma LongBytes()
    ensures EncodeElement(Element([0x61], Date(7))) == [0x09, 0x61, 0, 7, 0, 0, 0, 0, 0, 0, 0]
    ensures EncodeElement(Element([0x61], Long(7))) == [0x12, 0x61, 0, 7, 0, 0, 0, 0, 0, 0, 0]
  {
    hide LittleEndian;
    hide LE32;
    EightBytes(7, 8);
    NamedA(Date(7));
    NamedA(Long(7));
    hide EncodeElement;
  }

  lemma TextBytes()
    ensures EncodeElement(Element([0x61], Str([0x68, 0x69]))) == [0x02, 0x61, 0, 3, 0, 0, 0, 0x68, 0x69, 0]
    ensures EncodeElement(Element([0x61], Code([0x78]))) == [0x0D, 0x61, 0, 2, 0, 0, 0, 0x78, 0]
    ensures EncodeElement(Element([0x61], Symbol([0x78]))) == [0x0E, 0x61, 0, 2, 0, 0, 0, 0x78, 0]
    ensures EncodeElement(Element([0x61], Regex([0x78], [0x69]))) == [0x0B, 0x61, 0, 0x78, 0, 0x69, 0]
  {
    hide LE32;
    hide LittleEndian;
    IntBytes(3);
    IntBytes(2);
  }

  /** The old binary subtype repeats its length inside. */
  lemma BinaryBytes()
    ensures EncodeElement(Element([0x61], Binary(0, [7]))) == [0x05, 0x61, 0, 1, 0, 0, 0, 0, 7]
    ensures EncodeElement(Element([0x61], Binary(2, [7]))) == [0x05, 0x61, 0, 5, 0, 0, 0, 2, 1, 0, 0, 0, 7]
  {
    hide LE32;
    hide LittleEndian;
    IntBytes(1);
    IntBytes(5);
  }

  lemma NestedBytes()
    ensures EncodeElement(Element([0x61], Object([]))) == [0x03, 0x61, 0, 5, 0, 0, 0, 0]
    ensures EncodeElement(Element([0x61], Array([]))) == [0x04, 0x61, 0, 5, 0, 0, 0, 0]
    ensures EncodeElement(Element([0x61], CodeWScope([0x78], [])))
         == [0x0F, 0x61, 0, 15, 0, 0, 0, 2, 0, 0, 0, 0x78, 0, 5, 0, 0, 0, 0]
  {
    hide LE32;
    hide LittleEndian;
    hide EncodeDocument;
    IntBytes(15);
    IntBytes(2);
    EmptyDocument();
  }

  lemma ArrayDocumentBytes()
    ensures EncodeDocument([Element([0x61], Array([]))]) == [13, 0, 0, 0, 0x04, 0x61, 0, 5, 0, 0, 0, 0, 0]
  {
    hide EncodeElement;
    hide EncodeDocument;
    hide LE32;
    NestedBytes();
    OneElement(Element([0x61], Array([])), [0x04, 0x61, 0, 5, 0, 0, 0, 0]);
  }

  /** A document one level down. */
  lemma NestedDocumentBytes()
    ensures EncodeDocument([Element([0x61], Object([Element([0x62], Null)]))])
         == [16, 0, 0, 0, 0x03, 0x61, 0, 8, 0, 0, 0, 0x0A, 0x62, 0, 0, 0]
  {
    hide EncodeElement;
    hide EncodeDocument;
    hide LE32;
    var inner := Element([0x62], Null);
    InnerBytes(inner);
    OneElement(inner, [0x0A, 0x62, 0]);
    NamedA(Object([inner]));
    OneElement(Element([0x61], Object([inner])), [0x03, 0x61, 0, 8, 0, 0, 0, 0x0A, 0x62, 0, 0]);
  }

  lemma InnerBytes(e: Element)
    requires e == Element([0x62], Null)
    ensures EncodeElement(e) == [0x0A, 0x62, 0]
  {
  }

  /** A document of one element that takes fewer than 251 bytes. */
  lemma OneElement(e: Element, s: bytes)
    requires EncodeElement(e) == s && |s| < 251
    ensures EncodeDocument([e]) == [|s| + 5, 0, 0, 0] + s + [0]
  {
    IntBytes(|s| + 5);
    hide LE32;
    hide EncodeElement;
    assert EncodeList([e]) == EncodeElement(e) + EncodeList([]);
  }

  /** What the iterator's callers compare with: the codes of bson.h, as the signed char they are read as. */
  lemma ReportedTypes(v: Value)
    ensures Widened(TypeCode(v)) ==
            match v {
              case Double(_) => 1
              case Str(_) => 2
              case Object(_) => 3
              case Array(_) => 4
              case Binary(_, _) => 5
              case Undefined => 6
              case Oid(_) => 7
              case Bool(_) => 8
              case Date(_) => 9
              case Null => 10
              case Regex(_, _) => 11
              case Code(_) => 13
              case Symbol(_) => 14
              case CodeWScope(_, _) => 15
              case Int(_) => 16
              case Timestamp(_, _) => 17
              case Long(_) => 18
              case MaxKey => 127
              case MinKey => -1
            }
  {
  }
}
