/** The error bits a BSON buffer collects (bson.h); `|=` is set union, `=` replaces the set. */
module BsonErrors {
  datatype Flag =
    | SizeOverflow
    | NotUtf8
    | FieldHasDot
    | FieldInitDollar
    | AlreadyFinished
    | NotInSubobject
    | DoesNotOwnData
}

/** Validation of keys and strings (encoding.c), compared with section 4 of RFC 3629. */
module Encoding {
  import opened Bytes
  import opened BsonErrors

  const DOT: byte := 0x2E
  const DOLLAR: byte := 0x24

  /** How many bytes the lead byte b announces after itself. */
  function TrailingBytes(b: byte): (n: nat)
    ensures n <= 5
  {
    if b < 0xC0 then 0
    else if b < 0xE0 then 1
    else if b < 0xF0 then 2
    else if b < 0xF8 then 3
    else if b < 0xFC then 4
    else 5
  }

  predicate Tail(b: byte) {
    0x80 <= b <= 0xBF
  }

  /** The second-byte test; only an E0, F0 or F4 lead replaces the lower bound 0x80. */
  predicate LegalSecond(lead: byte, a: byte) {
    && a <= 0xBF
    && match lead
       case 0xE0 => a >= 0xA0
       case 0xF0 => a >= 0x90
       case 0xF4 => a <= 0x8F
       case _ => a >= 0x80
  }

  /** The code's test of one sequence of bytes. */
  predicate IsLegal(s: bytes) {
    && 1 <= |s| <= 4
    && (|s| >= 4 ==> Tail(s[3]))
    && (|s| >= 3 ==> Tail(s[2]))
    && (|s| >= 2 ==> LegalSecond(s[0], s[1]))
    && !(0x80 <= s[0] < 0xC2)
    && s[0] <= 0xF4
  }

  function SequenceLength(s: bytes): (n: nat)
    requires s != []
    ensures n >= 1
  {
    TrailingBytes(s[0]) + 1
  }

  /** What the position loop accepts, read off front to back. */
  predicate Accepted(s: bytes)
    decreases |s|
  {
    s == [] || (
      var n := SequenceLength(s);
      n <= |s| && IsLegal(s[..n]) && Accepted(s[n..]))
  }

  /** A '.' at a position the loop reaches. */
  predicate DotSeen(s: bytes, checkUtf8: bool)
    decreases |s|
  {
    s != [] && (
      s[0] == DOT || (
        var n := if checkUtf8 then SequenceLength(s) else 1;
        n <= |s| && (checkUtf8 ==> IsLegal(s[..n])) && DotSeen(s[n..], checkUtf8)))
  }

  /** One of the names $ref, $id, $db, as the code recognises them; string[0] is not looked at. */
  predicate IsDbRef(s: bytes) {
    if |s| >= 4 then s[1..4] == [0x72, 0x65, 0x66]
    else if |s| >= 3 then s[1..3] == [0x69, 0x64] || s[1..3] == [0x64, 0x62]
    else false
  }

  predicate DollarFlagged(s: bytes) {
    s != [] && s[0] == DOLLAR && !IsDbRef(s)
  }

  function ErrorsOf(s: bytes, checkUtf8: bool, checkDot: bool, checkDollar: bool): set<Flag> {
    (if checkDollar && DollarFlagged(s) then {FieldInitDollar} else {})
    + (if checkDot && DotSeen(s, checkUtf8) then {FieldHasDot} else {})
    + (if checkUtf8 && !Accepted(s) then {NotUtf8} else {})
  }

  method ValidateString(err: set<Flag>, s: bytes, checkUtf8: bool, checkDot: bool, checkDollar: bool)
    returns (ok: bool, err': set<Flag>)
    ensures ok <==> (checkUtf8 ==> Accepted(s))
    ensures err' == err + ErrorsOf(s, checkUtf8, checkDot, checkDollar)
  {
    err' := err;
    if checkDollar && s != [] && s[0] == DOLLAR {
      if !IsDbRef(s) {
        err' := err' + {FieldInitDollar};
      }
    }
    ghost var start := err';
    ghost var dot := false;
    var position := 0;
    var length := 1;
    assert s[0..] == s;
    while position < |s|
      invariant 0 <= position <= |s|
      invariant !checkUtf8 ==> length == 1
      invariant checkUtf8 ==> (Accepted(s) <==> Accepted(s[position..]))
      invariant DotSeen(s, checkUtf8) <==> dot || DotSeen(s[position..], checkUtf8)
      invariant err' == start + (if checkDot && dot then {FieldHasDot} else {})
    {
      ghost var rest := s[position..];
      if checkDot && s[position] == DOT {
        err' := err' + {FieldHasDot};
      }
      dot := dot || s[position] == DOT;
      if checkUtf8 {
        length := TrailingBytes(s[position]) + 1;
        if position + length > |s| {
          err' := err' + {NotUtf8};
          return false, err';
        }
        assert s[position..position + length] == rest[..length];
        if !IsLegal(s[position..position + length]) {
          err' := err' + {NotUtf8};
          return false, err';
        }
      }
      assert rest[length..] == s[position + length..];
      position := position + length;
    }
    return true, err';
  }

  // ---- What acceptance means ----

  /** chunks cuts s into sequences of the announced length, each of them legal. */
  predicate IsSplit(chunks: seq<bytes>, s: bytes) {
    && Concat(chunks) == s
    && forall c :: c in chunks ==> IsLegal(c) && |c| == SequenceLength(c)
  }

  function Chunks(s: bytes): (chunks: seq<bytes>)
    requires Accepted(s)
    ensures IsSplit(chunks, s)
    decreases |s|
  {
    if s == [] then [] else
      var n := SequenceLength(s);
      var rest := Chunks(s[n..]);
      assert ([s[..n]] + rest)[1..] == rest;
      [s[..n]] + rest
  }

  /** A split, when there is one, is the one the loop walks: acceptance and uniqueness at once. */
  lemma {:induction false} SplitUnique(chunks: seq<bytes>, s: bytes)
    requires IsSplit(chunks, s)
    ensures Accepted(s) && chunks == Chunks(s)
    decreases |chunks|
  {
    if chunks != [] {
      var c, rest := chunks[0], chunks[1..];
      var n := SequenceLength(c);
      assert c in chunks && |c| == n;
      assert s == c + Concat(rest);
      assert s[..n] == c && s[n..] == Concat(rest);
      SplitUnique(rest, s[n..]);
      assert chunks == [c] + rest;
    }
  }

  lemma AcceptedIffSplits(s: bytes)
    ensures Accepted(s) <==> exists chunks :: IsSplit(chunks, s)
  {
    if Accepted(s) {
      assert IsSplit(Chunks(s), s);
    }
    forall chunks | IsSplit(chunks, s)
      ensures Accepted(s)
    {
      SplitUnique(chunks, s);
    }
  }

  // ---- Section 4 of RFC 3629 ----

  /** One UTF8-char of the grammar: UTF8-1 / UTF8-2 / UTF8-3 / UTF8-4. */
  predicate Utf8Char(s: bytes) {
    || (|s| == 1 && s[0] <= 0x7F)
    || (|s| == 2 && 0xC2 <= s[0] <= 0xDF && Tail(s[1]))
    || (|s| == 3 && Tail(s[2]) && (
          || (s[0] == 0xE0 && 0xA0 <= s[1] <= 0xBF)
          || (0xE1 <= s[0] <= 0xEC && Tail(s[1]))
          || (s[0] == 0xED && 0x80 <= s[1] <= 0x9F)
          || (0xEE <= s[0] <= 0xEF && Tail(s[1]))))
    || (|s| == 4 && Tail(s[2]) && Tail(s[3]) && (
          || (s[0] == 0xF0 && 0x90 <= s[1] <= 0xBF)
          || (0xF1 <= s[0] <= 0xF3 && Tail(s[1]))
          || (s[0] == 0xF4 && 0x80 <= s[1] <= 0x8F)))
  }

  ghost predicate WellFormed(s: bytes) {
    exists chunks: seq<bytes> :: Concat(chunks) == s && forall c :: c in chunks ==> Utf8Char(c)
  }

  /** The two looser sequences: surrogates, and F4 followed by a byte below 0x80. */
  predicate Loose(c: bytes) {
    || (|c| == 3 && c[0] == 0xED && 0xA0 <= c[1] <= 0xBF && Tail(c[2]))
    || (|c| == 4 && c[0] == 0xF4 && c[1] < 0x80 && Tail(c[2]) && Tail(c[3]))
  }

  lemma LegalIsUtf8CharOrLoose(c: bytes)
    ensures c != [] && |c| == SequenceLength(c) && IsLegal(c) <==> Utf8Char(c) || Loose(c)
    ensures !(Utf8Char(c) && Loose(c))
  {
    if |c| == 1 {
    } else if |c| == 2 {
    } else if |c| == 3 {
    } else if |c| == 4 {
    }
  }

  /** Exactly how far the code is from the RFC, for every string. */
  lemma WellFormedExactly(s: bytes)
    ensures WellFormed(s) <==> Accepted(s) && forall c :: c in Chunks(s) ==> !Loose(c)
  {
    forall c: bytes
      ensures Utf8Char(c) <==> c != [] && |c| == SequenceLength(c) && IsLegal(c) && !Loose(c)
    {
      LegalIsUtf8CharOrLoose(c);
    }
    if WellFormed(s) {
      var chunks: seq<bytes> :| Concat(chunks) == s && forall c :: c in chunks ==> Utf8Char(c);
      assert IsSplit(chunks, s);
      SplitUnique(chunks, s);
    }
    if Accepted(s) && forall c :: c in Chunks(s) ==> !Loose(c) {
      assert IsSplit(Chunks(s), s);
    }
  }

  /** RFC strings pass, and passing strings without ED or F4 are RFC strings. */
  lemma RfcStringsAccepted(s: bytes)
    ensures WellFormed(s) ==> Accepted(s)
    ensures Accepted(s) && 0xED !in s && 0xF4 !in s ==> WellFormed(s)
  {
    WellFormedExactly(s);
    if Accepted(s) && 0xED !in s && 0xF4 !in s {
      forall c | c in Chunks(s)
        ensures !Loose(c)
      {
        ChunkBytesInString(Chunks(s), c);
        assert c[0] in s;
      }
    }
  }

  lemma {:induction false} ChunkBytesInString(chunks: seq<bytes>, c: bytes)
    requires c in chunks
    ensures forall b :: b in c ==> b in Concat(chunks)
    decreases |chunks|
  {
    if c != chunks[0] {
      ChunkBytesInString(chunks[1..], c);
    }
  }

  /** Both looser sequences do occur: an encoded surrogate, and F4 00 80 80. */
  lemma LooseStringsExist()
    ensures Accepted([0xED, 0xA0, 0x80]) && !WellFormed([0xED, 0xA0, 0x80])
    ensures Accepted([0xF4, 0x00, 0x80, 0x80]) && !WellFormed([0xF4, 0x00, 0x80, 0x80])
  {
    var a: bytes := [0xED, 0xA0, 0x80];
    var b: bytes := [0xF4, 0x00, 0x80, 0x80];
    assert a[..3] == a && b[..4] == b;
    assert a[3..] == [] && b[4..] == [];
    WellFormedExactly(a);
    WellFormedExactly(b);
    assert Chunks(a)[0] == a && Chunks(b)[0] == b;
    assert a in Chunks(a) && Loose(a);
    assert b in Chunks(b) && Loose(b);
  }

  // ---- What the flags of a name mean ----

  /** In an accepted name a dot is flagged exactly if it is a sequence of its own. */
  lemma {:induction false} DotSeenExactly(s: bytes)
    requires Accepted(s)
    ensures DotSeen(s, true) <==> [0x2E] in Chunks(s)
    decreases |s|
  {
    if s != [] {
      var n := SequenceLength(s);
      DotSeenExactly(s[n..]);
      if s[0] == DOT {
        assert s[..n] == [DOT];
      }
      assert Chunks(s) == [s[..n]] + Chunks(s[n..]);
    }
  }

  /** So in a well-formed name, and in any that is not checked for UTF-8, exactly if there is one. */
  lemma {:induction false} DotsFlagged(s: bytes)
    ensures WellFormed(s) ==> (DotSeen(s, true) <==> 0x2E in s)
    ensures DotSeen(s, false) <==> 0x2E in s
  {
    hide WellFormed;
    hide DotSeen;
    hide Accepted;
    hide Chunks;
    hide Loose;
    UncheckedDots(s);
    if WellFormed(s) {
      WellFormedExactly(s);
      DotSeenExactly(s);
      DotsAlone(Chunks(s), s);
    }
  }

  /** A dot is inside no longer character. */
  lemma DotsAlone(chunks: seq<bytes>, s: bytes)
    requires IsSplit(chunks, s) && forall c :: c in chunks ==> !Loose(c)
    ensures [0x2E] in chunks <==> 0x2E in s
  {
    if [0x2E] in chunks {
      ChunkBytesInString(chunks, [0x2E]);
      assert 0x2E in [0x2E];
    }
    if 0x2E in s {
      var c := ChunkOfByte(chunks, 0x2E);
      LegalIsUtf8CharOrLoose(c);
      OnlyByte(c, 0x2E);
    }
  }

  lemma OnlyByte(c: bytes, b: byte)
    requires Utf8Char(c) && b in c && b < 0x80
    ensures c == [b]
  {
  }

  lemma {:induction false} UncheckedDots(s: bytes)
    ensures DotSeen(s, false) <==> 0x2E in s
    decreases |s|
  {
    if s != [] {
      UncheckedDots(s[1..]);
      assert s == [s[0]] + s[1..];
    }
  }

  lemma {:induction false} ChunkOfByte(chunks: seq<bytes>, b: byte) returns (c: bytes)
    requires b in Concat(chunks)
    ensures c in chunks && b in c
    decreases |chunks|
  {
    if b in chunks[0] {
      c := chunks[0];
    } else {
      c := ChunkOfByte(chunks[1..], b);
    }
  }

  /** A leading dollar is excused in $ref and whatever it begins, and in $id and $db. */
  lemma DollarsFlagged(s: bytes)
    ensures DollarFlagged(s) <==>
            && |s| > 0 && s[0] == 0x24
            && !(|s| >= 4 && s[1] == 0x72 && s[2] == 0x65 && s[3] == 0x66)
            && !(|s| == 3 && ((s[1] == 0x69 && s[2] == 0x64) || (s[1] == 0x64 && s[2] == 0x62)))
  {
  }
}
