/** Streaming of md5.c: chunked input refines sections 3.1 to 3.5 of RFC 1321. */
module Md5 {
  import opened Bytes

  const BLOCK: nat := 64

  /** The four registers. */
  datatype Registers = Registers(a: word, b: word, c: word, d: word)

  const INITIAL: Registers := Registers(0x67452301, 0xefcdab89, 0x98badcfe, 0x10325476)

  /** Section 3.4, the processing of one 16-word block, left arbitrary. */
  type Compress = (Registers, bytes) -> Registers

  // ---- The digest of the RFC ----

  /** Section 3.4 over all whole blocks of s. */
  function Fold(f: Compress, r: Registers, s: bytes): Registers
    decreases |s|
  {
    if |s| < BLOCK then r else Fold(f, f(r, s[..BLOCK]), s[BLOCK..])
  }

  function Zeros(k: nat): (z: bytes)
    ensures |z| == k
  {
    if k == 0 then [] else [0] + Zeros(k - 1)
  }

  /** k zero bytes after 0x80 make a message of n bytes congruent to 56 modulo 64. */
  predicate Pads(n: nat, k: nat) {
    (n + 1 + k) % BLOCK == 56
  }

  /** Section 3.1: as few zeros as do it. */
  function PadZeros(n: nat): (k: nat)
    ensures Pads(n, k) && forall j :: 0 <= j < k ==> !Pads(n, j)
  {
    var k := (55 - n) % BLOCK;
    PadZerosLeast(n, k);
    k
  }

  lemma PadZerosLeast(n: nat, k: nat)
    requires k == (55 - n) % 64
    ensures Pads(n, k) && forall j :: 0 <= j < k ==> !Pads(n, j)
  {
    var r := n % 64;
    assert k == if r <= 55 then 55 - r else 119 - r;
    forall j | 0 <= j < 64
      ensures Pads(n, j) <==> (r + 1 + j == 56 || r + 1 + j == 120)
    {
      assert (n + 1 + j) % 64 == (r + 1 + j) % 64;
    }
  }

  /** Sections 3.1 and 3.2: padding bits, then the bit length modulo 2^64. */
  function Padded(msg: bytes): bytes {
    msg + Padding(|msg|) + Length(8 * |msg|)
  }

  function Padding(n: nat): bytes {
    [0x80] + Zeros(PadZeros(n))
  }

  function Length(bits: nat): (s: bytes)
    ensures |s| == 8
  {
    LittleEndian(bits, 8)
  }

  /** Section 3.5: the registers, low-order byte of a first. */
  function Output(r: Registers): bytes {
    LittleEndian(r.a, 4) + LittleEndian(r.b, 4) + LittleEndian(r.c, 4) + LittleEndian(r.d, 4)
  }

  function Digest(f: Compress, msg: bytes): bytes {
    Output(Fold(f, INITIAL, Padded(msg)))
  }

  /** The registers of section 3.3, low-order bytes first. */
  lemma InitialBytes()
    ensures Output(INITIAL) == [0x01, 0x23, 0x45, 0x67, 0x89, 0xAB, 0xCD, 0xEF,
                                0xFE, 0xDC, 0xBA, 0x98, 0x76, 0x54, 0x32, 0x10]
  {
    hide LittleEndian;
    FourBytes(INITIAL.a, 4);
    FourBytes(INITIAL.b, 4);
    FourBytes(INITIAL.c, 4);
    FourBytes(INITIAL.d, 4);
  }

  /** The one padded block of the message abc: 24 bits, so 24 is the first byte of the length. */
  lemma PaddedAbc(msg: bytes)
    requires msg == [0x61, 0x62, 0x63]
    ensures Padded(msg) == [0x61, 0x62, 0x63, 0x80] + Zeros(52) + [24, 0, 0, 0, 0, 0, 0, 0]
    ensures |Padded(msg)| == 64
  {
    hide LittleEndian;
    hide Zeros;
    assert PadZeros(3) == 52;
    EightBytes(24, 8);
  }

  /** Padding makes whole blocks, and never one more than the length field needs. */
  lemma PaddedSize(msg: bytes)
    ensures |Padded(msg)| % 64 == 0 && |msg| + 9 <= |Padded(msg)| < |msg| + 9 + 64
  {
    hide LittleEndian;
  }

  // ---- Facts about folding ----

  function Whole(n: nat): (w: nat)
    ensures w <= n < w + BLOCK && w % BLOCK == 0
  {
    n - n % BLOCK
  }

  lemma {:induction false} FoldConcat(f: Compress, r: Registers, s: bytes, t: bytes)
    requires |s| % BLOCK == 0
    ensures Fold(f, r, s + t) == Fold(f, Fold(f, r, s), t)
    decreases |s|
  {
    if |s| < BLOCK {
      assert s == [] && s + t == t;
    } else {
      assert (s + t)[..BLOCK] == s[..BLOCK] && (s + t)[BLOCK..] == s[BLOCK..] + t;
      FoldConcat(f, f(r, s[..BLOCK]), s[BLOCK..], t);
    }
  }

  /** One more whole block. */
  lemma FoldBlock(f: Compress, m: bytes, block: bytes)
    requires |m| % BLOCK == 0 && |block| == BLOCK
    ensures Fold(f, INITIAL, m + block) == f(Fold(f, INITIAL, m), block)
    ensures |m + block| % BLOCK == 0
  {
    FoldConcat(f, INITIAL, m, block);
    var r := Fold(f, INITIAL, m);
    assert block[..BLOCK] == block;
    assert Fold(f, f(r, block), block[BLOCK..]) == f(r, block);
  }

  /** Bytes after the last whole block do not reach the registers. */
  lemma FoldTail(f: Compress, m: bytes, t: bytes)
    requires |m| % BLOCK == 0 && |t| < BLOCK
    ensures Fold(f, INITIAL, m + t) == Fold(f, INITIAL, m)
    ensures Whole(|m + t|) == |m| && |m + t| % BLOCK == |t| && (m + t)[|m|..] == t
  {
    FoldConcat(f, INITIAL, m, t);
  }

  lemma Parts(msg: bytes)
    ensures var w := Whole(|msg|); msg == msg[..w] + msg[w..] && |msg[w..]| == |msg| % BLOCK
  {
  }

  lemma Regrouped(msg: bytes, m: bytes, t: bytes, data: bytes)
    requires msg == m + t
    ensures msg + data == m + (t + data)
  {
  }

  /** A short chunk only lengthens what waits in the buffer. */
  lemma PartialBuffer(f: Compress, msg: bytes, data: bytes)
    requires |msg| % BLOCK + |data| < BLOCK
    ensures Fold(f, INITIAL, msg + data) == Fold(f, INITIAL, msg)
    ensures |msg + data| % BLOCK == |msg| % BLOCK + |data|
    ensures (msg + data)[Whole(|msg + data|)..] == msg[Whole(|msg|)..] + data
  {
    hide Fold;
    hide Whole;
    var m, t := msg[..Whole(|msg|)], msg[Whole(|msg|)..];
    Parts(msg);
    FoldTail(f, m, t);
    FoldTail(f, m, t + data);
    assert msg + data == m + (t + data) by { Regrouped(msg, m, t, data); }
    assert |msg + data| % BLOCK == |t + data|;
  }

  /** A buffer that the start of a chunk fills up is the next whole block. */
  lemma FullBuffer(f: Compress, msg: bytes, data: bytes, block: bytes)
    requires |block| == BLOCK && block == msg[Whole(|msg|)..] + data
    ensures Fold(f, INITIAL, msg + data) == f(Fold(f, INITIAL, msg), block)
    ensures (|msg| + |data|) % BLOCK == 0
  {
    hide Fold;
    var m, t := msg[..Whole(|msg|)], msg[Whole(|msg|)..];
    assert msg == m + t && msg + data == m + block;
    hide Whole;
    FoldTail(f, m, t);
    FoldBlock(f, m, block);
    assert |m + block| == |msg| + |data|;
  }

  // ---- The counter ----

  /** Adding 8n bits in two 32-bit words, the carry taken from the wrapped low word. */
  lemma CountCarry(lo: word, hi: word, n: nat)
    requires n <= INT_MAX
    ensures var bits := (8 * n) % 0x1_0000_0000;
            var lo' := (lo + bits) % 0x1_0000_0000;
            var hi' := (hi + n / 0x2000_0000) % 0x1_0000_0000;
            var hi'' := if lo' < bits then (hi' + 1) % 0x1_0000_0000 else hi';
            lo' + 0x1_0000_0000 * hi'' == (lo + 0x1_0000_0000 * hi + 8 * n) % 0x1_0000_0000_0000_0000
  {
    var W := 0x1_0000_0000;
    var bits, q := (8 * n) % W, n / 0x2000_0000;
    var lo' := (lo + bits) % W;
    var carry := if lo' < bits then 1 else 0;
    LowWord(lo, n);
    var top := hi + q + carry;
    ModAdd(hi + q, 1, W);
    assert lo + W * hi + 8 * n == (W * W) * (top / W) + (lo' + W * (top % W));
    ModUnique(lo + W * hi + 8 * n, W * W, top / W, lo' + W * (top % W));
  }

  /** The low word wraps exactly if it ends up below what was added. */
  lemma LowWord(lo: word, n: nat)
    ensures var W := 0x1_0000_0000;
            var bits := (8 * n) % W;
            var lo' := (lo + bits) % W;
            && 8 * n == W * (n / 0x2000_0000) + bits
            && lo + bits == lo' + W * if lo' < bits then 1 else 0
  {
  }

  lemma ModAdd(a: int, b: int, m: int)
    requires m > 0
    ensures (a % m + b) % m == (a + b) % m
  {
    ModUnique(a + b, m, a / m + (a % m + b) / m, (a % m + b) % m);
  }

  /** The low word tells how full the buffer is. */
  lemma OffsetFromCount(lo: word, hi: word, n: nat)
    requires lo + 0x1_0000_0000 * hi == (8 * n) % 0x1_0000_0000_0000_0000
    ensures (lo / 8) % 64 == n % 64
  {
    var q := (8 * n) / 0x1_0000_0000_0000_0000;
    var z := n - 0x2000_0000_0000_0000 * q - 0x2000_0000 * hi;
    assert lo == 8 * z;
    ModUnique(n, 64, 0x80_0000_0000_0000 * q + 0x80_0000 * hi + z / 64, z % 64);
  }

  // ---- The state ----

  class State {
    const f: Compress
    var count0: word        // bit length, low word
    var count1: word        // and high word
    var abcd: Registers
    var buf: array<byte>
    ghost var msg: bytes    // everything appended so far

    ghost predicate Valid()
      reads this, buf
    {
      && buf.Length == BLOCK
      && count0 + 0x1_0000_0000 * count1 == (8 * |msg|) % 0x1_0000_0000_0000_0000
      && abcd == Fold(f, INITIAL, msg)
      && buf[..|msg| % BLOCK] == msg[Whole(|msg|)..]
    }

    constructor (f: Compress)
      ensures Valid() && msg == [] && this.f == f && fresh(buf)
    {
      this.f := f;
      count0, count1 := 0, 0;
      abcd := INITIAL;
      buf := new byte[64];
      msg := [];
    }

    /** Copy s into the buffer at offset. */
    method Copy(offset: nat, s: bytes)
      requires offset + |s| <= buf.Length
      modifies buf
      ensures buf[..offset + |s|] == old(buf[..offset]) + s
    {
      forall i | 0 <= i < |s| {
        buf[offset + i] := s[i];
      }
    }

    /** Add the bits of nbytes bytes to the two-word counter, with carry. */
    method Count(nbytes: nat, ghost len: nat)
      requires nbytes <= INT_MAX
      requires count0 + 0x1_0000_0000 * count1 == (8 * len) % 0x1_0000_0000_0000_0000
      modifies `count0, `count1
      ensures count0 + 0x1_0000_0000 * count1 == (8 * (len + nbytes)) % 0x1_0000_0000_0000_0000
    {
      CountCarry(count0, count1, nbytes);
      ModAdd(8 * len, 8 * nbytes, 0x1_0000_0000_0000_0000);
      var nbits: word := (8 * nbytes) % 0x1_0000_0000;
      count1 := (count1 + nbytes / 0x2000_0000) % 0x1_0000_0000;
      count0 := (count0 + nbits) % 0x1_0000_0000;
      if count0 < nbits {
        count1 := (count1 + 1) % 0x1_0000_0000;
      }
    }

    method Offset() returns (offset: nat)
      requires Valid()
      ensures offset == |msg| % BLOCK
    {
      hide Fold;
      OffsetFromCount(count0, count1, |msg|);
      offset := (count0 / 8) % 64;
    }

    method Append(data: bytes)
      requires Valid() && |data| <= INT_MAX - BLOCK
      modifies this, buf
      ensures Valid() && msg == old(msg) + data && buf == old(buf)
    {
      hide Fold;
      hide Whole;
      var offset := Offset();
      if |data| <= 0 {
        assert msg + data == msg;
        return;
      }
      Count(|data|, |msg|);
      var p := 0;
      if offset != 0 {
        var copy := if offset + |data| > 64 then 64 - offset else |data|;
        Copy(offset, data[..copy]);
        if offset + copy < 64 {
          assert data[..copy] == data;
          PartialBuffer(f, msg, data);
          msg := msg + data;
          return;
        }
        p := copy;
        FullBuffer(f, msg, data[..p], buf[..]);
        abcd := f(abcd, buf[..]);
      } else {
        assert msg + data[..0] == msg;
      }
      ProcessRest(data, p);
    }

    /** The block loop and the final partial block. */
    method ProcessRest(data: bytes, start: nat)
      requires buf.Length == BLOCK && start <= |data| && (|msg| + start) % BLOCK == 0
      requires abcd == Fold(f, INITIAL, msg + data[..start])
      modifies `abcd, `msg, buf
      ensures msg == old(msg) + data && abcd == Fold(f, INITIAL, msg)
      ensures buf[..|msg| % BLOCK] == msg[Whole(|msg|)..]
    {
      hide Fold;
      var p := start;
      while |data| - p >= 64
        invariant start <= p <= |data| && (|msg| + p) % BLOCK == 0 && msg == old(msg)
        invariant abcd == Fold(f, INITIAL, msg + data[..p])
      {
        FoldBlock(f, msg + data[..p], data[p..p + 64]);
        assert msg + data[..p] + data[p..p + 64] == msg + data[..p + 64];
        abcd := f(abcd, data[p..p + 64]);
        p := p + 64;
      }
      FoldTail(f, msg + data[..p], data[p..]);
      assert msg + data[..p] + data[p..] == msg + data;
      if |data| - p != 0 {
        Copy(0, data[p..]);
      }
      msg := msg + data;
    }

    /** Pad, append the length saved before padding, and spell out the registers. */
    method Finish() returns (digest: bytes)
      requires Valid()
      modifies this, buf
      ensures digest == Digest(f, old(msg))
    {
      hide Fold;
      hide LittleEndian;
      ghost var text := msg;
      OffsetFromCount(count0, count1, |msg|);
      var data := LengthBytes();
      var pad := [0x80] + seq<byte>(63, _ => 0);
      var n := (55 - count0 / 8) % 64 + 1;
      PadBytes(count0, |msg|, pad, n);
      Append(pad[..n]);
      Append(data);
      assert msg == Padded(text);
      var a := WordBytes(abcd.a);
      var b := WordBytes(abcd.b);
      var c := WordBytes(abcd.c);
      var d := WordBytes(abcd.d);
      digest := a + b + c + d;
    }

    /** The eight bytes count[i >> 2] >> ((i & 3) << 3). */
    method LengthBytes() returns (data: bytes)
      requires Valid()
      ensures data == Length(8 * |msg|)
    {
      var lo := WordBytes(count0);
      var hi := WordBytes(count1);
      data := lo + hi;
      TwoWords(count0, count1, 8 * |msg|);
    }
  }

  /** The bytes of a word by shifting, least significant first. */
  method WordBytes(w: word) returns (s: bytes)
    ensures s == LittleEndian(w, 4)
  {
    hide LittleEndian;
    s := [];
    assert LittleEndian(w, 0) == [];
    for i := 0 to 4
      invariant s == LittleEndian(w, i)
    {
      LittleEndianSplit(w, i, 1);
      LittleEndianOne(w / Pow256(i));
      s := s + [(w / Pow256(i)) % 256];
    }
  }

  lemma LittleEndianOne(x: int)
    ensures LittleEndian(x, 1) == [x % 256]
  {
    assert LittleEndian(x / 256, 0) == [];
  }

  /** However a message is cut into appends, the digest is that of the whole. */
  method DigestOfChunks(f: Compress, chunks: seq<bytes>) returns (digest: bytes)
    requires forall c :: c in chunks ==> |c| <= INT_MAX - BLOCK
    ensures digest == Digest(f, Concat(chunks))
  {
    hide Concat;
    var state := new State(f);
    assert Concat(chunks[..0]) == [] by { ConcatEmpty(chunks); }
    for i := 0 to |chunks|
      invariant state.Valid() && state.f == f && fresh(state) && fresh(state.buf)
      invariant state.msg == Concat(chunks[..i])
    {
      assert chunks[..i + 1] == chunks[..i] + [chunks[i]];
      ConcatSnoc(chunks[..i], chunks[i]);
      state.Append(chunks[i]);
    }
    assert chunks[..|chunks|] == chunks;
    digest := state.Finish();
  }

  lemma ConcatEmpty(chunks: seq<bytes>)
    ensures Concat(chunks[..0]) == []
  {
  }

  lemma PadBytes(lo: word, len: nat, pad: bytes, n: nat)
    requires (lo / 8) % 64 == len % 64 && n == (55 - lo / 8) % 64 + 1
    requires |pad| == 64 && pad[0] == 0x80 && forall i :: 1 <= i < 64 ==> pad[i] == 0
    ensures 1 <= n <= 64 && pad[..n] == Padding(len)
  {
    var k := PadZeros(len);
    assert k < 64 by {
      PadZerosLeast(len, (55 - len) % 64);
    }
    assert n == k + 1;
    ZerosAt(k);
  }

  lemma ZerosAt(k: nat)
    ensures forall i :: 0 <= i < k ==> Zeros(k)[i] == 0
  {
  }

  /** A 64-bit little-endian number is its low word and then its high word. */
  lemma TwoWords(lo: word, hi: word, n: nat)
    requires lo + 0x1_0000_0000 * hi == n % 0x1_0000_0000_0000_0000
    ensures LittleEndian(lo, 4) + LittleEndian(hi, 4) == LittleEndian(n, 8)
  {
    hide LittleEndian;
    hide Pow256;
    Pow256Values();
    var v := lo + 0x1_0000_0000 * hi;
    LittleEndianCongruent(n, v, 8);
    LittleEndianSplit(v, 4, 4);
    LittleEndianCongruent(v, lo, 4);
  }
}
