/**
  Streaming SHA-256 as the minifilter computes it, against the digest of
  FIPS 180-4.
 */
module Sha256 {
  import opened LittleEndian
  import opened Widths
  import opened Wrappers

  // ------------------------------------------------------------------
  // FIPS 180-4
  // ------------------------------------------------------------------

  /** The constants of section 4.2.2. */
  const K: seq<bv32> :=
    [0x428a2f98, 0x71374491, 0xb5c0fbcf, 0xe9b5dba5,
     0x3956c25b, 0x59f111f1, 0x923f82a4, 0xab1c5ed5]
    + [0xd807aa98, 0x12835b01, 0x243185be, 0x550c7dc3,
     0x72be5d74, 0x80deb1fe, 0x9bdc06a7, 0xc19bf174]
    + [0xe49b69c1, 0xefbe4786, 0x0fc19dc6, 0x240ca1cc,
     0x2de92c6f, 0x4a7484aa, 0x5cb0a9dc, 0x76f988da]
    + [0x983e5152, 0xa831c66d, 0xb00327c8, 0xbf597fc7,
     0xc6e00bf3, 0xd5a79147, 0x06ca6351, 0x14292967]
    + [0x27b70a85, 0x2e1b2138, 0x4d2c6dfc, 0x53380d13,
     0x650a7354, 0x766a0abb, 0x81c2c92e, 0x92722c85]
    + [0xa2bfe8a1, 0xa81a664b, 0xc24b8b70, 0xc76c51a3,
     0xd192e819, 0xd6990624, 0xf40e3585, 0x106aa070]
    + [0x19a4c116, 0x1e376c08, 0x2748774c, 0x34b0bcb5,
     0x391c0cb3, 0x4ed8aa4a, 0x5b9cca4f, 0x682e6ff3]
    + [0x748f82ee, 0x78a5636f, 0x84c87814, 0x8cc70208,
     0x90befffa, 0xa4506ceb, 0xbef9a3f7, 0xc67178f2]

  /** The initial hash value of section 5.3.3. */
  const H0: seq<bv32> := [
    0x6a09e667, 0xbb67ae85, 0x3c6ef372, 0xa54ff53a,
    0x510e527f, 0x9b05688c, 0x1f83d9ab, 0x5be0cd19]

  /** Addition modulo 2^32. */
  function Add(x: bv32, y: bv32): bv32 {
    x + y
  }

  /** Rotation to the right, as section 3.2 defines it. */
  function Rotr(x: bv32, n: bv32): bv32
    requires n <= 32
  {
    (x >> n) | (x << (32 - n))
  }

  lemma RotrIsRotation(x: bv32)
    ensures Rotr(x, 2) == x.RotateRight(2) && Rotr(x, 6) == x.RotateRight(6) && Rotr(x, 7) == x.RotateRight(7)
    ensures Rotr(x, 11) == x.RotateRight(11) && Rotr(x, 13) == x.RotateRight(13)
    ensures Rotr(x, 17) == x.RotateRight(17) && Rotr(x, 18) == x.RotateRight(18)
    ensures Rotr(x, 19) == x.RotateRight(19) && Rotr(x, 22) == x.RotateRight(22)
    ensures Rotr(x, 25) == x.RotateRight(25)
  {
  }

  // Section 4.1.2.

  function Ch(x: bv32, y: bv32, z: bv32): bv32 {
    (x & y) ^ (!x & z)
  }

  function Maj(x: bv32, y: bv32, z: bv32): bv32 {
    (x & y) ^ (x & z) ^ (y & z)
  }

  function BigSigma0(x: bv32): bv32 {
    Rotr(x, 2) ^ Rotr(x, 13) ^ Rotr(x, 22)
  }

  function BigSigma1(x: bv32): bv32 {
    Rotr(x, 6) ^ Rotr(x, 11) ^ Rotr(x, 25)
  }

  function SmallSigma0(x: bv32): bv32 {
    Rotr(x, 7) ^ Rotr(x, 18) ^ (x >> 3)
  }

  function SmallSigma1(x: bv32): bv32 {
    Rotr(x, 17) ^ Rotr(x, 19) ^ (x >> 10)
  }

  /** The functions of a round, written out. */
  lemma SigmasAre(a: bv32, e: bv32)
    ensures BigSigma1(e) == Rotr(e, 6) ^ Rotr(e, 11) ^ Rotr(e, 25)
    ensures BigSigma0(a) == Rotr(a, 2) ^ Rotr(a, 13) ^ Rotr(a, 22)
  {
    hide Rotr;
  }

  lemma ChoicesAre(a: bv32, b: bv32, c: bv32, e: bv32, f: bv32, g: bv32)
    ensures Ch(e, f, g) == (e & f) ^ (!e & g)
    ensures Maj(a, b, c) == (a & b) ^ (a & c) ^ (b & c)
  {
  }

  /** Word t of a block, most significant byte first (section 5.2.1). */
  function WordAt(block: seq<bv8>, t: nat): bv32
    requires |block| == 64 && t < 16
  {
    BigEndian(block[4 * t], block[4 * t + 1], block[4 * t + 2], block[4 * t + 3])
  }

  function BigEndian(b0: bv8, b1: bv8, b2: bv8, b3: bv8): bv32 {
    ((b0 as bv32) << 24) | ((b1 as bv32) << 16) | ((b2 as bv32) << 8) | (b3 as bv32)
  }

  /** The first n words of the message schedule of section 6.2.2, step 1. */
  function Schedule(block: seq<bv8>, n: nat): (w: seq<bv32>)
    requires |block| == 64
    ensures |w| == n
  {
    if n == 0 then []
    else
      var w := Schedule(block, n - 1);
      w + [if n - 1 < 16 then WordAt(block, n - 1) else NextWord(w)]
  }

  function NextWord(w: seq<bv32>): bv32
    requires |w| >= 16
  {
    var t := |w|;
    Add(Add(Add(w[t - 16], SmallSigma0(w[t - 15])), w[t - 7]), SmallSigma1(w[t - 2]))
  }

  datatype Regs = Regs(a: bv32, b: bv32, c: bv32, d: bv32, e: bv32, f: bv32, g: bv32, h: bv32)

  /** One round of section 6.2.2, step 3. */
  function Round(r: Regs, k: bv32, w: bv32): Regs {
    var t1 := Add(Add(Add(Add(r.h, BigSigma1(r.e)), Ch(r.e, r.f, r.g)), k), w);
    var t2 := Add(BigSigma0(r.a), Maj(r.a, r.b, r.c));
    Regs(Add(t1, t2), r.a, r.b, r.c, Add(r.d, t1), r.e, r.f, r.g)
  }

  function Rounds(r: Regs, w: seq<bv32>, t: nat): Regs
    requires |w| == 64 && t <= 64
  {
    if t == 0 then r else Round(Rounds(r, w, t - 1), K[t - 1], w[t - 1])
  }

  function RegsOf(h: seq<bv32>): Regs
    requires |h| == 8
  {
    Regs(h[0], h[1], h[2], h[3], h[4], h[5], h[6], h[7])
  }

  function AddRegs(r: Regs, h: seq<bv32>): seq<bv32>
    requires |h| == 8
  {
    [Add(h[0], r.a), Add(h[1], r.b), Add(h[2], r.c), Add(h[3], r.d),
     Add(h[4], r.e), Add(h[5], r.f), Add(h[6], r.g), Add(h[7], r.h)]
  }

  /** Section 6.2.2, step 4. */
  function Compress(h: seq<bv32>, block: seq<bv8>): (r: seq<bv32>)
    requires |h| == 8 && |block| == 64
    ensures |r| == 8
  {
    var r := Rounds(RegsOf(h), Schedule(block, 64), 64);
    AddRegs(r, h)
  }

  function HashBlocks(msg: seq<bv8>): (h: seq<bv32>)
    requires |msg| % 64 == 0
    ensures |h| == 8
  {
    if msg == [] then H0
    else Compress(HashBlocks(msg[..|msg| - 64]), msg[|msg| - 64..])
  }

  /** Byte i of a 64-bit number, most significant byte first. */
  function LengthByte(bits: nat, i: nat): bv8
    requires i < 8
  {
    (bits / Pow256(7 - i) % 256) as bv8
  }

  function Zeros(n: nat): seq<bv8> {
    seq(n, _ => 0)
  }

  function LengthBytes(bits: nat): seq<bv8> {
    seq(8, i requires 0 <= i < 8 => LengthByte(bits, i))
  }

  /** The padding of section 5.1.1: a one bit, the least number of zero bits
      that leaves 64 bits of the last block, and the message length in bits. */
  function Pad(msg: seq<bv8>): (p: seq<bv8>)
    ensures |p| % 64 == 0
  {
    msg + [0x80] + Zeros((55 - |msg|) % 64) + LengthBytes(8 * |msg|)
  }

  function WordBytes(w: bv32): seq<bv8> {
    [((w >> 24) & 0xFF) as bv8, ((w >> 16) & 0xFF) as bv8, ((w >> 8) & 0xFF) as bv8, (w & 0xFF) as bv8]
  }

  function DigestBytes(h: seq<bv32>): (d: seq<bv8>)
    ensures |d| == 4 * |h|
  {
    if h == [] then [] else DigestBytes(h[..|h| - 1]) + WordBytes(h[|h| - 1])
  }

  /** The message digest; the standard defines it below 2^64 message bits. */
  function Digest(msg: seq<bv8>): seq<bv8> {
    DigestBytes(HashBlocks(Pad(msg)))
  }

  // ------------------------------------------------------------------
  // Facts about the standard's functions
  // ------------------------------------------------------------------

  /** Hashing one more block compresses it into the hash of the blocks before it. */
  lemma HashOneMore(msg: seq<bv8>, block: seq<bv8>)
    requires |msg| % 64 == 0 && |block| == 64
    ensures HashBlocks(msg + block) == Compress(HashBlocks(msg), block)
  {
    var longer := msg + block;
    assert longer[..|longer| - 64] == msg;
    assert longer[|longer| - 64..] == block;
  }

  // ------------------------------------------------------------------
  // The streaming implementation
  // ------------------------------------------------------------------

  lemma RoundsStart(r: Regs, w: seq<bv32>)
    requires |w| == 64
    ensures Rounds(r, w, 0) == r
  {
  }

  lemma RoundsNext(r: Regs, w: seq<bv32>, t: nat)
    requires |w| == 64 && t < 64
    ensures Rounds(r, w, t + 1) == Round(Rounds(r, w, t), K[t], w[t])
  {
    hide Round;
  }

  lemma CompressEnds(h: seq<bv32>, p: seq<bv8>)
    requires |h| == 8 && |p| == 64
    ensures Compress(h, p) == AddRegs(Rounds(RegsOf(h), Schedule(p, 64), 64), h)
  {
    hide Rounds, Schedule, Add;
  }

  /** 32-bit wrap-around of ULONG arithmetic. */
  function Ulong(x: nat): nat {
    x % TWO_32
  }

  /** How many bytes of an input go into a partly filled buffer. */
  function TopUpLength(bufLen: int, len: nat): nat {
    if bufLen <= 0 || bufLen >= 64 then 0 else if 64 - bufLen <= len then 64 - bufLen else len
  }

  /** Where the whole blocks of an input end. */
  function LastOffset(start: nat, len: nat): nat
    requires start <= len
  {
    start + (len - start) / 64 * 64
  }

  /** The test for one more block does not wrap at the end of the whole blocks. */
  predicate OffsetFits(bufLen: int, len: nat) {
    LastOffset(TopUpLength(bufLen, len), len) + 64 < TWO_32
  }

  /** The condition is exact: when it fails for a 32-bit length, the test for one more block wraps
      and passes although less than a block is left, so the source reads behind its input. It holds
      for every length below 2^32 - 64. */
  lemma OffsetFitsExactly(bufLen: int, len: nat)
    requires len < TWO_32
    ensures len < TWO_32 - 64 ==> OffsetFits(bufLen, len)
    ensures var last := LastOffset(TopUpLength(bufLen, len), len);
            last <= len < last + 64 && (!OffsetFits(bufLen, len) <==> Ulong(last + 64) <= len)
  {
  }

  /** An input of 2^32 - 64 bytes given to an empty buffer: all of it is taken in whole blocks, the sum
      in the test wraps to 0, and the test passes with no byte left. */
  lemma OffsetWraps()
    ensures var len := TWO_32 - 64;
            && !OffsetFits(0, len)
            && LastOffset(TopUpLength(0, len), len) == len
            && Ulong(len + 64) == 0
  {
  }

  class Sha256Context {
    const h: array<bv32>
    var len: nat
    const buf: array<bv8>
    var bufLen: int
    /** All bytes absorbed so far. */
    ghost var msg: seq<bv8>

    /** h covers fed up to its last n bytes, and those are in the buffer. */
    ghost predicate Absorbed(fed: seq<bv8>, n: int)
      reads h, buf
    {
      && h.Length == 8 && buf.Length == 64 && h != buf as object
      && 0 <= n <= 64 && n <= |fed| && (|fed| - n) % 64 == 0
      && h[..] == HashBlocks(fed[..|fed| - n])
      && buf[..n] == fed[|fed| - n..]
    }

    ghost predicate Valid()
      reads this, h, buf
    {
      && Absorbed(msg, bufLen)
      && bufLen == |msg| % 64
      && len == |msg| % TWO_64
    }

    constructor ()
      ensures Valid() && msg == [] && fresh(h) && fresh(buf)
    {
      h := new bv32[8](i requires 0 <= i < 8 => H0[i]);
      buf := new bv8[64](_ => 0);
      len := 0;
      bufLen := 0;
      msg := [];
      new;
      assert h[..] == H0;
    }

    static method ExpandSchedule(p: seq<bv8>) returns (w: array<bv32>)
      requires |p| == 64
      ensures fresh(w) && w.Length == 64 && w[..] == Schedule(p, 64)
    {
      hide Rotr, Add, BigEndian;
      w := new bv32[64];
      var i := 0;
      while i < 16
        invariant 0 <= i <= 16
        invariant w[..i] == Schedule(p, i)
      {
        w[i] := BigEndian(p[i * 4], p[i * 4 + 1], p[i * 4 + 2], p[i * 4 + 3]);
        i := i + 1;
      }
      while i < 64
        invariant 16 <= i <= 64
        invariant w[..i] == Schedule(p, i)
      {
        var s0 := Rotr(w[i - 15], 7) ^ Rotr(w[i - 15], 18) ^ (w[i - 15] >> 3);
        var s1 := Rotr(w[i - 2], 17) ^ Rotr(w[i - 2], 19) ^ (w[i - 2] >> 10);
        w[i] := Add(Add(Add(w[i - 16], s0), w[i - 7]), s1);
        i := i + 1;
      }
      assert w[..64] == w[..];
    }

    static method Temporaries(a: bv32, b: bv32, c: bv32, e: bv32, f: bv32, g: bv32, h: bv32, k: bv32, w: bv32)
      returns (t1: bv32, t2: bv32)
      ensures forall d :: Round(Regs(a, b, c, d, e, f, g, h), k, w) == Regs(Add(t1, t2), a, b, c, Add(d, t1), e, f, g)
    {
      hide Rotr, Add, Ch, Maj, BigSigma0, BigSigma1;
      var S1 := Rotr(e, 6) ^ Rotr(e, 11) ^ Rotr(e, 25);
      SigmasAre(a, e);
      ChoicesAre(a, b, c, e, f, g);
      var ch := (e & f) ^ (!e & g);
      t1 := Add(Add(Add(Add(h, S1), ch), k), w);
      var S0 := Rotr(a, 2) ^ Rotr(a, 13) ^ Rotr(a, 22);
      var maj := (a & b) ^ (a & c) ^ (b & c);
      t2 := Add(S0, maj);
    }

    method Block(p: seq<bv8>)
      requires |p| == 64 && h.Length == 8
      modifies h
      ensures h[..] == Compress(old(h[..]), p)
    {
      hide Rotr, Add, Schedule, Round, Rounds, Compress, AddRegs;
      var w := ExpandSchedule(p);
      ghost var words, h0 := w[..], h[..];
      var a, b, cc, d := h[0], h[1], h[2], h[3];
      var e, f, g, hh := h[4], h[5], h[6], h[7];
      var i := 0;
      RoundsStart(RegsOf(h0), words);
      while i < 64
        invariant 0 <= i <= 64
        invariant w[..] == words && |words| == 64 && h[..] == h0
        invariant Regs(a, b, cc, d, e, f, g, hh) == Rounds(RegsOf(h0), words, i)
      {
        RoundsNext(RegsOf(h0), words, i);
        var t1, t2 := Temporaries(a, b, cc, e, f, g, hh, K[i], w[i]);
        hh := g; g := f; f := e; e := Add(d, t1);
        d := cc; cc := b; b := a; a := Add(t1, t2);
        i := i + 1;
      }
      CompressEnds(h0, p);
      AddBack(Regs(a, b, cc, d, e, f, g, hh));
    }

    /** The working registers are added into the chaining value. */
    method AddBack(r: Regs)
      requires h.Length == 8
      modifies h
      ensures h[..] == AddRegs(r, old(h[..]))
    {
      hide Add;
      h[0], h[1], h[2], h[3] := Add(h[0], r.a), Add(h[1], r.b), Add(h[2], r.c), Add(h[3], r.d);
      h[4], h[5], h[6], h[7] := Add(h[4], r.e), Add(h[5], r.f), Add(h[6], r.g), Add(h[7], r.h);
    }

    /** A full buffer is compressed and emptied. */
    method Flush(ghost fed: seq<bv8>)
      requires Absorbed(fed, 64)
      modifies h
      ensures Absorbed(fed, 0)
    {
      hide HashBlocks, Compress;
      HashOneMore(fed[..|fed| - 64], buf[..]);
      assert fed[..|fed| - 64] + buf[..] == fed[..|fed| - 0];
      Block(buf[..]);
    }

    /** One byte goes into the buffer behind n others. */
    method Store(n: int, b: bv8, ghost fed: seq<bv8>)
      requires 0 <= n < 64 && Absorbed(fed, n)
      modifies buf
      ensures Absorbed(fed + [b], n + 1)
    {
      hide HashBlocks;
      buf[n] := b;
      AppendOne(fed, n, b, buf[..]);
    }

    /** One whole block is compressed straight from the input. */
    method Direct(block: seq<bv8>, ghost fed: seq<bv8>)
      requires Absorbed(fed, 0) && |block| == 64
      modifies h
      ensures Absorbed(fed + block, 0)
    {
      hide HashBlocks, Compress;
      HashOneMore(fed, block);
      assert fed[..|fed| - 0] == fed;
      assert (fed + block)[..|fed + block| - 0] == fed + block;
      Block(block);
    }

    lemma BufferedLength(fed: seq<bv8>, n: int)
      requires Absorbed(fed, n)
      ensures 0 <= n <= 64 && (n < 64 ==> n == |fed| % 64)
    {
      hide HashBlocks;
    }

    /** Fills a partly used buffer and compresses it once it is full. */
    method TopUp(data: seq<bv8>, ghost before: seq<bv8>) returns (off: nat)
      requires Absorbed(before, bufLen) && 0 <= bufLen < 64
      modifies this`bufLen, h, buf
      ensures off == TopUpLength(old(bufLen), |data|) <= |data| && Absorbed(before + data[..off], bufLen)
      ensures 0 <= bufLen < 64 && (off < |data| ==> bufLen == 0)
    {
      hide HashBlocks, Absorbed;
      off := 0;
      assert before + data[..0] == before;
      if bufLen > 0 {
        while bufLen < 64 && off < |data|
          invariant 0 <= off <= |data| && 0 < bufLen == old(bufLen) + off <= 64
          invariant Absorbed(before + data[..off], bufLen)
        {
          assert before + data[..off + 1] == before + data[..off] + [data[off]];
          Store(bufLen, data[off], before + data[..off]);
          bufLen := bufLen + 1;
          off := off + 1;
        }
        if bufLen == 64 {
          Flush(before + data[..off]);
          bufLen := 0;
        }
      }
    }

    /** Compresses the whole blocks of the input and buffers the tail, unless it would read behind
        the input. */
    method Consume(data: seq<bv8>, start: nat, ghost before: seq<bv8>) returns (inBounds: bool)
      requires start <= |data| < TWO_32
      requires 0 <= bufLen < 64 && (start < |data| ==> bufLen == 0)
      requires Absorbed(before + data[..start], bufLen)
      modifies this`bufLen, h, buf
      ensures inBounds <==> LastOffset(start, |data|) + 64 < TWO_32
      ensures inBounds ==> 0 <= bufLen < 64 && Absorbed(before + data, bufLen)
    {
      hide HashBlocks, Absorbed;
      var off := start;
      while Ulong(off + 64) <= |data|
        invariant start <= off <= LastOffset(start, |data|) && (off - start) % 64 == 0 && 0 <= bufLen < 64
        invariant off < |data| ==> bufLen == 0
        invariant Absorbed(before + data[..off], bufLen)
        decreases |data| - off
      {
        if off + 64 > |data| {
          return false;
        }
        assert before + data[..off + 64] == before + data[..off] + data[off..off + 64];
        Direct(data[off..off + 64], before + data[..off]);
        off := off + 64;
      }
      while off < |data| && bufLen < 64
        invariant 0 <= off <= |data|
        invariant 0 <= bufLen && bufLen + (|data| - off) < 64
        invariant Absorbed(before + data[..off], bufLen)
      {
        assert before + data[..off + 1] == before + data[..off] + [data[off]];
        Store(bufLen, data[off], before + data[..off]);
        bufLen := bufLen + 1;
        off := off + 1;
      }
      assert data[..off] == data;
      inBounds := true;
    }

    /** Tells whether every byte it read belongs to the input. */
    method Update(data: seq<bv8>) returns (inBounds: bool)
      requires Valid() && |data| < TWO_32
      modifies this, h, buf
      ensures inBounds <==> OffsetFits(old(bufLen), |data|)
      ensures inBounds ==> Valid() && msg == old(msg) + data
    {
      hide HashBlocks, Absorbed;
      ghost var before := msg;
      LengthWraps(|msg|, |data|);
      len := (len + |data|) % TWO_64;
      BufferedLength(before, bufLen);
      var off := TopUp(data, before);
      inBounds := Consume(data, off, before);
      if inBounds {
        BufferedLength(before + data, bufLen);
        msg := before + data;
      }
    }

    lemma {:induction false} WholeBlocksAbsorbed(fed: seq<bv8>)
      requires Absorbed(fed, 0)
      ensures |fed| % 64 == 0 && h.Length == 8 && h[..] == HashBlocks(fed)
    {
      hide HashBlocks;
      assert fed[..|fed| - 0] == fed;
    }

    /** Appends the one bit and the zero bits; 56 bytes of the last block are
        in use afterwards. */
    method PadTo56() returns (ghost fed: seq<bv8>)
      requires Valid()
      modifies h, buf
      ensures fed == msg + [0x80] + Zeros((55 - |msg|) % 64) && Absorbed(fed, 56)
    {
      hide HashBlocks, Absorbed;
      var n := bufLen;
      BufferedLength(msg, n);
      if n >= 64 {
        n := 63;
      }
      Store(n, 0x80, msg);
      n := n + 1;
      ghost var zeros := 0;
      assert msg + [0x80] + Zeros(0) == msg + [0x80];
      if n > 56 {
        while n < 64
          invariant 56 < n <= 64 && zeros == n - (bufLen + 1)
          invariant Absorbed(msg + [0x80] + Zeros(zeros), n)
        {
          Store(n, 0, msg + [0x80] + Zeros(zeros));
          assert msg + [0x80] + Zeros(zeros) + [0] == msg + [0x80] + Zeros(zeros + 1);
          zeros := zeros + 1;
          n := n + 1;
        }
        Flush(msg + [0x80] + Zeros(zeros));
        n := 0;
      }
      ghost var skipped := zeros - n;
      while n < 56
        invariant 0 <= n <= 56 && zeros == n + skipped
        invariant Absorbed(msg + [0x80] + Zeros(zeros), n)
      {
        Store(n, 0, msg + [0x80] + Zeros(zeros));
        assert msg + [0x80] + Zeros(zeros) + [0] == msg + [0x80] + Zeros(zeros + 1);
        zeros := zeros + 1;
        n := n + 1;
      }
      assert zeros == (55 - |msg|) % 64;
      fed := msg + [0x80] + Zeros(zeros);
    }

    /** Pads what was absorbed, compresses the last one or two blocks and
        returns the digest. */
    method Final() returns (out: seq<bv8>)
      requires Valid()
      modifies h, buf
      ensures 8 * |msg| < TWO_64 ==> out == Digest(msg)
    {
      hide HashBlocks, Absorbed, DigestBytes, LengthByte;
      var bitLen := len * 8 % TWO_64;
      ghost var fed := PadTo56();
      var i := 0;
      assert fed + LengthBytes(bitLen)[..0] == fed;
      while i < 8
        invariant 0 <= i <= 8
        invariant Absorbed(fed + LengthBytes(bitLen)[..i], 56 + i)
      {
        Store(56 + i, LengthByte(bitLen, i), fed + LengthBytes(bitLen)[..i]);
        assert fed + LengthBytes(bitLen)[..i] + [LengthByte(bitLen, i)] == fed + LengthBytes(bitLen)[..i + 1];
        i := i + 1;
      }
      assert LengthBytes(bitLen)[..8] == LengthBytes(bitLen);
      Flush(fed + LengthBytes(bitLen));
      WholeBlocksAbsorbed(fed + LengthBytes(bitLen));
      out := Output();
    }

    /** The hash value, most significant byte of each word first. */
    method Output() returns (out: seq<bv8>)
      requires h.Length == 8
      ensures out == DigestBytes(h[..])
    {
      hide WordBytes;
      out := [];
      var i := 0;
      while i < 8
        invariant 0 <= i <= 8
        invariant out == DigestBytes(h[..i])
      {
        assert h[..i + 1][..i] == h[..i];
        out := out + WordBytes(h[i]);
        i := i + 1;
      }
      assert h[..8] == h[..];
    }
  }

  /** One-shot hashing: none if bytes behind the input would go into the digest. */
  method ComputeSha256(data: seq<bv8>) returns (out: Option<seq<bv8>>)
    requires |data| < TWO_32
    ensures out == if OffsetFits(0, |data|) then Some(Digest(data)) else None
  {
    hide Digest, HashBlocks;
    var c := new Sha256Context();
    var inBounds := c.Update(data);
    if !inBounds {
      return None;
    }
    assert c.msg == data;
    var digest := c.Final();
    out := Some(digest);
  }

  lemma LengthWraps(a: nat, b: nat)
    ensures (a % TWO_64 + b) % TWO_64 == (a + b) % TWO_64
  {
  }

  lemma AppendOne(fed: seq<bv8>, n: nat, b: bv8, buf: seq<bv8>)
    requires n < 64 && n <= |fed| && |buf| == 64
    requires buf[..n] == fed[|fed| - n..] && buf[n] == b
    ensures var longer := fed + [b];
            && longer[..|longer| - (n + 1)] == fed[..|fed| - n]
            && buf[..n + 1] == longer[|longer| - (n + 1)..]
  {
  }
}
