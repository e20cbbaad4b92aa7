/**
 The streaming interface of base/md5.cc: MD5Init, any sequence of MD5Update calls, MD5Final.
 Words are stored in the machine's own byte order, which is a parameter.
 */
module Md5 {
  import opened Md5Spec
  import opened Md5Transform

  // ---------------------------------------------------------------- words in memory

  datatype Endian = LittleEndian | BigEndian

  function NativeWord(e: Endian, b0: Byte, b1: Byte, b2: Byte, b3: Byte): Word {
    if e.LittleEndian? then LittleWord(b0, b1, b2, b3) else LittleWord(b3, b2, b1, b0)
  }

  function NativeBytes(e: Endian, w: Word): (b: seq<Byte>)
    ensures |b| == 4 && NativeWord(e, b[0], b[1], b[2], b[3]) == w
  {
    var b := LittleBytes(w);
    if e.LittleEndian? then b else [b[3], b[2], b[1], b[0]]
  }

  function NativeNth(e: Endian, s: seq<Byte>, n: nat): Word
    requires 4 * n + 4 <= |s|
  {
    NativeWord(e, s[4 * n], s[4 * n + 1], s[4 * n + 2], s[4 * n + 3])
  }

  /** The bytes of a 64-byte buffer read as sixteen words of the machine. */
  function NativeWords(e: Endian, b: seq<Byte>): (x: seq<Word>)
    requires |b| == 64
    ensures |x| == 16
  {
    seq(16, n requires 0 <= n < 16 => NativeNth(e, b, n))
  }

  /** The expression with which byteReverse gathers four bytes. */
  function Gather(b0: Byte, b1: Byte, b2: Byte, b3: Byte): Word {
    Or(ShiftLeft(Or(ShiftLeft(b3, 8), b2), 16), Or(ShiftLeft(b1, 8), b0))
  }

  lemma {:induction false} OrWithZero(a: nat, n: nat)
    requires a < Pow2(n)
    ensures Bitwise(OrBit, a, 0, n) == a
  {
    if n > 0 {
      OrWithZero(a / 2, n - 1);
    }
  }

  /** `a` followed by `k` zero bits. */
  function Scaled(a: nat, k: nat): nat {
    if k == 0 then a else 2 * Scaled(a, k - 1)
  }

  lemma ScaledBytes(a: nat)
    ensures Scaled(a, 8) == 0x100 * a && Scaled(a, 16) == 0x1_0000 * a
    ensures Pow2(8) == 0x100 && Pow2(16) == 0x1_0000
  {
    ScaledByFour(a, 0);
    ScaledByFour(a, 4);
    ScaledByFour(a, 8);
    ScaledByFour(a, 12);
  }

  lemma ScaledByFour(a: nat, k: nat)
    ensures Scaled(a, k + 4) == 0x10 * Scaled(a, k)
  {
    assert Scaled(a, k + 2) == 4 * Scaled(a, k);
  }

  /** Or of numbers without a common bit is their sum. */
  lemma {:induction false} OrIsSum(a: nat, b: nat, k: nat, n: nat)
    requires b < Pow2(k) && Scaled(a, k) + b < Pow2(n)
    ensures Bitwise(OrBit, Scaled(a, k), b, n) == Scaled(a, k) + b
  {
    if k == 0 {
      OrWithZero(a, n);
    } else if n > 0 {
      OrIsSum(a, b / 2, k - 1, n - 1);
    }
  }

  lemma {:induction false} ShiftIsScaled(a: Word, k: nat)
    requires Scaled(a, k) < TWO_32
    ensures ShiftLeft(a, k) == Scaled(a, k)
  {
    if k > 0 {
      ShiftIsScaled(a, k - 1);
    }
  }

  lemma ShiftOr(a: Word, b: Word, k: nat)
    requires b < Pow2(k) && Scaled(a, k) + b < TWO_32
    ensures Or(ShiftLeft(a, k), b) == Scaled(a, k) + b
  {
    WordHas32Bits();
    ShiftIsScaled(a, k);
    OrIsSum(a, b, k, 32);
  }

  lemma GatherIsLittle(b0: Byte, b1: Byte, b2: Byte, b3: Byte)
    ensures Gather(b0, b1, b2, b3) == LittleWord(b0, b1, b2, b3)
  {
    var high, low := 0x100 * (b3 as int) + b2 as int, 0x100 * (b1 as int) + b0 as int;
    ScaledBytes(b3);
    ScaledBytes(b1);
    ScaledBytes(high);
    ShiftOr(b3, b2, 8);
    ShiftOr(b1, b0, 8);
    ShiftOr(high, low, 16);
  }

  // ---------------------------------------------------------------- memory operations

  /** memcpy. */
  method Copy(dst: array<Byte>, at: nat, src: seq<Byte>)
    requires at + |src| <= dst.Length
    modifies dst
    ensures dst[..] == old(dst[..at]) + src + old(dst[at + |src|..])
  {
    forall i | 0 <= i < |src| {
      dst[at + i] := src[i];
    }
  }

  /** Stores a word in the machine's byte order, as the n-th long. */
  method WriteLong(e: Endian, dst: array<Byte>, n: nat, w: Word)
    requires 4 * n + 4 <= dst.Length
    modifies dst
    ensures NativeNth(e, dst[..], n) == w
    ensures forall k :: 0 <= k < dst.Length && (k < 4 * n || 4 * n + 4 <= k) ==> dst[k] == old(dst[k])
  {
    var b := NativeBytes(e, w);
    dst[4 * n], dst[4 * n + 1], dst[4 * n + 2], dst[4 * n + 3] := b[0], b[1], b[2], b[3];
  }

  /** A long depends on its own four bytes. */
  lemma SameLong(e: Endian, s: seq<Byte>, s': seq<Byte>, m: nat)
    requires 4 * m + 4 <= |s| == |s'| && forall k :: 4 * m <= k < 4 * m + 4 ==> s[k] == s'[k]
    ensures NativeNth(e, s, m) == NativeNth(e, s', m) && LittleNth(s, m) == LittleNth(s', m)
  {
  }

  /** byteReverse: afterwards the machine reads as words what the bytes mean low-order first. */
  method ByteReverse(e: Endian, bytes: array<Byte>, longs: nat)
    requires 0 < longs && 4 * longs <= bytes.Length
    modifies bytes
    ensures forall n :: 0 <= n < longs ==> NativeNth(e, bytes[..], n) == LittleNth(old(bytes[..]), n)
    ensures forall k :: 4 * longs <= k < bytes.Length ==> bytes[k] == old(bytes[k])
  {
    ghost var before := bytes[..];
    var n := 0;
    while n < longs
      invariant 0 <= n <= longs
      invariant forall m :: 0 <= m < n ==> NativeNth(e, bytes[..], m) == LittleNth(before, m)
      invariant forall k :: 4 * n <= k < bytes.Length ==> bytes[k] == before[k]
    {
      var t := Gather(bytes[4 * n], bytes[4 * n + 1], bytes[4 * n + 2], bytes[4 * n + 3]);
      GatherIsLittle(bytes[4 * n], bytes[4 * n + 1], bytes[4 * n + 2], bytes[4 * n + 3]);
      assert t == LittleNth(before, n);
      ghost var prior := bytes[..];
      WriteLong(e, bytes, n, t);
      forall m | 0 <= m < n
        ensures NativeNth(e, bytes[..], m) == LittleNth(before, m)
      {
        SameLong(e, bytes[..], prior, m);
      }
      n := n + 1;
    }
  }

  // ---------------------------------------------------------------- the bit count

  lemma QuotientIs(x: nat, q: nat, r: nat)
    requires x == TWO_32 * q + r && r < TWO_32
    ensures x / TWO_32 == q && x % TWO_32 == r
  {
  }

  /** The low word of 8 * len and what goes to the high word. */
  lemma BitsOf(len: nat)
    ensures len % TWO_32 * 8 % TWO_32 == 8 * (len % 0x2000_0000)
    ensures 8 * len == TWO_32 * (len / 0x2000_0000) + 8 * (len % 0x2000_0000)
  {
    var p, s := len / TWO_32, len % TWO_32;
    var t, u := s / 0x2000_0000, s % 0x2000_0000;
    assert len == 0x2000_0000 * (8 * p + t) + u;
    assert len / 0x2000_0000 == 8 * p + t && len % 0x2000_0000 == u;
    QuotientIs(s * 8, t, 8 * u);
  }

  /** Adding the low words carries into the high word exactly when the sum got smaller. */
  lemma CountAdds(n: nat, len: nat)
    ensures var b0 := 8 * n % TWO_32;
      var low := (b0 + len % TWO_32 * 8 % TWO_32) % TWO_32;
      && low == 8 * (n + len) % TWO_32
      && 8 * n / TWO_32 + (if low < b0 then 1 else 0) + len / 0x2000_0000 == 8 * (n + len) / TWO_32
  {
    BitsOf(len);
    var q, b0 := 8 * n / TWO_32, 8 * n % TWO_32;
    var l0 := 8 * (len % 0x2000_0000);
    if b0 + l0 < TWO_32 {
      QuotientIs(b0 + l0, 0, b0 + l0);
      QuotientIs(8 * (n + len), q + len / 0x2000_0000, b0 + l0);
    } else {
      QuotientIs(b0 + l0, 1, b0 + l0 - TWO_32);
      QuotientIs(8 * (n + len), q + len / 0x2000_0000 + 1, b0 + l0 - TWO_32);
    }
  }

  lemma ModuloAdds(x: nat, y: nat)
    ensures (x % TWO_32 + y % TWO_32) % TWO_32 == (x + y) % TWO_32
  {
    var p, q := x / TWO_32, y / TWO_32;
    var r := (x % TWO_32 + y % TWO_32) % TWO_32;
    var c := (x % TWO_32 + y % TWO_32) / TWO_32;
    QuotientIs(x + y, p + q + c, r);
  }

  /** The high word of the count, with wrap-around at each addition. */
  lemma HighWord(n: nat, len: nat, carry: nat)
    requires 8 * n / TWO_32 + carry + len / 0x2000_0000 == 8 * (n + len) / TWO_32 && carry <= 1
    ensures ((8 * n / TWO_32 % TWO_32 + carry) % TWO_32 + len / 0x2000_0000 % TWO_32) % TWO_32
         == 8 * (n + len) / TWO_32 % TWO_32
  {
    ModuloAdds(8 * n / TWO_32, carry);
    ModuloAdds(8 * n / TWO_32 + carry, len / 0x2000_0000);
  }

  lemma RemainderIs(n: nat, q: nat, r: nat)
    requires n == 64 * q + r && r < 64
    ensures n % 64 == r
  {
  }

  lemma CountGivesRemainder(n: nat)
    ensures 8 * n % TWO_32 / 8 % 64 == n % 64
  {
    var r := n % 0x2000_0000;
    BitsOf(n);
    QuotientIs(8 * n, n / 0x2000_0000, 8 * r);
    assert 8 * r / 8 == r;
    RemainderIs(n, 0x80_0000 * (n / 0x2000_0000) + r / 64, r % 64);
  }

  // ---------------------------------------------------------------- the context

  /** The sixteen words that the machine reads are those of `block`. */
  lemma WordsAgree(e: Endian, input: seq<Byte>, block: seq<Byte>)
    requires |input| == |block| == 64
    requires forall n :: 0 <= n < 16 ==> NativeNth(e, input, n) == LittleNth(block, n)
    ensures NativeWords(e, input) == Words(block)
  {
  }

  /** After the bytes of `message`: state over the whole blocks, remainder in `input`, count of bits. */
  ghost predicate Absorbed(state: Quad, input: seq<Byte>, bits0: Word, bits1: Word, message: seq<Byte>) {
    var n := |message|;
    && |input| == 64
    && state == Chain(message, n / 64)
    && input[..n % 64] == message[64 * (n / 64)..]
    && bits0 == 8 * n % TWO_32
    && bits1 == 8 * n / TWO_32 % TWO_32
  }

  lemma NothingAbsorbed(input: seq<Byte>)
    requires |input| == 64
    ensures Absorbed(START, input, 0, 0, [])
  {
  }

  class Context {
    const endian: Endian
    const buf: array<Word>
    const input: array<Byte>
    var bits0: Word
    var bits1: Word
    ghost var message: seq<Byte>

    ghost predicate Shape() {
      buf.Length == 4 && input.Length == 64
    }

    ghost predicate Valid()
      reads this, buf, input
    {
      Shape() && Absorbed(Registers(buf), input[..], bits0, bits1, message)
    }

    /** MD5Init. */
    constructor (e: Endian)
      ensures Valid() && message == [] && fresh(buf) && fresh(input) && endian == e
    {
      hide Absorbed;
      var b := new Word[4];
      b[0], b[1], b[2], b[3] := 0x6745_2301, 0xefcd_ab89, 0x98ba_dcfe, 0x1032_5476;
      var i := new Byte[64];
      NothingAbsorbed(i[..]);
      endian, buf, input := e, b, i;
      bits0, bits1, message := 0, 0, [];
    }

    /** byteReverse and MD5Transform on the full input buffer. */
    method TransformInput()
      requires Shape()
      modifies buf, input
      ensures Registers(buf) == Compress(old(Registers(buf)), old(input[..]))
    {
      ghost var block := input[..];
      ByteReverse(endian, input, 16);
      TransformWords(block);
    }

    /** The 64-bit count of bits in two words, with the carry made explicit. */
    method CountBits(len: nat)
      requires bits0 == 8 * |message| % TWO_32 && bits1 == 8 * |message| / TWO_32 % TWO_32
      modifies this`bits0, this`bits1
      ensures bits0 == 8 * (|message| + len) % TWO_32 && bits1 == 8 * (|message| + len) / TWO_32 % TWO_32
    {
      ghost var n := |message|;
      var t := bits0;
      CountAdds(n, len);
      bits0 := (t + len % TWO_32 * 8 % TWO_32) % TWO_32;
      ghost var carry := if bits0 < t then 1 else 0;
      if bits0 < t {
        bits1 := (bits1 + 1) % TWO_32;
      }
      assert bits1 == (8 * n / TWO_32 % TWO_32 + carry) % TWO_32;
      bits1 := (bits1 + len / 0x2000_0000 % TWO_32) % TWO_32;
      HighWord(n, len, carry);
    }

    /** MD5Update: the message grows by `data`, however it was split before. */
    method Update(data: seq<Byte>)
      requires Valid() && |data| < TWO_32 * TWO_32
      modifies this`bits0, this`bits1, this`message, buf, input
      ensures Valid() && message == old(message) + data
    {
      hide Compress, START;
      ghost var k := |message| / 64;
      CountGivesRemainder(|message|);
      var t := bits0 / 8 % 64;
      CountBits(|data|);
      AbsorbData(message, k, t, data);
      message := message + data;
    }

    /** The rest of MD5Update, with `t` bytes of the message already in the buffer. */
    method AbsorbData(ghost m: seq<Byte>, ghost k: nat, t: nat, data: seq<Byte>)
      requires Shape() && t < 64 && |m| == 64 * k + t
      requires Registers(buf) == Chain(m, k) && input[..t] == m[64 * k..]
      modifies buf, input
      ensures var full := m + data; var n := |full|;
        Registers(buf) == Chain(full, n / 64) && input[..n % 64] == full[64 * (n / 64)..]
    {
      hide Compress, START;
      ghost var full := m + data;
      ChainPrefix(m, full, k);
      var rest := data;
      ghost var done := k;
      if t != 0 {
        var room := 64 - t;
        if |data| < room {
          Copy(input, t, data);
          assert |full| / 64 == k && |full| % 64 == t + |data|;
          return;
        }
        Copy(input, t, data[..room]);
        FilledBlock(m, data, k, t);
        assert input[..] == m[64 * k..] + data[..room];
        TransformInput();
        rest, done := data[room..], k + 1;
      }
      AbsorbBlocks(full, done, rest);
    }

    /** The loop over 64-byte chunks, and the remaining bytes. */
    method AbsorbBlocks(ghost full: seq<Byte>, ghost k: nat, data: seq<Byte>)
      requires Shape() && 64 * k + |data| == |full| && full[64 * k..] == data
      requires Registers(buf) == Chain(full, k)
      modifies buf, input
      ensures var n := |full|;
        Registers(buf) == Chain(full, n / 64) && input[..n % 64] == full[64 * (n / 64)..]
    {
      hide Compress, START;
      var rest := data;
      ghost var done := k;
      while |rest| >= 64
        invariant 64 * done + |rest| == |full| && full[64 * done..] == rest
        invariant Registers(buf) == Chain(full, done)
      {
        Copy(input, 0, rest[..64]);
        assert input[..] == Block(full, done);
        TransformInput();
        rest, done := rest[64..], done + 1;
      }
      Copy(input, 0, rest);
      assert |full| / 64 == done && |full| % 64 == |rest|;
    }

    /** Zero padding in the buffer (memset). */
    method Clear(from: nat, to: nat)
      requires from <= to <= input.Length
      modifies input
      ensures input[..] == old(input[..from]) + Zeros(to - from) + old(input[to..])
    {
      Copy(input, from, Zeros(to - from));
    }

    /** byteReverse on the first 14 longs, the bit count in the last two, MD5Transform. */
    method TransformLast(ghost length: nat)
      requires Shape() && bits0 == 8 * length % TWO_32 && bits1 == 8 * length / TWO_32 % TWO_32
      modifies buf, input
      ensures Registers(buf) == Compress(old(Registers(buf)), old(input[..56]) + LengthBytes(8 * length))
    {
      hide Compress, START;
      ghost var block := input[..56] + (LittleBytes(bits0) + LittleBytes(bits1));
      ghost var before := input[..];
      ByteReverse(endian, input, 14);
      ghost var turned := input[..];
      WriteLong(endian, input, 14, bits0);
      ghost var low := input[..];
      WriteLong(endian, input, 15, bits1);
      forall n | 0 <= n < 16
        ensures NativeNth(endian, input[..], n) == LittleNth(block, n)
      {
        LongOfLast(endian, before, turned, low, input[..], bits0, bits1, n);
      }
      TransformWords(block);
    }

    /** MD5Transform on an input buffer that the machine reads as the words of `block`. */
    method TransformWords(ghost block: seq<Byte>)
      requires Shape() && |block| == 64
      requires forall n :: 0 <= n < 16 ==> NativeNth(endian, input[..], n) == LittleNth(block, n)
      modifies buf
      ensures Registers(buf) == Compress(old(Registers(buf)), block)
    {
      WordsAgree(endian, input[..], block);
      Transform(buf, NativeWords(endian, input[..]));
    }

    /** The state words as bytes, low-order byte first, on either machine. */
    method Emit() returns (digest: seq<Byte>)
      requires Shape()
      modifies buf
      ensures digest == Output(old(Registers(buf)))
    {
      digest := [];
      var i := 0;
      ghost var q := Registers(buf);
      while i < 4
        invariant 0 <= i <= 4
        invariant forall j :: i <= j < 4 ==> buf[j] == old(buf[j])
        invariant digest == Output(q)[..4 * i]
      {
        var b := NativeBytes(endian, buf[i]);
        TurnedBytes(endian, buf[i]);
        OutputAt(q, i);
        buf[i] := Gather(b[0], b[1], b[2], b[3]);
        digest := digest + NativeBytes(endian, buf[i]);
        i := i + 1;
      }
    }

    /** MD5Final: the digest of the whole message; the context is wiped. */
    method Final() returns (digest: seq<Byte>)
      requires Valid()
      modifies this, buf, input
      ensures digest == Digest(old(message))
      ensures bits0 == bits1 == 0 && Shape() && (forall i :: 0 <= i < 4 ==> buf[i] == 0) && input[..] == Zeros(64)
    {
      hide Compress, Chain, Padded;
      ghost var k, c := |message| / 64, |message| % 64;
      CountGivesRemainder(|message|);
      var count := bits0 / 8 % 64;
      Finish(message, k, count);
      digest := Emit();
      Wipe();
    }

    /** Overwrites the context, as it may hold something secret. */
    method Wipe()
      requires Shape()
      modifies this, buf, input
      ensures Shape()
      ensures bits0 == bits1 == 0 && (forall i :: 0 <= i < 4 ==> buf[i] == 0) && input[..] == Zeros(64)
    {
      Clear(0, 64);
      bits0, bits1 := 0, 0;
      buf[0], buf[1], buf[2], buf[3] := 0, 0, 0, 0;
    }

    /** The padding and the last one or two transforms. */
    method Finish(ghost m: seq<Byte>, ghost k: nat, count: nat)
      requires Shape() && count < 64 && |m| == 64 * k + count
      requires Registers(buf) == Chain(m, k) && input[..count] == m[64 * k..]
      requires bits0 == 8 * |m| % TWO_32 && bits1 == 8 * |m| / TWO_32 % TWO_32
      modifies buf, input
      ensures Registers(buf) == Chain(Padded(m), |Padded(m)| / 64)
    {
      hide Compress, Padded, LengthBytes;
      PaddedExtends(m);
      ChainPrefix(m, Padded(m), k);
      input[count] := 0x80;
      assert input[..count + 1] == m[64 * k..] + [0x80];
      var left := 64 - 1 - count;
      if left < 8 {
        LongPadding(m, k, count);
        Clear(count + 1, 64);
        assert input[..] == Block(Padded(m), k);
        TransformInput();
        Clear(0, 56);
        assert input[..56] + LengthBytes(8 * |m|) == Block(Padded(m), k + 1);
      } else {
        ShortPadding(m, k, count);
        Clear(count + 1, count + 1 + (left - 8));
        assert input[..56] + LengthBytes(8 * |m|) == Block(Padded(m), k);
      }
      TransformLast(|m|);
    }
  }

  /** The block that the buffered bytes and the first new ones make. */
  lemma FilledBlock(m: seq<Byte>, data: seq<Byte>, k: nat, t: nat)
    requires t < 64 && |m| == 64 * k + t && |data| >= 64 - t
    ensures Block(m + data, k) == m[64 * k..] + data[..64 - t]
  {
  }

  /** What each long of the last block reads as. */
  lemma LongOfLast(e: Endian, before: seq<Byte>, turned: seq<Byte>, low: seq<Byte>, last: seq<Byte>, w0: Word, w1: Word, n: nat)
    requires |before| == |turned| == |low| == |last| == 64 && n < 16
    requires forall m :: 0 <= m < 14 ==> NativeNth(e, turned, m) == LittleNth(before, m)
    requires NativeNth(e, low, 14) == w0 && forall i :: 0 <= i < 64 && (i < 56 || 60 <= i) ==> low[i] == turned[i]
    requires NativeNth(e, last, 15) == w1 && forall i :: 0 <= i < 60 ==> last[i] == low[i]
    ensures NativeNth(e, last, n) == LittleNth(before[..56] + (LittleBytes(w0) + LittleBytes(w1)), n)
  {
    var block := before[..56] + (LittleBytes(w0) + LittleBytes(w1));
    if n < 14 {
      SameLong(e, last, turned, n);
      SameLong(e, block, before, n);
    } else if n == 14 {
      SameLong(e, last, low, 14);
    }
  }

  lemma BytesAreUnique(b0: Byte, b1: Byte, b2: Byte, b3: Byte)
    ensures LittleBytes(LittleWord(b0, b1, b2, b3)) == [b0, b1, b2, b3]
  {
    var w := LittleWord(b0, b1, b2, b3);
    var r1 := (b1 as int) + 0x100 * (b2 as int) + 0x1_0000 * (b3 as int);
    var r2 := (b2 as int) + 0x100 * (b3 as int);
    ByteQuotient(w, r1, b0);
    ByteQuotient(r1, r2, b1);
    ByteQuotient(r2, b3, b2);
  }

  lemma ByteQuotient(x: nat, q: nat, r: Byte)
    requires x == 0x100 * q + r as int
    ensures x / 0x100 == q && x % 0x100 == r
  {
  }

  /** byteReverse on a word, then the bytes of the machine: low-order first on both machines. */
  lemma TurnedBytes(e: Endian, w: Word)
    ensures var b := NativeBytes(e, w); NativeBytes(e, Gather(b[0], b[1], b[2], b[3])) == LittleBytes(w)
  {
    var b := NativeBytes(e, w);
    GatherIsLittle(b[0], b[1], b[2], b[3]);
    BytesAreUnique(b[0], b[1], b[2], b[3]);
  }

  lemma OutputAt(q: Quad, i: nat)
    requires i < 4
    ensures Output(q)[..4 * i + 4] == Output(q)[..4 * i] + LittleBytes([q.a, q.b, q.c, q.d][i])
  {
  }

  /** Fewer than eight bytes are left after the 0x80: the padding takes two blocks. */
  lemma LongPadding(m: seq<Byte>, k: nat, c: nat)
    requires |m| == 64 * k + c && 56 <= c < 64
    ensures |Padded(m)| == 64 * (k + 2)
    ensures Block(Padded(m), k) == m[64 * k..] + [0x80] + Zeros(63 - c)
    ensures Block(Padded(m), k + 1) == Zeros(56) + LengthBytes(8 * |m|)
  {
    RemainderIs(|m|, k, c);
    assert Padding(|m|) == [0x80] + Zeros(119 - c);
  }

  lemma PaddedExtends(m: seq<Byte>)
    ensures m <= Padded(m)
  {
  }

  lemma ShortPadding(m: seq<Byte>, k: nat, c: nat)
    requires |m| == 64 * k + c && c < 56
    ensures |Padded(m)| == 64 * (k + 1)
    ensures Block(Padded(m), k) == m[64 * k..] + [0x80] + Zeros(55 - c) + LengthBytes(8 * |m|)
  {
    RemainderIs(|m|, k, c);
    assert Padding(|m|) == [0x80] + Zeros(55 - c);
  }

  // ---------------------------------------------------------------- any way of splitting the message

  function Concatenation(pieces: seq<seq<Byte>>): seq<Byte> {
    if pieces == [] then [] else Concatenation(pieces[..|pieces| - 1]) + pieces[|pieces| - 1]
  }

  /** Init, one Update per piece, Final: the digest of the concatenation, on either machine. */
  method SumOfPieces(e: Endian, pieces: seq<seq<Byte>>) returns (digest: seq<Byte>)
    requires forall i :: 0 <= i < |pieces| ==> |pieces[i]| < TWO_32 * TWO_32
    ensures digest == Digest(Concatenation(pieces))
  {
    hide Absorbed, Digest;
    var context := new Context(e);
    var i := 0;
    while i < |pieces|
      invariant 0 <= i <= |pieces| && fresh(context) && fresh(context.buf) && fresh(context.input)
      invariant context.Valid() && context.message == Concatenation(pieces[..i])
    {
      context.Update(pieces[i]);
      assert pieces[..i + 1][..i] == pieces[..i];
      i := i + 1;
    }
    assert pieces[..i] == pieces;
    digest := context.Final();
  }
}
