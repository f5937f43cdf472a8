/** Bit-wise files and streams (cl/bitio.c).  An `unsigned char` is an integer below 256; its
    shifts and masks are written as arithmetic. */
module BitIO {
  import opened Arithmetic

  type Byte = x: int | 0 <= x < 256
  type Bits = seq<bool>

  function Pow2(n: nat): (p: nat)
    ensures p >= 1
  {
    if n == 0 then 1 else 2 * Pow2(n - 1)
  }

  /** The low `n` bits of `x`, most significant first. */
  function BitsOf(x: nat, n: nat): (s: Bits)
    ensures |s| == n
  {
    if n == 0 then [] else BitsOf(x / 2, n - 1) + [x % 2 == 1]
  }

  function ValueOf(s: Bits): nat
  {
    if s == [] then 0 else 2 * ValueOf(s[..|s| - 1]) + if s[|s| - 1] then 1 else 0
  }

  function BytesBits(bytes: seq<Byte>): (s: Bits)
    ensures |s| == 8 * |bytes|
  {
    if bytes == [] then [] else BitsOf(bytes[0], 8) + BytesBits(bytes[1..])
  }

  // ----- arithmetic of bits

  lemma {:induction false} TopBit(x: nat, n: nat)
    requires n > 0
    ensures BitsOf(x, n) == [x / Pow2(n - 1) % 2 == 1] + BitsOf(x, n - 1)
  {
    if n > 1 {
      TopBit(x / 2, n - 1);
      DivDiv(x, Pow2(n - 2));
      assert BitsOf(x, n - 1) == BitsOf(x / 2, n - 2) + [x % 2 == 1];
    } else {
      assert x / Pow2(0) == x;
    }
  }

  lemma LowBit(x: nat, n: nat)
    requires n > 0
    ensures BitsOf(x, n) == BitsOf(x / 2, n - 1) + [x % 2 == 1]
  {
  }

  lemma Powers()
    ensures Pow2(0) == 1 && Pow2(1) == 2 && Pow2(2) == 4 && Pow2(3) == 8 && Pow2(4) == 16
    ensures Pow2(5) == 32 && Pow2(6) == 64 && Pow2(7) == 128 && Pow2(8) == 256
  {
    assert Pow2(2) == 4;
    assert Pow2(4) == 16;
    assert Pow2(6) == 64;
  }

  lemma {:induction false} SplitBits(x: nat, n: nat, m: nat)
    ensures BitsOf(x, n + m) == BitsOf(x / Pow2(m), n) + BitsOf(x, m)
  {
    hide BitsOf, Pow2;
    if m == 0 {
      NoSplit(x, n);
    } else {
      SplitBits(x / 2, n, m - 1);
      HalfQuotient(x, m);
      LowBit(x, n + m);
      LowBit(x, m);
      Appended(BitsOf(x / 2 / Pow2(m - 1), n), BitsOf(x / 2, m - 1), x % 2 == 1);
    }
  }

  lemma NoSplit(x: nat, n: nat)
    ensures BitsOf(x, n) == BitsOf(x / Pow2(0), n) + BitsOf(x, 0)
  {
    assert x / Pow2(0) == x;
  }

  lemma Appended(a: Bits, b: Bits, c: bool)
    ensures a + b + [c] == a + (b + [c])
  {
  }

  lemma HalfQuotient(x: nat, m: nat)
    requires m > 0
    ensures x / Pow2(m) == x / 2 / Pow2(m - 1)
  {
    DivDiv(x, Pow2(m - 1));
  }

  lemma {:induction false} BitsModulo(x: nat, n: nat, m: nat)
    requires n <= m
    ensures BitsOf(x % Pow2(m), n) == BitsOf(x, n)
  {
    if n > 0 {
      ModHalf(x, Pow2(m - 1));
      BitsModulo(x / 2, n - 1, m - 1);
    }
  }

  lemma {:induction false} ValueOfBits(x: nat, n: nat)
    requires x < Pow2(n)
    ensures ValueOf(BitsOf(x, n)) == x
  {
    if n > 0 {
      ValueOfBits(x / 2, n - 1);
      var s := BitsOf(x, n);
      assert s[..|s| - 1] == BitsOf(x / 2, n - 1);
    }
  }

  lemma {:induction false} ValueBound(s: Bits)
    ensures ValueOf(s) < Pow2(|s|) && BitsOf(ValueOf(s), |s|) == s
  {
    if s != [] {
      ValueBound(s[..|s| - 1]);
      assert ValueOf(s) / 2 == ValueOf(s[..|s| - 1]);
      assert s == s[..|s| - 1] + [s[|s| - 1]];
    }
  }

  /** Bit `j` of a byte counts from the most significant one. */
  lemma {:induction false} BitAt(x: nat, n: nat, j: nat)
    requires j < n
    ensures BitsOf(x, n)[j] <==> x / Pow2(n - 1 - j) % 2 == 1
  {
    TopBit(x, n);
    if j > 0 { BitAt(x, n - 1, j - 1); }
  }

  lemma {:induction false} ByteBits(bytes: seq<Byte>, i: nat, j: nat)
    requires i < |bytes| && j < 8
    ensures BytesBits(bytes)[8 * i + j] <==> bytes[i] / Pow2(7 - j) % 2 == 1
  {
    if i == 0 { BitAt(bytes[0], 8, j); } else { ByteBits(bytes[1..], i - 1, j); }
  }

  lemma {:induction false} BytesAppend(a: seq<Byte>, b: seq<Byte>)
    ensures BytesBits(a + b) == BytesBits(a) + BytesBits(b)
  {
    if a == [] {
      assert a + b == b;
    } else {
      assert (a + b)[1..] == a[1..] + b;
      BytesAppend(a[1..], b);
    }
  }

  lemma OneByte(b: Byte)
    ensures BytesBits([b]) == BitsOf(b, 8)
  {
    assert [b][1..] == [];
  }

  lemma SameStart(a: bool, s: Bits, b: bool, t: Bits)
    requires [a] + s == [b] + t
    ensures a == b && s == t
  {
    assert ([a] + s)[0] == ([b] + t)[0];
    assert ([a] + s)[1..] == s && ([b] + t)[1..] == t;
  }

  // ----- writing

  /** Padding that fills up the last byte. */
  function Zeros(n: nat): (s: Bits)
    ensures |s| == n && forall k :: 0 <= k < n ==> !s[k]
  {
    seq(n, _ => false)
  }

  lemma {:induction false} ShiftedBits(x: nat, n: nat, m: nat)
    ensures BitsOf(x * Pow2(m), n + m) == BitsOf(x, n) + Zeros(m)
  {
    if m == 0 {
      assert BitsOf(x, n) + Zeros(0) == BitsOf(x, n);
    } else {
      var y := x * Pow2(m - 1);
      assert x * Pow2(m) == 2 * y;
      ShiftedBits(x, n, m - 1);
      assert BitsOf(2 * y, n + m) == BitsOf(y, n + m - 1) + [false];
      assert Zeros(m) == Zeros(m - 1) + [false];
    }
  }

  /** A file opened for writing. */
  class BFile {
    var file: seq<Byte>
    var buf: Byte
    var bitsInBuf: nat
    var position: nat

    constructor ()
      ensures Valid() && file == [] && bitsInBuf == 0 && Written() == []
    {
      file, buf, bitsInBuf, position := [], 0, 0, 0;
    }

    ghost predicate Valid()
      reads this
    {
      bitsInBuf < 8 && buf < Pow2(bitsInBuf) && position == |file|
    }

    /** The bits written so far: the bytes emitted and the low bits of the buffer. */
    ghost function Written(): Bits
      reads this
    {
      BytesBits(file) + BitsOf(buf, bitsInBuf)
    }

    method WriteBit(bit: bool)
      requires Valid()
      modifies this
      ensures Valid() && Written() == old(Written()) + [bit]
      ensures old(file) <= file
    {
      hide BytesBits, Pow2, BitsOf;
      Powers();
      var b: nat := 2 * buf + if bit then 1 else 0;
      PowStep(bitsInBuf);
      SmallPowers(bitsInBuf + 1);
      LowBit(b, bitsInBuf + 1);
      assert BitsOf(b, bitsInBuf + 1) == BitsOf(buf, bitsInBuf) + [bit];
      assert BytesBits(file) + BitsOf(b, bitsInBuf + 1) == Written() + [bit];
      bitsInBuf := bitsInBuf + 1;
      buf := b;
      if bitsInBuf == 8 {
        BytesAppend(file, [buf]);
        OneByte(buf);
        NoBits(0);
        file := file + [buf];
        position := position + 1;
        buf := 0;
        bitsInBuf := 0;
        assert BytesBits(file) + [] == BytesBits(file);
      }
    }

    /** BFwrite: the low `nbits` bits of `data`. */
    method Write(data: Byte, nbits: nat)
      requires Valid() && nbits <= 8
      modifies this
      ensures Valid() && Written() == old(Written()) + BitsOf(data, nbits)
      ensures old(file) <= file
    {
      hide BytesBits, Pow2, BFile.Written, BitsOf;
      var n := nbits;
      Finished(old(Written()), data, nbits);
      while n > 0
        invariant 0 <= n <= nbits && Valid() && old(file) <= file
        invariant old(Written()) + BitsOf(data, nbits) == Written() + BitsOf(data, n)
      {
        TopBit(data, n);
        ghost var w, bit := Written(), data / Pow2(n - 1) % 2 == 1;
        WriteBit(data / Pow2(n - 1) % 2 == 1);
        assert w + ([bit] + BitsOf(data, n - 1)) == w + [bit] + BitsOf(data, n - 1);
        n := n - 1;
      }
      Finished(Written(), data, 0);
    }

    lemma Finished(w: Bits, data: nat, n: nat)
      ensures n == 0 ==> w + BitsOf(data, n) == w
    {
    }

    /** BFwriteWord: the low `nbits` bits of a 32-bit word, byte by byte from the top. */
    method WriteWord(data: nat, nbits: nat) returns (ok: bool)
      requires Valid() && data < Pow2(32)
      modifies this
      ensures Valid() && old(file) <= file && (ok <==> nbits <= 32)
      ensures Written() == old(Written()) + if nbits <= 32 then BitsOf(data, nbits) else []
    {
      hide BytesBits, Pow2, BFile.Written, BitsOf;
      if nbits > 32 {
        assert Written() + [] == Written();
        return false;
      }
      var bytes, rest := nbits / 8, nbits % 8;
      SplitBits(data, rest, 8 * bytes);
      ghost var w := Written();
      if rest > 0 {
        LowByte(data / Pow2(8 * bytes), rest);
        Write(data / Pow2(8 * bytes) % 256, rest);
      } else {
        NoBits(data / Pow2(8 * bytes));
        assert w + [] == w;
      }
      assert Written() == w + BitsOf(data / Pow2(8 * bytes), rest);
      for i := bytes downto 0
        invariant Valid() && old(file) <= file
        invariant w + BitsOf(data, nbits) == Written() + BitsOf(data, 8 * i)
      {
        SplitBits(data, 8, 8 * i);
        LowByte(data / Pow2(8 * i), 8);
        ghost var v := Written();
        Write(data / Pow2(8 * i) % 256, 8);
        assert v + (BitsOf(data / Pow2(8 * i), 8) + BitsOf(data, 8 * i))
            == v + BitsOf(data / Pow2(8 * i), 8) + BitsOf(data, 8 * i);
      }
      NoBits(data);
      assert Written() + [] == Written();
      return true;
    }

    /** BFflush: the last byte is filled up with zeros. */
    method Flush()
      requires Valid()
      modifies this
      ensures Valid() && bitsInBuf == 0 && old(file) <= file && |file| == (|old(Written())| + 7) / 8
      ensures Written() == BytesBits(file) == old(Written()) + Zeros(8 * |file| - |old(Written())|)
    {
      if 0 < bitsInBuf < 8 {
        var k := 8 - bitsInBuf;
        ShiftedBits(buf, bitsInBuf, k);
        ShiftFits(buf, bitsInBuf);
        BytesAppend(file, [buf * Pow2(k)]);
        OneByte(buf * Pow2(k));
        file := file + [buf * Pow2(k)];
        position := position + 1;
        buf := 0;
        bitsInBuf := 0;
      } else {
        assert Written() == Written() + Zeros(0);
      }
    }
  }

  lemma NoBits(x: nat)
    ensures BitsOf(x, 0) == []
  {
  }

  lemma PowStep(n: nat)
    ensures Pow2(n + 1) == 2 * Pow2(n)
  {
  }

  lemma {:induction false} PowMonotone(m: nat, n: nat)
    requires m <= n
    ensures Pow2(m) <= Pow2(n)
  {
    if m < n { PowMonotone(m, n - 1); }
  }

  lemma RestPadded(a: Bits, b: Bits, c: Bits, pad: nat)
    requires a + c == a + b + Zeros(pad)
    ensures c == b + Zeros(pad)
  {
    assert (a + c)[|a|..] == c && (a + b + Zeros(pad))[|a|..] == b + Zeros(pad);
  }

  lemma PrefixRest(a: Bits, b: Bits, c: Bits)
    requires a + b <= a + c
    ensures b <= c
  {
    forall k | 0 <= k < |b| ensures b[k] == c[k] {
      assert (a + b)[|a| + k] == (a + c)[|a| + k];
    }
  }

  lemma SmallPowers(n: nat)
    requires n <= 8
    ensures Pow2(n) <= 256
  {
    hide Pow2;
    Powers();
  }

  lemma ShiftFits(b: nat, n: nat)
    requires n <= 8 && b < Pow2(n)
    ensures b * Pow2(8 - n) < 256
  {
    hide Pow2;
    Powers();
  }

  /** A byte of a word carries the low bits of the word shifted down to it. */
  lemma LowByte(x: nat, n: nat)
    requires n <= 8
    ensures BitsOf(x % 256, n) == BitsOf(x, n)
  {
    hide Pow2, BitsOf;
    Powers();
    BitsModulo(x, n, 8);
  }

  // ----- reading

  lemma TopOfByte(b: Byte)
    ensures BitsOf(b, 8) == [b >= 128] + BitsOf(b, 7)
    ensures BitsOf(2 * b % 256, 8)[..7] == BitsOf(b, 7)
  {
    hide Pow2, BitsOf;
    Powers();
    TopBit(b, 8);
    BitsModulo(b, 7, 7);
    var y := 2 * b % 256;
    LowBit(y, 8);
    assert y / 2 == b % 128;
  }

  lemma NextByte(base: seq<Byte>, k: nat)
    requires k <= |base|
    ensures k == |base| ==> BytesBits(base[k..]) == []
    ensures k < |base| ==> BytesBits(base[k..]) == BitsOf(base[k], 8) + BytesBits(base[k + 1..])
  {
    if k < |base| { assert base[k..][1..] == base[k + 1..]; }
  }

  /** A stream opened for reading. */
  class BStream {
    const base: seq<Byte>
    var buf: Byte
    var bitsInBuf: nat
    var position: nat

    constructor (base: seq<Byte>)
      ensures Valid() && this.base == base && Rest() == BytesBits(base)
    {
      this.base := base;
      buf, bitsInBuf, position := 0, 0, 0;
    }

    ghost predicate Valid()
      reads this
    {
      bitsInBuf <= 8 && position <= |base|
    }

    /** The bits not yet read. */
    ghost function Rest(): Bits
      requires Valid()
      reads this
    {
      BitsOf(buf, 8)[..bitsInBuf] + BytesBits(base[position..])
    }

    /** BSseek. */
    method Seek(offset: nat)
      requires offset <= |base|
      modifies this
      ensures Valid() && Rest() == BytesBits(base[offset..])
    {
      buf, bitsInBuf, position := 0, 0, offset;
    }

    method ReadBit() returns (bit: bool)
      requires Valid() && Rest() != []
      modifies this
      ensures Valid() && old(Rest()) == [bit] + Rest()
    {
      hide BytesBits, BitsOf;
      if bitsInBuf == 0 {
        NextByte(base, position);
        assert BitsOf(buf, 8)[..0] + BytesBits(base[position..]) == BytesBits(base[position..]);
        buf := base[position];
        position := position + 1;
        bitsInBuf := 8;
        assert BitsOf(buf, 8)[..8] == BitsOf(buf, 8);
      }
      assert old(Rest()) == Rest();
      TopOfByte(buf);
      ghost var here := BitsOf(buf, 8);
      bit := buf >= 128;
      buf := 2 * buf % 256;
      bitsInBuf := bitsInBuf - 1;
      assert here[..bitsInBuf + 1] == [bit] + BitsOf(buf, 8)[..7][..bitsInBuf];
      assert BitsOf(buf, 8)[..7][..bitsInBuf] == BitsOf(buf, 8)[..bitsInBuf];
    }

    /** BSread: `nbits` bits into one byte. */
    method Read(nbits: nat) returns (data: Byte)
      requires Valid() && nbits <= 8 && nbits <= |Rest()|
      modifies this
      ensures Valid() && Rest() == old(Rest())[nbits..] && data == ValueOf(old(Rest())[..nbits])
    {
      hide BStream.Rest, Pow2;
      ghost var rest := Rest();
      data := 0;
      for n := 0 to nbits
        invariant Valid() && Rest() == rest[n..] && data == ValueOf(rest[..n])
      {
        var bit := ReadBit();
        assert rest[n..] == [bit] + Rest();
        assert rest[..n + 1] == rest[..n] + [bit];
        assert rest[n + 1..] == rest[n..][1..];
        ValueBound(rest[..n + 1]);
        assert (rest[..n + 1])[..n] == rest[..n];
        SmallPowers(n + 1);
        data := 2 * data + if bit then 1 else 0;
      }
    }

    /** BFreadWord into a word that the caller has set to zero. */
    method ReadWord(nbits: nat) returns (ok: bool, data: nat)
      requires Valid() && (nbits <= 32 ==> nbits <= |Rest()|)
      modifies this
      ensures Valid() && (ok <==> nbits <= 32)
      ensures ok ==> Rest() == old(Rest())[nbits..] && data == ValueOf(old(Rest())[..nbits])
    {
      hide BStream.Rest, Pow2, ValueOf;
      if nbits > 32 { return false, 0; }
      ghost var rest := Rest();
      var bytes, part := nbits / 8, nbits % 8;
      data := 0;
      EmptyValue();
      if part > 0 { data := Read(part); }
      ghost var n := part;
      assert rest[0..] == rest;
      for i := bytes downto 0
        invariant Valid() && n == nbits - 8 * i
        invariant Rest() == rest[n..] && data == ValueOf(rest[..n])
      {
        var byte := Read(8);
        AppendByte(rest[..n], rest[n..][..8]);
        assert rest[..n + 8] == rest[..n] + rest[n..][..8];
        assert rest[n..][8..] == rest[n + 8..];
        data := 256 * data + byte;
        n := n + 8;
      }
      return true, data;
    }
  }

  lemma EmptyValue()
    ensures ValueOf([]) == 0
  {
  }

  lemma {:induction false} AppendBits(a: Bits, b: Bits)
    ensures ValueOf(a + b) == ValueOf(a) * Pow2(|b|) + ValueOf(b)
  {
    if b == [] {
      assert a + b == a;
    } else {
      var c := b[..|b| - 1];
      AppendBits(a, c);
      assert (a + b)[..|a + b| - 1] == a + c;
      assert ValueOf(a) * Pow2(|b|) == 2 * (ValueOf(a) * Pow2(|c|));
    }
  }

  lemma AppendByte(a: Bits, b: Bits)
    requires |b| == 8
    ensures ValueOf(a + b) == 256 * ValueOf(a) + ValueOf(b)
  {
    hide Pow2, ValueOf;
    Powers();
    AppendBits(a, b);
  }

  /** Reading back a word: the bits written for `x` have the value of its low bits. */
  lemma WordRoundTrip(x: nat, n: nat, tail: Bits)
    ensures ValueOf((BitsOf(x, n) + tail)[..n]) == x % Pow2(n)
  {
    BitsModulo(x, n, n);
    ValueOfBits(x % Pow2(n), n);
    assert (BitsOf(x, n) + tail)[..n] == BitsOf(x, n);
  }
}
