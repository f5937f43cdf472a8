/** Golomb codes (cl/compression.c). */
module Golomb {
  import opened BitIO

  /** `ceil(log2(b))`: the least `n` with `2^n >= b`. */
  function CeilLog2(b: nat): (n: nat)
    requires b >= 1
    ensures Pow2(n) >= b && (n > 0 ==> Pow2(n - 1) < b)
  {
    LeastPower(b, 0)
  }

  function LeastPower(b: nat, k: nat): (n: nat)
    requires k == 0 || Pow2(k - 1) < b
    requires b >= 1
    ensures n >= k && Pow2(n) >= b && (n > 0 ==> Pow2(n - 1) < b)
    decreases b - Pow2(k)
  {
    if Pow2(k) >= b then k else LeastPower(b, k + 1)
  }

  function Ones(n: nat): (s: Bits)
    ensures |s| == n && forall k :: 0 <= k < n ==> s[k]
  {
    if n == 0 then [] else [true] + Ones(n - 1)
  }

  /** The binary part: the remainders below `2^ub - b` take one bit less than the others. */
  function Remainder(res: nat, b: nat): Bits
    requires b >= 2
  {
    var ub := CeilLog2(b);
    var short := Pow2(ub) - b;
    if res < short then BitsOf(res, if ub > 0 then ub - 1 else 0) else BitsOf(res + short, ub)
  }

  function Code(x: nat, b: nat): Bits
    requires b >= 2
  {
    Ones(x / b) + [false] + Remainder(x % b, b)
  }

  /** The format: as many ones as `b` goes into `x`, a zero, and the remainder in truncated binary. */
  lemma CodeShape(x: nat, b: nat)
    requires b >= 2
    ensures var q, r, ub := x / b, x % b, CeilLog2(b);
            var c, short := Code(x, b), Pow2(ub) - b;
            q < |c| && (forall k :: 0 <= k < q ==> c[k]) && !c[q] &&
            |c| == q + 1 + (if r < short then ub - 1 else ub) &&
            ValueOf(c[q + 1..]) == if r < short then r else r + short
  {
    hide Pow2, CeilLog2, BitsOf, ValueOf;
    LogPositive(b);
    var r, ub := x % b, CeilLog2(b);
    var short := Pow2(ub) - b;
    if r < short { ValueOfBits(r, ub - 1); } else { ValueOfBits(r + short, ub); }
    assert Code(x, b)[x / b + 1..] == Remainder(r, b);
  }

  lemma LogPositive(b: nat)
    requires b >= 2
    ensures CeilLog2(b) >= 1 && Pow2(CeilLog2(b)) == 2 * Pow2(CeilLog2(b) - 1)
  {
    assert Pow2(0) == 1;
  }

  lemma {:induction false} OnesEnd(n: nat)
    ensures Ones(n + 1) == Ones(n) + [true]
  {
    if n > 0 { OnesEnd(n - 1); }
  }

  /** write_golomb_code. */
  method WriteGolombCode(x: nat, b: nat, bf: BFile)
    requires bf.Valid() && b >= 2 && Pow2(CeilLog2(b)) <= Pow2(32)
    modifies bf
    ensures bf.Valid() && old(bf.file) <= bf.file && bf.Written() == old(bf.Written()) + Code(x, b)
  {
    hide BFile.Written, Pow2, BitsOf, CeilLog2;
    var q := x / b;
    var res := x - q * b;
    assert res == x % b;
    var ub := CeilLog2(b);
    LogPositive(b);
    var lb := ub - 1;
    ghost var w := bf.Written();
    assert w + Ones(0) == w;
    for i := 0 to q
      invariant bf.Valid() && old(bf.file) <= bf.file && bf.Written() == w + Ones(i)
    {
      OnesEnd(i);
      assert w + Ones(i) + [true] == w + Ones(i + 1);
      bf.WriteBit(true);
    }
    bf.WriteBit(false);
    var nrSc := Pow2(ub) - b;
    LogFits(b);
    var ok;
    if res < nrSc {
      ok := bf.WriteWord(res, lb);
    } else {
      ok := bf.WriteWord(res + nrSc, ub);
    }
    assert w + Ones(q) + [false] + Remainder(res, b) == w + (Ones(q) + [false] + Remainder(res, b));
  }

  lemma LogFits(b: nat)
    requires b >= 2 && Pow2(CeilLog2(b)) <= Pow2(32)
    ensures CeilLog2(b) <= 32
  {
    var n := CeilLog2(b);
    PowMonotone(33, if n >= 33 then n else 33);
    PowStep(32);
  }

  /** What the two ways of writing a remainder look like to the reader. */
  lemma RemainderPrefix(res: nat, b: nat)
    requires b >= 2 && res < b
    ensures var ub := CeilLog2(b);
            var short := Pow2(ub) - b;
            ub >= 1 && |Remainder(res, b)| >= ub - 1 &&
            var r := ValueOf(Remainder(res, b)[..ub - 1]);
            if res < short then r == res && |Remainder(res, b)| == ub - 1
            else |Remainder(res, b)| == ub && r >= short &&
                 2 * r + (if Remainder(res, b)[ub - 1] then 1 else 0) == res + short
  {
    LogPositive(b);
    hide Pow2, CeilLog2, Remainder;
    var ub := CeilLog2(b);
    var short := Pow2(ub) - b;
    if res < short { ShortRemainder(res, b); } else { LongRemainder(res, b); }
  }

  lemma ShortRemainder(res: nat, b: nat)
    requires b >= 2 && res < Pow2(CeilLog2(b)) - b
    ensures var ub := CeilLog2(b); ub >= 1 && |Remainder(res, b)| == ub - 1 && ValueOf(Remainder(res, b)) == res
    ensures Remainder(res, b)[..CeilLog2(b) - 1] == Remainder(res, b)
  {
    hide Pow2, CeilLog2, BitsOf, ValueOf;
    LogPositive(b);
    ValueOfBits(res, CeilLog2(b) - 1);
  }

  lemma LongRemainder(res: nat, b: nat)
    requires b >= 2 && Pow2(CeilLog2(b)) - b <= res < b
    ensures var ub, short := CeilLog2(b), Pow2(CeilLog2(b)) - b;
            ub >= 1 && |Remainder(res, b)| == ub &&
            var r := ValueOf(Remainder(res, b)[..ub - 1]);
            r >= short && 2 * r + (if Remainder(res, b)[ub - 1] then 1 else 0) == res + short
  {
    hide Pow2, CeilLog2, BitsOf, ValueOf;
    LogPositive(b);
    var ub := CeilLog2(b);
    var y := res + Pow2(ub) - b;
    ValueOfBits(y / 2, ub - 1);
    LowBit(y, ub);
    assert Remainder(res, b) == BitsOf(y, ub);
    assert BitsOf(y, ub)[..ub - 1] == BitsOf(y / 2, ub - 1);
  }

  lemma Unary(n: nat, s: Bits)
    ensures (Ones(n) + [false] + s)[0] <==> n > 0
    ensures n > 0 ==> (Ones(n) + [false] + s)[1..] == Ones(n - 1) + [false] + s
    ensures n == 0 ==> (Ones(n) + [false] + s)[1..] == s
  {
  }

  /** The loop that reads the unary part. */
  method ReadUnary(bs: BStream, ghost n: nat, ghost rest: Bits) returns (q: nat)
    requires bs.Valid() && bs.Rest() == Ones(n) + [false] + rest
    modifies bs
    ensures bs.Valid() && q == n && bs.Rest() == rest
  {
    hide BStream.Rest, Ones;
    q := 0;
    Unary(n, rest);
    var bit := bs.ReadBit();
    while bit
      invariant bs.Valid() && q <= n && (bit <==> n - q > 0)
      invariant bs.Rest() == (Ones(n - q) + [false] + rest)[1..]
      decreases n - q
    {
      Unary(n - q, rest);
      q := q + 1;
      Unary(n - q, rest);
      bit := bs.ReadBit();
    }
    Unary(0, rest);
  }

  /** read_golomb_code_bs: what was written for `x` is read as `x`, and no bit more is consumed. */
  method ReadGolombCode(b: nat, bs: BStream, ghost x: nat, ghost tail: Bits) returns (y: nat)
    requires bs.Valid() && b >= 2 && bs.Rest() == Code(x, b) + tail
    modifies bs
    ensures bs.Valid() && y == x && bs.Rest() == tail
  {
    hide BStream.Rest, Pow2, BitsOf, CeilLog2, Remainder, Ones, ValueOf;
    var ub := CeilLog2(b);
    LogPositive(b);
    var lb := ub - 1;
    ghost var binary := Remainder(x % b, b);
    assert Code(x, b) + tail == Ones(x / b) + [false] + (binary + tail);
    var q := ReadUnary(bs, x / b, binary + tail);
    RemainderPrefix(x % b, b);
    var nrSc := Pow2(ub) - b;
    var r := ReadBinary(bs, lb, binary, tail);
    if r >= nrSc {
      assert binary[lb..] + tail == [binary[lb]] + tail;
      var bit := bs.ReadBit();
      SameStart(bit, bs.Rest(), binary[lb], tail);
      r := 2 * r + if bit then 1 else 0;
      r := r - nrSc;
    } else {
      assert binary[lb..] + tail == tail;
    }
    return r + q * b;
  }

  /** The loop that reads the first `lb` bits of the binary part. */
  method ReadBinary(bs: BStream, lb: nat, ghost binary: Bits, ghost tail: Bits) returns (r: nat)
    requires bs.Valid() && lb <= |binary| && bs.Rest() == binary + tail
    modifies bs
    ensures bs.Valid() && bs.Rest() == binary[lb..] + tail && r == ValueOf(binary[..lb])
  {
    hide BStream.Rest;
    r := 0;
    assert binary[0..] == binary;
    for i := 0 to lb
      invariant bs.Valid() && bs.Rest() == binary[i..] + tail && r == ValueOf(binary[..i])
    {
      assert binary[i..] + tail == [binary[i]] + (binary[i + 1..] + tail);
      var bit := bs.ReadBit();
      SameStart(bit, bs.Rest(), binary[i], binary[i + 1..] + tail);
      assert binary[..i + 1][..i] == binary[..i];
      r := 2 * r + if bit then 1 else 0;
    }
  }

  /** Codes are self-delimiting: different numbers never have one code a prefix of the other's. */
  lemma {:induction false} CodesAreDistinct(x: nat, y: nat, b: nat, s: Bits, t: Bits)
    requires b >= 2 && Code(x, b) + s == Code(y, b) + t
    ensures x == y && s == t
  {
    hide Pow2, BitsOf, CeilLog2, Remainder;
    var u, v := Remainder(x % b, b), Remainder(y % b, b);
    assert Code(x, b) + s == Ones(x / b) + [false] + (u + s);
    assert Code(y, b) + t == Ones(y / b) + [false] + (v + t);
    UnaryDistinct(x / b, y / b, u + s, v + t);
    RemaindersDistinct(x % b, y % b, b, s, t);
    assert x == x / b * b + x % b && y == y / b * b + y % b;
  }

  lemma {:induction false} UnaryDistinct(m: nat, n: nat, s: Bits, t: Bits)
    requires Ones(m) + [false] + s == Ones(n) + [false] + t
    ensures m == n && s == t
  {
    hide Ones;
    Unary(m, s);
    Unary(n, t);
    if m > 0 { UnaryDistinct(m - 1, n - 1, s, t); }
  }

  lemma RemaindersDistinct(x: nat, y: nat, b: nat, s: Bits, t: Bits)
    requires b >= 2 && x < b && y < b && Remainder(x, b) + s == Remainder(y, b) + t
    ensures x == y && s == t
  {
    hide Pow2, BitsOf, CeilLog2, Remainder;
    var ub := CeilLog2(b);
    var u, v := Remainder(x, b), Remainder(y, b);
    RemainderPrefix(x, b);
    RemainderPrefix(y, b);
    assert u[..ub - 1] == (u + s)[..ub - 1] == v[..ub - 1];
    assert |u| == |v|;
    assert u == (u + s)[..|u|] == v;
    assert s == (u + s)[|u|..] == t;
  }
}
