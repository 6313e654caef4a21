/**
 Block and sub-block addressing by shifts and masks. Addresses are unsigned 64-bit words, and all
 arithmetic on them wraps around.
 */
module SubBlocks {
  import opened Arithmetic
  import opened Bits

  const WORD: nat := 0x1_0000_0000_0000_0000

  type word = x: nat | x < WORD

  // ---- the two log2 loops ----

  ghost predicate IsLog(n: nat, r: nat) {
    Pow2(r) <= n < Pow2(r + 1)
  }

  lemma {:induction false} LogUnique(n: nat, r: nat, s: nat)
    requires IsLog(n, r) && IsLog(n, s)
    ensures r == s
  {
    if r < s {
      if r + 1 < s {
        Pow2Monotone(r + 1, s);
      }
    } else if s < r {
      if s + 1 < r {
        Pow2Monotone(s + 1, r);
      }
    }
  }

  /** log2(n): the exponent of a power of two, and in general the floor of the logarithm. */
  method Log2(n: nat) returns (ret: nat)
    requires n > 0
    ensures IsLog(n, ret)
    ensures forall k: nat :: n == Pow2(k) ==> ret == k
  {
    var m := n;
    ret := 0;
    while m != 1
      invariant m > 0 && m == ShiftRight(n, ret)
      decreases m
    {
      ShiftMore(n, ret);
      m := m / 2;
      ret := ret + 1;
    }
    ShiftIsDiv(n, ret);
    QuotientOne(n, Pow2(ret));
    forall k: nat | n == Pow2(k)
      ensures ret == k
    {
      LogUnique(n, ret, k);
    }
  }

  lemma {:induction false} QuotientOne(n: nat, p: nat)
    requires p > 0 && n / p == 1
    ensures p <= n < 2 * p
  {
    assert n == p * (n / p) + n % p;
  }

  lemma {:induction false} ShiftMore(x: nat, k: nat)
    ensures ShiftRight(x, k + 1) == ShiftRight(x, k) / 2
  {
    if k > 0 {
      ShiftMore(x / 2, k - 1);
    }
  }

  /** The number of bits set. */
  ghost function Ones(n: nat): nat {
    if n == 0 then 0 else Ones(n / 2) + n % 2
  }

  lemma {:induction false} NoBit(n: nat)
    ensures Ones(n) == 0 <==> n == 0
  {
    if n > 0 {
      NoBit(n / 2);
    }
  }

  lemma {:induction false} OneBitIsPower(n: nat) returns (k: nat)
    requires Ones(n) == 1
    ensures n == Pow2(k)
  {
    if n % 2 == 0 {
      var j := OneBitIsPower(n / 2);
      k := j + 1;
    } else {
      NoBit(n / 2);
      k := 0;
    }
  }

  lemma {:induction false} PowerHasOneBit(k: nat)
    ensures Ones(Pow2(k)) == 1
  {
    if k > 0 {
      PowerHasOneBit(k - 1);
      assert Pow2(k) / 2 == Pow2(k - 1);
    }
  }

  /** log2(n, isPower): as many steps as the type has bits, counting the bits above the lowest and the ones. */
  method Log2Checked(n: nat, bits: nat) returns (ret: nat, isPower: bool)
    requires n < Pow2(bits)
    ensures n > 0 ==> IsLog(n, ret)
    ensures n == 0 ==> ret == 0
    ensures isPower <==> exists k: nat :: n == Pow2(k)
  {
    var pos: nat, ones: nat, m: nat := bits, 0, n;
    ret := 0;
    while pos > 0
      invariant m < Pow2(pos)
      invariant ones + Ones(m) == Ones(n)
      invariant m > 0 ==> m == ShiftRight(n, ret)
      invariant m == 0 && n > 0 ==> ShiftRight(n, ret) == 1
      invariant n == 0 ==> ret == 0
    {
      ShiftMore(n, ret);
      if m > 1 {
        ret := ret + 1;
      }
      if m % 2 == 1 {
        ones := ones + 1;
      }
      m := m / 2;
      pos := pos - 1;
    }
    isPower := ones == 1;
    ShiftIsDiv(n, ret);
    if n > 0 {
      QuotientOne(n, Pow2(ret));
    }
    if isPower {
      var k := OneBitIsPower(n);
    }
    forall k: nat | n == Pow2(k)
      ensures isPower
    {
      PowerHasOneBit(k);
    }
  }

  // ---- addressing ----

  /** What Init computes from the two sizes, which the loops of log2 require to be powers of two. */
  datatype Geometry = Geometry(blockSize: nat, subBlockSize: nat, blockShift: nat, subBlockShift: nat, subBlocks: nat,
    subBlockMask: nat)

  ghost predicate Initialised(g: Geometry) {
    && g.blockSize == Pow2(g.blockShift) && g.subBlockSize == Pow2(g.subBlockShift)
    && g.subBlockShift <= g.blockShift
    && g.subBlocks == g.blockSize / g.subBlockSize && g.subBlockMask == g.subBlocks - 1
  }

  method Init(blockSize: nat, subBlockSize: nat) returns (g: Geometry)
    requires exists b: nat :: blockSize == Pow2(b)
    requires exists s: nat :: subBlockSize == Pow2(s)
    requires subBlockSize <= blockSize
    ensures Initialised(g) && g.blockSize == blockSize && g.subBlockSize == subBlockSize
  {
    var subBlocks := blockSize / subBlockSize;
    var blockShift := Log2(blockSize);
    var subBlockShift := Log2(subBlockSize);
    if subBlockShift > blockShift {
      Pow2Monotone(blockShift, subBlockShift);
    }
    SubBlockCount(blockShift, subBlockShift);
    g := Geometry(blockSize, subBlockSize, blockShift, subBlockShift, subBlocks, subBlocks - 1);
  }

  /** A block holds a whole number of sub-blocks, which is a power of two. */
  lemma {:induction false} SubBlockCount(b: nat, s: nat)
    requires s <= b
    ensures Pow2(b) == Pow2(s) * Pow2(b - s) && Pow2(b) / Pow2(s) == Pow2(b - s)
  {
    Pow2Add(s, b - s);
    DivMod(Pow2(b - s), Pow2(s), 0);
  }

  /** addr - start, on words. */
  function Offset(start: word, addr: word): word {
    (addr - start) % WORD
  }

  function GetSubBlockIndex(g: Geometry, start: word, addr: word): nat {
    And(ShiftRight(Offset(start, addr), g.subBlockShift), g.subBlockMask)
  }

  function GetBlockAddr(g: Geometry, start: word, addr: word): word
    requires g.blockSize > 0
  {
    (start + Offset(start, addr) / g.blockSize * g.blockSize) % WORD
  }

  function GetSubBlockAddr(g: Geometry, start: word, addr: word): word
    requires g.subBlockSize > 0
  {
    (start + Offset(start, addr) / g.subBlockSize * g.subBlockSize) % WORD
  }

  lemma {:induction false} OffsetIs(start: word, addr: word)
    ensures Offset(start, addr) == if start <= addr then addr - start else addr - start + WORD
  {
  }

  /** The shift and the mask select the sub-block within its block. */
  lemma {:induction false} IndexByDivision(g: Geometry, start: word, addr: word)
    requires Initialised(g)
    ensures g.subBlocks > 0 && g.subBlockSize > 0
    ensures GetSubBlockIndex(g, start, addr) == (Offset(start, addr) / g.subBlockSize) % g.subBlocks
    ensures Offset(start, addr) == if start <= addr then addr - start else addr - start + WORD
  {
    OffsetIs(start, addr);
    hide Offset;
    SubBlockCount(g.blockShift, g.subBlockShift);
    ShiftIsDiv(Offset(start, addr), g.subBlockShift);
    MaskIsMod(ShiftRight(Offset(start, addr), g.subBlockShift), g.blockShift - g.subBlockShift);
  }

  /** The sub-block lies at its index within the block, wherever the addresses wrap around. */
  lemma {:induction false} SubBlockWithinBlock(g: Geometry, start: word, addr: word)
    requires Initialised(g)
    ensures g.blockSize > 0 && g.subBlockSize > 0
    ensures GetSubBlockAddr(g, start, addr)
      == (GetBlockAddr(g, start, addr) + GetSubBlockIndex(g, start, addr) * g.subBlockSize) % WORD
  {
    hide Offset, GetSubBlockIndex;
    SubBlockCount(g.blockShift, g.subBlockShift);
    IndexByDivision(g, start, addr);
    var off, index := Offset(start, addr), GetSubBlockIndex(g, start, addr);
    WholeAndPart(off, g.subBlockSize, g.subBlocks, g.blockSize, index);
    WrapSum(start, off / g.blockSize * g.blockSize, index * g.subBlockSize, off / g.subBlockSize * g.subBlockSize);
  }

  /** The multiple of `s` below `x` is the multiple of `b` below it plus the rest. */
  lemma {:induction false} WholeAndPart(x: nat, s: nat, n: nat, b: nat, index: nat)
    requires s > 0 && n > 0 && b == s * n && b > 0 && index == (x / s) % n
    ensures x / s * s == x / b * b + index * s
    ensures x / s * s >= 0 && x / b * b >= 0 && index * s >= 0
  {
    var q, p := x / s, x / s / n;
    DivDiv(x, s, n);
    Division(q, n);
    Regroup(p, s, n, index, 0);
  }

  lemma {:induction false} WrapSum(a: nat, b: nat, c: nat, x: nat)
    requires x == b + c
    ensures (a + x) % WORD == ((a + b) % WORD + c) % WORD
  {
    var q, r := (a + b) / WORD, (a + b) % WORD;
    assert a + x == q * WORD + (r + c);
    var p, t := (r + c) / WORD, (r + c) % WORD;
    DivMod(q + p, WORD, t);
  }
}
