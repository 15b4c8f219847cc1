/** The CRC-32 of IEEE 802.3, section 3.2.9, in its reflected form. */
module Crc32 {

  const POLY: bv32 := 0xEDB8_8320
  const ONES: bv32 := 0xFFFF_FFFF

  // Bit-vector operations go by name, so that the structural proofs below treat them as mere algebra.

  function Xor(x: bv32, y: bv32): bv32 {
    x ^ y
  }

  function Wide(b: bv8): bv32 {
    b as bv32
  }

  function Shr8(x: bv32): bv32 {
    x >> 8
  }

  function Not(x: bv32): bv32 {
    !x
  }

  predicate Low(x: bv32) {
    x & 1 == 1
  }

  function Half(x: bv32): bv32 {
    x >> 1
  }

  /** One bit of polynomial division. */
  function Bit(crc: bv32): bv32 {
    if Low(crc) then Xor(Half(crc), POLY) else Half(crc)
  }

  function Bits(crc: bv32, n: nat): bv32 {
    if n == 0 then crc else Bit(Bits(crc, n - 1))
  }

  function Step(crc: bv32, b: bv8): bv32 {
    Bits(Xor(crc, Wide(b)), 8)
  }

  /** The register after feeding `data` into `crc`. */
  function Feed(crc: bv32, data: seq<bv8>): bv32 {
    if data == [] then crc
    else Step(Feed(crc, data[..|data| - 1]), data[|data| - 1])
  }

  function Crc(data: seq<bv8>): bv32 {
    Not(Feed(ONES, data))
  }

  method Crc32Ieee(data: seq<bv8>) returns (r: bv32)
    ensures r == Crc(data)
  {
    hide Bit, Xor, Wide, Not;
    var crc: bv32 := ONES;
    var i := 0;
    while i < |data|
      invariant 0 <= i <= |data| && crc == Feed(ONES, data[..i])
    {
      assert data[..i + 1][..i] == data[..i];
      crc := Xor(crc, Wide(data[i]));
      ghost var start := crc;
      var n := 0;
      while n < 8
        invariant 0 <= n <= 8 && crc == Bits(start, n)
      {
        crc := BitByMask(crc);
        n := n + 1;
      }
      i := i + 1;
    }
    assert data[..i] == data;
    return Not(crc);
  }

  /** The branch-free form: the negated low bit selects the polynomial. */
  method BitByMask(crc: bv32) returns (r: bv32)
    ensures r == Bit(crc)
  {
    var mask: bv32 := 0 - (crc & 1);
    r := (crc >> 1) ^ (POLY & mask);
  }

  // ---------- facts about single bits ----------

  lemma LowXor(x: bv32, y: bv32)
    ensures Low(Xor(x, y)) <==> Low(x) != Low(y)
  {
  }

  lemma HalfXor(x: bv32, y: bv32)
    ensures Half(Xor(x, y)) == Xor(Half(x), Half(y))
  {
  }

  lemma XorAssoc(x: bv32, y: bv32, z: bv32)
    ensures Xor(Xor(x, y), z) == Xor(x, Xor(y, z))
  {
  }

  lemma XorComm(x: bv32, y: bv32)
    ensures Xor(x, y) == Xor(y, x)
  {
  }

  lemma XorSelf(x: bv32, y: bv32)
    ensures Xor(x, Xor(x, y)) == y
  {
  }

  lemma XorSwap(x: bv32, y: bv32, p: bv32)
    ensures Xor(Xor(x, p), y) == Xor(Xor(x, y), p)
  {
    hide Xor;
    XorAssoc(x, p, y);
    XorComm(p, y);
    XorAssoc(x, y, p);
  }

  lemma XorPair(x: bv32, y: bv32, p: bv32)
    ensures Xor(Xor(x, p), Xor(y, p)) == Xor(x, y)
  {
    hide Xor;
    XorAssoc(x, p, Xor(y, p));
    XorComm(y, p);
    XorSelf(p, y);
  }

  lemma BitLinear(x: bv32, y: bv32)
    ensures Bit(Xor(x, y)) == Xor(Bit(x), Bit(y))
  {
    hide Xor, Half, Low;
    LowXor(x, y);
    HalfXor(x, y);
    XorPair(Half(x), Half(y), POLY);
    XorSwap(Half(x), Half(y), POLY);
    XorAssoc(Half(x), Half(y), POLY);
  }

  lemma BitInjective(x: bv32, y: bv32)
    requires Bit(x) == Bit(y)
    ensures x == y
  {
  }

  lemma XorCancel(x: bv32, y: bv32, z: bv32)
    requires Xor(x, z) == Xor(y, z)
    ensures x == y
  {
  }

  lemma XorCancelLeft(x: bv32, y: bv32, z: bv32)
    requires Xor(z, x) == Xor(z, y)
    ensures x == y
  {
  }

  lemma XorNot(x: bv32)
    ensures Xor(x, Not(x)) == ONES
  {
  }

  lemma NotInjective(x: bv32, y: bv32)
    requires Not(x) == Not(y)
    ensures x == y
  {
  }

  // ---------- runs of bits ----------

  lemma {:induction false} BitsLinear(x: bv32, y: bv32, n: nat)
    ensures Bits(Xor(x, y), n) == Xor(Bits(x, n), Bits(y, n))
  {
    hide Bit, Xor;
    if n > 0 {
      BitsLinear(x, y, n - 1);
      BitLinear(Bits(x, n - 1), Bits(y, n - 1));
    }
  }

  lemma {:induction false} BitsInjective(x: bv32, y: bv32, n: nat)
    requires Bits(x, n) == Bits(y, n)
    ensures x == y
  {
    hide Bit;
    if n > 0 {
      BitInjective(Bits(x, n - 1), Bits(y, n - 1));
      BitsInjective(x, y, n - 1);
    }
  }

  lemma {:induction false} BitsAdd(x: bv32, a: nat, b: nat)
    ensures Bits(x, a + b) == Bits(Bits(x, a), b)
  {
    hide Bit;
    if b > 0 {
      BitsAdd(x, a, b - 1);
    }
  }

  lemma FourBits(x: bv32)
    ensures Bits(x, 4) == Bit(Bit(Bit(Bit(x))))
  {
    hide Bit;
    assert Bits(x, 2) == Bit(Bits(x, 1)) == Bit(Bit(Bits(x, 0)));
    assert Bits(x, 4) == Bit(Bits(x, 3)) == Bit(Bit(Bits(x, 2)));
  }

  lemma Shifted(x: bv32)
    requires x & 0xFF == 0
    ensures var y := x >> 4; x & 0xF == 0 && y & 0xF == 0 && y >> 4 == Shr8(x)
  {
  }

  lemma FourShifted(x: bv32)
    requires x & 0xF == 0
    ensures Bit(Bit(Bit(Bit(x)))) == x >> 4
  {
  }

  /** Eight zero low bits just shift out. */
  lemma EightShifted(x: bv32)
    requires x & 0xFF == 0
    ensures Bits(x, 8) == Shr8(x)
  {
    hide Bit, Shr8;
    Shifted(x);
    FourShifted(x);
    FourShifted(x >> 4);
    EightByFours(x, x >> 4, Shr8(x));
  }

  lemma EightByFours(x: bv32, y: bv32, z: bv32)
    requires Bit(Bit(Bit(Bit(x)))) == y && Bit(Bit(Bit(Bit(y)))) == z
    ensures Bits(x, 8) == z
  {
    hide Bit;
    FourBits(x);
    FourBits(y);
    BitsAdd(x, 4, 4);
  }

  // ---------- four bytes at a time ----------

  function LowByte(x: bv32): bv8 {
    (x & 0xFF) as bv8
  }

  /** The little-endian bytes of a register. */
  function Bytes4(x: bv32): (w: seq<bv8>)
    ensures |w| == 4
  {
    [LowByte(x), LowByte(Shr8(x)), LowByte(Shr8(Shr8(x))), LowByte(Shr8(Shr8(Shr8(x))))]
  }

  /** A byte waiting above the bits of `rest`. */
  function Above(b: bv8, rest: bv32): bv32 {
    Xor(Wide(b), rest << 8)
  }

  function Word(w: seq<bv8>): bv32
    requires |w| == 4
  {
    Above(w[0], Above(w[1], Above(w[2], Wide(w[3]))))
  }

  lemma AboveParts(b: bv8, rest: bv32)
    requires rest < 0x100_0000
    ensures (rest << 8) & 0xFF == 0 && Shr8(rest << 8) == rest
  {
  }

  lemma AboveBound(b: bv8, rest: bv32)
    ensures rest < 0x100 ==> Above(b, rest) < 0x1_0000
    ensures rest < 0x1_0000 ==> Above(b, rest) < 0x100_0000
  {
  }

  lemma WideBound(b: bv8)
    ensures Wide(b) < 0x100
  {
  }

  lemma AboveInjective(b: bv8, rest: bv32, b': bv8, rest': bv32)
    requires rest < 0x100_0000 && rest' < 0x100_0000 && Above(b, rest) == Above(b', rest')
    ensures b == b' && rest == rest'
  {
  }

  lemma WideInjective(b: bv8, b': bv8)
    requires Wide(b) == Wide(b')
    ensures b == b'
  {
  }

  lemma SmallBounds(x: bv32)
    ensures x < 0x100 ==> x < 0x1_0000
    ensures x < 0x1_0000 ==> x < 0x100_0000
  {
  }

  lemma WordInjective(w: seq<bv8>, w': seq<bv8>)
    requires |w| == |w'| == 4 && Word(w) == Word(w')
    ensures w == w'
  {
    hide Above, Wide;
    var z, z' := Wide(w[3]), Wide(w'[3]);
    var y, y' := Above(w[2], z), Above(w'[2], z');
    var x, x' := Above(w[1], y), Above(w'[1], y');
    WordBounds(w);
    WordBounds(w');
    AboveInjective(w[0], x, w'[0], x');
    AboveInjective(w[1], y, w'[1], y');
    AboveInjective(w[2], z, w'[2], z');
    WideInjective(w[3], w'[3]);
  }

  lemma WordBounds(w: seq<bv8>)
    requires |w| == 4
    ensures var z := Wide(w[3]);
            var y := Above(w[2], z);
            var x := Above(w[1], y);
            x < 0x100_0000 && y < 0x100_0000 && z < 0x100_0000
  {
    hide Above, Wide;
    var z := Wide(w[3]);
    var y := Above(w[2], z);
    WideBound(w[3]);
    SmallBounds(z);
    AboveBound(w[2], z);
    SmallBounds(y);
    AboveBound(w[1], y);
  }

  lemma LowAbove(x: bv32)
    ensures Above(LowByte(x), Shr8(x)) == x
  {
  }

  lemma TopByte(x: bv32)
    ensures var t := Shr8(Shr8(Shr8(x))); Wide(LowByte(t)) == t
  {
  }

  lemma WordOfBytes(x: bv32)
    ensures Word(Bytes4(x)) == x
  {
    hide LowByte, Shr8, Above, Wide;
    TopByte(x);
    LowAbove(Shr8(Shr8(x)));
    LowAbove(Shr8(x));
    LowAbove(x);
  }

  /** Feeding a byte now lets the bits waiting above it slide down unchanged. */
  lemma StepAbove(crc: bv32, b: bv8, rest: bv32)
    requires rest < 0x100_0000
    ensures Bits(Xor(crc, Above(b, rest)), 8) == Xor(Step(crc, b), rest)
  {
    hide Bits, Xor, Wide, Shr8;
    AboveParts(b, rest);
    var high := rest << 8;
    XorAssoc(crc, Wide(b), high);
    BitsLinear(Xor(crc, Wide(b)), high, 8);
    EightShifted(high);
  }

  /** Four bytes fed one by one act like their little-endian word combined in at once. */
  lemma FeedWord(crc: bv32, w: seq<bv8>)
    requires |w| == 4
    ensures Feed(crc, w) == Bits(Xor(crc, Word(w)), 32)
  {
    hide Bits, Xor, Wide, Above, Feed;
    var z := Wide(w[3]);
    var y := Above(w[2], z);
    var x := Above(w[1], y);
    WordBounds(w);
    FeedFour(crc, w);
    var c1 := Step(crc, w[0]);
    var c2 := Step(c1, w[1]);
    var c3 := Step(c2, w[2]);
    var s := Xor(crc, Word(w));
    StepAbove(crc, w[0], x);
    StepAbove(c1, w[1], y);
    StepAbove(c2, w[2], z);
    BitsAdd(s, 8, 24);
    BitsAdd(Xor(c1, x), 8, 16);
    BitsAdd(Xor(c2, y), 8, 8);
  }

  lemma FeedFour(crc: bv32, w: seq<bv8>)
    requires |w| == 4
    ensures Feed(crc, w) == Step(Step(Step(Step(crc, w[0]), w[1]), w[2]), w[3])
  {
    hide Step;
    assert w[..3][..2] == w[..2] && w[..2][..1] == w[..1] && w[..1][..0] == [];
    assert Feed(crc, w[..1]) == Step(Feed(crc, w[..1][..0]), w[0]);
    assert Feed(crc, w[..2]) == Step(Feed(crc, w[..2][..1]), w[1]);
    assert Feed(crc, w[..3]) == Step(Feed(crc, w[..3][..2]), w[2]);
  }

  // ---------- what the checksum promises ----------

  lemma {:induction false} FeedAppend(crc: bv32, a: seq<bv8>, b: seq<bv8>)
    ensures Feed(crc, a + b) == Feed(Feed(crc, a), b)
  {
    hide Step;
    if b == [] {
      assert a + b == a;
    } else {
      var n := |b| - 1;
      assert (a + b)[..|a + b| - 1] == a + b[..n];
      FeedAppend(crc, a, b[..n]);
    }
  }

  lemma {:induction false} FeedInjective(crc: bv32, crc': bv32, data: seq<bv8>)
    requires Feed(crc, data) == Feed(crc', data)
    ensures crc == crc'
  {
    hide Bits, Xor, Wide;
    if data != [] {
      var n := |data| - 1;
      var b := Wide(data[n]);
      var c, c' := Feed(crc, data[..n]), Feed(crc', data[..n]);
      BitsInjective(Xor(c, b), Xor(c', b), 8);
      XorCancel(c, c', b);
      FeedInjective(crc, crc', data[..n]);
    }
  }

  /** Different bursts of up to four bytes leave different registers. */
  lemma BurstInjective(crc: bv32, w: seq<bv8>, w': seq<bv8>)
    requires |w| == |w'| <= 4 && Feed(crc, w) == Feed(crc, w')
    ensures w == w'
  {
    hide Bits, Xor, Feed, Word;
    var pad: seq<bv8> := seq(4 - |w|, _ => 0);
    FeedAppend(crc, w, pad);
    FeedAppend(crc, w', pad);
    FeedWord(crc, w + pad);
    FeedWord(crc, w' + pad);
    BitsInjective(Xor(crc, Word(w + pad)), Xor(crc, Word(w' + pad)), 32);
    XorCancelLeft(Word(w + pad), Word(w' + pad), crc);
    WordInjective(w + pad, w' + pad);
    assert w == (w + pad)[..|w|] && w' == (w' + pad)[..|w|];
  }

  /**
   * Burst detection: two messages of equal length that differ, but only within four consecutive
   * bytes, never share a CRC.
   */
  lemma BurstDetected(m: seq<bv8>, m': seq<bv8>, k: nat)
    requires |m| == |m'| && m != m' && k <= |m|
    requires forall i :: 0 <= i < |m| && !(k <= i < k + 4) ==> m[i] == m'[i]
    ensures Crc(m) != Crc(m')
  {
    hide Feed, Not;
    if Crc(m) == Crc(m') {
      var e := if k + 4 <= |m| then k + 4 else |m|;
      var pre, w, w', post := m[..k], m[k..e], m'[k..e], m[e..];
      assert m == (pre + w) + post && m' == (pre + w') + post;
      NotInjective(Feed(ONES, m), Feed(ONES, m'));
      FeedAppend(ONES, pre + w, post);
      FeedAppend(ONES, pre + w', post);
      FeedAppend(ONES, pre, w);
      FeedAppend(ONES, pre, w');
      FeedInjective(Feed(ONES, pre + w), Feed(ONES, pre + w'), post);
      BurstInjective(Feed(ONES, pre), w, w');
      assert false;
    }
  }

  /** A message followed by its own little-endian CRC always checks to the same constant. */
  lemma Residue(m: seq<bv8>)
    ensures Crc(m + Bytes4(Crc(m))) == 0x2144_DF1C
  {
    hide Feed, Bits, Xor, Word, Bytes4, Not;
    var s := Feed(ONES, m);
    FeedAppend(ONES, m, Bytes4(Not(s)));
    FeedWord(s, Bytes4(Not(s)));
    WordOfBytes(Not(s));
    XorNot(s);
    ResidueConstant();
    NotConstant();
  }

  lemma NotConstant()
    ensures Not(0xDEBB_20E3) == 0x2144_DF1C
  {
  }

  lemma ResidueConstant()
    ensures Bits(ONES, 32) == 0xDEBB_20E3
  {
    hide Bits;
    FourSteps(0xFFFF_FFFF, 0x9247_7CDF, 0xA49B_3D4F, 0xBFF5_1D87, 0xB242_0DE3);
    FourSteps(0xB242_0DE3, 0xB499_85D1, 0xB7F4_41C8, 0x5BFA_20E4, 0x2DFD_1072);
    FourSteps(0x2DFD_1072, 0x16FE_8839, 0xE6C7_C73C, 0x7363_E39E, 0x39B1_F1CF);
    FourSteps(0x39B1_F1CF, 0xF160_7BC7, 0x9508_BEC3, 0xA73C_DC41, 0xBE26_ED00);
    FourSteps(0xBE26_ED00, 0x5F13_7680, 0x2F89_BB40, 0x17C4_DDA0, 0x0BE2_6ED0);
    FourSteps(0x0BE2_6ED0, 0x05F1_3768, 0x02F8_9BB4, 0x017C_4DDA, 0x00BE_26ED);
    FourSteps(0x00BE_26ED, 0xEDE7_9056, 0x76F3_C82B, 0xD6C1_6735, 0x86D8_30BA);
    FourSteps(0x86D8_30BA, 0x436C_185D, 0xCC0E_8F0E, 0x6607_4787, 0xDEBB_20E3);
    BitsAdd(ONES, 4, 4);
    BitsAdd(ONES, 8, 4);
    BitsAdd(ONES, 12, 4);
    BitsAdd(ONES, 16, 4);
    BitsAdd(ONES, 20, 4);
    BitsAdd(ONES, 24, 4);
    BitsAdd(ONES, 28, 4);
  }

  lemma FourSteps(a: bv32, b: bv32, c: bv32, d: bv32, e: bv32)
    requires Bit(a) == b && Bit(b) == c && Bit(c) == d && Bit(d) == e
    ensures Bits(a, 4) == e
  {
    hide Bit;
    FourBits(a);
  }

  lemma ByteStep(crc: bv32, b: bv8, x0: bv32, x1: bv32, x2: bv32, x3: bv32, x4: bv32, x5: bv32, x6: bv32, x7: bv32,
                 x8: bv32)
    requires Xor(crc, Wide(b)) == x0
    requires Bit(x0) == x1 && Bit(x1) == x2 && Bit(x2) == x3 && Bit(x3) == x4
    requires Bit(x4) == x5 && Bit(x5) == x6 && Bit(x6) == x7 && Bit(x7) == x8
    ensures Step(crc, b) == x8
  {
    hide Bit, Xor, Wide;
    FourSteps(x0, x1, x2, x3, x4);
    FourSteps(x4, x5, x6, x7, x8);
    BitsAdd(x0, 4, 4);
  }

  lemma {:induction false} FeedSnoc(crc: bv32, data: seq<bv8>, b: bv8)
    ensures Feed(crc, data + [b]) == Step(Feed(crc, data), b)
  {
    hide Step;
    assert (data + [b])[..|data|] == data;
  }

  lemma NothingFed(crc: bv32)
    ensures Feed(crc, []) == crc
  {
  }

  lemma {:induction false} FeedThree(crc: bv32, data: seq<bv8>, a: bv8, b: bv8, c: bv8)
    ensures Feed(crc, data + [a, b, c]) == Step(Step(Step(Feed(crc, data), a), b), c)
  {
    hide Step;
    FeedSnoc(crc, data, a);
    FeedSnoc(crc, data + [a], b);
    FeedSnoc(crc, data + [a] + [b], c);
    assert data + [a] + [b] + [c] == data + [a, b, c];
  }

  lemma Digits1To3()
    ensures Step(Step(Step(0xFFFF_FFFF, 0x31), 0x32), 0x33) == 0x77B7_9C2D
  {
    hide Step;
    ByteStep(0xFFFF_FFFF, 0x31, 0xFFFF_FFCE, 0x7FFF_FFE7, 0xD247_7CD3, 0x849B_3D49, 0xAFF5_1D84,
             0x57FA_8EC2, 0x2BFD_4761, 0xF846_2090, 0x7C23_1048);
    ByteStep(0x7C23_1048, 0x32, 0x7C23_107A, 0x3E11_883D, 0xF2B0_473E, 0x7958_239F, 0xD114_92EF,
             0x8532_CA57, 0xAF21_E60B, 0xBA28_7025, 0xB0AC_BB32);
    ByteStep(0xB0AC_BB32, 0x33, 0xB0AC_BB01, 0xB5EE_DEA0, 0x5AF7_6F50, 0x2D7B_B7A8, 0x16BD_DBD4,
             0x0B5E_EDEA, 0x05AF_76F5, 0xEF6F_385A, 0x77B7_9C2D);
  }

  lemma Digits4To6()
    ensures Step(Step(Step(0x77B7_9C2D, 0x34), 0x35), 0x36) == 0xF68D_2C9E
  {
    hide Step;
    ByteStep(0x77B7_9C2D, 0x34, 0x77B7_9C19, 0xD663_4D2C, 0x6B31_A696, 0x3598_D34B, 0xF774_EA85,
             0x9602_F662, 0x4B01_7B31, 0xC838_3EB8, 0x641C_1F5C);
    ByteStep(0x641C_1F5C, 0x35, 0x641C_1F69, 0xDFB6_8C94, 0x6FDB_464A, 0x37ED_A325, 0xF64E_52B2,
             0x7B27_2959, 0xD02B_178C, 0x6815_8BC6, 0x340A_C5E3);
    ByteStep(0x340A_C5E3, 0x36, 0x340A_C5D5, 0xF7BD_E1CA, 0x7BDE_F0E5, 0xD057_FB52, 0x682B_FDA9,
             0xD9AD_7DF4, 0x6CD6_BEFA, 0x366B_5F7D, 0xF68D_2C9E);
  }

  lemma Digits7To9()
    ensures Step(Step(Step(0xF68D_2C9E, 0x37), 0x38), 0x39) == 0x340B_C6D9
  {
    hide Step;
    ByteStep(0xF68D_2C9E, 0x37, 0xF68D_2CA9, 0x96FE_1574, 0x4B7F_0ABA, 0x25BF_855D, 0xFF67_418E,
             0x7FB3_A0C7, 0xD261_5343, 0x8488_2A81, 0xAFFC_9660);
    ByteStep(0xAFFC_9660, 0x38, 0xAFFC_9658, 0x57FE_4B2C, 0x2BFF_2596, 0x15FF_92CB, 0xE747_4A45,
             0x9E1B_2602, 0x4F0D_9301, 0xCA3E_4AA0, 0x651F_2550);
    ByteStep(0x651F_2550, 0x39, 0x651F_2569, 0xDF37_1194, 0x6F9B_88CA, 0x37CD_C465, 0xF65E_6112,
             0x7B2F_3089, 0xD02F_1B64, 0x6817_8DB2, 0x340B_C6D9);
  }

  /** The published check values: of no bytes at all, and of the nine ASCII digits from 1 to 9. */
  lemma {:induction false} CheckValues()
    ensures Crc([]) == 0
    ensures Crc([0x31, 0x32, 0x33, 0x34, 0x35, 0x36, 0x37, 0x38, 0x39]) == 0xCBF4_3926
  {
    hide Feed, Step;
    NothingFed(ONES);
    Digits1To3();
    Digits4To6();
    Digits7To9();
    var a: seq<bv8>, b: seq<bv8>, c: seq<bv8> := [0x31, 0x32, 0x33], [0x34, 0x35, 0x36], [0x37, 0x38, 0x39];
    FeedThree(ONES, [], 0x31, 0x32, 0x33);
    FeedThree(ONES, [] + a, 0x34, 0x35, 0x36);
    FeedThree(ONES, [] + a + b, 0x37, 0x38, 0x39);
    assert [] + a + b + c == [0x31, 0x32, 0x33, 0x34, 0x35, 0x36, 0x37, 0x38, 0x39];
  }
}
