/**
 The loading macros. `p` is memory from the pointer on; a load of `n` bytes looks at `p[..n]`.
 Reading a wider integer through a cast pointer on a little-endian machine is `Word`.
 */
module Korr {
  import opened Bits
  import opened ByteOrder

  // ---------------------------------------------------------------- small expansions

  lemma Powers()
    ensures Pow256(1) == 0x100 && Pow256(2) == 0x1_0000 && Pow256(3) == 0x100_0000 && Pow256(4) == 0x1_0000_0000
    ensures Pow2(7) == 128 && Pow2(8) == 0x100 && Pow2(16) == 0x1_0000 && Pow2(24) == 0x100_0000
    ensures Pow2(32) == 0x1_0000_0000
  {
  }

  /** Byte `i` as a number. */
  function At(p: seq<byte>, i: nat): (x: nat)
    requires i < |p|
    ensures x < 256
  {
    p[i]
  }

  lemma LoadUpTo4(b: seq<byte>)
    ensures |b| == 1 ==> LE(b) == b[0]
    ensures |b| == 2 ==> LE(b) == b[0] + 0x100 * At(b, 1)
    ensures |b| == 3 ==> LE(b) == b[0] + 0x100 * At(b, 1) + 0x1_0000 * At(b, 2)
    ensures |b| == 4 ==> LE(b) == b[0] + 0x100 * At(b, 1) + 0x1_0000 * At(b, 2) + 0x100_0000 * At(b, 3)
    decreases |b|
  {
  }

  lemma {:induction false} Pow256Monotone(m: nat, n: nat)
    requires m <= n
    ensures Pow256(m) <= Pow256(n)
    decreases n
  {
    if m < n {
      Pow256Monotone(m, n - 1);
    }
  }

  lemma PartFits(w: nat, lo: seq<byte>, hi: seq<byte>)
    requires |lo| + |hi| <= w
    ensures LE(lo + hi) == LE(lo) + LE(hi) * Pow256(|lo|)
    ensures LE(hi) * Pow256(|lo|) < Pow256(w)
  {
    LoadOfConcat(lo, hi);
    Commute(Pow256(|lo|), LE(hi));
    LoadBound(lo + hi);
    Pow256Monotone(|lo + hi|, w);
  }

  /** A part shifted up by whole bytes stays inside the word. */
  lemma ShiftPart(w: nat, x: nat, z: nat)
    requires x * Pow256(z) < Pow256(w)
    ensures Shl(8 * w, x, 8 * z) == x * Pow256(z)
  {
    ShlBytes(w, x, z);
    SmallMod(x * Pow256(z), Pow256(w));
  }

  lemma OrAboveBytes(lo: seq<byte>, h: nat)
    ensures Or(LE(lo), h * Pow256(|lo|)) == LE(lo) + h * Pow256(|lo|)
  {
    LoadBound(lo);
    BitsOfBytes(|lo|);
    OrIsAdd(LE(lo), h, 8 * |lo|);
  }

  /** `lo | (hi << 8 |lo|)` in a word of `w` bytes joins two byte strings into one number. */
  lemma JoinParts(w: nat, lo: seq<byte>, hi: seq<byte>)
    requires |lo| + |hi| <= w
    ensures Or(LE(lo), Shl(8 * w, LE(hi), 8 * |lo|)) == LE(lo + hi)
  {
    PartFits(w, lo, hi);
    ShiftPart(w, LE(hi), |lo|);
    OrAboveBytes(lo, LE(hi));
  }

  lemma {:induction false} OrCommutes(a: nat, b: nat)
    ensures Or(a, b) == Or(b, a)
  {
    if a != 0 && b != 0 {
      OrCommutes(a / 2, b / 2);
    }
  }

  // Or-ing a byte into its free place below a higher part.

  lemma OrByte0(h: nat, b: nat)
    requires b < 256
    ensures Or(h * 0x100, b) == h * 0x100 + b
  {
    Powers();
    OrIsAdd(b, h, 8);
    OrCommutes(b, h * 0x100);
  }

  lemma OrByte8(h: nat, b: nat)
    requires b < 256
    ensures Or(h * 0x1_0000, b * 0x100) == h * 0x1_0000 + b * 0x100
  {
    Powers();
    OrIsAdd(b * 0x100, h, 16);
    OrCommutes(b * 0x100, h * 0x1_0000);
  }

  lemma OrByte16(h: nat, b: nat)
    requires b < 256
    ensures Or(h * 0x100_0000, b * 0x1_0000) == h * 0x100_0000 + b * 0x1_0000
  {
    Powers();
    OrIsAdd(b * 0x1_0000, h, 24);
    OrCommutes(b * 0x1_0000, h * 0x100_0000);
  }

  lemma Shl32(b: nat)
    requires b < 256
    ensures Shl(32, b, 8) == b * 0x100 && Shl(32, b, 16) == b * 0x1_0000 && Shl(32, b, 24) == b * 0x100_0000
  {
    Powers();
    ShiftPart(4, b, 1);
    ShiftPart(4, b, 2);
    ShiftPart(4, b, 3);
  }

  /** Testing the top bit of a byte. */
  lemma TopBit(b: nat)
    requires b < 256
    ensures And(b, 128) == if b >= 128 then 128 else 0
  {
    assert Pow2(7) == 128 && Pow2(8) == 256 by {
      Powers();
    }
    AndClearsLow(b / 128, b % 128, 7, 8);
  }

  function Cast32(x: int): nat { x % 0x1_0000_0000 }

  // ---------------------------------------------------------------- the generic forms

  function Uint2korr(p: seq<byte>): (r: nat)
    requires |p| >= 2
    ensures r == LE(p[..2])
  {
    LoadUpTo4(p[..2]);
    (At(p, 0) + At(p, 1) * 0x100) % 0x1_0000
  }

  function Uint3korr(p: seq<byte>): (r: nat)
    requires |p| >= 3
    ensures r == LE(p[..3])
  {
    LoadUpTo4(p[..3]);
    Cast32(At(p, 0) + At(p, 1) * 0x100 + At(p, 2) * 0x1_0000)
  }

  function Uint4korr(p: seq<byte>): (r: nat)
    requires |p| >= 4
    ensures r == LE(p[..4])
  {
    LoadUpTo4(p[..4]);
    Cast32(At(p, 0) + At(p, 1) * 0x100 + At(p, 2) * 0x1_0000 + At(p, 3) * 0x100_0000)
  }

  function Uint5korr(p: seq<byte>): (r: nat)
    requires |p| >= 5
    ensures r == LE(p[..5])
  {
    Powers();
    LoadOfConcat(p[..4], p[4..5]);
    LoadUpTo4(p[4..5]);
    assert p[..5] == p[..4] + p[4..5];
    Uint4korr(p) + At(p, 4) * 0x1_0000_0000
  }

  function Uint6korr(p: seq<byte>): (r: nat)
    requires |p| >= 6
    ensures r == LE(p[..6])
  {
    Powers();
    LoadOfConcat(p[..4], p[4..6]);
    LoadUpTo4(p[4..6]);
    assert p[..6] == p[..4] + p[4..6];
    Uint4korr(p) + At(p, 4) * 0x1_0000_0000 + At(p, 5) * 0x100_0000_0000
  }

  lemma LoadHalves(p: seq<byte>)
    requires |p| >= 8
    ensures LE(p[..8]) == LE(p[..4]) + LE(p[4..][..4]) * 0x1_0000_0000
  {
    LoadOfConcat(p[..4], p[4..8]);
    assert p[4..][..4] == p[4..8];
    assert p[..8] == p[..4] + p[4..8];
    assert Pow256(4) == 0x1_0000_0000 by {
      Powers();
    }
  }

  function Uint8korr(p: seq<byte>): (r: nat)
    requires |p| >= 8
    ensures r == LE(p[..8])
  {
    LoadHalves(p);
    Uint4korr(p) + Uint4korr(p[4..]) * 0x1_0000_0000
  }

  function Sint2korr(p: seq<byte>): (r: int)
    requires |p| >= 2
    ensures r == Signed(2, LE(p[..2]))
  {
    Powers();
    var u := Uint2korr(p);
    if u >= 0x8000 then u - 0x1_0000 else u
  }

  lemma Powers8()
    ensures Pow256(5) == 0x100_0000_0000 && Pow256(6) == 0x1_0000_0000_0000
    ensures Pow256(7) == 0x100_0000_0000_0000 && Pow256(8) == 0x1_0000_0000_0000_0000
  {
    Powers();
    assert Pow256(5) == 256 * Pow256(4);
    assert Pow256(6) == 256 * Pow256(5);
    assert Pow256(7) == 256 * Pow256(6);
    assert Pow256(8) == 256 * Pow256(7);
  }

  function Sint8korr(p: seq<byte>): (r: int)
    requires |p| >= 8
    ensures r == Signed(8, LE(p[..8]))
  {
    Powers8();
    var u := Uint8korr(p);
    if u >= 0x8000_0000_0000_0000 then u - 0x1_0000_0000_0000_0000 else u
  }

  /** The bytes or-ed together from the high one down. */
  function OrDown(b2: nat, b1: nat, b0: nat): nat {
    Or(Or(Shl(32, b2, 16), Shl(32, b1, 8)), b0)
  }

  function OrDownSigned(b2: nat, b1: nat, b0: nat): nat {
    Or(Or(Or(Shl(32, 255, 24), Shl(32, b2, 16)), Shl(32, b1, 8)), b0)
  }

  lemma OrDownValue(b2: nat, b1: nat, b0: nat)
    requires b2 < 256 && b1 < 256 && b0 < 256
    ensures OrDown(b2, b1, b0) == b2 * 0x1_0000 + b1 * 0x100 + b0
  {
    var h := b2 * 256 + b1;
    assert Or(Shl(32, b2, 16), Shl(32, b1, 8)) == h * 0x100 by {
      Shl32(b1);
      Shl32(b2);
      OrByte8(b2, b1);
    }
    OrByte0(h, b0);
  }

  lemma OrDownSignedValue(b2: nat, b1: nat, b0: nat)
    requires b2 < 256 && b1 < 256 && b0 < 256
    ensures OrDownSigned(b2, b1, b0) == 0xff00_0000 + b2 * 0x1_0000 + b1 * 0x100 + b0
  {
    var g := 255 * 256 + b2;
    var h := g * 256 + b1;
    assert Or(Shl(32, 255, 24), Shl(32, b2, 16)) == g * 0x1_0000 by {
      Shl32(b2);
      Shl32(255);
      OrByte16(255, b2);
    }
    assert Or(g * 0x1_0000, Shl(32, b1, 8)) == h * 0x100 by {
      Shl32(b1);
      OrByte8(g, b1);
    }
    OrByte0(h, b0);
  }

  /** Three bytes, the sign being extended by or-ing in a byte of ones. */
  function Sint3korr(p: seq<byte>): (r: int)
    requires |p| >= 3
    ensures r == Signed(3, LE(p[..3]))
  {
    Powers();
    TopBit(At(p, 2));
    LoadUpTo4(p[..3]);
    OrDownValue(At(p, 2), At(p, 1), At(p, 0));
    OrDownSignedValue(At(p, 2), At(p, 1), At(p, 0));
    var u := if And(At(p, 2), 128) != 0 then OrDownSigned(At(p, 2), At(p, 1), At(p, 0))
             else OrDown(At(p, 2), At(p, 1), At(p, 0));
    if u >= 0x8000_0000 then u - 0x1_0000_0000 else u
  }

  function Sint4korr(p: seq<byte>): (r: int)
    requires |p| >= 4
    ensures r == Signed(4, LE(p[..4]))
  {
    Powers();
    var u := Uint4korr(p);
    if u >= 0x8000_0000 then u - 0x1_0000_0000 else u
  }

  lemma BigOf4(p: seq<byte>)
    requires |p| == 4
    ensures BE(p) == At(p, 3) + At(p, 2) * 0x100 + At(p, 1) * 0x1_0000 + At(p, 0) * 0x100_0000
  {
    ReverseAt(p, 0);
    ReverseAt(p, 1);
    ReverseAt(p, 2);
    ReverseAt(p, 3);
    BigIsReversedLittle(p);
    LoadUpTo4(Reverse(p));
  }

  /** The bytes or-ed together from the low one up. */
  function OrUp(b3: nat, b2: nat, b1: nat, b0: nat): nat {
    Or(Or(Or(b3, Shl(32, b2, 8)), Shl(32, b1, 16)), Shl(32, b0, 24))
  }

  lemma OrUpValue(b3: nat, b2: nat, b1: nat, b0: nat)
    requires b3 < 256 && b2 < 256 && b1 < 256 && b0 < 256
    ensures OrUp(b3, b2, b1, b0) == b3 + b2 * 0x100 + b1 * 0x1_0000 + b0 * 0x100_0000
  {
    Powers();
    Shl32(b2);
    Shl32(b1);
    Shl32(b0);
    OrIsAdd(b3, b2, 8);
    OrIsAdd(b3 + b2 * 0x100, b1, 16);
    OrIsAdd(b3 + b2 * 0x100 + b1 * 0x1_0000, b0, 24);
  }

  /** Network byte order. */
  function Int4net(p: seq<byte>): (r: int)
    requires |p| >= 4
    ensures r == Signed(4, BE(p[..4]))
  {
    Powers();
    BigOf4(p[..4]);
    OrUpValue(At(p, 3), At(p, 2), At(p, 1), At(p, 0));
    var u := OrUp(At(p, 3), At(p, 2), At(p, 1), At(p, 0));
    if u >= 0x8000_0000 then u - 0x1_0000_0000 else u
  }

  // ---------------------------------------------------------------- the x86-64 forms

  /** `*(uintN *) p` on a little-endian machine. */
  function Word(p: seq<byte>, n: nat): nat
    requires n <= |p|
  {
    LE(p[..n])
  }

  function FastUint5korr(p: seq<byte>): (r: nat)
    requires |p| >= 5
    ensures r == LE(p[..5])
  {
    var a, b := Word(p, 4), Word(p[4..], 1);
    JoinParts(8, p[..4], p[4..][..1]);
    assert p[..5] == p[..4] + p[4..][..1];
    Or(a, Shl(64, b, 32))
  }

  function FastUint6korr(p: seq<byte>): (r: nat)
    requires |p| >= 6
    ensures r == LE(p[..6])
  {
    var a, b := Word(p, 4), Word(p[4..], 2);
    JoinParts(8, p[..4], p[4..][..2]);
    assert p[..6] == p[..4] + p[4..][..2];
    Or(a, Shl(64, b, 32))
  }

  /** The byte and 16-bit pieces give back the low-byte-first number, the shift and the swap turn it
      into the high-byte-first one. */
  function MiUint5korr(p: seq<byte>): (r: nat)
    requires |p| >= 5
    ensures r == BE(p[..5])
  {
    ShiftAndSwap(8, p[..5], 3);
    var v := Shl(64, FastUint5korr(p), 24);
    ByteSwap(8, v)
  }

  function MiUint6korr(p: seq<byte>): (r: nat)
    requires |p| >= 6
    ensures r == BE(p[..6])
  {
    ShiftAndSwap(8, p[..6], 2);
    var v := Shl(64, FastUint6korr(p), 16);
    ByteSwap(8, v)
  }

  function MiUint7korr(p: seq<byte>): (r: nat)
    requires |p| >= 7
    ensures r == BE(p[..7])
  {
    var a, b, c := Word(p, 4), Word(p[4..], 2), Word(p[6..], 1);
    JoinParts(8, p[..4], p[4..][..2]);
    JoinParts(8, p[..4] + p[4..][..2], p[6..][..1]);
    assert p[..7] == p[..4] + p[4..][..2] + p[6..][..1];
    ShiftAndSwap(8, p[..7], 1);
    var v := Shl(64, Or(Or(a, Shl(64, b, 32)), Shl(64, c, 48)), 8);
    ByteSwap(8, v)
  }

  function MiUint8korr(p: seq<byte>): (r: nat)
    requires |p| >= 8
    ensures r == BE(p[..8])
  {
    SwapOfPadded(0, p[..8]);
    assert Zeros(0) + p[..8] == p[..8];
    var v := Word(p, 8);
    ByteSwap(8, v)
  }

  /** Whatever bytes are in memory, every word-at-a-time load agrees with the byte-at-a-time one. */
  lemma FastLoadsAgree(p: seq<byte>)
    ensures |p| >= 2 ==> Word(p, 2) == Uint2korr(p)
    ensures |p| >= 4 ==> Word(p, 4) == Uint4korr(p)
    ensures |p| >= 5 ==> FastUint5korr(p) == Uint5korr(p)
    ensures |p| >= 6 ==> FastUint6korr(p) == Uint6korr(p)
    ensures |p| >= 8 ==> Word(p, 8) == Uint8korr(p)
  {
  }

  /** The `mi_` loads are the low-byte-first values of the reversed bytes. */
  lemma MiLoadsReverse(p: seq<byte>)
    ensures |p| >= 5 ==> MiUint5korr(p) == LE(Reverse(p[..5]))
    ensures |p| >= 6 ==> MiUint6korr(p) == LE(Reverse(p[..6]))
    ensures |p| >= 7 ==> MiUint7korr(p) == LE(Reverse(p[..7]))
    ensures |p| >= 8 ==> MiUint8korr(p) == LE(Reverse(p[..8]))
  {
    if |p| >= 5 { BigIsReversedLittle(p[..5]); }
    if |p| >= 6 { BigIsReversedLittle(p[..6]); }
    if |p| >= 7 { BigIsReversedLittle(p[..7]); }
    if |p| >= 8 { BigIsReversedLittle(p[..8]); }
  }
}
