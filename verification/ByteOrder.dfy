/**
 Byte strings as numbers, for every length: the theory that the codec macros instantiate.
 */
module ByteOrder {
  import opened Bits

  type byte = b: int | 0 <= b < 256

  function Pow256(n: nat): (p: nat)
    ensures p >= 1
  {
    if n == 0 then 1 else 256 * Pow256(n - 1)
  }

  /** The number a byte string denotes, low byte first. */
  function LE(b: seq<byte>): nat {
    if b == [] then 0 else b[0] + 256 * LE(b[1..])
  }

  /** The number a byte string denotes, high byte first. */
  function BE(b: seq<byte>): nat {
    if b == [] then 0 else 256 * BE(b[..|b| - 1]) + b[|b| - 1]
  }

  /** The low `n` bytes of any integer, low byte first; negative integers in two's complement. */
  function StoreLE(n: nat, x: int): (b: seq<byte>)
    ensures |b| == n
  {
    if n == 0 then [] else [x % 256] + StoreLE(n - 1, x / 256)
  }

  /** The two's complement reading of an `n`-byte unsigned value. */
  function Signed(n: nat, u: nat): int {
    if 2 * u >= Pow256(n) then u - Pow256(n) else u
  }

  function Reverse(b: seq<byte>): (r: seq<byte>)
    ensures |r| == |b|
  {
    if b == [] then [] else Reverse(b[1..]) + [b[0]]
  }

  function Zeros(n: nat): (b: seq<byte>)
    ensures |b| == n
  {
    if n == 0 then [] else [0] + Zeros(n - 1)
  }

  // ---------------------------------------------------------------- powers

  lemma {:induction false} BitsOfBytes(n: nat)
    ensures Pow2(8 * n) == Pow256(n)
  {
    if n > 0 {
      BitsOfBytes(n - 1);
      Pow2Add(8, 8 * (n - 1));
      assert Pow2(8) == 256 by {
        assert Pow2(4) == 16;
      }
    }
  }

  lemma ModSplit(x: int, m: int)
    requires m > 0
    ensures x % (256 * m) == x % 256 + 256 * ((x / 256) % m)
    ensures x / (256 * m) == (x / 256) / m
  {
    var q, r := (x / 256) / m, (x / 256) % m;
    assert x / 256 == m * q + r;
    assert 256 * (m * q) == (256 * m) * q;
    DivModUnique(x, 256 * m, q, x % 256 + 256 * r);
  }

  // ---------------------------------------------------------------- store and load

  /** Loading what was stored gives the integer modulo 256^n, for every n and every integer. */
  lemma {:induction false} LoadOfStore(n: nat, x: int)
    ensures LE(StoreLE(n, x)) == x % Pow256(n)
  {
    if n > 0 {
      LoadOfStore(n - 1, x / 256);
      ModSplit(x, Pow256(n - 1));
      assert StoreLE(n, x)[1..] == StoreLE(n - 1, x / 256);
    }
  }

  /** Storing what was loaded gives the same bytes. */
  lemma {:induction false} StoreOfLoad(b: seq<byte>)
    ensures StoreLE(|b|, LE(b)) == b
  {
    if b != [] {
      StoreOfLoad(b[1..]);
      DivModUnique(LE(b), 256, LE(b[1..]), b[0]);
    }
  }

  lemma {:induction false} LoadBound(b: seq<byte>)
    ensures LE(b) < Pow256(|b|)
  {
    if b != [] {
      LoadBound(b[1..]);
    }
  }

  lemma SignedOfMod(p: int, x: int)
    requires p > 0
    ensures var u := x % p; (if 2 * u >= p then u - p else u) == x <==> -p <= 2 * x < p
  {
  }

  /** A signed load gives back exactly the integers of the two's complement range. */
  lemma SignedRoundTrip(n: nat, x: int)
    ensures Signed(n, LE(StoreLE(n, x))) == x <==> 0 <= 2 * x + Pow256(n) < 2 * Pow256(n)
  {
    LoadOfStore(n, x);
    SignedOfMod(Pow256(n), x);
  }

  // ---------------------------------------------------------------- pieces

  lemma {:induction false} LoadOfConcat(a: seq<byte>, b: seq<byte>)
    ensures LE(a + b) == LE(a) + Pow256(|a|) * LE(b)
  {
    if a == [] {
      assert a + b == b;
    } else {
      LoadOfConcat(a[1..], b);
      assert (a + b)[1..] == a[1..] + b;
      assert 256 * (Pow256(|a| - 1) * LE(b)) == 256 * Pow256(|a| - 1) * LE(b);
    }
  }

  /** A store can be done in two pieces, the second taking the shifted value. */
  lemma {:induction false} StoreInPieces(n: nat, m: nat, x: int)
    ensures StoreLE(n + m, x) == StoreLE(n, x) + StoreLE(m, x / Pow256(n))
  {
    if n > 0 {
      StoreInPieces(n - 1, m, x / 256);
      ModSplit(x, Pow256(n - 1));
    }
  }

  /** Byte `i` of a store is the value shifted right by `8 i`, cut to a byte. */
  lemma {:induction false} ByteOfStore(n: nat, x: int, i: nat)
    requires i < n
    ensures StoreLE(n, x)[i] == (x / Pow256(i)) % 256
  {
    if i > 0 {
      ByteOfStore(n - 1, x / 256, i - 1);
      ModSplit(x, Pow256(i - 1));
    }
  }

  /** Only the value modulo 256^m matters to a store of at most `m` bytes. */
  lemma {:induction false} StoreOfCast(n: nat, m: nat, x: int)
    requires n <= m
    ensures StoreLE(n, x % Pow256(m)) == StoreLE(n, x)
    decreases n
  {
    if n > 0 {
      var p := Pow256(m - 1);
      ModSplit(x, p);
      DivModUnique(x % Pow256(m), 256, (x / 256) % p, x % 256);
      StoreOfCast(n - 1, m - 1, x / 256);
    }
  }

  // ---------------------------------------------------------------- reversal

  lemma {:induction false} ReverseConcat(a: seq<byte>, b: seq<byte>)
    ensures Reverse(a + b) == Reverse(b) + Reverse(a)
  {
    if a == [] {
      assert a + b == b;
    } else {
      ReverseConcat(a[1..], b);
      assert (a + b)[1..] == a[1..] + b;
    }
  }

  lemma {:induction false} ReverseTwice(b: seq<byte>)
    ensures Reverse(Reverse(b)) == b
  {
    if b != [] {
      ReverseTwice(b[1..]);
      ReverseConcat(Reverse(b[1..]), [b[0]]);
      assert Reverse([b[0]]) == [b[0]];
    }
  }

  lemma {:induction false} ReverseAt(b: seq<byte>, i: nat)
    requires i < |b|
    ensures Reverse(b)[i] == b[|b| - 1 - i]
  {
    if i < |b| - 1 {
      ReverseAt(b[1..], i);
    }
  }

  /** Reading high byte first is reading the reversed string low byte first. */
  lemma {:induction false} BigIsReversedLittle(b: seq<byte>)
    ensures BE(b) == LE(Reverse(b))
    decreases |b|
  {
    if b != [] {
      var n := |b| - 1;
      BigIsReversedLittle(b[..n]);
      ReverseConcat(b[..n], [b[n]]);
      assert b == b[..n] + [b[n]];
      assert Reverse([b[n]]) == [b[n]];
      assert Reverse(b)[1..] == Reverse(b[..n]);
    }
  }

  lemma {:induction false} ZerosAreNothing(n: nat)
    ensures LE(Zeros(n)) == 0
    ensures Reverse(Zeros(n)) == Zeros(n)
  {
    if n > 0 {
      ZerosAreNothing(n - 1);
      assert Zeros(n)[1..] == Zeros(n - 1);
      ZerosEitherEnd(n - 1);
    }
  }

  lemma {:induction false} ZerosEitherEnd(n: nat)
    ensures Zeros(n) + [0] == [0] + Zeros(n)
  {
    if n > 0 {
      ZerosEitherEnd(n - 1);
    }
  }

  /** `bswap`: the bytes of a `w`-byte word in the opposite order. */
  function ByteSwap(w: nat, v: nat): nat {
    LE(Reverse(StoreLE(w, v)))
  }

  lemma ShlBytes(w: nat, x: nat, z: nat)
    ensures Shl(8 * w, x, 8 * z) == (x * Pow256(z)) % Pow256(w)
  {
    BitsOfBytes(w);
    BitsOfBytes(z);
  }

  lemma SmallMod(x: int, p: int)
    requires 0 <= x < p
    ensures x % p == x
  {
  }

  lemma LoadAboveZeros(z: nat, b: seq<byte>)
    ensures LE(Zeros(z) + b) == LE(b) * Pow256(z)
  {
    LoadOfConcat(Zeros(z), b);
    ZerosAreNothing(z);
    Commute(Pow256(z), LE(b));
  }

  lemma LoadBelowZeros(z: nat, b: seq<byte>)
    ensures LE(b + Zeros(z)) == LE(b)
  {
    LoadOfConcat(b, Zeros(z));
    ZerosAreNothing(z);
    Commute(Pow256(|b|), 0);
  }

  lemma Commute(x: nat, y: nat)
    ensures x * y == y * x
  {
  }

  /** Shifting to the top of the word puts zero bytes below. */
  lemma ShiftToTop(w: nat, b: seq<byte>, z: nat)
    requires |b| + z == w
    ensures Shl(8 * w, LE(b), 8 * z) == LE(Zeros(z) + b)
  {
    var v := LE(Zeros(z) + b);
    calc {
      Shl(8 * w, LE(b), 8 * z);
      { ShlBytes(w, LE(b), z); }
      (LE(b) * Pow256(z)) % Pow256(w);
      { LoadAboveZeros(z, b); }
      v % Pow256(w);
      { LoadBound(Zeros(z) + b); SmallMod(v, Pow256(w)); }
      v;
    }
  }

  lemma ReversePadded(z: nat, b: seq<byte>)
    ensures Reverse(Zeros(z) + b) == Reverse(b) + Zeros(z)
  {
    ReverseConcat(Zeros(z), b);
    ZerosAreNothing(z);
  }

  lemma SwapOfPadded(z: nat, b: seq<byte>)
    ensures ByteSwap(z + |b|, LE(Zeros(z) + b)) == BE(b)
  {
    var padded := Zeros(z) + b;
    calc {
      ByteSwap(|padded|, LE(padded));
      { StoreOfLoad(padded); }
      LE(Reverse(padded));
      { ReversePadded(z, b); }
      LE(Reverse(b) + Zeros(z));
      { LoadBelowZeros(z, Reverse(b)); }
      LE(Reverse(b));
      { BigIsReversedLittle(b); }
      BE(b);
    }
    assert |padded| == z + |b|;
  }

  lemma SwapOfTop(w: nat, v: nat, z: nat, b: seq<byte>)
    requires w == z + |b| && v == LE(Zeros(z) + b)
    ensures ByteSwap(w, v) == BE(b)
  {
    SwapOfPadded(z, b);
  }

  /** Load low byte first, shift to the top of the word, swap: the bytes read high byte first. For
      every word size and every string that fits. */
  lemma ShiftAndSwap(w: nat, b: seq<byte>, z: nat)
    requires |b| + z == w
    ensures ByteSwap(w, Shl(8 * w, LE(b), 8 * z)) == BE(b)
  {
    ShiftToTop(w, b, z);
    SwapOfTop(w, Shl(8 * w, LE(b), 8 * z), z, b);
  }
}
