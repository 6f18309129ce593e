/**
 The storing macros, in place on a byte array at any offset. `a >> k` of a C integer is division by
 2^k rounding down; a cast to an unsigned type keeps the value modulo its range. Every store is
 specified by the whole array afterwards, so it also says which bytes it leaves alone.
 */
module Stores {
  import opened Bits
  import opened ByteOrder
  import opened Korr

  /** `s` with the bytes from `off` on replaced by `b`. */
  function Patched(s: seq<byte>, off: nat, b: seq<byte>): (r: seq<byte>)
    requires off + |b| <= |s|
    ensures |r| == |s|
  {
    s[..off] + b + s[off + |b|..]
  }

  lemma PatchTwice(s: seq<byte>, off: nat, b: seq<byte>, c: seq<byte>)
    requires off + |b| + |c| <= |s|
    ensures Patched(Patched(s, off, b), off + |b|, c) == Patched(s, off, b + c)
  {
  }

  /** The first five bytes of a store, by shifting; and where the shifts by 32 and 40 come from. */
  lemma Shifts(n: nat, a: int)
    ensures n > 0 ==> StoreLE(n, a)[0] == a % 0x100
    ensures n > 1 ==> StoreLE(n, a)[1] == (a / 0x100) % 0x100
    ensures n > 2 ==> StoreLE(n, a)[2] == (a / 0x1_0000) % 0x100
    ensures n > 3 ==> StoreLE(n, a)[3] == (a / 0x100_0000) % 0x100
    ensures n > 4 ==> StoreLE(n, a)[4] == (a / 0x1_0000_0000) % 0x100
  {
  }

  lemma SixBytes(a: int)
    ensures StoreLE(6, a) == StoreLE(4, a) + [(a / 0x1_0000_0000) % 0x100, (a / 0x100_0000_0000) % 0x100]
  {
    Powers();
    StoreInPieces(4, 2, a);
    Shifts(2, a / 0x1_0000_0000);
    assert a / 0x100_0000_0000 == (a / 0x1_0000_0000) / 0x100;
  }

  lemma TwoMore(s: seq<byte>, off: nat, b: seq<byte>, x: byte, y: byte)
    requires off + |b| + 2 <= |s|
    ensures Patched(s, off, b)[off + |b| := x][off + |b| + 1 := y] == Patched(s, off, b + [x, y])
  {
  }

  // ---------------------------------------------------------------- byte at a time

  method Int2store(t: array<byte>, off: nat, a: int)
    requires off + 2 <= t.Length
    modifies t
    ensures t[..] == Patched(old(t[..]), off, StoreLE(2, a))
  {
    var temp := Cast32(a);
    t[off] := temp % 0x100;
    t[off + 1] := (temp / 0x100) % 0x100;
    Powers();
    Shifts(2, temp);
    StoreOfCast(2, 4, a);
  }

  method Int3store(t: array<byte>, off: nat, a: int)
    requires off + 3 <= t.Length
    modifies t
    ensures t[..] == Patched(old(t[..]), off, StoreLE(3, a))
  {
    t[off] := a % 0x100;
    t[off + 1] := (a / 0x100) % 0x100;
    t[off + 2] := (a / 0x1_0000) % 0x100;
    Shifts(3, a);
  }

  method Int4store(t: array<byte>, off: nat, a: int)
    requires off + 4 <= t.Length
    modifies t
    ensures t[..] == Patched(old(t[..]), off, StoreLE(4, a))
  {
    t[off] := a % 0x100;
    t[off + 1] := (a / 0x100) % 0x100;
    t[off + 2] := (a / 0x1_0000) % 0x100;
    t[off + 3] := (a / 0x100_0000) % 0x100;
    Shifts(4, a);
  }

  method Int5store(t: array<byte>, off: nat, a: int)
    requires off + 5 <= t.Length
    modifies t
    ensures t[..] == Patched(old(t[..]), off, StoreLE(5, a))
  {
    Int4store(t, off, a);
    t[off + 4] := (a / 0x1_0000_0000) % 0x100;
    Powers();
    StoreInPieces(4, 1, a);
  }

  method Int6store(t: array<byte>, off: nat, a: int)
    requires off + 6 <= t.Length
    modifies t
    ensures t[..] == Patched(old(t[..]), off, StoreLE(6, a))
  {
    Int4store(t, off, a);
    ghost var four: seq<byte> := t[..];
    t[off + 4] := (a / 0x1_0000_0000) % 0x100;
    t[off + 5] := (a / 0x100_0000_0000) % 0x100;
    assert t[..] == four[off + 4 := t[off + 4]][off + 5 := t[off + 5]];
    TwoMore(old(t[..]), off, StoreLE(4, a), t[off + 4], t[off + 5]);
    SixBytes(a);
  }

  method Int8store(t: array<byte>, off: nat, a: int)
    requires off + 8 <= t.Length
    modifies t
    ensures t[..] == Patched(old(t[..]), off, StoreLE(8, a))
  {
    var temp, temp2 := Cast32(a), Cast32(a / 0x1_0000_0000);
    Int4store(t, off, temp);
    Int4store(t, off + 4, temp2);
    Powers();
    StoreOfCast(4, 4, a);
    StoreOfCast(4, 4, a / 0x1_0000_0000);
    StoreInPieces(4, 4, a);
    PatchTwice(old(t[..]), off, StoreLE(4, temp), StoreLE(4, temp2));
  }

  // ---------------------------------------------------------------- word at a time

  /** `*(uintN *) (t + off) = v` on a little-endian machine. */
  method StoreWord(t: array<byte>, off: nat, n: nat, v: int)
    requires off + n <= t.Length
    modifies t
    ensures t[..] == Patched(old(t[..]), off, StoreLE(n, v))
  {
    var rest := v;
    ghost var bytes := StoreLE(n, v);
    for i := 0 to n
      invariant forall j | 0 <= j < t.Length && !(off <= j < off + i) :: t[j] == old(t[j])
      invariant forall j | 0 <= j < i :: t[off + j] == bytes[j]
      invariant StoreLE(n - i, rest) == bytes[i..]
    {
      assert bytes[i] == rest % 256 && bytes[i + 1..] == StoreLE(n - i - 1, rest / 256);
      t[off + i] := rest % 256;
      rest := rest / 256;
    }
  }

  method FastInt5store(t: array<byte>, off: nat, a: int)
    requires off + 5 <= t.Length
    modifies t
    ensures t[..] == Patched(old(t[..]), off, StoreLE(5, a))
  {
    StoreWord(t, off, 4, Cast32(a));
    t[off + 4] := (a / 0x1_0000_0000) % 0x100;
    Powers();
    StoreOfCast(4, 4, a);
    StoreInPieces(4, 1, a);
  }

  method FastInt6store(t: array<byte>, off: nat, a: int)
    requires off + 6 <= t.Length
    modifies t
    ensures t[..] == Patched(old(t[..]), off, StoreLE(6, a))
  {
    var high := (a / 0x1_0000_0000) % 0x1_0000;
    StoreWord(t, off, 4, Cast32(a));
    StoreWord(t, off + 4, 2, high);
    Powers();
    StoreOfCast(4, 4, a);
    StoreOfCast(2, 2, a / 0x1_0000_0000);
    StoreInPieces(4, 2, a);
    PatchTwice(old(t[..]), off, StoreLE(4, a), StoreLE(2, high));
  }

  // ---------------------------------------------------------------- what a reader gets back

  lemma PatchedSlice(s: seq<byte>, off: nat, b: seq<byte>)
    requires off + |b| <= |s|
    ensures Patched(s, off, b)[off..][..|b|] == b
  {
  }

  /** Memory from `off` on after a store of `n` bytes there, low byte first. */
  function After(s: seq<byte>, off: nat, n: nat, a: int): (p: seq<byte>)
    requires off + n <= |s|
    ensures |p| >= n && p[..n] == StoreLE(n, a)
  {
    PatchedSlice(s, off, StoreLE(n, a));
    Patched(s, off, StoreLE(n, a))[off..]
  }

  /** The same, high byte first. */
  function AfterHigh(s: seq<byte>, off: nat, n: nat, a: int): (p: seq<byte>)
    requires off + n <= |s|
    ensures |p| >= n && p[..n] == Reverse(StoreLE(n, a))
  {
    PatchedSlice(s, off, Reverse(StoreLE(n, a)));
    Patched(s, off, Reverse(StoreLE(n, a)))[off..]
  }

  /** After a store at any offset, the unsigned loads of that width give the value back modulo the width. */
  lemma StoreThenLoad(s: seq<byte>, off: nat, a: int)
    ensures off + 2 <= |s| ==> Uint2korr(After(s, off, 2, a)) == a % 0x1_0000
    ensures off + 3 <= |s| ==> Uint3korr(After(s, off, 3, a)) == a % 0x100_0000
    ensures off + 4 <= |s| ==> Uint4korr(After(s, off, 4, a)) == a % 0x1_0000_0000
    ensures off + 5 <= |s| ==>
              Uint5korr(After(s, off, 5, a)) == FastUint5korr(After(s, off, 5, a)) == a % 0x100_0000_0000
    ensures off + 6 <= |s| ==>
              Uint6korr(After(s, off, 6, a)) == FastUint6korr(After(s, off, 6, a)) == a % 0x1_0000_0000_0000
    ensures off + 8 <= |s| ==> Uint8korr(After(s, off, 8, a)) == a % 0x1_0000_0000_0000_0000
  {
    Powers();
    Powers8();
    LoadOfStore(2, a);
    LoadOfStore(3, a);
    LoadOfStore(4, a);
    LoadOfStore(5, a);
    LoadOfStore(6, a);
    LoadOfStore(8, a);
  }

  /** The signed loads give the value back exactly when it was in range. */
  lemma StoreThenLoadSigned(s: seq<byte>, off: nat, a: int)
    ensures off + 2 <= |s| ==> (Sint2korr(After(s, off, 2, a)) == a <==> -0x8000 <= a < 0x8000)
    ensures off + 3 <= |s| ==> (Sint3korr(After(s, off, 3, a)) == a <==> -0x80_0000 <= a < 0x80_0000)
    ensures off + 4 <= |s| ==> (Sint4korr(After(s, off, 4, a)) == a <==> -0x8000_0000 <= a < 0x8000_0000)
    ensures off + 8 <= |s| ==>
              (Sint8korr(After(s, off, 8, a)) == a <==> -0x8000_0000_0000_0000 <= a < 0x8000_0000_0000_0000)
  {
    Powers();
    Powers8();
    SignedRoundTrip(2, a);
    SignedRoundTrip(3, a);
    SignedRoundTrip(4, a);
    SignedRoundTrip(8, a);
  }

  lemma HighFirstBack(n: nat, a: int)
    ensures BE(Reverse(StoreLE(n, a))) == LE(StoreLE(n, a)) == a % Pow256(n)
  {
    BigIsReversedLittle(Reverse(StoreLE(n, a)));
    ReverseTwice(StoreLE(n, a));
    LoadOfStore(n, a);
  }

  /** The high-byte-first loads give back what was stored high byte first. */
  lemma StoreThenLoadHighFirst(s: seq<byte>, off: nat, a: int)
    ensures off + 4 <= |s| ==> (Int4net(AfterHigh(s, off, 4, a)) == a <==> -0x8000_0000 <= a < 0x8000_0000)
    ensures off + 5 <= |s| ==> MiUint5korr(AfterHigh(s, off, 5, a)) == a % 0x100_0000_0000
    ensures off + 6 <= |s| ==> MiUint6korr(AfterHigh(s, off, 6, a)) == a % 0x1_0000_0000_0000
    ensures off + 7 <= |s| ==> MiUint7korr(AfterHigh(s, off, 7, a)) == a % 0x100_0000_0000_0000
    ensures off + 8 <= |s| ==> MiUint8korr(AfterHigh(s, off, 8, a)) == a % 0x1_0000_0000_0000_0000
  {
    Powers();
    Powers8();
    SignedRoundTrip(4, a);
    HighFirstBack(4, a);
    HighFirstBack(5, a);
    HighFirstBack(6, a);
    HighFirstBack(7, a);
    HighFirstBack(8, a);
  }

  // ---------------------------------------------------------------- machine-dependent memory, one file format

  /** The bytes of a 4- or 8-byte value in the memory of the three kinds of machine. */
  datatype Machine = LittleEndian | BigEndian | SwappedWords

  function SwapWords(m: seq<byte>): seq<byte>
    requires |m| == 8
  {
    m[4..] + m[..4]
  }

  function Memory(machine: Machine, u: nat): (m: seq<byte>)
    ensures |m| == 8
  {
    match machine
    case LittleEndian => StoreLE(8, u)
    case BigEndian => Reverse(StoreLE(8, u))
    case SwappedWords => StoreLE(4, u / Pow256(4)) + StoreLE(4, u)
  }

  method StoreFour(t: array<byte>, off: nat, b0: byte, b1: byte, b2: byte, b3: byte)
    requires off + 4 <= t.Length
    modifies t
    ensures t[..] == Patched(old(t[..]), off, [b0, b1, b2, b3])
  {
    t[off] := b0;
    t[off + 1] := b1;
    t[off + 2] := b2;
    t[off + 3] := b3;
  }

  /** `float8store` on a big-endian machine: byte by byte, backwards. */
  method Float8storeBig(t: array<byte>, off: nat, v: seq<byte>)
    requires |v| == 8 && off + 8 <= t.Length
    modifies t
    ensures t[..] == Patched(old(t[..]), off, Stored(BigEndian, v))
  {
    StoreFour(t, off, v[7], v[6], v[5], v[4]);
    StoreFour(t, off + 4, v[3], v[2], v[1], v[0]);
    PatchTwice(old(t[..]), off, [v[7], v[6], v[5], v[4]], [v[3], v[2], v[1], v[0]]);
    forall i | 0 <= i < 8 ensures Reverse(v)[i] == v[7 - i] {
      ReverseAt(v, i);
    }
    assert Reverse(v) == [v[7], v[6], v[5], v[4]] + [v[3], v[2], v[1], v[0]];
  }

  /** `doublestore` where the words of a double are kept in the opposite order to its bytes. */
  method DoublestoreSwapped(t: array<byte>, off: nat, v: seq<byte>)
    requires |v| == 8 && off + 8 <= t.Length
    modifies t
    ensures t[..] == Patched(old(t[..]), off, Stored(SwappedWords, v))
  {
    StoreFour(t, off, v[4], v[5], v[6], v[7]);
    StoreFour(t, off + 4, v[0], v[1], v[2], v[3]);
    PatchTwice(old(t[..]), off, v[4..], v[..4]);
    assert v[4..] == [v[4], v[5], v[6], v[7]] && v[..4] == [v[0], v[1], v[2], v[3]];
  }

  /** `doublestore` of the 32-bit x86 forms: the two words of the double, one after the other. */
  method DoublestoreWords(t: array<byte>, off: nat, v: seq<byte>)
    requires |v| == 8 && off + 8 <= t.Length
    modifies t
    ensures t[..] == Patched(old(t[..]), off, Stored(LittleEndian, v))
  {
    StoreWord(t, off, 4, LE(v[..4]));
    StoreWord(t, off + 4, 4, LE(v[4..]));
    StoreOfLoad(v[..4]);
    StoreOfLoad(v[4..]);
    PatchTwice(old(t[..]), off, v[..4], v[4..]);
    assert v[..4] + v[4..] == v;
  }

  /** `float8get` on a big-endian machine: a temporary filled byte by byte, backwards. */
  method Float8getBig(m: seq<byte>) returns (v: seq<byte>)
    requires |m| == 8
    ensures v == Loaded(BigEndian, m)
  {
    var temp := new byte[8];
    StoreFour(temp, 0, m[7], m[6], m[5], m[4]);
    StoreFour(temp, 4, m[3], m[2], m[1], m[0]);
    v := temp[..];
    forall i | 0 <= i < 8 ensures Reverse(m)[i] == m[7 - i] {
      ReverseAt(m, i);
    }
  }

  /** `doubleget` where the words of a double are kept in the opposite order to its bytes. */
  method DoublegetSwapped(m: seq<byte>) returns (v: seq<byte>)
    requires |m| == 8
    ensures v == Loaded(SwappedWords, m)
  {
    var temp := new byte[8];
    StoreFour(temp, 0, m[4], m[5], m[6], m[7]);
    StoreFour(temp, 4, m[0], m[1], m[2], m[3]);
    v := temp[..];
  }

  /** What the store of each kind of machine writes for the memory of a double. */
  function Stored(machine: Machine, m: seq<byte>): (r: seq<byte>)
    requires |m| == 8
    ensures |r| == 8
  {
    match machine
    case LittleEndian => m
    case BigEndian => Reverse(m)
    case SwappedWords => SwapWords(m)
  }

  /** What the load of each kind of machine makes of stored bytes: the memory of a double there. */
  function Loaded(machine: Machine, stored: seq<byte>): seq<byte>
    requires |stored| == 8
  {
    match machine
    case LittleEndian => stored
    case BigEndian => Reverse(stored)
    case SwappedWords => SwapWords(stored)
  }

  /** The stored form is machine independent, low byte first, so a double written on one kind of machine
      is read as the same double on any other. */
  lemma StoredFormIsPortable(writer: Machine, reader: Machine, u: nat)
    ensures Stored(writer, Memory(writer, u)) == StoreLE(8, u)
    ensures Loaded(reader, Stored(writer, Memory(writer, u))) == Memory(reader, u)
  {
    ReverseTwice(StoreLE(8, u));
    StoreInPieces(4, 4, u);
  }

  /** A double with bits `u`, stored by one kind of machine and loaded by another, through the forms that
      each kind uses. */
  method ExchangeDouble(writer: Machine, reader: Machine, u: nat) returns (v: seq<byte>)
    ensures v == Memory(reader, u)
  {
    var t := new byte[8];
    var m := Memory(writer, u);
    match writer {
      case LittleEndian => DoublestoreWords(t, 0, m);
      case BigEndian => Float8storeBig(t, 0, m);
      case SwappedWords => DoublestoreSwapped(t, 0, m);
    }
    assert t[..] == Stored(writer, m);
    match reader {
      case LittleEndian => v := t[..];
      case BigEndian => v := Float8getBig(t[..]);
      case SwappedWords => v := DoublegetSwapped(t[..]);
    }
    StoredFormIsPortable(writer, reader, u);
  }
}
