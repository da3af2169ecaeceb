/** The Jenkins hash of ebpf-nfs/headers/jhash.h, on 32-bit words. */
module JHashes {
  import opened Bits
  import opened Checksums

  const JHASH_INITVAL: u32 := 0xdeadbeef

  /** The three words of internal state. */
  datatype Abc = Abc(a: u32, b: u32, c: u32)

  // ----- 32-bit arithmetic

  function Trunc(x: int): u32 {
    x % TWO_32
  }

  function Add(x: u32, y: u32): u32 {
    Trunc((x as int) + (y as int))
  }

  function Sub(x: u32, y: u32): u32 {
    Trunc((x as int) - (y as int))
  }

  lemma Pow2Is32()
    ensures Pow2(32) == TWO_32
  {
    assert Pow2(4) == 16 && Pow2(8) == 16 * Pow2(4) && Pow2(12) == 16 * Pow2(8) && Pow2(16) == 16 * Pow2(12);
    assert Pow2(20) == 16 * Pow2(16) && Pow2(24) == 16 * Pow2(20) && Pow2(28) == 16 * Pow2(24);
  }

  function Xor(x: u32, y: u32): u32 {
    Pow2Is32();
    XorBits(x, y, 32)
  }

  /** rol32. */
  function Rol32(word: u32, shift: nat): u32
    requires 0 < shift < 32
  {
    Trunc(word * Pow2(shift) + word / Pow2(32 - shift))
  }

  // ----- mixing

  /** One line of the mixing macro: x loses z, is scrambled by it, and z gains y. */
  function Line(x: u32, z: u32, y: u32, shift: nat): (u32, u32)
    requires 0 < shift < 32
  {
    (Xor(Sub(x, z), Rol32(z, shift)), Add(z, y))
  }

  function Unline(x: u32, z: u32, y: u32, shift: nat): (u32, u32)
    requires 0 < shift < 32
  {
    (Add(Xor(x, Rol32(Sub(z, y), shift)), Sub(z, y)), Sub(z, y))
  }

  lemma Lines(x: u32, z: u32, y: u32, shift: nat)
    requires 0 < shift < 32
    ensures var (x', z') := Line(x, z, y, shift); Unline(x', z', y, shift) == (x, z)
  {
    hide Rol32, XorBits, Pow2;
    assert Sub(Add(z, y), y) == z;
    assert Add(Sub(x, z), z) == x;
    Pow2Is32();
    XorUndoes(Sub(x, z), Rol32(z, shift), 32);
  }

  /** __jhash_mix. */
  function Mix(s: Abc): Abc {
    var (a1, c1) := Line(s.a, s.c, s.b, 4);
    var (b1, a2) := Line(s.b, a1, c1, 6);
    var (c2, b2) := Line(c1, b1, a2, 8);
    var (a3, c3) := Line(a2, c2, b2, 16);
    var (b3, a4) := Line(b2, a3, c3, 19);
    var (c4, b4) := Line(c3, b3, a4, 4);
    Abc(a4, b4, c4)
  }

  function Unmix(s: Abc): Abc {
    var (c3, b3) := Unline(s.c, s.b, s.a, 4);
    var (b2, a3) := Unline(b3, s.a, c3, 19);
    var (a2, c2) := Unline(a3, c3, b2, 16);
    var (c1, b1) := Unline(c2, b2, a2, 8);
    var (b0, a1) := Unline(b1, a2, c1, 6);
    var (a0, c0) := Unline(a1, c1, b0, 4);
    Abc(a0, b0, c0)
  }

  /** Mixing loses nothing. */
  lemma MixReversible(s: Abc)
    ensures Unmix(Mix(s)) == s
  {
    hide Line, Unline;
    var (a1, c1) := Line(s.a, s.c, s.b, 4);
    var (b1, a2) := Line(s.b, a1, c1, 6);
    var (c2, b2) := Line(c1, b1, a2, 8);
    var (a3, c3) := Line(a2, c2, b2, 16);
    var (b3, a4) := Line(b2, a3, c3, 19);
    Lines(s.a, s.c, s.b, 4);
    Lines(s.b, a1, c1, 6);
    Lines(c1, b1, a2, 8);
    Lines(a2, c2, b2, 16);
    Lines(b2, a3, c3, 19);
    Lines(c3, b3, a4, 4);
  }

  /** One line of the finishing macro. */
  function Finish(x: u32, y: u32, shift: nat): u32
    requires 0 < shift < 32
  {
    Sub(Xor(x, y), Rol32(y, shift))
  }

  /** __jhash_final. */
  function Final(s: Abc): Abc {
    var c1 := Finish(s.c, s.b, 14);
    var a1 := Finish(s.a, c1, 11);
    var b1 := Finish(s.b, a1, 25);
    var c2 := Finish(c1, b1, 16);
    var a2 := Finish(a1, c2, 4);
    var b2 := Finish(b1, a2, 14);
    Abc(a2, b2, Finish(c2, b2, 24))
  }

  function Unfinish(z: u32, y: u32, shift: nat): u32
    requires 0 < shift < 32
  {
    Xor(Add(z, Rol32(y, shift)), y)
  }

  lemma Finishes(x: u32, y: u32, shift: nat)
    requires 0 < shift < 32
    ensures Unfinish(Finish(x, y, shift), y, shift) == x
  {
    hide Rol32, XorBits, Pow2;
    assert Add(Sub(Xor(x, y), Rol32(y, shift)), Rol32(y, shift)) == Xor(x, y);
    Pow2Is32();
    XorUndoes(x, y, 32);
  }

  function Unfinal(s: Abc): Abc {
    var c2 := Unfinish(s.c, s.b, 24);
    var b1 := Unfinish(s.b, s.a, 14);
    var a1 := Unfinish(s.a, c2, 4);
    var c1 := Unfinish(c2, b1, 16);
    var b0 := Unfinish(b1, a1, 25);
    var a0 := Unfinish(a1, c1, 11);
    Abc(a0, b0, Unfinish(c1, b0, 14))
  }

  /** Nor does finishing. */
  lemma FinalReversible(s: Abc)
    ensures Unfinal(Final(s)) == s
  {
    hide Finish, Unfinish;
    var c1 := Finish(s.c, s.b, 14);
    var a1 := Finish(s.a, c1, 11);
    var b1 := Finish(s.b, a1, 25);
    var c2 := Finish(c1, b1, 16);
    var a2 := Finish(a1, c2, 4);
    var b2 := Finish(b1, a2, 14);
    Finishes(c2, b2, 24);
    Finishes(b1, a2, 14);
    Finishes(a1, c2, 4);
    Finishes(c1, b1, 16);
    Finishes(s.b, a1, 25);
    Finishes(s.a, c1, 11);
    Finishes(s.c, s.b, 14);
  }

  // ----- hashing words

  function AddAll(s: Abc, x: u32, y: u32, z: u32): Abc {
    Abc(Add(s.a, x), Add(s.b, y), Add(s.c, z))
  }

  function At(ws: seq<u32>, i: nat): u32 {
    if i < |ws| then ws[i] else 0
  }

  /** All blocks of three but the last are mixed in; the last, whole or partial, is finished. */
  function Absorb(s: Abc, ws: seq<u32>): u32
    decreases ws
  {
    if |ws| > 3 then Absorb(Mix(AddAll(s, ws[0], ws[1], ws[2])), ws[3..])
    else if ws == [] then s.c
    else Final(AddAll(s, At(ws, 0), At(ws, 1), At(ws, 2))).c
  }

  /** The state every hash of an n-byte key starts from. */
  function Seeded(n: nat, initval: u32): Abc {
    var seed := Trunc(JHASH_INITVAL + n + initval);
    Abc(seed, seed, seed)
  }

  lemma AddZero(x: u32)
    ensures Add(x, 0) == x
  {
  }

  /** jhash2: hash an array of words. */
  method JHash2(k: seq<u32>, initval: u32) returns (c: u32)
    ensures c == Absorb(Seeded(4 * |k|, initval), k)
  {
    hide Mix, Final, Add;
    var seed := Trunc(JHASH_INITVAL + Trunc(4 * |k|) + initval);
    var s := Abc(seed, seed, seed);
    ghost var start := s;
    var at := 0;
    assert k[0..] == k;
    while |k| - at > 3
      invariant 0 <= at <= |k|
      invariant Absorb(start, k) == Absorb(s, k[at..])
    {
      assert k[at..][3..] == k[at + 3..];
      s := Mix(Abc(Add(s.a, k[at]), Add(s.b, k[at + 1]), Add(s.c, k[at + 2])));
      at := at + 3;
    }
    AddZero(s.b);
    AddZero(s.c);
    var length := |k| - at;
    if length == 0 {
      return s.c;
    }
    if length >= 3 {
      s := s.(c := Add(s.c, k[at + 2]));
    }
    if length >= 2 {
      s := s.(b := Add(s.b, k[at + 1]));
    }
    s := s.(a := Add(s.a, k[at]));
    c := Final(s).c;
  }

  // ----- hashing bytes

  /** Byte i of k in place, or zero beyond the end. */
  function Shifted(k: seq<byte>, i: nat, place: nat): (r: nat)
    ensures 0 <= r <= 255 * place
  {
    if i < |k| then (k[i] as int) * place else 0
  }

  /** The i-th little-endian word of k, filled up with zeros. */
  function WordAt(k: seq<byte>, i: nat): u32 {
    Shifted(k, 4 * i + 3, 0x100_0000) + Shifted(k, 4 * i + 2, 0x1_0000)
    + Shifted(k, 4 * i + 1, 0x100) + Shifted(k, 4 * i, 1)
  }

  function Words(k: seq<byte>): seq<u32> {
    seq((|k| + 3) / 4, i requires 0 <= i => WordAt(k, i))
  }

  lemma WordsShift(k: seq<byte>)
    requires |k| > 12
    ensures |Words(k)| > 3 && Words(k)[3..] == Words(k[12..])
  {
    forall i | 0 <= i < |Words(k[12..])|
      ensures WordAt(k, i + 3) == WordAt(k[12..], i)
    {
      var rest := k[12..];
      assert 4 * (i + 3) == 4 * i + 12;
      assert Shifted(k, 4 * i + 12, 1) == Shifted(rest, 4 * i, 1);
      assert Shifted(k, 4 * i + 13, 0x100) == Shifted(rest, 4 * i + 1, 0x100);
      assert Shifted(k, 4 * i + 14, 0x1_0000) == Shifted(rest, 4 * i + 2, 0x1_0000);
      assert Shifted(k, 4 * i + 15, 0x100_0000) == Shifted(rest, 4 * i + 3, 0x100_0000);
    }
  }

  lemma AddMore(x: u32, sum: nat, y: u32)
    ensures Add(Trunc(x + sum), y) == Trunc(x + (sum + y))
  {
  }

  /** One word of the last block: the cases of the switch that add to it, falling through. */
  method AddTail(x: u32, k: seq<byte>, i: nat) returns (r: u32)
    ensures r == Add(x, WordAt(k, i))
  {
    hide Shifted;
    r := AddByte(x, x, 0, k, 4 * i + 3, 0x100_0000);
    ghost var sum := Shifted(k, 4 * i + 3, 0x100_0000);
    r := AddByte(r, x, sum, k, 4 * i + 2, 0x1_0000);
    sum := sum + Shifted(k, 4 * i + 2, 0x1_0000);
    r := AddByte(r, x, sum, k, 4 * i + 1, 0x100);
    sum := sum + Shifted(k, 4 * i + 1, 0x100);
    r := AddByte(r, x, sum, k, 4 * i, 1);
  }

  method AddByte(r: u32, ghost x: u32, ghost sum: nat, k: seq<byte>, i: nat, place: nat) returns (r': u32)
    requires r == Trunc(x + sum) && place <= 0x100_0000
    ensures r' == Trunc(x + (sum + Shifted(k, i, place)))
  {
    if |k| > i {
      AddMore(x, sum, Shifted(k, i, place));
      return Add(r, (k[i] as int) * place);
    }
    return r;
  }

  /** jhash: hash any sequence of bytes. */
  method JHash(k: seq<byte>, initval: u32) returns (c: u32)
    ensures c == Absorb(Seeded(|k|, initval), Words(k))
  {
    hide Mix, Final, Add, WordAt;
    var seed := Trunc(JHASH_INITVAL + Trunc(|k|) + initval);
    var s := Abc(seed, seed, seed);
    ghost var start := s;
    var rest := k;
    while |rest| > 12
      invariant Absorb(start, Words(k)) == Absorb(s, Words(rest))
    {
      WordsShift(rest);
      s := Mix(Abc(Add(s.a, WordAt(rest, 0)), Add(s.b, WordAt(rest, 1)), Add(s.c, WordAt(rest, 2))));
      rest := rest[12..];
    }
    if rest == [] {
      return s.c;
    }
    LastWords(rest);
    var c1 := AddTail(s.c, rest, 2);
    var b1 := AddTail(s.b, rest, 1);
    var a1 := AddTail(s.a, rest, 0);
    c := Final(Abc(a1, b1, c1)).c;
  }

  lemma LastWords(k: seq<byte>)
    requires 0 < |k| <= 12
    ensures 0 < |Words(k)| <= 3 && forall i :: 0 <= i < 3 ==> At(Words(k), i) == WordAt(k, i)
  {
  }

  // ----- the forms agree

  function BytesOf(w: u32): (r: seq<byte>)
    ensures |r| == 4
  {
    var q1 := w / 0x100;
    var q2 := q1 / 0x100;
    [w % 0x100, q1 % 0x100, q2 % 0x100, q2 / 0x100]
  }

  /** Words as they lie in memory. */
  function Flat(ws: seq<u32>): (r: seq<byte>)
    ensures |r| == 4 * |ws|
  {
    if ws == [] then [] else BytesOf(ws[0]) + Flat(ws[1..])
  }

  lemma {:induction false} FlatAt(ws: seq<u32>, i: nat)
    requires i < |ws|
    ensures Flat(ws)[4 * i..4 * i + 4] == BytesOf(ws[i])
  {
    hide BytesOf;
    if i > 0 {
      FlatAt(ws[1..], i - 1);
      assert Flat(ws)[4 * i..4 * i + 4] == Flat(ws[1..])[4 * (i - 1)..4 * (i - 1) + 4];
    }
  }

  lemma BytesOfWord(k: seq<byte>, i: nat, w: u32)
    requires 4 * i + 4 <= |k| && k[4 * i..4 * i + 4] == BytesOf(w)
    ensures WordAt(k, i) == w
  {
    var b := k[4 * i..4 * i + 4];
    assert k[4 * i] == b[0] && k[4 * i + 1] == b[1] && k[4 * i + 2] == b[2] && k[4 * i + 3] == b[3];
    hide BytesOf;
    Digits(w);
  }

  lemma Digits(w: u32)
    ensures var b := BytesOf(w);
            w == (b[3] as int) * 0x100_0000 + (b[2] as int) * 0x1_0000 + (b[1] as int) * 0x100 + (b[0] as int)
  {
  }

  /** Hashing the bytes of whole words is hashing the words. */
  lemma FlatWords(ws: seq<u32>)
    ensures Words(Flat(ws)) == ws
  {
    forall i | 0 <= i < |ws|
      ensures WordAt(Flat(ws), i) == ws[i]
    {
      FlatAt(ws, i);
      BytesOfWord(Flat(ws), i, ws[i]);
    }
  }

  /** jhash on words as they lie in memory, and jhash2 on the words: the same. */
  method BothHashes(ws: seq<u32>, initval: u32) returns (bytes: u32, words: u32)
    ensures bytes == words == Absorb(Seeded(4 * |ws|, initval), ws)
  {
    FlatWords(ws);
    bytes := JHash(Flat(ws), initval);
    words := JHash2(ws, initval);
  }

  /** __jhash_nwords. */
  function NWords(a: u32, b: u32, c: u32, initval: u32): u32 {
    Final(Abc(Add(a, initval), Add(b, initval), Add(c, initval))).c
  }

  function JHash3Words(a: u32, b: u32, c: u32, initval: u32): u32 {
    NWords(a, b, c, Trunc(initval + JHASH_INITVAL + 12))
  }

  function JHash2Words(a: u32, b: u32, initval: u32): u32 {
    NWords(a, b, 0, Trunc(initval + JHASH_INITVAL + 8))
  }

  function JHash1Word(a: u32, initval: u32): u32 {
    NWords(a, 0, 0, Trunc(initval + JHASH_INITVAL + 4))
  }

  /** The forms for one, two and three words are the general one. */
  lemma FewWords(a: u32, b: u32, c: u32, initval: u32)
    ensures JHash3Words(a, b, c, initval) == Absorb(Seeded(12, initval), [a, b, c])
    ensures JHash2Words(a, b, initval) == Absorb(Seeded(8, initval), [a, b])
    ensures JHash1Word(a, initval) == Absorb(Seeded(4, initval), [a])
  {
    hide Final, Mix, Trunc, Add;
    AddSwaps(a, b, c, Trunc(JHASH_INITVAL + 12 + initval));
    AddSwaps(a, b, 0, Trunc(JHASH_INITVAL + 8 + initval));
    AddSwaps(a, 0, 0, Trunc(JHASH_INITVAL + 4 + initval));
  }

  lemma AddSwaps(a: u32, b: u32, c: u32, x: u32)
    ensures Add(a, x) == Add(x, a) && Add(b, x) == Add(x, b) && Add(c, x) == Add(x, c)
  {
  }
}
