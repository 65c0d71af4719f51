/**
 * Bob Jenkins' small noncryptographic PRNG: a state of four 32-bit words,
 * advanced by one round of rotations, xor and wrapping additions.
 *
 * A uint32 is an integer in [0, 2^32). Addition and subtraction wrap modulo
 * 2^32; shifts, or and xor act on the word's 32 bits, taken least
 * significant first.
 */
module Rand {
  const Word: int := 0x1_0000_0000

  /** A uint32. */
  type u32 = x: int | 0 <= x < 0x1_0000_0000

  // ---------------------------------------------------------------------------
  // Words and their bits

  function Pow2(n: nat): (p: nat)
    ensures p >= 1
  {
    if n == 0 then 1 else 2 * Pow2(n - 1)
  }

  lemma {:induction false} Pow2Add(m: nat, n: nat)
    ensures Pow2(m + n) == Pow2(m) * Pow2(n)
  {
    if m > 0 {
      Pow2Add(m - 1, n);
      assert Pow2(m + n) == 2 * Pow2(m - 1 + n);
    }
  }

  lemma Pow2Word()
    ensures Pow2(32) == Word
  {
    assert Pow2(4) == 16;
    Pow2Add(4, 4);
    Pow2Add(8, 8);
    Pow2Add(16, 16);
  }

  /** The n low bits of x, least significant first. */
  function Bits(x: nat, n: nat): (s: seq<bool>)
    ensures |s| == n
  {
    if n == 0 then [] else [x % 2 == 1] + Bits(x / 2, n - 1)
  }

  /** The number whose bits, least significant first, are s. */
  function FromBits(s: seq<bool>): (x: nat)
    ensures x < Pow2(|s|)
  {
    if s == [] then 0 else (if s[0] then 1 else 0) + 2 * FromBits(s[1..])
  }

  /** Reading the bits of x back gives x. */
  lemma {:induction false} FromBitsBits(x: nat, n: nat)
    requires x < Pow2(n)
    ensures FromBits(Bits(x, n)) == x
  {
    if n > 0 {
      FromBitsBits(x / 2, n - 1);
      assert Bits(x, n)[1..] == Bits(x / 2, n - 1);
    }
  }

  /** Taking the bits of a number built from s gives s back. */
  lemma {:induction false} BitsFromBits(s: seq<bool>)
    ensures Bits(FromBits(s), |s|) == s
  {
    if s != [] {
      BitsFromBits(s[1..]);
      var x := FromBits(s);
      assert x % 2 == 1 <==> s[0];
      assert x / 2 == FromBits(s[1..]);
    }
  }

  /** The 32 bits of a word. */
  function B(x: u32): (s: seq<bool>)
    ensures |s| == 32
  {
    Bits(x, 32)
  }

  /** The word with bits s. */
  function Lift(s: seq<bool>): u32
    requires |s| == 32
  {
    Pow2Word();
    FromBits(s)
  }

  lemma LiftB(x: u32)
    ensures Lift(B(x)) == x
  {
    Pow2Word();
    FromBitsBits(x, 32);
  }

  lemma BLift(s: seq<bool>)
    requires |s| == 32
    ensures B(Lift(s)) == s
  {
    BitsFromBits(s);
  }

  /** x << k on a uint32: bits move k places up, the top k fall off. */
  function Shl(x: u32, k: nat): u32
    requires k < 32
  {
    Lift(seq(32, i requires 0 <= i < 32 => i >= k && B(x)[i - k]))
  }

  /** x >> k on a uint32: bits move k places down, zeros come in on top. */
  function Shr(x: u32, k: nat): u32
    requires k < 32
  {
    Lift(seq(32, i requires 0 <= i < 32 => i + k < 32 && B(x)[i + k]))
  }

  function Or(x: u32, y: u32): u32 {
    Lift(seq(32, i requires 0 <= i < 32 => B(x)[i] || B(y)[i]))
  }

  function Xor(x: u32, y: u32): u32 {
    Lift(seq(32, i requires 0 <= i < 32 => B(x)[i] != B(y)[i]))
  }

  /** Left rotation by k: the top k bits come round to the bottom. */
  function RotateLeft(x: u32, k: nat): u32
    requires k < 32
  {
    Lift(B(x)[32 - k..] + B(x)[..32 - k])
  }

  /** Right rotation by k: the bottom k bits come round to the top. */
  function RotateRight(x: u32, k: nat): u32
    requires k < 32
  {
    Lift(B(x)[k..] + B(x)[..k])
  }

  /** Wrapping addition and subtraction: the exact result, wrapped at most once. */
  function Add(x: u32, y: u32): (r: u32)
    ensures r == x + y || r == x + y - Word
  {
    (x + y) % Word
  }

  function Sub(x: u32, y: u32): (r: u32)
    ensures r == x - y || r == x - y + Word
  {
    (x - y) % Word
  }

  /** The shift-and-or form of the Go code is a left rotation. */
  lemma ShiftOrIsRotation(x: u32, k: nat)
    requires 0 < k < 32
    ensures Or(Shl(x, k), Shr(x, 32 - k)) == RotateLeft(x, k)
  {
    var b := B(x);
    var hi := seq(32, i requires 0 <= i < 32 => i >= k && b[i - k]);
    var lo := seq(32, i requires 0 <= i < 32 => i + (32 - k) < 32 && b[i + (32 - k)]);
    BLift(hi);
    BLift(lo);
    var rot := b[32 - k..] + b[..32 - k];
    assert seq(32, i requires 0 <= i < 32 => B(Lift(hi))[i] || B(Lift(lo))[i]) == rot;
  }

  /** A rotation loses no bits: rotating back by the same amount restores the word. */
  lemma RotationLosesNoBits(x: u32, k: nat)
    requires k < 32
    ensures RotateRight(RotateLeft(x, k), k) == x
    ensures RotateLeft(RotateRight(x, k), k) == x
  {
    var b := B(x);
    var l := b[32 - k..] + b[..32 - k];
    var r := b[k..] + b[..k];
    BLift(l);
    BLift(r);
    assert l[k..] + l[..k] == b;
    assert r[32 - k..] + r[..32 - k] == b;
    LiftB(x);
  }

  /** Wrapping subtraction undoes wrapping addition, and the other way round. */
  lemma AddSubCancel(x: u32, y: u32)
    ensures Sub(Add(x, y), y) == x
    ensures Add(Sub(x, y), y) == x
  {
  }

  /** Xor with the same word twice is the identity. */
  lemma XorTwice(x: u32, y: u32)
    ensures Xor(Xor(x, y), y) == x
  {
    var s := seq(32, i requires 0 <= i < 32 => B(x)[i] != B(y)[i]);
    BLift(s);
    assert seq(32, i requires 0 <= i < 32 => B(Lift(s))[i] != B(y)[i]) == B(x);
    LiftB(x);
  }

  // ---------------------------------------------------------------------------
  // The generator

  /** The constant newRand puts in the first word. */
  const Seed0: u32 := 0xf1ea5eed

  /** The four words of a generator. */
  datatype State = State(a: u32, b: u32, c: u32, d: u32)

  /** The state newRand(seed) starts from, before its three warm-up rounds. */
  function Start(seed: u32): (s: State)
    ensures s.a == Seed0 && s.b == seed && s.c == seed && s.d == seed
  {
    State(Seed0, seed, seed, seed)
  }

  /** The word next subtracts the rotated b from. */
  function E(s: State): u32 {
    Sub(s.a, Or(Shl(s.b, 27), Shr(s.b, 32 - 27)))
  }

  /** One call of next, as the Go code writes it. */
  function Round(s: State): State {
    var a := Xor(s.b, Or(Shl(s.c, 17), Shr(s.c, 32 - 17)));
    State(a, Add(s.c, s.d), Add(s.d, E(s)), Add(E(s), a))
  }

  /**
   * The round in terms of rotations: with e == a - rotl(b, 27), the new a is
   * b ^ rotl(c, 17), and the new d is e plus the NEW a.
   */
  lemma RoundByRotations(s: State)
    ensures E(s) == Sub(s.a, RotateLeft(s.b, 27))
    ensures Round(s).a == Xor(s.b, RotateLeft(s.c, 17))
    ensures Round(s).b == Add(s.c, s.d)
    ensures Round(s).c == Add(s.d, E(s))
    ensures Round(s).d == Add(E(s), Round(s).a)
  {
    ShiftOrIsRotation(s.b, 27);
    ShiftOrIsRotation(s.c, 17);
  }

  /** The round run backwards. */
  function Unround(r: State): State {
    var e := Sub(r.d, r.a);
    var d := Sub(r.c, e);
    var c := Sub(r.b, d);
    var b := Xor(r.a, RotateLeft(c, 17));
    State(Add(e, RotateLeft(b, 27)), b, c, d)
  }

  /** Unround undoes a round: no two states share a successor. */
  lemma UnroundRound(s: State)
    ensures Unround(Round(s)) == s
  {
    RoundByRotations(s);
    var r := Round(s);
    var e := E(s);
    AddSubCancel(e, r.a);
    AddSubCancel(s.d, e);
    AddSubCancel(s.c, s.d);
    XorTwice(s.b, RotateLeft(s.c, 17));
    AddSubCancel(s.a, RotateLeft(s.b, 27));
    assert Unround(r) == State(Add(e, RotateLeft(s.b, 27)), s.b, s.c, s.d);
  }

  /** A round undoes Unround: every state has a predecessor. */
  lemma RoundUnround(r: State)
    ensures Round(Unround(r)) == r
  {
    var s := Unround(r);
    var e := Sub(r.d, r.a);
    RoundByRotations(s);
    AddSubCancel(e, RotateLeft(s.b, 27));
    assert E(s) == e;
    XorTwice(r.a, RotateLeft(s.c, 17));
    AddSubCancel(r.b, s.d);
    AddSubCancel(r.c, e);
    AddSubCancel(r.d, r.a);
    assert Round(s) == State(r.a, r.b, r.c, r.d);
  }

  // Iterating a step. The lemmas here hold for any step function, so their
  // proofs never look inside a round.

  /** The state after n steps from s. */
  function Iterate(step: State -> State, s: State, n: nat): State
    decreases n
  {
    if n == 0 then s else step(Iterate(step, s, n - 1))
  }

  /** The d words after each of n steps from s: what n calls of next return. */
  function Outputs(step: State -> State, s: State, n: nat): (xs: seq<u32>)
    ensures |xs| == n
    decreases n
  {
    if n == 0 then [] else [step(s).d] + Outputs(step, step(s), n - 1)
  }

  /** One step and then n more are n + 1 steps. */
  lemma {:induction false} IterateFirst(step: State -> State, s: State, n: nat)
    ensures Iterate(step, step(s), n) == Iterate(step, s, n + 1)
    decreases n
  {
    if n > 0 {
      IterateFirst(step, s, n - 1);
    }
  }

  /** The i-th output is the d word after i + 1 steps. */
  lemma {:induction false} OutputIsIterateD(step: State -> State, s: State, n: nat, i: nat)
    requires i < n
    ensures Outputs(step, s, n)[i] == Iterate(step, s, i + 1).d
    decreases n
  {
    if i > 0 {
      OutputIsIterateD(step, step(s), n - 1, i - 1);
      IterateFirst(step, s, i);
    }
  }

  /** One more step appends the d word of the state it reaches. */
  lemma {:induction false} OutputsSnoc(step: State -> State, s: State, n: nat)
    ensures Outputs(step, s, n + 1) == Outputs(step, s, n) + [Iterate(step, s, n + 1).d]
    decreases n
  {
    if n > 0 {
      OutputsSnoc(step, step(s), n - 1);
      IterateFirst(step, s, n);
      assert Outputs(step, s, n + 1) == [step(s).d] + Outputs(step, step(s), n);
    }
  }

  /** The state after n rounds. */
  function Rounds(s: State, n: nat): State {
    Iterate(Round, s, n)
  }

  /** The state newRand(seed) returns: three rounds after Start(seed). */
  function Seeded(seed: u32): State {
    Rounds(Start(seed), 3)
  }

  /** The outputs of n successive calls of next from s. */
  function Stream(s: State, n: nat): (xs: seq<u32>)
    ensures |xs| == n
  {
    Outputs(Round, s, n)
  }

  /** A generator: randctx. */
  class RandCtx {
    var a: u32
    var b: u32
    var c: u32
    var d: u32

    function Value(): State
      reads this
    {
      State(a, b, c, d)
    }

    /** newRand(seed): start from Start(seed) and discard three outputs. */
    constructor (seed: u32)
      ensures Value() == Seeded(seed)
    {
      a, b, c, d := Seed0, seed, seed, seed;
      new;
      for i := 0 to 3
        invariant Value() == Rounds(Start(seed), i)
      {
        var _ := Next();
      }
    }

    /** next(): advance one round and return the new d. */
    method Next() returns (x: u32)
      modifies this
      ensures Value() == Round(old(Value()))
      ensures x == d
    {
      var e := Sub(a, Or(Shl(b, 27), Shr(b, 32 - 27)));
      a := Xor(b, Or(Shl(c, 17), Shr(c, 32 - 17)));
      b := Add(c, d);
      c := Add(d, e);
      d := Add(e, a);
      x := d;
    }

    /** n calls of next: the outputs are Stream of the starting state. */
    method Take(n: nat) returns (xs: seq<u32>)
      modifies this
      ensures xs == Stream(old(Value()), n)
      ensures Value() == Rounds(old(Value()), n)
    {
      ghost var s := Value();
      xs := [];
      for i := 0 to n
        invariant Value() == Rounds(s, i)
        invariant xs == Stream(s, i)
      {
        var x := Next();
        OutputsSnoc(Round, s, i);
        xs := xs + [x];
      }
    }
  }

  /** Two generators seeded alike produce the same state and the same outputs. */
  method SameSeedSameStream(seed: u32, n: nat) returns (xs: seq<u32>, ys: seq<u32>)
    ensures xs == ys == Stream(Seeded(seed), n)
  {
    var g := new RandCtx(seed);
    var h := new RandCtx(seed);
    xs := g.Take(n);
    ys := h.Take(n);
  }
}
