/** The xoshiro256** generator of the melt driver (drivers/melt/src/prng.rs):
    four 64-bit words of state, a linear xor/shift/rotate transition and a
    scrambled output `rotl(s1 * 5, 7) * 9`.

    A `u64` is modelled as its 64 bits, least significant first, so that `^`,
    `|`, `<<`, `>>` and rotations are statements about single bits; the
    wrapping multiplications go through the number the bits denote. */
module Prng {
  import opened Results
  import opened Ints

  type Word = w: seq<bool> | |w| == 64 witness seq(64, _ => false)

  const ZERO_WORD: Word := FromNat(0)

  /** `a ^ b`. */
  function XorWord(a: Word, b: Word): Word
  {
    seq(64, i requires 0 <= i < 64 => a[i] != b[i])
  }

  /** `a | b`. */
  function OrWord(a: Word, b: Word): Word
  {
    seq(64, i requires 0 <= i < 64 => a[i] || b[i])
  }

  /** `a << k`: bits move up and the top `k` fall off. */
  function Shl(a: Word, k: nat): Word
    requires k < 64
  {
    seq(64, i requires 0 <= i < 64 => i >= k && a[i - k])
  }

  /** `a >> k`: bits move down and zeros come in at the top. */
  function Shr(a: Word, k: nat): Word
    requires k < 64
  {
    seq(64, i requires 0 <= i < 64 => i + k < 64 && a[i + k])
  }

  /** `n as u64`, as bits: bit `i` of `n`, for the low 64 bits. */
  function FromNat(n: nat): Word
  {
    seq(64, i requires 0 <= i < 64 => (n / Pow2(i)) % 2 == 1)
  }

  /** The number denoted by the low `n` bits of `w`. */
  function BitsValue(w: Word, n: nat): nat
    requires n <= 64
  {
    if n == 0 then 0 else BitsValue(w, n - 1) + (if w[n - 1] then Pow2(n - 1) else 0)
  }

  /** `u64::wrapping_mul(w, m)`: the product modulo 2^64. */
  function WrappingMul(w: Word, m: nat): Word
  {
    FromNat(BitsValue(w, 64) * m)
  }

  /** `rotl(x, k) = (x << k) | (x >> (64 - k))`; only `k = 7` and `k = 45`
      are used, both strictly inside (0, 64). */
  function Rotl(x: Word, k: nat): Word
    requires 0 < k < 64
  {
    OrWord(Shl(x, k), Shr(x, 64 - k))
  }

  /** `rotl` is the rotation: bit `i` comes from bit `i - k` modulo 64. */
  lemma RotlBit(x: Word, k: nat, i: nat)
    requires 0 < k < 64 && i < 64
    ensures Rotl(x, k)[i] == x[(i + 64 - k) % 64]
  {
  }

  /** Rotating by the remaining amount undoes a rotation. */
  lemma RotlInverse(x: Word, k: nat)
    requires 0 < k < 64
    ensures Rotl(Rotl(x, k), 64 - k) == x
  {
    forall i | 0 <= i < 64 ensures Rotl(Rotl(x, k), 64 - k)[i] == x[i] {
      RotlBit(Rotl(x, k), 64 - k, i);
      RotlBit(x, k, (i + k) % 64);
    }
  }

  /** `z ^ z << 17 ^ z << 34 ^ z << 51` inverts `s ^ s << 17` on 64 bits. */
  function Unshift17(z: Word): Word
  {
    XorWord(XorWord(XorWord(z, Shl(z, 17)), Shl(z, 34)), Shl(z, 51))
  }

  lemma Unshift17Inverse(s: Word)
    ensures Unshift17(XorWord(s, Shl(s, 17))) == s
  {
    var z := XorWord(s, Shl(s, 17));
    forall i | 0 <= i < 64 ensures Unshift17(z)[i] == s[i] {
      assert z[i] == (s[i] != (i >= 17 && s[i - 17]));
      if i >= 17 { assert z[i - 17] == (s[i - 17] != (i >= 34 && s[i - 34])); }
      if i >= 34 { assert z[i - 34] == (s[i - 34] != (i >= 51 && s[i - 51])); }
      if i >= 51 { assert z[i - 51] == s[i - 51]; }
    }
  }

  /** The 256-bit state `[s0, s1, s2, s3]` as a value. */
  datatype Words = Words(s0: Word, s1: Word, s2: Word, s3: Word)

  const ZERO: Words := Words(ZERO_WORD, ZERO_WORD, ZERO_WORD, ZERO_WORD)

  function Xor(a: Words, b: Words): Words
  {
    Words(XorWord(a.s0, b.s0), XorWord(a.s1, b.s1), XorWord(a.s2, b.s2), XorWord(a.s3, b.s3))
  }

  /** The number returned by `next_state`, computed from the state before the
      update: `rotl(s1.wrapping_mul(5), 7).wrapping_mul(9)`. */
  function Output(w: Words): Word
  {
    WrappingMul(Rotl(WrappingMul(w.s1, 5), 7), 9)
  }

  /** The state update of `next_state`: `t = s1 << 17` first, then the four
      xors in place, `s2 ^= t` and `s3 = rotl(s3, 45)`. */
  function Step(w: Words): Words
  {
    var t := Shl(w.s1, 17);
    var s2 := XorWord(w.s2, w.s0);
    var s3 := XorWord(w.s3, w.s1);
    var s1 := XorWord(w.s1, s2);
    var s0 := XorWord(w.s0, s3);
    Words(s0, s1, XorWord(s2, t), Rotl(s3, 45))
  }

  /** The transition run backwards: undo the rotation, recover `s0`, then
      `s1` from `s1 ^ s1 << 17`, then `s2` and `s3`. */
  function Unstep(w: Words): Words
  {
    var u := Rotl(w.s3, 19);
    var s0 := XorWord(w.s0, u);
    var v := XorWord(w.s1, s0);
    var s1 := Unshift17(XorWord(v, XorWord(w.s2, s0)));
    Words(s0, s1, XorWord(v, s1), XorWord(u, s1))
  }

  /** The transition is a bijection on states: `Unstep` undoes it. */
  lemma UnstepStep(w: Words)
    ensures Unstep(Step(w)) == w
  {
    var a := Step(w);
    RotlInverse(XorWord(w.s3, w.s1), 45);
    var u := Rotl(a.s3, 19);
    assert u == XorWord(w.s3, w.s1);
    var s0 := XorWord(a.s0, u);
    assert s0 == w.s0;
    var v := XorWord(a.s1, s0);
    assert v == XorWord(w.s1, w.s2);
    assert XorWord(v, XorWord(a.s2, s0)) == XorWord(w.s1, Shl(w.s1, 17));
    Unshift17Inverse(w.s1);
  }

  /** `Unshift17` is also a right inverse: shifting its result back in gives `z`. */
  lemma Shift17Unshift(z: Word)
    ensures XorWord(Unshift17(z), Shl(Unshift17(z), 17)) == z
  {
    var u := Unshift17(z);
    forall i | 0 <= i < 64 ensures XorWord(u, Shl(u, 17))[i] == z[i] {
      if i >= 17 {
        assert u[i - 17] == ((z[i - 17] != (i >= 34 && z[i - 34])) != (i >= 51 && z[i - 51]));
      }
    }
  }

  /** ... and `Step` undoes `Unstep`, so both are bijections. */
  lemma StepUnstep(a: Words)
    ensures Step(Unstep(a)) == a
  {
    var u := Rotl(a.s3, 19);
    var s0 := XorWord(a.s0, u);
    var v := XorWord(a.s1, s0);
    var z := XorWord(v, XorWord(a.s2, s0));
    var s1 := Unshift17(z);
    Shift17Unshift(z);
    RotlInverse(a.s3, 19);
    var w := Unstep(a);
    assert w == Words(s0, s1, XorWord(v, s1), XorWord(u, s1));
    assert XorWord(w.s2, w.s0) == XorWord(a.s1, s1);
    assert XorWord(w.s3, w.s1) == u;
    assert XorWord(XorWord(a.s1, s1), Shl(s1, 17)) == a.s2;
  }

  /** The transition is linear over GF(2). */
  lemma StepLinear(a: Words, b: Words)
    ensures Step(Xor(a, b)) == Xor(Step(a), Step(b))
  {
  }

  lemma ZeroBit(i: nat)
    requires i < 64
    ensures !ZERO_WORD[i]
  {
    assert 0 / Pow2(i) == 0;
  }

  lemma {:induction false} ZeroBitsValue(n: nat)
    requires n <= 64
    ensures BitsValue(ZERO_WORD, n) == 0
  {
    if n > 0 {
      ZeroBit(n - 1);
      ZeroBitsValue(n - 1);
    }
  }

  /** Rotations and multiplications of zero are zero. */
  lemma ZeroWordOps(k: nat, m: nat)
    requires 0 < k < 64
    ensures Rotl(ZERO_WORD, k) == ZERO_WORD && WrappingMul(ZERO_WORD, m) == ZERO_WORD
  {
    forall i | 0 <= i < 64 ensures !ZERO_WORD[i] {
      ZeroBit(i);
    }
    ZeroBitsValue(64);
    assert BitsValue(ZERO_WORD, 64) * m == 0;
  }

  lemma XorSelf(a: Words)
    ensures Xor(a, a) == ZERO
  {
    forall i | 0 <= i < 64 ensures !ZERO_WORD[i] {
      ZeroBit(i);
    }
  }

  lemma StepZero()
    ensures Step(ZERO) == ZERO
  {
    XorSelf(ZERO);
    StepLinear(ZERO, ZERO);
    XorSelf(Step(ZERO));
  }

  /** The all-zero state is a fixed point that outputs 0. */
  lemma ZeroFixedPoint()
    ensures Step(ZERO) == ZERO && Output(ZERO) == ZERO_WORD
  {
    StepZero();
    ZeroWordOps(7, 5);
    ZeroWordOps(7, 9);
  }

  /** The polynomial of `long_jump`, as four words. */
  const LONG_JUMP: seq<Word> := [
    FromNat(0x76e15d3efefdcbbf), FromNat(0xc5004e441c522fb3),
    FromNat(0x77710069854ee241), FromNat(0x39109bb02acbe635)]

  /** `long_jump` from word `j`, bit `b` on: `w` is the state reached so far
      and `acc` the xor of the states seen at the set bits before. Bit `b` of
      word `j` is `LONG_JUMP[j][b]`, which the source tests as
      `jmp_val & 1 << b != 0`. */
  function JumpFrom(w: Words, acc: Words, j: nat, b: nat): Words
    requires j <= 4 && b <= 64
    decreases 4 - j, 64 - b
  {
    if j == 4 then acc
    else if b == 64 then JumpFrom(w, acc, j + 1, 0)
    else JumpFrom(Step(w), if LONG_JUMP[j][b] then Xor(acc, w) else acc, j, b + 1)
  }

  /** The state `long_jump` leaves behind. */
  function LongJumpOf(w: Words): Words
  {
    JumpFrom(w, ZERO, 0, 0)
  }

  lemma XorZero(a: Words)
    ensures Xor(a, ZERO) == a && Xor(ZERO, ZERO) == ZERO
  {
  }

  lemma XorSwap(a: Words, b: Words, c: Words, d: Words)
    ensures Xor(Xor(a, b), Xor(c, d)) == Xor(Xor(a, c), Xor(b, d))
  {
  }

  lemma {:induction false} JumpFromLinear(a: Words, b: Words, accA: Words, accB: Words, j: nat, k: nat)
    requires j <= 4 && k <= 64
    ensures JumpFrom(Xor(a, b), Xor(accA, accB), j, k) == Xor(JumpFrom(a, accA, j, k), JumpFrom(b, accB, j, k))
    decreases 4 - j, 64 - k
  {
    if j < 4 && k == 64 {
      JumpFromLinear(a, b, accA, accB, j + 1, 0);
    } else if j < 4 {
      StepLinear(a, b);
      XorSwap(accA, accB, a, b);
      var accA' := if LONG_JUMP[j][k] then Xor(accA, a) else accA;
      var accB' := if LONG_JUMP[j][k] then Xor(accB, b) else accB;
      JumpFromLinear(Step(a), Step(b), accA', accB', j, k + 1);
    }
  }

  /** The jump is linear: jumping from `a ^ b` gives the xor of the jumps. */
  lemma LongJumpLinear(a: Words, b: Words)
    ensures LongJumpOf(Xor(a, b)) == Xor(LongJumpOf(a), LongJumpOf(b))
  {
    XorZero(a);
    JumpFromLinear(a, b, ZERO, ZERO, 0, 0);
  }

  lemma {:induction false} JumpFromStep(w: Words, acc: Words, j: nat, b: nat)
    requires j <= 4 && b <= 64
    ensures JumpFrom(Step(w), Step(acc), j, b) == Step(JumpFrom(w, acc, j, b))
    decreases 4 - j, 64 - b
  {
    if j < 4 && b == 64 {
      JumpFromStep(w, acc, j + 1, 0);
    } else if j < 4 {
      StepLinear(acc, w);
      var acc' := if LONG_JUMP[j][b] then Xor(acc, w) else acc;
      JumpFromStep(Step(w), acc', j, b + 1);
    }
  }

  /** Jumping commutes with stepping: the jumped generator produces the
      original sequence shifted by the jump distance. */
  lemma LongJumpCommutes(w: Words)
    ensures LongJumpOf(Step(w)) == Step(LongJumpOf(w))
  {
    StepZero();
    JumpFromStep(w, ZERO, 0, 0);
  }

  lemma {:induction false} JumpFromZero(j: nat, b: nat)
    requires j <= 4 && b <= 64
    ensures JumpFrom(ZERO, ZERO, j, b) == ZERO
    decreases 4 - j, 64 - b
  {
    if j < 4 && b == 64 {
      JumpFromZero(j + 1, 0);
    } else if j < 4 {
      StepZero();
      XorSelf(ZERO);
      JumpFromZero(j, b + 1);
    }
  }

  /** The all-zero state stays zero after a jump. */
  lemma LongJumpZero()
    ensures LongJumpOf(ZERO) == ZERO
  {
    JumpFromZero(0, 0);
  }

  /** `State`: the generator, with its four words in a fixed array updated in place. */
  class State {
    const s: array<Word>

    ghost predicate Valid()
      reads this
    {
      s.Length == 4
    }

    function Value(): Words
      reads this, s
      requires Valid()
    {
      Words(s[0], s[1], s[2], s[3])
    }

    /** `State::new`, with the clock reading `nanos` passed in: it is truncated
        to `u64`, spread as `[n << 3, n << 2, n << 1, n]` and then jumped. */
    constructor (nanos: nat)
      ensures Valid() && fresh(s)
      ensures var n := FromNat(nanos);
        Value() == LongJumpOf(Words(Shl(n, 3), Shl(n, 2), Shl(n, 1), n))
    {
      var n := FromNat(nanos);
      s := new Word[4] [Shl(n, 3), Shl(n, 2), Shl(n, 1), n];
      new;
      LongJump();
    }

    /** `next_state`: returns the output of the old state and applies the
        transition to the words in place. */
    method NextState() returns (result: Word)
      requires Valid()
      modifies s
      ensures Valid() && result == Output(old(Value())) && Value() == Step(old(Value()))
    {
      result := WrappingMul(Rotl(WrappingMul(s[1], 5), 7), 9);
      var t := Shl(s[1], 17);
      s[2] := XorWord(s[2], s[0]);
      s[3] := XorWord(s[3], s[1]);
      s[1] := XorWord(s[1], s[2]);
      s[0] := XorWord(s[0], s[3]);
      s[2] := XorWord(s[2], t);
      s[3] := Rotl(s[3], 45);
    }

    /** `long_jump`: 256 calls of `next_state`, xoring the state into the
        accumulator before every call whose bit is set in `LONG_JUMP`
        (`jmp_val & 1 << b != 0` tests bit `b`). */
    method LongJump()
      requires Valid()
      modifies s
      ensures Valid() && Value() == LongJumpOf(old(Value()))
    {
      ghost var target := LongJumpOf(Value());
      var acc := ZERO;
      for j := 0 to 4
        invariant JumpFrom(Value(), acc, j, 0) == target
      {
        var jmpVal := LONG_JUMP[j];
        for b := 0 to 64
          invariant JumpFrom(Value(), acc, j, b) == target
        {
          if jmpVal[b] {
            acc := Xor(acc, Value());
          }
          var _ := NextState();
        }
      }
      s[0], s[1], s[2], s[3] := acc.s0, acc.s1, acc.s2, acc.s3;
    }

    /** `Iterator::next`: the stream never ends. */
    method Next() returns (r: Option<Word>)
      requires Valid()
      modifies s
      ensures Valid() && r == Some(Output(old(Value()))) && Value() == Step(old(Value()))
    {
      var x := NextState();
      r := Some(x);
    }
  }
}
