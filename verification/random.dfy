/** `Random`: randomNumber's xorshift32 generator on its 32-bit static
    state, and the inverse that shows the step loses no information. */
module Random {

  /** The starting value of randomNumber's static state. */
  const RandomSeed: bv32 := 12023908

  /** One xorshift32 step: xor in the state shifted left 13, then right 17,
      then left 5, all on 32 bits. */
  function Xorshift32(state: bv32): bv32
  {
    var a := state ^ (state << 13);
    var b := a ^ (a >> 17);
    b ^ (b << 5)
  }

  /** The inverse step, undoing the three xor-shifts in reverse order: a
      left shift by k is undone by xoring in every multiple of k below 32,
      the right shift by 17 by one more xor. */
  function UndoXorshift32(s: bv32): bv32
  {
    var b := s ^ (s << 5) ^ (s << 10) ^ (s << 15) ^ (s << 20) ^ (s << 25) ^ (s << 30);
    var a := b ^ (b >> 17);
    a ^ (a << 13) ^ (a << 26)
  }

  /** Both functions at a given argument, stated on the expanded shifts so
      that the bit-vector identities are checked by rewriting. */
  lemma UndoAfterStep(state: bv32)
    ensures var a := state ^ (state << 13);
            var b := a ^ (a >> 17);
            var s := b ^ (b << 5);
            Xorshift32(state) == s && UndoXorshift32(s) == state
  {
  }

  lemma StepAfterUndo(s: bv32)
    ensures var b := s ^ (s << 5) ^ (s << 10) ^ (s << 15) ^ (s << 20) ^ (s << 25) ^ (s << 30);
            var a := b ^ (b >> 17);
            var state := a ^ (a << 13) ^ (a << 26);
            UndoXorshift32(s) == state && Xorshift32(state) == s
  {
  }

  /** randomNumber loses no information: the step can be undone. */
  lemma Xorshift32RoundTrip(state: bv32)
    ensures UndoXorshift32(Xorshift32(state)) == state
  {
    UndoAfterStep(state);
  }

  /** Every 32-bit state is reached by exactly one predecessor: the step is
      a bijection. */
  lemma Xorshift32Onto(s: bv32)
    ensures Xorshift32(UndoXorshift32(s)) == s
  {
    StepAfterUndo(s);
  }

  /** A non-zero state never becomes zero, so the generator never sticks. */
  lemma Xorshift32NonZero(state: bv32)
    requires state != 0
    ensures Xorshift32(state) != 0
  {
    Xorshift32RoundTrip(state);
    assert UndoXorshift32(0) == 0;
  }
}
