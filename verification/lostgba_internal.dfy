/** `LostGbaInternal`: the bit-field helpers every register setter of the
    library goes through.

    The bit-vector facts below are each stated as one formula over the
    inputs (a `var` binding the computed halfword, then what holds of
    it); the solver closes those by rewriting, where chaining several
    separate facts about symbolic shift amounts does not. */
module LostGbaInternal {

  /** Bit `i` of a halfword. */
  predicate Bit(x: bv16, i: bv16)
    requires i < 16
  {
    (x >> i) & 1 == 1
  }

  /** The mask macro: `(1 << length) - 1` evaluated as a 32-bit C `int`
      and stored into a `u16`. A `length` above 30 overflows the `int`
      shift. */
  function AllOnes16(length: bv16): (m: bv16)
    requires length <= 30
    ensures length >= 16 ==> m == 0xFFFF
    ensures length < 16 ==> m + 1 == 1 << length
  {
    ((((1 as bv32) << length) - 1) & 0xFFFF) as bv16
  }

  /** The mask has exactly its low `length` bits set (all sixteen from
      16 on). */
  lemma AllOnes16Bits(length: bv16)
    requires length <= 30
    ensures forall i: bv16 :: i < 16 ==> (Bit(AllOnes16(length), i) <==> i < length)
  {
  }

  /** Bit `i` of `x << s` is bit `i - s` of `x`, and clear below `s`. */
  lemma ShiftBit(x: bv16, s: bv16, i: bv16)
    requires s < 16 && i < 16
    ensures Bit(x << s, i) <==> s <= i && Bit(x, i - s)
  {
  }

  /** The bits a call with this `length` and `shift` writes. */
  function FieldMask(length: bv16, shift: bv16): bv16
    requires length <= 30 && shift < 16
  {
    AllOnes16(length) << shift
  }

  /** The field is bits [shift, shift + length), cut off at bit 15. */
  lemma {:induction false} FieldMaskBits(length: bv16, shift: bv16)
    requires length <= 30 && shift < 16
    ensures forall i: bv16 :: i < 16 ==> (Bit(FieldMask(length, shift), i) <==> shift <= i && i - shift < length)
  {
    AllOnes16Bits(length);
    forall i: bv16 | i < 16
      ensures Bit(FieldMask(length, shift), i) <==> shift <= i && i - shift < length
    {
      ShiftBit(AllOnes16(length), shift, i);
    }
  }

  /** `LostGBA_SetBits16` on the halfword `*target` holds. C computes in
      32-bit `int` and stores the low sixteen bits back into the `u16`;
      `&`, `|`, `~` and `<<` act on the low sixteen bits independently of
      the upper ones, so computing in `bv16` gives the same halfword. A
      `shift` of 16 or more is excluded (see the README). */
  function SetBits16(target: bv16, value: bv16, length: bv16, shift: bv16): bv16
    requires length <= 30 && shift < 16
  {
    var mask := AllOnes16(length);
    (target & !(mask << shift)) | ((value & mask) << shift)
  }

  /** The documented behaviour: inside the field the result holds the
      low `length` bits of `value`, moved up by `shift`; outside it the
      target's bits are kept. */
  lemma SetBits16Field(target: bv16, value: bv16, length: bv16, shift: bv16)
    requires length <= 30 && shift < 16
    ensures var f := FieldMask(length, shift);
            var r := SetBits16(target, value, length, shift);
            r & !f == target & !f && r & f == (value & AllOnes16(length)) << shift
  {
  }

  /** Only the low `length` bits of `value` matter. */
  lemma SetBits16IgnoresHighValueBits(target: bv16, value: bv16, length: bv16, shift: bv16)
    requires length <= 30 && shift < 16
    ensures SetBits16(target, value & AllOnes16(length), length, shift) == SetBits16(target, value, length, shift)
  {
  }

  /** The merge written out once, and writing the same value over it. */
  lemma MergeTwice(t: bv16, v: bv16, l: bv16, s: bv16)
    requires l <= 30 && s < 16
    ensures var m := AllOnes16(l);
            var once := (t & !(m << s)) | ((v & m) << s);
            SetBits16(t, v, l, s) == once && SetBits16(once, v, l, s) == once
  {
  }

  /** Setting a field twice to the same value is setting it once. */
  lemma SetBits16Idempotent(target: bv16, value: bv16, length: bv16, shift: bv16)
    requires length <= 30 && shift < 16
    ensures var once := SetBits16(target, value, length, shift);
            SetBits16(once, value, length, shift) == once
  {
    MergeTwice(target, value, length, shift);
  }

  /** The merge written out once, and writing a second value over it. */
  lemma MergeOver(t: bv16, v1: bv16, v2: bv16, l: bv16, s: bv16)
    requires l <= 30 && s < 16
    ensures var m := AllOnes16(l);
            var once := (t & !(m << s)) | ((v1 & m) << s);
            SetBits16(t, v1, l, s) == once && SetBits16(once, v2, l, s) == (t & !(m << s)) | ((v2 & m) << s)
  {
  }

  /** Of two writes to the same field, the last one wins. */
  lemma SetBits16LastWins(target: bv16, v1: bv16, v2: bv16, length: bv16, shift: bv16)
    requires length <= 30 && shift < 16
    ensures SetBits16(SetBits16(target, v1, length, shift), v2, length, shift) == SetBits16(target, v2, length, shift)
  {
    MergeOver(target, v1, v2, length, shift);
  }

  /** `LostGBA_SetVBits16`: the same computation on a `volatile`
      target. */
  function SetVBits16(target: bv16, value: bv16, length: bv16, shift: bv16): bv16
    requires length <= 30 && shift < 16
  {
    var mask := AllOnes16(length);
    (target & !(mask << shift)) | ((value & mask) << shift)
  }

  /** The volatile variant writes the same field as `SetBits16` and
      keeps the rest. */
  lemma SetVBits16Field(target: bv16, value: bv16, length: bv16, shift: bv16)
    requires length <= 30 && shift < 16
    ensures var f := FieldMask(length, shift);
            var r := SetVBits16(target, value, length, shift);
            r == SetBits16(target, value, length, shift) &&
            r & !f == target & !f && r & f == (value & AllOnes16(length)) << shift
  {
  }
}

/** The dispatch of `LostGBA_VMemCpy32` over its two copy routines, and
    what the copy does to the target bytes. */
module MemCopy {
  import opened CTypes

  /** Which routine a copy of `length` bytes goes to. */
  datatype Routine =
    | NoCopy
    | Words(words: int)        // the 32-bit routine, with a word count
    | Halfwords(bytes: int)    // the 16-bit routine, with a byte count

  /** `LostGBA_VMemCpy32`'s choice, with C's `%` and `/` on `int`: nothing
      for 0 bytes, whole words when the length is a multiple of four,
      the halfword routine otherwise. */
  function Dispatch(length: int): (r: Routine)
    ensures r.NoCopy? <==> length == 0
    ensures r.Words? <==> length != 0 && length % 4 == 0
    ensures r.Words? ==> r.words * 4 == length
    ensures r.Halfwords? ==> r.bytes == length
  {
    if length == 0 then NoCopy
    else if CRem(length, 4) == 0 then Words(CDiv(length, 4))
    else Halfwords(length)
  }

  /** The bytes a routine covers. */
  function ByteCount(r: Routine): int
  {
    match r
    case NoCopy => 0
    case Words(w) => 4 * w
    case Halfwords(n) => n
  }

  /** Whatever the routine, it covers exactly the requested bytes. */
  lemma DispatchCoversLength(length: int)
    ensures ByteCount(Dispatch(length)) == length
  {
  }

  /** Copying `count` bytes from `src` over the start of `target`, one
      at a time. */
  method CopyBytes(target: seq<bv8>, src: seq<bv8>, count: nat) returns (r: seq<bv8>)
    requires count <= |target| && count <= |src|
    ensures |r| == |target|
    ensures r[..count] == src[..count]
    ensures r[count..] == target[count..]
  {
    r := target;
    var i := 0;
    while i < count
      invariant 0 <= i <= count
      invariant |r| == |target|
      invariant r[..i] == src[..i]
      invariant r[i..] == target[i..]
    {
      r := r[i := src[i]];
      assert r[..i + 1] == src[..i + 1] by {
        assert r[..i + 1] == r[..i] + [src[i]];
      }
      i := i + 1;
    }
  }

  /** `LostGBA_VMemCpy32` on byte sequences: the routine chosen by
      `Dispatch` copies the requested bytes and nothing beyond them. */
  method VMemCpy32(target: seq<bv8>, src: seq<bv8>, length: int) returns (r: seq<bv8>)
    requires 0 <= length <= |target| && length <= |src|
    ensures |r| == |target|
    ensures r[..length] == src[..length]
    ensures r[length..] == target[length..]
  {
    match Dispatch(length)
    case NoCopy =>
      r := target;
    case Words(w) =>
      r := CopyBytes(target, src, 4 * w);
    case Halfwords(n) =>
      r := CopyBytes(target, src, n);
  }
}
