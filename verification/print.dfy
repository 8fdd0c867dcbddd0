/** The emulator console behind `LostGBA_PrintLn`: a context of four
    halfwords and a buffer of halfwords into which characters are packed
    two to a word, and the small format interpreter that feeds it.

    C strings are given by their bytes before the terminating NUL, so
    they hold no zero byte (`CStr`); the variadic arguments of
    `LostGBA_PrintLn` are a sequence of such strings. */
module Print {
  import opened CTypes

  /** `put` is a `u16`, so it counts modulo this. */
  const PUT_RANGE: int := 0x1_0000

  /** Halfwords of buffer that a `u16` `put` can reach (`put / 2`). */
  const BUFFER_WORDS: int := 0x8000

  const PERCENT: bv8 := 0x25   // '%'
  const LOWER_S: bv8 := 0x73   // 's'

  datatype AgbPrintContext = AgbPrintContext(request: u16, bank: u16, get: u16, put: u16)

  /** The context and the buffer it indexes. */
  datatype AgbPrint = AgbPrint(context: AgbPrintContext, buffer: seq<bv16>)

  /** The buffer covers every word a `put` can select. */
  predicate Valid(st: AgbPrint)
  {
    |st.buffer| == BUFFER_WORDS
  }

  /** `agbPrintInit`: an empty queue in bank 0xfd; the buffer is not
      touched. */
  function Init(st: AgbPrint): (r: AgbPrint)
    requires Valid(st)
    ensures Valid(r) && r.buffer == st.buffer
    ensures r.context.request == 0 && r.context.get == 0 && r.context.put == 0
    ensures r.context.bank == 0xfd
  {
    AgbPrint(AgbPrintContext(0, 0xfd, 0, 0), st.buffer)
  }

  /** `put` after `n` more characters, wrapping as a `u16` does. */
  function Advance(put: u16, n: nat): (r: u16)
    ensures r as int == (put as int + n) % PUT_RANGE
  {
    ((put as int + n) % PUT_RANGE) as u16
  }

  /** The low byte of a halfword: the character at an even position. */
  function Low(w: bv16): bv8
  {
    (w & 0xFF) as bv8
  }

  /** The high byte: the character at an odd position. */
  function High(w: bv16): bv8
  {
    (w >> 8) as bv8
  }

  /** The character at byte position `p` of the buffer. */
  function ByteAt(buffer: seq<bv16>, p: int): bv8
    requires 0 <= p < 2 * |buffer|
  {
    var w := buffer[p / 2];
    if p % 2 == 1 then High(w) else Low(w)
  }

  /** The word `agbPutChar` stores: `c` in the high byte at an odd
      position, in the low byte at an even one, the other byte kept. */
  function WithByte(w: bv16, odd: bool, c: bv8): (r: bv16)
    ensures odd ==> High(r) == c && Low(r) == Low(w)
    ensures !odd ==> Low(r) == c && High(r) == High(w)
  {
    if odd then ((c as bv16) << 8) | (w & 0xFF) else (w & 0xFF00) | (c as bv16)
  }

  /** `agbPutChar`: the character goes to position `put` and `put` moves
      on by one; every other position keeps its character. */
  function PutChar(st: AgbPrint, c: bv8): (r: AgbPrint)
    requires Valid(st)
    ensures Valid(r)
    ensures r.context == st.context.(put := Advance(st.context.put, 1))
    ensures ByteAt(r.buffer, st.context.put as int) == c
    ensures forall p | 0 <= p < PUT_RANGE && p != st.context.put as int ::
              ByteAt(r.buffer, p) == ByteAt(st.buffer, p)
  {
    var put := st.context.put as int;
    var i := put / 2;
    var w := WithByte(st.buffer[i], put % 2 == 1, c);
    AgbPrint(st.context.(put := Advance(st.context.put, 1)), st.buffer[i := w])
  }

  /** Characters put one after the other: the reference meaning of a
      run of `agbPutChar` calls. */
  function Emit(st: AgbPrint, bs: seq<bv8>): (r: AgbPrint)
    requires Valid(st)
    ensures Valid(r)
    ensures r.context == st.context.(put := Advance(st.context.put, |bs|))
    decreases |bs|
  {
    if |bs| == 0 then st
    else
      var r := Emit(PutChar(st, bs[0]), bs[1..]);
      assert (((st.context.put as int + 1) % PUT_RANGE) + (|bs| - 1)) % PUT_RANGE
             == (st.context.put as int + |bs|) % PUT_RANGE;
      r
  }

  /** Emitting a concatenation is emitting its parts in turn. */
  lemma {:induction false} EmitAppend(st: AgbPrint, x: seq<bv8>, y: seq<bv8>)
    requires Valid(st)
    ensures Emit(st, x + y) == Emit(Emit(st, x), y)
    decreases |x|
  {
    if |x| > 0 {
      assert (x + y)[0] == x[0];
      assert (x + y)[1..] == x[1..] + y;
      EmitAppend(PutChar(st, x[0]), x[1..], y);
    } else {
      assert x + y == y;
    }
  }

  /** How far position `p` lies ahead of `put`, counting round the
      `u16` range. */
  function Ahead(put: int, p: int): (d: int)
    ensures 0 <= d < PUT_RANGE
  {
    (p - put) % PUT_RANGE
  }

  /** Moving `put` on by one brings every other position one step
      nearer. */
  lemma AheadStep(put: u16, p: int)
    requires 0 <= p < PUT_RANGE && p != put as int
    ensures Ahead(Advance(put, 1) as int, p) == Ahead(put as int, p) - 1
  {
  }

  /** The position just behind `put` is the farthest ahead of it. */
  lemma AheadOfPrevious(put: u16)
    ensures Ahead(Advance(put, 1) as int, put as int) == PUT_RANGE - 1
  {
  }

  /** Zero positions after `put` is `put` itself. */
  lemma StartPosition(put: u16)
    ensures (put as int + 0) % PUT_RANGE == put as int
  {
  }

  /** Position `k - 1` after the next `put` is position `k` after this
      one. */
  lemma AdvanceShift(put: u16, k: int)
    requires k >= 1
    ensures (Advance(put, 1) as int + (k - 1)) % PUT_RANGE == (put as int + k) % PUT_RANGE
  {
  }

  /** Emitting `bs` leaves alone every position at least `|bs|` ahead of
      `put`. */
  lemma {:induction false} EmitFrame(st: AgbPrint, bs: seq<bv8>, p: int)
    requires Valid(st) && 0 <= p < PUT_RANGE
    requires Ahead(st.context.put as int, p) >= |bs|
    ensures ByteAt(Emit(st, bs).buffer, p) == ByteAt(st.buffer, p)
    decreases |bs|
  {
    if |bs| > 0 {
      var st1 := PutChar(st, bs[0]);
      AheadStep(st.context.put, p);
      EmitFrame(st1, bs[1..], p);
    }
  }

  /** The `k`th character emitted sits `k` positions after the starting
      `put`, as long as the run does not wrap onto itself. */
  lemma {:induction false} EmitReadback(st: AgbPrint, bs: seq<bv8>, k: int)
    requires Valid(st) && |bs| <= PUT_RANGE && 0 <= k < |bs|
    ensures ByteAt(Emit(st, bs).buffer, (st.context.put as int + k) % PUT_RANGE) == bs[k]
    decreases |bs|
  {
    var put := st.context.put;
    var st1 := PutChar(st, bs[0]);
    var r := Emit(st1, bs[1..]);
    assert Emit(st, bs) == r;
    if k == 0 {
      AheadOfPrevious(put);
      EmitFrame(st1, bs[1..], put as int);
      assert ByteAt(r.buffer, put as int) == bs[0];
      StartPosition(put);
    } else {
      EmitReadback(st1, bs[1..], k - 1);
      AdvanceShift(put, k);
      assert ByteAt(r.buffer, (put as int + k) % PUT_RANGE) == bs[1..][k - 1];
      assert bs[1..][k - 1] == bs[k];
    }
  }

  /** The bytes of a C string before its terminating NUL. */
  predicate CStr(s: seq<bv8>)
  {
    0 !in s
  }

  /** `agbPuts`: every character of the string, in order. */
  method Puts(st: AgbPrint, s: seq<bv8>) returns (r: AgbPrint)
    requires Valid(st) && CStr(s)
    ensures r == Emit(st, s)
  {
    r := st;
    var i := 0;
    while i < |s|
      invariant 0 <= i <= |s| && Valid(r)
      invariant Emit(r, s[i..]) == Emit(st, s)
    {
      assert s[i..][1..] == s[i + 1..];
      r := PutChar(r, s[i]);
      i := i + 1;
    }
  }

  /** How many string arguments the format consumes: one per `%s` that
      is not the tail of a `%%`. */
  function ArgsNeeded(fmt: seq<bv8>): nat
    decreases |fmt|
  {
    if |fmt| == 0 then 0
    else if fmt[0] != PERCENT then ArgsNeeded(fmt[1..])
    else if |fmt| >= 2 && fmt[1] == PERCENT then ArgsNeeded(fmt[2..])
    else if |fmt| >= 2 && fmt[1] == LOWER_S then 1 + ArgsNeeded(fmt[1..])
    else ArgsNeeded(fmt[1..])
  }

  /** The characters `LostGBA_PrintLn` emits for a format and its
      arguments. `%%` is one `%`; `%s` is the next argument, after which
      the `s` itself is read as an ordinary character; a `%` before
      anything else (the end included) is dropped and the character
      after it is read normally. */
  function Expand(fmt: seq<bv8>, args: seq<seq<bv8>>): seq<bv8>
    requires ArgsNeeded(fmt) <= |args|
    decreases |fmt|
  {
    if |fmt| == 0 then []
    else if fmt[0] != PERCENT then [fmt[0]] + Expand(fmt[1..], args)
    else if |fmt| >= 2 && fmt[1] == PERCENT then [PERCENT] + Expand(fmt[2..], args)
    else if |fmt| >= 2 && fmt[1] == LOWER_S then args[0] + Expand(fmt[1..], args[1..])
    else Expand(fmt[1..], args)
  }

  /** A format without `%` is printed as it stands and needs no
      arguments. */
  lemma {:induction false} ExpandPlain(fmt: seq<bv8>, args: seq<seq<bv8>>)
    requires forall i | 0 <= i < |fmt| :: fmt[i] != PERCENT
    ensures ArgsNeeded(fmt) == 0
    ensures Expand(fmt, args) == fmt
    decreases |fmt|
  {
    if |fmt| > 0 {
      ExpandPlain(fmt[1..], args);
    }
  }

  /** `%%` prints one percent sign. */
  lemma ExpandPercent(args: seq<seq<bv8>>)
    ensures Expand([PERCENT, PERCENT], args) == [PERCENT]
  {
  }

  /** `%s` prints the argument followed by a literal `s`. */
  lemma ExpandString(arg: seq<bv8>)
    ensures ArgsNeeded([PERCENT, LOWER_S]) == 1
    ensures Expand([PERCENT, LOWER_S], [arg]) == arg + [LOWER_S]
  {
    var tail: seq<bv8> := [LOWER_S];
    assert [PERCENT, LOWER_S][1..] == tail && tail[1..] == [];
    assert ArgsNeeded(tail) == 0 && Expand(tail, []) == tail;
    assert [arg][1..] == [] && [arg][0] == arg;
  }

  /** `%` before any other character prints only that character: the
      `%c` and `%d` of the header's documentation are not conversions. */
  lemma ExpandUnsupported(c: bv8, args: seq<seq<bv8>>)
    requires c != PERCENT && c != LOWER_S
    ensures ArgsNeeded([PERCENT, c]) == 0
    ensures Expand([PERCENT, c], args) == [c]
  {
    var tail: seq<bv8> := [c];
    assert [PERCENT, c][1..] == tail && tail[1..] == [];
    assert ArgsNeeded(tail) == 0 && Expand(tail, args) == tail;
  }

  /** A `%` that ends the format prints nothing. */
  lemma ExpandLonePercent(args: seq<seq<bv8>>)
    ensures Expand([PERCENT], args) == []
  {
  }

  /** `LostGBA_PrintLn`: resets the console, then walks the format as
      the C loop does, putting characters and argument strings. */
  method PrintLn(st: AgbPrint, fmt: seq<bv8>, args: seq<seq<bv8>>) returns (r: AgbPrint)
    requires Valid(st) && ArgsNeeded(fmt) <= |args|
    requires CStr(fmt) && forall k :: 0 <= k < |args| ==> CStr(args[k])
    ensures r == Emit(Init(st), Expand(fmt, args))
  {
    r := Init(st);
    var i := 0;
    var a := 0;
    while i < |fmt|
      invariant 0 <= i <= |fmt| && 0 <= a <= |args| && Valid(r)
      invariant ArgsNeeded(fmt[i..]) <= |args| - a
      invariant Emit(r, Expand(fmt[i..], args[a..])) == Emit(Init(st), Expand(fmt, args))
      decreases |fmt| - i
    {
      var rest, given := fmt[i..], args[a..];
      var c := fmt[i];
      i := i + 1;
      assert rest[1..] == fmt[i..];
      if c == PERCENT {
        if i < |fmt| && fmt[i] == PERCENT {
          assert rest[2..] == fmt[i + 1..];
          r := PutChar(r, PERCENT);
          i := i + 1;
        } else if i < |fmt| && fmt[i] == LOWER_S {
          assert given[1..] == args[a + 1..];
          EmitAppend(r, args[a], Expand(fmt[i..], args[a + 1..]));
          r := Puts(r, args[a]);
          a := a + 1;
        }
      } else {
        assert ([c] + Expand(fmt[i..], given))[1..] == Expand(fmt[i..], given);
        r := PutChar(r, c);
      }
    }
  }

  /** After `LostGBA_PrintLn` the console holds the expanded text from
      position 0 on, and `put` counts its characters. */
  lemma PrintLnReadback(st: AgbPrint, fmt: seq<bv8>, args: seq<seq<bv8>>, k: int)
    requires Valid(st) && ArgsNeeded(fmt) <= |args|
    requires |Expand(fmt, args)| <= PUT_RANGE && 0 <= k < |Expand(fmt, args)|
    ensures var r := Emit(Init(st), Expand(fmt, args));
            ByteAt(r.buffer, k) == Expand(fmt, args)[k] &&
            r.context.put as int == |Expand(fmt, args)| % PUT_RANGE
  {
    EmitReadback(Init(st), Expand(fmt, args), k);
  }
}
