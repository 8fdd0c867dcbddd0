/** `ConfigReader`: the settings pngtogba reads from the comment block at
    the top of an image's header file (TILESIZE=, PREFIX=, TRANSPARENT=),
    and the file names it derives from the image name. */
module ConfigReader {
  import opened CTypes
  import Image

  /** The range of a 64-bit C `long`, to which `strtol` saturates. */
  const LONG_MAX: int := 0x7FFF_FFFF_FFFF_FFFF
  const LONG_MIN: int := -0x8000_0000_0000_0000

  /** BUFFER_SIZE: one byte of the read buffer is kept for the terminator. */
  const BufferSize: nat := 256

  const TileSizeKey: string := "TILESIZE="
  const PrefixKey: string := "PREFIX="
  const TransparentKey: string := "TRANSPARENT="

  // ---------------------------------------------------------------------
  // Character classes (the C locale)
  // ---------------------------------------------------------------------

  /** `isspace`: blank, tab, newline, vertical tab, form feed, return. */
  predicate IsSpace(c: char)
  {
    c == ' ' || 9 <= c as int <= 13
  }

  /** `isalnum`: an ASCII letter or decimal digit. */
  predicate IsAlnum(c: char)
  {
    ('0' <= c <= '9') || ('a' <= c <= 'z') || ('A' <= c <= 'Z')
  }

  /** The value of `c` as a digit in any base up to 16; 16 for anything
      that is not a digit in base 16. */
  function DigitOf(c: char): (d: nat)
    ensures d <= 16
  {
    if '0' <= c <= '9' then c as int - '0' as int
    else if 'a' <= c <= 'f' then c as int - 'a' as int + 10
    else if 'A' <= c <= 'F' then c as int - 'A' as int + 10
    else 16
  }

  /** The lower-case digit character for `d`. */
  function DigitChar(d: nat): (c: char)
    requires d < 16
    ensures DigitOf(c) == d
  {
    "0123456789abcdef"[d]
  }

  /** The length of the longest prefix of `s` whose characters all
      satisfy `p`. */
  function Span(s: string, p: char -> bool): (n: nat)
    ensures n <= |s|
    ensures forall k :: 0 <= k < n ==> p(s[k])
    ensures n < |s| ==> !p(s[n])
  {
    if |s| == 0 || !p(s[0]) then 0 else 1 + Span(s[1..], p)
  }

  /** A maximal run: once every character of `a` satisfies `p` and the
      text after it does not start with one, the span is exactly `a`. */
  lemma {:induction false} SpanOfRun(a: string, rest: string, p: char -> bool)
    requires forall k :: 0 <= k < |a| ==> p(a[k])
    requires |rest| == 0 || !p(rest[0])
    ensures Span(a + rest, p) == |a|
  {
    if |a| > 0 {
      assert (a + rest)[1..] == a[1..] + rest;
      SpanOfRun(a[1..], rest, p);
    }
  }

  // ---------------------------------------------------------------------
  // strtol
  // ---------------------------------------------------------------------

  predicate AllDigits(s: string, base: nat)
  {
    forall k :: 0 <= k < |s| ==> DigitOf(s[k]) < base
  }

  /** The number a run of digits denotes, most significant first. */
  function Value(s: string, base: nat): nat
    requires AllDigits(s, base)
  {
    if |s| == 0 then 0 else Value(s[..|s| - 1], base) * base + DigitOf(s[|s| - 1])
  }

  /** The `0x` or `0X` that base 16 allows before the digits; it counts
      only when a hex digit follows it. */
  predicate HasHexPrefix(s: string)
  {
    |s| > 2 && s[0] == '0' && (s[1] == 'x' || s[1] == 'X') && DigitOf(s[2]) < 16
  }

  /** A long value clamped to the range of `long`, as strtol clamps on
      overflow. */
  function Saturate(x: int): (v: int)
    ensures LONG_MIN <= v <= LONG_MAX
    ensures LONG_MIN <= x <= LONG_MAX ==> v == x
    ensures x > LONG_MAX ==> v == LONG_MAX
    ensures x < LONG_MIN ==> v == LONG_MIN
  {
    if x > LONG_MAX then LONG_MAX else if x < LONG_MIN then LONG_MIN else x
  }

  /** The number at the start of `s` once white space and sign are gone:
      in base 16 an optional `0x`, then the longest run of digits; no
      digits gives 0. */
  function UnsignedValue(s: string, base: nat): nat
    requires base == 10 || base == 16
  {
    var digits := if base == 16 && HasHexPrefix(s) then s[2..] else s;
    Value(digits[..Span(digits, c => DigitOf(c) < base)], base)
  }

  /** `strtol(s, &end, base)` for the bases 10 and 16: leading white space,
      an optional sign, then the unsigned number, clamped to `long`. */
  function Strtol(s: string, base: nat): (v: int)
    requires base == 10 || base == 16
    ensures LONG_MIN <= v <= LONG_MAX
  {
    var unsigned := s[Span(s, IsSpace)..];
    var negative := |unsigned| > 0 && unsigned[0] == '-';
    var signless := if |unsigned| > 0 && (unsigned[0] == '-' || unsigned[0] == '+') then unsigned[1..] else unsigned;
    var m: int := UnsignedValue(signless, base);
    Saturate(if negative then -m else m)
  }

  /** The numeral of `n` in `base`, lower case, without leading zeros. */
  function Numeral(n: nat, base: nat): (s: string)
    requires base == 10 || base == 16
    ensures |s| > 0 && AllDigits(s, base)
    ensures n < base <==> |s| == 1
    ensures n == 0 ==> s == "0"
    ensures n > 0 ==> s[0] != '0'
  {
    if n < base then [DigitChar(n)] else Numeral(n / base, base) + [DigitChar(n % base)]
  }

  lemma DivMod(n: nat, b: nat)
    requires b > 0
    ensures n == (n / b) * b + n % b
    ensures 0 <= n / b && 0 <= n % b < b
  {
  }

  /** One more digit after a numeral of value `q` reads as `q * base`
      plus that digit. */
  lemma ValueStep(a: string, c: char, base: nat, q: nat, n: nat)
    requires AllDigits(a, base) && DigitOf(c) < base
    requires Value(a, base) == q && n == q * base + DigitOf(c)
    ensures AllDigits(a + [c], base) && Value(a + [c], base) == n
  {
    ValueAppend(a, c, base);
  }

  /** Appending a digit shifts the value up by one place. */
  lemma ValueAppend(a: string, c: char, base: nat)
    requires AllDigits(a, base) && DigitOf(c) < base
    ensures AllDigits(a + [c], base)
    ensures Value(a + [c], base) == Value(a, base) * base + DigitOf(c)
  {
    assert (a + [c])[..|a|] == a;
  }

  /** Reading a numeral gives back its number. */
  lemma {:induction false} ValueOfNumeral(n: nat, base: nat)
    requires base == 10 || base == 16
    ensures Value(Numeral(n, base), base) == n
  {
    if n >= base {
      DivMod(n, base);
      var q: nat, r: nat := n / base, n % base;
      var a := Numeral(q, base);
      assert Numeral(n, base) == a + [DigitChar(r)];
      ValueOfNumeral(q, base);
      ValueStep(a, DigitChar(r), base, q, n);
    }
  }

  /** The unsigned reading of a numeral, whatever follows it, as long as
      that does not extend the numeral: it does not start with a digit,
      nor (for the numeral "0" in base 16) with the x of a `0x`. */
  lemma UnsignedValueOfNumeral(n: nat, base: nat, rest: string)
    requires base == 10 || base == 16
    requires |rest| == 0 || DigitOf(rest[0]) >= base
    requires base == 16 && n == 0 && |rest| > 0 ==> rest[0] != 'x' && rest[0] != 'X'
    ensures UnsignedValue(Numeral(n, base) + rest, base) == n
  {
    var a := Numeral(n, base);
    var s := a + rest;
    assert base == 16 ==> !HasHexPrefix(s) by {
      assert s[0] == a[0];
      if |a| == 1 && |s| > 1 {
        assert s[1] == rest[0];
      }
    }
    var p := c => DigitOf(c) < base;
    assert forall k :: 0 <= k < |a| ==> p(a[k]);
    SpanOfRun(a, rest, p);
    assert s[..|a|] == a;
    ValueOfNumeral(n, base);
  }

  /** strtol reads back any numeral up to LONG_MAX that nothing extends. */
  lemma StrtolNumeral(n: nat, base: nat, rest: string)
    requires base == 10 || base == 16
    requires n <= LONG_MAX
    requires |rest| == 0 || DigitOf(rest[0]) >= base
    requires base == 16 && n == 0 && |rest| > 0 ==> rest[0] != 'x' && rest[0] != 'X'
    ensures Strtol(Numeral(n, base) + rest, base) == n
  {
    var s := Numeral(n, base) + rest;
    assert s[0] == Numeral(n, base)[0];
    assert Span(s, IsSpace) == 0;
    assert s[0..] == s;
    UnsignedValueOfNumeral(n, base, rest);
  }

  /** White space before the number is skipped. */
  lemma StrtolSkipsSpace(c: char, s: string, base: nat)
    requires base == 10 || base == 16
    requires IsSpace(c)
    ensures Strtol([c] + s, base) == Strtol(s, base)
  {
    assert ([c] + s)[1..] == s;
    assert Span([c] + s, IsSpace) == 1 + Span(s, IsSpace);
    assert ([c] + s)[1 + Span(s, IsSpace)..] == s[Span(s, IsSpace)..];
  }

  /** After a sign, strtol reads the unsigned number, negated for '-'. */
  lemma StrtolSigned(sign: char, t: string, base: nat)
    requires base == 10 || base == 16
    requires sign == '-' || sign == '+'
    ensures var m: int := UnsignedValue(t, base);
            Strtol([sign] + t, base) == Saturate(if sign == '-' then -m else m)
  {
    var s := [sign] + t;
    assert Span(s, IsSpace) == 0;
    assert s[0..] == s;
    assert s[1..] == t;
  }

  /** A minus sign negates the number that follows. */
  lemma StrtolNegative(n: nat, base: nat, rest: string)
    requires base == 10 || base == 16
    requires n <= LONG_MAX
    requires |rest| == 0 || DigitOf(rest[0]) >= base
    requires base == 16 && n == 0 && |rest| > 0 ==> rest[0] != 'x' && rest[0] != 'X'
    ensures Strtol("-" + Numeral(n, base) + rest, base) == -(n as int)
  {
    assert "-" + Numeral(n, base) + rest == ['-'] + (Numeral(n, base) + rest);
    StrtolSigned('-', Numeral(n, base) + rest, base);
    UnsignedValueOfNumeral(n, base, rest);
  }

  // ---------------------------------------------------------------------
  // The two value parsers
  // ---------------------------------------------------------------------

  /** parseTileSize: the decimal value, or -1 when it is not positive or
      not below INT32_MAX (no digits reads as 0). */
  function ParseTileSize(s: string): (size: int)
    ensures size == -1 || 0 < size < INT32_MAX
    ensures size != -1 ==> size == Strtol(s, 10)
  {
    var v := Strtol(s, 10);
    if v <= 0 || v >= INT32_MAX then -1 else v
  }

  /** A written tile size is read back when it is in range and rejected
      otherwise. */
  lemma ParseTileSizeNumeral(n: nat, rest: string)
    requires n <= LONG_MAX
    requires |rest| == 0 || DigitOf(rest[0]) >= 10
    ensures ParseTileSize(Numeral(n, 10) + rest) == (if 0 < n < INT32_MAX then n else -1)
  {
    StrtolNumeral(n, 10, rest);
  }

  /** The colour a hex value `rrggbb` names: bits 16-23 red, 8-15 green,
      0-7 blue, with alpha zero. */
  function HexColour(v: nat): (c: Image.Colour)
    ensures c.a == 0
  {
    var r, g, b := (v / 0x1_0000) % 256, (v / 0x100) % 256, v % 256;
    Image.Colour(r as bv8, g as bv8, b as bv8, 0)
  }

  /** parseColour: a negative hex value gives INVALID_COLOUR, anything else
      the rgb15 of its three colour bytes. INVALID_COLOUR's value is not
      part of this model, so it is a parameter. */
  function ParseColour(s: string, invalidColour: bv16): (colour: bv16)
    ensures Strtol(s, 16) < 0 ==> colour == invalidColour
    ensures Strtol(s, 16) >= 0 ==> colour < 0x8000
  {
    var v := Strtol(s, 16);
    if v < 0 then invalidColour else Image.Rgb15(HexColour(v))
  }

  /** A colour written as a hex numeral comes back as its three channels,
      each cut to the five bits rgb15 keeps. */
  lemma ParseColourNumeral(n: nat, rest: string, invalidColour: bv16)
    requires n <= LONG_MAX
    requires |rest| == 0 || DigitOf(rest[0]) >= 16
    requires n == 0 && |rest| > 0 ==> rest[0] != 'x' && rest[0] != 'X'
    ensures var c := HexColour(n);
            Image.Unpack(ParseColour(Numeral(n, 16) + rest, invalidColour))
              == Image.Fields(Image.Reduce(c.r), Image.Reduce(c.g), Image.Reduce(c.b))
  {
    StrtolNumeral(n, 16, rest);
    Image.UnpackRgb15(HexColour(n));
  }

  // ---------------------------------------------------------------------
  // Scanning the buffer
  // ---------------------------------------------------------------------

  predicate OccursAt(text: string, key: string, i: nat)
  {
    i + |key| <= |text| && text[i..i + |key|] == key
  }

  /** `strstr` from position `i`: the first position at or after `i` where
      `key` occurs. */
  function FindFrom(text: string, key: string, i: nat): (r: Option<nat>)
    requires i <= |text|
    ensures r.Some? ==> i <= r.value && OccursAt(text, key, r.value)
    ensures r.Some? ==> forall j :: i <= j < r.value ==> !OccursAt(text, key, j)
    ensures r.None? ==> forall j :: i <= j <= |text| ==> !OccursAt(text, key, j)
    decreases |text| - i
  {
    if OccursAt(text, key, i) then Some(i)
    else if i == |text| then None
    else FindFrom(text, key, i + 1)
  }

  /** `strstr(text, key)`: the first occurrence of `key`. */
  function Find(text: string, key: string): (r: Option<nat>)
    ensures r.Some? ==> OccursAt(text, key, r.value)
    ensures r.Some? ==> forall j :: 0 <= j < r.value ==> !OccursAt(text, key, j)
    ensures r.None? ==> forall j :: 0 <= j <= |text| ==> !OccursAt(text, key, j)
  {
    FindFrom(text, key, 0)
  }

  /** The C string held in a buffer: everything before the first NUL. */
  function CString(s: string): (t: string)
    ensures t <= s
    ensures '\0' !in t
    ensures |t| < |s| ==> s[|t|] == '\0'
  {
    if |s| == 0 || s[0] == '\0' then [] else [s[0]] + CString(s[1..])
  }

  /** The text searched for settings: the at most BUFFER_SIZE - 1 bytes
      fread reads, up to the first NUL. */
  function ScannedText(contents: string): (text: string)
    ensures |text| < BufferSize
  {
    CString(contents[..if |contents| < BufferSize - 1 then |contents| else BufferSize - 1])
  }

  /** The text after the first occurrence of `key`. */
  function After(text: string, key: string): (r: Option<string>)
    ensures r.None? <==> Find(text, key).None?
    ensures r.Some? ==> Find(text, key).value + |key| + |r.value| == |text|
    ensures r.Some? ==> r.value == text[Find(text, key).value + |key|..]
  {
    match Find(text, key)
    case None => None
    case Some(i) => Some(text[i + |key|..])
  }

  // ---------------------------------------------------------------------
  // File names
  // ---------------------------------------------------------------------

  /** The position of the last '.', from `strrchr`. */
  function LastDot(s: string): (i: nat)
    requires '.' in s
    ensures i < |s| && s[i] == '.'
    ensures '.' !in s[i + 1..]
  {
    if s[|s| - 1] == '.' then |s| - 1
    else
      assert '.' in s[..|s| - 1] by {
        var k :| 0 <= k < |s| && s[k] == '.';
        assert s[..|s| - 1][k] == '.';
      }
      var i := LastDot(s[..|s| - 1]);
      assert s[i + 1..] == s[..|s| - 1][i + 1..] + [s[|s| - 1]];
      i
  }

  /** imgFileName: the image name up to, not including, its last '.'. The
      source takes the address strrchr returns without checking it, so a
      name with no '.' is excluded. */
  function ImgFileName(filename: string): (stem: string)
    requires '.' in filename
    ensures stem + ['.'] <= filename
    ensures '.' !in filename[|stem| + 1..]
  {
    filename[..LastDot(filename)]
  }

  /** outFileName: imgFileName followed by ".c". */
  function OutFileName(filename: string): (out: string)
    requires '.' in filename
    ensures out == ImgFileName(filename) + ".c"
  {
    filename[..LastDot(filename)] + ".c"
  }

  /** The stem of `stem.ext` is `stem` when the extension has no '.'. */
  lemma ImgFileNameOfExtension(stem: string, ext: string)
    requires '.' !in ext
    ensures '.' in stem + "." + ext
    ensures ImgFileName(stem + "." + ext) == stem
    ensures OutFileName(stem + "." + ext) == stem + ".c"
  {
    var f := stem + "." + ext;
    assert f[|stem|] == '.';
    assert f[..|stem|] == stem;
  }

  // ---------------------------------------------------------------------
  // ConfigReader_ReadConfig
  // ---------------------------------------------------------------------

  /** What the comment block sets. */
  datatype Settings = Settings(tileSize: int, transparentColour: bv16, prefix: string)

  /** struct Config, as handed back on success. */
  datatype Config = Config(
    tileSize: int,
    transparentColour: bv16,
    imgFileName: string,
    outFileName: string,
    prefix: string)

  /** Why ReadConfig reports failure, one per early return. */
  datatype ConfigError =
    | CannotOpen
    | NothingRead
    | MissingTileSize
    | InvalidTileSize
    | MissingPrefix
    | InvalidTransparentColour

  /** A TILESIZE= setting is present and parseTileSize accepts it. */
  predicate TileSizeGiven(text: string)
  {
    After(text, TileSizeKey).Some? && ParseTileSize(After(text, TileSizeKey).value) != -1
  }

  /** A TRANSPARENT= setting is present and parseColour reads it as
      INVALID_COLOUR. */
  predicate ColourRejected(text: string, invalidColour: bv16)
  {
    After(text, TransparentKey).Some? && ParseColour(After(text, TransparentKey).value, invalidColour) == invalidColour
  }

  /** The prefix and transparent-colour part of the settings, once the
      tile size is accepted. */
  function ReadNamed(text: string, tileSize: int, invalidColour: bv16): (r: Result<Settings, ConfigError>)
    ensures r == Failure(MissingPrefix) <==> Find(text, PrefixKey).None?
    ensures r == Failure(InvalidTransparentColour) <==>
              Find(text, PrefixKey).Some? && ColourRejected(text, invalidColour)
    ensures r.Failure? ==> r.error == MissingPrefix || r.error == InvalidTransparentColour
    ensures r.Success? ==> r.value.tileSize == tileSize
    ensures r.Success? ==>
              var p := After(text, PrefixKey).value;
              && r.value.prefix <= p
              && (forall k :: 0 <= k < |r.value.prefix| ==> IsAlnum(r.value.prefix[k]))
              && (|r.value.prefix| < |p| ==> !IsAlnum(p[|r.value.prefix|]))
    ensures r.Success? && After(text, TransparentKey).Some? ==>
              r.value.transparentColour == ParseColour(After(text, TransparentKey).value, invalidColour)
              && r.value.transparentColour != invalidColour
    ensures r.Success? && After(text, TransparentKey).None? ==> r.value.transparentColour == invalidColour
  {
    match After(text, PrefixKey)
    case None => Failure(MissingPrefix)
    case Some(prefixText) =>
      var prefix := prefixText[..Span(prefixText, IsAlnum)];
      match After(text, TransparentKey)
      case None => Success(Settings(tileSize, invalidColour, prefix))
      case Some(colourText) =>
        var colour := ParseColour(colourText, invalidColour);
        if colour == invalidColour then Failure(InvalidTransparentColour)
        else Success(Settings(tileSize, colour, prefix))
  }

  /** The settings part of ConfigReader_ReadConfig, on the scanned text:
      TILESIZE and PREFIX are required, TRANSPARENT is optional and
      defaults to INVALID_COLOUR, but a value that reads as INVALID_COLOUR
      fails. Each key is taken at its first occurrence, and the checks
      run in that order, so the first one that fails names the error. */
  function ReadSettings(text: string, invalidColour: bv16): (r: Result<Settings, ConfigError>)
    ensures r == Failure(MissingTileSize) <==> Find(text, TileSizeKey).None?
    ensures r == Failure(InvalidTileSize) <==>
              After(text, TileSizeKey).Some? && ParseTileSize(After(text, TileSizeKey).value) == -1
    ensures r == Failure(MissingPrefix) <==> TileSizeGiven(text) && Find(text, PrefixKey).None?
    ensures r == Failure(InvalidTransparentColour) <==>
              TileSizeGiven(text) && Find(text, PrefixKey).Some? && ColourRejected(text, invalidColour)
    ensures r.Success? <==>
              TileSizeGiven(text) && Find(text, PrefixKey).Some? && !ColourRejected(text, invalidColour)
    ensures r.Success? ==> 0 < r.value.tileSize < INT32_MAX
    ensures r.Success? ==> r.value.tileSize == ParseTileSize(After(text, TileSizeKey).value)
    ensures r.Success? ==>
              var p := After(text, PrefixKey).value;
              && r.value.prefix <= p
              && (forall k :: 0 <= k < |r.value.prefix| ==> IsAlnum(r.value.prefix[k]))
              && (|r.value.prefix| < |p| ==> !IsAlnum(p[|r.value.prefix|]))
    ensures r.Success? && After(text, TransparentKey).Some? ==>
              r.value.transparentColour == ParseColour(After(text, TransparentKey).value, invalidColour)
              && r.value.transparentColour != invalidColour
    ensures r.Success? && After(text, TransparentKey).None? ==> r.value.transparentColour == invalidColour
  {
    match After(text, TileSizeKey)
    case None => Failure(MissingTileSize)
    case Some(sizeText) =>
      var tileSize := ParseTileSize(sizeText);
      if tileSize == -1 then Failure(InvalidTileSize)
      else ReadNamed(text, tileSize, invalidColour)
  }

  /** ConfigReader_ReadConfig after the file read: `contents` is None when
      the file cannot be opened, otherwise what it holds. */
  function ReadConfig(filename: string, contents: Option<string>, invalidColour: bv16): (r: Result<Config, ConfigError>)
    requires '.' in filename
    ensures contents.None? ==> r == Failure(CannotOpen)
    ensures contents == Some([]) ==> r == Failure(NothingRead)
    ensures r.Success? ==> 0 < r.value.tileSize < INT32_MAX
    ensures r.Success? ==> r.value.imgFileName == ImgFileName(filename)
    ensures r.Success? ==> r.value.outFileName == r.value.imgFileName + ".c"
    ensures contents.Some? && contents.value != [] ==>
              var settings := ReadSettings(ScannedText(contents.value), invalidColour);
              (r.Success? <==> settings.Success?)
              && (r.Success? ==> settings.value == Settings(r.value.tileSize, r.value.transparentColour, r.value.prefix))
              && (r.Failure? && settings.Failure? ==> r.error == settings.error)
  {
    match contents
    case None => Failure(CannotOpen)
    case Some(bytes) =>
      if |bytes| == 0 then Failure(NothingRead)
      else
        match ReadSettings(ScannedText(bytes), invalidColour)
        case Failure(e) => Failure(e)
        case Success(settings) =>
          Success(Config(settings.tileSize, settings.transparentColour,
                         ImgFileName(filename), OutFileName(filename), settings.prefix))
  }

  /** Nothing past the first BUFFER_SIZE - 1 bytes is read. */
  lemma ReadConfigReadsOnlyBuffer(filename: string, contents: string, invalidColour: bv16)
    requires '.' in filename
    requires |contents| >= BufferSize - 1
    ensures ReadConfig(filename, Some(contents), invalidColour)
            == ReadConfig(filename, Some(contents[..BufferSize - 1]), invalidColour)
  {
    assert contents[..BufferSize - 1][..BufferSize - 1] == contents[..BufferSize - 1];
  }

  // ---------------------------------------------------------------------
  // The example header block
  // ---------------------------------------------------------------------

  /** The comment block of the example tileset header, one setting per
      line. */
  const Close: string := " */\n"
  const TilesetLine1: string := "/* " + (TileSizeKey + ("8" + Close))
  const TilesetLine2: string := "/* " + (PrefixKey + ("tileset" + Close))
  const TilesetLine3: string := "/* " + (TransparentKey + ("38d15f" + Close))
  const TilesetHeader: string := TilesetLine1 + (TilesetLine2 + TilesetLine3)

  /** Concatenation regroups. */
  lemma Assoc(a: string, b: string, c: string)
    ensures (a + b) + c == a + (b + c)
  {
  }

  /** A NUL-free prefix passes through CString unchanged. */
  lemma {:induction false} CStringPrefix(a: string, b: string)
    requires '\0' !in a
    ensures CString(a + b) == a + CString(b)
  {
    if |a| == 0 {
      assert a + b == b;
    } else {
      assert a[0] in a;
      assert (a + b)[0] == a[0];
      assert (a + b)[1..] == a[1..] + b;
      CStringPrefix(a[1..], b);
      assert a == [a[0]] + a[1..];
    }
  }

  /** An occurrence in `a + b` past `a` is an occurrence in `b`. */
  lemma OccursShifted(a: string, b: string, key: string, k: nat)
    ensures OccursAt(a + b, key, |a| + k) <==> OccursAt(b, key, k)
  {
    if k + |key| <= |b| {
      assert (a + b)[|a| + k..|a| + k + |key|] == b[k..k + |key|];
    }
  }

  /** Occurrences in `a + b` that start past `a` are those of `b`,
      shifted. */
  lemma FindSkipping(a: string, b: string, key: string)
    requires forall j :: 0 <= j < |a| ==> !OccursAt(a + b, key, j)
    ensures Find(a + b, key).None? <==> Find(b, key).None?
    ensures Find(b, key).Some? ==> Find(a + b, key) == Some(|a| + Find(b, key).value)
  {
    var t := a + b;
    forall i | |a| <= i <= |t|
      ensures OccursAt(t, key, i) <==> OccursAt(b, key, i - |a|)
    {
      OccursShifted(a, b, key, i - |a|);
    }
    forall k | 0 <= k <= |b|
      ensures OccursAt(t, key, |a| + k) <==> OccursAt(b, key, k)
    {
      OccursShifted(a, b, key, k);
    }
  }

  /** A key cannot start inside text that lacks its first character. */
  lemma NoStartWithout(a: string, b: string, key: string)
    requires |key| > 0 && key[0] !in a
    ensures forall j :: 0 <= j < |a| ==> !OccursAt(a + b, key, j)
  {
  }

  /** A key at the very start is found there. */
  lemma FindAtStart(key: string, b: string)
    ensures Find(key + b, key) == Some(0)
  {
    assert (key + b)[0..|key|] == key;
  }

  /** Finding a key after a stretch that lacks its first character, and
      the text that follows it. */
  lemma FindAfterStretch(a: string, key: string, b: string)
    requires |key| > 0 && key[0] !in a
    ensures Find(a + (key + b), key) == Some(|a|)
    ensures After(a + (key + b), key) == Some(b)
  {
    NoStartWithout(a, key + b, key);
    FindAtStart(key, b);
    FindSkipping(a, key + b, key);
    assert (a + (key + b))[|a| + |key|..] == b;
  }

  /** The scanned text of the example block followed by anything: the
      block itself comes first. */
  lemma TilesetScanned(rest: string)
    ensures exists tail: string :: ScannedText(TilesetHeader + rest) == TilesetHeader + tail
  {
    var contents := TilesetHeader + rest;
    var m := if |contents| < BufferSize - 1 then |contents| else BufferSize - 1;
    assert |TilesetHeader| == 63;
    assert contents[..m] == TilesetHeader + rest[..m - 63];
    assert '\0' !in TilesetHeader;
    CStringPrefix(TilesetHeader, rest[..m - 63]);
  }

  /** The text after the block: what follows each line. */
  function AfterLine1(tail: string): string { TilesetLine2 + (TilesetLine3 + tail) }
  function AfterLine2(tail: string): string { TilesetLine3 + tail }

  lemma TilesetSizeFound(tail: string)
    ensures After(TilesetHeader + tail, TileSizeKey) == Some("8" + (Close + AfterLine1(tail)))
  {
    var a := AfterLine1(tail);
    Assoc(TilesetLine1, TilesetLine2 + TilesetLine3, tail);
    Assoc(TilesetLine2, TilesetLine3, tail);
    Assoc("/* ", TileSizeKey + ("8" + Close), a);
    Assoc(TileSizeKey, "8" + Close, a);
    Assoc("8", Close, a);
    FindAfterStretch("/* ", TileSizeKey, "8" + (Close + a));
  }

  lemma TilesetTileSize(tail: string)
    ensures After(TilesetHeader + tail, TileSizeKey).Some?
    ensures ParseTileSize(After(TilesetHeader + tail, TileSizeKey).value) == 8
  {
    TilesetSizeFound(tail);
    assert Numeral(8, 10) == "8";
    StrtolNumeral(8, 10, Close + AfterLine1(tail));
  }

  lemma TilesetPrefixFound(tail: string)
    ensures After(TilesetHeader + tail, PrefixKey) == Some("tileset" + (Close + AfterLine2(tail)))
  {
    var b := AfterLine2(tail);
    Assoc(TilesetLine1, TilesetLine2 + TilesetLine3, tail);
    Assoc(TilesetLine2, TilesetLine3, tail);
    Assoc("/* ", PrefixKey + ("tileset" + Close), b);
    Assoc(PrefixKey, "tileset" + Close, b);
    Assoc("tileset", Close, b);
    Assoc(TilesetLine1, "/* ", PrefixKey + ("tileset" + (Close + b)));
    FindAfterStretch(TilesetLine1 + "/* ", PrefixKey, "tileset" + (Close + b));
  }

  lemma TilesetPrefix(tail: string)
    ensures After(TilesetHeader + tail, PrefixKey).Some?
    ensures var p := After(TilesetHeader + tail, PrefixKey).value;
            p[..Span(p, IsAlnum)] == "tileset"
  {
    TilesetPrefixFound(tail);
    var rest := Close + AfterLine2(tail);
    SpanOfRun("tileset", rest, IsAlnum);
    assert ("tileset" + rest)[..7] == "tileset";
  }

  /** Finding a key past one false start: a single occurrence of its
      first character that the next character already rules out. */
  lemma FindAfterFalseStart(a: string, mid: string, key: string, b: string)
    requires |key| > 1 && key[0] !in a && key[0] !in mid
    requires |mid| > 0 && mid[0] != key[1]
    ensures After(a + ([key[0]] + (mid + (key + b))), key) == Some(b)
  {
    var fromMid := mid + (key + b);
    var fromFirst := [key[0]] + fromMid;
    FindAfterStretch(mid, key, b);
    assert !OccursAt(fromFirst, key, 0) by {
      assert fromFirst[1] == mid[0];
    }
    FindSkipping([key[0]], fromMid, key);
    NoStartWithout(a, fromFirst, key);
    FindSkipping(a, fromFirst, key);
    assert (a + fromFirst)[|a| + 1 + |mid| + |key|..] == b;
  }

  lemma TilesetTransparentFound(tail: string)
    ensures After(TilesetHeader + tail, TransparentKey) == Some("38d15f" + (Close + tail))
  {
    var b := "38d15f" + (Close + tail);
    var r := TransparentKey + b;
    var l2 := TilesetLine2 + "/* ";
    var mid := "ILESIZE=" + ("8" + (Close + l2));
    Assoc(TilesetLine1, TilesetLine2 + TilesetLine3, tail);
    Assoc(TilesetLine2, TilesetLine3, tail);
    Assoc("/* ", TransparentKey + ("38d15f" + Close), tail);
    Assoc(TransparentKey, "38d15f" + Close, tail);
    Assoc("38d15f", Close, tail);
    Assoc(TilesetLine2, "/* ", r);
    Assoc("/* ", TileSizeKey + ("8" + Close), l2 + r);
    Assoc(TileSizeKey, "8" + Close, l2 + r);
    Assoc("8", Close, l2 + r);
    assert TileSizeKey == ['T'] + "ILESIZE=";
    Assoc(['T'], "ILESIZE=", "8" + (Close + (l2 + r)));
    Assoc(Close, l2, r);
    Assoc("8", Close + l2, r);
    Assoc("ILESIZE=", "8" + (Close + l2), r);
    FindAfterFalseStart("/* ", mid, TransparentKey, b);
  }

  lemma TilesetTransparent(tail: string, invalidColour: bv16)
    ensures After(TilesetHeader + tail, TransparentKey).Some?
    ensures ParseColour(After(TilesetHeader + tail, TransparentKey).value, invalidColour) == 12103
  {
    TilesetTransparentFound(tail);
    TilesetColourValue(Close + tail, invalidColour);
  }

  lemma TilesetColourValue(rest: string, invalidColour: bv16)
    requires |rest| > 0 && rest[0] == ' '
    ensures ParseColour("38d15f" + rest, invalidColour) == 12103
  {
    assert Numeral(3, 16) == "3";
    assert Numeral(0x38, 16) == "38";
    assert Numeral(0x38d, 16) == "38d";
    assert Numeral(0x38d1, 16) == "38d1";
    assert Numeral(0x38d15, 16) == "38d15";
    assert Numeral(0x38d15f, 16) == "38d15f";
    StrtolNumeral(0x38d15f, 16, rest);
    TilesetColourChannels();
  }

  lemma TilesetColourChannels()
    ensures HexColour(0x38d15f) == Image.Colour(0x38, 0xd1, 0x5f, 0)
  {
    var v := 0x38d15f;
    assert (v / 0x1_0000) % 256 == 0x38;
    assert (v / 0x100) % 256 == 0xd1;
    assert v % 256 == 0x5f;
  }

  lemma TilesetFileNames()
    ensures '.' in "tileset.png.h"
    ensures ImgFileName("tileset.png.h") == "tileset.png"
    ensures OutFileName("tileset.png.h") == "tileset.png.c"
  {
    ImgFileNameOfExtension("tileset.png", "h");
    assert "tileset.png" + "." + "h" == "tileset.png.h";
  }

  /** The block in the example header yields tile size 8, prefix "tileset"
      and the transparent colour 0x38d15f (rgb15 12103), whatever follows
      it, for any INVALID_COLOUR other than 12103; the file names come
      from the header's own name. */
  lemma TilesetExample(rest: string, invalidColour: bv16)
    requires invalidColour != 12103
    ensures ReadConfig("tileset.png.h", Some(TilesetHeader + rest), invalidColour)
            == Success(Config(8, 12103, "tileset.png", "tileset.png.c", "tileset"))
  {
    TilesetScanned(rest);
    var tail: string :| ScannedText(TilesetHeader + rest) == TilesetHeader + tail;
    TilesetTileSize(tail);
    TilesetPrefix(tail);
    TilesetTransparent(tail, invalidColour);
    TilesetFileNames();
  }

  // ---------------------------------------------------------------------
  // Writing a settings block and reading it back
  // ---------------------------------------------------------------------

  /** A prefix written in lower-case letters and digits. */
  predicate LowerAlnum(w: string)
  {
    forall k :: 0 <= k < |w| ==> ('a' <= w[k] <= 'z') || ('0' <= w[k] <= '9')
  }

  /** The two required lines, TILESIZE first, with no TRANSPARENT line. */
  function SettingsBlock(n: nat, w: string): string
  {
    TileSizeKey + (Numeral(n, 10) + ("\n" + (PrefixKey + (w + "\n"))))
  }

  /** None of the block's characters after its first is a 'T', and none
      before PREFIX= is a 'P'. */
  lemma SettingsBlockLetters(n: nat, w: string)
    requires LowerAlnum(w)
    ensures 'P' !in TileSizeKey + (Numeral(n, 10) + "\n")
    ensures 'T' !in "ILESIZE=" + (Numeral(n, 10) + ("\n" + (PrefixKey + (w + "\n"))))
  {
    var digits := Numeral(n, 10);
    assert forall k :: 0 <= k < |digits| ==> DigitOf(digits[k]) < 10;
    assert DigitOf('P') == 16 && DigitOf('T') == 16;
    assert 'P' !in digits && 'T' !in digits;
    assert forall k :: 0 <= k < |w| ==> w[k] != 'T';
  }

  /** A key that does not occur at all is not found. */
  lemma FindAbsent(a: string, key: string)
    requires |key| > 0 && key[0] !in a
    ensures Find(a, key).None?
  {
    NoStartWithout(a, [], key);
    assert a + [] == a;
    FindSkipping(a, [], key);
    assert Find([], key) == None;
  }

  /** The tile size is found at the start of the block. */
  lemma BlockTileSize(n: nat, w: string)
    requires 0 < n < INT32_MAX
    ensures TileSizeGiven(SettingsBlock(n, w))
    ensures ParseTileSize(After(SettingsBlock(n, w), TileSizeKey).value) == n
  {
    var text := SettingsBlock(n, w);
    var rest := "\n" + (PrefixKey + (w + "\n"));
    var sizeLine := Numeral(n, 10) + rest;
    FindAtStart(TileSizeKey, sizeLine);
    assert text[|TileSizeKey|..] == sizeLine;
    assert DigitOf('\n') == 16;
    ParseTileSizeNumeral(n, rest);
  }

  /** The prefix is the run after PREFIX=, up to the newline. */
  lemma BlockPrefix(n: nat, w: string)
    requires LowerAlnum(w)
    ensures After(SettingsBlock(n, w), PrefixKey) == Some(w + "\n")
    ensures Span(w + "\n", IsAlnum) == |w|
  {
    var digits := Numeral(n, 10);
    SettingsBlockLetters(n, w);
    var before := TileSizeKey + (digits + "\n");
    Assoc(TileSizeKey, digits + "\n", PrefixKey + (w + "\n"));
    Assoc(digits, "\n", PrefixKey + (w + "\n"));
    FindAfterStretch(before, PrefixKey, w + "\n");
    assert forall k :: 0 <= k < |w| ==> IsAlnum(w[k]);
    SpanOfRun(w, "\n", IsAlnum);
  }

  /** The block has no TRANSPARENT= line: its only 'T' starts TILESIZE=. */
  lemma BlockNoColour(n: nat, w: string)
    requires LowerAlnum(w)
    ensures Find(SettingsBlock(n, w), TransparentKey).None?
  {
    var tail := "ILESIZE=" + (Numeral(n, 10) + ("\n" + (PrefixKey + (w + "\n"))));
    SettingsBlockLetters(n, w);
    assert TileSizeKey == ['T'] + "ILESIZE=";
    Assoc(['T'], "ILESIZE=", Numeral(n, 10) + ("\n" + (PrefixKey + (w + "\n"))));
    FindAbsent(tail, TransparentKey);
    assert !OccursAt(['T'] + tail, TransparentKey, 0) by {
      assert (['T'] + tail)[1] == 'I';
    }
    FindSkipping(['T'], tail, TransparentKey);
  }

  /** A block giving a tile size in (0, INT32_MAX) and a lower-case
      alphanumeric prefix reads back as those settings, with the
      transparent colour left at INVALID_COLOUR. */
  lemma ReadSettingsRoundTrip(n: nat, w: string, invalidColour: bv16)
    requires 0 < n < INT32_MAX
    requires LowerAlnum(w)
    ensures ReadSettings(SettingsBlock(n, w), invalidColour) == Success(Settings(n, invalidColour, w))
  {
    BlockTileSize(n, w);
    BlockPrefix(n, w);
    BlockNoColour(n, w);
    assert (w + "\n")[..|w|] == w;
  }
}
