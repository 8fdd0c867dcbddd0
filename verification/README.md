# gba-rpg-example in Dafny

A model of the parts of gba-rpg-example that compute something, with proofs
about them:

- **pngtogba**, the host tool that turns a tileset image into GBA data.
  - `Palette16` is a sorted set of at most sixteen 16-bit colour values.
  - The palette optimiser keeps a bank of up to 256 colours and greedily
    builds working palettes that cover the tiles, stopping after sixteen
    palettes.
  - `rgb15` packs an 8-bit RGBA pixel into the GBA's BGR555 word.
  - `ConfigReader` reads `TILESIZE=`, `PREFIX=` and `TRANSPARENT=` out of
    the first 255 bytes of a header file and derives the output file names.
- **the example game's helpers** (`src/main.c`).
  - Wrap-around tile arithmetic and the collision window over the 64x64 world map.
  - The xorshift32 random source.
  - One step of the main loop: key branches, collisions, the idle/blink frame and the frame counters.
- **lostgba**, the GBA library.
  - The `SetBits16`/`SetVBits16` field setters and the `AllOnes16` mask.
  - The dispatch of `VMemCpy32` between its word and halfword routines.
  - The three display-register setters of `Graphics.c`.
  - The mGBA debug console of `Print.c`: characters packed two to a
    halfword, and the small `%%`/`%s` format interpreter of `LostGBA_PrintLn`.

Modules, one per source unit:
- `CTypes`: the C integer helpers, `Option` and `Result`.
- `Image`, `Palette`, `PaletteOptimiser` and `ConfigReader`: pngtogba.
- `Random` and `Game`: `src/main.c`.
- `LostGbaInternal` and `MemCopy`, both in `lostgba_internal.dfy`.
- `Graphics` and `Print`.

Hardware registers are modelled as plain values. A setter becomes a
function from the register's old halfword to the one it stores.

Where the code and its own comments disagree, the model follows the code:
- `Palette16_Contains` returns 0 on any partial overlap, not only for
  disjoint palettes as `Palette.h` says.
- `LostGBA_PrintLn` prints `%s` as the argument followed by a literal `s`, because it never steps past the `s`.
- `LostGBA_PrintLn` treats `%c` and `%d`, which `Print.h` lists, as no conversion at all: the `%` is dropped.
- `divRoundDown` is one below the floor on negative exact multiples: -8 over 8 gives -2.

## Model

| member | source | states |
|---|---|---|
| CTypes.CDiv | src/main.c:24-32 | C's `/`: the magnitude is the quotient of the magnitudes, and a non-zero result is negative exactly when the operand signs differ |
| CTypes.CRem | src/main.c:19-22 | C's `%`: rebuilds the dividend with `CDiv`, is smaller than the divisor in magnitude and carries the dividend's sign |
| Image.Rgb15 | lostgba/tools/pngtogba/Image.h:24-27 | the packed word never has bit 15 set |
| Image.UnpackRgb15 | lostgba/tools/pngtogba/Image.h:24-27 | the three five-bit fields of `rgb15(c)` are the top five bits of red, green and blue |
| Image.UnpackPack | lostgba/tools/pngtogba/Image.h:26 | unpacking a packed triple of five-bit fields returns it |
| Image.PackUnpack | lostgba/tools/pngtogba/Image.h:26 | every word below 0x8000 is the packing of its own fields, so `rgb15` is onto them |
| Image.Rgb15Injective | lostgba/tools/pngtogba/Image.h:24-27 | two pixels give the same word if and only if their channels agree in the top five bits |
| Image.Rgb15IgnoresLowBitsAndAlpha | lostgba/tools/pngtogba/Image.h:24-27 | alpha and the low three bits of each channel do not affect the word |
| Palette.Empty | tools/pngtogba/Palette.c:15-21 | a new palette is valid and holds no colours |
| Palette.AddColour | tools/pngtogba/Palette.c:28-68 | a present colour returns the size and changes nothing; an absent one into a full palette returns -1 and changes nothing; otherwise it is inserted, order is kept, and the new size is returned |
| Palette.AddColourFrom | tools/pngtogba/Palette.c:30-67 | the insertion loop resumed at index `i` has the same outcome as the whole call |
| Palette.InsertKeepsAscending | tools/pngtogba/Palette.c:46-52 | shifting the tail up and writing the colour at `i` keeps the array strictly ascending and adds exactly that colour |
| Palette.GetColour | tools/pngtogba/Palette.c:70-74 | the colour at a valid index is in the palette, above every earlier entry and below every later one |
| Palette.HasColour | tools/pngtogba/Palette.c:111-122 | true if and only if the colour is in the palette |
| Palette.Merge | tools/pngtogba/Palette.c:87-108 | the walk answers either 0 or `retIfContains`; `Palette.MergeSpec` says which |
| Palette.MergeSpec | tools/pngtogba/Palette.c:87-108 | the two-index walk answers `retIfContains` exactly when every remaining entry of the shorter palette is in the rest of the longer one, and 0 otherwise |
| Palette.Contains | tools/pngtogba/Palette.c:81-109 | -1 if and only if `second` is a subset of `first` and no longer; 1 if and only if `first` is shorter and a subset of `second`; 0 otherwise |
| Palette.ContainsIsSubset | tools/pngtogba/Palette.c:81-109 | between valid palettes: -1 means `second` ⊆ `first`, 1 means `first` ⊂ `second`, 0 means neither contains the other |
| Palette.ContainsRoleSwap | tools/pngtogba/Palette.c:81-109 | swapping the arguments swaps -1 and 1, except that equal palettes give -1 both ways |
| Palette.UnionLength | tools/pngtogba/PaletteOptimiser.c:145 | the union size lies between each palette's size and their sum; it equals one palette's size exactly when the other is a subset of it |
| Palette.AscendingUnique | tools/pngtogba/Palette.c:8-13 | two sorted colour arrays holding the same colours are equal |
| Palette.AddAllElems | tools/pngtogba/Palette.c:28-68 | adding a sequence of colours that fits gives exactly the union of the palette and those colours |
| Palette.AddOrderIrrelevant | tools/pngtogba/Palette.c:28-68 | when the colours fit, the resulting palette is the same whatever order they are added in |
| PaletteOptimiser.New | tools/pngtogba/PaletteOptimiser.c:23-51 | a new optimiser has no tile palettes, an empty bank and the requested capacity |
| PaletteOptimiser.FindFrom | tools/pngtogba/PaletteOptimiser.c:78-84 | the first index from `i` holding the colour, or -1 exactly when no later index holds it |
| PaletteOptimiser.AddBankColour | tools/pngtogba/PaletteOptimiser.c:76-93 | a known colour returns 0 and changes nothing; with a full bank it returns 1 and changes nothing; otherwise the colour is appended and 0 returned |
| PaletteOptimiser.AddBankColours | tools/pngtogba/PaletteOptimiser.c:95-111 | the bank becomes the old bank followed by the tile's colours that were not in it, each once, in the order they first appear in the tile, cut off when the bank reaches 256; the result is 1 exactly when some new colour was cut off, and 0 exactly when all of the tile's colours are in the bank |
| PaletteOptimiser.AddBankColoursOrder | tools/pngtogba/PaletteOptimiser.c:97-108 | the loop resumed at any entry appends the remaining new colours in order, stops at the first one that does not fit, and fails exactly when one is left over |
| PaletteOptimiser.AddPalette | tools/pngtogba/PaletteOptimiser.c:68-74 | the tile palette is appended; the bank grows by the tile's new colours in first-seen order until it holds 256; non-zero exactly when some new colour did not fit |
| PaletteOptimiser.GetColourIndex | tools/pngtogba/PaletteOptimiser.c:113-124 | the first index of a colour that is in the bank |
| PaletteOptimiser.UsageOfPresentColour | tools/pngtogba/PaletteOptimiser.c:151-157 | a colour already in the working palette is never counted |
| PaletteOptimiser.UsageOfNeededColour | tools/pngtogba/PaletteOptimiser.c:151-163 | a colour that an eligible tile needs and the palette lacks is counted at least once |
| PaletteOptimiser.CountTileColours | tools/pngtogba/PaletteOptimiser.c:151-163 | for one tile, every missing colour's bank slot goes up by one, nothing else changes, and the flag says whether anything was missing |
| PaletteOptimiser.CountSlot | tools/pngtogba/PaletteOptimiser.c:140-163 | NULL tiles, tiles too large to complete and satisfied tiles are skipped; the others are counted, and the flag is set exactly for an eligible tile |
| PaletteOptimiser.ColourUsage | tools/pngtogba/PaletteOptimiser.c:136-164 | `colourUsage[k]` is the number of eligible tiles that need bank colour `k` and the palette lacks; `aColourIsUsed` holds exactly when some tile is eligible |
| PaletteOptimiser.BestIndex | tools/pngtogba/PaletteOptimiser.c:172-179 | the first index of a maximal count among the first `nColours` entries |
| PaletteOptimiser.BestColourIsNew | tools/pngtogba/PaletteOptimiser.c:166-184 | while some tile is eligible, the selected colour is in the bank and not yet in the palette |
| PaletteOptimiser.FindMaximalPaletteFor | tools/pngtogba/PaletteOptimiser.c:127-191 | the palette holds the transparent colour and only bank colours, and the loop stops with it full or with no eligible tile left; it is exactly `Greedy` from the transparent colour alone: each round adds the first bank colour of maximal usage, and stops when no tile is eligible or the palette fills |
| PaletteOptimiser.BestOf | tools/pngtogba/PaletteOptimiser.c:171-179 | while some tile is eligible, the chosen bank index has maximal usage and every earlier index has strictly smaller usage (`IsBest`); `BestUnique` shows only one index qualifies |
| PaletteOptimiser.SaturatedNeverInside | tools/pngtogba/PaletteOptimiser.c:166-187 | where the search stopped, the palette is not a proper subset of any pending tile |
| PaletteOptimiser.NextPalette | tools/pngtogba/PaletteOptimiser.c:212 | the palette built for a round contains the transparent colour, lies strictly inside no pending tile, and is exactly the greedy palette `Greedy` for the tiles pending in that round |
| PaletteOptimiser.Covers | tools/pngtogba/PaletteOptimiser.c:223 | since the palette is never strictly inside the tile, a non-zero `Palette16_Contains` means exactly that the palette covers the tile |
| PaletteOptimiser.CountNone | tools/pngtogba/PaletteOptimiser.c:201-229 | the number of satisfied (NULL) slots is at most the length; it equals the length exactly when all are NULL, and is 0 exactly when none are |
| PaletteOptimiser.CountNoneSatisfy | tools/pngtogba/PaletteOptimiser.c:225-227 | setting a pending slot to NULL adds one satisfied palette |
| PaletteOptimiser.AssignTiles | tools/pngtogba/PaletteOptimiser.c:215-229 | each covered pending tile is assigned the new palette's number and marked satisfied; the others are untouched; `satisfiedPalettes` counts the NULL slots |
| PaletteOptimiser.ProgressStep | tools/pngtogba/PaletteOptimiser.c:210-238 | after a round, every satisfied tile is covered by the palette it was assigned |
| PaletteOptimiser.OptimiseRound | tools/pngtogba/PaletteOptimiser.c:210-238 | a round entered with a tile pending appends the greedy palette for the pending tiles and keeps the assignment, transparent-colour and round-history invariants |
| PaletteOptimiser.RoundsStep | tools/pngtogba/PaletteOptimiser.c:210-238 | after a round, every palette built so far is still the greedy one for the tiles pending when it was built (`PendingAt` rebuilds that array from the final assignments), and its round began with a tile pending |
| PaletteOptimiser.OptimisePalettes | tools/pngtogba/PaletteOptimiser.c:194-246 | at most 16 palettes, each holding the transparent colour; a satisfied tile is assigned the first palette that covers it; an unsatisfied tile is covered by none and keeps assignment 0; the loop ends with all tiles satisfied or 16 palettes built, and every round began with a tile still pending, so no palette is built once all are satisfied; palette `q` is exactly `Greedy` for the tiles pending at the start of round `q` |
| ConfigReader.Saturate | tools/pngtogba/ConfigReader.c:19 | `strtol` clamps to the range of a 64-bit `long` |
| ConfigReader.Strtol | tools/pngtogba/ConfigReader.c:32 | the result lies within the range of `long` |
| ConfigReader.ValueOfNumeral | tools/pngtogba/ConfigReader.c:19 | reading back a decimal or hex numeral gives its number |
| ConfigReader.StrtolNumeral | tools/pngtogba/ConfigReader.c:19 | `strtol` reads back any numeral up to LONG_MAX that the following text does not extend |
| ConfigReader.StrtolSkipsSpace | tools/pngtogba/ConfigReader.c:32 | leading white space does not change the result |
| ConfigReader.StrtolNegative | tools/pngtogba/ConfigReader.c:32-36 | a minus sign before a numeral negates it, which is the branch `parseColour` rejects |
| ConfigReader.ParseTileSize | tools/pngtogba/ConfigReader.c:16-26 | -1, or a value in (0, INT32_MAX) that is the number strtol read |
| ConfigReader.ParseTileSizeNumeral | tools/pngtogba/ConfigReader.c:16-26 | a written size is returned when it is in (0, INT32_MAX), and -1 otherwise |
| ConfigReader.ParseColour | tools/pngtogba/ConfigReader.c:29-46 | a negative value gives INVALID_COLOUR; anything else gives an rgb15 word below 0x8000 |
| ConfigReader.ParseColourNumeral | tools/pngtogba/ConfigReader.c:29-46 | a hex `rrggbb` written out comes back as the rgb15 word whose fields are its three channels, each cut to five bits |
| ConfigReader.Find | tools/pngtogba/ConfigReader.c:85 | `strstr`: the first occurrence of the key, or none exactly when the key does not occur |
| ConfigReader.After | tools/pngtogba/ConfigReader.c:85-92 | the text that follows the first occurrence of the key |
| ConfigReader.CString | tools/pngtogba/ConfigReader.c:82 | the buffer up to, not including, its first NUL |
| ConfigReader.ScannedText | tools/pngtogba/ConfigReader.c:71-82 | the searched text is shorter than BUFFER_SIZE |
| ConfigReader.ImgFileName | tools/pngtogba/ConfigReader.c:54-57 | the name before its last '.' |
| ConfigReader.OutFileName | tools/pngtogba/ConfigReader.c:59-61 | the image name followed by ".c" |
| ConfigReader.ImgFileNameOfExtension | tools/pngtogba/ConfigReader.c:54-61 | `stem.ext` with a dot-free extension gives `stem` and `stem.c` |
| ConfigReader.ReadNamed | tools/pngtogba/ConfigReader.c:101-139 | once the tile size is accepted: MissingPrefix exactly when `PREFIX=` does not occur, InvalidTransparentColour exactly when it does and a `TRANSPARENT=` value reads as INVALID_COLOUR; on success the prefix is the longest alphanumeric run after `PREFIX=` and the colour is the one read, or INVALID_COLOUR without the key |
| ConfigReader.ReadSettings | tools/pngtogba/ConfigReader.c:84-139 | one outcome for each exit: MissingTileSize exactly when `TILESIZE=` does not occur; InvalidTileSize exactly when its value is not in (0, INT32_MAX); MissingPrefix exactly when the size is good and `PREFIX=` does not occur; InvalidTransparentColour exactly when, besides those, a `TRANSPARENT=` value reads as INVALID_COLOUR; success otherwise. On success the size is the number read, the prefix is the longest alphanumeric run after `PREFIX=`, and the colour is the one read after `TRANSPARENT=`, or INVALID_COLOUR when the key is absent |
| ConfigReader.ReadSettingsRoundTrip | tools/pngtogba/ConfigReader.c:84-139 | a block written as `TILESIZE=<n>` and `PREFIX=<w>` lines, with n in (0, INT32_MAX) and w lower-case letters and digits, reads back as tile size n, prefix w and INVALID_COLOUR |
| ConfigReader.ReadConfig | tools/pngtogba/ConfigReader.c:48-140 | a file that cannot be opened and an empty read are their own errors; otherwise the outcome is that of the settings on the first 255 bytes up to the first NUL, with the same error; on success the image name is the file name before its last '.' and the output name is that followed by ".c" |
| ConfigReader.ReadConfigReadsOnlyBuffer | tools/pngtogba/ConfigReader.c:71-73 | bytes past the first BUFFER_SIZE - 1 never affect the result |
| ConfigReader.TilesetExample | tools/pngtogba/example/tileset.png.h:1-3 | the example header block gives tile size 8, prefix "tileset" and colour 0x38d15f (rgb15 12103) |
| Random.Xorshift32 | src/main.c:58-67 | the 32-bit xorshift step (13, 17, 5); `Random.Xorshift32RoundTrip`, `Random.Xorshift32Onto` and `Random.Xorshift32NonZero` state what it guarantees |
| Random.Xorshift32RoundTrip | src/main.c:58-67 | the xorshift step can be undone |
| Random.Xorshift32Onto | src/main.c:58-67 | every state has a predecessor: the step is a bijection |
| Random.Xorshift32NonZero | src/main.c:60-64 | a non-zero state never becomes zero |
| Game.PositiveModulo | src/main.c:19-22 | for a positive divisor, the mathematical residue in [0, n) |
| Game.DivRoundDown | src/main.c:24-32 | the truncated quotient, one less for a negative dividend |
| Game.DivRoundDownFloor | src/main.c:24-32 | for positive n this is the floor, except on a negative exact multiple, where it is one below |
| Game.StartInvariant | src/main.c:146-170 | the state main enters its loop with (centre of the screen, `frame` and `frameSkip` zero, the down-idle frame) satisfies the loop invariant |
| Game.CollisionTile | src/main.c:13-17 | the blocking tiles (bushes 21 and 22, trees 56 and 57); what they block is stated by `Game.WillBeCollision` |
| Game.TileCoordinate | src/main.c:36-37 | the tile coordinate after `% 64` lies in (-64, 64) |
| Game.CellIndex | src/main.c:46-48 | every map index read lies in [0, 4096) |
| Game.WillBeCollision | src/main.c:34-56 | true if and only if some cell of the 1-or-2-row by 2-or-3-column window holds a bush or tree |
| Game.Cycle | src/main.c:190-194 | the frame restarts at END-START, and the shown frame lies in [START-1, END-2] |
| Game.WalkStep | src/main.c:187-233 | the speeds and the facing follow the last pressed key in source order, each branch's frame stays in its range, and no key changes nothing |
| Game.Idle | src/main.c:245-270 | facing up, left or right, that facing's idle frame and no random draw; facing down on the first loop of a frame, a random number is drawn and the blink frame is shown exactly when it is a multiple of 128; facing down on the other loops, nothing is drawn and the blink frame is kept exactly when it was showing |
| Game.Step | src/main.c:179-281 | the loop invariant is kept (`frameSkip` in [0, 3), `currentFrame` within the sprite sheet); each axis moves by its key speed unless the window at the target position holds a bush or tree, the horizontal test from the current row and the vertical one from the current column; the facing follows the keys; `frameSkip` counts modulo 3 and `frame` advances when it wraps; standing still shows the idle switch's frame and random state, and moving keeps the walking frame and the random state |
| Game.Collide | src/main.c:235-243 | each speed is dropped to 0 exactly when the window at that axis's target holds a blocking tile |
| Game.Tick | src/main.c:275-281 | `frameSkip` counts modulo LOOPS_PER_FRAME, and `frame` goes up by one exactly when it wraps to 0 |
| Game.Pose | src/main.c:245-270 | while moving, the walking frame and the random state are kept; standing still, they are what the idle switch gives, and the frame stays within the sprite sheet |
| LostGbaInternal.AllOnes16 | lostgba/src/LostGbaInternal.h:37-40 | from 16 on the mask is all ones; below 16, adding one gives `1 << length`, so exactly the low `length` bits are set |
| LostGbaInternal.AllOnes16Bits | lostgba/src/LostGbaInternal.h:37-40 | the mask has exactly its low `length` bits set |
| LostGbaInternal.FieldMaskBits | lostgba/src/LostGbaInternal.h:18-23 | the mask shifted by `shift` covers exactly the bits [shift, shift + length) |
| LostGbaInternal.SetBits16 | lostgba/src/LostGbaInternal.c:3-7 | masks the value to `length` bits, shifts it to `shift` and merges it into the target; `LostGbaInternal.SetBits16Field` states the result bit field by bit field |
| LostGbaInternal.SetBits16Field | lostgba/src/LostGbaInternal.c:3-7 | inside the field, the result is the low `length` bits of `value` moved up by `shift`; outside it, the target's bits are kept |
| LostGbaInternal.SetBits16IgnoresHighValueBits | lostgba/src/LostGbaInternal.c:6 | value bits above `length` do not matter |
| LostGbaInternal.SetBits16Idempotent | lostgba/src/LostGbaInternal.c:3-7 | setting the same field to the same value twice is setting it once |
| LostGbaInternal.SetBits16LastWins | lostgba/src/LostGbaInternal.c:3-7 | of two writes to one field, the second wins |
| LostGbaInternal.SetVBits16 | lostgba/src/LostGbaInternal.c:9-13 | the same merge on a `volatile` halfword; `LostGbaInternal.SetVBits16Field` states it |
| LostGbaInternal.SetVBits16Field | lostgba/src/LostGbaInternal.c:9-13 | the volatile setter computes the same halfword as `SetBits16`, with the same field and frame |
| MemCopy.Dispatch | lostgba/src/LostGbaInternal.c:21-36 | no routine for 0 bytes; the word routine with length/4 words exactly when the length is a non-zero multiple of 4; otherwise the halfword routine with the whole length |
| MemCopy.DispatchCoversLength | lostgba/src/LostGbaInternal.c:21-36 | the chosen routine covers exactly `length` bytes |
| MemCopy.VMemCpy32 | lostgba/src/LostGbaInternal.c:42-86 | the first `length` bytes of the target become the source's, and every byte after them is unchanged |
| Graphics.DisplayControl | lostgba/src/Graphics.c:6-19 | bits 0-2 hold the mode's low bits, bit 6 is set, bits 8-12 are the four background flags and the sprite flag, and every other bit is clear |
| Graphics.DecodeDisplayControlRoundTrip | lostgba/src/Graphics.c:8-16 | the settings can be read back from the word, with the mode reduced to three bits |
| Graphics.DisplayControlOfDecoded | lostgba/src/Graphics.c:8-16 | every word with bit 6 set and the other unused bits clear is the word for the settings decoded from it |
| Graphics.SetVBlankInterrupt | lostgba/src/Graphics.c:23-26 | only bit 3 can change, and afterwards it is set if it was set before or the interrupt was enabled |
| Graphics.SetVBlankInterruptNeverClears | lostgba/src/Graphics.c:23-26 | disabling leaves the register unchanged |
| Graphics.SetVBlankInterruptIdempotent | lostgba/src/Graphics.c:23-26 | applying the setter twice is applying it once |
| Graphics.SetBlendingMode | lostgba/src/Graphics.c:30-33 | writes the mode into the two-bit field at bit 6 of the blend control register; `Graphics.SetBlendingModeField` and `Graphics.BlendingModeRoundTrip` state it |
| Graphics.SetBlendingModeField | lostgba/src/Graphics.c:30-33 | only bits 6-7 change, and they become the mode's low two bits |
| Graphics.BlendingModeRoundTrip | lostgba/src/Graphics.c:30-33 | the mode read back from bits 6-7 is the mode written, modulo 4 |
| Print.Init | lostgba/src/Print.c:29-37 | request, get and put become 0, bank becomes 0xfd, and the buffer is untouched |
| Print.Advance | lostgba/src/Print.c:51 | `put` counts modulo 2^16 |
| Print.WithByte | lostgba/src/Print.c:49 | an odd position replaces the high byte and keeps the low one; an even position does the reverse |
| Print.PutChar | lostgba/src/Print.c:44-53 | the character is at position `put` afterwards, `put` advances by one, and every other position keeps its character |
| Print.Emit | lostgba/src/Print.c:55-62 | after n characters `put` has advanced by n modulo 2^16, and the rest of the context is unchanged |
| Print.EmitAppend | lostgba/src/Print.c:55-62 | emitting two strings in turn is emitting their concatenation |
| Print.EmitFrame | lostgba/src/Print.c:44-53 | positions at least the string's length ahead of `put` are not touched |
| Print.EmitReadback | lostgba/src/Print.c:44-53 | the k-th character emitted is at position `put + k` when the run does not wrap onto itself |
| Print.Puts | lostgba/src/Print.c:55-62 | the loop puts the string's characters in order, which is what `Emit` describes |
| Print.ExpandPlain | lostgba/src/Print.c:90-93 | a format without `%` needs no arguments and is printed as it stands |
| Print.ExpandPercent | lostgba/src/Print.c:78-81 | `%%` prints a single `%` |
| Print.ExpandString | lostgba/src/Print.c:82-86 | `%s` prints the argument followed by a literal `s` |
| Print.ExpandUnsupported | lostgba/src/Print.c:74-88 | `%` before any other character, `c` and `d` included, prints only that character |
| Print.ExpandLonePercent | lostgba/src/Print.c:72-88 | a `%` at the end of the format prints nothing |
| Print.PrintLn | lostgba/src/Print.c:64-97 | the console is reset, then holds exactly the expansion of the format with its arguments |
| Print.PrintLnReadback | lostgba/src/Print.c:64-97 | when the expansion fits in the 2^16 positions, position k holds its k-th character and `put` is its length modulo 2^16 |

## Left out

- File and console I/O: the model takes the file's contents as an input, and
  drops the `printf`/`fprintf` diagnostics. `Image.c` (PNG decoding through
  spng) and the tool's `main.c` are not modelled.
- Allocation: `Palette16_New`/`Free`, `PaletteOptimiser_Free` and
  allocation failures in `PaletteOptimiser_New` and `OptimisePalettes`.
  `malloc` and `calloc` are assumed to succeed.
- Palette.UnionLength: the definition of `Palette16_UnionLength` is not
  part of this model; it is taken to be the number of distinct colours
  across both palettes.
- ConfigReader.ParseColour: the value of `INVALID_COLOUR` is not part of
  this model, so it is a parameter.
- ConfigReader.Strtol: only the bases 10 and 16 used here, a 64-bit
  `long`, and the C locale. The `end` out-parameter is not modelled, since it is unused.
- ConfigReader.ReadConfig: the file's contents are a Dafny `string` of
  characters, not C bytes. The 255-byte cut counts characters, and
  `isalnum` is taken as ASCII letters and digits, so characters above 127
  are never alphanumeric whatever the C library's locale says.
- ConfigReader.ReadConfig: a file name without a '.' is excluded. The
  source subtracts from the NULL that `strrchr` returns, which is undefined.
- The bodies of `LostGBA_VMemCpy32_Fast` and `LostGBA_VMemCpy16` (ARM code in
  IWRAM) are not part of this model. Both routines are modelled as copying
  their byte count, as the tests of `VMemCpy32` expect.
- LostGbaInternal.SetBits16: `shift` is limited to 0-15, and `length` to at
  most 30, past which `1 << length` overflows a C `int`. In C, a shift of 16
  or more leaves the halfword unchanged when the shifted mask does not
  overflow `int`.
- LostGbaInternal.SetBits16: the field is stated as a mask (FieldMaskBits
  says which bits it covers) rather than bit by bit. Bit-vector proofs with
  a symbolic shift amount are out of the solver's reach once they are
  chained.
- `SystemCall.c` (inline-assembly BIOS calls) and `TileMap.c` (copies to fixed
  hardware addresses) are not modelled.
- The hardware and input calls of `src/main.c` are not modelled:
  - `Interrupt_*`, `Background_*`, `ObjectAttribute_*` and VBlank waits are left out;
  - the key state is an input of `Game.Step`;
  - the world tile map is a parameter, since it is not part of this model.
- PaletteOptimiser.OptimisePalettes: modelled only for a bank that holds
  every tile colour, as it does after every `AddPalette` returned 0. After
  an overflowing `AddPalette` the source can reach the `assert(0)` of
  `getColourIndex`, and that path is not modelled.
- Game.Step: the position is an unbounded integer, so the C `int` overflow
  of `x += xSpeed` after about 2^31 steps in one direction is not modelled.
- Print: the protect-register writes around each access and the
  `swi 0xfa` flush are left out. `char` is taken as unsigned, as on ARM.
  The variadic arguments are a sequence of strings, and passing fewer than
  the format consumes is excluded, because `va_arg` past the end is undefined.
  Strings are given without their terminating NUL, so they hold no zero byte.
- Graphics: the `GraphicsSettings` mode and the blending-mode enum are
  16-bit values. Only their low three and low two bits reach the registers.
- The on-hardware tests (`lostgba/test`) are not modelled.
