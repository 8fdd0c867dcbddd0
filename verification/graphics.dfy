/** The three display-register setters of the library's graphics unit.
    Each register is a halfword; a setter is modelled as the function
    from the register's old contents (where it reads them) to the
    halfword it stores. */
module Graphics {
  import LostGbaInternal

  /** The settings `Graphics_SetMode` packs into the display control
      register. Only the low three bits of `graphicsMode` reach the
      register. */
  datatype GraphicsSettings = GraphicsSettings(
    graphicsMode: bv16,
    enableBG0: bool,
    enableBG1: bool,
    enableBG2: bool,
    enableBG3: bool,
    enableSprites: bool)

  /** A C `bool` promoted to an integer. */
  function Flag(b: bool): bv16
  {
    if b then 1 else 0
  }

  /** Bit 6 of the display control word selects one-dimensional sprite
      tile mapping; `Graphics_SetMode` always sets it. */
  const SPRITES_1D: bv16 := 0x40

  /** The bits `Graphics_SetMode` never sets: 3-5, 7 and 13-15. */
  const RESERVED: bv16 := 0xE0B8

  /** The word `Graphics_SetMode` stores: the mode in bits 0-2, bit 6
      set, the four background flags in bits 8-11 and the sprite flag in
      bit 12. */
  function DisplayControl(settings: GraphicsSettings): (w: bv16)
    ensures w & 7 == settings.graphicsMode & 7
    ensures w & SPRITES_1D == SPRITES_1D
    ensures (w & 0x100 != 0) == settings.enableBG0
    ensures (w & 0x200 != 0) == settings.enableBG1
    ensures (w & 0x400 != 0) == settings.enableBG2
    ensures (w & 0x800 != 0) == settings.enableBG3
    ensures (w & 0x1000 != 0) == settings.enableSprites
    ensures w & RESERVED == 0
  {
    (settings.graphicsMode & LostGbaInternal.AllOnes16(3)) |
    (Flag(true) << 6) |
    (Flag(settings.enableBG0) << 8) |
    (Flag(settings.enableBG1) << 9) |
    (Flag(settings.enableBG2) << 10) |
    (Flag(settings.enableBG3) << 11) |
    (Flag(settings.enableSprites) << 12)
  }

  /** Reading the settings back out of a display control word. */
  function DecodeDisplayControl(w: bv16): (settings: GraphicsSettings)
    ensures settings.graphicsMode < 8
  {
    GraphicsSettings(
      w & 7,
      w & 0x100 != 0,
      w & 0x200 != 0,
      w & 0x400 != 0,
      w & 0x800 != 0,
      w & 0x1000 != 0)
  }

  /** The register keeps every setting, the mode reduced to its low
      three bits. */
  lemma DecodeDisplayControlRoundTrip(settings: GraphicsSettings)
    ensures DecodeDisplayControl(DisplayControl(settings)) ==
            settings.(graphicsMode := settings.graphicsMode & 7)
  {
  }

  /** Every word with bit 6 set and the reserved bits clear is one that
      `Graphics_SetMode` stores, for the settings read back from it. */
  lemma DisplayControlOfDecoded(w: bv16)
    requires w & SPRITES_1D == SPRITES_1D && w & RESERVED == 0
    ensures DisplayControl(DecodeDisplayControl(w)) == w
  {
  }

  /** The VBlank interrupt enable of the display status register. */
  const VBLANK_IRQ: bv16 := 8

  /** `Graphics_SetVBlankInterrupt`: ORs the flag into bit 3 of the
      display status register. */
  function SetVBlankInterrupt(status: bv16, enabled: bool): (r: bv16)
    ensures r & !VBLANK_IRQ == status & !VBLANK_IRQ
    ensures (r & VBLANK_IRQ != 0) == (enabled || status & VBLANK_IRQ != 0)
  {
    status | (Flag(enabled) << 3)
  }

  /** Disabling is a no-op: the setter only ever sets the bit and never
      clears it. */
  lemma SetVBlankInterruptNeverClears(status: bv16)
    ensures SetVBlankInterrupt(status, false) == status
  {
  }

  /** Enabling twice is enabling once. */
  lemma SetVBlankInterruptIdempotent(status: bv16, enabled: bool)
    ensures SetVBlankInterrupt(SetVBlankInterrupt(status, enabled), enabled) ==
            SetVBlankInterrupt(status, enabled)
  {
  }

  /** Bits 6-7 of the blend control register, where the blending mode
      lives. */
  const BLEND_FIELD: bv16 := 0xC0

  /** `Graphics_SetBlendingMode`: a two-bit field at bit 6. The enum
      value is passed as the `u16` value of `LostGBA_SetBits16`. */
  function SetBlendingMode(blend: bv16, mode: bv16): bv16
  {
    LostGbaInternal.SetBits16(blend, mode, 2, 6)
  }

  /** The mode as read back from the blend control register. */
  function BlendingModeOf(blend: bv16): (mode: bv16)
    ensures mode < 4
  {
    (blend >> 6) & 3
  }

  /** Only bits 6-7 change, and they become the low two bits of the
      mode. */
  lemma SetBlendingModeField(blend: bv16, mode: bv16)
    ensures var r := SetBlendingMode(blend, mode);
            r & BLEND_FIELD == (mode & 3) << 6 && r & !BLEND_FIELD == blend & !BLEND_FIELD
  {
  }

  /** The mode read back is the mode written, reduced to two bits. */
  lemma BlendingModeRoundTrip(blend: bv16, mode: bv16)
    ensures BlendingModeOf(SetBlendingMode(blend, mode)) == mode & 3
  {
  }
}
