/** `PaletteOptimiser`: collects one palette per tile together with a bank
    of every colour seen, then greedily builds at most sixteen working
    palettes and assigns each tile to the first one that covers it. */
module PaletteOptimiser {
  import opened CTypes
  import opened Palette

  /** MAX_COLOURS: the size of the colour bank. */
  const MaxColours: nat := 256

  /** MAX_COLOURS / PALETTE16_NUM_COLOURS: how many working palettes fit. */
  const MaxPalettes: nat := MaxColours / NumColours

  /** The optimiser: the tile palettes in the order they were added, the
      capacity given at creation, and the colour bank in first-seen order. */
  datatype Optimiser = Optimiser(palettes: seq<Palette16>, maxPalettes: nat, colours: seq<u16>)

  predicate NoDuplicates(s: seq<u16>)
  {
    forall i, j :: 0 <= i < j < |s| ==> s[i] != s[j]
  }

  /** A colour bank: duplicate-free and within MAX_COLOURS entries. */
  predicate BankValid(bank: seq<u16>)
  {
    NoDuplicates(bank) && |bank| <= MaxColours
  }

  predicate TilesValid(tiles: seq<Palette16>)
  {
    forall i :: 0 <= i < |tiles| ==> Palette.Valid(tiles[i])
  }

  /** What an optimiser keeps between calls. */
  predicate Wellformed(o: Optimiser)
  {
    && |o.palettes| <= o.maxPalettes
    && TilesValid(o.palettes)
    && BankValid(o.colours)
  }

  /** PaletteOptimiser_New, leaving out allocation failure. */
  function New(nMaxPalettes: nat): (o: Optimiser)
    ensures Wellformed(o) && o.palettes == [] && o.colours == [] && o.maxPalettes == nMaxPalettes
  {
    Optimiser([], nMaxPalettes, [])
  }

  /** The linear search of the bank from index `i`: the first index holding
      `colour`, or -1. */
  function FindFrom(bank: seq<u16>, colour: u16, i: nat): (r: int)
    requires i <= |bank|
    ensures r == -1 <==> colour !in bank[i..]
    ensures r != -1 ==> i <= r < |bank| && bank[r] == colour && colour !in bank[i..r]
    decreases |bank| - i
  {
    if i == |bank| then -1
    else if bank[i] == colour then
      assert bank[i] in bank[i..];
      i
    else
      assert bank[i..] == [bank[i]] + bank[i + 1..];
      var r := FindFrom(bank, colour, i + 1);
      assert r != -1 ==> bank[i..r] == [bank[i]] + bank[i + 1..r];
      r
  }

  /** The outcome of a bank update: the error code returned and the bank
      afterwards. */
  datatype BankUpdate = BankUpdate(error: int, colours: seq<u16>)

  /** PaletteOptimiser_addColour: a colour already in the bank is a no-op
      returning 0; a new colour is appended, unless the bank already holds
      MAX_COLOURS entries, which returns 1 and leaves it unchanged. */
  function AddBankColour(bank: seq<u16>, colour: u16): (r: BankUpdate)
    requires BankValid(bank)
    ensures BankValid(r.colours)
    ensures colour in bank ==> r == BankUpdate(0, bank)
    ensures colour !in bank && |bank| == MaxColours ==> r == BankUpdate(1, bank)
    ensures colour !in bank && |bank| < MaxColours ==> r == BankUpdate(0, bank + [colour])
  {
    assert bank[0..] == bank;
    if FindFrom(bank, colour, 0) != -1 then BankUpdate(0, bank)
    else if |bank| == MaxColours then BankUpdate(1, bank)
    else BankUpdate(0, bank + [colour])
  }

  /** The colours of `tile` not in `seen`, each once, in the order they
      first appear. */
  function Fresh(seen: seq<u16>, tile: seq<u16>): (f: seq<u16>)
    ensures NoDuplicates(f)
    ensures forall c :: c in f <==> c in tile && c !in seen
    decreases |tile|
  {
    if |tile| == 0 then []
    else if tile[0] in seen then Fresh(seen, tile[1..])
    else
      var rest := Fresh(seen + [tile[0]], tile[1..]);
      assert tile == [tile[0]] + tile[1..];
      assert tile[0] !in rest;
      assert forall j :: 0 < j < |rest| + 1 ==> ([tile[0]] + rest)[j] == rest[j - 1];
      [tile[0]] + rest
  }

  /** At most the first `n` entries of `s`. */
  function Take(s: seq<u16>, n: nat): seq<u16>
  {
    if |s| <= n then s else s[..n]
  }

  /** The loop of PaletteOptimiser_addColours from entry `i` of the tile's
      colours, which stops at the first colour the bank refuses: the new
      colours are appended in the tile's order until the bank is full. */
  function AddBankColoursFrom(bank: seq<u16>, tile: seq<u16>, i: nat): (r: BankUpdate)
    requires BankValid(bank) && i <= |tile|
    ensures BankValid(r.colours)
    ensures r.error == 0 || r.error == 1
    ensures bank <= r.colours
    ensures SetOf(r.colours) <= SetOf(bank) + SetOf(tile[i..])
    ensures r.error == 0 <==> SetOf(tile[i..]) <= SetOf(r.colours)
    ensures r.error == 1 ==> |r.colours| == MaxColours
    decreases |tile| - i
  {
    if i == |tile| then
      BankUpdate(0, bank)
    else
      var u := AddBankColour(bank, tile[i]);
      assert tile[i..] == [tile[i]] + tile[i + 1..];
      assert SetOf(tile[i..]) == {tile[i]} + SetOf(tile[i + 1..]);
      if u.error != 0 then
        assert tile[i] in SetOf(tile[i..]);
        u
      else
        var r := AddBankColoursFrom(u.colours, tile, i + 1);
        assert tile[i] in SetOf(u.colours);
        r
  }

  lemma TakeCons(bank: seq<u16>, c: u16, f: seq<u16>, n: nat)
    requires n > 0
    ensures (bank + [c]) + Take(f, n - 1) == bank + Take([c] + f, n)
  {
    assert Take([c] + f, n) == [c] + Take(f, n - 1);
  }

  /** The bank grows by the tile's new colours in the order they first
      appear, cut off where the bank is full; the loop fails exactly when
      some new colour is left over. */
  lemma {:induction false} AddBankColoursOrder(bank: seq<u16>, tile: seq<u16>, i: nat)
    requires BankValid(bank) && i <= |tile|
    ensures var r := AddBankColoursFrom(bank, tile, i);
            var f := Fresh(bank, tile[i..]);
            && r.colours == bank + Take(f, MaxColours - |bank|)
            && (r.error == 1 <==> |f| > MaxColours - |bank|)
    decreases |tile| - i
  {
    var r := AddBankColoursFrom(bank, tile, i);
    if i == |tile| {
      assert tile[i..] == [];
      assert r.colours == bank + Take([], MaxColours - |bank|);
    } else {
      var c := tile[i];
      assert tile[i..][0] == c && tile[i..][1..] == tile[i + 1..];
      if c in bank {
        assert Fresh(bank, tile[i..]) == Fresh(bank, tile[i + 1..]);
        assert r == AddBankColoursFrom(bank, tile, i + 1);
        AddBankColoursOrder(bank, tile, i + 1);
        assert r.colours == bank + Take(Fresh(bank, tile[i..]), MaxColours - |bank|);
      } else if |bank| < MaxColours {
        assert r == AddBankColoursFrom(bank + [c], tile, i + 1);
        AddBankColoursOrder(bank + [c], tile, i + 1);
        var f := Fresh(bank + [c], tile[i + 1..]);
        assert Fresh(bank, tile[i..]) == [c] + f;
        TakeCons(bank, c, f, MaxColours - |bank|);
        assert r.colours == bank + Take(Fresh(bank, tile[i..]), MaxColours - |bank|);
      } else {
        assert r == BankUpdate(1, bank);
        assert Fresh(bank, tile[i..])[0] == c;
        assert Take(Fresh(bank, tile[i..]), 0) == [];
        assert r.colours == bank + Take(Fresh(bank, tile[i..]), MaxColours - |bank|);
      }
    }
  }

  /** PaletteOptimiser_addColours: merges a tile's colours into the bank,
      keeping the bank's first-seen order; 0 exactly when every colour of
      the tile is now in the bank. */
  function AddBankColours(bank: seq<u16>, tile: Palette16): (r: BankUpdate)
    requires BankValid(bank)
    ensures BankValid(r.colours)
    ensures bank <= r.colours
    ensures SetOf(r.colours) <= SetOf(bank) + Elems(tile)
    ensures r.error == 0 <==> Elems(tile) <= SetOf(r.colours)
    ensures r.error != 0 ==> r.error == 1 && |r.colours| == MaxColours
    ensures var f := Fresh(bank, tile.colours);
            r.colours == bank + Take(f, MaxColours - |bank|)
            && (r.error == 1 <==> |f| > MaxColours - |bank|)
  {
    assert tile.colours[0..] == tile.colours;
    AddBankColoursOrder(bank, tile.colours, 0);
    AddBankColoursFrom(bank, tile.colours, 0)
  }

  /** The result of PaletteOptimiser_AddPalette: the error code and the
      optimiser afterwards. */
  datatype Appended = Appended(error: int, optimiser: Optimiser)

  /** PaletteOptimiser_AddPalette: stores the tile's palette at the next
      index and merges its colours into the bank; non-zero exactly when some
      colour of the tile could not enter the bank. */
  function AddPalette(o: Optimiser, tile: Palette16): (r: Appended)
    requires Wellformed(o) && Palette.Valid(tile)
    requires |o.palettes| < o.maxPalettes
    ensures Wellformed(r.optimiser)
    ensures r.optimiser.palettes == o.palettes + [tile]
    ensures r.optimiser.maxPalettes == o.maxPalettes
    ensures o.colours <= r.optimiser.colours
    ensures SetOf(r.optimiser.colours) <= SetOf(o.colours) + Elems(tile)
    ensures r.error == 0 <==> Elems(tile) <= SetOf(r.optimiser.colours)
    ensures r.error != 0 ==> |r.optimiser.colours| == MaxColours
    ensures var f := Fresh(o.colours, tile.colours);
            r.optimiser.colours == o.colours + Take(f, MaxColours - |o.colours|)
            && (r.error != 0 <==> |f| > MaxColours - |o.colours|)
  {
    var u := AddBankColours(o.colours, tile);
    Appended(u.error, Optimiser(o.palettes + [tile], o.maxPalettes, u.colours))
  }

  /** PaletteOptimiser_getColourIndex, whose assertion demands that the
      colour be in the bank: the first index holding it. */
  function GetColourIndex(bank: seq<u16>, colour: u16): (k: nat)
    requires colour in bank
    ensures k < |bank| && bank[k] == colour
    ensures forall j :: 0 <= j < k ==> bank[j] != colour
  {
    assert bank[0..] == bank;
    var k := FindFrom(bank, colour, 0);
    assert forall j :: 0 <= j < k ==> bank[j] in bank[0..k];
    k
  }

  /** The tiles still to satisfy: `None` stands for the NULL a satisfied
      tile is overwritten with. */
  predicate PendingValid(pending: seq<Option<Palette16>>)
  {
    forall i :: 0 <= i < |pending| && pending[i].Some? ==> Palette.Valid(pending[i].value)
  }

  /** Every colour of every pending tile is in the bank, as
      getColourIndex requires. */
  predicate BankCovers(bank: seq<u16>, pending: seq<Option<Palette16>>)
  {
    forall i :: 0 <= i < |pending| && pending[i].Some? ==> Elems(pending[i].value) <= SetOf(bank)
  }

  /** A pending tile the working palette can still be grown to cover: not
      NULL, its union with the palette within sixteen colours, and not
      already contained in the palette. */
  predicate Eligible(palette: Palette16, slot: Option<Palette16>)
    requires Palette.Valid(palette)
    requires slot.Some? ==> Palette.Valid(slot.value)
  {
    && slot.Some?
    && UnionLength(palette, slot.value) <= NumColours
    && Contains(palette, slot.value) != -1
  }

  /** Reference count for one entry of `colourUsage`: the number of
      eligible tiles that hold `c` while the working palette does not. */
  function Usage(palette: Palette16, pending: seq<Option<Palette16>>, c: u16): nat
    requires Palette.Valid(palette) && PendingValid(pending)
    decreases |pending|
  {
    if |pending| == 0 then 0
    else
      var last := pending[|pending| - 1];
      var counts := Eligible(palette, last) && c in Elems(last.value) && c !in Elems(palette);
      Usage(palette, pending[..|pending| - 1], c) + (if counts then 1 else 0)
  }

  /** Counting one more tile adds its contribution to every colour. */
  lemma UsageExtend(palette: Palette16, pending: seq<Option<Palette16>>, i: nat)
    requires Palette.Valid(palette) && PendingValid(pending) && i < |pending|
    ensures forall c :: Usage(palette, pending[..i + 1], c) ==
              Usage(palette, pending[..i], c) + (if Eligible(palette, pending[i]) && c in Elems(pending[i].value) && c !in Elems(palette) then 1 else 0)
  {
    assert pending[..i + 1][..i] == pending[..i];
  }

  /** Some pending tile is eligible. */
  predicate SomeEligible(palette: Palette16, pending: seq<Option<Palette16>>)
    requires Palette.Valid(palette) && PendingValid(pending)
  {
    exists i :: 0 <= i < |pending| && Eligible(palette, pending[i])
  }

  lemma SomeEligibleGrow(palette: Palette16, pending: seq<Option<Palette16>>, i: nat)
    requires Palette.Valid(palette) && PendingValid(pending) && i < |pending|
    requires SomeEligible(palette, pending[..i]) || Eligible(palette, pending[i])
    ensures SomeEligible(palette, pending[..i + 1])
  {
    var after := pending[..i + 1];
    if Eligible(palette, pending[i]) {
      assert after[i] == pending[i];
    } else {
      var j :| 0 <= j < i && Eligible(palette, pending[..i][j]);
      assert after[j] == pending[..i][j];
    }
  }

  lemma SomeEligibleShrink(palette: Palette16, pending: seq<Option<Palette16>>, i: nat)
    requires Palette.Valid(palette) && PendingValid(pending) && i < |pending|
    requires SomeEligible(palette, pending[..i + 1])
    ensures SomeEligible(palette, pending[..i]) || Eligible(palette, pending[i])
  {
    var before, after := pending[..i], pending[..i + 1];
    if !SomeEligible(palette, before) && !Eligible(palette, pending[i]) {
      forall j | 0 <= j < i + 1
        ensures !Eligible(palette, after[j])
      {
        if j < i {
          assert after[j] == before[j];
        } else {
          assert after[j] == pending[i];
        }
      }
      assert false;
    }
  }

  lemma SomeEligibleExtend(palette: Palette16, pending: seq<Option<Palette16>>, i: nat)
    requires Palette.Valid(palette) && PendingValid(pending) && i < |pending|
    ensures SomeEligible(palette, pending[..i + 1]) <==>
              SomeEligible(palette, pending[..i]) || Eligible(palette, pending[i])
  {
    if SomeEligible(palette, pending[..i]) || Eligible(palette, pending[i]) {
      SomeEligibleGrow(palette, pending, i);
    }
    if SomeEligible(palette, pending[..i + 1]) {
      SomeEligibleShrink(palette, pending, i);
    }
  }

  /** A colour the palette already has is never counted. */
  lemma {:induction false} UsageOfPresentColour(palette: Palette16, pending: seq<Option<Palette16>>, c: u16)
    requires Palette.Valid(palette) && PendingValid(pending)
    requires c in Elems(palette)
    ensures Usage(palette, pending, c) == 0
    decreases |pending|
  {
    if |pending| > 0 {
      UsageOfPresentColour(palette, pending[..|pending| - 1], c);
    }
  }

  /** A colour that some eligible tile still misses is counted at least once. */
  lemma {:induction false} UsageOfNeededColour(palette: Palette16, pending: seq<Option<Palette16>>, c: u16, i: nat)
    requires Palette.Valid(palette) && PendingValid(pending)
    requires i < |pending| && Eligible(palette, pending[i])
    requires c in Elems(pending[i].value) && c !in Elems(palette)
    ensures Usage(palette, pending, c) >= 1
    decreases |pending|
  {
    if i < |pending| - 1 {
      UsageOfNeededColour(palette, pending[..|pending| - 1], c, i);
    }
  }

  /** An eligible tile has a colour the palette lacks. */
  lemma EligibleNeedsColour(palette: Palette16, slot: Option<Palette16>)
    requires Palette.Valid(palette)
    requires slot.Some? ==> Palette.Valid(slot.value)
    requires Eligible(palette, slot)
    ensures exists c :: c in Elems(slot.value) && c !in Elems(palette)
  {
    ContainsIsSubset(palette, slot.value);
  }

  /** `usage` is `before` with one more at the bank index of every colour
      of `seen` that the palette lacks. */
  ghost predicate Counted(bank: seq<u16>, palette: Palette16, seen: seq<u16>, before: seq<nat>, usage: seq<nat>)
    requires |before| == |usage| == MaxColours && |bank| <= MaxColours
  {
    && (forall k :: 0 <= k < |bank| ==>
          usage[k] == before[k] + (if bank[k] in seen && bank[k] !in Elems(palette) then 1 else 0))
    && (forall k :: |bank| <= k < MaxColours ==> usage[k] == before[k])
  }

  /** A colour the palette already holds changes no count. */
  lemma CountSkip(bank: seq<u16>, palette: Palette16, seen: seq<u16>, colour: u16, before: seq<nat>, usage: seq<nat>)
    requires |before| == |usage| == MaxColours && |bank| <= MaxColours
    requires colour in Elems(palette) && Counted(bank, palette, seen, before, usage)
    ensures Counted(bank, palette, seen + [colour], before, usage)
  {
    forall k | 0 <= k < |bank|
      ensures (bank[k] in seen + [colour] && bank[k] !in Elems(palette)) <==> (bank[k] in seen && bank[k] !in Elems(palette))
    {
    }
  }

  /** A new colour the palette lacks adds one at its own bank index only. */
  lemma CountBump(bank: seq<u16>, palette: Palette16, seen: seq<u16>, colour: u16, idx: nat,
                  before: seq<nat>, usage: seq<nat>)
    requires |before| == |usage| == MaxColours && BankValid(bank)
    requires idx < |bank| && bank[idx] == colour && colour !in seen && colour !in Elems(palette)
    requires Counted(bank, palette, seen, before, usage)
    ensures Counted(bank, palette, seen + [colour], before, usage[idx := usage[idx] + 1])
  {
    forall k | 0 <= k < |bank| && k != idx
      ensures bank[k] != colour
    {
      if idx < k {
        assert bank[idx] != bank[k];
      }
    }
  }

  /** The inner loop of the counting pass of findMaximalPaletteFor for one
      eligible tile: every colour of the tile that the palette lacks bumps
      its bank index by one; `missing` records that one did. */
  method CountTileColours(bank: seq<u16>, palette: Palette16, tile: Palette16, before: seq<nat>)
    returns (usage: seq<nat>, missing: bool)
    requires BankValid(bank) && Palette.Valid(palette) && Palette.Valid(tile)
    requires Elems(tile) <= SetOf(bank) && |before| == MaxColours
    ensures |usage| == MaxColours
    ensures forall k :: 0 <= k < |bank| ==>
              usage[k] == before[k] + (if bank[k] in Elems(tile) && bank[k] !in Elems(palette) then 1 else 0)
    ensures forall k :: |bank| <= k < MaxColours ==> usage[k] == before[k]
    ensures missing <==> !(Elems(tile) <= Elems(palette))
  {
    usage := before;
    missing := false;
    var j := 0;
    while j < |tile.colours|
      invariant 0 <= j <= |tile.colours| && |usage| == MaxColours
      invariant Counted(bank, palette, tile.colours[..j], before, usage)
      invariant missing <==> exists m :: 0 <= m < j && tile.colours[m] !in Elems(palette)
    {
      var colour := tile.colours[j];
      assert tile.colours[..j + 1] == tile.colours[..j] + [colour];
      if !HasColour(palette, colour) {
        assert colour in Elems(tile);
        var idx := GetColourIndex(bank, colour);
        assert colour !in tile.colours[..j] by {
          forall m | 0 <= m < j
            ensures tile.colours[m] != colour
          {
            assert tile.colours[m] < tile.colours[j];
          }
        }
        CountBump(bank, palette, tile.colours[..j], colour, idx, before, usage);
        usage := usage[idx := usage[idx] + 1];
        missing := true;
      } else {
        CountSkip(bank, palette, tile.colours[..j], colour, before, usage);
      }
      j := j + 1;
    }
    assert tile.colours[..j] == tile.colours;
  }

  /** One iteration of the counting pass: a tile that is NULL, too big to
      complete, or already contained is skipped; `counted` says whether it
      was eligible (an eligible tile always misses some colour). */
  method CountSlot(bank: seq<u16>, palette: Palette16, slot: Option<Palette16>, before: seq<nat>)
    returns (usage: seq<nat>, counted: bool)
    requires BankValid(bank) && Palette.Valid(palette) && |before| == MaxColours
    requires slot.Some? ==> Palette.Valid(slot.value) && Elems(slot.value) <= SetOf(bank)
    ensures |usage| == MaxColours
    ensures forall k :: 0 <= k < |bank| ==>
              usage[k] == before[k] + (if Eligible(palette, slot) && bank[k] in Elems(slot.value) && bank[k] !in Elems(palette) then 1 else 0)
    ensures forall k :: |bank| <= k < MaxColours ==> usage[k] == before[k]
    ensures counted <==> Eligible(palette, slot)
  {
    if slot.Some? && UnionLength(palette, slot.value) <= NumColours && Contains(palette, slot.value) != -1 {
      EligibleNeedsColour(palette, slot);
      usage, counted := CountTileColours(bank, palette, slot.value, before);
    } else {
      usage, counted := before, false;
    }
  }

  /** The counting pass of findMaximalPaletteFor: `colourUsage` (all
      MAX_COLOURS entries) and `aColourIsUsed`. Each tile that is NULL, too
      big to complete, or already contained contributes nothing. */
  method ColourUsage(bank: seq<u16>, palette: Palette16, pending: seq<Option<Palette16>>)
    returns (usage: seq<nat>, used: bool)
    requires BankValid(bank) && Palette.Valid(palette)
    requires PendingValid(pending) && BankCovers(bank, pending)
    ensures |usage| == MaxColours
    ensures forall k :: 0 <= k < |bank| ==> usage[k] == Usage(palette, pending, bank[k])
    ensures forall k :: |bank| <= k < MaxColours ==> usage[k] == 0
    ensures used <==> SomeEligible(palette, pending)
  {
    usage := seq(MaxColours, _ => 0);
    used := false;
    var i := 0;
    while i < |pending|
      invariant 0 <= i <= |pending| && |usage| == MaxColours
      invariant forall k :: 0 <= k < |bank| ==> usage[k] == Usage(palette, pending[..i], bank[k])
      invariant forall k :: |bank| <= k < MaxColours ==> usage[k] == 0
      invariant used <==> SomeEligible(palette, pending[..i])
    {
      UsageExtend(palette, pending, i);
      SomeEligibleExtend(palette, pending, i);
      var counted;
      usage, counted := CountSlot(bank, palette, pending[i], usage);
      used := used || counted;
      i := i + 1;
    }
    assert pending[..i] == pending;
  }

  /** The selection loop of findMaximalPaletteFor over the first `nColours`
      entries: the lowest index whose usage is maximal (a later index wins
      only with a strictly larger count); index 0 when there are none. */
  method BestIndex(usage: seq<nat>, nColours: nat) returns (best: nat)
    requires 0 < |usage| && nColours <= |usage|
    ensures best < |usage|
    ensures nColours == 0 ==> best == 0
    ensures nColours > 0 ==> best < nColours
    ensures forall k :: 0 <= k < nColours ==> usage[k] <= usage[best]
    ensures forall k :: 0 <= k < best ==> usage[k] < usage[best]
  {
    best := 0;
    var i := 1;
    while i < nColours
      invariant 1 <= i <= (if nColours == 0 then 1 else nColours)
      invariant best < i
      invariant forall k :: 0 <= k < i ==> usage[k] <= usage[best]
      invariant forall k :: 0 <= k < best ==> usage[k] < usage[best]
    {
      if usage[best] < usage[i] {
        best := i;
      }
      i := i + 1;
    }
  }

  /** While some tile is eligible, the colour selected has a positive count,
      so it is a bank colour the palette does not have yet. */
  lemma BestColourIsNew(bank: seq<u16>, palette: Palette16, pending: seq<Option<Palette16>>,
                        usage: seq<nat>, best: nat)
    requires BankValid(bank) && Palette.Valid(palette)
    requires PendingValid(pending) && BankCovers(bank, pending)
    requires |usage| == MaxColours
    requires forall k :: 0 <= k < |bank| ==> usage[k] == Usage(palette, pending, bank[k])
    requires SomeEligible(palette, pending)
    requires |bank| > 0 ==> best < |bank|
    requires forall k :: 0 <= k < |bank| ==> usage[k] <= usage[best]
    ensures best < |bank| && bank[best] !in Elems(palette)
  {
    var i :| 0 <= i < |pending| && Eligible(palette, pending[i]);
    EligibleNeedsColour(palette, pending[i]);
    var c :| c in Elems(pending[i].value) && c !in Elems(palette);
    UsageOfNeededColour(palette, pending, c, i);
    var k := GetColourIndex(bank, c);
    assert usage[best] >= usage[k] >= 1;
    if bank[best] in Elems(palette) {
      UsageOfPresentColour(palette, pending, bank[best]);
    }
  }

  /** Bank index `k` holds the colour findMaximalPaletteFor adds next: no
      bank colour is missed by more eligible tiles, and every earlier one
      is missed by strictly fewer. */
  predicate IsBest(bank: seq<u16>, palette: Palette16, pending: seq<Option<Palette16>>, k: nat)
    requires Palette.Valid(palette) && PendingValid(pending)
  {
    && k < |bank|
    && (forall j :: 0 <= j < |bank| ==> Usage(palette, pending, bank[j]) <= Usage(palette, pending, bank[k]))
    && (forall j :: 0 <= j < k ==> Usage(palette, pending, bank[j]) < Usage(palette, pending, bank[k]))
  }

  /** At most one index is the first maximal one. */
  lemma BestUnique(bank: seq<u16>, palette: Palette16, pending: seq<Option<Palette16>>, k1: nat, k2: nat)
    requires Palette.Valid(palette) && PendingValid(pending)
    requires IsBest(bank, palette, pending, k1) && IsBest(bank, palette, pending, k2)
    ensures k1 == k2
  {
    var u1, u2 := Usage(palette, pending, bank[k1]), Usage(palette, pending, bank[k2]);
    assert u1 == u2;
  }

  /** A non-empty bank has a first maximal index. */
  lemma BestExists(bank: seq<u16>, palette: Palette16, pending: seq<Option<Palette16>>)
    requires Palette.Valid(palette) && PendingValid(pending) && |bank| > 0
    ensures exists k :: IsBest(bank, palette, pending, k)
  {
    var u := seq(|bank|, j requires 0 <= j < |bank| => Usage(palette, pending, bank[j]));
    assert forall j :: 0 <= j < |bank| ==> u[j] == Usage(palette, pending, bank[j]);
    var best, i := 0, 1;
    while i < |bank|
      invariant best < i <= |bank|
      invariant forall j :: 0 <= j < i ==> u[j] <= u[best]
      invariant forall j :: 0 <= j < best ==> u[j] < u[best]
    {
      if u[best] < u[i] {
        best := i;
      }
      i := i + 1;
    }
    assert IsBest(bank, palette, pending, best);
  }

  /** While some tile is eligible, the bank is not empty. */
  lemma EligibleBankNonEmpty(bank: seq<u16>, palette: Palette16, pending: seq<Option<Palette16>>)
    requires Palette.Valid(palette) && PendingValid(pending) && BankCovers(bank, pending)
    requires SomeEligible(palette, pending)
    ensures |bank| > 0
  {
    var i :| 0 <= i < |pending| && Eligible(palette, pending[i]);
    EligibleNeedsColour(palette, pending[i]);
    var c :| c in Elems(pending[i].value) && c !in Elems(palette);
    assert c in SetOf(bank);
  }

  /** The bank index of the colour one greedy round adds. */
  ghost function BestOf(bank: seq<u16>, palette: Palette16, pending: seq<Option<Palette16>>): (k: nat)
    requires Palette.Valid(palette) && PendingValid(pending) && BankCovers(bank, pending)
    requires SomeEligible(palette, pending)
    ensures IsBest(bank, palette, pending, k)
  {
    EligibleBankNonEmpty(bank, palette, pending);
    BestExists(bank, palette, pending);
    var k :| IsBest(bank, palette, pending, k);
    k
  }

  /** The first maximal colour is new to the palette. */
  lemma BestIsNew(bank: seq<u16>, palette: Palette16, pending: seq<Option<Palette16>>, k: nat)
    requires BankValid(bank) && Palette.Valid(palette)
    requires PendingValid(pending) && BankCovers(bank, pending)
    requires SomeEligible(palette, pending) && IsBest(bank, palette, pending, k)
    ensures bank[k] !in Elems(palette)
  {
    var usage := seq(MaxColours, j requires 0 <= j < MaxColours =>
                       if j < |bank| then Usage(palette, pending, bank[j]) else 0);
    BestColourIsNew(bank, palette, pending, usage, k);
  }

  /** Reference for findMaximalPaletteFor from a given palette: stop when
      no tile is eligible; otherwise add the first bank colour of maximal
      usage, and stop once the palette is full. */
  ghost function Greedy(bank: seq<u16>, pending: seq<Option<Palette16>>, palette: Palette16): Palette16
    requires BankValid(bank) && PendingValid(pending) && BankCovers(bank, pending)
    requires Palette.Valid(palette) && |palette.colours| < NumColours
    decreases NumColours - |palette.colours|
  {
    if !SomeEligible(palette, pending) then palette
    else
      var k := BestOf(bank, palette, pending);
      BestIsNew(bank, palette, pending, k);
      var added := AddColour(palette, bank[k]);
      if added.count == NumColours then added.palette
      else Greedy(bank, pending, added.palette)
  }

  /** How findMaximalPaletteFor can stop: the palette is full, or no pending
      tile is eligible any more. */
  predicate Saturated(palette: Palette16, pending: seq<Option<Palette16>>)
    requires Palette.Valid(palette) && PendingValid(pending)
  {
    |palette.colours| == NumColours || forall i :: 0 <= i < |pending| ==> !Eligible(palette, pending[i])
  }

  /** PaletteOptimiser_findMaximalPaletteFor: starting from the transparent
      colour alone, repeatedly adds the bank colour that most eligible tiles
      miss, until the palette is full or no tile is eligible. */
  method FindMaximalPaletteFor(bank: seq<u16>, pending: seq<Option<Palette16>>, transparentColour: u16)
    returns (palette: Palette16)
    requires BankValid(bank) && PendingValid(pending) && BankCovers(bank, pending)
    ensures Palette.Valid(palette)
    ensures transparentColour in Elems(palette)
    ensures Elems(palette) <= {transparentColour} + SetOf(bank)
    ensures Saturated(palette, pending)
    ensures palette == Greedy(bank, pending, AddColour(Empty(), transparentColour).palette)
  {
    palette := AddColour(Empty(), transparentColour).palette;
    ghost var target := Greedy(bank, pending, palette);
    while true
      invariant Palette.Valid(palette) && |palette.colours| < NumColours
      invariant transparentColour in Elems(palette)
      invariant Elems(palette) <= {transparentColour} + SetOf(bank)
      invariant Greedy(bank, pending, palette) == target
      decreases NumColours - |palette.colours|
    {
      var usage, used := ColourUsage(bank, palette, pending);
      if !used {
        break;
      }
      var best := BestIndex(usage, |bank|);
      BestColourIsNew(bank, palette, pending, usage, best);
      assert IsBest(bank, palette, pending, best);
      BestUnique(bank, palette, pending, best, BestOf(bank, palette, pending));
      var bestColour := bank[best];
      var added := AddColour(palette, bestColour);
      palette := added.palette;
      if added.count == NumColours {
        break;
      }
    }
  }

  /** The palette lies strictly inside no pending tile. */
  predicate NeverInside(palette: Palette16, pending: seq<Option<Palette16>>)
  {
    forall i :: 0 <= i < |pending| && pending[i].Some? ==> !(Elems(palette) < Elems(pending[i].value))
  }

  /** Where findMaximalPaletteFor stopped, the palette is never strictly
      inside a pending tile, so Palette16_Contains cannot answer 1 there. */
  lemma SaturatedNeverInside(palette: Palette16, pending: seq<Option<Palette16>>)
    requires Palette.Valid(palette) && PendingValid(pending)
    requires Saturated(palette, pending)
    ensures NeverInside(palette, pending)
  {
    forall i | 0 <= i < |pending| && pending[i].Some?
      ensures !(Elems(palette) < Elems(pending[i].value))
    {
      ContainsIsSubset(palette, pending[i].value);
    }
  }

  /** The palette-building step of OptimisePalettes, with the one fact about
      saturation the assignment loop relies on. */
  method NextPalette(bank: seq<u16>, pending: seq<Option<Palette16>>, transparentColour: u16)
    returns (palette: Palette16)
    requires BankValid(bank) && PendingValid(pending) && BankCovers(bank, pending)
    ensures Palette.Valid(palette) && transparentColour in Elems(palette)
    ensures NeverInside(palette, pending)
    ensures palette == Greedy(bank, pending, AddColour(Empty(), transparentColour).palette)
  {
    palette := FindMaximalPaletteFor(bank, pending, transparentColour);
    SaturatedNeverInside(palette, pending);
  }

  /** The test of OptimisePalettes' assignment loop, a non-zero
      Palette16_Contains: a subset test wherever the palette is not strictly
      inside the tile. */
  method Covers(palette: Palette16, tile: Palette16) returns (covered: bool)
    requires Palette.Valid(palette) && Palette.Valid(tile)
    requires !(Elems(palette) < Elems(tile))
    ensures covered <==> Elems(tile) <= Elems(palette)
  {
    ContainsIsSubset(palette, tile);
    covered := Contains(palette, tile) != 0;
  }

  /** The number of satisfied (NULL) entries. */
  function CountNone(pending: seq<Option<Palette16>>): (n: nat)
    ensures n <= |pending|
    ensures n == |pending| <==> forall i :: 0 <= i < |pending| ==> pending[i].None?
    ensures n == 0 <==> forall i :: 0 <= i < |pending| ==> pending[i].Some?
  {
    if |pending| == 0 then 0
    else (if pending[0].None? then 1 else 0) + CountNone(pending[1..])
  }

  /** Satisfying one more tile raises the count by one. */
  lemma {:induction false} CountNoneSatisfy(pending: seq<Option<Palette16>>, i: nat)
    requires i < |pending| && pending[i].Some?
    ensures CountNone(pending[i := None]) == CountNone(pending) + 1
    decreases |pending|
  {
    if i > 0 {
      assert pending[i := None][1..] == pending[1..][i - 1 := None];
      CountNoneSatisfy(pending[1..], i - 1);
    } else {
      assert pending[i := None][1..] == pending[1..];
    }
  }

  /** The result of PaletteOptimiser_OptimisePalettes: the working palettes
      built (their number is `nPalettes`) and the palette index per tile. */
  datatype Optimisation = Optimisation(palettes: seq<Palette16>, assignment: seq<int>)

  /** `tile` is covered by palette `q` of `palettes`. */
  predicate CoveredBy(tile: Palette16, palettes: seq<Palette16>, q: nat)
    requires q < |palettes|
  {
    Elems(tile) <= Elems(palettes[q])
  }

  /** The assignment loop of OptimisePalettes for a freshly built palette
      numbered `number`: each tile still pending that the palette covers is
      assigned to it and overwritten with NULL; `satisfied` is the new count
      of NULL entries. */
  method AssignTiles(tiles: seq<Palette16>, palette: Palette16, number: nat,
                     start: seq<Option<Palette16>>, startAssignments: seq<int>)
    returns (pending: seq<Option<Palette16>>, assignments: seq<int>, satisfied: nat)
    requires TilesValid(tiles) && Palette.Valid(palette)
    requires |start| == |startAssignments| == |tiles|
    requires forall i :: 0 <= i < |tiles| ==> start[i] == None || start[i] == Some(tiles[i])
    requires NeverInside(palette, start)
    ensures |pending| == |assignments| == |tiles|
    ensures forall k :: 0 <= k < |tiles| ==> pending[k] == None || pending[k] == start[k]
    ensures forall k :: 0 <= k < |tiles| && start[k].None? ==> assignments[k] == startAssignments[k]
    ensures forall k :: 0 <= k < |tiles| && start[k].Some? && pending[k].None? ==>
              assignments[k] == number && Elems(tiles[k]) <= Elems(palette)
    ensures forall k :: 0 <= k < |tiles| && pending[k].Some? ==>
              assignments[k] == startAssignments[k] && !(Elems(tiles[k]) <= Elems(palette))
    ensures satisfied == CountNone(pending)
  {
    pending, assignments := start, startAssignments;
    satisfied := CountNone(start);
    var i := 0;
    while i < |tiles|
      invariant 0 <= i <= |tiles| && |pending| == |assignments| == |tiles|
      invariant forall k :: i <= k < |tiles| ==> pending[k] == start[k] && assignments[k] == startAssignments[k]
      invariant forall k :: 0 <= k < i ==> pending[k] == None || pending[k] == start[k]
      invariant forall k :: 0 <= k < i && start[k].None? ==> assignments[k] == startAssignments[k]
      invariant forall k :: 0 <= k < i && start[k].Some? && pending[k].None? ==>
                  assignments[k] == number && Elems(tiles[k]) <= Elems(palette)
      invariant forall k :: 0 <= k < i && pending[k].Some? ==>
                  assignments[k] == startAssignments[k] && !(Elems(tiles[k]) <= Elems(palette))
      invariant satisfied == CountNone(pending)
    {
      if pending[i].Some? {
        var covered := Covers(palette, tiles[i]);
        if covered {
          assignments := assignments[i := number];
          CountNoneSatisfy(pending, i);
          pending := pending[i := None];
          satisfied := satisfied + 1;
        }
      }
      i := i + 1;
    }
  }

  /** The state OptimisePalettes keeps between rounds: each tile is either
      still pending and covered by no palette built so far (its assignment
      still the calloc value 0), or satisfied and assigned to the first
      palette that covers it. */
  predicate Progress(tiles: seq<Palette16>, palettes: seq<Palette16>,
                     pending: seq<Option<Palette16>>, assignments: seq<int>)
  {
    && |pending| == |assignments| == |tiles|
    && (forall i :: 0 <= i < |tiles| ==> pending[i] == None || pending[i] == Some(tiles[i]))
    && (forall i :: 0 <= i < |tiles| && pending[i].None? ==>
          && 0 <= assignments[i] < |palettes|
          && CoveredBy(tiles[i], palettes, assignments[i])
          && forall q :: 0 <= q < assignments[i] ==> !CoveredBy(tiles[i], palettes, q))
    && (forall i :: 0 <= i < |tiles| && pending[i].Some? ==>
          && assignments[i] == 0
          && forall q :: 0 <= q < |palettes| ==> !CoveredBy(tiles[i], palettes, q))
  }

  /** One round (a new palette, then the assignment loop) keeps `Progress`. */
  lemma ProgressStep(tiles: seq<Palette16>, palettes: seq<Palette16>, palette: Palette16,
                     start: seq<Option<Palette16>>, startAssignments: seq<int>,
                     pending: seq<Option<Palette16>>, assignments: seq<int>)
    requires Progress(tiles, palettes, start, startAssignments)
    requires |pending| == |assignments| == |tiles|
    requires forall k :: 0 <= k < |tiles| ==> pending[k] == None || pending[k] == start[k]
    requires forall k :: 0 <= k < |tiles| && start[k].None? ==> assignments[k] == startAssignments[k]
    requires forall k :: 0 <= k < |tiles| && start[k].Some? && pending[k].None? ==>
               assignments[k] == |palettes| && Elems(tiles[k]) <= Elems(palette)
    requires forall k :: 0 <= k < |tiles| && pending[k].Some? ==>
               assignments[k] == startAssignments[k] && !(Elems(tiles[k]) <= Elems(palette))
    ensures Progress(tiles, palettes + [palette], pending, assignments)
  {
    var next := palettes + [palette];
    forall i, q | 0 <= i < |tiles| && 0 <= q < |palettes|
      ensures CoveredBy(tiles[i], next, q) == CoveredBy(tiles[i], palettes, q)
    {
      assert next[q] == palettes[q];
    }
    forall i | 0 <= i < |tiles| && pending[i].None?
      ensures && 0 <= assignments[i] < |next|
              && CoveredBy(tiles[i], next, assignments[i])
              && forall q :: 0 <= q < assignments[i] ==> !CoveredBy(tiles[i], next, q)
    {
      if start[i].Some? {
        assert next[|palettes|] == palette;
      }
    }
  }

  /** The `palettesToSatisfy` array as round `q` of OptimisePalettes found
      it, rebuilt from a later state: a tile was still pending then if it is
      still pending now or was assigned in round `q` or later. */
  function PendingAt(tiles: seq<Palette16>, pending: seq<Option<Palette16>>, assignment: seq<int>, q: nat)
    : (r: seq<Option<Palette16>>)
    requires |pending| == |assignment| == |tiles|
    ensures |r| == |tiles|
    ensures forall i :: 0 <= i < |tiles| ==> r[i] == None || r[i] == Some(tiles[i])
  {
    seq(|tiles|, i requires 0 <= i < |tiles| =>
          if pending[i].Some? || assignment[i] >= q then Some(tiles[i]) else None)
  }

  /** Some tile was still pending when round `q` began. */
  predicate AnyPendingAt(tiles: seq<Palette16>, pending: seq<Option<Palette16>>, assignment: seq<int>, q: nat)
    requires |pending| == |assignment| == |tiles|
  {
    exists i :: 0 <= i < |tiles| && PendingAt(tiles, pending, assignment, q)[i].Some?
  }

  /** Every palette built so far was built in a round that began with some
      tile pending, and is the greedy palette for the tiles pending then. */
  ghost predicate Rounds(tiles: seq<Palette16>, bank: seq<u16>, transparentColour: u16, palettes: seq<Palette16>,
                         pending: seq<Option<Palette16>>, assignment: seq<int>)
    requires TilesValid(tiles) && BankValid(bank)
    requires forall i :: 0 <= i < |tiles| ==> Elems(tiles[i]) <= SetOf(bank)
    requires |pending| == |assignment| == |tiles|
  {
    forall q :: 0 <= q < |palettes| ==>
      && AnyPendingAt(tiles, pending, assignment, q)
      && palettes[q] == Greedy(bank, PendingAt(tiles, pending, assignment, q), AddColour(Empty(), transparentColour).palette)
  }

  /** Under `Progress` with `number` palettes built, the rebuilt array of
      round `number` is the current one. */
  lemma PendingAtNow(tiles: seq<Palette16>, palettes: seq<Palette16>,
                     pending: seq<Option<Palette16>>, assignments: seq<int>)
    requires Progress(tiles, palettes, pending, assignments)
    ensures PendingAt(tiles, pending, assignments, |palettes|) == pending
  {
    var r := PendingAt(tiles, pending, assignments, |palettes|);
    forall i | 0 <= i < |tiles|
      ensures r[i] == pending[i]
    {
      if pending[i].None? {
        assert assignments[i] < |palettes|;
      }
    }
  }

  /** A round numbered `number` rewrites no earlier round's rebuilt array:
      a tile it satisfies gets assignment `number`, so it still counts as
      pending for every round up to `number`. */
  lemma PendingAtKept(tiles: seq<Palette16>, number: nat, q: nat,
                      start: seq<Option<Palette16>>, startAssignments: seq<int>,
                      pending: seq<Option<Palette16>>, assignments: seq<int>)
    requires q <= number
    requires |start| == |startAssignments| == |pending| == |assignments| == |tiles|
    requires forall k :: 0 <= k < |tiles| ==> pending[k] == None || pending[k] == start[k]
    requires forall k :: 0 <= k < |tiles| && start[k].None? ==> assignments[k] == startAssignments[k]
    requires forall k :: 0 <= k < |tiles| && start[k].Some? && pending[k].None? ==> assignments[k] == number
    ensures PendingAt(tiles, pending, assignments, q) == PendingAt(tiles, start, startAssignments, q)
  {
    var before, after := PendingAt(tiles, start, startAssignments, q), PendingAt(tiles, pending, assignments, q);
    forall i | 0 <= i < |tiles|
      ensures after[i] == before[i]
    {
      if start[i].Some? && pending[i].None? {
        assert assignments[i] >= q;
      }
    }
  }

  /** What `Rounds` says about each palette, stated palette by palette. */
  lemma RoundsMeans(tiles: seq<Palette16>, bank: seq<u16>, transparentColour: u16, palettes: seq<Palette16>,
                    pending: seq<Option<Palette16>>, assignment: seq<int>)
    requires TilesValid(tiles) && BankValid(bank)
    requires forall i :: 0 <= i < |tiles| ==> Elems(tiles[i]) <= SetOf(bank)
    requires |pending| == |assignment| == |tiles|
    requires Rounds(tiles, bank, transparentColour, palettes, pending, assignment)
    ensures forall q :: 0 <= q < |palettes| ==> AnyPendingAt(tiles, pending, assignment, q)
    ensures forall q :: 0 <= q < |palettes| ==>
              palettes[q] == Greedy(bank, PendingAt(tiles, pending, assignment, q), AddColour(Empty(), transparentColour).palette)
  {
  }

  /** One round (a greedy palette built from a state with a pending tile,
      then the assignment loop), seen from palette `q` of the palettes
      built so far plus the new one. */
  lemma RoundsStepAt(tiles: seq<Palette16>, bank: seq<u16>, transparentColour: u16,
                     palettes: seq<Palette16>, palette: Palette16,
                     start: seq<Option<Palette16>>, startAssignments: seq<int>,
                     pending: seq<Option<Palette16>>, assignments: seq<int>, j: nat, q: nat)
    requires TilesValid(tiles) && BankValid(bank)
    requires forall i :: 0 <= i < |tiles| ==> Elems(tiles[i]) <= SetOf(bank)
    requires Progress(tiles, palettes, start, startAssignments)
    requires Rounds(tiles, bank, transparentColour, palettes, start, startAssignments)
    requires j < |tiles| && start[j].Some?
    requires palette == Greedy(bank, start, AddColour(Empty(), transparentColour).palette)
    requires |pending| == |assignments| == |tiles|
    requires forall k :: 0 <= k < |tiles| ==> pending[k] == None || pending[k] == start[k]
    requires forall k :: 0 <= k < |tiles| && start[k].None? ==> assignments[k] == startAssignments[k]
    requires forall k :: 0 <= k < |tiles| && start[k].Some? && pending[k].None? ==> assignments[k] == |palettes|
    requires q <= |palettes|
    ensures AnyPendingAt(tiles, pending, assignments, q)
    ensures (palettes + [palette])[q] == Greedy(bank, PendingAt(tiles, pending, assignments, q),
                                                AddColour(Empty(), transparentColour).palette)
  {
    PendingAtKept(tiles, |palettes|, q, start, startAssignments, pending, assignments);
    var w := j;
    if q < |palettes| {
      assert (palettes + [palette])[q] == palettes[q];
      assert AnyPendingAt(tiles, start, startAssignments, q);
      w :| 0 <= w < |tiles| && PendingAt(tiles, start, startAssignments, q)[w].Some?;
    } else {
      PendingAtNow(tiles, palettes, start, startAssignments);
      assert (palettes + [palette])[q] == palette;
    }
    assert PendingAt(tiles, pending, assignments, q)[w].Some?;
  }

  /** One round keeps `Rounds`. */
  lemma RoundsStep(tiles: seq<Palette16>, bank: seq<u16>, transparentColour: u16,
                   palettes: seq<Palette16>, palette: Palette16,
                   start: seq<Option<Palette16>>, startAssignments: seq<int>,
                   pending: seq<Option<Palette16>>, assignments: seq<int>, j: nat)
    requires TilesValid(tiles) && BankValid(bank)
    requires forall i :: 0 <= i < |tiles| ==> Elems(tiles[i]) <= SetOf(bank)
    requires Progress(tiles, palettes, start, startAssignments)
    requires Rounds(tiles, bank, transparentColour, palettes, start, startAssignments)
    requires j < |tiles| && start[j].Some?
    requires palette == Greedy(bank, start, AddColour(Empty(), transparentColour).palette)
    requires |pending| == |assignments| == |tiles|
    requires forall k :: 0 <= k < |tiles| ==> pending[k] == None || pending[k] == start[k]
    requires forall k :: 0 <= k < |tiles| && start[k].None? ==> assignments[k] == startAssignments[k]
    requires forall k :: 0 <= k < |tiles| && start[k].Some? && pending[k].None? ==> assignments[k] == |palettes|
    ensures Rounds(tiles, bank, transparentColour, palettes + [palette], pending, assignments)
  {
    forall q | 0 <= q < |palettes| + 1
      ensures AnyPendingAt(tiles, pending, assignments, q)
      ensures (palettes + [palette])[q] == Greedy(bank, PendingAt(tiles, pending, assignments, q),
                                                  AddColour(Empty(), transparentColour).palette)
    {
      RoundsStepAt(tiles, bank, transparentColour, palettes, palette, start, startAssignments,
                   pending, assignments, j, q);
    }
  }

  /** Every palette built so far is valid and holds the transparent colour. */
  predicate AllHoldTransparent(palettes: seq<Palette16>, transparentColour: u16)
  {
    forall q :: 0 <= q < |palettes| ==>
      Palette.Valid(palettes[q]) && transparentColour in Elems(palettes[q])
  }

  /** Appending a valid palette that holds the transparent colour keeps
      `AllHoldTransparent`. */
  lemma AllHoldTransparentAppend(palettes: seq<Palette16>, palette: Palette16, transparentColour: u16)
    requires AllHoldTransparent(palettes, transparentColour)
    requires Palette.Valid(palette) && transparentColour in Elems(palette)
    ensures AllHoldTransparent(palettes + [palette], transparentColour)
  {
    var next := palettes + [palette];
    forall q | 0 <= q < |next|
      ensures Palette.Valid(next[q]) && transparentColour in Elems(next[q])
    {
      if q < |palettes| {
        assert next[q] == palettes[q];
      } else {
        assert next[q] == palette;
      }
    }
  }

  /** One round of OptimisePalettes' loop, entered with a tile pending:
      the greedy palette for the pending tiles, then the assignment loop.
      It keeps the loop's invariants for the palettes plus the new one. */
  method OptimiseRound(tiles: seq<Palette16>, bank: seq<u16>, transparentColour: u16, palettes: seq<Palette16>,
                       start: seq<Option<Palette16>>, startAssignments: seq<int>)
    returns (palette: Palette16, pending: seq<Option<Palette16>>, assignments: seq<int>, satisfied: nat)
    requires TilesValid(tiles) && BankValid(bank)
    requires forall i :: 0 <= i < |tiles| ==> Elems(tiles[i]) <= SetOf(bank)
    requires Progress(tiles, palettes, start, startAssignments)
    requires Rounds(tiles, bank, transparentColour, palettes, start, startAssignments)
    requires AllHoldTransparent(palettes, transparentColour)
    requires CountNone(start) < |tiles|
    ensures palette == Greedy(bank, start, AddColour(Empty(), transparentColour).palette)
    ensures AllHoldTransparent(palettes + [palette], transparentColour)
    ensures Progress(tiles, palettes + [palette], pending, assignments)
    ensures Rounds(tiles, bank, transparentColour, palettes + [palette], pending, assignments)
    ensures satisfied == CountNone(pending)
  {
    palette := NextPalette(bank, start, transparentColour);
    ghost var j :| 0 <= j < |tiles| && start[j].Some?;
    pending, assignments, satisfied := AssignTiles(tiles, palette, |palettes|, start, startAssignments);
    ProgressStep(tiles, palettes, palette, start, startAssignments, pending, assignments);
    RoundsStep(tiles, bank, transparentColour, palettes, palette, start, startAssignments, pending, assignments, j);
    AllHoldTransparentAppend(palettes, palette, transparentColour);
  }

  /** PaletteOptimiser_OptimisePalettes. Besides the result, `pending` is
      the final state of `palettesToSatisfy`: `None` for every tile that was
      assigned. Every assigned tile went to the first palette that covers
      it, and every unassigned tile keeps the calloc value 0 and is covered
      by no palette; unless every tile is assigned, sixteen palettes were
      built (the covering failure, which the source only reports on
      standard output). */
  method OptimisePalettes(o: Optimiser, transparentColour: u16)
    returns (result: Optimisation, pending: seq<Option<Palette16>>)
    requires Wellformed(o)
    requires forall i :: 0 <= i < |o.palettes| ==> Elems(o.palettes[i]) <= SetOf(o.colours)
    ensures |result.palettes| <= MaxPalettes
    ensures forall q :: 0 <= q < |result.palettes| ==>
              Palette.Valid(result.palettes[q]) && transparentColour in Elems(result.palettes[q])
    ensures |result.assignment| == |pending| == |o.palettes|
    ensures forall i :: 0 <= i < |pending| ==> pending[i] == None || pending[i] == Some(o.palettes[i])
    ensures forall i :: 0 <= i < |pending| && pending[i].None? ==>
              && 0 <= result.assignment[i] < |result.palettes|
              && CoveredBy(o.palettes[i], result.palettes, result.assignment[i])
              && forall q :: 0 <= q < result.assignment[i] ==> !CoveredBy(o.palettes[i], result.palettes, q)
    ensures forall i :: 0 <= i < |pending| && pending[i].Some? ==>
              && result.assignment[i] == 0
              && forall q :: 0 <= q < |result.palettes| ==> !CoveredBy(o.palettes[i], result.palettes, q)
    ensures (forall i :: 0 <= i < |pending| ==> pending[i].None?) || |result.palettes| == MaxPalettes
    ensures forall q :: 0 <= q < |result.palettes| ==> AnyPendingAt(o.palettes, pending, result.assignment, q)
    ensures forall q :: 0 <= q < |result.palettes| ==>
              result.palettes[q] == Greedy(o.colours, PendingAt(o.palettes, pending, result.assignment, q),
                                           AddColour(Empty(), transparentColour).palette)
  {
    var tiles := o.palettes;
    var bank := o.colours;
    var n := |tiles|;
    var palettes: seq<Palette16> := [];
    var assignments: seq<int> := seq(n, _ => 0);
    pending := seq(n, i requires 0 <= i < n => Some(tiles[i]));
    var satisfied := 0;
    while satisfied < n
      invariant |palettes| < MaxPalettes
      invariant AllHoldTransparent(palettes, transparentColour)
      invariant Progress(tiles, palettes, pending, assignments)
      invariant satisfied == CountNone(pending)
      invariant Rounds(tiles, bank, transparentColour, palettes, pending, assignments)
      decreases MaxPalettes - |palettes|
    {
      var palette;
      palette, pending, assignments, satisfied := OptimiseRound(tiles, bank, transparentColour, palettes, pending, assignments);
      palettes := palettes + [palette];
      if |palettes| == MaxPalettes {
        break;
      }
    }
    RoundsMeans(tiles, bank, transparentColour, palettes, pending, assignments);
    result := Optimisation(palettes, assignments);
  }
}
