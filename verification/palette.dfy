/** `Palette16`: a set of at most sixteen 16-bit colours kept as a strictly
    ascending array, so that containment between two palettes is a single
    merge pass over both. */
module Palette {
  import opened CTypes

  /** PALETTE16_NUM_COLOURS */
  const NumColours: nat := 16

  /** Strictly ascending, hence free of duplicates. */
  predicate StrictlyAscending(s: seq<u16>)
  {
    forall i, j :: 0 <= i < j < |s| ==> s[i] < s[j]
  }

  /** `numColours` is the length of `colours`; the unused tail of the C
      array is not represented. */
  datatype Palette16 = Palette16(colours: seq<u16>)

  /** The representation invariant every palette keeps. */
  predicate Valid(p: Palette16)
  {
    |p.colours| <= NumColours && StrictlyAscending(p.colours)
  }

  /** The colours of a sequence, as a set. */
  function SetOf(s: seq<u16>): set<u16>
  {
    set c | c in s
  }

  /** The colours a palette holds, as a set. */
  function Elems(p: Palette16): set<u16>
  {
    SetOf(p.colours)
  }

  /** Palette16_New: a palette with no colours. */
  function Empty(): (p: Palette16)
    ensures Valid(p) && Elems(p) == {}
  {
    Palette16([])
  }

  /** The result of Palette16_AddColour: the returned count and the
      palette as it is afterwards. */
  datatype Added = Added(count: int, palette: Palette16)

  /** The insertion loop of Palette16_AddColour, resumed at index `i`:
      every entry before `i` is already known to be smaller than `colour`. */
  function AddColourFrom(p: Palette16, colour: u16, i: nat): (r: Added)
    requires Valid(p) && i <= |p.colours|
    requires forall k :: 0 <= k < i ==> p.colours[k] < colour
    ensures Valid(r.palette)
    ensures colour in Elems(p) ==> r == Added(|p.colours|, p)
    ensures colour !in Elems(p) && |p.colours| == NumColours ==> r == Added(-1, p)
    ensures colour !in Elems(p) && |p.colours| < NumColours ==>
              && r.count == |p.colours| + 1 == |r.palette.colours|
              && Elems(r.palette) == Elems(p) + {colour}
    decreases |p.colours| - i
  {
    var s := p.colours;
    if i == |s| then
      if |s| == NumColours then Added(-1, p)
      else
        InsertKeepsAscending(s, i, colour);
        Added(|s| + 1, Palette16(s + [colour]))
    else if s[i] == colour then
      Added(|s|, p)
    else if s[i] > colour then
      if |s| == NumColours then
        assert colour !in s by { NotInAscending(s, i, colour); }
        Added(-1, p)
      else
        assert colour !in s by { NotInAscending(s, i, colour); }
        InsertKeepsAscending(s, i, colour);
        Added(|s| + 1, Palette16(s[..i] + [colour] + s[i..]))
    else
      AddColourFrom(p, colour, i + 1)
  }

  /** Palette16_AddColour: a present colour leaves the palette alone and
      returns its size; an absent one is inserted in order and the new size
      returned, unless the palette is full, which returns -1. */
  function AddColour(p: Palette16, colour: u16): (r: Added)
    requires Valid(p)
    ensures Valid(r.palette)
    ensures colour in Elems(p) ==> r == Added(|p.colours|, p)
    ensures colour !in Elems(p) && |p.colours| == NumColours ==> r == Added(-1, p)
    ensures colour !in Elems(p) && |p.colours| < NumColours ==>
              && r.count == |p.colours| + 1 == |r.palette.colours|
              && Elems(r.palette) == Elems(p) + {colour}
  {
    AddColourFrom(p, colour, 0)
  }

  /** Inserting `c` at index `i` of an ascending sequence keeps it ascending
      when everything before `i` is smaller and everything from `i` larger. */
  lemma InsertKeepsAscending(s: seq<u16>, i: nat, c: u16)
    requires StrictlyAscending(s) && i <= |s|
    requires forall k :: 0 <= k < i ==> s[k] < c
    requires i < |s| ==> c < s[i]
    ensures StrictlyAscending(s[..i] + [c] + s[i..])
    ensures SetOf(s[..i] + [c] + s[i..]) == SetOf(s) + {c}
  {
    var t := s[..i] + [c] + s[i..];
    assert |t| == |s| + 1;
    forall a, b | 0 <= a < b < |t|
      ensures t[a] < t[b]
    {
      if b < i {
        assert t[a] == s[a] && t[b] == s[b];
      } else if b == i {
        assert t[a] == s[a] && t[b] == c;
      } else if a < i {
        assert t[a] == s[a] && t[b] == s[b - 1];
      } else if a == i {
        assert t[a] == c && t[b] == s[b - 1];
      } else {
        assert t[a] == s[a - 1] && t[b] == s[b - 1];
      }
    }
    assert s[..i] + s[i..] == s;
  }

  /** In an ascending sequence, a value that lies strictly between the
      entries around index `i` is not present. */
  lemma NotInAscending(s: seq<u16>, i: nat, c: u16)
    requires StrictlyAscending(s) && i < |s|
    requires forall k :: 0 <= k < i ==> s[k] < c
    requires c < s[i]
    ensures c !in s
  {
    forall k | 0 <= k < |s|
      ensures s[k] != c
    {
      if i < k {
        assert s[i] < s[k];
      }
    }
  }

  /** Palette16_GetColour, whose assertion demands a valid index; in a valid
      palette the `i`-th colour is larger than every earlier one and smaller
      than every later one. */
  function GetColour(p: Palette16, i: int): (c: u16)
    requires Valid(p) && 0 <= i < |p.colours|
    ensures c in Elems(p)
    ensures forall k :: 0 <= k < i ==> p.colours[k] < c
    ensures forall k :: i < k < |p.colours| ==> c < p.colours[k]
  {
    p.colours[i]
  }

  /** The search loop of Palette16_HasColour from index `i` on. */
  function HasColourFrom(s: seq<u16>, colour: u16, i: nat): (b: bool)
    requires i <= |s|
    ensures b <==> exists k :: i <= k < |s| && s[k] == colour
    decreases |s| - i
  {
    if i == |s| then false
    else if s[i] == colour then true
    else HasColourFrom(s, colour, i + 1)
  }

  /** Palette16_HasColour: whether `colour` is one of the palette's colours. */
  function HasColour(p: Palette16, colour: u16): (b: bool)
    ensures b <==> colour in Elems(p)
  {
    HasColourFrom(p.colours, colour, 0)
  }

  /** The merge loop of Palette16_Contains: `i` walks the shorter palette,
      `j` the longer one; a match advances both, a miss only `j`. */
  function Merge(shorter: seq<u16>, longer: seq<u16>, i: nat, j: nat, retIfContains: int): (r: int)
    requires i <= |shorter| && j <= |longer|
    ensures r == 0 || r == retIfContains
    decreases |longer| - j
  {
    if i == |shorter| then retIfContains
    else if j == |longer| then 0
    else if shorter[i] == longer[j] then Merge(shorter, longer, i + 1, j + 1, retIfContains)
    else Merge(shorter, longer, i, j + 1, retIfContains)
  }

  /** Once an entry of the shorter palette is missing from the rest of the
      longer one, the merge can only end by running off the longer one. */
  lemma {:induction false} MergeMissing(shorter: seq<u16>, longer: seq<u16>, i: nat, j: nat, ret: int)
    requires i < |shorter| && j <= |longer|
    requires shorter[i] !in longer[j..]
    ensures Merge(shorter, longer, i, j, ret) == 0
    decreases |longer| - j
  {
    if j < |longer| {
      assert shorter[i] !in longer[j + 1..] by {
        assert longer[j..] == [longer[j]] + longer[j + 1..];
      }
      MergeMissing(shorter, longer, i, j + 1, ret);
    }
  }

  /** The merge answers `retIfContains` exactly when every remaining entry of
      the shorter palette occurs in the rest of the longer one, and 0
      otherwise, provided no remaining entry occurs in the part of the longer
      palette already passed. */
  lemma {:induction false} MergeSpec(shorter: seq<u16>, longer: seq<u16>, i: nat, j: nat, ret: int)
    requires StrictlyAscending(shorter) && StrictlyAscending(longer)
    requires i <= |shorter| && j <= |longer| && ret != 0
    requires forall k :: i <= k < |shorter| ==> shorter[k] !in longer[..j]
    ensures var r := Merge(shorter, longer, i, j, ret);
            && (r == ret || r == 0)
            && (r == ret <==> forall k :: i <= k < |shorter| ==> shorter[k] in longer[j..])
    decreases |longer| - j
  {
    if i == |shorter| {
    } else if j == |longer| {
      assert shorter[i] !in longer[j..];
    } else if shorter[i] == longer[j] {
      forall k | i + 1 <= k < |shorter|
        ensures shorter[k] !in longer[..j + 1]
      {
        assert longer[..j + 1] == longer[..j] + [longer[j]];
        assert shorter[i] < shorter[k];
      }
      MergeSpec(shorter, longer, i + 1, j + 1, ret);
      assert longer[j..] == [longer[j]] + longer[j + 1..];
      forall k | i + 1 <= k < |shorter|
        ensures shorter[k] in longer[j..] <==> shorter[k] in longer[j + 1..]
      {
        assert shorter[i] < shorter[k];
      }
      assert shorter[i] in longer[j..];
      assert (forall k :: i <= k < |shorter| ==> shorter[k] in longer[j..])
         <==> (forall k :: i + 1 <= k < |shorter| ==> shorter[k] in longer[j + 1..]);
    } else if longer[j] < shorter[i] {
      forall k | i <= k < |shorter|
        ensures shorter[k] !in longer[..j + 1]
      {
        assert longer[..j + 1] == longer[..j] + [longer[j]];
        assert shorter[i] <= shorter[k];
      }
      MergeSpec(shorter, longer, i, j + 1, ret);
      assert longer[j..] == [longer[j]] + longer[j + 1..];
      forall k | i <= k < |shorter|
        ensures shorter[k] in longer[j..] <==> shorter[k] in longer[j + 1..]
      {
        assert shorter[i] <= shorter[k];
      }
      assert (forall k :: i <= k < |shorter| ==> shorter[k] in longer[j..])
         <==> (forall k :: i <= k < |shorter| ==> shorter[k] in longer[j + 1..]);
    } else {
      forall m | j <= m < |longer|
        ensures longer[m] != shorter[i]
      {
        if j < m {
          assert longer[j] < longer[m];
        }
      }
      assert shorter[i] !in longer[j..];
      MergeMissing(shorter, longer, i, j, ret);
    }
  }

  /** Palette16_Contains: -1 when `first` holds every colour of `second` and
      is at least as long (so equal palettes give -1), 1 when `first` is
      shorter and every colour of it is in `second`, and 0 in every other
      case, partial overlap included. */
  function Contains(first: Palette16, second: Palette16): (r: int)
    requires Valid(first) && Valid(second)
    ensures r == -1 || r == 0 || r == 1
    ensures r == -1 <==> |second.colours| <= |first.colours| && Elems(second) <= Elems(first)
    ensures r == 1 <==> |first.colours| < |second.colours| && Elems(first) <= Elems(second)
  {
    var firstShorter := |first.colours| < |second.colours|;
    var retIfContains := if firstShorter then 1 else -1;
    var longer := if firstShorter then second else first;
    var shorter := if firstShorter then first else second;
    MergeSpec(shorter.colours, longer.colours, 0, 0, retIfContains);
    assert longer.colours[0..] == longer.colours;
    EveryEntryIn(shorter.colours, longer.colours);
    Merge(shorter.colours, longer.colours, 0, 0, retIfContains)
  }

  /** Every entry of `s` occurring in `t` is containment of their colour sets. */
  lemma EveryEntryIn(s: seq<u16>, t: seq<u16>)
    ensures (forall k :: 0 <= k < |s| ==> s[k] in t) <==> SetOf(s) <= SetOf(t)
  {
    if forall k :: 0 <= k < |s| ==> s[k] in t {
      forall x | x in s
        ensures x in t
      {
        var k :| 0 <= k < |s| && s[k] == x;
      }
    }
    if SetOf(s) <= SetOf(t) {
      forall k | 0 <= k < |s|
        ensures s[k] in t
      {
        assert s[k] in SetOf(s);
        assert s[k] in SetOf(t);
      }
    }
  }

  /** A strictly ascending sequence has as many distinct colours as entries. */
  lemma {:induction false} AscendingCard(s: seq<u16>)
    requires StrictlyAscending(s)
    ensures |SetOf(s)| == |s|
  {
    if |s| > 0 {
      var t := s[1..];
      AscendingCard(t);
      assert SetOf(s) == SetOf(t) + {s[0]};
      assert s[0] !in t by {
        forall k | 0 <= k < |t|
          ensures t[k] != s[0]
        {
          assert s[0] < s[k + 1];
        }
      }
    }
  }

  /** The number of colours of a valid palette. */
  lemma CardElems(p: Palette16)
    requires Valid(p)
    ensures |Elems(p)| == |p.colours|
  {
    AscendingCard(p.colours);
  }

  /** Between valid palettes the length test of Palette16_Contains is
      implied by containment: -1 means exactly "second is a subset of
      first", 1 means exactly "first is a proper subset of second". */
  lemma ContainsIsSubset(first: Palette16, second: Palette16)
    requires Valid(first) && Valid(second)
    ensures Contains(first, second) == -1 <==> Elems(second) <= Elems(first)
    ensures Contains(first, second) == 1 <==> Elems(first) < Elems(second)
    ensures Contains(first, second) == 0 <==> !(Elems(second) <= Elems(first)) && !(Elems(first) <= Elems(second))
  {
    CardElems(first);
    CardElems(second);
    if Elems(second) <= Elems(first) {
      SubsetCard(Elems(second), Elems(first));
    }
    if Elems(first) <= Elems(second) {
      SubsetCard(Elems(first), Elems(second));
    }
  }

  /** A subset is no larger, and a subset of the same size is the set. */
  lemma SubsetCard(a: set<u16>, b: set<u16>)
    requires a <= b
    ensures |a| <= |b|
    ensures |a| == |b| ==> a == b
  {
    assert b == a + (b - a);
    assert |b| == |a| + |b - a|;
    if |a| == |b| {
      assert |b - a| == 0;
    }
  }

  /** Swapping the operands of Palette16_Contains swaps -1 and 1, except for
      equal palettes, which give -1 in both orders. */
  lemma ContainsRoleSwap(a: Palette16, b: Palette16)
    requires Valid(a) && Valid(b)
    ensures Elems(a) != Elems(b) ==> (Contains(a, b) == -1 <==> Contains(b, a) == 1)
    ensures Elems(a) == Elems(b) ==> Contains(a, b) == -1 && Contains(b, a) == -1
  {
    ContainsIsSubset(a, b);
    ContainsIsSubset(b, a);
  }

  /** Palette16_UnionLength, whose definition is not part of this model: the
      number of distinct colours across both palettes. */
  function UnionLength(a: Palette16, b: Palette16): (n: nat)
    requires Valid(a) && Valid(b)
    ensures |a.colours| <= n && |b.colours| <= n
    ensures n <= |a.colours| + |b.colours|
    ensures n == |a.colours| <==> Elems(b) <= Elems(a)
    ensures n == |b.colours| <==> Elems(a) <= Elems(b)
  {
    CardElems(a);
    CardElems(b);
    var u := Elems(a) + Elems(b);
    assert u == Elems(a) + (Elems(b) - Elems(a));
    assert |u| == |Elems(a)| + |Elems(b) - Elems(a)|;
    assert u == Elems(b) + (Elems(a) - Elems(b));
    assert |u| == |Elems(b)| + |Elems(a) - Elems(b)|;
    SubsetCard(Elems(b), u);
    SubsetCard(Elems(b) - Elems(a), Elems(b));
    SubsetCard(Elems(a) - Elems(b), Elems(a));
    |u|
  }

  /** Two strictly ascending sequences with the same colours are equal: a
      palette's array is determined by its set of colours. */
  lemma {:induction false} AscendingUnique(s: seq<u16>, t: seq<u16>)
    requires StrictlyAscending(s) && StrictlyAscending(t)
    requires forall x :: x in s <==> x in t
    ensures s == t
  {
    AscendingCard(s);
    AscendingCard(t);
    assert SetOf(s) == SetOf(t);
    if |s| > 0 {
      AscendingHead(s);
      AscendingHead(t);
      assert s[0] in t && t[0] in s;
      assert s[0] == t[0];
      AscendingUnique(s[1..], t[1..]);
      assert s == [s[0]] + s[1..] && t == [t[0]] + t[1..];
    }
  }

  /** The first entry of an ascending sequence is its least colour, and the
      rest holds exactly the other colours. */
  lemma AscendingHead(s: seq<u16>)
    requires StrictlyAscending(s) && |s| > 0
    ensures forall x :: x in s ==> s[0] <= x
    ensures forall x :: x in s[1..] <==> x in s && x != s[0]
    ensures StrictlyAscending(s[1..])
  {
    assert s == [s[0]] + s[1..];
    forall x | x in s
      ensures s[0] <= x
    {
      var k :| 0 <= k < |s| && s[k] == x;
      if k > 0 {
        assert s[0] < s[k];
      }
    }
    forall x | x in s[1..]
      ensures x != s[0]
    {
      var k :| 0 <= k < |s| - 1 && s[1..][k] == x;
      assert s[0] < s[k + 1];
    }
  }

  /** Adds `colours` one after the other, as the tile encoder builds a tile's
      palette pixel by pixel; a failed insertion leaves the palette as it was
      and the later colours are still offered. */
  function AddAll(p: Palette16, colours: seq<u16>): (q: Palette16)
    requires Valid(p)
    ensures Valid(q)
    decreases |colours|
  {
    if |colours| == 0 then p
    else AddAll(AddColour(p, colours[0]).palette, colours[1..])
  }

  /** Adding a colour that fits within some set of at most sixteen colours
      containing the palette always succeeds. */
  lemma AddColourFits(p: Palette16, c: u16, bound: set<u16>)
    requires Valid(p) && Elems(p) + {c} <= bound && |bound| <= NumColours
    ensures Elems(AddColour(p, c).palette) == Elems(p) + {c}
  {
    if c !in Elems(p) {
      CardElems(p);
      SubsetCard(Elems(p) + {c}, bound);
      assert |Elems(p) + {c}| == |Elems(p)| + 1;
    }
  }

  /** When every colour fits, adding a sequence of colours yields exactly the
      union of the palette and the colours offered. */
  lemma {:induction false} AddAllElems(p: Palette16, colours: seq<u16>)
    requires Valid(p)
    requires |Elems(p) + SetOf(colours)| <= NumColours
    ensures Elems(AddAll(p, colours)) == Elems(p) + SetOf(colours)
    decreases |colours|
  {
    if |colours| > 0 {
      var c, rest := colours[0], colours[1..];
      var all := Elems(p) + SetOf(colours);
      assert SetOf(colours) == {c} + SetOf(rest) by {
        assert colours == [c] + rest;
      }
      var q := AddColour(p, c).palette;
      AddColourFits(p, c, all);
      assert Elems(q) + SetOf(rest) == all;
      AddAllElems(q, rest);
      assert AddAll(p, colours) == AddAll(q, rest);
    }
  }

  /** The final palette does not depend on the order the colours are added
      in: any two orderings of the same colours, if they fit, give the same
      array. */
  lemma AddOrderIrrelevant(p: Palette16, xs: seq<u16>, ys: seq<u16>)
    requires Valid(p)
    requires SetOf(xs) == SetOf(ys)
    requires |Elems(p) + SetOf(xs)| <= NumColours
    ensures AddAll(p, xs) == AddAll(p, ys)
  {
    AddAllElems(p, xs);
    AddAllElems(p, ys);
    var a, b := AddAll(p, xs), AddAll(p, ys);
    assert forall x :: x in a.colours <==> x in Elems(a);
    assert forall x :: x in b.colours <==> x in Elems(b);
    AscendingUnique(AddAll(p, xs).colours, AddAll(p, ys).colours);
  }
}
