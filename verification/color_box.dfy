/**
 * The bounded list of picked reference colours that each colour box of the
 * plug-in keeps: a fixed array of 3 x 8 = 24 slots shown as a grid, a live
 * count, and the panel's background colour in every slot past the count.
 */
module ColorBoxes {
  import opened Colors

  const GridHeight: int := 3
  const GridWidth: int := 8
  const MaxColors: int := GridHeight * GridWidth

  /** The slot behind grid cell (row, col), cells numbered row by row. */
  function CellIndex(row: int, col: int): int
  {
    row * GridWidth + col
  }

  /** What a click on the grid did: removed a colour, did nothing, or hit a negative array index. */
  datatype Removal = Removed | Ignored | IndexOutOfBounds

  /** s with its element at i taken out, the others kept in order. */
  function Without(s: seq<Rgb>, i: nat): seq<Rgb>
    requires i < |s|
  {
    s[..i] + s[i + 1..]
  }

  /** Removing one entry keeps the entries before it, shifts the ones after it left by one, and loses nothing else. */
  lemma WithoutShiftsLeft(s: seq<Rgb>, i: nat)
    requires i < |s|
    ensures |Without(s, i)| == |s| - 1
    ensures forall k :: 0 <= k < i ==> Without(s, i)[k] == s[k]
    ensures forall k :: i <= k < |s| - 1 ==> Without(s, i)[k] == s[k + 1]
    ensures multiset(Without(s, i)) + multiset{s[i]} == multiset(s)
  {
    assert s == s[..i] + [s[i]] + s[i + 1..];
  }

  /** Removing the entry just appended gives the list back as it was before the append. */
  lemma WithoutLastUndoesAppend(s: seq<Rgb>, c: Rgb)
    ensures Without(s + [c], |s|) == s
  {
    assert (s + [c])[..|s|] == s;
  }

  /** The slots after the shifting loop of a removal hold the picked list without its entry at idx. */
  lemma ShiftedIsWithout(before: seq<Rgb>, after: seq<Rgb>, picked: seq<Rgb>, idx: nat)
    requires idx < |picked| <= |before| == |after|
    requires picked == before[..|picked|]
    requires forall k :: 0 <= k < idx ==> after[k] == before[k]
    requires forall k :: idx <= k < |picked| - 1 ==> after[k] == before[k + 1]
    ensures after[..|picked| - 1] == Without(picked, idx)
  {
    WithoutShiftsLeft(picked, idx);
    assert forall k :: 0 <= k < |picked| - 1 ==> after[k] == Without(picked, idx)[k];
  }

  class ColorBox {
    /** The 24 slots; the first nbColors hold the picked colours in the order they were picked. */
    var colors: array<Rgb>
    var nbColors: nat
    /** The distance threshold the slider last set. */
    var threshold: int
    /** The panel's background colour, painted in every empty slot. */
    const background: Rgb

    ghost predicate Valid()
      reads this, colors
    {
      && colors.Length == MaxColors
      && nbColors <= MaxColors
      && forall i :: nbColors <= i < MaxColors ==> colors[i] == background
    }

    /** The picked colours, oldest first. */
    function Contents(): (s: seq<Rgb>)
      reads this, colors
      requires Valid()
      ensures |s| == nbColors
    {
      colors[..nbColors]
    }

    constructor (background: Rgb)
      ensures Valid() && fresh(colors)
      ensures this.background == background && Contents() == [] && threshold == 0
    {
      this.background := background;
      colors := new Rgb[MaxColors];
      nbColors := 0;
      threshold := 0;
      new;
      InitColors();
    }

    /** Empties the list: no colour picked, every slot painted with the background. */
    method InitColors()
      requires colors.Length == MaxColors
      modifies this`nbColors, colors
      ensures Valid() && Contents() == []
      ensures forall i :: 0 <= i < MaxColors ==> colors[i] == background
    {
      nbColors := 0;
      for i := 0 to MaxColors
        invariant nbColors == 0
        invariant forall k :: 0 <= k < i ==> colors[k] == background
      {
        colors[i] := background;
      }
    }

    /** Appends c when a slot is free; a full list is left as it is. */
    method AddColor(c: Rgb)
      requires Valid()
      modifies this`nbColors, colors
      ensures Valid()
      ensures old(nbColors) < MaxColors ==> nbColors == old(nbColors) + 1 && Contents() == old(Contents()) + [c]
      ensures old(nbColors) < MaxColors ==> colors[..] == old(colors[..])[old(nbColors) := c]
      ensures old(nbColors) == MaxColors ==> nbColors == old(nbColors) && unchanged(colors)
    {
      if nbColors < MaxColors {
        colors[nbColors] := c;
        nbColors := nbColors + 1;
      }
    }

    /** The colour shown in grid cell (row, col): a picked colour, or the background in an empty cell. */
    function GetColor(row: int, col: int): (c: Rgb)
      reads this, colors
      requires Valid()
      requires 0 <= CellIndex(row, col) < MaxColors
      ensures CellIndex(row, col) < nbColors ==> c == Contents()[CellIndex(row, col)]
      ensures CellIndex(row, col) >= nbColors ==> c == background
    {
      colors[CellIndex(row, col)]
    }

    /** The truncating per-channel average of the picked colours. */
    method GetAverageColor() returns (avg: Rgb)
      requires Valid() && nbColors > 0
      ensures avg == Average(Contents())
    {
      var r, g, b := 0, 0, 0;
      for k := 0 to nbColors
        invariant r == Sum(colors[..k], Red)
        invariant g == Sum(colors[..k], Green)
        invariant b == Sum(colors[..k], Blue)
      {
        assert colors[..k + 1][..k] == colors[..k];
        r := r + colors[k].red;
        g := g + colors[k].green;
        b := b + colors[k].blue;
      }
      ghost var expected := Average(Contents());
      assert colors[..nbColors] == Contents();
      assert r / nbColors == expected.red && g / nbColors == expected.green && b / nbColors == expected.blue;
      avg := Rgb(r / nbColors, g / nbColors, b / nbColors);
    }

    /**
     * A click on grid cell (row, col). Only the upper bounds of row and col are
     * checked; a cell index at or past the count is ignored, and a negative one
     * fails on the first array access, before anything is written.
     */
    method RemoveColor(row: int, col: int) returns (outcome: Removal)
      requires Valid()
      modifies this`nbColors, colors
      ensures Valid()
      ensures outcome == (if !(row < GridHeight && col < GridWidth) || CellIndex(row, col) >= old(nbColors) then Ignored
                          else if CellIndex(row, col) < 0 then IndexOutOfBounds
                          else Removed)
      ensures outcome == Removed ==> nbColors == old(nbColors) - 1 && Contents() == Without(old(Contents()), CellIndex(row, col))
      ensures outcome != Removed ==> nbColors == old(nbColors) && unchanged(colors)
    {
      outcome := Ignored;
      if row < GridHeight && col < GridWidth {
        var idx := CellIndex(row, col);
        if idx < nbColors {
          if idx < 0 {
            return IndexOutOfBounds;
          }
          ghost var before, picked := colors[..], Contents();
          var c := idx;
          while c < nbColors && c < MaxColors - 1
            invariant nbColors == |picked|
            invariant idx <= c <= nbColors && c < MaxColors
            invariant forall k :: 0 <= k < idx ==> colors[k] == before[k]
            invariant forall k :: idx <= k < c ==> colors[k] == before[k + 1]
            invariant forall k :: c <= k < MaxColors ==> colors[k] == before[k]
          {
            colors[c] := colors[c + 1];
            c := c + 1;
          }
          colors[nbColors - 1] := background;
          nbColors := nbColors - 1;
          ShiftedIsWithout(before, colors[..], picked, idx);
          outcome := Removed;
        }
      }
    }

    method SetThreshold(t: int)
      modifies this`threshold
      ensures threshold == t
    {
      threshold := t;
    }
  }
}
