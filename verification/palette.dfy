/**
 The round-robin neon colour allocator (main.js, `neonColors`,
 `colorIndex`, `getNextNeonColor`). The cycling is stated for any
 non-empty palette and then instantiated with the eight neon colours.
 */
module Palette {

  /** The fixed eight-colour palette, as 24-bit RGB values. */
  const NeonColors: seq<int> :=
    [0xFF00FF, 0x00FFFF, 0xFF3300, 0x39FF14, 0xFF0099, 0x00FF00, 0xFF6600, 0xFFFF00]

  /** The colour handed out by one call, and the cursor the next call uses. */
  datatype Draw = Draw(color: int, next: nat)

  /** One call of the allocator over `palette`: the colour under the
      cursor, and the cursor moved one step round the palette. */
  function NextColor(palette: seq<int>, index: nat): (r: Draw)
    requires index < |palette|
    ensures r.color in palette && r.color == palette[index]
    ensures r.next < |palette|
    ensures r.next == index + 1 || (index == |palette| - 1 && r.next == 0)
  {
    Draw(palette[index], (index + 1) % |palette|)
  }

  /** `getNextNeonColor`. */
  function NextNeonColor(index: nat): (r: Draw)
    requires index < |NeonColors|
    ensures r.color == NeonColors[index] && r.next < |NeonColors|
  {
    NextColor(NeonColors, index)
  }

  /** The colours handed out by `n` successive calls starting at `index`. */
  function Draws(palette: seq<int>, index: nat, n: nat): (colors: seq<int>)
    requires index < |palette|
    ensures |colors| == n
    decreases n
  {
    if n == 0 then []
    else
      var d := NextColor(palette, index);
      [d.color] + Draws(palette, d.next, n - 1)
  }

  /** The cursor after `n` successive calls starting at `index`. */
  function CursorAfter(palette: seq<int>, index: nat, n: nat): (i: nat)
    requires index < |palette|
    ensures i < |palette|
    decreases n
  {
    if n == 0 then index else CursorAfter(palette, NextColor(palette, index).next, n - 1)
  }

  /** Calls that do not reach the end of the palette hand out a contiguous
      slice of it and move the cursor past that slice. */
  lemma {:induction false} DrawsWithoutWrap(palette: seq<int>, index: nat, n: nat)
    requires index + n < |palette|
    ensures Draws(palette, index, n) == palette[index..index + n]
    ensures CursorAfter(palette, index, n) == index + n
    decreases n
  {
    if n > 0 {
      DrawsWithoutWrap(palette, index + 1, n - 1);
    }
  }

  /** Calls from the cursor up to the end of the palette hand out its
      suffix and wrap the cursor to the first entry. */
  lemma {:induction false} DrawsToEnd(palette: seq<int>, index: nat)
    requires index < |palette|
    ensures Draws(palette, index, |palette| - index) == palette[index..]
    ensures CursorAfter(palette, index, |palette| - index) == 0
    decreases |palette| - index
  {
    if index + 1 < |palette| {
      DrawsToEnd(palette, index + 1);
    }
  }

  /** `a + b` calls are `a` calls followed by `b` calls from where the first
      `a` left the cursor. */
  lemma {:induction false} DrawsSplit(palette: seq<int>, index: nat, a: nat, b: nat)
    requires index < |palette|
    ensures Draws(palette, index, a + b)
         == Draws(palette, index, a) + Draws(palette, CursorAfter(palette, index, a), b)
    ensures CursorAfter(palette, index, a + b)
         == CursorAfter(palette, CursorAfter(palette, index, a), b)
    decreases a
  {
    if a > 0 {
      var d := NextColor(palette, index);
      DrawsSplit(palette, d.next, a - 1, b);
      assert a + b - 1 == (a - 1) + b;
    }
  }

  /** `s` rotated left by `i` places. */
  function Rotate(s: seq<int>, i: nat): (r: seq<int>)
    requires i <= |s|
    ensures |r| == |s|
  {
    s[i..] + s[..i]
  }

  /** Rotation only reorders. */
  lemma RotateMultiset(s: seq<int>, i: nat)
    requires i <= |s|
    ensures multiset(Rotate(s, i)) == multiset(s)
  {
    assert s == s[..i] + s[i..];
  }

  /** A full round of calls hands out the palette rotated to start at the
      cursor, and leaves the cursor where it started. */
  lemma FullRoundIsRotation(palette: seq<int>, index: nat)
    requires index < |palette|
    ensures Draws(palette, index, |palette|) == Rotate(palette, index)
    ensures CursorAfter(palette, index, |palette|) == index
  {
    var tail := |palette| - index;
    DrawsToEnd(palette, index);
    if index == 0 {
      assert palette[index..] + palette[..index] == palette[index..];
    } else {
      DrawsSplit(palette, index, tail, index);
      DrawsWithoutWrap(palette, 0, index);
      assert tail + index == |palette|;
    }
  }

  /** The neon palette entries are pairwise distinct. */
  lemma NeonColorsDistinct()
    ensures forall i, j :: 0 <= i < j < |NeonColors| ==> NeonColors[i] != NeonColors[j]
  {
  }

  /** Any eight consecutive `getNextNeonColor` calls hand out every neon
      colour exactly once and leave the cursor where it started. */
  lemma EightCallsCoverPalette(index: nat)
    requires index < |NeonColors|
    ensures multiset(Draws(NeonColors, index, 8)) == multiset(NeonColors)
    ensures CursorAfter(NeonColors, index, 8) == index
  {
    FullRoundIsRotation(NeonColors, index);
    RotateMultiset(NeonColors, index);
  }

  /** Two consecutive `getNextNeonColor` calls never hand out the same colour. */
  lemma ConsecutiveColorsDiffer(index: nat)
    requires index < |NeonColors|
    ensures NextNeonColor(index).color != NextNeonColor(NextNeonColor(index).next).color
  {
    NeonColorsDistinct();
  }
}
