/**
 * Two-dimensional integer images (label images and 0/255 masks) as values,
 * and the pixel count that gives a connected component its area.
 */
module Grids {

  /** An H×W image, row-major: g[i][j] is the pixel in row i, column j. */
  type Grid = seq<seq<int>>

  /** g has exactly h rows of exactly w pixels each. */
  predicate IsRect(g: Grid, h: nat, w: nat)
  {
    |g| == h && forall i :: 0 <= i < h ==> |g[i]| == w
  }

  /** The value held by an array right now: what `ndarray.copy()` takes. */
  function GridOf(a: array2<int>): (g: Grid)
    reads a
    ensures IsRect(g, a.Length0, a.Length1)
    ensures forall i, j :: 0 <= i < a.Length0 && 0 <= j < a.Length1 ==> g[i][j] == a[i, j]
  {
    seq(a.Length0, i requires 0 <= i < a.Length0 reads a =>
      seq(a.Length1, j requires 0 <= j < a.Length1 reads a => a[i, j]))
  }

  /** Number of pixels of one row equal to v. */
  function CountRow(row: seq<int>, v: int): nat
  {
    if row == [] then 0 else (if row[0] == v then 1 else 0) + CountRow(row[1..], v)
  }

  /** Number of pixels of g equal to v; for a label image and a label, the blob's area. */
  function Count(g: Grid, v: int): nat
  {
    if g == [] then 0 else CountRow(g[0], v) + Count(g[1..], v)
  }

  lemma {:induction false} CountRowBound(row: seq<int>, v: int)
    ensures CountRow(row, v) <= |row|
  {
    if row != [] {
      CountRowBound(row[1..], v);
    }
  }

  /** No blob covers more pixels than the image has. */
  lemma {:induction false} CountBound(g: Grid, h: nat, w: nat, v: int)
    requires IsRect(g, h, w)
    ensures Count(g, v) <= h * w
  {
    if g != [] {
      CountRowBound(g[0], v);
      assert IsRect(g[1..], h - 1, w) by {
        forall i | 0 <= i < h - 1 ensures |g[1..][i]| == w {
          assert g[1..][i] == g[i + 1];
        }
      }
      CountBound(g[1..], h - 1, w, v);
      assert (h - 1) * w + w == h * w;
    }
  }

  lemma {:induction false} CountRowZeroIff(row: seq<int>, v: int)
    ensures CountRow(row, v) == 0 <==> forall j :: 0 <= j < |row| ==> row[j] != v
  {
    if row != [] {
      CountRowZeroIff(row[1..], v);
      assert forall j :: 1 <= j < |row| ==> row[j] == row[1..][j - 1];
    }
  }

  /** A value has count 0 exactly when no pixel carries it. */
  lemma {:induction false} CountZeroIff(g: Grid, v: int)
    ensures Count(g, v) == 0 <==>
            forall i, j :: 0 <= i < |g| && 0 <= j < |g[i]| ==> g[i][j] != v
  {
    if g != [] {
      CountRowZeroIff(g[0], v);
      CountZeroIff(g[1..], v);
      assert forall i :: 1 <= i < |g| ==> g[i] == g[1..][i - 1];
    }
  }

  /** Number of nonzero pixels of one row. */
  function MarkedRow(row: seq<int>): nat
  {
    if row == [] then 0 else (if row[0] != 0 then 1 else 0) + MarkedRow(row[1..])
  }

  /** Number of nonzero pixels of a mask: the pixels a fill would alter. */
  function Marked(g: Grid): nat
  {
    if g == [] then 0 else MarkedRow(g[0]) + Marked(g[1..])
  }

  lemma {:induction false} MarkedRowFacts(row: seq<int>)
    ensures MarkedRow(row) <= |row|
    ensures MarkedRow(row) == 0 <==> forall j :: 0 <= j < |row| ==> row[j] == 0
  {
    if row != [] {
      MarkedRowFacts(row[1..]);
      assert forall j :: 1 <= j < |row| ==> row[j] == row[1..][j - 1];
    }
  }

  /** A mask has at most h·w marked pixels, and none exactly when every pixel is 0. */
  lemma {:induction false} CountMarked(g: Grid, h: nat, w: nat)
    requires IsRect(g, h, w)
    ensures Marked(g) <= h * w
    ensures Marked(g) == 0 <==> forall i, j :: 0 <= i < h && 0 <= j < w ==> g[i][j] == 0
  {
    if g != [] {
      MarkedRowFacts(g[0]);
      assert IsRect(g[1..], h - 1, w) by {
        forall i | 0 <= i < h - 1 ensures |g[1..][i]| == w {
          assert g[1..][i] == g[i + 1];
        }
      }
      CountMarked(g[1..], h - 1, w);
      assert (h - 1) * w + w == h * w;
      assert forall i :: 1 <= i < h ==> g[i] == g[1..][i - 1];
    }
  }
}
