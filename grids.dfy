/** Rasters and boolean masks as lists of rows, with the pixel counts the
    pipelines take of them (numpy's `mask.sum()` and `mask.size`). */
module Grids {

  /** An optional value, such as the caller's NDVI threshold. It lives in
      this base module because every other module imports it. */
  datatype Option<T> = None | Some(value: T)

  /** A raster: a list of rows of samples. */
  type Grid<T> = seq<seq<T>>

  /** A forest mask: true where the pixel is classified as forest. */
  type Mask = Grid<bool>

  /** a and b have the same number of rows and equal row lengths. */
  predicate SameShape<A, B>(a: Grid<A>, b: Grid<B>)
  {
    |a| == |b| && forall i :: 0 <= i < |a| ==> |a[i]| == |b[i]|
  }

  /** Number of pixels of a grid (numpy's `size`). */
  function Size<T>(g: Grid<T>): nat
  {
    if g == [] then 0 else Size(g[..|g| - 1]) + |g[|g| - 1]|
  }

  /** Number of true pixels of one row. */
  function CountRow(row: seq<bool>): (n: nat)
    ensures n <= |row|
  {
    if row == [] then 0
    else CountRow(row[..|row| - 1]) + (if row[|row| - 1] then 1 else 0)
  }

  /** Number of true pixels of a mask (numpy's `sum` on a bool array). */
  function Count(m: Mask): (n: nat)
    ensures n <= Size(m)
  {
    if m == [] then 0 else Count(m[..|m| - 1]) + CountRow(m[|m| - 1])
  }

  /** The pixels in row-major order (what numpy's boolean indexing yields). */
  function Flatten<T>(g: Grid<T>): (s: seq<T>)
    ensures |s| == Size(g)
  {
    if g == [] then [] else Flatten(g[..|g| - 1]) + g[|g| - 1]
  }

  /** An h-by-w grid with every pixel equal to v. */
  function Filled<T>(h: nat, w: nat, v: T): (g: Grid<T>)
    ensures |g| == h && forall i :: 0 <= i < h ==> g[i] == seq(w, _ => v)
  {
    seq(h, _ => seq(w, _ => v))
  }

  /** Grids of the same shape have the same number of pixels. */
  lemma {:induction false} SizeOfSameShape<A, B>(a: Grid<A>, b: Grid<B>)
    requires SameShape(a, b)
    ensures Size(a) == Size(b)
  {
    if a != [] {
      SizeOfSameShape(a[..|a| - 1], b[..|b| - 1]);
    }
  }

  /** A row all of whose pixels are false counts zero. */
  lemma {:induction false} CountRowAllFalse(row: seq<bool>)
    requires forall j :: 0 <= j < |row| ==> !row[j]
    ensures CountRow(row) == 0
  {
    if row != [] {
      CountRowAllFalse(row[..|row| - 1]);
    }
  }

  /** A mask all of whose pixels are false counts zero. */
  lemma {:induction false} CountAllFalse(m: Mask)
    requires forall i, j :: 0 <= i < |m| && 0 <= j < |m[i]| ==> !m[i][j]
    ensures Count(m) == 0
  {
    if m != [] {
      CountAllFalse(m[..|m| - 1]);
      CountRowAllFalse(m[|m| - 1]);
    }
  }

  /** A row all of whose pixels are true counts its length. */
  lemma {:induction false} CountRowAllTrue(row: seq<bool>)
    requires forall j :: 0 <= j < |row| ==> row[j]
    ensures CountRow(row) == |row|
  {
    if row != [] {
      CountRowAllTrue(row[..|row| - 1]);
    }
  }

  /** An h-by-w grid has h * w pixels, and all of them count when they are true. */
  lemma {:induction false} CountFilled(h: nat, w: nat)
    ensures Size(Filled(h, w, true)) == h * w
    ensures Count(Filled(h, w, true)) == h * w
    ensures Count(Filled(h, w, false)) == 0
  {
    if h > 0 {
      CountFilled(h - 1, w);
      var full, empty := Filled(h, w, true), Filled(h, w, false);
      assert full[..h - 1] == Filled(h - 1, w, true);
      assert empty[..h - 1] == Filled(h - 1, w, false);
      CountRowAllTrue(full[h - 1]);
      CountRowAllFalse(empty[h - 1]);
      assert (h - 1) * w + w == h * w;
    }
  }
}
