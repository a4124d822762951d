/** The key classifier: picks the dominant row tone and the dominant column
    tone out of one block's eight Goertzel magnitudes and looks up the key. */
module Classifier {
  import opened Keypad

  /** The eight magnitudes of one block, indexed like Keypad.Frequencies. */
  type Magnitudes = m: seq<real> | |m| == 8
    witness [0.0, 0.0, 0.0, 0.0, 0.0, 0.0, 0.0, 0.0]

  /** What a scan of one tone group has found so far: the index of the
      running maximum (-1 while none) and the running maximum (starts at 0). */
  datatype Pick = Pick(index: int, max: real)

  /** The outcome of classifying one block. */
  datatype Detection = Detection(row: int, col: int, maxRow: real, maxCol: real, key: char)

  /** Independent statement of what a group scan must find: when no value is
      above zero, nothing (-1) with maximum 0; otherwise the largest value and
      the LOWEST index that reaches it. */
  predicate IsLowestMax(g: seq<real>, index: int, max: real)
  {
    if forall j | 0 <= j < |g| :: g[j] <= 0.0 then
      index == -1 && max == 0.0
    else
      0 <= index < |g| && max == g[index] && 0.0 < max &&
      (forall j | 0 <= j < |g| :: g[j] <= max) &&
      (forall j | 0 <= j < index :: g[j] < max)
  }

  /** The group scan as a left fold: a later value replaces the running
      maximum only when it is strictly greater. */
  function Scan(g: seq<real>): Pick
  {
    if g == [] then Pick(-1, 0.0)
    else
      var p := Scan(g[..|g| - 1]);
      if g[|g| - 1] > p.max then Pick(|g| - 1, g[|g| - 1]) else p
  }

  /** The fold finds exactly what IsLowestMax asks for. */
  lemma {:induction false} ScanIsLowestMax(g: seq<real>)
    ensures IsLowestMax(g, Scan(g).index, Scan(g).max)
  {
    if g != [] {
      var init := g[..|g| - 1];
      ScanIsLowestMax(init);
      assert forall j | 0 <= j < |init| :: init[j] == g[j];
    }
  }

  /** IsLowestMax determines the index and the maximum uniquely. */
  lemma LowestMaxUnique(g: seq<real>, i1: int, m1: real, i2: int, m2: real)
    requires IsLowestMax(g, i1, m1) && IsLowestMax(g, i2, m2)
    ensures i1 == i2 && m1 == m2
  {
    if !forall j | 0 <= j < |g| :: g[j] <= 0.0 {
      assert m1 == m2 by {
        assert g[i2] <= m1 && g[i1] <= m2;
      }
    }
  }

  /** Classification of one block as a function of its magnitudes. */
  function Classification(mags: Magnitudes): Detection
  {
    var r := Scan(mags[..4]);
    var c := Scan(mags[4..]);
    ScanIsLowestMax(mags[..4]);
    ScanIsLowestMax(mags[4..]);
    Detection(r.index, c.index, r.max, c.max, KeyFor(r.index, c.index))
  }

  /** The classification picks the lowest-index maximum of each group and
      the key at that row and column. */
  lemma ClassificationMeetsSpec(mags: Magnitudes)
    ensures IsLowestMax(mags[..4], Classification(mags).row, Classification(mags).maxRow)
    ensures IsLowestMax(mags[4..], Classification(mags).col, Classification(mags).maxCol)
    ensures -1 <= Classification(mags).row < 4 && -1 <= Classification(mags).col < 4
    ensures Classification(mags).key == KeyFor(Classification(mags).row, Classification(mags).col)
  {
    ScanIsLowestMax(mags[..4]);
    ScanIsLowestMax(mags[4..]);
  }

  /** Whatever satisfies the scan specification in both groups is the
      classification: IsLowestMax is a complete reference definition. */
  lemma ClassificationDetermined(mags: Magnitudes, row: int, maxRow: real, col: int, maxCol: real)
    requires IsLowestMax(mags[..4], row, maxRow) && IsLowestMax(mags[4..], col, maxCol)
    ensures -1 <= row < 4 && -1 <= col < 4
    ensures Classification(mags) == Detection(row, col, maxRow, maxCol, KeyFor(row, col))
  {
    var d := Classification(mags);
    ClassificationMeetsSpec(mags);
    LowestMaxUnique(mags[..4], row, maxRow, d.row, d.maxRow);
    LowestMaxUnique(mags[4..], col, maxCol, d.col, d.maxCol);
  }

  /** A block carrying one row tone and one column tone, every other tone
      silent, classifies to the key at that row and column. */
  lemma SingleToneKey(mags: Magnitudes, row: nat, col: nat)
    requires row < 4 && col < 4 && mags[row] > 0.0 && mags[4 + col] > 0.0
    requires forall i | 0 <= i < 8 && i != row && i != 4 + col :: mags[i] == 0.0
    ensures Classification(mags) == Detection(row, col, mags[row], mags[4 + col], Keys[row][col])
  {
    var g, h := mags[..4], mags[4..];
    assert IsLowestMax(g, row, mags[row]) by {
      assert g[row] == mags[row];
      assert forall j | 0 <= j < 4 :: g[j] == mags[j];
    }
    assert IsLowestMax(h, col, mags[4 + col]) by {
      assert h[col] == mags[4 + col];
      assert forall j | 0 <= j < 4 :: h[j] == mags[4 + j];
    }
    ClassificationDetermined(mags, row, mags[row], col, mags[4 + col]);
  }

  /** The classifier as the detector runs it: two loops keeping a running
      maximum and its index, then the key lookup. */
  method Classify(mags: Magnitudes) returns (d: Detection)
    ensures d == Classification(mags)
  {
    var row, col := -1, -1;
    var maxRow, maxCol := 0.0, 0.0;
    for i := 0 to 4
      invariant -1 <= row < i
      invariant Pick(row, maxRow) == Scan(mags[..i])
    {
      assert mags[..i + 1][..i] == mags[..i];
      if mags[i] > maxRow {
        maxRow := mags[i];
        row := i;
      }
    }
    for i := 4 to 8
      invariant -1 <= col < i - 4
      invariant Pick(col, maxCol) == Scan(mags[4..i])
    {
      assert mags[4..i + 1][..i - 4] == mags[4..i];
      if mags[i] > maxCol {
        maxCol := mags[i];
        col := i - 4;
      }
    }
    assert mags[4..8] == mags[4..];
    var key := NoKey;
    if row >= 0 && col >= 0 {
      key := Keys[row][col];
    }
    d := Detection(row, col, maxRow, maxCol, key);
  }

  /** Equal maxima within the row group: the lower index wins. */
  lemma TieGoesToLowerRow(mags: Magnitudes, i: nat, j: nat)
    requires i < j < 4 && mags[i] == mags[j] && mags[i] > 0.0
    requires forall k | 0 <= k < 4 :: mags[k] <= mags[i]
    requires forall k | 0 <= k < i :: mags[k] < mags[i]
    ensures Classification(mags).row == i
  {
    var d := Classification(mags);
    ClassificationMeetsSpec(mags);
    var g := mags[..4];
    assert g[i] == mags[i];
    assert IsLowestMax(g, i, mags[i]);
    LowestMaxUnique(g, d.row, d.maxRow, i, mags[i]);
  }

  /** A block whose row and column maxima both exceed a non-negative
      threshold has a dominant tone in each group, so it yields a real key. */
  lemma StrongSignalHasKey(mags: Magnitudes, threshold: real)
    requires threshold >= 0.0
    requires Classification(mags).maxRow > threshold && Classification(mags).maxCol > threshold
    ensures Classification(mags).row >= 0 && Classification(mags).col >= 0
    ensures IsKey(Classification(mags).key)
  {
    ClassificationMeetsSpec(mags);
  }
}
