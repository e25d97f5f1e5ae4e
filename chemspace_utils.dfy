/**
 * The plotting and upload helpers of the recipes' top-level utils: the
 * embedding-method check, the train/test labels and the subplot grid of
 * `display_chemspace`, and the bucket/blob split of `save_figure`.
 */
module ChemspaceUtils {
  import opened Wrappers
  import opened Text

  // ---------------------------------------------------------------------------
  // display_chemspace

  /** The two embedding columns written for the method `embedding`, or the ValueError for any method but "umap" and "tsne". */
  function EmbeddingColumns(embedding: string): (r: Result<(string, string), string>)
    ensures r.Ok? <==> embedding == "umap" || embedding == "tsne"
    ensures r.Ok? ==> r.value.0 == embedding + "_0" && r.value.1 == embedding + "_1"
    ensures r.Err? ==> r.error == "Specify the embedding method"
  {
    if embedding == "umap" || embedding == "tsne" then Ok((embedding + "_0", embedding + "_1"))
    else Err("Specify the embedding method")
  }

  /** Every label is a row of a frame of `n` rows, its rows labelled 0 to n - 1. */
  predicate RowLabels(rows: seq<int>, n: nat)
  {
    forall j :: 0 <= j < |rows| ==> 0 <= rows[j] < n
  }

  /**
   * `data.loc[rows, split_name] = value`: every listed row of the column gets
   * `value`. A label that is not a row raises KeyError before anything is written.
   */
  method LabelRows(column: array<Option<string>>, rows: seq<int>, value: string) returns (ok: bool)
    modifies column
    ensures ok <==> RowLabels(rows, column.Length)
    ensures forall i :: 0 <= i < column.Length ==> column[i] == if ok && i in rows then Some(value) else old(column[i])
  {
    if !RowLabels(rows, column.Length) {
      return false;
    }
    for j := 0 to |rows|
      invariant forall i :: 0 <= i < column.Length ==> column[i] == if i in rows[..j] then Some(value) else old(column[i])
    {
      column[rows[j]] := Some(value);
      assert forall i :: i in rows[..j + 1] <==> i in rows[..j] || i == rows[j] by {
        assert rows[..j + 1] == rows[..j] + [rows[j]];
      }
    }
    assert rows[..|rows|] == rows;
    return true;
  }

  /**
   * The split labels: with both a split and a column name, the rows of
   * `split[0]` become "train" and then those of `split[1]` "test", so a row in
   * both ends up "test"; a missing row raises, leaving what was written so far.
   */
  method LabelSplit(column: array<Option<string>>, split: Option<(seq<int>, seq<int>)>, hasSplitName: bool)
    returns (ok: bool)
    modifies column
    ensures ok <==> split.None? || !hasSplitName || (RowLabels(split.value.0, column.Length) && RowLabels(split.value.1, column.Length))
    ensures split.None? || !hasSplitName ==> forall i :: 0 <= i < column.Length ==> column[i] == old(column[i])
    ensures split.Some? && hasSplitName && !RowLabels(split.value.0, column.Length) ==>
              forall i :: 0 <= i < column.Length ==> column[i] == old(column[i])
    ensures split.Some? && hasSplitName && RowLabels(split.value.0, column.Length) && !RowLabels(split.value.1, column.Length) ==>
              forall i :: 0 <= i < column.Length ==> column[i] == if i in split.value.0 then Some("train") else old(column[i])
    ensures ok && split.Some? && hasSplitName ==>
              forall i :: 0 <= i < column.Length ==>
                column[i] == if i in split.value.1 then Some("test")
                             else if i in split.value.0 then Some("train")
                             else old(column[i])
  {
    if split.None? || !hasSplitName {
      return true;
    }
    ok := LabelRows(column, split.value.0, "train");
    if !ok {
      return false;
    }
    ok := LabelRows(column, split.value.1, "test");
  }

  /** Python's `a // b`: floor division. */
  function FloorDiv(a: int, b: int): (q: int)
    requires b != 0
    ensures b > 0 ==> q * b <= a < q * b + b
    ensures b < 0 ==> q * b >= a > q * b + b
  {
    if b > 0 then a / b else (-a) / (-b)
  }

  /** `ceil(a / b)`. */
  function CeilDiv(a: int, b: int): (q: int)
    requires b != 0
    ensures b > 0 ==> q * b >= a > q * b - b
  {
    -FloorDiv(-a, b)
  }

  /** Over a positive number of rows, no column is needed only for no panel, and one row needs a column per panel. */
  lemma CeilDivPanels(p: nat, n: int)
    requires n > 0
    ensures CeilDiv(p, n) >= 0
    ensures CeilDiv(p, n) == 0 <==> p == 0
    ensures n == 1 ==> CeilDiv(p, n) == p
  {
  }

  /** The cells of the grid hold the panels, the last cell coming after the data panels. */
  lemma GridCells(dataCols: nat, hasSplitName: bool, nrows: int, ncols: int)
    requires nrows > 0 && ncols == CeilDiv(Panels(dataCols, hasSplitName), nrows)
    ensures ncols * nrows >= Panels(dataCols, hasSplitName) > ncols * nrows - nrows
    ensures hasSplitName ==> dataCols <= ncols * nrows - 1 < ncols * nrows
  {
  }

  /** The subplot grid and the cell of the split panel, if one is drawn. */
  datatype Grid = Grid(ncols: int, nrows: int, splitCell: Option<int>)

  /** The number of panels drawn with `data_cols`: one per data column, plus one for the split. */
  function Panels(dataCols: nat, hasSplitName: bool): nat
  {
    dataCols + if hasSplitName then 1 else 0
  }

  /**
   * The grid of `display_chemspace`: one cell without `data_cols`, whatever
   * `nrows` is; otherwise as many columns as the panels need over `nrows`
   * rows, the split panel taking the last cell. With `data_cols` the call
   * raises when `nrows` is 0 (the division), negative (the figure size), when
   * there is no panel at all (a grid of no column), and when the grid is a
   * single cell: `plt.subplots` then returns one Axes, which has no `flatten`.
   */
  function GridOf(dataCols: Option<nat>, hasSplitName: bool, nrowsArg: int): Result<Grid, string>
  {
    if dataCols.None? then Ok(Grid(1, 1, if hasSplitName then Some(0) else None))
    else if nrowsArg == 0 then Err("ZeroDivisionError: division by zero")
    else
      var ncols := CeilDiv(Panels(dataCols.value, hasSplitName), nrowsArg);
      if nrowsArg < 0 then Err("ValueError: figure size must be positive finite")
      else if ncols <= 0 then Err("ValueError: Number of columns must be a positive integer")
      else if nrowsArg == 1 && ncols == 1 then Err("AttributeError: 'Axes' object has no attribute 'flatten'")
      else Ok(Grid(ncols, nrowsArg, if hasSplitName then Some(ncols * nrowsArg - 1) else None))
  }

  /** With `data_cols`, drawing fails exactly for a non-positive `nrows`, no panel, or a single cell. */
  lemma GridOfFails(dataCols: nat, hasSplitName: bool, nrowsArg: int)
    ensures var panels := Panels(dataCols, hasSplitName);
            GridOf(Some(dataCols), hasSplitName, nrowsArg).Err?
            <==> nrowsArg <= 0 || panels == 0 || (nrowsArg == 1 && panels == 1)
  {
    if nrowsArg > 0 {
      CeilDivPanels(Panels(dataCols, hasSplitName), nrowsArg);
    }
  }

  /**
   * A grid that is drawn has `nrows` rows and just enough columns for the
   * panels; the split panel, when there is one, comes after the data panels.
   */
  lemma GridOfCells(dataCols: nat, hasSplitName: bool, nrowsArg: int)
    requires GridOf(Some(dataCols), hasSplitName, nrowsArg).Ok?
    ensures var g, panels := GridOf(Some(dataCols), hasSplitName, nrowsArg).value, Panels(dataCols, hasSplitName);
            g.nrows == nrowsArg
            && g.ncols * nrowsArg >= panels > g.ncols * nrowsArg - nrowsArg
            && (hasSplitName <==> g.splitCell.Some?)
            && (hasSplitName ==> dataCols <= g.splitCell.value < g.ncols * nrowsArg)
  {
    GridCells(dataCols, hasSplitName, nrowsArg, CeilDiv(Panels(dataCols, hasSplitName), nrowsArg));
  }

  /** The steps of `display_chemspace` that size the grid. */
  method GridShape(dataCols: Option<nat>, hasSplitName: bool, nrowsArg: int) returns (r: Result<Grid, string>)
    ensures r == GridOf(dataCols, hasSplitName, nrowsArg)
  {
    var ncols := 1;
    var nrows := if dataCols.None? then 1 else nrowsArg;
    if dataCols.Some? {
      if hasSplitName {
        ncols := ncols + dataCols.value;
      } else {
        ncols := dataCols.value;
      }
      if nrows == 0 {
        return Err("ZeroDivisionError: division by zero");
      }
      ncols := CeilDiv(ncols, nrows);
      if nrows < 0 {
        return Err("ValueError: figure size must be positive finite");
      }
      if ncols <= 0 {
        return Err("ValueError: Number of columns must be a positive integer");
      }
      if nrows == 1 && ncols == 1 {
        return Err("AttributeError: 'Axes' object has no attribute 'flatten'");
      }
      // `axes[-1]`: the last cell of the flattened grid.
      return Ok(Grid(ncols, nrows, if hasSplitName then Some(ncols * nrows - 1) else None));
    }
    return Ok(Grid(ncols, nrows, if hasSplitName then Some(0) else None));
  }

  // ---------------------------------------------------------------------------
  // save_figure

  /**
   * The bucket and blob names of `save_figure`: the third '/'-separated part of
   * the remote path, and the parts after it joined again by '/'. A path of
   * fewer than three parts raises IndexError.
   */
  function BucketBlob(remotePath: string): (r: Result<(string, string), string>)
    ensures r.Err? <==> |SplitOn(remotePath, '/')| < 3
    ensures r.Ok? ==> r.value.0 == SplitOn(remotePath, '/')[2] && '/' !in r.value.0
  {
    var parts := SplitOn(remotePath, '/');
    if |parts| < 3 then Err("list index out of range")
    else Ok((parts[2], Join("/", parts[3..])))
  }

  /** The path is its first two parts, then the bucket and the rest, joined by '/'. */
  lemma PathAroundBucket(remotePath: string)
    requires |SplitOn(remotePath, '/')| >= 3
    ensures var parts := SplitOn(remotePath, '/');
            remotePath == Join("/", parts[..2]) + "/" + Join("/", [parts[2]] + parts[3..])
  {
    var parts := SplitOn(remotePath, '/');
    JoinSplit(remotePath, '/');
    assert parts == parts[..2] + ([parts[2]] + parts[3..]);
    JoinConcat("/", parts[..2], [parts[2]] + parts[3..]);
  }

  /** The scheme, the empty authority part, the bucket and the blob, joined by '/', give the path back. */
  lemma BucketBlobRebuild(remotePath: string)
    requires BucketBlob(remotePath).Ok?
    ensures var parts := SplitOn(remotePath, '/'); var (bucket, blob) := BucketBlob(remotePath).value;
            if |parts| == 3 then blob == "" && Join("/", parts[..2]) + "/" + bucket == remotePath
            else Join("/", parts[..2]) + "/" + bucket + "/" + blob == remotePath
  {
    PathAroundBucket(remotePath);
    RestAfterBucket(SplitOn(remotePath, '/'));
  }

  /** The parts from the bucket on, joined: the bucket alone, or the bucket, '/' and the blob. */
  lemma RestAfterBucket(parts: seq<string>)
    requires |parts| >= 3
    ensures |parts| == 3 ==> Join("/", [parts[2]] + parts[3..]) == parts[2] && Join("/", parts[3..]) == ""
    ensures |parts| > 3 ==> Join("/", [parts[2]] + parts[3..]) == parts[2] + "/" + Join("/", parts[3..])
  {
    if |parts| > 3 {
      JoinCons("/", parts[2], parts[3..]);
    } else {
      assert [parts[2]] + parts[3..] == [parts[2]];
    }
  }

  /** The blob splits back into the key components after the bucket. */
  lemma BlobParts(remotePath: string)
    requires |SplitOn(remotePath, '/')| > 3
    ensures SplitOn(BucketBlob(remotePath).value.1, '/') == SplitOn(remotePath, '/')[3..]
  {
    var parts := SplitOn(remotePath, '/');
    SplitJoin(parts[3..], '/');
  }

  const ExampleParts: seq<string> := ["gs:", "", "b", "k1", "k2"]

  lemma ExampleJoin()
    ensures Join("/", ExampleParts) == "gs://b/k1/k2"
    ensures Join("/", ExampleParts[3..]) == "k1/k2"
  {
    assert ExampleParts[3..] == ["k1", "k2"];
    assert Join("/", ["k1", "k2"]) == "k1/k2";
    assert Join("/", ExampleParts[2..]) == "b/k1/k2";
  }

  lemma ExamplePartsNoSlash()
    ensures forall k :: 0 <= k < |ExampleParts| ==> '/' !in ExampleParts[k]
  {
  }

  /** "gs://b/k1/k2" gives bucket "b" and blob "k1/k2". */
  lemma BucketBlobExample()
    ensures BucketBlob("gs://b/k1/k2") == Ok(("b", "k1/k2"))
  {
    ExampleJoin();
    ExamplePartsNoSlash();
    SplitJoin(ExampleParts, '/');
  }
}
