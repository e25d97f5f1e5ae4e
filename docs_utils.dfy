/**
 * The split arrays behind the train/test chemical-space figures of the
 * dataset documentation: one array of labels per split of the dictionary.
 */
module DocsUtils {
  import opened Wrappers
  import opened Dicts

  /** The hue order the figures use. */
  const HueOrder: seq<string> := ["nan", "train", "test"]

  /** Every index of `ix` addresses an array of length `n` (negative indices count from the end). */
  predicate InBounds(ix: seq<int>, n: nat)
  {
    forall j :: 0 <= j < |ix| ==> 0 <= ix[j] + n && ix[j] < n
  }

  /** The position index `k` addresses in an array of length `n`. */
  function Position(k: int, n: nat): (p: nat)
    requires 0 <= k + n && k < n
    ensures p < n && (p == k || p == k + n)
  {
    if k < 0 then k + n else k
  }

  /** Some index of `ix` addresses position `i`. */
  predicate Hits(ix: seq<int>, n: nat, i: nat)
  {
    exists j :: 0 <= j < |ix| && (ix[j] == i || ix[j] + n == i)
  }

  /** The label at position `i` once the train and then the test indices have been written. */
  function SplitLabel(train: seq<int>, test: seq<int>, n: nat, i: nat): (r: string)
    ensures r in HueOrder
    ensures r == "test" <==> Hits(test, n, i)
    ensures r == "train" <==> Hits(train, n, i) && !Hits(test, n, i)
    ensures r == "nan" <==> !Hits(train, n, i) && !Hits(test, n, i)
  {
    if Hits(test, n, i) then "test" else if Hits(train, n, i) then "train" else "nan"
  }

  /**
   * `split[ix] = value` on a numpy array: every addressed position gets
   * `value`; an index out of range raises IndexError before anything is written.
   */
  method Assign(split: array<string>, ix: seq<int>, value: string) returns (ok: bool)
    modifies split
    ensures ok <==> InBounds(ix, split.Length)
    ensures forall i :: 0 <= i < split.Length ==>
              split[i] == if ok && Hits(ix, split.Length, i) then value else old(split[i])
  {
    var n := split.Length;
    if !InBounds(ix, n) {
      return false;
    }
    for j := 0 to |ix|
      invariant forall i :: 0 <= i < n ==> split[i] == if Hits(ix[..j], n, i) then value else old(split[i])
    {
      var p := Position(ix[j], n);
      split[p] := value;
      forall i | 0 <= i < n ensures Hits(ix[..j + 1], n, i) <==> Hits(ix[..j], n, i) || i == p {
        if Hits(ix[..j + 1], n, i) {
          var m :| 0 <= m < j + 1 && (ix[..j + 1][m] == i || ix[..j + 1][m] + n == i);
          if m < j {
            assert ix[..j][m] == ix[m];
          }
        }
        if Hits(ix[..j], n, i) {
          var m :| 0 <= m < j && (ix[..j][m] == i || ix[..j][m] + n == i);
          assert ix[..j + 1][m] == ix[..j][m];
        }
        if i == p {
          assert ix[..j + 1][j] == ix[j];
        }
      }
    }
    assert ix[..|ix|] == ix;
    return true;
  }

  /** One split array: "nan" everywhere, then "train" at `train`, then "test" at `test`. */
  method MakeSplit(n: nat, train: seq<int>, test: seq<int>) returns (r: Result<array<string>, string>)
    ensures r.Err? <==> !InBounds(train, n) || !InBounds(test, n)
    ensures r.Ok? ==> fresh(r.value) && r.value.Length == n
                      && forall i :: 0 <= i < n ==> r.value[i] == SplitLabel(train, test, n, i)
  {
    var split := new string[n](_ => "nan");
    var ok := Assign(split, train, "train");
    if !ok {
      return Err("index out of bounds");
    }
    ok := Assign(split, test, "test");
    if !ok {
      return Err("index out of bounds");
    }
    return Ok(split);
  }

  /** Some split of `d` holds an index outside an array of length `n`. */
  predicate SomeOutOfBounds(d: Dict<(seq<int>, seq<int>)>, n: nat)
  {
    exists k :: 0 <= k < |d| && (!InBounds(d[k].1.0, n) || !InBounds(d[k].1.1, n))
  }

  /**
   * The loop of `visualize_split_chemspace` over `train_test_dict`, for `n`
   * molecules: one split array and one label per entry, in the dict's order.
   */
  method SplitArrays(n: nat, trainTestDict: Dict<(seq<int>, seq<int>)>)
    returns (r: Result<(seq<array<string>>, seq<string>), string>)
    ensures r.Err? <==> SomeOutOfBounds(trainTestDict, n)
    ensures r.Ok? ==> var (splits, labels) := r.value;
                      |splits| == |labels| == |trainTestDict| && labels == Keys(trainTestDict)
                      && forall k :: 0 <= k < |splits| ==>
                           splits[k].Length == n
                           && forall i :: 0 <= i < n ==>
                                splits[k][i] == SplitLabel(trainTestDict[k].1.0, trainTestDict[k].1.1, n, i)
  {
    var splits: seq<array<string>> := [];
    var labels: seq<string> := [];
    for k := 0 to |trainTestDict|
      invariant |splits| == |labels| == k
      invariant labels == Keys(trainTestDict[..k])
      invariant forall m :: 0 <= m < k ==> InBounds(trainTestDict[m].1.0, n) && InBounds(trainTestDict[m].1.1, n)
      invariant forall m :: 0 <= m < k ==>
                  splits[m].Length == n
                  && forall i :: 0 <= i < n ==>
                       splits[m][i] == SplitLabel(trainTestDict[m].1.0, trainTestDict[m].1.1, n, i)
    {
      var (key, v) := trainTestDict[k];
      var split := MakeSplit(n, v.0, v.1);
      if split.Err? {
        assert SomeOutOfBounds(trainTestDict, n) by {
          assert trainTestDict[k].1 == v;
        }
        return Err(split.error);
      }
      splits := splits + [split.value];
      labels := labels + [key];
      assert trainTestDict[..k + 1] == trainTestDict[..k] + [trainTestDict[k]];
    }
    assert trainTestDict[..|trainTestDict|] == trainTestDict;
    return Ok((splits, labels));
  }
}
