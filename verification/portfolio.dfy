/** A `Portfolio`: the ordered list of assets it holds. Assets are opaque and
    compared with `==`, which stands for the `equals` the list uses (object
    identity, since the asset classes do not override it). */
module Portfolios {
  import Seqs

  datatype Portfolio<A> = Portfolio(assets: seq<A>)

  /** `new Portfolio()`: holds no assets. */
  function NewPortfolio<A>(): (p: Portfolio<A>)
    ensures |p.assets| == 0
  {
    Portfolio([])
  }

  /** `addAsset`: appends at the end (`ArrayList.add`). */
  function AddAsset<A>(p: Portfolio<A>, asset: A): (r: Portfolio<A>)
    ensures |r.assets| == |p.assets| + 1
    ensures r.assets[|p.assets|] == asset
    ensures forall k :: 0 <= k < |p.assets| ==> r.assets[k] == p.assets[k]
  {
    Portfolio(p.assets + [asset])
  }

  /** `ArrayList.remove(Object)`: drops the first element equal to `x`, if any. */
  function RemoveFirst<A(==)>(s: seq<A>, x: A): (r: seq<A>)
    ensures x !in s ==> r == s
    ensures x in s ==> |r| == |s| - 1
    ensures forall k :: 0 <= k < Seqs.IndexOf(s, x) && k < |r| ==> r[k] == s[k]
    ensures forall k :: Seqs.IndexOf(s, x) <= k < |r| ==> r[k] == s[k + 1]
  {
    if |s| == 0 then s
    else if s[0] == x then s[1..]
    else [s[0]] + RemoveFirst(s[1..], x)
  }

  /** Removing the first occurrence takes exactly one copy of `x` out of the
      bag of elements and leaves every other element's count alone. */
  lemma {:induction false} RemoveFirstMultiset<A>(s: seq<A>, x: A)
    ensures multiset(RemoveFirst(s, x)) == multiset(s) - multiset{x}
  {
    if |s| > 0 {
      assert s == [s[0]] + s[1..];
      if s[0] != x {
        RemoveFirstMultiset(s[1..], x);
        assert RemoveFirst(s, x) == [s[0]] + RemoveFirst(s[1..], x);
      }
    }
  }

  /** The result is the input with exactly the position of the first `x`
      deleted, so the remaining elements keep their relative order. */
  lemma RemoveFirstDeletesFirstOccurrence<A>(s: seq<A>, x: A)
    requires x in s
    ensures Seqs.IndexOf(s, x) < |s| && s[Seqs.IndexOf(s, x)] == x
    ensures x !in s[..Seqs.IndexOf(s, x)]
    ensures RemoveFirst(s, x) == s[..Seqs.IndexOf(s, x)] + s[Seqs.IndexOf(s, x) + 1..]
  {
    var i := Seqs.IndexOf(s, x);
    var r := RemoveFirst(s, x);
    var d := s[..i] + s[i + 1..];
    assert x !in s[..i] by {
      forall k | 0 <= k < i ensures s[..i][k] != x {
        assert s[..i][k] == s[k];
      }
    }
    assert |r| == |d|;
    forall k | 0 <= k < |r| ensures r[k] == d[k] {
      if k < i {
        assert r[k] == s[k] && d[k] == s[k];
      } else {
        assert r[k] == s[k + 1] && d[k] == s[k + 1];
      }
    }
    assert r == d;
  }

  /** `removeAsset`: removes the first occurrence of `asset` only; a portfolio
      not holding it is left as it is. */
  function RemoveAsset<A(==)>(p: Portfolio<A>, asset: A): (r: Portfolio<A>)
    ensures asset !in p.assets ==> r == p
    ensures asset in p.assets ==> |r.assets| == |p.assets| - 1
    ensures multiset(r.assets) == multiset(p.assets) - multiset{asset}
  {
    RemoveFirstMultiset(p.assets, asset);
    Portfolio(RemoveFirst(p.assets, asset))
  }

  /** Only the first occurrence goes: a later duplicate is still held, moved
      down by one position. */
  lemma RemoveAssetKeepsLaterDuplicates<A>(p: Portfolio<A>, asset: A, i: int, j: int)
    requires 0 <= i < j < |p.assets|
    requires p.assets[i] == asset && p.assets[j] == asset
    ensures |RemoveAsset(p, asset).assets| == |p.assets| - 1
    ensures RemoveAsset(p, asset).assets[j - 1] == asset
  {
    assert Seqs.IndexOf(p.assets, asset) <= i;
  }

  /** Removing an asset the portfolio did not hold undoes adding it. */
  lemma AddThenRemove<A>(p: Portfolio<A>, asset: A)
    requires asset !in p.assets
    ensures RemoveAsset(AddAsset(p, asset), asset) == p
  {
    var s := p.assets + [asset];
    RemoveFirstDeletesFirstOccurrence(s, asset);
    assert Seqs.IndexOf(s, asset) == |p.assets|;
    assert s[..|p.assets|] == p.assets;
  }
}
