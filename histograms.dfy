/** wordle.py's Histogram: a list of turn counts indexed by small ints that
    grows with zeros whenever an index past its end is read or written. */
module Histograms {

  function Max(a: int, b: int): int { if a < b then b else a }

  /** Entry i of a histogram, reading past the end as 0. */
  function At(h: seq<int>, i: nat): int {
    if i < |h| then h[i] else 0
  }

  /** The list after __getitem__/__setitem__ at index i has extended it. */
  function Padded(h: seq<int>, i: nat): (r: seq<int>)
    ensures |r| == Max(|h|, i + 1)
    ensures forall k :: 0 <= k < |r| ==> r[k] == At(h, k)
  {
    if i >= |h| then h + seq(i - |h| + 1, _ => 0) else h
  }

  /** Elementwise sum, defined by recursion on both lists; the longer one's tail is kept. */
  function AddHist(a: seq<int>, b: seq<int>): seq<int> {
    if a == [] then b
    else if b == [] then a
    else [a[0] + b[0]] + AddHist(a[1..], b[1..])
  }

  /** Sum of all entries: the number of games the histogram counts. */
  function Total(h: seq<int>): int {
    if h == [] then 0 else h[0] + Total(h[1..])
  }

  /** Sum of (base + i) * h[i]. */
  function WeightedFrom(h: seq<int>, base: int): int {
    if h == [] then 0 else base * h[0] + WeightedFrom(h[1..], base + 1)
  }

  /** Sum of i * h[i]: the total number of guesses over all games counted. */
  function Weighted(h: seq<int>): int {
    WeightedFrom(h, 0)
  }

  /** The sum has the length of the longer list and entry i is the sum of the two entries i. */
  lemma {:induction false} AddHistAt(a: seq<int>, b: seq<int>)
    ensures |AddHist(a, b)| == Max(|a|, |b|)
    ensures forall i :: 0 <= i < |AddHist(a, b)| ==> AddHist(a, b)[i] == At(a, i) + At(b, i)
  {
    if a != [] && b != [] {
      AddHistAt(a[1..], b[1..]);
      var r := AddHist(a, b);
      forall i | 0 <= i < |r| ensures r[i] == At(a, i) + At(b, i) {
        if i > 0 {
          assert r[i] == AddHist(a[1..], b[1..])[i - 1];
        }
      }
    }
  }

  /** Summing histograms sums the games they count. */
  lemma {:induction false} TotalAdd(a: seq<int>, b: seq<int>)
    ensures Total(AddHist(a, b)) == Total(a) + Total(b)
  {
    if a != [] && b != [] {
      TotalAdd(a[1..], b[1..]);
      assert AddHist(a, b)[1..] == AddHist(a[1..], b[1..]);
    }
  }

  lemma {:induction false} WeightedFromAdd(a: seq<int>, b: seq<int>, base: int)
    ensures WeightedFrom(AddHist(a, b), base) == WeightedFrom(a, base) + WeightedFrom(b, base)
  {
    if a != [] && b != [] {
      WeightedFromAdd(a[1..], b[1..], base + 1);
      assert AddHist(a, b)[1..] == AddHist(a[1..], b[1..]);
    }
  }

  /** Summing histograms sums the guesses they count. */
  lemma WeightedAdd(a: seq<int>, b: seq<int>)
    ensures Weighted(AddHist(a, b)) == Weighted(a) + Weighted(b)
  {
    WeightedFromAdd(a, b, 0);
  }

  lemma {:induction false} WeightedFromStep(h: seq<int>, base: int)
    ensures WeightedFrom(h, base + 1) == WeightedFrom(h, base) + Total(h)
  {
    if h != [] {
      WeightedFromStep(h[1..], base + 1);
    }
  }

  /** shift_right prepends a 0: entry i moves to i + 1, the number of games
      is unchanged and every game costs one guess more. */
  lemma ShiftRightFacts(h: seq<int>)
    ensures |[0] + h| == |h| + 1 && ([0] + h)[0] == 0
    ensures forall i :: 0 <= i < |h| ==> ([0] + h)[i + 1] == h[i]
    ensures Total([0] + h) == Total(h)
    ensures Weighted([0] + h) == Weighted(h) + Total(h)
  {
    assert ([0] + h)[1..] == h;
    WeightedFromStep(h, 0);
  }

  /** The Histogram object. Only the operations the search uses are modelled;
      indexes are non-negative (Python's negative indexes are never used). */
  class Histogram {
    var data: seq<int>

    /** Histogram() */
    constructor ()
      ensures data == []
    {
      data := [];
    }

    /** Histogram(iterable) */
    constructor FromSeq(s: seq<int>)
      ensures data == s
    {
      data := s;
    }

    /** __getitem__: pads with zeros up to index i, then reads it. */
    method Get(i: nat) returns (v: int)
      modifies this
      ensures data == Padded(old(data), i)
      ensures v == At(old(data), i)
      ensures i >= |old(data)| ==> v == 0
    {
      if i >= |data| {
        data := data + seq(i - |data| + 1, _ => 0);
      }
      v := data[i];
    }

    /** __setitem__: pads with zeros up to index i, then writes it. */
    method Set(i: nat, v: int)
      modifies this
      ensures |data| == Max(|old(data)|, i + 1)
      ensures data[i] == v
      ensures forall k :: 0 <= k < |data| && k != i ==> data[k] == At(old(data), k)
    {
      if i >= |data| {
        data := data + seq(i - |data| + 1, _ => 0);
      }
      data := data[i := v];
    }

    /** update: self[i] += other[i] for every index of other. The other
        histogram is read only, so it is passed as its list of entries. */
    method Update(other: seq<int>)
      modifies this
      ensures data == AddHist(old(data), other)
    {
      ghost var start := data;
      for i := 0 to |other|
        invariant |data| == Max(|start|, i)
        invariant forall k :: 0 <= k < |data| ==> data[k] == At(start, k) + (if k < i then other[k] else 0)
      {
        var x := Get(i);
        Set(i, x + other[i]);
      }
      AddHistAt(start, other);
      assert data == AddHist(start, other);
    }

    /** shift_right: prepend a 0. */
    method ShiftRight()
      modifies this
      ensures data == [0] + old(data)
    {
      data := [0] + data;
    }
  }
}
