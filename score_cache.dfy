module Options {
  datatype Option<T> = None | Some(value: T)
}

/** wordle.py's Evaluation record and its PlayerScoreCache, a ChainMap from
    word sets to evaluations: one writable layer in front of loaded ones. */
module ScoreCache {
  import opened Options
  import opened Responses

  /** What scoring a game state produced. The source's best_word is None
      or '' when no guess was made; both are the empty word here. */
  datatype Evaluation = Evaluation(score: real, bestWord: Word, histogram: seq<int>)

  /** Evaluation.__lt__ compares scores only. */
  predicate Less(a: Evaluation, b: Evaluation) {
    a.score < b.score
  }

  type Layer = map<WordSet, Evaluation>

  /** ChainMap lookup: the value in the first layer holding the key. */
  function FirstHit(layers: seq<Layer>, key: WordSet): Option<Evaluation> {
    if layers == [] then None
    else if key in layers[0] then Some(layers[0][key])
    else FirstHit(layers[1..], key)
  }

  /** The index of the first layer holding the key. */
  predicate FirstLayerWith(layers: seq<Layer>, key: WordSet, i: int) {
    0 <= i < |layers| && key in layers[i] && forall j :: 0 <= j < i ==> key !in layers[j]
  }

  /** FirstHit finds a value exactly when some layer holds the key, and then
      it is the value of the first such layer. */
  lemma {:induction false} FirstHitSpec(layers: seq<Layer>, key: WordSet)
    ensures FirstHit(layers, key).None? <==> forall j :: 0 <= j < |layers| ==> key !in layers[j]
    ensures forall i :: FirstLayerWith(layers, key, i) ==> FirstHit(layers, key) == Some(layers[i][key])
  {
    if layers != [] && key !in layers[0] {
      FirstHitSpec(layers[1..], key);
      forall i | FirstLayerWith(layers, key, i)
        ensures FirstHit(layers, key) == Some(layers[i][key])
      {
        assert FirstLayerWith(layers[1..], key, i - 1);
      }
      if FirstHit(layers, key).None? {
        forall j | 0 <= j < |layers| ensures key !in layers[j] {
          if j > 0 { assert layers[j] == layers[1..][j - 1]; }
        }
      }
    }
  }

  /** Writing key := v into layer 0 makes a lookup of key return v and
      leaves every other lookup as it was. */
  lemma WriteFront(layers: seq<Layer>, key: WordSet, v: Evaluation, other: WordSet)
    requires |layers| > 0
    ensures FirstHit(layers[0 := layers[0][key := v]], key) == Some(v)
    ensures other != key ==> FirstHit(layers[0 := layers[0][key := v]], other) == FirstHit(layers, other)
  {
    var after := layers[0 := layers[0][key := v]];
    assert after[1..] == layers[1..];
  }

  /** The layered cache. biggish is the BIGGISH attribute that Player.__init__
      sets on its cache. */
  class PlayerScoreCache {
    var maps: seq<Layer>
    const biggish: real

    ghost predicate Valid()
      reads this
    {
      |maps| > 0
    }

    /** PlayerScoreCache(): a ChainMap over one empty layer. */
    constructor (biggish: real)
      ensures Valid() && maps == [map[]] && this.biggish == biggish
    {
      maps := [map[]];
      this.biggish := biggish;
    }

    /** The lookup a ChainMap performs. */
    function Lookup(key: WordSet): Option<Evaluation>
      reads this
    {
      FirstHit(maps, key)
    }

    /** self[key]: scan the layers in order; KeyError is None. */
    method Get(key: WordSet) returns (r: Option<Evaluation>)
      ensures r == Lookup(key)
    {
      var i := 0;
      while i < |maps|
        invariant 0 <= i <= |maps|
        invariant FirstHit(maps[i..], key) == FirstHit(maps, key)
      {
        if key in maps[i] {
          return Some(maps[i][key]);
        }
        assert maps[i..][1..] == maps[i + 1..];
        i := i + 1;
      }
      r := None;
    }

    /** add: a score above biggish is not cached; otherwise the evaluation
        goes into layer 0 only. */
    method Add(key: WordSet, ev: Evaluation)
      requires Valid()
      modifies this
      ensures Valid()
      ensures ev.score > biggish ==> maps == old(maps)
      ensures ev.score <= biggish ==> maps == old(maps)[0 := old(maps)[0][key := ev]]
    {
      if ev.score > biggish {
        return;
      }
      maps := maps[0 := maps[0][key := ev]];
    }

    /** load, given the snapshots already read back: a fresh empty layer 0
        followed by them in order. */
    method Load(snapshots: seq<Layer>)
      modifies this
      ensures Valid() && maps == [map[]] + snapshots
    {
      maps := [map[]];
      for k := 0 to |snapshots|
        invariant maps == [map[]] + snapshots[..k]
      {
        maps := maps + [snapshots[k]];
      }
    }
  }
}
