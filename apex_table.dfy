/** apexpredator.py's Table and the deduction in main: a map from rendered
    rows of squares to the target words some legal guess gives that row,
    and the narrowing of the candidate targets by the rows people shared. */
module ApexTable {
  import opened Responses
  import opened ApexResponse

  /** Table.data: rendered row -> target words. */
  type Table = map<string, set<Word>>

  /** What Response(t, g) demands: each target and each guess compared with
      it have the same length (make_response asserts this). */
  predicate SameLengths(targets: seq<Word>, guesses: seq<Word>) {
    forall t, g :: t in targets && g in guesses && g != t ==> |t| == |g|
  }

  /** The (row, target) pairs make_table records from one target. */
  ghost function Row(t: Word, guesses: seq<Word>): set<(string, Word)>
    requires forall g :: g in guesses && g != t ==> |g| == |t|
  {
    set g | g in guesses && g != t :: (Render(Feedback(t, g)), t)
  }

  /** The (row, target) pairs make_table records: every target with every
      guess except itself. */
  ghost function Pairs(targets: seq<Word>, guesses: seq<Word>): set<(string, Word)>
    requires SameLengths(targets, guesses)
  {
    set t, g | t in targets && g in guesses && g != t :: (Render(Feedback(t, g)), t)
  }

  /** data holds exactly the pairs, and no key maps to an empty set. */
  ghost predicate Holds(data: Table, pairs: set<(string, Word)>) {
    && (forall bs, t :: bs in data && t in data[bs] ==> (bs, t) in pairs)
    && (forall p :: p in pairs ==> p.0 in data && p.1 in data[p.0])
    && (forall bs :: bs in data ==> data[bs] != {})
  }

  /** data[bs].add(t) on a defaultdict(set) records one more pair. */
  lemma AddPair(data: Table, pairs: set<(string, Word)>, bs: string, t: Word)
    requires Holds(data, pairs)
    ensures Holds(data[bs := (if bs in data then data[bs] else {}) + {t}], pairs + {(bs, t)})
  {
  }

  lemma RowStep(t: Word, guesses: seq<Word>, j: nat)
    requires j < |guesses| && forall g :: g in guesses && g != t ==> |g| == |t|
    ensures Row(t, guesses[..j + 1]) == Row(t, guesses[..j]) +
              (if guesses[j] != t then {(Render(Feedback(t, guesses[j])), t)} else {})
  {
    assert guesses[..j + 1] == guesses[..j] + [guesses[j]];
  }

  lemma PairsStep(targets: seq<Word>, guesses: seq<Word>, i: nat)
    requires i < |targets| && SameLengths(targets, guesses)
    ensures SameLengths(targets[..i], guesses) && SameLengths(targets[..i + 1], guesses)
    ensures Pairs(targets[..i + 1], guesses) == Pairs(targets[..i], guesses) + Row(targets[i], guesses[..|guesses|])
  {
    assert targets[..i + 1] == targets[..i] + [targets[i]];
    assert guesses[..|guesses|] == guesses;
  }

  /** Table.make_table: for each target t and each guess g other than t,
      add t under str(Response(t, g)). */
  method MakeTable(targetWords: seq<Word>, guessWords: seq<Word>) returns (data: Table)
    requires SameLengths(targetWords, guessWords)
    ensures Holds(data, Pairs(targetWords, guessWords))
  {
    data := map[];
    for i := 0 to |targetWords|
      invariant SameLengths(targetWords[..i], guessWords)
      invariant Holds(data, Pairs(targetWords[..i], guessWords))
    {
      var t := targetWords[i];
      PairsStep(targetWords, guessWords, i);
      for j := 0 to |guessWords|
        invariant Holds(data, Pairs(targetWords[..i], guessWords) + Row(t, guessWords[..j]))
      {
        var g := guessWords[j];
        RowStep(t, guessWords, j);
        if g != t {
          var info := MakeResponse(t, g);
          var bs := Render(info);
          AddPair(data, Pairs(targetWords[..i], guessWords) + Row(t, guessWords[..j]), bs, t);
          data := data[bs := (if bs in data then data[bs] else {}) + {t}];
        }
      }
    }
    assert targetWords[..|targetWords|] == targetWords;
  }

  /** A target is listed under a row exactly when it is one of the targets
      and some other guess word gives that row against it. */
  lemma TableMembership(data: Table, targets: seq<Word>, guesses: seq<Word>, bs: string, t: Word)
    requires SameLengths(targets, guesses) && Holds(data, Pairs(targets, guesses))
    ensures (bs in data && t in data[bs]) <==>
            (t in targets && exists g :: g in guesses && g != t && Render(Feedback(t, g)) == bs)
  {
    if t in targets && exists g :: g in guesses && g != t && Render(Feedback(t, g)) == bs {
      var g :| g in guesses && g != t && Render(Feedback(t, g)) == bs;
      assert (bs, t) in Pairs(targets, guesses);
    }
  }

  /** The all-green row of any length is never a key: only the guess itself
      answers all CORRECT, and make_table skips it. */
  lemma NoAllGreen(data: Table, targets: seq<Word>, guesses: seq<Word>, n: nat)
    requires SameLengths(targets, guesses) && Holds(data, Pairs(targets, guesses))
    ensures Render(seq(n, _ => Correct)) !in data
  {
    var green := seq(n, _ => Correct);
    if Render(green) in data {
      var t :| t in data[Render(green)];
      assert (Render(green), t) in Pairs(targets, guesses);
      var g :| g in guesses && g != t && Render(Feedback(t, g)) == Render(green);
      RenderInjective(Feedback(t, g), green);
      AllCorrectIff(t, g);
    }
  }

  // ---------------------------------------------------------------------
  // The narrowing loop of main.
  // ---------------------------------------------------------------------

  /** responses = set(Response.canonicalize_blocks(row) for row in shares) */
  function SharePatterns(shares: seq<string>): (r: set<string>)
    ensures forall p :: p in r ==> DARK_THEME_ABSENT !in p && Stripped(p)
  {
    var r := set row | row in shares :: Canonicalize(row);
    forall p | p in r ensures DARK_THEME_ABSENT !in p && Stripped(p) {
      var row :| row in shares && p == Canonicalize(row);
      CanonicalizeSpec(row);
    }
    r
  }

  /** A pattern the loop acts on: it is a key, and some candidate survives it. */
  predicate Accepted(candidates: set<Word>, table: Table, r: string) {
    r in table && candidates * table[r] != {}
  }

  /** One pass of the loop: an accepted pattern narrows the candidates to
      those it allows; any other pattern is thrown out. */
  function Step(candidates: set<Word>, table: Table, r: string): set<Word> {
    if Accepted(candidates, table, r) then candidates * table[r] else candidates
  }

  /** The candidates after the loop has seen the patterns in order. */
  function Narrowed(candidates: set<Word>, table: Table, patterns: seq<string>): set<Word> {
    if patterns == [] then candidates
    else Step(Narrowed(candidates, table, patterns[..|patterns| - 1]), table, patterns[|patterns| - 1])
  }

  /** candidates = set(target_words) */
  function SetOf(words: seq<Word>): (r: set<Word>)
    ensures forall w :: w in r <==> w in words
  {
    set w | w in words
  }

  /** The candidate-narrowing loop of main, over the patterns of the shares
      in the order the set iterates them. */
  method Narrow(targetWords: seq<Word>, table: Table, shares: seq<string>, patterns: seq<string>)
    returns (candidates: set<Word>)
    requires forall p :: p in patterns <==> p in SharePatterns(shares)
    ensures candidates == Narrowed(SetOf(targetWords), table, patterns)
    ensures candidates <= SetOf(targetWords)
    ensures targetWords != [] ==> candidates != {}
  {
    var start := SetOf(targetWords);
    candidates := start;
    for k := 0 to |patterns|
      invariant candidates == Narrowed(start, table, patterns[..k])
    {
      var r := patterns[k];
      if r in table {
        var remaining := candidates * table[r];
        if remaining != {} {
          candidates := remaining;
        }
      }
      assert patterns[..k + 1][..k] == patterns[..k];
    }
    assert patterns[..|patterns|] == patterns;
    NarrowedShrinks(start, table, patterns);
    if targetWords != [] {
      assert targetWords[0] in start;
    }
  }

  /** The candidates only shrink, and never to nothing. */
  lemma {:induction false} NarrowedShrinks(candidates: set<Word>, table: Table, patterns: seq<string>)
    ensures Narrowed(candidates, table, patterns) <= candidates
    ensures candidates != {} ==> Narrowed(candidates, table, patterns) != {}
  {
    if patterns != [] {
      NarrowedShrinks(candidates, table, patterns[..|patterns| - 1]);
    }
  }

  /** Later patterns only shrink what an earlier prefix left. */
  lemma {:induction false} NarrowedMonotone(candidates: set<Word>, table: Table, patterns: seq<string>, k: nat)
    requires k <= |patterns|
    ensures Narrowed(candidates, table, patterns) <= Narrowed(candidates, table, patterns[..k])
  {
    if k < |patterns| {
      var n := |patterns| - 1;
      assert patterns[..n][..k] == patterns[..k];
      NarrowedMonotone(candidates, table, patterns[..n], k);
    } else {
      assert patterns[..k] == patterns;
    }
  }

  /** After an accepted pattern every remaining candidate is listed under
      it; a pattern that is not accepted changes nothing. */
  lemma NarrowedAt(candidates: set<Word>, table: Table, patterns: seq<string>, k: nat)
    requires k < |patterns|
    ensures var before := Narrowed(candidates, table, patterns[..k]);
            if Accepted(before, table, patterns[k])
            then Narrowed(candidates, table, patterns) <= table[patterns[k]]
            else Narrowed(candidates, table, patterns[..k + 1]) == before
  {
    assert patterns[..k + 1][..k] == patterns[..k];
    NarrowedMonotone(candidates, table, patterns, k + 1);
  }

  /** With the table make_table builds, a candidate left after an accepted
      pattern is a target that some other guess word gives that pattern. */
  lemma DeduceSound(targets: seq<Word>, guesses: seq<Word>, table: Table, patterns: seq<string>, k: nat, t: Word)
    requires SameLengths(targets, guesses) && Holds(table, Pairs(targets, guesses))
    requires k < |patterns| && Accepted(Narrowed(SetOf(targets), table, patterns[..k]), table, patterns[k])
    requires t in Narrowed(SetOf(targets), table, patterns)
    ensures t in targets
    ensures exists g :: g in guesses && g != t && Render(Feedback(t, g)) == patterns[k]
  {
    NarrowedShrinks(SetOf(targets), table, patterns);
    NarrowedAt(SetOf(targets), table, patterns, k);
    TableMembership(table, targets, guesses, patterns[k], t);
  }
}
