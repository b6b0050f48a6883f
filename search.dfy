/** wordle.py's game-tree search: Host partitions the remaining words by the
    response a guess would get and averages the Player's scores of the
    parts; Player tries every allowed guess and keeps the best. */
module Search {
  import opened Options
  import opened Responses
  import opened Histograms
  import opened ScoreCache

  /** Player.BIGNUM, the score of a state reached at the depth bound. */
  const BIGNUM: real := 1000000.0
  /** The BIGGISH threshold Player.__init__ puts on its cache. */
  const BIGGISH: real := 1000.0

  // ---------------------------------------------------------------------
  // Word sets, their iteration order and their partition by response.
  // ---------------------------------------------------------------------

  /** No word is listed twice. */
  predicate Distinct(ws: seq<Word>) {
    forall i, j :: 0 <= i < j < |ws| ==> ws[i] != ws[j]
  }

  /** Iterating a word set: the order of a set is unspecified, so the model
      fixes one through a listing of all words. From a listing without
      repeats, each word of the set is visited once. */
  function Enumerate(s: WordSet, order: seq<Word>): (r: seq<Word>)
    ensures forall w :: w in r <==> w in s && w in order
    ensures Distinct(order) ==> Distinct(r)
  {
    if order == [] then []
    else (if order[0] in s then [order[0]] else []) + Enumerate(s, order[1..])
  }

  /** The words of a set that yield response r to the guess. */
  function Group(words: WordSet, guess: Word, r: Response): WordSet
    requires forall w :: w in words ==> |w| == |guess|
  {
    set w | w in words && Feedback(w, guess) == r
  }

  /** Only the guess itself answers all CORRECT, so that group is at most
      {guess}; every other group misses the guess and, when the guess is
      one of the words, is strictly smaller than the set. */
  lemma GroupBound(words: WordSet, guess: Word, r: Response)
    requires forall w :: w in words ==> |w| == |guess|
    ensures Group(words, guess, r) <= words
    ensures AllCorrect(r) ==> Group(words, guess, r) <= {guess}
    ensures !AllCorrect(r) && guess in words ==> |Group(words, guess, r)| < |words|
  {
    var g := Group(words, guess, r);
    forall w | w in g ensures AllCorrect(r) <==> w == guess {
      AllCorrectIff(w, guess);
    }
    if !AllCorrect(r) && guess in words {
      SubsetCard(g, words - {guess});
    }
  }

  /** Sum of the sizes of a sequence of word sets. */
  function SumSizes(groups: seq<WordSet>): nat {
    if groups == [] then 0 else SumSizes(groups[..|groups| - 1]) + |groups[|groups| - 1]|
  }

  /** The words of a set that yield a response in rs, with groups as the
      groups of those responses: each word is covered and each group is the
      group of its response. */
  predicate Partitioned(words: WordSet, guess: Word, rs: seq<Response>, groups: seq<WordSet>)
    requires forall w :: w in words ==> |w| == |guess|
  {
    && (forall a, b :: 0 <= a < b < |rs| ==> rs[a] != rs[b])
    && (forall w :: w in words ==> Feedback(w, guess) in rs)
    && |groups| == |rs|
    && (forall k :: 0 <= k < |groups| ==> groups[k] == Group(words, guess, rs[k]))
  }

  /** Taking away the last group leaves a partition of the other words. */
  lemma RemoveLastGroup(words: WordSet, guess: Word, rs: seq<Response>, groups: seq<WordSet>)
    requires forall w :: w in words ==> |w| == |guess|
    requires Partitioned(words, guess, rs, groups) && rs != []
    ensures Partitioned(words - groups[|rs| - 1], guess, rs[..|rs| - 1], groups[..|rs| - 1])
    ensures words == (words - groups[|rs| - 1]) + groups[|rs| - 1]
  {
    var n := |rs| - 1;
    var rest := words - groups[n];
    forall w | w in rest ensures Feedback(w, guess) in rs[..n] {
      var k :| 0 <= k < |rs| && rs[k] == Feedback(w, guess);
      assert k != n;
    }
    forall k | 0 <= k < n ensures groups[k] == Group(rest, guess, rs[k]) {
      assert rs[k] != rs[n];
    }
  }

  /** The groups of distinct responses that every word yields have sizes
      adding up to the number of words. */
  lemma {:induction false} PartitionSizes(words: WordSet, guess: Word, rs: seq<Response>, groups: seq<WordSet>)
    requires forall w :: w in words ==> |w| == |guess|
    requires Partitioned(words, guess, rs, groups)
    ensures SumSizes(groups) == |words|
  {
    if rs != [] {
      var n := |rs| - 1;
      RemoveLastGroup(words, guess, rs, groups);
      PartitionSizes(words - groups[n], guess, rs[..n], groups[..n]);
    }
  }

  // ---------------------------------------------------------------------
  // What a search result means.
  // ---------------------------------------------------------------------

  /** x added up n times, that is x * n (TimesIsProduct). It is spelt
      out by recursion so that the large proof contexts of the search see
      no product of two unknowns. */
  function Times(x: real, n: nat): real {
    if n == 0 then 0.0 else Times(x, n - 1) + x
  }

  lemma {:induction false} TimesIsProduct(x: real, n: nat)
    ensures Times(x, n) == x * (n as real)
  {
    if n > 0 {
      TimesIsProduct(x, n - 1);
    }
  }

  /** An evaluation of a word set in which every word was solved: the
      histogram counts every word once and the score is the mean number of
      guesses, so the score times the number of words is sum of i * hist[i]. */
  predicate EvalInv(ev: Evaluation, words: WordSet) {
    Total(ev.histogram) == |words| &&
    Times(ev.score, |words|) == (Weighted(ev.histogram) as real)
  }

  /** For a nonempty set, EvalInv makes the score exactly the mean number of
      guesses per word. */
  lemma MeanGuesses(ev: Evaluation, words: WordSet)
    requires EvalInv(ev, words) && words != {}
    ensures ev.score == (Weighted(ev.histogram) as real) / (|words| as real)
  {
    TimesIsProduct(ev.score, |words|);
  }

  /** No Player call below a state of n words at this depth reaches the
      depth bound: every turn removes at least the guessed word, except a
      forced first guess. */
  predicate Free(depth: int, maxDepth: int, n: nat, forced: bool) {
    maxDepth < depth || depth + n + (if forced then 1 else 0) <= maxDepth
  }

  /** One group's share of Host.score_position's score:
      len(words) * child.score / len(wordlist). */
  function Share(size: nat, score: real, n: nat): real
    requires n > 0
  {
    (size as real) * score / (n as real)
  }

  /** Host.score_position's accumulation of the groups' shares. */
  function WeightedScore(groups: seq<WordSet>, children: seq<Evaluation>, n: nat): real
    requires |groups| == |children|
    requires groups != [] ==> n > 0
  {
    if groups == [] then 0.0
    else
      var k := |groups| - 1;
      WeightedScore(groups[..k], children[..k], n) + Share(|groups[k]|, children[k].score, n)
  }

  /** The histograms of the children, summed in order. */
  function SumHists(children: seq<Evaluation>): seq<int> {
    if children == [] then []
    else AddHist(SumHists(children[..|children| - 1]), children[|children| - 1].histogram)
  }

  /** If every child's histogram counts its group, the sum of the histograms
      counts the words of all groups. */
  lemma {:induction false} AggregateTotal(groups: seq<WordSet>, children: seq<Evaluation>)
    requires |groups| == |children|
    requires forall k :: 0 <= k < |groups| ==> Total(children[k].histogram) == |groups[k]|
    ensures Total(SumHists(children)) == SumSizes(groups)
  {
    if groups != [] {
      var k := |groups| - 1;
      AggregateTotal(groups[..k], children[..k]);
      TotalAdd(SumHists(children[..k]), children[k].histogram);
    }
  }

  /** If every child's score times its group's size is its number of
      guesses, the weighted score times the number of words is the number of
      guesses of the summed histogram. */
  lemma {:induction false} AggregateWeighted(groups: seq<WordSet>, children: seq<Evaluation>, n: nat)
    requires |groups| == |children| && (groups != [] ==> n > 0)
    requires forall k :: 0 <= k < |groups| ==> Times(children[k].score, |groups[k]|) == (Weighted(children[k].histogram) as real)
    ensures Times(WeightedScore(groups, children, n), n) == (Weighted(SumHists(children)) as real)
  {
    if groups != [] {
      var k := |groups| - 1;
      var before := SumHists(children[..k]);
      var last := children[k];
      AggregateWeighted(groups[..k], children[..k], n);
      assert SumHists(children) == AddHist(before, last.histogram);
      assert WeightedScore(groups, children, n)
             == WeightedScore(groups[..k], children[..k], n) + Share(|groups[k]|, last.score, n);
      WeightedAdd(before, last.histogram);
      ScaleStep(WeightedScore(groups, children, n), WeightedScore(groups[..k], children[..k], n),
                |groups[k]|, last.score, n, Weighted(before) as real, Weighted(last.histogram) as real);
    } else {
      TimesZero(n);
    }
  }

  lemma {:induction false} TimesZero(n: nat)
    ensures Times(0.0, n) == 0.0
  {
    if n > 0 {
      TimesZero(n - 1);
    }
  }

  /** One step of the weighted average, multiplied out. */
  lemma ScaleStep(total: real, prev: real, size: nat, score: real, n: nat, guessesBefore: real, guessesLast: real)
    requires n > 0 && total == prev + Share(size, score, n)
    requires Times(prev, n) == guessesBefore && Times(score, size) == guessesLast
    ensures Times(total, n) == guessesBefore + guessesLast
  {
    TimesAdd(prev, Share(size, score, n), n);
    TimesShare(size, score, n);
  }

  lemma {:induction false} TimesAdd(x: real, y: real, n: nat)
    ensures Times(x + y, n) == Times(x, n) + Times(y, n)
  {
    if n > 0 {
      TimesAdd(x, y, n - 1);
    }
  }

  /** A group's share of the score, counted once per word, is the group's
      score counted once per word of the group. */
  lemma TimesShare(size: nat, score: real, n: nat)
    requires n > 0
    ensures Times(Share(size, score, n), n) == Times(score, size)
  {
    TimesIsProduct(Share(size, score, n), n);
    TimesIsProduct(score, size);
    Cancel((size as real) * score, n as real);
  }

  lemma Cancel(x: real, n: real)
    requires n > 0.0
    ensures x / n * n == x
  {
  }

  /** Aggregating children that each mean what EvalInv says about their
      nonempty groups gives the mean over all n words of the groups. */
  lemma MeanOfParts(groups: seq<WordSet>, children: seq<Evaluation>, n: nat)
    requires |children| == |groups| && n == SumSizes(groups)
    requires forall k :: 0 <= k < |groups| ==> groups[k] != {}
    requires forall k :: 0 <= k < |groups| ==> EvalInv(children[k], groups[k])
    ensures groups != [] ==> n > 0
    ensures Total(SumHists(children)) == n
    ensures Times(WeightedScore(groups, children, n), n) == (Weighted(SumHists(children)) as real)
  {
    AggregateTotal(groups, children);
    if groups != [] {
      assert |groups[|groups| - 1]| > 0;
    }
    AggregateWeighted(groups, children, n);
  }

  /** Host.score_position's result means the mean number of guesses when its
      children do and the groups partition the words. */
  lemma HostAggregate(words: WordSet, guess: Word, responses: seq<Response>, groups: seq<WordSet>, children: seq<Evaluation>)
    requires forall w :: w in words ==> |w| == |guess|
    requires Partitioned(words, guess, responses, groups) && |children| == |groups|
    requires forall k :: 0 <= k < |groups| ==> groups[k] != {}
    requires forall k :: 0 <= k < |groups| ==> EvalInv(children[k], groups[k])
    ensures groups != [] ==> |words| > 0
    ensures EvalInv(Evaluation(WeightedScore(groups, children, |words|), [], SumHists(children)), words)
  {
    PartitionSizes(words, guess, responses, groups);
    MeanOfParts(groups, children, |words|);
  }

  /** Player's step after the best guess: one more guess for every game. */
  lemma StepKeepsInv(ev: Evaluation, words: WordSet, best: Word)
    requires EvalInv(ev, words)
    ensures EvalInv(Evaluation(ev.score + 1.0, best, [0] + ev.histogram), words)
  {
    ShiftRightFacts(ev.histogram);
    TimesPlusOne(ev.score, |words|);
  }

  lemma {:induction false} TimesPlusOne(x: real, n: nat)
    ensures Times(x + 1.0, n) == Times(x, n) + (n as real)
  {
    if n > 0 {
      TimesPlusOne(x, n - 1);
    }
  }

  /** index b holds the first minimum of the scores, as Python's min keeps
      the first of equal items when __lt__ is strict. */
  predicate FirstMin(evs: seq<Evaluation>, b: int) {
    0 <= b < |evs| &&
    (forall j :: 0 <= j < b ==> Less(evs[b], evs[j])) &&
    (forall j :: b < j < |evs| ==> !Less(evs[j], evs[b]))
  }

  /** What the Host needs of a group it hands to the Player: it is a
      nonempty part of the words, a single word when the response is all
      CORRECT, and otherwise smaller than the words unless the guess was
      forced. */
  predicate ChildGroup(words: WordSet, r: Response, group: WordSet, forced: bool) {
    group != {} && group <= words && |group| <= |words| &&
    (AllCorrect(r) ==> |group| == 1) &&
    (!AllCorrect(r) && !forced ==> |group| < |words|)
  }

  /** Every group of a response is such a group when it is not empty. */
  lemma GroupIsChild(words: WordSet, guess: Word, r: Response, forced: bool)
    requires forall w :: w in words ==> |w| == |guess|
    requires Group(words, guess, r) != {}
    requires !forced ==> guess in words
    ensures ChildGroup(words, r, Group(words, guess, r), forced)
  {
    GroupBound(words, guess, r);
    var g := Group(words, guess, r);
    SubsetCard(g, words);
    if AllCorrect(r) {
      assert g == {guess};
    }
  }

  /** A child group cannot reach the depth bound when the Host's state
      could not. */
  lemma ChildFree(words: WordSet, r: Response, group: WordSet, depth: int, maxDepth: int, forced: bool)
    requires ChildGroup(words, r, group, forced)
    requires maxDepth < depth || depth + |words| + (if forced then 1 else 0) <= maxDepth + 1
    ensures if AllCorrect(r) then |group| == 1 else Free(depth, maxDepth, |group|, false)
  {
  }

  /** What GroupByResponse returns, listed in key order, partitions the
      words into child groups. */
  lemma KeysPartition(words: WordSet, guess: Word, keys: seq<Response>, byResponse: map<Response, WordSet>,
                      groups: seq<WordSet>, forced: bool)
    requires forall w :: w in words ==> |w| == |guess|
    requires !forced ==> guess in words
    requires Grouped(words, guess, keys, byResponse)
    requires |groups| == |keys| && forall j :: 0 <= j < |keys| ==> groups[j] == byResponse[keys[j]]
    ensures Partitioned(words, guess, keys, groups)
    ensures forall j :: 0 <= j < |groups| ==> ChildGroup(words, keys[j], groups[j], forced)
    ensures forall j :: 0 <= j < |groups| ==> groups[j] != {}
  {
    forall j | 0 <= j < |groups| ensures ChildGroup(words, keys[j], groups[j], forced) {
      GroupIsChild(words, guess, keys[j], forced);
    }
  }

  /** One more group and child extend the weighted score by the child's
      share and the summed histogram by the child's histogram. */
  lemma AccumulateStep(groups: seq<WordSet>, children: seq<Evaluation>, group: WordSet, child: Evaluation, n: nat)
    requires |groups| == |children| && n > 0
    ensures WeightedScore(groups + [group], children + [child], n)
            == WeightedScore(groups, children, n) + Share(|group|, child.score, n)
    ensures SumHists(children + [child]) == AddHist(SumHists(children), child.histogram)
  {
    assert (groups + [group])[..|groups|] == groups;
    assert (children + [child])[..|children|] == children;
  }

  /** Keeping the first strict minimum while scanning a sequence. */
  lemma FirstMinStep(evs: seq<Evaluation>, best: int, next: Evaluation)
    requires evs == [] || FirstMin(evs, best)
    ensures FirstMin(evs + [next], if evs == [] || Less(next, evs[best]) then |evs| else best)
  {
  }

  lemma TakeOneMore<T>(s: seq<T>, k: nat)
    requires k < |s|
    ensures s[..k + 1] == s[..k] + [s[k]]
  {
  }

  // ---------------------------------------------------------------------
  // The value of a search, defined without the cache and the depth bound.
  // ---------------------------------------------------------------------

  /** The words of a state all come from the listing and have length L. */
  predicate InOrder(words: WordSet, order: seq<Word>, L: nat) {
    forall w :: w in words ==> w in order && |w| == L
  }

  lemma EnumerateNonempty(words: WordSet, order: seq<Word>)
    requires words != {} && forall w :: w in words ==> w in order
    ensures Enumerate(words, order) != []
  {
    var w :| w in words;
    assert w in Enumerate(words, order);
  }

  /** The keys of by_response, in insertion order, once the words ws went in
      one after another: each response where it first appears. */
  function KeysOf(ws: seq<Word>, guess: Word): seq<Response>
    requires forall w :: w in ws ==> |w| == |guess|
  {
    if ws == [] then []
    else
      var keys := KeysOf(ws[..|ws| - 1], guess);
      var r := Feedback(ws[|ws| - 1], guess);
      if r in keys then keys else keys + [r]
  }

  /** The keys are distinct, every word's response is one of them, and each
      is the response of some word. */
  lemma {:induction false} KeysOfFacts(ws: seq<Word>, guess: Word)
    requires forall w :: w in ws ==> |w| == |guess|
    ensures forall a, b :: 0 <= a < b < |KeysOf(ws, guess)| ==> KeysOf(ws, guess)[a] != KeysOf(ws, guess)[b]
    ensures forall w :: w in ws ==> Feedback(w, guess) in KeysOf(ws, guess)
    ensures forall r :: r in KeysOf(ws, guess) ==> exists w :: w in ws && Feedback(w, guess) == r
  {
    if ws != [] {
      var n := |ws| - 1;
      assert ws == ws[..n] + [ws[n]];
      KeysOfFacts(ws[..n], guess);
    }
  }

  /** The groups Host.score_position forms from the keys, in key order. */
  function HGroups(words: WordSet, guess: Word, order: seq<Word>): seq<WordSet>
    requires forall w :: w in words ==> |w| == |guess|
  {
    var keys := KeysOf(Enumerate(words, order), guess);
    seq(|keys|, j requires 0 <= j < |keys| => Group(words, guess, keys[j]))
  }

  /** Those keys and groups partition the words into child groups. */
  lemma HostKeys(words: WordSet, guess: Word, forced: bool, order: seq<Word>, L: nat)
    requires InOrder(words, order, L) && |guess| == L && (!forced ==> guess in words)
    ensures Partitioned(words, guess, KeysOf(Enumerate(words, order), guess), HGroups(words, guess, order))
    ensures forall j :: 0 <= j < |HGroups(words, guess, order)| ==>
              ChildGroup(words, KeysOf(Enumerate(words, order), guess)[j], HGroups(words, guess, order)[j], forced)
  {
    var ws := Enumerate(words, order);
    var keys := KeysOf(ws, guess);
    KeysOfFacts(ws, guess);
    forall j | 0 <= j < |keys|
      ensures ChildGroup(words, keys[j], Group(words, guess, keys[j]), forced)
    {
      assert keys[j] in keys;
      var w :| w in ws && Feedback(w, guess) == keys[j];
      assert w in Group(words, guess, keys[j]);
      GroupIsChild(words, guess, keys[j], forced);
    }
    forall w | w in words ensures Feedback(w, guess) in keys {
      assert w in ws;
    }
  }

  /** Player.score_position when nothing is cached and the depth bound is
      out of reach: score 0 after a right guess, and otherwise the search
      step over the forced guess or over every word. */
  ghost function PlayerValue(words: WordSet, hostResponse: Option<Response>, guess: Option<Word>,
                             order: seq<Word>, L: nat): Evaluation
    requires InOrder(words, order, L)
    requires guess.Some? ==> |guess.value| == L
    requires guess.Some? || words != {}
    decreases |words|, if guess.Some? then 1 else 0, if hostResponse.Some? && AllCorrect(hostResponse.value) then 0 else 5
  {
    if hostResponse.Some? && AllCorrect(hostResponse.value) then Evaluation(0.0, [], [1])
    else if guess.Some? then SearchValue(words, [guess.value], true, order, L)
    else
      EnumerateNonempty(words, order);
      SearchValue(words, Enumerate(words, order), false, order, L)
  }

  /** PlayerValue looks at the response only to see whether it is all
      CORRECT. */
  lemma PlayerValueResponse(words: WordSet, hostResponse: Option<Response>, guess: Option<Word>, order: seq<Word>, L: nat)
    requires InOrder(words, order, L)
    requires guess.Some? ==> |guess.value| == L
    requires guess.Some? || words != {}
    ensures PlayerValue(words, hostResponse, guess, order, L) ==
            if hostResponse.Some? && AllCorrect(hostResponse.value) then Evaluation(0.0, [], [1])
            else PlayerValue(words, None, guess, order, L)
  {
  }

  /** The search step: one more guess than the Host's evaluation of the
      first best guess, with the histogram shifted right. */
  ghost function SearchValue(words: WordSet, guesses: seq<Word>, forced: bool, order: seq<Word>, L: nat): Evaluation
    requires InOrder(words, order, L) && guesses != []
    requires forall g :: g in guesses ==> |g| == L && (!forced ==> g in words)
    decreases |words|, if forced then 1 else 0, 4
  {
    var evs := HostValues(words, guesses, forced, order, L);
    var b := ArgMin(evs);
    Evaluation(evs[b].score + 1.0, guesses[b], [0] + evs[b].histogram)
  }

  /** The Host's evaluation of each guess, in order. */
  ghost function HostValues(words: WordSet, guesses: seq<Word>, forced: bool, order: seq<Word>, L: nat): (r: seq<Evaluation>)
    requires InOrder(words, order, L)
    requires forall g :: g in guesses ==> |g| == L && (!forced ==> g in words)
    ensures |r| == |guesses|
    decreases |words|, if forced then 1 else 0, 3
  {
    seq(|guesses|, j requires 0 <= j < |guesses| => HValue(words, guesses[j], forced, order, L))
  }

  /** Host.score_position: the size-weighted mean of the Player's values of
      the groups and the sum of their histograms. */
  ghost function HValue(words: WordSet, guess: Word, forced: bool, order: seq<Word>, L: nat): Evaluation
    requires InOrder(words, order, L) && |guess| == L && (!forced ==> guess in words)
    decreases |words|, if forced then 1 else 0, 2
  {
    HostKeys(words, guess, forced, order, L);
    var groups := HGroups(words, guess, order);
    var children := ChildValues(words, KeysOf(Enumerate(words, order), guess), groups, forced, order, L);
    Evaluation(WeightedScore(groups, children, |words|), [], SumHists(children))
  }

  /** The Player's value of each group, after the group's response. */
  ghost function ChildValues(words: WordSet, keys: seq<Response>, groups: seq<WordSet>, forced: bool,
                             order: seq<Word>, L: nat): (r: seq<Evaluation>)
    requires InOrder(words, order, L) && |groups| == |keys|
    requires forall j :: 0 <= j < |keys| ==> ChildGroup(words, keys[j], groups[j], forced)
    ensures |r| == |keys|
    decreases |words|, if forced then 1 else 0, 1
  {
    seq(|keys|, j requires 0 <= j < |keys| =>
      assert ChildGroup(words, keys[j], groups[j], forced);
      PlayerValue(groups[j], Some(keys[j]), None, order, L))
  }

  /** The k-th of those values. */
  lemma ChildValuesAt(words: WordSet, keys: seq<Response>, groups: seq<WordSet>, forced: bool,
                      order: seq<Word>, L: nat, k: nat)
    requires InOrder(words, order, L) && |groups| == |keys| && k < |keys|
    requires forall j :: 0 <= j < |keys| ==> ChildGroup(words, keys[j], groups[j], forced)
    ensures ChildGroup(words, keys[k], groups[k], forced) && InOrder(groups[k], order, L) && |words| > 0
    ensures ChildValues(words, keys, groups, forced, order, L)[k] == PlayerValue(groups[k], Some(keys[k]), None, order, L)
  {
    assert ChildGroup(words, keys[k], groups[k], forced);
  }

  /** The first index of the least score, the one Python's min keeps. */
  function ArgMin(evs: seq<Evaluation>): (b: nat)
    requires evs != []
    ensures FirstMin(evs, b)
  {
    if |evs| == 1 then 0
    else
      var n := |evs| - 1;
      var b := ArgMin(evs[..n]);
      FirstMinStep(evs[..n], b, evs[n]);
      assert evs[..n] + [evs[n]] == evs;
      if Less(evs[n], evs[b]) then n else b
  }

  /** Only one index holds the first least score. */
  lemma FirstMinUnique(evs: seq<Evaluation>, a: int, b: int)
    requires FirstMin(evs, a) && FirstMin(evs, b)
    ensures a == b
  {
    var x, y := evs[a], evs[b];
  }

  /** The value holds for its words: in a search that solves every word,
      the histogram counts each word once and the score is the mean number
      of guesses. */
  lemma PlayerValueSound(words: WordSet, hostResponse: Option<Response>, guess: Option<Word>, order: seq<Word>, L: nat)
    requires InOrder(words, order, L)
    requires guess.Some? ==> |guess.value| == L
    requires guess.Some? || words != {}
    requires hostResponse.Some? && AllCorrect(hostResponse.value) ==> |words| == 1
    ensures EvalInv(PlayerValue(words, hostResponse, guess, order, L), words)
    decreases |words|, if guess.Some? then 1 else 0, if hostResponse.Some? && AllCorrect(hostResponse.value) then 0 else 5
  {
    if hostResponse.Some? && AllCorrect(hostResponse.value) {
      assert Times(0.0, 1) == 0.0;
    } else if guess.Some? {
      SearchSound(words, [guess.value], true, order, L);
    } else {
      EnumerateNonempty(words, order);
      SearchSound(words, Enumerate(words, order), false, order, L);
    }
  }

  lemma SearchSound(words: WordSet, guesses: seq<Word>, forced: bool, order: seq<Word>, L: nat)
    requires InOrder(words, order, L) && guesses != []
    requires forall g :: g in guesses ==> |g| == L && (!forced ==> g in words)
    ensures EvalInv(SearchValue(words, guesses, forced, order, L), words)
    decreases |words|, if forced then 1 else 0, 4
  {
    var evs := HostValues(words, guesses, forced, order, L);
    var b := ArgMin(evs);
    assert guesses[b] in guesses;
    HostSound(words, guesses[b], forced, order, L);
    StepKeepsInv(evs[b], words, guesses[b]);
  }

  lemma HostSound(words: WordSet, guess: Word, forced: bool, order: seq<Word>, L: nat)
    requires InOrder(words, order, L) && |guess| == L && (!forced ==> guess in words)
    ensures EvalInv(HValue(words, guess, forced, order, L), words)
    decreases |words|, if forced then 1 else 0, 2
  {
    HostKeys(words, guess, forced, order, L);
    var keys := KeysOf(Enumerate(words, order), guess);
    var groups := HGroups(words, guess, order);
    var children := ChildValues(words, keys, groups, forced, order, L);
    forall j | 0 <= j < |groups| ensures EvalInv(children[j], groups[j]) {
      PlayerValueSound(groups[j], Some(keys[j]), None, order, L);
    }
    HostAggregate(words, guess, keys, groups, children);
  }

  /** Every cached evaluation is the value of its key. */
  ghost predicate LayersExact(layers: seq<Layer>, order: seq<Word>, L: nat) {
    forall i, key :: 0 <= i < |layers| && key in layers[i] ==>
      InOrder(key, order, L) && key != {} && layers[i][key] == PlayerValue(key, None, None, order, L)
  }

  /** A cache hit in exact layers is the value of the key. */
  lemma {:induction false} LookupExact(layers: seq<Layer>, key: WordSet, order: seq<Word>, L: nat)
    requires LayersExact(layers, order, L) && FirstHit(layers, key).Some?
    ensures InOrder(key, order, L) && key != {}
    ensures FirstHit(layers, key).value == PlayerValue(key, None, None, order, L)
  {
    if key !in layers[0] {
      forall i, k | 0 <= i < |layers| - 1 && k in layers[1..][i]
        ensures InOrder(k, order, L) && k != {} && layers[1..][i][k] == PlayerValue(k, None, None, order, L)
      {
        assert layers[1..][i] == layers[i + 1];
        assert k in layers[i + 1];
      }
      assert LayersExact(layers[1..], order, L);
      LookupExact(layers[1..], key, order, L);
    }
  }

  /** Writing the value of a key keeps the layers exact. */
  lemma WriteKeepsExact(layers: seq<Layer>, key: WordSet, ev: Evaluation, order: seq<Word>, L: nat)
    requires |layers| > 0 && LayersExact(layers, order, L)
    requires InOrder(key, order, L) && key != {} && ev == PlayerValue(key, None, None, order, L)
    ensures LayersExact(layers[0 := layers[0][key := ev]], order, L)
  {
    var after := layers[0 := layers[0][key := ev]];
    forall i, k | 0 <= i < |after| && k in after[i]
      ensures InOrder(k, order, L) && k != {} && after[i][k] == PlayerValue(k, None, None, order, L)
    {
      if i != 0 {
        assert after[i] == layers[i];
      } else if k != key {
        assert after[i][k] == layers[0][k];
      }
    }
    assert LayersExact(after, order, L);
  }

  // ---------------------------------------------------------------------
  // The two players.
  // ---------------------------------------------------------------------

  /** by_response and its keys after the words of seen went in: the keys
      are the dict's keys in insertion order, each word's response is a key
      and each key maps to the nonempty group of its response. */
  ghost predicate Grouped(seen: WordSet, guess: Word, keys: seq<Response>, byResponse: map<Response, WordSet>)
    requires forall w :: w in seen ==> |w| == |guess|
  {
    && (forall r :: r in byResponse <==> r in keys)
    && (forall a, b :: 0 <= a < b < |keys| ==> keys[a] != keys[b])
    && (forall r :: r in byResponse ==> byResponse[r] == Group(seen, guess, r) && byResponse[r] != {})
    && (forall w :: w in seen ==> Feedback(w, guess) in byResponse)
  }

  /** by_response[Response.from_guess(w, guess)].add(w): a response seen
      for the first time becomes the last key. */
  method AddWord(w: Word, guess: Word, keys: seq<Response>, byResponse: map<Response, WordSet>, ghost seen: WordSet)
    returns (keys': seq<Response>, byResponse': map<Response, WordSet>)
    requires |w| == |guess| && forall v :: v in seen ==> |v| == |guess|
    requires Grouped(seen, guess, keys, byResponse)
    ensures Grouped(seen + {w}, guess, keys', byResponse')
    ensures keys' == if Feedback(w, guess) in byResponse then keys else keys + [Feedback(w, guess)]
  {
    var r := FromGuess(w, guess);
    if r in byResponse {
      keys', byResponse' := keys, byResponse[r := byResponse[r] + {w}];
    } else {
      keys', byResponse' := keys + [r], byResponse[r := {w}];
    }
  }

  /** GroupByResponse after the first i words of ws went in: by_response
      groups the words seen so far and its keys are KeysOf that prefix. */
  ghost predicate Scanned(ws: seq<Word>, i: nat, words: WordSet, seen: WordSet, guess: Word,
                          keys: seq<Response>, byResponse: map<Response, WordSet>)
    requires i <= |ws| && forall w :: w in ws ==> |w| == |guess|
    requires forall w :: w in words ==> |w| == |guess|
  {
    && seen <= words
    && (forall k :: 0 <= k < i ==> ws[k] in seen)
    && Grouped(seen, guess, keys, byResponse)
    && keys == KeysOf(ws[..i], guess)
  }

  lemma ScanStep(ws: seq<Word>, i: nat, words: WordSet, seen: WordSet, guess: Word,
                 keys: seq<Response>, byResponse: map<Response, WordSet>,
                 keys': seq<Response>, byResponse': map<Response, WordSet>)
    requires i < |ws| && forall w :: w in ws ==> |w| == |guess|
    requires forall w :: w in words ==> |w| == |guess|
    requires ws[i] in words
    requires Scanned(ws, i, words, seen, guess, keys, byResponse)
    requires Grouped(seen + {ws[i]}, guess, keys', byResponse')
    requires keys' == if Feedback(ws[i], guess) in byResponse then keys else keys + [Feedback(ws[i], guess)]
    ensures Scanned(ws, i + 1, words, seen + {ws[i]}, guess, keys', byResponse')
  {
    KeysOfStep(ws, i, guess);
    assert (Feedback(ws[i], guess) in keys) == (Feedback(ws[i], guess) in byResponse);
  }

  /** One more word in: its response is appended unless it is a key already. */
  lemma KeysOfStep(ws: seq<Word>, i: nat, guess: Word)
    requires i < |ws| && forall w :: w in ws ==> |w| == |guess|
    ensures KeysOf(ws[..i + 1], guess) ==
            if Feedback(ws[i], guess) in KeysOf(ws[..i], guess) then KeysOf(ws[..i], guess)
            else KeysOf(ws[..i], guess) + [Feedback(ws[i], guess)]
  {
    assert ws[..i + 1][..i] == ws[..i];
  }

  /** The first loop of Host.score_position: by_response sends each response
      to the words that get it, and keys lists the responses in the order
      they were first seen, which is the order the dict iterates in. */
  method GroupByResponse(words: WordSet, guess: Word, order: seq<Word>)
    returns (keys: seq<Response>, byResponse: map<Response, WordSet>)
    requires forall w :: w in words ==> |w| == |guess| && w in order
    ensures Grouped(words, guess, keys, byResponse)
    ensures keys == KeysOf(Enumerate(words, order), guess)
  {
    var ws := Enumerate(words, order);
    byResponse, keys := map[], [];
    ghost var seen: WordSet := {};
    for i := 0 to |ws|
      invariant Scanned(ws, i, words, seen, guess, keys, byResponse)
    {
      ghost var keys0, byResponse0 := keys, byResponse;
      keys, byResponse := AddWord(ws[i], guess, keys, byResponse, seen);
      ScanStep(ws, i, words, seen, guess, keys0, byResponse0, keys, byResponse);
      seen := seen + {ws[i]};
    }
    ScanDone(ws, words, seen, guess, keys, byResponse, order);
  }

  /** Once every word went in, seen is the whole set. */
  lemma ScanDone(ws: seq<Word>, words: WordSet, seen: WordSet, guess: Word,
                 keys: seq<Response>, byResponse: map<Response, WordSet>, order: seq<Word>)
    requires forall w :: w in words ==> |w| == |guess| && w in order
    requires ws == Enumerate(words, order)
    requires Scanned(ws, |ws|, words, seen, guess, keys, byResponse)
    ensures Grouped(words, guess, keys, byResponse)
    ensures keys == KeysOf(ws, guess)
  {
    forall w | w in words ensures w in seen {
      assert w in ws;
      var k :| 0 <= k < |ws| && ws[k] == w;
    }
    assert seen == words;
    assert ws[..|ws|] == ws;
  }

  /** What Host.score_position computes is HValue once its loops have
      produced the groups of the keys and the Player's values of them. */
  lemma HostValueIs(words: WordSet, guess: Word, forced: bool, order: seq<Word>, L: nat,
                    keys: seq<Response>, groups: seq<WordSet>, children: seq<Evaluation>)
    requires InOrder(words, order, L) && |guess| == L && (!forced ==> guess in words)
    requires keys == KeysOf(Enumerate(words, order), guess)
    requires |groups| == |keys| && forall j :: 0 <= j < |keys| ==> groups[j] == Group(words, guess, keys[j])
    requires forall j :: 0 <= j < |keys| ==> ChildGroup(words, keys[j], groups[j], forced)
    requires children == ChildValues(words, keys, groups, forced, order, L)
    ensures groups != [] ==> |words| > 0
    ensures HValue(words, guess, forced, order, L) == Evaluation(WeightedScore(groups, children, |words|), [], SumHists(children))
  {
    HostKeys(words, guess, forced, order, L);
    var hg := HGroups(words, guess, order);
    forall j | 0 <= j < |groups| ensures groups[j] == hg[j] {
    }
    assert groups == hg;
  }

  /** The Player's evaluations of the groups at the depth bound: 0 for the
      all CORRECT group and the penalty for every other. */
  ghost function BoundChildren(keys: seq<Response>): (r: seq<Evaluation>)
    ensures |r| == |keys|
  {
    seq(|keys|, j requires 0 <= j < |keys| => BoundChild(keys[j]))
  }

  /** Host.score_position called at the depth bound, where no group but the
      all CORRECT one is searched any further. */
  ghost function BoundHValue(words: WordSet, guess: Word, order: seq<Word>, L: nat): Evaluation
    requires InOrder(words, order, L) && |guess| == L
  {
    HostKeys(words, guess, true, order, L);
    var groups := HGroups(words, guess, order);
    var children := BoundChildren(KeysOf(Enumerate(words, order), guess));
    Evaluation(WeightedScore(groups, children, |words|), [], SumHists(children))
  }

  /** What Host.score_position computes at the depth bound is BoundHValue
      once its loops have found the all CORRECT group's (0, [1]) and the
      penalty of every other group. */
  lemma BoundValueIs(words: WordSet, guess: Word, order: seq<Word>, L: nat,
                     keys: seq<Response>, groups: seq<WordSet>, children: seq<Evaluation>, ev: Evaluation)
    requires InOrder(words, order, L) && |guess| == L
    requires keys == KeysOf(Enumerate(words, order), guess)
    requires Partitioned(words, guess, keys, groups) && |children| == |groups|
    requires groups != [] ==> |words| > 0
    requires forall j :: 0 <= j < |keys| && AllCorrect(keys[j]) ==> children[j] == Evaluation(0.0, [], [1])
    requires forall j :: 0 <= j < |keys| && !AllCorrect(keys[j]) ==> children[j] == Evaluation(BIGNUM, [], [])
    requires ev == Evaluation(WeightedScore(groups, children, |words|), [], SumHists(children))
    ensures ev == BoundHValue(words, guess, order, L)
  {
    assert groups == HGroups(words, guess, order) by {
      HostKeys(words, guess, true, order, L);
    }
    assert children == BoundChildren(keys) by {
      forall j | 0 <= j < |keys| ensures children[j] == BoundChildren(keys)[j] {
      }
    }
    HostKeys(words, guess, true, order, L);
  }

  /** Two shares of the same score add up to the share of both groups. */
  lemma ShareAdd(a: nat, b: nat, score: real, n: nat)
    requires n > 0
    ensures Share(a, score, n) + Share(b, score, n) == Share(a + b, score, n)
  {
  }

  /** The Player's evaluation at the depth bound of the group of response
      r. */
  function BoundChild(r: Response): Evaluation {
    if AllCorrect(r) then Evaluation(0.0, [], [1]) else Evaluation(BIGNUM, [], [])
  }

  /** The histogram of the Host at the depth bound: one game won, at index
      0, when the guess is one of the words. */
  function WonAtBound(words: WordSet, guess: Word): seq<int> {
    if guess in words then [1] else []
  }

  /** The all CORRECT group of a guess is the guess alone, and every other
      group leaves the guess out. */
  lemma BoundGroup(words: WordSet, guess: Word, r: Response, g: WordSet)
    requires forall w :: w in words ==> |w| == |guess|
    requires g == Group(words, guess, r) && g != {}
    ensures AllCorrect(r) ==> g == {guess}
    ensures !AllCorrect(r) ==> guess !in g
  {
    if AllCorrect(r) {
      forall w | w in g ensures w == guess {
        AllCorrectIff(w, guess);
      }
    } else if guess in g {
      AllCorrectIff(guess, guess);
    }
  }

  /** Adding the histogram of one group at the depth bound: only the all
      CORRECT group adds a game, the guess itself. */
  lemma BoundHistStep(words: WordSet, guess: Word, r: Response, g: WordSet, hist: seq<int>)
    requires (AllCorrect(r) ==> g == {guess}) && (!AllCorrect(r) ==> guess !in g) && g <= words
    requires hist == WonAtBound(words - g, guess)
    ensures AddHist(hist, BoundChild(r).histogram) == WonAtBound(words, guess)
  {
    if AllCorrect(r) {
      assert hist == [] && WonAtBound(words, guess) == [1];
      assert AddHist([], [1]) == [1];
    } else {
      assert (guess in words - g) == (guess in words);
      assert AddHist(hist, []) == hist;
    }
  }

  /** The bounded evaluations of a prefix of the responses. */
  lemma BoundChildrenPrefix(rs: seq<Response>, k: nat)
    requires k < |rs|
    ensures BoundChildren(rs)[..k] == BoundChildren(rs[..k])
    ensures BoundChildren(rs)[k] == BoundChild(rs[k])
  {
  }

  /** A partition with no responses is of no words. */
  lemma EmptyPartition(words: WordSet, guess: Word, groups: seq<WordSet>)
    requires forall w :: w in words ==> |w| == |guess|
    requires Partitioned(words, guess, [], groups)
    ensures words == {} && words - {guess} == {}
  {
    assert forall w :: w in words ==> Feedback(w, guess) in [];
  }

  /** The number of words in the groups of responses other than all
      CORRECT: the words that pay the penalty at the depth bound. */
  function PenaltySize(groups: seq<WordSet>, rs: seq<Response>): nat
    requires |groups| == |rs|
  {
    if groups == [] then 0
    else
      var k := |groups| - 1;
      PenaltySize(groups[..k], rs[..k]) + (if AllCorrect(rs[k]) then 0 else |groups[k]|)
  }

  /** The sizes of the groups split into the words that pay the penalty at
      the depth bound and the games won there, when every all CORRECT group
      is one word. */
  lemma {:induction false} SizesSplit(groups: seq<WordSet>, rs: seq<Response>)
    requires |groups| == |rs|
    requires forall k :: 0 <= k < |rs| && AllCorrect(rs[k]) ==> |groups[k]| == 1
    ensures SumSizes(groups) == PenaltySize(groups, rs) + Total(SumHists(BoundChildren(rs)))
  {
    if rs != [] {
      var k := |rs| - 1;
      SizesSplit(groups[..k], rs[..k]);
      BoundChildrenPrefix(rs, k);
      TotalAdd(SumHists(BoundChildren(rs[..k])), BoundChild(rs[k]).histogram);
    }
  }

  /** At the depth bound the weighted score is the penalty's share for
      those words, out of n. */
  lemma {:induction false} BoundScore(groups: seq<WordSet>, rs: seq<Response>, n: nat)
    requires |groups| == |rs| && n > 0
    ensures WeightedScore(groups, BoundChildren(rs), n) == Share(PenaltySize(groups, rs), BIGNUM, n)
  {
    if rs != [] {
      var k := |rs| - 1;
      BoundScore(groups[..k], rs[..k], n);
      BoundChildrenPrefix(rs, k);
      ShareAdd(PenaltySize(groups[..k], rs[..k]), if AllCorrect(rs[k]) then 0 else |groups[k]|, BIGNUM, n);
    }
  }

  /** Their histograms add up to one game won, the guess itself, when it is
      one of the words. */
  lemma {:induction false} BoundHist(words: WordSet, guess: Word, rs: seq<Response>, groups: seq<WordSet>)
    requires forall w :: w in words ==> |w| == |guess|
    requires Partitioned(words, guess, rs, groups)
    requires forall k :: 0 <= k < |groups| ==> groups[k] != {}
    ensures SumHists(BoundChildren(rs)) == WonAtBound(words, guess)
  {
    if rs == [] {
      EmptyPartition(words, guess, groups);
    } else {
      var k := |rs| - 1;
      var children := BoundChildren(rs);
      RemoveLastGroup(words, guess, rs, groups);
      BoundHist(words - groups[k], guess, rs[..k], groups[..k]);
      BoundChildrenPrefix(rs, k);
      BoundGroup(words, guess, rs[k], groups[k]);
      BoundHistStep(words, guess, rs[k], groups[k], SumHists(children[..k]));
    }
  }

  /** The Host's value at the depth bound in closed form: the penalty times
      the share of the words that are not the guess, and one game won, at
      index 0, when the guess is one of the words. */
  lemma BoundHostValue(words: WordSet, guess: Word, order: seq<Word>, L: nat)
    requires InOrder(words, order, L) && |guess| == L && words != {}
    ensures BoundHValue(words, guess, order, L)
            == Evaluation(Share(|words - {guess}|, BIGNUM, |words|), [], WonAtBound(words, guess))
  {
    var keys := KeysOf(Enumerate(words, order), guess);
    var groups := HGroups(words, guess, order);
    assert Partitioned(words, guess, keys, groups) && forall k :: 0 <= k < |groups| ==> groups[k] != {} by {
      HostKeys(words, guess, true, order, L);
      forall k | 0 <= k < |groups| ensures groups[k] != {} {
        assert ChildGroup(words, keys[k], groups[k], true);
      }
    }
    BoundParts(words, guess, keys, groups);
  }

  /** The same for any partition of the words into nonempty groups. */
  lemma BoundParts(words: WordSet, guess: Word, rs: seq<Response>, groups: seq<WordSet>)
    requires forall w :: w in words ==> |w| == |guess|
    requires Partitioned(words, guess, rs, groups) && words != {}
    requires forall k :: 0 <= k < |groups| ==> groups[k] != {}
    ensures WeightedScore(groups, BoundChildren(rs), |words|) == Share(|words - {guess}|, BIGNUM, |words|)
    ensures SumHists(BoundChildren(rs)) == WonAtBound(words, guess)
  {
    PenaltyCount(words, guess, rs, groups);
    BoundHist(words, guess, rs, groups);
    BoundScore(groups, rs, |words|);
  }

  /** In a partition into nonempty groups the penalty is paid by all the
      words but the guess. */
  lemma PenaltyCount(words: WordSet, guess: Word, rs: seq<Response>, groups: seq<WordSet>)
    requires forall w :: w in words ==> |w| == |guess|
    requires Partitioned(words, guess, rs, groups)
    requires forall k :: 0 <= k < |groups| ==> groups[k] != {}
    ensures PenaltySize(groups, rs) == |words - {guess}|
  {
    assert SumSizes(groups) == PenaltySize(groups, rs) + Total(SumHists(BoundChildren(rs))) by {
      forall k | 0 <= k < |rs| && AllCorrect(rs[k]) ensures |groups[k]| == 1 {
        BoundGroup(words, guess, rs[k], groups[k]);
      }
      SizesSplit(groups, rs);
    }
    PartitionSizes(words, guess, rs, groups);
    BoundHist(words, guess, rs, groups);
    if guess in words {
      assert Total(WonAtBound(words, guess)) == 1;
      assert |words - {guess}| == |words| - 1;
    } else {
      assert words - {guess} == words;
    }
  }

  /** What the Player's search step computes is SearchValue once the Host
      has evaluated every guess and the first best one is picked. */
  lemma SearchValueIs(words: WordSet, guesses: seq<Word>, forced: bool, order: seq<Word>, L: nat,
                      evs: seq<Evaluation>, b: int)
    requires InOrder(words, order, L) && guesses != []
    requires forall g :: g in guesses ==> |g| == L && (!forced ==> g in words)
    requires evs == HostValues(words, guesses, forced, order, L) && FirstMin(evs, b)
    ensures SearchValue(words, guesses, forced, order, L) == Evaluation(evs[b].score + 1.0, guesses[b], [0] + evs[b].histogram)
  {
    FirstMinUnique(evs, b, ArgMin(evs));
  }

  /** The same for Player.score_position's search step over the forced
      guess or over every word, which also solves every word. */
  lemma SearchStepIs(words: WordSet, guess: Option<Word>, order: seq<Word>, L: nat,
                     guesses: seq<Word>, evs: seq<Evaluation>, b: int, ev: Evaluation)
    requires InOrder(words, order, L)
    requires guess.Some? ==> |guess.value| == L
    requires guess.Some? || words != {}
    requires guesses == (if guess.Some? then [guess.value] else Enumerate(words, order))
    requires evs == HostValues(words, guesses, guess.Some?, order, L) && FirstMin(evs, b)
    requires ev == Evaluation(evs[b].score + 1.0, guesses[b], [0] + evs[b].histogram)
    ensures ev == PlayerValue(words, None, guess, order, L) && EvalInv(ev, words)
  {
    if guess.None? {
      EnumerateNonempty(words, order);
    }
    SearchValueIs(words, guesses, guess.Some?, order, L, evs, b);
    PlayerValueSound(words, None, guess, order, L);
  }

  class Host {
    constructor () {}

    /** Host.score_position: group the words by the response the guess gets
        when each is the target, score each group once with the player, and
        aggregate a size-weighted average score and a summed histogram.
        The ghost results are the responses in iteration order, their groups
        and the player's evaluation of each; `forced` says whether the guess
        may lie outside the words. */
    method ScorePosition(words: WordSet, guess: Word, player: Player, depth: int, maxDepth: int, ghost forced: bool)
      returns (ev: Evaluation, ghost responses: seq<Response>, ghost groups: seq<WordSet>, ghost children: seq<Evaluation>)
      requires player.Valid()
      requires forall w :: w in words ==> w in player.order
      requires |guess| == player.wordLength
      requires !forced ==> guess in words
      modifies player.scoreCache
      decreases |words|, if forced then 1 else 0, 4
      ensures player.Valid()
      ensures |player.scoreCache.maps| == old(|player.scoreCache.maps|)
      ensures player.scoreCache.maps[1..] == old(player.scoreCache.maps[1..])
      ensures responses == KeysOf(Enumerate(words, player.order), guess)
      ensures Partitioned(words, guess, responses, groups) && |children| == |groups|
      ensures forall k :: 0 <= k < |groups| ==> groups[k] != {}
      ensures groups != [] ==> |words| > 0
      ensures ev == Evaluation(WeightedScore(groups, children, |words|), [], SumHists(children))
      ensures forall k :: 0 <= k < |groups| && AllCorrect(responses[k]) ==> children[k] == Evaluation(0.0, [], [1])
      ensures forall k :: 0 <= k < |groups| && !AllCorrect(responses[k]) && depth == maxDepth ==> children[k] == Evaluation(BIGNUM, [], [])
      ensures depth == maxDepth ==> ev == BoundHValue(words, guess, player.order, player.wordLength)
      ensures old(player.Exact()) && (maxDepth < depth || depth + |words| + (if forced then 1 else 0) <= maxDepth + 1)
              ==> player.Exact() && ev == HValue(words, guess, forced, player.order, player.wordLength)
    {
      var keys, byResponse := GroupByResponse(words, guess, player.order);
      // by_response.items(), in insertion order
      var parts := seq(|keys|, j requires 0 <= j < |keys| => byResponse[keys[j]]);
      KeysPartition(words, guess, keys, byResponse, parts, forced);
      responses, groups := keys, parts;
      ev, children := ScoreGroups(words, keys, parts, player, depth, maxDepth, forced);
      if old(player.Exact()) && (maxDepth < depth || depth + |words| + (if forced then 1 else 0) <= maxDepth + 1) {
        HostValueIs(words, guess, forced, player.order, player.wordLength, keys, parts, children);
      }
      if depth == maxDepth {
        BoundValueIs(words, guess, player.order, player.wordLength, keys, parts, children, ev);
      }
    }

    /** The second loop of Host.score_position: score each response's group
        with the player, adding its share of the score and its histogram. */
    method ScoreGroups(words: WordSet, keys: seq<Response>, groups: seq<WordSet>, player: Player, depth: int, maxDepth: int, ghost forced: bool)
      returns (ev: Evaluation, ghost children: seq<Evaluation>)
      requires player.Valid()
      requires forall w :: w in words ==> w in player.order
      requires |groups| == |keys|
      requires forall j :: 0 <= j < |keys| ==> ChildGroup(words, keys[j], groups[j], forced)
      modifies player.scoreCache
      decreases |words|, if forced then 1 else 0, 3
      ensures player.Valid()
      ensures |player.scoreCache.maps| == old(|player.scoreCache.maps|)
      ensures player.scoreCache.maps[1..] == old(player.scoreCache.maps[1..])
      ensures |children| == |groups| && (groups != [] ==> |words| > 0)
      ensures ev == Evaluation(WeightedScore(groups, children, |words|), [], SumHists(children))
      ensures forall j :: 0 <= j < |groups| && AllCorrect(keys[j]) ==> children[j] == Evaluation(0.0, [], [1])
      ensures forall j :: 0 <= j < |groups| && !AllCorrect(keys[j]) && depth == maxDepth ==> children[j] == Evaluation(BIGNUM, [], [])
      ensures old(player.Exact()) && (maxDepth < depth || depth + |words| + (if forced then 1 else 0) <= maxDepth + 1)
              ==> player.Exact() &&
                  children == ChildValues(words, keys, groups, forced, player.order, player.wordLength)
    {
      if keys != [] {
        assert ChildGroup(words, keys[0], groups[0], forced);
      }
      ghost var exact := player.Exact() &&
                         (maxDepth < depth || depth + |words| + (if forced then 1 else 0) <= maxDepth + 1);
      ghost var spec := ChildValues(words, keys, groups, forced, player.order, player.wordLength);
      var score := 0.0;
      var hist := new Histogram();
      children := [];
      for k := 0 to |keys|
        invariant fresh(hist)
        invariant player.Valid()
        invariant |player.scoreCache.maps| == old(|player.scoreCache.maps|)
        invariant player.scoreCache.maps[1..] == old(player.scoreCache.maps[1..])
        invariant Scored(|words|, keys, groups, k, children, score, hist.data, depth == maxDepth, spec, exact)
        invariant exact ==> player.Exact()
      {
        score, children := ScoreNext(words, keys, groups, k, player, depth, maxDepth, forced,
                                     score, hist, children, spec, exact);
      }
      assert groups[..|keys|] == groups;
      assert spec[..|keys|] == spec;
      ev := Evaluation(score, [], hist.data);
    }

    /** One pass of that loop: score group k and add its share and its
        histogram. */
    method ScoreNext(words: WordSet, keys: seq<Response>, groups: seq<WordSet>, k: nat, player: Player,
                     depth: int, maxDepth: int, ghost forced: bool, score: real, hist: Histogram,
                     ghost children: seq<Evaluation>, ghost spec: seq<Evaluation>, ghost exact: bool)
      returns (score': real, ghost children': seq<Evaluation>)
      requires player.Valid()
      requires forall w :: w in words ==> w in player.order
      requires |groups| == |keys| && k < |keys|
      requires forall j :: 0 <= j < |keys| ==> ChildGroup(words, keys[j], groups[j], forced)
      requires spec == ChildValues(words, keys, groups, forced, player.order, player.wordLength)
      requires exact ==> player.Exact() && (maxDepth < depth || depth + |words| + (if forced then 1 else 0) <= maxDepth + 1)
      requires Scored(|words|, keys, groups, k, children, score, hist.data, depth == maxDepth, spec, exact)
      modifies player.scoreCache, hist
      decreases |words|, if forced then 1 else 0, 2
      ensures player.Valid()
      ensures |player.scoreCache.maps| == old(|player.scoreCache.maps|)
      ensures player.scoreCache.maps[1..] == old(player.scoreCache.maps[1..])
      ensures Scored(|words|, keys, groups, k + 1, children', score', hist.data, depth == maxDepth, spec, exact)
      ensures exact ==> player.Exact()
    {
      ChildValuesAt(words, keys, groups, forced, player.order, player.wordLength, k);
      var r, group := keys[k], groups[k];
      ghost var histBefore := hist.data;
      var pev := ScoreGroup(words, r, group, player, depth, maxDepth, forced);
      score' := AddChild(score, hist, group, pev, |words|);
      ScoredStep(|words|, keys, groups, k, children, score, histBefore, depth == maxDepth, spec, exact, pev, score', hist.data);
      children' := children + [pev];
    }

    /** The body of that loop after the player's call: ev.score grows by
        the group's share of the child's score and ev.histogram by the
        child's histogram. */
    method AddChild(score: real, hist: Histogram, group: WordSet, pev: Evaluation, n: nat)
      returns (score': real)
      requires n > 0
      modifies hist
      ensures score' == score + Share(|group|, pev.score, n)
      ensures hist.data == AddHist(old(hist.data), pev.histogram)
    {
      score' := score + Share(|group|, pev.score, n);
      hist.Update(pev.histogram);
    }

    /** One pass of that loop: the player's evaluation of the group of
        words that got response r, one turn deeper. */
    method ScoreGroup(words: WordSet, r: Response, group: WordSet, player: Player, depth: int, maxDepth: int, ghost forced: bool)
      returns (pev: Evaluation)
      requires player.Valid()
      requires forall w :: w in words ==> w in player.order
      requires ChildGroup(words, r, group, forced)
      modifies player.scoreCache
      decreases |words|, if forced then 1 else 0, 1
      ensures player.Valid()
      ensures |player.scoreCache.maps| == old(|player.scoreCache.maps|)
      ensures player.scoreCache.maps[1..] == old(player.scoreCache.maps[1..])
      ensures AllCorrect(r) ==> pev == Evaluation(0.0, [], [1])
      ensures !AllCorrect(r) && depth == maxDepth ==> pev == Evaluation(BIGNUM, [], [])
      ensures old(player.Exact()) && (maxDepth < depth || depth + |words| + (if forced then 1 else 0) <= maxDepth + 1)
              ==> player.Exact() && pev == PlayerValue(group, Some(r), None, player.order, player.wordLength)
    {
      if player.Exact() && (maxDepth < depth || depth + |words| + (if forced then 1 else 0) <= maxDepth + 1) {
        ChildFree(words, r, group, depth, maxDepth, forced);
      }
      ghost var gs, hs, bw, cw;
      pev, gs, hs, bw, cw := player.ScorePosition(group, Some(r), this, depth, maxDepth, None);
    }
  }

  /** What ScoreGroups knows of the children evaluated so far without
      looking at the cache: an all CORRECT group scored (0, [1]), and when
      the Host is at the depth bound every other group scored the penalty. */
  predicate ChildrenKnown(keys: seq<Response>, children: seq<Evaluation>, atBound: bool) {
    && |children| <= |keys|
    && (forall j :: 0 <= j < |children| && AllCorrect(keys[j]) ==> children[j] == Evaluation(0.0, [], [1]))
    && (forall j :: 0 <= j < |children| && !AllCorrect(keys[j]) && atBound ==> children[j] == Evaluation(BIGNUM, [], []))
  }

  /** What ScoreGroups' loop has built after k groups: the weighted score
      and summed histogram of the children so far, what they are without
      the cache (an all CORRECT group scored (0, [1])), and, when the cache
      is exact, the first k of the cache-free values. */
  ghost predicate Scored(n: nat, keys: seq<Response>, groups: seq<WordSet>, k: nat, children: seq<Evaluation>,
                         score: real, hist: seq<int>, atBound: bool, spec: seq<Evaluation>, exact: bool)
  {
    && |children| == k <= |keys| == |groups| == |spec|
    && (k > 0 ==> n > 0)
    && score == WeightedScore(groups[..k], children, n)
    && hist == SumHists(children)
    && ChildrenKnown(keys, children, atBound)
    && (exact ==> children == spec[..k])
  }

  lemma ScoredStep(n: nat, keys: seq<Response>, groups: seq<WordSet>, k: nat, children: seq<Evaluation>,
                   score: real, hist: seq<int>, atBound: bool, spec: seq<Evaluation>, exact: bool,
                   pev: Evaluation, score': real, hist': seq<int>)
    requires Scored(n, keys, groups, k, children, score, hist, atBound, spec, exact)
    requires k < |keys|
    requires n > 0
    requires score' == score + Share(|groups[k]|, pev.score, n)
    requires hist' == AddHist(hist, pev.histogram)
    requires AllCorrect(keys[k]) ==> pev == Evaluation(0.0, [], [1])
    requires !AllCorrect(keys[k]) && atBound ==> pev == Evaluation(BIGNUM, [], [])
    requires exact ==> pev == spec[k]
    ensures Scored(n, keys, groups, k + 1, children + [pev], score', hist', atBound, spec, exact)
  {
    AccumulateStep(groups[..k], children, groups[k], pev, n);
    TakeOneMore(groups, k);
    TakeOneMore(spec, k);
  }

  class Player {
    const scoreCache: PlayerScoreCache
    /** The iteration order of word sets. */
    const order: seq<Word>
    /** The common length of the words. */
    const wordLength: nat

    ghost predicate Valid()
      reads this, scoreCache
    {
      scoreCache.Valid() && scoreCache.biggish == BIGGISH &&
      Distinct(order) && forall w :: w in order ==> |w| == wordLength
    }

    /** Every cached evaluation is the cache-free value of its word set. */
    ghost predicate Exact()
      reads this, scoreCache
    {
      LayersExact(scoreCache.maps, order, wordLength)
    }

    /** Player(): an empty cache with threshold BIGGISH. */
    constructor (order: seq<Word>, wordLength: nat)
      requires Distinct(order)
      requires forall w :: w in order ==> |w| == wordLength
      ensures Valid() && Exact() && fresh(scoreCache)
      ensures scoreCache.maps == [map[]] && this.order == order && this.wordLength == wordLength
    {
      this.order := order;
      this.wordLength := wordLength;
      scoreCache := new PlayerScoreCache(BIGGISH);
    }

    /** min(map(get_ev, guess_list)): the Host's evaluation of every guess,
        in order, and the index of the first one with the least score.
        The source takes the minimum of (evaluation, word) pairs; evaluations
        compare equal only to themselves and every one is a new object, so
        the first of the least scores wins. */
    method TryGuesses(words: WordSet, guessList: seq<Word>, host: Host, depth: int, maxDepth: int, ghost forced: bool)
      returns (hostEvs: seq<Evaluation>, best: nat)
      requires Valid()
      requires forall w :: w in words ==> w in order
      requires guessList != []
      requires forall g :: g in guessList ==> |g| == wordLength && (!forced ==> g in words)
      modifies scoreCache
      decreases |words|, if forced then 1 else 0, 6
      ensures Valid()
      ensures |scoreCache.maps| == old(|scoreCache.maps|)
      ensures scoreCache.maps[1..] == old(scoreCache.maps[1..])
      ensures |hostEvs| == |guessList| && FirstMin(hostEvs, best)
      ensures depth == maxDepth ==> forall k :: 0 <= k < |hostEvs| ==> hostEvs[k] == BoundHValue(words, guessList[k], order, wordLength)
      ensures old(Exact()) && (maxDepth < depth || depth + |words| + (if forced then 1 else 0) <= maxDepth + 1)
              ==> Exact() && hostEvs == HostValues(words, guessList, forced, order, wordLength)
    {
      ghost var exact := Exact() &&
                         (maxDepth < depth || depth + |words| + (if forced then 1 else 0) <= maxDepth + 1);
      ghost var spec := HostValues(words, guessList, forced, order, wordLength);
      ghost var bound := seq(|guessList|, j requires 0 <= j < |guessList| => BoundHValue(words, guessList[j], order, wordLength));
      hostEvs, best := [], 0;
      for k := 0 to |guessList|
        invariant |hostEvs| == k
        invariant k > 0 ==> FirstMin(hostEvs, best)
        invariant Valid()
        invariant |scoreCache.maps| == old(|scoreCache.maps|)
        invariant scoreCache.maps[1..] == old(scoreCache.maps[1..])
        invariant exact ==> Exact() && hostEvs == spec[..k]
        invariant depth == maxDepth ==> hostEvs == bound[..k]
      {
        hostEvs, best := TryNext(words, guessList, k, host, depth, maxDepth, forced, hostEvs, best, spec, bound, exact);
      }
      assert spec[..|guessList|] == spec;
      assert bound[..|guessList|] == bound;
    }

    /** One pass of that loop: the Host's evaluation of guess k, kept as the
        best when it is the first or strictly better than the best so far. */
    method TryNext(words: WordSet, guessList: seq<Word>, k: nat, host: Host, depth: int, maxDepth: int, ghost forced: bool,
                   hostEvs: seq<Evaluation>, best: nat, ghost spec: seq<Evaluation>, ghost bound: seq<Evaluation>, ghost exact: bool)
      returns (hostEvs': seq<Evaluation>, best': nat)
      requires Valid()
      requires forall w :: w in words ==> w in order
      requires k < |guessList|
      requires forall g :: g in guessList ==> |g| == wordLength && (!forced ==> g in words)
      requires spec == HostValues(words, guessList, forced, order, wordLength)
      requires bound == seq(|guessList|, j requires 0 <= j < |guessList| => BoundHValue(words, guessList[j], order, wordLength))
      requires exact ==> Exact() && (maxDepth < depth || depth + |words| + (if forced then 1 else 0) <= maxDepth + 1)
      requires |hostEvs| == k && (k > 0 ==> FirstMin(hostEvs, best))
      requires exact ==> hostEvs == spec[..k]
      requires depth == maxDepth ==> hostEvs == bound[..k]
      modifies scoreCache
      decreases |words|, if forced then 1 else 0, 5
      ensures Valid()
      ensures |scoreCache.maps| == old(|scoreCache.maps|)
      ensures scoreCache.maps[1..] == old(scoreCache.maps[1..])
      ensures |hostEvs'| == k + 1 && FirstMin(hostEvs', best')
      ensures exact ==> Exact() && hostEvs' == spec[..k + 1]
      ensures depth == maxDepth ==> hostEvs' == bound[..k + 1]
    {
      var hev;
      ghost var rs, gs, cs;
      hev, rs, gs, cs := host.ScorePosition(words, guessList[k], this, depth, maxDepth, forced);
      FirstMinStep(hostEvs, best, hev);
      TakeOneMore(spec, k);
      TakeOneMore(bound, k);
      best' := best;
      if k == 0 || Less(hev, hostEvs[best]) {
        best' := k;
      }
      hostEvs' := hostEvs + [hev];
    }

    /** Player.score_position. The ghost results describe the search step:
        the guesses tried, the Host's evaluation of each, the index of the
        first best one and the cache just before it was written. */
    method ScorePosition(words: WordSet, hostResponse: Option<Response>, host: Host, depth: int, maxDepth: int, guess: Option<Word>)
      returns (ev: Evaluation, ghost guesses: seq<Word>, ghost hostEvs: seq<Evaluation>, ghost best: int, ghost cacheBeforeWrite: seq<Layer>)
      requires Valid()
      requires forall w :: w in words ==> w in order
      requires guess.Some? ==> |guess.value| == wordLength
      requires guess.Some? || words != {}
      modifies scoreCache
      decreases |words|, if guess.Some? then 1 else 0, if hostResponse.Some? && AllCorrect(hostResponse.value) then 0 else 10
      ensures Valid()
      ensures |scoreCache.maps| == old(|scoreCache.maps|)
      ensures scoreCache.maps[1..] == old(scoreCache.maps[1..])
      ensures if hostResponse.Some? && AllCorrect(hostResponse.value) then
                // 1. the previous guess was right
                ev == Evaluation(0.0, [], [1]) && scoreCache.maps == old(scoreCache.maps)
              else if depth == maxDepth then
                // 2. the depth bound is reached
                ev == Evaluation(BIGNUM, [], []) && scoreCache.maps == old(scoreCache.maps)
              else
                CachedOrSearched(words, guess, ev, guesses, hostEvs, best, cacheBeforeWrite,
                                 old(scoreCache.Lookup(words)), old(scoreCache.maps), scoreCache.maps)
      // one turn above the bound, a search step sees the bounded Host values
      ensures !(hostResponse.Some? && AllCorrect(hostResponse.value)) && depth + 1 == maxDepth && old(scoreCache.Lookup(words)).None? ==>
                forall k :: 0 <= k < |hostEvs| ==> hostEvs[k] == BoundHValue(words, guesses[k], order, wordLength)
      // a search that cannot reach the depth bound on an exact cache keeps
      // the cache exact, solves every word and yields the cache-free value
      // (a cached state answers before a forced guess is looked at)
      ensures old(Exact()) &&
              (if hostResponse.Some? && AllCorrect(hostResponse.value) then |words| == 1
               else Free(depth, maxDepth, |words|, guess.Some?))
              ==> && Exact() && EvalInv(ev, words)
                  && ((hostResponse.Some? && AllCorrect(hostResponse.value)) || guess.None? || old(scoreCache.Lookup(words)).None?
                      ==> ev == PlayerValue(words, hostResponse, guess, order, wordLength))
    {
      guesses, hostEvs, best, cacheBeforeWrite := [], [], 0, [];
      if hostResponse.Some? && AllCorrect(hostResponse.value) {
        ev := Evaluation(0.0, [], [1]);
        assert Times(0.0, 1) == 0.0;
        return;
      }
      if depth == maxDepth {
        return Evaluation(BIGNUM, [], []), guesses, hostEvs, best, cacheBeforeWrite;
      }
      ghost var exact := Exact() && Free(depth, maxDepth, |words|, guess.Some?);
      ev, guesses, hostEvs, best, cacheBeforeWrite := CachedOrSearch(words, host, depth, maxDepth, guess);
      if exact {
        PlayerValueResponse(words, hostResponse, guess, order, wordLength);
      }
    }

    /** The rest of Player.score_position once the previous guess was wrong
        and the bound is not reached: the cached evaluation of the state if
        there is one, and otherwise the search step and the cache write. */
    method CachedOrSearch(words: WordSet, host: Host, depth: int, maxDepth: int, guess: Option<Word>)
      returns (ev: Evaluation, ghost guesses: seq<Word>, ghost hostEvs: seq<Evaluation>, ghost best: int, ghost cacheBeforeWrite: seq<Layer>)
      requires Valid()
      requires forall w :: w in words ==> w in order
      requires guess.Some? ==> |guess.value| == wordLength
      requires guess.Some? || words != {}
      modifies scoreCache
      decreases |words|, if guess.Some? then 1 else 0, 9
      ensures Valid()
      ensures |scoreCache.maps| == old(|scoreCache.maps|)
      ensures scoreCache.maps[1..] == old(scoreCache.maps[1..])
      ensures CachedOrSearched(words, guess, ev, guesses, hostEvs, best, cacheBeforeWrite,
                               old(scoreCache.Lookup(words)), old(scoreCache.maps), scoreCache.maps)
      ensures depth + 1 == maxDepth && old(scoreCache.Lookup(words)).None? ==>
                forall k :: 0 <= k < |hostEvs| ==> hostEvs[k] == BoundHValue(words, guesses[k], order, wordLength)
      ensures old(Exact()) && Free(depth, maxDepth, |words|, guess.Some?) ==>
                && Exact() && EvalInv(ev, words)
                && (guess.None? || old(scoreCache.Lookup(words)).None? ==> ev == PlayerValue(words, None, guess, order, wordLength))
    {
      guesses, hostEvs, best, cacheBeforeWrite := [], [], 0, [];
      var hit := scoreCache.Get(words);
      if hit.Some? {
        if Exact() {
          LookupExact(scoreCache.maps, words, order, wordLength);
          PlayerValueSound(words, None, None, order, wordLength);
        }
        return hit.value, guesses, hostEvs, best, cacheBeforeWrite;
      }
      ghost var exact := Exact() && Free(depth, maxDepth, |words|, guess.Some?);
      ev, guesses, hostEvs, best := SearchStep(words, host, depth, maxDepth, guess);
      cacheBeforeWrite := scoreCache.maps;
      if guess.None? {
        scoreCache.Add(words, ev);
        if exact {
          WriteKeepsExact(cacheBeforeWrite, words, ev, order, wordLength);
        }
      }
    }

    /** What CachedOrSearch returns, given the cache lookup before it and the
        layers before and after: 3. a cached state answers with its cached
        evaluation and leaves the cache alone; 4. otherwise the search step
        tries the forced guess or every word, scores one more than the first
        best of the Host's evaluations, and writes the result to the
        innermost layer when no guess was forced and it is at most BIGGISH. */
    ghost predicate CachedOrSearched(words: WordSet, guess: Option<Word>, ev: Evaluation, guesses: seq<Word>,
                                     hostEvs: seq<Evaluation>, best: int, cacheBeforeWrite: seq<Layer>,
                                     hit: Option<Evaluation>, before: seq<Layer>, after: seq<Layer>)
    {
      if hit.Some? then
        ev == hit.value && after == before
      else
        && guesses == (if guess.Some? then [guess.value] else Enumerate(words, order))
        && |hostEvs| == |guesses|
        && FirstMin(hostEvs, best)
        && ev == Evaluation(hostEvs[best].score + 1.0, guesses[best], [0] + hostEvs[best].histogram)
        && |cacheBeforeWrite| > 0
        && after == (if guess.None? && ev.score <= BIGGISH
                     then cacheBeforeWrite[0 := cacheBeforeWrite[0][words := ev]]
                     else cacheBeforeWrite)
    }

    /** The search step of Player.score_position on a state not cached, up
        to the write to the cache: the Host's evaluation of the forced guess
        or of every word, and one more guess than the first best of them. */
    method SearchStep(words: WordSet, host: Host, depth: int, maxDepth: int, guess: Option<Word>)
      returns (ev: Evaluation, ghost guesses: seq<Word>, ghost hostEvs: seq<Evaluation>, ghost best: int)
      requires Valid()
      requires forall w :: w in words ==> w in order
      requires guess.Some? ==> |guess.value| == wordLength
      requires guess.Some? || words != {}
      modifies scoreCache
      decreases |words|, if guess.Some? then 1 else 0, 8
      ensures Valid()
      ensures |scoreCache.maps| == old(|scoreCache.maps|)
      ensures scoreCache.maps[1..] == old(scoreCache.maps[1..])
      ensures && guesses == (if guess.Some? then [guess.value] else Enumerate(words, order))
              && |hostEvs| == |guesses|
              && FirstMin(hostEvs, best)
              && ev == Evaluation(hostEvs[best].score + 1.0, guesses[best], [0] + hostEvs[best].histogram)
      // one turn above the bound every Host evaluation is the bounded one
      ensures depth + 1 == maxDepth ==> forall k :: 0 <= k < |hostEvs| ==> hostEvs[k] == BoundHValue(words, guesses[k], order, wordLength)
      ensures old(Exact()) && Free(depth, maxDepth, |words|, guess.Some?) ==>
                Exact() && EvalInv(ev, words) && ev == PlayerValue(words, None, guess, order, wordLength)
    {
      ghost var exact := Exact() && Free(depth, maxDepth, |words|, guess.Some?);
      var guessList := if guess.Some? then [guess.value] else Enumerate(words, order);
      if guess.None? {
        EnumerateNonempty(words, order);
      }
      guesses := guessList;
      var evs, b := TryGuesses(words, guessList, host, depth + 1, maxDepth, guess.Some?);
      hostEvs, best := evs, b;
      var bestEv := evs[b];
      var h := new Histogram.FromSeq(bestEv.histogram);
      h.ShiftRight();
      ev := Evaluation(bestEv.score + 1.0, guessList[b], h.data);
      if exact {
        SearchStepIs(words, guess, order, wordLength, guessList, evs, b, ev);
      }
    }

    /** Player.start: the search from the root at depth 0, with no response
        yet. With max_depth 0 the root gets the penalty; otherwise it is
        answered from the cache or searched. On an exact cache and out of
        reach of the depth bound, the result is the cache-free value, whose
        score is the mean number of guesses. The ghost results are those of
        ScorePosition. */
    method Start(words: WordSet, host: Host, maxDepth: int, guess: Option<Word>)
      returns (ev: Evaluation, ghost guesses: seq<Word>, ghost hostEvs: seq<Evaluation>, ghost best: int, ghost cacheBeforeWrite: seq<Layer>)
      requires Valid()
      requires forall w :: w in words ==> w in order
      requires guess.Some? ==> |guess.value| == wordLength
      requires guess.Some? || words != {}
      modifies scoreCache
      ensures Valid()
      ensures |scoreCache.maps| == old(|scoreCache.maps|)
      ensures scoreCache.maps[1..] == old(scoreCache.maps[1..])
      ensures if maxDepth == 0 then
                ev == Evaluation(BIGNUM, [], []) && scoreCache.maps == old(scoreCache.maps)
              else
                CachedOrSearched(words, guess, ev, guesses, hostEvs, best, cacheBeforeWrite,
                                 old(scoreCache.Lookup(words)), old(scoreCache.maps), scoreCache.maps)
      ensures maxDepth == 1 && old(scoreCache.Lookup(words)).None? ==>
                forall k :: 0 <= k < |hostEvs| ==> hostEvs[k] == BoundHValue(words, guesses[k], order, wordLength)
      ensures old(Exact()) && (maxDepth < 0 || |words| + (if guess.Some? then 1 else 0) <= maxDepth) ==>
                && Exact()
                && (guess.None? || old(scoreCache.Lookup(words)).None? ==> ev == PlayerValue(words, None, guess, order, wordLength))
                && Total(ev.histogram) == |words|
                && (words != {} ==> ev.score == (Weighted(ev.histogram) as real) / (|words| as real))
    {
      ev, guesses, hostEvs, best, cacheBeforeWrite := ScorePosition(words, None, host, 0, maxDepth, guess);
      if old(Exact()) && (maxDepth < 0 || |words| + (if guess.Some? then 1 else 0) <= maxDepth) && words != {} {
        MeanGuesses(ev, words);
      }
    }
  }
}
