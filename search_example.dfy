/** The game tree of two distinct words, worked out by the cache-free
    value and by the search itself. */
module SearchExample {
  import opened Options
  import opened Responses
  import opened Histograms
  import opened ScoreCache
  import opened Search

  /** Listing a and then b, a set of them is iterated in that order. */
  lemma EnumeratePair(a: Word, b: Word)
    requires a != b
    ensures Enumerate({a, b}, [a, b]) == [a, b]
    ensures Enumerate({a}, [a, b]) == [a] && Enumerate({b}, [a, b]) == [b]
    ensures |{a, b}| == 2
  {
    assert [a, b][1..] == [b] && [b][1..] == [];
    assert Enumerate({a, b}, [b]) == [b];
    assert Enumerate({a}, [b]) == [];
    assert Enumerate({b}, [b]) == [b];
  }

  /** Guessing a at {a, b}: a is solved now, b gets a response that is not
      all CORRECT, and that response is a new key. */
  lemma KeysPair(a: Word, b: Word, L: nat)
    requires a != b && |a| == L && |b| == L
    ensures KeysOf([a, b], a) == [Feedback(a, a), Feedback(b, a)]
    ensures AllCorrect(Feedback(a, a)) && !AllCorrect(Feedback(b, a))
  {
    AllCorrectIff(a, a);
    AllCorrectIff(b, a);
    assert [a, b][..1] == [a] && [a][..0] == [];
    assert KeysOf([a], a) == [Feedback(a, a)];
  }

  /** The same with b listed first. */
  lemma KeysPairSecond(a: Word, b: Word, L: nat)
    requires a != b && |a| == L && |b| == L
    ensures KeysOf([a, b], b) == [Feedback(a, b), Feedback(b, b)]
    ensures !AllCorrect(Feedback(a, b)) && AllCorrect(Feedback(b, b))
  {
    AllCorrectIff(a, b);
    AllCorrectIff(b, b);
    assert [a, b][..1] == [a] && [a][..0] == [];
    assert KeysOf([a], b) == [Feedback(a, b)];
  }

  lemma SoloGroup(w: Word)
    ensures Group({w}, w, Feedback(w, w)) == {w} && AllCorrect(Feedback(w, w))
  {
    AllCorrectIff(w, w);
  }

  /** The Host facing one word and guessing it: the game is won now. */
  lemma SoloHost(w: Word, order: seq<Word>, L: nat)
    requires w in order && |w| == L && Enumerate({w}, order) == [w]
    ensures HValue({w}, w, false, order, L) == Evaluation(0.0, [], [1])
  {
    SoloGroup(w);
    var r := Feedback(w, w);
    assert KeysOf([w], w) == [r] by {
      assert [w][..0] == [];
    }
    assert ChildGroup({w}, r, {w}, false);
    var children := ChildValues({w}, [r], [{w}], false, order, L);
    ChildValuesAt({w}, [r], [{w}], false, order, L, 0);
    assert children == [Evaluation(0.0, [], [1])];
    HostValueIs({w}, w, false, order, L, [r], [{w}], children);
    SoloSums({w}, children);
  }

  lemma SoloSums(g: WordSet, children: seq<Evaluation>)
    requires |g| == 1 && children == [Evaluation(0.0, [], [1])]
    ensures WeightedScore([g], children, 1) == 0.0 && SumHists(children) == [1]
  {
    assert [g][..0] == [] && children[..0] == [];
  }

  /** A single word left after a wrong guess takes one more guess. */
  lemma SoloPlayer(w: Word, r: Response, order: seq<Word>, L: nat)
    requires w in order && |w| == L && Enumerate({w}, order) == [w] && !AllCorrect(r)
    ensures PlayerValue({w}, Some(r), None, order, L) == Evaluation(1.0, w, [0, 1])
  {
    SoloHost(w, order, L);
    var evs := HostValues({w}, [w], false, order, L);
    assert evs == [Evaluation(0.0, [], [1])];
    assert ArgMin(evs) == 0;
    assert SearchValue({w}, [w], false, order, L) == Evaluation(1.0, w, [0, 1]);
  }

  /** One game won now and one a guess later, out of two. */
  lemma PairSums(g0: WordSet, g1: WordSet, c0: Evaluation, c1: Evaluation)
    requires |g0| == 1 && |g1| == 1
    requires (c0.score, c1.score) == (0.0, 1.0) || (c0.score, c1.score) == (1.0, 0.0)
    requires (c0.histogram, c1.histogram) == ([1], [0, 1]) || (c0.histogram, c1.histogram) == ([0, 1], [1])
    ensures WeightedScore([g0, g1], [c0, c1], 2) == 0.5
    ensures SumHists([c0, c1]) == [1, 1]
  {
    assert [g0, g1][..1] == [g0] && [c0, c1][..1] == [c0];
    assert [g0][..0] == [] && [c0][..0] == [];
    assert WeightedScore([g0], [c0], 2) == Share(1, c0.score, 2);
    assert Share(1, c0.score, 2) + Share(1, c1.score, 2) == 0.5;
    assert SumHists([c0]) == c0.histogram;
    assert AddHist(c0.histogram, c1.histogram) == [1, 1];
  }

  /** Whichever of the two words is guessed, each response's group is a
      single word. */
  lemma PairGroups(a: Word, b: Word, guess: Word, L: nat)
    requires a != b && |a| == L && |b| == L && (guess == a || guess == b)
    ensures Group({a, b}, guess, Feedback(a, guess)) == {a}
    ensures Group({a, b}, guess, Feedback(b, guess)) == {b}
    ensures ChildGroup({a, b}, Feedback(a, guess), {a}, false) && ChildGroup({a, b}, Feedback(b, guess), {b}, false)
    ensures AllCorrect(Feedback(a, guess)) <==> guess == a
    ensures AllCorrect(Feedback(b, guess)) <==> guess == b
  {
    AllCorrectIff(a, guess);
    AllCorrectIff(b, guess);
    assert Feedback(a, guess) != Feedback(b, guess);
  }

  /** The Player's values of the two single-word groups, in key order. */
  lemma PairChildren(a: Word, b: Word, L: nat, keys: seq<Response>)
    requires a != b && |a| == L && |b| == L && |keys| == 2
    requires ChildGroup({a, b}, keys[0], {a}, false) && ChildGroup({a, b}, keys[1], {b}, false)
    ensures ChildValues({a, b}, keys, [{a}, {b}], false, [a, b], L)
            == [PlayerValue({a}, Some(keys[0]), None, [a, b], L), PlayerValue({b}, Some(keys[1]), None, [a, b], L)]
  {
    ChildValuesAt({a, b}, keys, [{a}, {b}], false, [a, b], L, 0);
    ChildValuesAt({a, b}, keys, [{a}, {b}], false, [a, b], L, 1);
  }

  /** The Player's values of the two groups when a is guessed: a is won,
      b takes one more guess. */
  lemma PairChildrenFirst(a: Word, b: Word, L: nat)
    requires a != b && |a| == L && |b| == L
    ensures ChildValues({a, b}, [Feedback(a, a), Feedback(b, a)], [{a}, {b}], false, [a, b], L)
            == [Evaluation(0.0, [], [1]), Evaluation(1.0, b, [0, 1])]
  {
    EnumeratePair(a, b);
    PairGroups(a, b, a, L);
    PairChildren(a, b, L, [Feedback(a, a), Feedback(b, a)]);
    SoloPlayer(b, Feedback(b, a), [a, b], L);
  }

  /** The same when b is guessed: a takes one more guess, b is won. */
  lemma PairChildrenSecond(a: Word, b: Word, L: nat)
    requires a != b && |a| == L && |b| == L
    ensures ChildValues({a, b}, [Feedback(a, b), Feedback(b, b)], [{a}, {b}], false, [a, b], L)
            == [Evaluation(1.0, a, [0, 1]), Evaluation(0.0, [], [1])]
  {
    EnumeratePair(a, b);
    PairGroups(a, b, b, L);
    PairChildren(a, b, L, [Feedback(a, b), Feedback(b, b)]);
    SoloPlayer(a, Feedback(a, b), [a, b], L);
  }

  /** The keys and groups the Host forms at {a, b}, either word guessed. */
  lemma PairKeysGroups(a: Word, b: Word, L: nat, guess: Word)
    requires a != b && |a| == L && |b| == L && (guess == a || guess == b)
    ensures KeysOf(Enumerate({a, b}, [a, b]), guess) == [Feedback(a, guess), Feedback(b, guess)]
    ensures HGroups({a, b}, guess, [a, b]) == [{a}, {b}]
  {
    EnumeratePair(a, b);
    PairKeys(a, b, L, guess);
    PairGroups(a, b, guess, L);
    var keys := [Feedback(a, guess), Feedback(b, guess)];
    assert HGroups({a, b}, guess, [a, b]) == seq(2, j requires 0 <= j < 2 => Group({a, b}, guess, keys[j]));
  }

  lemma PairKeys(a: Word, b: Word, L: nat, guess: Word)
    requires a != b && |a| == L && |b| == L && (guess == a || guess == b)
    ensures KeysOf([a, b], guess) == [Feedback(a, guess), Feedback(b, guess)]
  {
    if guess == a {
      KeysPair(a, b, L);
    } else {
      KeysPairSecond(a, b, L);
    }
  }

  /** The Host at {a, b}, either word guessed: the aggregate of the
      Player's values of {a} and {b}, in this order. */
  lemma PairHost(a: Word, b: Word, L: nat, guess: Word)
    requires a != b && |a| == L && |b| == L && (guess == a || guess == b)
    ensures HValue({a, b}, guess, false, [a, b], L) ==
            var children := ChildValues({a, b}, [Feedback(a, guess), Feedback(b, guess)], [{a}, {b}], false, [a, b], L);
            Evaluation(WeightedScore([{a}, {b}], children, 2), [], SumHists(children))
  {
    EnumeratePair(a, b);
    PairKeysGroups(a, b, L, guess);
  }

  /** The Host's value of guessing a at {a, b}: a is solved now and b one
      guess later, so 0.5 on average and one game ending at each of the
      depths 0 and 1. */
  lemma PairHostFirst(a: Word, b: Word, L: nat)
    requires a != b && |a| == L && |b| == L
    ensures HValue({a, b}, a, false, [a, b], L) == Evaluation(0.5, [], [1, 1])
  {
    PairHost(a, b, L, a);
    PairChildrenFirst(a, b, L);
    PairSums({a}, {b}, Evaluation(0.0, [], [1]), Evaluation(1.0, b, [0, 1]));
  }

  /** Guessing b instead gives the same value, its games in the other
      order. */
  lemma PairHostSecond(a: Word, b: Word, L: nat)
    requires a != b && |a| == L && |b| == L
    ensures HValue({a, b}, b, false, [a, b], L) == Evaluation(0.5, [], [1, 1])
  {
    PairHost(a, b, L, b);
    PairChildrenSecond(a, b, L);
    PairSums({a}, {b}, Evaluation(1.0, a, [0, 1]), Evaluation(0.0, [], [1]));
  }

  /** At the root both guesses are worth the same to the Host. */
  lemma PairHostValues(a: Word, b: Word, L: nat)
    requires a != b && |a| == L && |b| == L
    ensures HostValues({a, b}, [a, b], false, [a, b], L) == [Evaluation(0.5, [], [1, 1]), Evaluation(0.5, [], [1, 1])]
  {
    PairHostFirst(a, b, L);
    PairHostSecond(a, b, L);
  }

  /** Two distinct words: both guesses tie, so the first listed one is
      kept, and the game takes 1.5 guesses on average, one game ending
      after one guess and one after two. */
  lemma PairValue(a: Word, b: Word, L: nat)
    requires a != b && |a| == L && |b| == L
    ensures PlayerValue({a, b}, None, None, [a, b], L) == Evaluation(1.5, a, [0, 1, 1])
  {
    EnumeratePair(a, b);
    PairHostValues(a, b, L);
    var evs := [Evaluation(0.5, [], [1, 1]), Evaluation(0.5, [], [1, 1])];
    assert FirstMin(evs, 0);
    SearchValueIs({a, b}, [a, b], false, [a, b], L, evs, 0);
  }

  lemma HoneyMoneyWords()
    ensures "HONEY" != "MONEY" && Distinct(["HONEY", "MONEY"]) && |{"HONEY", "MONEY"}| == 2
    ensures forall w :: w in ["HONEY", "MONEY"] ==> |w| == 5
    ensures forall w :: w in {"HONEY", "MONEY"} ==> w in ["HONEY", "MONEY"]
  {
    assert "HONEY"[0] != "MONEY"[0];
    EnumeratePair("HONEY", "MONEY");
  }

  /** The two-word game over HONEY and MONEY. */
  lemma HoneyMoney()
    ensures "HONEY" != "MONEY" && Distinct(["HONEY", "MONEY"]) && |{"HONEY", "MONEY"}| == 2
    ensures forall w :: w in ["HONEY", "MONEY"] ==> |w| == 5
    ensures forall w :: w in {"HONEY", "MONEY"} ==> w in ["HONEY", "MONEY"]
    ensures PlayerValue({"HONEY", "MONEY"}, None, None, ["HONEY", "MONEY"], 5) == Evaluation(1.5, "HONEY", [0, 1, 1])
  {
    HoneyMoneyWords();
    PairValue("HONEY", "MONEY", 5);
  }

  /** Player.start on a fresh player over HONEY and MONEY: the search
      returns that value. */
  method StartOnHoneyMoney() returns (ev: Evaluation)
    ensures ev == Evaluation(1.5, "HONEY", [0, 1, 1])
  {
    HoneyMoney();
    var words: WordSet := {"HONEY", "MONEY"};
    var player := new Player(["HONEY", "MONEY"], 5);
    var host := new Host();
    ghost var guesses, hostEvs, best, cacheBeforeWrite;
    ev, guesses, hostEvs, best, cacheBeforeWrite := player.Start(words, host, 10, None);
  }

  /** At the depth bound the Host does not recurse: of two words, the
      guessed one scores nothing and wins now, the other one costs the
      BIGNUM penalty, which halves over the two words. */
  lemma PairAtBound(a: Word, b: Word, L: nat, guess: Word)
    requires a != b && |a| == L && |b| == L && (guess == a || guess == b)
    ensures BoundHValue({a, b}, guess, [a, b], L) == Evaluation(500000.0, [], [1])
  {
    BoundHostValue({a, b}, guess, [a, b], L);
    assert {a, b} - {guess} == if guess == a then {b} else {a};
    assert |{a, b}| == 2;
  }

  /** A fresh cache, one empty writable layer, holds no word set. */
  lemma FreshMiss(key: WordSet)
    ensures FirstHit([map[]], key) == None
  {
    var empty: Layer := map[];
    assert key !in empty;
  }

  /** Player.start with max_depth 1 on a fresh player over two words a and
      b: both guesses leave the other word to the penalty, so the first one
      is chosen, and no game is won in fewer than one guess. */
  method StartAtBoundOnPair(a: Word, b: Word, L: nat) returns (ev: Evaluation)
    requires a != b && |a| == L && |b| == L
    ensures ev == Evaluation(500001.0, a, [0, 1])
  {
    var words: WordSet := {a, b};
    assert Distinct([a, b]);
    var player := new Player([a, b], L);
    var host := new Host();
    FreshMiss(words);
    ghost var guesses, hostEvs, best, cacheBeforeWrite;
    ev, guesses, hostEvs, best, cacheBeforeWrite := player.Start(words, host, 1, None);
    EnumeratePair(a, b);
    PairAtBound(a, b, L, a);
    PairAtBound(a, b, L, b);
    BoundChoice(guesses, hostEvs, best, ev, Evaluation(500000.0, [], [1]));
  }

  /** The same on HONEY and MONEY. */
  method StartAtBoundOnHoneyMoney() returns (ev: Evaluation)
    ensures ev == Evaluation(500001.0, "HONEY", [0, 1])
  {
    HoneyMoneyWords();
    ev := StartAtBoundOnPair("HONEY", "MONEY", 5);
  }

  /** The choice Player.score_position makes between two guesses whose Host
      evaluations are equal: the first one, one guess more than its value. */
  lemma BoundChoice(guesses: seq<Word>, hostEvs: seq<Evaluation>, best: int, ev: Evaluation, e: Evaluation)
    requires |guesses| == 2 && hostEvs == [e, e] && FirstMin(hostEvs, best)
    requires ev == Evaluation(hostEvs[best].score + 1.0, guesses[best], [0] + hostEvs[best].histogram)
    ensures ev == Evaluation(e.score + 1.0, guesses[0], [0] + e.histogram)
  {
    assert !Less(hostEvs[1], hostEvs[0]);
  }
}
