/** wordle.py's WordList.filter: narrow a word set to the words consistent
    with a guess and the response it got. */
module WordLists {
  import opened Responses

  /** Letters of the guess tagged PRESENT or CORRECT: every consistent word contains them. */
  function Must(guess: Word, response: Response): set<char>
    requires |guess| <= |response|
  {
    set i | 0 <= i < |guess| && response[i] != Absent :: guess[i]
  }

  /** Letters tagged ABSENT that are nowhere tagged otherwise: no consistent word contains them. */
  function MustNot(guess: Word, response: Response): set<char>
    requires |guess| <= |response|
  {
    set i | 0 <= i < |guess| && response[i] == Absent && guess[i] !in Must(guess, response) :: guess[i]
  }

  /** The (position, letter) pairs tagged CORRECT. */
  function Matches(guess: Word, response: Response): set<(int, char)>
    requires |guess| <= |response|
  {
    set i | 0 <= i < |guess| && response[i] == Correct :: (i, guess[i])
  }

  function Letters(w: Word): set<char> {
    set i | 0 <= i < |w| :: w[i]
  }

  /** WordList.filter. The source iterates `self.words`, which a frozenset
      does not have, so as written any call raises AttributeError (and
      nothing calls it); this is the evident intent, iterating the set itself.
      The pre-checks never reject a consistent word, so the result is exactly
      the consistent words. */
  function Filter(words: WordSet, guess: Word, response: Response): (r: WordSet)
    requires |guess| <= |response|
    requires forall w :: w in words ==> |w| == |guess|
    ensures r == set w | w in words && Feedback(w, guess) == response
  {
    var must := Must(guess, response);
    var mustNot := MustNot(guess, response);
    var matches := Matches(guess, response);
    var r := set w | w in words
                     && must <= Letters(w)
                     && mustNot !! Letters(w)
                     && (forall p :: p in matches ==> 0 <= p.0 < |w| && w[p.0] == p.1)
                     && Feedback(w, guess) == response;
    forall w | w in words && Feedback(w, guess) == response ensures w in r {
      PreChecksSound(w, guess, response);
    }
    r
  }

  /** A word consistent with guess and response passes every pre-check. */
  lemma PreChecksSound(w: Word, guess: Word, response: Response)
    requires |w| == |guess| <= |response|
    requires Feedback(w, guess) == response
    ensures Must(guess, response) <= Letters(w)
    ensures MustNot(guess, response) !! Letters(w)
    ensures forall p :: p in Matches(guess, response) ==> 0 <= p.0 < |w| && w[p.0] == p.1
  {
    forall c | c in Must(guess, response) ensures c in Letters(w) {
      var i :| 0 <= i < |guess| && response[i] != Absent && guess[i] == c;
      FeedbackClosedForm(w, guess, i);
      if response[i] == Present {
        PresentHasWitness(w, guess, i);
      }
    }
    forall c | c in MustNot(guess, response) ensures c !in Letters(w) {
      var i :| 0 <= i < |guess| && response[i] == Absent && guess[i] !in Must(guess, response) && guess[i] == c;
      if c in Letters(w) {
        var j :| 0 <= j < |w| && w[j] == c;
        FeedbackClosedForm(w, guess, j);
        if guess[j] != w[j] {
          // the first open position holding c is PRESENT, so c would be in Must
          FirstOpenIsPresent(w, guess, i, j);
        }
      }
    }
    forall p | p in Matches(guess, response) ensures 0 <= p.0 < |w| && w[p.0] == p.1 {
      var i :| 0 <= i < |guess| && response[i] == Correct && p == (i, guess[i]);
      FeedbackClosedForm(w, guess, i);
    }
  }

  /** If open guess position i and open target position j hold the same
      letter, some guess position holding it is tagged PRESENT. */
  lemma FirstOpenIsPresent(target: Word, guess: Word, i: nat, j: nat)
    requires |target| == |guess| && i < |guess| && j < |target|
    requires Open(target, guess, i) && Open(target, guess, j) && target[j] == guess[i]
    ensures exists k :: 0 <= k < |guess| && guess[k] == guess[i] && Feedback(target, guess)[k] == Present
  {
    var k := i;
    while !FirstOpenWith(target, guess, k, guess[i])
      invariant k <= i && Open(target, guess, k) && guess[k] == guess[i]
      decreases k
    {
      var k' :| 0 <= k' < k && Open(target, guess, k') && guess[k'] == guess[i];
      k := k';
    }
    FeedbackClosedForm(target, guess, k);
  }

  /** Filtering twice is filtering once. */
  lemma FilterIdempotent(words: WordSet, guess: Word, response: Response)
    requires |guess| <= |response|
    requires forall v :: v in words ==> |v| == |guess|
    ensures Filter(Filter(words, guess, response), guess, response) == Filter(words, guess, response)
  {
  }
}
