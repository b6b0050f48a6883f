/** The feedback rule shared by both programs: wordle.py's Response.from_guess
    (and apexpredator.py's make_response, modelled in apex_response.dfy). */
module Responses {

  /** ABSENT = 0, PRESENT = 1, CORRECT = 2 */
  datatype Tag = Absent | Present | Correct

  type Word = seq<char>
  type Response = seq<Tag>
  /** A set of words still possible (a WordList); also the cache key. */
  type WordSet = set<Word>

  /** Response.all_correct */
  predicate AllCorrect(r: Response) {
    forall i :: 0 <= i < |r| ==> r[i] == Correct
  }

  // ---------------------------------------------------------------------
  // Reference definition of the two passes, one guess position at a time.
  // ---------------------------------------------------------------------

  /** target_avail once the exact-match pass is over: position j stays
      available exactly when it was not matched in place. */
  function AvailAfterExact(target: Word, guess: Word): seq<bool>
    requires |target| == |guess|
  {
    seq(|target|, j requires 0 <= j < |target| => guess[j] != target[j])
  }

  /** The inner loop at one guess letter c: it has no `break`, so it clears
      every still-available target position holding c. */
  function Consume(avail: seq<bool>, target: Word, c: char): seq<bool>
    requires |avail| == |target|
  {
    seq(|avail|, j requires 0 <= j < |avail| => avail[j] && target[j] != c)
  }

  /** target_avail when the second pass reaches guess position k. */
  function AvailBefore(target: Word, guess: Word, k: nat): (a: seq<bool>)
    requires |target| == |guess| && k <= |guess|
    ensures |a| == |target|
  {
    if k == 0 then AvailAfterExact(target, guess)
    else
      var a := AvailBefore(target, guess, k - 1);
      if guess[k - 1] != target[k - 1] then Consume(a, target, guess[k - 1]) else a
  }

  /** Some still-available target position holds letter c. */
  predicate Found(avail: seq<bool>, target: Word, c: char)
    requires |avail| == |target|
  {
    exists j :: 0 <= j < |target| && avail[j] && target[j] == c
  }

  /** The tag the two passes leave at guess position k. */
  function TagAt(target: Word, guess: Word, k: nat): Tag
    requires |target| == |guess| && k < |guess|
  {
    if guess[k] == target[k] then Correct
    else if Found(AvailBefore(target, guess, k), target, guess[k])
    then Present
    else Absent
  }

  /** Response.from_guess(target, guess) as a value. */
  function Feedback(target: Word, guess: Word): (r: Response)
    requires |target| == |guess|
    ensures |r| == |guess|
  {
    seq(|guess|, k requires 0 <= k < |guess| => TagAt(target, guess, k))
  }

  // ---------------------------------------------------------------------
  // The imperative two-pass algorithm over three arrays.
  // ---------------------------------------------------------------------

  /** Consume applied to the first j positions only (the inner loop midway). */
  function ConsumeUpTo(avail: seq<bool>, target: Word, c: char, j: nat): (a: seq<bool>)
    requires |avail| == |target| && j <= |avail|
    ensures |a| == |avail|
  {
    seq(|avail|, k requires 0 <= k < |avail| => if k < j then avail[k] && target[k] != c else avail[k])
  }

  /** The tags the exact-match pass leaves behind. */
  function ExactTags(target: Word, guess: Word): (r: Response)
    requires |target| == |guess|
    ensures |r| == |guess|
  {
    seq(|guess|, k requires 0 <= k < |guess| => if guess[k] == target[k] then Correct else Absent)
  }

  /** The first loop of from_guess: an exact match at i marks CORRECT and
      consumes both the guess letter and the target letter. */
  method ExactPass(target: Word, guess: Word, guessAvail: array<bool>, targetAvail: array<bool>, result: array<Tag>)
    requires |target| == |guess| == guessAvail.Length == targetAvail.Length == result.Length
    requires guessAvail != targetAvail
    requires forall k :: 0 <= k < |guess| ==> guessAvail[k] && targetAvail[k] && result[k] == Absent
    modifies guessAvail, targetAvail, result
    ensures guessAvail[..] == AvailAfterExact(target, guess)
    ensures targetAvail[..] == AvailAfterExact(target, guess)
    ensures result[..] == ExactTags(target, guess)
  {
    var n := |guess|;
    for i := 0 to n
      invariant forall k :: 0 <= k < i ==> guessAvail[k] == (guess[k] != target[k])
      invariant forall k :: 0 <= k < i ==> targetAvail[k] == (guess[k] != target[k])
      invariant forall k :: 0 <= k < i ==> result[k] == if guess[k] == target[k] then Correct else Absent
      invariant forall k :: i <= k < n ==> guessAvail[k] && targetAvail[k] && result[k] == Absent
    {
      if guess[i] == target[i] && targetAvail[i] {
        result[i] := Correct;
        guessAvail[i] := false;
        targetAvail[i] := false;
      }
    }
  }

  /** The inner loop of from_guess's second pass for guess position i with
      letter c: it has no `break`, so it consumes every available target
      position holding c, and marks i PRESENT if there was one. */
  method ScanTarget(target: Word, c: char, i: nat, targetAvail: array<bool>, result: array<Tag>)
    requires targetAvail.Length == |target| && i < result.Length
    modifies targetAvail, result
    ensures targetAvail[..] == Consume(old(targetAvail[..]), target, c)
    ensures result[..] == old(result[..])[i := if Found(old(targetAvail[..]), target, c) then Present else old(result[i])]
  {
    ghost var before := targetAvail[..];
    for j := 0 to |target|
      invariant targetAvail[..] == ConsumeUpTo(before, target, c, j)
      invariant result[..] == old(result[..])[i := if exists jj :: 0 <= jj < j && before[jj] && target[jj] == c
                                                   then Present else old(result[i])]
    {
      if targetAvail[j] && c == target[j] {
        result[i] := Present;
        targetAvail[j] := false;
      }
    }
    assert ConsumeUpTo(before, target, c, |target|) == Consume(before, target, c);
  }

  /** The second loop of from_guess: each guess letter still available
      scans the target (ScanTarget). */
  method DisplacedPass(target: Word, guess: Word, guessAvail: array<bool>, targetAvail: array<bool>, result: array<Tag>)
    requires |target| == |guess| == guessAvail.Length == targetAvail.Length == result.Length
    requires guessAvail != targetAvail
    requires guessAvail[..] == AvailAfterExact(target, guess)
    requires targetAvail[..] == AvailAfterExact(target, guess)
    requires result[..] == ExactTags(target, guess)
    modifies targetAvail, result
    ensures result[..] == Feedback(target, guess)
  {
    var n := |guess|;
    for i := 0 to n
      invariant targetAvail[..] == AvailBefore(target, guess, i)
      invariant forall k :: 0 <= k < i ==> result[k] == TagAt(target, guess, k)
      invariant forall k :: i <= k < n ==> result[k] == ExactTags(target, guess)[k]
    {
      if guessAvail[i] {
        ScanTarget(target, guess[i], i, targetAvail, result);
      }
    }
    assert result[..] == Feedback(target, guess);
  }

  /** Response.from_guess: the two passes over fresh availability arrays. */
  method FromGuess(target: Word, guess: Word) returns (r: Response)
    requires |target| == |guess|
    ensures r == Feedback(target, guess)
  {
    var n := |guess|;
    var guessAvail := new bool[n](_ => true);
    var targetAvail := new bool[|target|](_ => true);
    var result := new Tag[n](_ => Absent);
    ExactPass(target, guess, guessAvail, targetAvail, result);
    DisplacedPass(target, guess, guessAvail, targetAvail, result);
    r := result[..];
  }

  // ---------------------------------------------------------------------
  // What the two passes compute, stated independently of the loops.
  // ---------------------------------------------------------------------

  /** A guess position i takes part in the displaced pass (it was not an exact match). */
  predicate Open(target: Word, guess: Word, i: int)
    requires |target| == |guess|
  {
    0 <= i < |guess| && guess[i] != target[i]
  }

  /** No earlier open guess position holds the letter c. */
  predicate FirstOpenWith(target: Word, guess: Word, k: nat, c: char)
    requires |target| == |guess| && k <= |guess|
  {
    forall i :: 0 <= i < k && Open(target, guess, i) ==> guess[i] != c
  }

  /** Target position j is still available when the displaced pass reaches
      guess position k exactly when it was not matched in place and no
      earlier open guess letter equals target[j]. */
  lemma {:induction false} AvailBeforeClosedForm(target: Word, guess: Word, k: nat, j: nat)
    requires |target| == |guess| && k <= |guess| && j < |target|
    ensures AvailBefore(target, guess, k)[j] <==> Open(target, guess, j) && FirstOpenWith(target, guess, k, target[j])
  {
    if k > 0 {
      AvailBeforeClosedForm(target, guess, k - 1, j);
    }
  }

  /** Position k is CORRECT exactly when the letters agree there; it is
      PRESENT exactly when it is the first open occurrence of its letter and
      some open target position holds that letter; otherwise it is ABSENT. */
  lemma FeedbackClosedForm(target: Word, guess: Word, k: nat)
    requires |target| == |guess| && k < |guess|
    ensures Feedback(target, guess)[k] == Correct <==> guess[k] == target[k]
    ensures Feedback(target, guess)[k] == Present <==>
              guess[k] != target[k] && FirstOpenWith(target, guess, k, guess[k]) &&
              exists j :: Open(target, guess, j) && target[j] == guess[k]
  {
    var a := AvailBefore(target, guess, k);
    if guess[k] != target[k] {
      if FirstOpenWith(target, guess, k, guess[k]) && exists j :: Open(target, guess, j) && target[j] == guess[k] {
        var j :| Open(target, guess, j) && target[j] == guess[k];
        AvailBeforeClosedForm(target, guess, k, j);
      }
      if exists j :: 0 <= j < |target| && a[j] && target[j] == guess[k] {
        var j :| 0 <= j < |target| && a[j] && target[j] == guess[k];
        AvailBeforeClosedForm(target, guess, k, j);
      }
    }
  }

  /** A PRESENT tag at i points at a target position holding guess[i] that was not CORRECT. */
  lemma PresentHasWitness(target: Word, guess: Word, i: nat)
    requires |target| == |guess| && i < |guess|
    requires Feedback(target, guess)[i] == Present
    ensures exists j :: 0 <= j < |target| && target[j] == guess[i] && Feedback(target, guess)[j] != Correct
  {
    FeedbackClosedForm(target, guess, i);
    var j :| Open(target, guess, j) && target[j] == guess[i];
    FeedbackClosedForm(target, guess, j);
  }

  /** A word played against itself is all CORRECT, and only then. */
  lemma AllCorrectIff(target: Word, guess: Word)
    requires |target| == |guess|
    ensures AllCorrect(Feedback(target, guess)) <==> target == guess
  {
    if AllCorrect(Feedback(target, guess)) {
      forall k | 0 <= k < |guess| ensures guess[k] == target[k] {
        FeedbackClosedForm(target, guess, k);
      }
    }
  }

  // ---------------------------------------------------------------------
  // Duplicate letters are never over-credited.
  // ---------------------------------------------------------------------

  /** Guess positions holding letter c whose tag is not ABSENT. */
  function CreditedWith(target: Word, guess: Word, c: char): set<nat>
    requires |target| == |guess|
  {
    set i: nat | i < |guess| && guess[i] == c && Feedback(target, guess)[i] != Absent
  }

  /** Target positions holding letter c. */
  function Occurrences(target: Word, c: char): set<nat> {
    set j: nat | j < |target| && target[j] == c
  }

  lemma SubsetCard<T>(a: set<T>, b: set<T>)
    requires a <= b
    ensures |a| <= |b|
  {
    assert b == a + (b - a);
  }

  /** Positions where guess and target both hold c: CORRECT tags on c. */
  function ExactWith(target: Word, guess: Word, c: char): set<nat>
    requires |target| == |guess|
  {
    set i: nat | i < |guess| && guess[i] == c && target[i] == c
  }

  /** Guess positions holding c that are tagged PRESENT. */
  function PresentWith(target: Word, guess: Word, c: char): set<nat>
    requires |target| == |guess|
  {
    set i: nat | i < |guess| && guess[i] == c && Feedback(target, guess)[i] == Present
  }

  /** Target positions holding c that were not matched in place. */
  function OpenWith(target: Word, guess: Word, c: char): set<nat>
    requires |target| == |guess|
  {
    set j: nat | j < |target| && target[j] == c && guess[j] != c
  }

  lemma CreditedSplit(target: Word, guess: Word, c: char)
    requires |target| == |guess|
    ensures CreditedWith(target, guess, c) <= ExactWith(target, guess, c) + PresentWith(target, guess, c)
  {
    forall i | i in CreditedWith(target, guess, c)
      ensures i in ExactWith(target, guess, c) + PresentWith(target, guess, c)
    {
      FeedbackClosedForm(target, guess, i);
    }
  }

  /** At most one position per letter is PRESENT, and when one is, an open
      target position holds that letter. */
  lemma PresentAtMostOne(target: Word, guess: Word, c: char)
    requires |target| == |guess|
    ensures |PresentWith(target, guess, c)| <= |OpenWith(target, guess, c)|
  {
    var present := PresentWith(target, guess, c);
    if present != {} {
      var p :| p in present;
      FeedbackClosedForm(target, guess, p);
      forall q | q in present ensures q == p {
        FeedbackClosedForm(target, guess, q);
        if q < p {
          assert Open(target, guess, q);
        } else if p < q {
          assert Open(target, guess, p);
        }
      }
      SubsetCard(present, {p});
      var j :| Open(target, guess, j) && target[j] == guess[p];
      assert j in OpenWith(target, guess, c);
      SubsetCard({j}, OpenWith(target, guess, c));
    }
  }

  /** For every letter, the CORRECT and PRESENT tags on it never outnumber
      its occurrences in the target. */
  lemma NoOvercredit(target: Word, guess: Word, c: char)
    requires |target| == |guess|
    ensures |CreditedWith(target, guess, c)| <= |Occurrences(target, c)|
  {
    CreditedSplit(target, guess, c);
    SubsetCard(CreditedWith(target, guess, c), ExactWith(target, guess, c) + PresentWith(target, guess, c));
    PresentAtMostOne(target, guess, c);
    assert Occurrences(target, c) == ExactWith(target, guess, c) + OpenWith(target, guess, c);
    assert ExactWith(target, guess, c) !! OpenWith(target, guess, c);
  }

  /** The repeated-letter quirk of the inner loop: for target XYEEZ and guess
      EEAAB the first E takes both open target Es, so the second E is ABSENT. */
  lemma ConsumesAllMatches()
    ensures Feedback("XYEEZ", "EEAAB") == [Present, Absent, Absent, Absent, Absent]
  {
    var t, g := "XYEEZ", "EEAAB";
    FeedbackClosedForm(t, g, 0);
    assert Open(t, g, 2) && t[2] == g[0];
    FeedbackClosedForm(t, g, 1);
    assert Open(t, g, 0);
    FeedbackClosedForm(t, g, 2);
    FeedbackClosedForm(t, g, 3);
    FeedbackClosedForm(t, g, 4);
  }
}
