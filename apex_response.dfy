/** apexpredator.py's Response: the same feedback rule, rendered as the
    coloured squares people share, and the clean-up applied to a shared row. */
module ApexResponse {
  import opened Options
  import opened Responses

  /** SQUARES[ABSENT]: chr(11036), the light-theme grey square. */
  const LIGHT_THEME_ABSENT: char := '\U{2B1C}'
  /** chr(11035), the dark-theme grey square. */
  const DARK_THEME_ABSENT: char := '\U{2B1B}'
  /** SQUARES[PRESENT]: chr(129000), the yellow square. */
  const YELLOW: char := '\U{1F7E8}'
  /** SQUARES[CORRECT]: chr(129001), the green square. */
  const GREEN: char := '\U{1F7E9}'

  // ---------------------------------------------------------------------
  // make_response
  // ---------------------------------------------------------------------

  /** Response.make_response: apexpredator.py's own copy of the two passes
      over guess_avail, target_avail and result. Its result is the tag
      sequence that wordle.py's from_guess computes (Responses.FromGuess
      ensures the same Feedback). */
  method MakeResponse(target: Word, guess: Word) returns (r: Response)
    requires |target| == |guess|
    ensures r == Feedback(target, guess)
  {
    var n := |guess|;
    var guessAvail := new bool[n](_ => true);
    var targetAvail := new bool[|target|](_ => true);
    var result := new Tag[n](_ => Absent);
    for i := 0 to n
      invariant guessAvail[..] == AvailBeforeExact(target, guess, i)
      invariant targetAvail[..] == AvailBeforeExact(target, guess, i)
      invariant result[..] == ExactTagsBefore(target, guess, i)
    {
      ExactStep(target, guess, i);
      if guess[i] == target[i] && targetAvail[i] {
        result[i] := Correct;
        guessAvail[i] := false;
        targetAvail[i] := false;
      }
    }
    ExactDone(target, guess);
    for i := 0 to n
      modifies targetAvail, result
      invariant targetAvail[..] == AvailBefore(target, guess, i)
      invariant result[..] == TagsBefore(target, guess, i)
    {
      ghost var prev := result[..];
      AvailStep(target, guess, i);
      if guessAvail[i] {
        ScanTarget(target, guess[i], i, targetAvail, result);
      }
      DisplacedStep(target, guess, i, prev, result[..]);
    }
    r := result[..];
    DisplacedDone(target, guess);
  }

  /** guess_avail and target_avail when the exact-match pass reaches i. */
  function AvailBeforeExact(target: Word, guess: Word, i: nat): (a: seq<bool>)
    requires |target| == |guess|
    ensures |a| == |guess|
  {
    seq(|guess|, k requires 0 <= k < |guess| => k >= i || guess[k] != target[k])
  }

  /** result when the exact-match pass reaches i. */
  function ExactTagsBefore(target: Word, guess: Word, i: nat): (r: Response)
    requires |target| == |guess|
    ensures |r| == |guess|
  {
    seq(|guess|, k requires 0 <= k < |guess| => if k < i && guess[k] == target[k] then Correct else Absent)
  }

  /** One step of the exact-match pass: position i is still available, and
      a match there clears it and tags it CORRECT. */
  lemma ExactStep(target: Word, guess: Word, i: nat)
    requires |target| == |guess| && i < |guess|
    ensures AvailBeforeExact(target, guess, i)[i]
    ensures AvailBeforeExact(target, guess, i + 1)
            == if guess[i] == target[i] then AvailBeforeExact(target, guess, i)[i := false] else AvailBeforeExact(target, guess, i)
    ensures ExactTagsBefore(target, guess, i + 1)
            == if guess[i] == target[i] then ExactTagsBefore(target, guess, i)[i := Correct] else ExactTagsBefore(target, guess, i)
  {
  }

  /** After the exact-match pass the arrays are what the second pass starts from. */
  lemma ExactDone(target: Word, guess: Word)
    requires |target| == |guess|
    ensures AvailBeforeExact(target, guess, |guess|) == AvailAfterExact(target, guess) == AvailBefore(target, guess, 0)
    ensures ExactTagsBefore(target, guess, |guess|) == TagsBefore(target, guess, 0)
  {
    var a, b := ExactTagsBefore(target, guess, |guess|), TagsBefore(target, guess, 0);
    forall k | 0 <= k < |guess| ensures a[k] == b[k] {
      assert b[k] == ExactTags(target, guess)[k];
    }
  }

  /** After the second pass every tag is settled. */
  lemma DisplacedDone(target: Word, guess: Word)
    requires |target| == |guess|
    ensures TagsBefore(target, guess, |guess|) == Feedback(target, guess)
  {
  }

  /** result when the second pass reaches guess position i: final tags
      before i, the exact-match pass's tags from i on. */
  function TagsBefore(target: Word, guess: Word, i: nat): (r: Response)
    requires |target| == |guess| && i <= |guess|
    ensures |r| == |guess|
  {
    seq(|guess|, k requires 0 <= k < |guess| => if k < i then TagAt(target, guess, k) else ExactTags(target, guess)[k])
  }

  /** Whether guess position i is open, and what the scan of the target
      for it leaves available. */
  lemma AvailStep(target: Word, guess: Word, i: nat)
    requires |target| == |guess| && i < |guess|
    ensures AvailAfterExact(target, guess)[i] == (guess[i] != target[i])
    ensures AvailBefore(target, guess, i + 1)
            == if guess[i] != target[i] then Consume(AvailBefore(target, guess, i), target, guess[i])
               else AvailBefore(target, guess, i)
  {
  }

  /** One step of the second pass: scanning the target for an open guess
      letter, or skipping a matched one, settles the tag at i. */
  lemma DisplacedStep(target: Word, guess: Word, i: nat, prev: Response, next: Response)
    requires |target| == |guess| && i < |guess|
    requires prev == TagsBefore(target, guess, i)
    requires next == if guess[i] != target[i]
                     then prev[i := if Found(AvailBefore(target, guess, i), target, guess[i])
                                    then Present else prev[i]]
                     else prev
    ensures next == TagsBefore(target, guess, i + 1)
  {
    var want := TagsBefore(target, guess, i + 1);
    forall k | 0 <= k < |guess| ensures next[k] == want[k] {
      if k == i {
        assert next[k] == TagAt(target, guess, i);
      }
    }
  }

  // ---------------------------------------------------------------------
  // __str__: one square per tag.
  // ---------------------------------------------------------------------

  function Square(t: Tag): char {
    match t
    case Absent => LIGHT_THEME_ABSENT
    case Present => YELLOW
    case Correct => GREEN
  }

  /** Response.__str__: ''.join(SQUARES[c] for c in info). */
  function Render(r: Response): (s: string)
    ensures |s| == |r|
    ensures forall i :: 0 <= i < |r| ==> s[i] == Square(r[i])
  {
    seq(|r|, i requires 0 <= i < |r| => Square(r[i]))
  }

  /** Reading a row of light-theme squares back as tags; anything else is None. */
  function Parse(s: string): Option<Response> {
    if s == [] then Some([])
    else
      var t := if s[0] == LIGHT_THEME_ABSENT then Some(Absent)
               else if s[0] == YELLOW then Some(Present)
               else if s[0] == GREEN then Some(Correct)
               else None;
      match (t, Parse(s[1..]))
      case (Some(t0), Some(rest)) => Some([t0] + rest)
      case _ => None
  }

  /** Rendering loses nothing: the squares read back as the tags. */
  lemma {:induction false} ParseRender(r: Response)
    ensures Parse(Render(r)) == Some(r)
  {
    if r != [] {
      ParseRender(r[1..]);
      assert Render(r)[1..] == Render(r[1..]);
      assert [r[0]] + r[1..] == r;
    }
  }

  /** The three squares are distinct, so distinct responses render
      differently: a rendered row identifies its response. */
  lemma RenderInjective(a: Response, b: Response)
    ensures Render(a) == Render(b) <==> a == b
  {
    if Render(a) == Render(b) {
      ParseRender(a);
      ParseRender(b);
    }
  }

  // ---------------------------------------------------------------------
  // canonicalize_blocks: strip twice, then dark squares become light ones.
  // ---------------------------------------------------------------------

  /** str.isspace() for one character: the characters Python's str.strip()
      removes when called without arguments. */
  predicate IsSpace(c: char) {
    c == ' ' || ('\t' <= c <= '\r') || ('\U{1C}' <= c <= '\U{1F}') ||
    c == '\U{85}' || c == '\U{A0}' || c == '\U{1680}' || ('\U{2000}' <= c <= '\U{200A}') ||
    c == '\U{2028}' || c == '\U{2029}' || c == '\U{202F}' || c == '\U{205F}' || c == '\U{3000}'
  }

  predicate AllSpace(s: string) {
    forall i :: 0 <= i < |s| ==> IsSpace(s[i])
  }

  /** Neither end of the string is whitespace. */
  predicate Stripped(s: string) {
    s == [] || (!IsSpace(s[0]) && !IsSpace(s[|s| - 1]))
  }

  /** str.lstrip(): the string after its leading whitespace. */
  function TrimLeft(s: string): (r: string)
    ensures |r| <= |s|
    ensures r == [] || !IsSpace(r[0])
  {
    if s != [] && IsSpace(s[0]) then TrimLeft(s[1..]) else s
  }

  /** str.rstrip(): the string before its trailing whitespace. */
  function TrimRight(s: string): (r: string)
    ensures |r| <= |s|
    ensures r == [] || !IsSpace(r[|r| - 1])
  {
    if s != [] && IsSpace(s[|s| - 1]) then TrimRight(s[..|s| - 1]) else s
  }

  /** str.strip() */
  function Strip(s: string): string {
    TrimRight(TrimLeft(s))
  }

  /** lstrip() drops a whitespace prefix and nothing else. */
  lemma {:induction false} TrimLeftSlice(s: string)
    ensures TrimLeft(s) == s[|s| - |TrimLeft(s)|..]
    ensures AllSpace(s[..|s| - |TrimLeft(s)|])
  {
    if s != [] && IsSpace(s[0]) {
      TrimLeftSlice(s[1..]);
      var n := |s| - |TrimLeft(s)|;
      assert s[1..][..n - 1] == s[1..n];
    }
  }

  /** rstrip() drops a whitespace suffix and nothing else. */
  lemma {:induction false} TrimRightSlice(s: string)
    ensures TrimRight(s) == s[..|TrimRight(s)|]
    ensures AllSpace(s[|TrimRight(s)|..])
  {
    if s != [] && IsSpace(s[|s| - 1]) {
      var t := s[..|s| - 1];
      TrimRightSlice(t);
      var n := |TrimRight(s)|;
      assert t[n..] == s[n..|s| - 1];
      assert t[..n] == s[..n];
    }
  }

  /** strip() keeps a middle slice of the string, drops only whitespace
      around it, and leaves neither end whitespace. */
  lemma StripSpec(s: string)
    ensures Stripped(Strip(s))
    ensures exists i, j :: 0 <= i <= j <= |s| && Strip(s) == s[i..j] && AllSpace(s[..i]) && AllSpace(s[j..])
  {
    var l := TrimLeft(s);
    TrimLeftSlice(s);
    TrimRightSlice(l);
    var i := |s| - |l|;
    var j := i + |Strip(s)|;
    assert l[..|Strip(s)|] == s[i..j];
    assert l[|Strip(s)|..] == s[j..];
  }

  /** Trimming a string with no whitespace at that end changes nothing. */
  lemma TrimStripped(s: string)
    requires Stripped(s)
    ensures TrimLeft(s) == s && TrimRight(s) == s
  {
  }

  /** Stripping twice is stripping once, so the source's second strip()
      has no effect. */
  lemma StripIdempotent(s: string)
    ensures Strip(Strip(s)) == Strip(s)
  {
    StripSpec(s);
    TrimStripped(Strip(s));
  }

  /** str.replace for one character by another. */
  function Replace(s: string, a: char, b: char): (r: string)
    ensures |r| == |s|
  {
    seq(|s|, i requires 0 <= i < |s| => if s[i] == a then b else s[i])
  }

  /** Response.canonicalize_blocks */
  function Canonicalize(s: string): string {
    Replace(Strip(Strip(s)), DARK_THEME_ABSENT, LIGHT_THEME_ABSENT)
  }

  /** A canonical row has no dark square and no whitespace at either end. */
  lemma CanonicalizeSpec(s: string)
    ensures DARK_THEME_ABSENT !in Canonicalize(s)
    ensures Stripped(Canonicalize(s))
  {
    StripSpec(Strip(s));
  }

  /** A row that is already canonical is left as it is. */
  lemma CanonicalFixed(s: string)
    requires DARK_THEME_ABSENT !in s && Stripped(s)
    ensures Canonicalize(s) == s
  {
    TrimStripped(s);
  }

  /** Canonicalizing twice is canonicalizing once. */
  lemma CanonicalizeIdempotent(s: string)
    ensures Canonicalize(Canonicalize(s)) == Canonicalize(s)
  {
    CanonicalizeSpec(s);
    CanonicalFixed(Canonicalize(s));
  }

  /** A rendered response is already canonical. */
  lemma RenderCanonical(r: Response)
    ensures Canonicalize(Render(r)) == Render(r)
  {
    CanonicalFixed(Render(r));
  }

  /** A share as a dark-theme client shows it. */
  function RenderDark(r: Response): (s: string)
    ensures |s| == |r|
  {
    seq(|r|, i requires 0 <= i < |r| => if r[i] == Absent then DARK_THEME_ABSENT else Square(r[i]))
  }

  /** A row copied from either theme, with whitespace around it, becomes the
      light-theme rendering of its response. */
  lemma CanonicalizeShare(before: string, r: Response, after: string, dark: bool)
    requires AllSpace(before) && AllSpace(after)
    ensures Canonicalize(before + (if dark then RenderDark(r) else Render(r)) + after) == Render(r)
  {
    var row := if dark then RenderDark(r) else Render(r);
    RowFacts(r, dark);
    TrimAround(before, row, after);
    TrimStripped(row);
  }

  /** Either rendering has squares at both ends, and its dark squares
      turned light give the light-theme rendering. */
  lemma RowFacts(r: Response, dark: bool)
    ensures Stripped(if dark then RenderDark(r) else Render(r))
    ensures Replace(if dark then RenderDark(r) else Render(r), DARK_THEME_ABSENT, LIGHT_THEME_ABSENT) == Render(r)
  {
  }

  /** Stripping whitespace off both sides of a stripped middle gives the middle. */
  lemma TrimAround(before: string, mid: string, after: string)
    requires AllSpace(before) && AllSpace(after) && Stripped(mid)
    ensures Strip(before + mid + after) == mid
  {
    assert before + mid + after == before + (mid + after);
    LeftOff(before, mid + after);
    RightOff(mid, after);
    if mid == [] {
      assert mid + after == after;
      RightOff([], after);
      LeftOff(after, []);
      assert after + [] == after;
    }
  }

  /** lstrip() passes over leading whitespace. */
  lemma {:induction false} LeftOff(before: string, rest: string)
    requires AllSpace(before)
    ensures TrimLeft(before + rest) == TrimLeft(rest)
  {
    if before != [] {
      assert (before + rest)[0] == before[0] && IsSpace(before[0]);
      assert (before + rest)[1..] == before[1..] + rest;
      LeftOff(before[1..], rest);
    } else {
      assert before + rest == rest;
    }
  }

  /** rstrip() passes over trailing whitespace. */
  lemma {:induction false} RightOff(rest: string, after: string)
    requires AllSpace(after)
    ensures TrimRight(rest + after) == TrimRight(rest)
  {
    if after != [] {
      var n := |after| - 1;
      assert (rest + after)[|rest + after| - 1] == after[n] && IsSpace(after[n]);
      assert (rest + after)[..|rest + after| - 1] == rest + after[..n];
      RightOff(rest, after[..n]);
    } else {
      assert rest + after == rest;
    }
  }
}
