# wordle-brute, modelled in Dafny

wordle-brute holds two small Python programs that share one Wordle feedback rule.

* `wordle.py` searches the whole game tree as a two-player game. The **Host** splits the words still possible by the response a guess would get. It averages the **Player**'s scores of the parts, weighted by the size of each part. The **Player** tries every allowed guess and keeps the best one, adds one turn, and caches the result in a layered **PlayerScoreCache**. A **Histogram** counts how many games end after each number of guesses.
* `apexpredator.py` works out the day's word from the rows of coloured squares that people share. It builds a **Table** from each rendered row to the target words that some legal guess gives that row. Then it intersects the candidates with the table entry of each shared row.

The Dafny modules follow the programs:

| file | module | models |
|---|---|---|
| `responses.dfy` | `Responses` | `Response.from_guess` as a reference function (`Feedback`) and as the imperative two-pass algorithm over three arrays (`FromGuess`), with its properties |
| `histograms.dfy` | `Histograms` | `Histogram` as a class over a `seq<int>` field, with the sequence functions that specify it |
| `score_cache.dfy` | `Options`, `ScoreCache` | `Evaluation` as a datatype, `PlayerScoreCache` as a class whose `maps` field is a sequence of layers |
| `word_lists.dfy` | `WordLists` | `WordList.filter` |
| `search.dfy` | `Search` | `Host.score_position` and `Player.score_position`/`start` as mutually recursive methods of two classes, and the value of a search as mutually recursive ghost functions without the cache |
| `search_example.dfy` | `SearchExample` | the game tree of two distinct words, and `Player.start` on HONEY and MONEY, without a bound and with `max_depth` 1 |
| `apex_response.dfy` | `ApexResponse` | `make_response`, `Response.__str__` and `canonicalize_blocks` of `apexpredator.py` |
| `apex_table.dfy` | `ApexTable` | `Table.make_table` and the candidate-narrowing loop of `main` |

Modelling choices:

* Words are `seq<char>` and responses are `seq<Tag>`.
* Scores are `real`. The division at `wordle.py:233` is therefore exact.
* Iterating a Python set has no fixed order, while a dict iterates in insertion order. The model makes the set order explicit and follows the dict order:
  * the Player holds a listing `order` of all words, without repeats, and a word set is iterated as that listing filtered (`Search.Enumerate`), so each word of the set is visited once;
  * the Host's `by_response` dict is iterated in insertion order, so the response groups come in the order in which their first word arrives (`Search.KeysOf`);
  * the narrowing loop takes the shared patterns as a sequence `patterns` holding the same elements as the set.
* The meaning of a finished search is stated by `Search.EvalInv`. If every word of a set W was solved, the histogram counts each word once. The score, added up |W| times, then equals the sum of i·hist[i]. It follows that the score is the mean number of guesses.
* `Search.Free` is a sufficient condition for no Player call below a state to reach `max_depth`. Every turn removes at least the guessed word, except a forced first guess.
* `Search.PlayerValue`, `Search.SearchValue`, `Search.HostValues`, `Search.HValue` and `Search.ChildValues` define the value of a state without the cache and without the depth bound: the same case split, iteration order, first minimum and aggregation as the two `score_position` methods. The cache is **exact** (`Search.Player.Exact`) when every cached evaluation is that value of its word set. A new Player's empty cache is exact. The methods keep the cache exact and return these values in every search where `Search.Free` holds.
* `Search.BoundHValue` is the Host's value at the bound, `depth == max_depth`: every group other than the all-correct one costs `BIGNUM` with an empty histogram. In closed form the score is `BIGNUM` · |words − {guess}| / |words|, and the histogram is `[1]` if the guess is one of the words, `[]` otherwise (`Search.BoundHostValue`). The Host methods return that value at the bound, and the Player methods one turn above it, on a state not cached.
* A cached state answers before the forced guess is looked at (`wordle.py:283-288`). So a forced guess on a cached state returns the cached value of the unforced search, and the model states the value of the forced search only when the state is not cached.
* Termination of the mutual recursion is measured by (|words|, whether a guess is forced, the call's rank). Every response other than all-correct gives a strict subset, because the guess is drawn from the word set.

Some of the code's behaviour differs from what a description of the search would suggest. The model follows the code:

* The all-correct base case returns the histogram `[1]` at index 0, not a count at the current depth. The depth is added later by the `shift_right` of each Player level above (`wordle.py:280`, `301`).
* The depth penalty is the constant `BIGNUM` with an empty histogram. It is not proportional to the number of candidates, and it comes with no failure set (`wordle.py:281-282`).
* The penalty applies when `depth == max_depth`, not when the depth exceeds the bound. The search starts at depth 0, not 1 (`wordle.py:281`, `307`).
* The cache refuses exactly the scores above `BIGGISH` = 1000 (`wordle.py:107`, `256`).
* `WordList.filter` iterates `self.words`, which a `frozenset` does not have, so as written every call would raise `AttributeError`; nothing in the program calls it. `WordLists.Filter` models the evident intent, iterating the set itself.

## Model

| member | source | states |
|---|---|---|
| Responses.FromGuess | wordle.py:154-173 | the two passes over the three arrays return exactly the reference feedback `Feedback(target, guess)` for every pair of equal-length words |
| Responses.ExactPass | wordle.py:161-165 | after the first loop, a position is CORRECT and unavailable in both arrays exactly when guess and target agree there; every other position is ABSENT and available |
| Responses.ScanTarget | wordle.py:169-172 | the inner loop, which has no `break`, clears every available target position holding the letter, and marks the guess position PRESENT exactly when there was one |
| Responses.DisplacedPass | wordle.py:167-172 | the second loop, started from the state the first loop leaves, ends with the reference feedback in `result` |
| Responses.Feedback | wordle.py:154-173 | the response has one tag per guess position |
| Responses.AvailBeforeClosedForm | wordle.py:167-172 | when the second pass reaches guess position k, target position j is still available exactly when it was not matched in place and no earlier non-exact guess letter equals `target[j]` |
| Responses.FeedbackClosedForm | wordle.py:157-172 | position k is CORRECT iff `guess[k] == target[k]`; it is PRESENT iff it is not exact, it is the first non-exact occurrence of its letter, and some non-exact target position holds that letter |
| Responses.PresentHasWitness | wordle.py:169-172 | a PRESENT tag at i implies a target position j with `target[j] == guess[i]` that is not CORRECT |
| Responses.AllCorrect | wordle.py:175-176 | `all_correct`: every tag is CORRECT |
| Responses.AllCorrectIff | wordle.py:175-176 | `all_correct` holds for the feedback iff target == guess |
| Responses.CreditedSplit | wordle.py:157-172 | every guess position holding a letter with a tag other than ABSENT is an exact match or a PRESENT position of that letter |
| Responses.PresentAtMostOne | wordle.py:167-172 | the PRESENT positions holding a letter are no more than the non-exact target positions holding it |
| Responses.NoOvercredit | wordle.py:157-172 | for every letter, the guess positions holding it with a tag other than ABSENT are no more than its occurrences in the target |
| Responses.ConsumesAllMatches | wordle.py:169-172 | for target `XYEEZ` and guess `EEAAB`, the first E takes both open Es, so position 0 is PRESENT and position 1 is ABSENT |
| Histograms.Padded | wordle.py:53-54 | extending to index i gives length max(len, i + 1) and keeps every old entry, with 0 in the new ones |
| Histograms.Histogram.Get | wordle.py:52-55 | reading index i pads the list with zeros up to i and returns the old entry, or 0 beyond the old length |
| Histograms.Histogram.Set | wordle.py:57-60 | writing index i pads with zeros up to i, stores v at i and leaves every other entry as before |
| Histograms.Histogram.Update | wordle.py:62-64 | `update` leaves the elementwise sum of the two histograms, of length the larger of the two |
| Histograms.AddHistAt | wordle.py:62-64 | the elementwise sum has length max of the two, and entry i is old[i] + other[i], a missing entry counting 0 |
| Histograms.TotalAdd | wordle.py:62-64 | the total count of a sum of histograms is the sum of the totals |
| Histograms.WeightedAdd | wordle.py:62-64 | the guess-weighted count of a sum of histograms is the sum of the weighted counts |
| Histograms.Histogram.ShiftRight | wordle.py:66-67 | `shift_right` prepends 0 to the data |
| Histograms.ShiftRightFacts | wordle.py:66-67 | after prepending 0, entry 0 is 0, new[i+1] = old[i], the total is unchanged, and the weighted count grows by the total |
| Histograms.Histogram.constructor | wordle.py:47-50 | a new Histogram is empty |
| Histograms.Histogram.FromSeq | wordle.py:47-50 | a Histogram built from a list holds that list |
| ScoreCache.Less | wordle.py:87-88 | `Evaluation.__lt__`: the score is strictly smaller |
| ScoreCache.FirstHit | wordle.py:91-104 | the ChainMap lookup: the value in the first layer holding the key, or none |
| ScoreCache.PlayerScoreCache.Lookup | wordle.py:91-104 | the cache's lookup is the ChainMap lookup over its layers |
| ScoreCache.FirstHitSpec | wordle.py:91-104 | a ChainMap lookup finds nothing iff no layer holds the key, and otherwise returns the value of the first layer in order that holds it |
| ScoreCache.WriteFront | wordle.py:113 | after writing key := v into layer 0, a lookup of key returns v and every other lookup is unchanged |
| ScoreCache.PlayerScoreCache.constructor | wordle.py:103-104 | a new cache has exactly one empty layer, and records the threshold |
| ScoreCache.PlayerScoreCache.Get | wordle.py:283-286 | scanning the layers in order returns the ChainMap lookup, None standing for `KeyError` |
| ScoreCache.PlayerScoreCache.Add | wordle.py:106-113 | a score above `BIGGISH` leaves every layer unchanged; otherwise only layer 0 changes, by the write of the key |
| ScoreCache.PlayerScoreCache.Load | wordle.py:125-133 | `load` leaves a fresh empty layer followed by the given layers in order |
| WordLists.Must | wordle.py:196-197 | the letters of the guess at positions whose tag is not ABSENT |
| WordLists.MustNot | wordle.py:198-199 | the letters of the guess at ABSENT positions that are not in `must` |
| WordLists.Matches | wordle.py:200-201 | the (position, letter) pairs of the guess at CORRECT positions |
| WordLists.Filter | wordle.py:189-206 | the result is exactly the words w of the set with `from_guess(w, guess) == response`, the pre-checks rejecting none of them |
| WordLists.PreChecksSound | wordle.py:196-205 | a word consistent with the guess and the response passes the must, must-not and exact-position checks |
| WordLists.FirstOpenIsPresent | wordle.py:167-172 | if a non-exact guess position and a non-exact target position hold the same letter, some guess position with that letter is PRESENT |
| WordLists.FilterIdempotent | wordle.py:189-206 | filtering twice is the same as filtering once |
| Search.Enumerate | wordle.py:222 | iterating a set through the listing visits exactly the words of the set that the listing holds, each once when the listing has no repeats |
| Search.GroupBound | wordle.py:221-223 | every response group is part of the word set; the all-correct group holds at most the guess; any other group is strictly smaller than the set when the guess is in it |
| Search.PartitionSizes | wordle.py:221-225 | the sizes of the response groups add up to the size of the word set |
| Search.RemoveLastGroup | wordle.py:221-225 | taking away the last group leaves a partition of the remaining words by the remaining responses |
| Search.TimesIsProduct | wordle.py:233 | the repeated sum used in the score invariants is the product |
| Search.MeanGuesses | wordle.py:47-50 | for an evaluation of a nonempty set in which every word was solved, the score is the sum of i·hist[i] divided by the number of words |
| Search.WriteKeepsExact | wordle.py:302-303 | writing the cache-free value of a nonempty word set into layer 0 keeps the cache exact |
| Search.LookupExact | wordle.py:283-286 | a value found in an exact cache is the cache-free value of its nonempty word set |
| Search.AggregateTotal | wordle.py:234 | the summed histogram counts as many games as the groups hold words |
| Search.AggregateWeighted | wordle.py:233-234 | the size-weighted score, added up n times, is the weighted count of the summed histogram |
| Search.MeanOfParts | wordle.py:225-234 | when each child evaluation holds for its nonempty group, the aggregate counts every word and its score times the number of words is the weighted count |
| Search.HostAggregate | wordle.py:221-238 | for a partition of the word set into nonempty groups with sound child evaluations, the Host's aggregate evaluation is sound for the whole set |
| Search.StepKeepsInv | wordle.py:299-301 | adding one guess to the score and shifting the histogram right keeps an evaluation sound for its word set |
| Search.TimesPlusOne | wordle.py:300 | one more guess per word adds the number of words to the score sum |
| Search.FirstMinStep | wordle.py:292 | keeping the current best unless the next evaluation is strictly smaller yields the first index of the least score |
| Search.GroupIsChild | wordle.py:221-226 | every nonempty response group is the single guess word when all-correct, and otherwise a strict subset of the words (or any subset after a forced guess) |
| Search.ChildFree | wordle.py:281-282 | below a state that cannot reach the depth bound, a non-winning group cannot reach it either, and the all-correct group has exactly one word |
| Search.KeysPartition | wordle.py:221-225 | the groups built by response are nonempty, pairwise disjoint, cover the word set, each word yielding its group's response, and each is a valid child group |
| Search.AccumulateStep | wordle.py:233-234 | one more child adds its size-weighted score to the total and its histogram elementwise to the sum |
| Search.AddWord | wordle.py:223 | `by_response[from_guess(w, guess)].add(w)` keeps every group equal to the words seen so far with that response, and lists a response as a key when it first appears |
| Search.GroupByResponse | wordle.py:221-223 | after the loop, the keys are the distinct responses of the words, each mapped to exactly the words giving it, and they come in the dict's insertion order `KeysOf` |
| Search.KeysOfFacts | wordle.py:221-225 | the keys in insertion order are distinct, every word's response is one of them, and each is the response of some word |
| Search.HostKeys | wordle.py:221-226 | the cache-free Host's keys and groups partition the words, and each group is a valid child group |
| Search.PlayerValueResponse | wordle.py:279-280 | the cache-free Player looks at the Host's response only to see whether it is all CORRECT, which scores 0 with histogram [1] |
| Search.ArgMin | wordle.py:292 | the index chosen is the first one holding the least score, as `min` keeps it |
| Search.FirstMinUnique | wordle.py:292 | only one index holds the first least score, so the choice is determined |
| Search.PlayerValueSound | wordle.py:272-304 | the cache-free value of a state solves every word: its histogram counts each word once and its score is the mean number of guesses |
| Search.SearchSound | wordle.py:287-301 | the cache-free search step, one more guess than the first best Host value, keeps that meaning |
| Search.HostSound | wordle.py:213-238 | the cache-free Host value of a guess keeps it too, being the size-weighted mean of its children over the partition |
| Search.HostValueIs | wordle.py:221-238 | the Host's loops, once they have the groups of the keys and the cache-free values of the groups, compute the cache-free Host value |
| Search.SearchValueIs | wordle.py:288-301 | the Player's search step, given the cache-free Host values of the guesses and their first minimum, computes the cache-free search value |
| Search.SearchStepIs | wordle.py:287-301 | the same for the forced guess or every word, which gives the cache-free Player value and solves every word |
| Search.Host.ScorePosition | wordle.py:213-238 | the responses are the dict's keys in insertion order and their groups partition the words; the result is the size-weighted mean of the child scores and the elementwise sum of the child histograms; an all-correct group's child is (0, [1]); at `depth == max_depth` every other child is (`BIGNUM`, []) and the result is the bounded Host value `BoundHValue`; only cache layer 0 changes; on an exact cache, in a search that cannot reach the bound, the cache stays exact and the result is the cache-free Host value `HValue` |
| Search.Host.ScoreGroups | wordle.py:225-234 | the loop over the groups returns the weighted score and summed histogram of the child evaluations; an all-correct group's child is (0, [1]); at `depth == max_depth` every other child is (`BIGNUM`, []); on an exact cache out of reach of the bound, the children are the cache-free Player values of the groups, in order |
| Search.Host.ScoreNext | wordle.py:225-234 | one pass of that loop extends the weighted score, the histogram sum and the children by one group, an all-correct group's child being (0, [1]) and, at `depth == max_depth`, any other (`BIGNUM`, []); on an exact cache the children stay equal to the cache-free values |
| Search.Host.AddChild | wordle.py:233-234 | one loop step adds `len(words) * pev.score / len(wordlist)` to the score and adds the child histogram into the running histogram |
| Search.Host.ScoreGroup | wordle.py:226-229 | one Player call on a group: an all-correct response gives (0, [1]); any other response at `depth == max_depth` gives (`BIGNUM`, []); on an exact cache out of reach of the bound, the cache stays exact and the result is the cache-free Player value of the group after that response |
| Search.Player.constructor | wordle.py:254-256 | a new Player over a listing without repeats has a cache with one empty layer and threshold `BIGGISH`, which is exact |
| Search.Player.TryNext | wordle.py:290-292 | one pass of the guess loop: the Host evaluation of the next guess is appended, the first least index is kept, and the evaluations stay equal to the cache-free Host values on an exact cache and to the bounded Host values at the bound |
| Search.Player.TryGuesses | wordle.py:288-292 | the Host is called once per allowed guess, in order; the chosen index is the first one with the least score; at `depth == max_depth` the evaluations are the bounded Host values `BoundHValue` of the guesses; on an exact cache out of reach of the bound, the evaluations are the cache-free Host values of the guesses |
| Search.Player.ScorePosition | wordle.py:272-304 | an all-correct response gives score 0 and histogram [1]; reaching `max_depth` gives `BIGNUM` with an empty histogram; a cached state returns the cached value; otherwise the result is 1 + the first least Host score, that guess as best word and the histogram shifted right, cached only when no guess was forced and the score is at most `BIGGISH`; one turn above the bound, on a state not cached, the Host evaluations of the guesses are the bounded Host values; on an exact cache and out of reach of the bound, the cache stays exact, every word is solved, and the result is the cache-free Player value unless a forced guess meets a cached state |
| Search.Player.CachedOrSearch | wordle.py:283-304 | a cached state answers with its cached value and leaves the cache alone; otherwise the search step runs and its result is written to layer 0 when no guess was forced; one turn above the bound, on a state not cached, the Host evaluations are the bounded Host values; on an exact cache out of reach of the bound, the result is the cache-free value |
| Search.Player.SearchStep | wordle.py:287-301 | the guesses are the forced one or every word in order; the result is one more than the first least Host score, with that guess and the histogram shifted right; one turn above the bound the Host evaluations are the bounded Host values; on an exact cache out of reach of the bound, it is the cache-free value |
| Search.Player.Start | wordle.py:306-308 | with `max_depth` 0 the root gets the penalty and the cache is unchanged; otherwise the root is either the cached value or the search step over the forced guess or every word, written to layer 0 as `score_position` does; with `max_depth` 1 and the state not cached, the Host evaluations are the bounded Host values; on an exact cache (a new Player's is) and out of reach of the bound, the result is the cache-free Player value unless a forced guess meets a cached state, the histogram counts every word once and the score is the mean number of guesses |
| Search.BoundChildren | wordle.py:281-282 | the Player's value at the bound of each group, one per response: (0, [1]) for all CORRECT, (`BIGNUM`, []) otherwise |
| Search.BoundValueIs | wordle.py:221-238 | the Host's loops, with the all-correct children (0, [1]) and every other child (`BIGNUM`, []), compute the bounded Host value |
| Search.BoundGroup | wordle.py:221-223 | a nonempty all-correct group is the guess alone, and any other group does not hold the guess |
| Search.BoundChildrenPrefix | wordle.py:225-229 | the bounded children of a prefix of the responses are that prefix of the bounded children |
| Search.BoundHistStep | wordle.py:234 | adding a group's bounded histogram to that of the words outside it gives the bounded histogram of all; only the all-correct group adds a game |
| Search.EmptyPartition | wordle.py:221-225 | a partition by no responses is of the empty word set |
| Search.ShareAdd | wordle.py:233 | two size-weighted shares of the same score add up to the share of the joint size |
| Search.SizesSplit | wordle.py:225-234 | at the bound the group sizes add up to the words paying the penalty plus the games won |
| Search.BoundScore | wordle.py:233 | at the bound the weighted score is the `BIGNUM` share of the words outside the all-correct groups |
| Search.BoundHist | wordle.py:234 | at the bound, over a partition into nonempty groups, the summed histogram is [1] when the guess is one of the words and [] otherwise |
| Search.PenaltyCount | wordle.py:221-225 | over such a partition, the words paying the penalty are exactly the words other than the guess |
| Search.BoundParts | wordle.py:221-238 | over such a partition the weighted score is `BIGNUM` · |words − {guess}| / |words| and the histogram is [1] exactly when the guess is one of the words |
| Search.BoundHostValue | wordle.py:213-238 | the bounded Host value of a nonempty word set in closed form: score `BIGNUM` · |words − {guess}| / |words|, no best word, histogram [1] if the guess is one of the words and [] otherwise |
| Search.KeysOfStep | wordle.py:222-223 | the insertion-order keys of one more word are the old keys, with that word's response appended when it is new |
| Search.PlayerValue | wordle.py:272-304 | the reference value of a state without cache or bound: (0, [1]) after an all-correct response, else the search step over the forced guess or every word in order |
| Search.SearchValue | wordle.py:288-301 | the reference search step: one more guess than the first least Host value, with that guess and the histogram shifted right |
| Search.HostValues | wordle.py:288-292 | the reference Host value of each guess, in order, one per guess |
| Search.HValue | wordle.py:213-238 | the reference Host value: the size-weighted mean of the children over the response groups in insertion order, and the sum of their histograms |
| Search.ChildValues | wordle.py:225-229 | the reference Player value of each group after its response, one per key |
| SearchExample.PairAtBound | wordle.py:213-238 | at the bound, guessing either of two words scores `BIGNUM`/2 = 500000 with histogram [1] |
| SearchExample.BoundChoice | wordle.py:292-301 | between two equal Host evaluations the first guess is kept, and the result is one guess more |
| SearchExample.StartAtBoundOnPair | wordle.py:254-308 | `Player.start` with `max_depth` 1 on a new Player over two distinct words returns score 500001, the first word, histogram [0, 1] |
| SearchExample.StartAtBoundOnHoneyMoney | wordle.py:254-308 | the same over HONEY and MONEY: score 500001, best word HONEY, histogram [0, 1] |
| SearchExample.FreshMiss | wordle.py:103-104 | a new cache's one empty layer holds no word set |
| SearchExample.EnumeratePair | wordle.py:222 | the listing `[a, b]` iterates `{a, b}` as a then b, and `{a}` and `{b}` as themselves |
| SearchExample.PairKeysGroups | wordle.py:221-225 | guessing either of two distinct words, the Host's keys are the responses of a, then b, and the groups are `{a}` and `{b}` |
| SearchExample.SoloPlayer | wordle.py:279-304 | a single word left after a wrong guess takes one more guess: score 1, that word, histogram [0, 1] |
| SearchExample.PairHostFirst | wordle.py:213-238 | the Host's value of guessing the first of two words is score 0.5 with histogram [1, 1] |
| SearchExample.PairHostSecond | wordle.py:213-238 | guessing the second word gives the same value |
| SearchExample.PairValue | wordle.py:272-304 | the cache-free value of two distinct words is 1.5 guesses on average, the first listed word as best word (both tie), and histogram [0, 1, 1] |
| SearchExample.StartOnHoneyMoney | wordle.py:254-308 | `Player.start` on a new Player over HONEY and MONEY returns score 1.5, best word HONEY and histogram [0, 1, 1] |
| ApexResponse.MakeResponse | apexpredator.py:48-67 | the array algorithm returns the same tags as wordle.py's `from_guess` for every pair of equal-length words |
| ApexResponse.ExactStep | apexpredator.py:55-59 | one step of the first loop moves the availability and the tags to those of the next prefix |
| ApexResponse.ExactDone | apexpredator.py:55-59 | when the first loop ends, the arrays hold the state the second pass starts from |
| ApexResponse.AvailStep | apexpredator.py:61-66 | a guess letter takes part in the second pass exactly when it was not an exact match, and then it consumes its letter from the available target positions |
| ApexResponse.DisplacedStep | apexpredator.py:61-66 | one step of the second loop fixes the tag of position i to the reference tag and changes no other position |
| ApexResponse.DisplacedDone | apexpredator.py:61-67 | when the second loop ends, the result is the reference feedback |
| ApexResponse.Square | apexpredator.py:20-22 | `SQUARES[tag]`: the light grey, yellow and green squares |
| ApexResponse.Render | apexpredator.py:43 | the rendered string has one glyph per tag, namely `SQUARES[tag]` |
| ApexResponse.ParseRender | apexpredator.py:20-22 | reading the glyphs back gives the response again |
| ApexResponse.RenderInjective | apexpredator.py:43 | two responses render to the same string iff they are equal |
| ApexResponse.TrimLeft | apexpredator.py:32 | stripping the left end never lengthens the string and leaves no whitespace at its start |
| ApexResponse.TrimRight | apexpredator.py:32 | stripping the right end never lengthens the string and leaves no whitespace at its end |
| ApexResponse.TrimLeftSlice | apexpredator.py:32 | the left strip is a suffix of the input, and everything cut off is whitespace |
| ApexResponse.TrimRightSlice | apexpredator.py:32 | the right strip is a prefix of the input, and everything cut off is whitespace |
| ApexResponse.StripSpec | apexpredator.py:32 | `strip` returns a slice of the input with no whitespace at either end, and only whitespace is removed |
| ApexResponse.Strip | apexpredator.py:32 | `str.strip` as the left strip of the right strip |
| ApexResponse.StripIdempotent | apexpredator.py:32-33 | stripping twice is the same as stripping once |
| ApexResponse.Replace | apexpredator.py:33-34 | replacing one character by another keeps the length |
| ApexResponse.Canonicalize | apexpredator.py:31-34 | `canonicalize_blocks`: strip, strip again, then replace the dark-theme square by the light one |
| ApexResponse.CanonicalizeSpec | apexpredator.py:31-34 | the canonical form holds no dark-theme square and has no whitespace at either end |
| ApexResponse.CanonicalFixed | apexpredator.py:31-34 | a string with no dark-theme square and no outer whitespace is its own canonical form |
| ApexResponse.CanonicalizeIdempotent | apexpredator.py:31-34 | canonicalizing twice is the same as canonicalizing once |
| ApexResponse.RenderCanonical | apexpredator.py:31-43 | a rendered response is already canonical |
| ApexResponse.RenderDark | apexpredator.py:24 | a dark-theme rendering has one glyph per tag |
| ApexResponse.CanonicalizeShare | apexpredator.py:24-34 | a shared row with surrounding whitespace, in either theme, canonicalizes to the light rendering of its response |
| ApexResponse.TrimAround | apexpredator.py:32 | whitespace around a string whose ends are not whitespace is stripped back to that string |
| ApexResponse.LeftOff | apexpredator.py:32 | leading whitespace does not change the left strip |
| ApexResponse.RightOff | apexpredator.py:32 | trailing whitespace does not change the right strip |
| ApexTable.MakeTable | apexpredator.py:75-90 | the filled map holds exactly the (row, target) pairs of every target with every guess other than it, and no key maps to an empty set |
| ApexTable.AddPair | apexpredator.py:88 | `data[bs].add(t)` records exactly one more pair and keeps every set nonempty |
| ApexTable.TableMembership | apexpredator.py:75-90 | t is listed under row bs iff t is a target and some guess g other than t renders bs against it |
| ApexTable.NoAllGreen | apexpredator.py:86 | the all-green row is never a key, since only the skipped guess g == t answers all CORRECT |
| ApexTable.SharePatterns | apexpredator.py:141-142 | every pattern taken from the shares holds no dark-theme square and has no outer whitespace |
| ApexTable.SetOf | apexpredator.py:143 | `set(target_words)` holds exactly the target words |
| ApexTable.Step | apexpredator.py:146-153 | one pass of the loop: a pattern in the table whose candidates meet the current ones replaces them by the intersection; otherwise they stay |
| ApexTable.Narrowed | apexpredator.py:146-153 | the loop's candidates after the patterns in order, as a left fold of `Step` |
| ApexTable.Narrow | apexpredator.py:141-153 | the loop leaves the fold of the patterns over `set(target_words)`, a subset of the targets, nonempty when the targets are |
| ApexTable.NarrowedShrinks | apexpredator.py:145-153 | the candidates never grow, and never become empty when they start nonempty |
| ApexTable.NarrowedMonotone | apexpredator.py:145-153 | later patterns only shrink what an earlier prefix of the patterns left |
| ApexTable.NarrowedAt | apexpredator.py:146-153 | after an accepted pattern every later candidate is listed under it; a pattern missing from the table or emptying the candidates changes nothing |
| ApexTable.DeduceSound | apexpredator.py:141-153 | with the table `make_table` builds, a candidate left after an accepted pattern is a target that some other guess word gives that pattern |

## Left out

- The command line, reading the word and share files, and printing the results are I/O (`wordle.py:311-358`, `apexpredator.py:110-139`, `155-156`). The narrowing loop of `apexpredator.py:141-153` is modelled on its own as `ApexTable.Narrow`. Its input is the list of share rows.
- Pickle persistence is file I/O: `save_all`, `save_new`, the file handling and the `FileNotFoundError` branch of `load`, and `Table.load`/`save`. `PlayerScoreCache.Load` takes the deserialised layers as a parameter. A missing file simply contributes no layer.
- Whether `make_table` or `Table.load` fills the table is a file-system choice (`apexpredator.py:134-139`). The deduction lemmas that depend on the table's contents assume the `make_table` table.
- `multiprocessing.Pool`, the `_BoundHostCall` wrapper and the `procs` parameter are concurrency (`wordle.py:258-270`, `290-295`), and only the sequential loop of `wordle.py:292` is modelled. `pool.map` keeps input order. But each pool task scores with its own copy of the player and its cache, and their cache writes never reach the parent's cache. In a search that cannot reach `max_depth` every cache entry is the cache-free value, so the pool returns the same result. In a depth-bounded search the cache hits, and with them the scores, can differ from the sequential loop's.
- Logging and the `debug_host_depth`/`debug_player_depth` globals only produce output.
- `Histogram.to_chart` and wordle.py's `Response.__str__` with `DEBUGCHAR` are text rendering with float scaling.
- The `__hash__` methods are Python hashing. Equality of tag sequences stands for `__eq__`.
- Floating-point rounding in the score is not modelled: scores are exact reals.
- The iteration order of `frozenset` and `set` is unspecified. It is given explicitly by the listing, as described above.
- Negative indexes into a `Histogram` (Python's count from the end) are not modelled. Indexes are `nat`, matching every use in the program.
- ScoreCache.Evaluation: `best_word` of None and of `''` are both the empty word. Both are falsy, and the program tests them only for truth. A forced guess of `''` is modelled as no forced guess for the same reason (`wordle.py:288`, `302`).
- Search.Player.ScorePosition: requires a forced guess or a nonempty word set, at every depth. With an empty set and no forced guess, the source returns `BIGNUM` when `depth == max_depth`, or the cached value when the empty set is cached. Otherwise it raises `ValueError` from `min` of an empty sequence. None of these paths is modelled for the empty set. The Host never hands the Player an empty group.
- Search.Player.ScorePosition: the tie to the cache-free value, and the soundness of the result (`EvalInv`), are proved only for searches that cannot reach `max_depth`, on an exact cache. A search that reaches the bound mixes `BIGNUM` into the score, as the program intends, and may cache values that depend on the depth.
- `(ev, best_word)` pairs compared by `min`: two distinct `Evaluation` objects never compare equal, so ties in score keep the first pair. `Search.Player.TryGuesses` states that tie-break directly, without comparing words.
- Search.Host.ScorePosition: the children of the non-winning groups are stated exactly only at `depth == max_depth` (`BIGNUM`) and in searches where `Search.Free` holds (the cache-free values). Between the two, a child comes from a cache whose entries may have been computed at other depths, and the model ties it to no reference value.
- Search.Host.ScoreGroups: the same limitation as `Search.Host.ScorePosition` applies to its children.
- Search.Host.ScoreNext: the same limitation as `Search.Host.ScorePosition` applies to the child it adds.
- Search.Host.ScoreGroup: the Player's evaluation of a non-winning group is stated exactly only at the bound and where `Search.Free` holds, for the same reason.
- Search.Player.TryGuesses: the Host evaluations are stated exactly only at the bound (`BoundHValue`) and where `Search.Free` holds (`HValue`). More than one turn above the bound outside `Search.Free`, they depend on the cache contents, and the model states only the first-minimum choice among them.
- Search.Player.TryNext: the same limitation as `Search.Player.TryGuesses` applies to the evaluation it appends.
- Search.Player.SearchStep: the Host evaluations are stated exactly only one turn above the bound and where `Search.Free` holds. Otherwise they are cache-dependent, as for `Search.Player.TryGuesses`.
- Search.Player.CachedOrSearch: the same limitation as `Search.Player.SearchStep`, and a cache hit returns whatever evaluation the cache holds for the word set.
- Search.Player.Start: the root is stated exactly for `max_depth` 0, for the Host evaluations at `max_depth` 1 on a state not cached, and where `Search.Free` holds. For any other `max_depth`, the Host evaluations below the root are cache-dependent as above.
- Iteration order of sets: the source iterates a subset of the words in CPython's own `frozenset` order, which need not be the order of the filtered global listing that `Search.Enumerate` uses. The Host's score and the summed histogram do not depend on the order. When several guesses tie for the least score, though, the best word is the first of them in one particular order, and so is the histogram kept with it. The model follows one fixed order.
- Word-length assertions: `Responses.FromGuess` (`wordle.py:156`), `ApexResponse.MakeResponse` (`apexpredator.py:50`), `ApexTable.MakeTable` (its `SameLengths`) and the Player's `Valid`/`InOrder` word length take the source's `assert len(target) == len(guess)` as a precondition. A word of another length makes the program raise `AssertionError`, and that path is not modelled.
