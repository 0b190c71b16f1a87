# yeti-pg-ext: a verified model of its algorithms

yeti-pg-ext is a PostgreSQL extension for call routing. Beside thin SQL wrappers it holds a handful of
hand-written algorithms over byte buffers and shared state. This project models those algorithms in Dafny
and proves what they guarantee for every input, every run, every random draw and every behaviour of the
network. `dafny verify dfyconfig.toml` checks the whole project; everything here is a proof, and nothing
was executed.

Each algorithm appears twice: as a method in the shape of the C code (same loops, same branches, same
mutable state), and as a short reference definition on values that says what the result means. The
method's contract ties the two together, and the laws are proved about the reference definition.

| modules | part of the extension | main results |
|---|---|---|
| `SplitRules`, `RegexpRewrite`, `RegexpReplaceRand`, `SecondRow` | `regexp_replace_rand`: rules and results, several pairs separated by double bars | the scalar loop takes the first pair that hits; the array loop is described exactly, with the conditions under which the two agree and under which a call frame can serve a second row |
| `Numerals`, `ReplaceRand`, `ReplaceRandProperties` | `replace_rand`: `r(N)` placeholders | three passes over a growing cache equal one recursive expansion; a second expansion finds and changes something if and only if the text rejoins a placeholder |
| `Templates` | `process_templates`: `{{vars.x}}` | the scanner reads a grammar whose parse and print are inverse; idempotence if and only if no opening token is left |
| `TokenBucket`, `TokenBucketProperties` | `tbf_rate_check` | rate bound in every window, no needless refusal, independence of buckets, invisibility of refusals |
| `SrvRank` | `rank_dns_srv` | ranks are a permutation; exactly which rankings some draws reach, and by how many tuples of residues |
| `TagSets` | `tag_compare`, `tag_action` | both are set algebra on distinct values, and they agree with each other |
| `UriParser`, `Pdu`, `Resolver`, `ResolverProperties` | LNP/CNAM resolver: endpoint ring, failover, receive loop, datagrams | over any number of calls a successful response answers the last request sent, and exactly which additional arrivals change an outcome; failover visits each endpoint at most once and never passes one to which sends fail; error pointer if and only if failure |
| `Texts`, `Collections` | shared | byte searches, facts about sequences and sets |

## What the code does that its documentation or its own shape does not suggest

- The changelog (debian/changelog:155) speaks of ten chunks; both loops stop after nine pairs
  (src/f_regexp_replace_rand.c:276 and 586). `TenthPairIgnored` states it; `NineAreEnough` and `TenthIsMissed`
  say for which texts ten would make a difference.
- Three exits of the array loop (src/f_regexp_replace_rand.c:586-597) fall into the code that was meant
  for a text without tokens, so one more, differently cut pair is tried. `Fallback` names that pair,
  `ArrayAgrees` and `ArrayDiverges` say for which rule and result texts some engine makes this visible,
  `VersionsDiffer` says it for each engine and input, and `TrailingToken` is an example: rule `a` and
  then a token at the end of the text lets the array version try the empty rule.
- Without variables a chunk of the rule stays in its argument slot when a call returns, and without
  variables and random digits a chunk of the result too (src/f_regexp_replace_rand.c:308-316 and 626-634).
  `ReplaceText` and `ReplaceArray` say what the slots hold. `SecondRowAgrees` and `SecondRowDiffers` say
  exactly for which rules and results (without variables, and without a placeholder in the whole result) a
  frame that serves a second row as it stands answers as a fresh one, for the scalar and for the array
  function; `SecondCallAgrees` and `SecondCallDiffers` say it for the
  scalar loop alone.
- `replace_rand` is not idempotent when a placeholder of length zero vanishes between an `r` and a `(`:
  `rr(0)(5)` becomes `r(5)`. `Rejoins` decides this from the text alone, before any digit is drawn
  (`ExpandIsIdempotent`, an equivalence).
- A template variable whose value is itself a placeholder can make a second expansion change the text
  (`ValueMayBePlaceholder`). `IdempotentIff` is exact for a second expansion with any variables; with the
  same variables again its condition is sufficient only, as a value that is its own placeholder shows
  (`ValueMayBeItself`).
- RFC 2782 ("The format of the SRV RR", Weight) puts records of weight zero first in the list before
  the selection; the code keeps the rows in their order, so a row of weight zero waits for all rows
  before it (`ReachableOrders`).
- A database id outside a byte, or tagged request data of 256 bytes and more, is sent with the low byte
  only (src/resolver.c:327-329). `RequestRoundTrip` has both conditions.
- A failed send does not fail over: the message goes out at a log level that raises an error
  (src/log.h:8), so the call is aborted (src/resolver.c:193-201). `AbortsIffSendFails` says exactly when, and
  on which endpoint the position then stays. `NeverPassed` and `StuckAtFailingSend` say what that means for
  later calls: endpoints behind one to which sends fail are never asked; `SecondEndpointNotAsked` is an
  example.
- A late error reply is not passed over like a late data reply: the remote code is looked at before the id
  (src/resolver.c:470-486), and the call ends (src/resolver.c:255-257). The error that answers a request
  given up before becomes the result of the next call (`LateErrorIsTaken`). `AdditionalArrival` and
  `HarmlessBeforeAnswer` say exactly which arrivals leave an outcome alone.
- For a request type that is neither tagged nor CNAM a failing call leaves the error pointer unset
  (src/resolver.c:295-304); `ErrorIffFailure` has the exact condition.

## Reading guide

`Texts.Option` stands for NULL and for null pointers. The regular-expression engine is a record of three
arbitrary functions (`RegexpRewrite.Engine`), the random generators are arbitrary streams, the clock is a
number in each call, and the network is a record of arbitrary choices (`Resolver.Network`). "Capacity" of a
bucket with rate r is max(1, floor(2r)).

## Model

| member | source | states |
|---|---|---|
| SplitRules.SearchSplitToken | src/f_regexp_replace_rand.c:38-57 | finds the leftmost double bar, although it skips two characters after a lone bar |
| SplitRules.AtChunk | src/f_regexp_replace_rand.c:255-298 | what the token search from the start of a chunk tells: where it ends, whether it is the last, whether an empty last chunk follows |
| SplitRules.JoinChunks | src/f_regexp_replace_rand.c:38-57 | the chunks of a text, joined by double bars, give the text back |
| SplitRules.ChunksWellSplit | src/f_regexp_replace_rand.c:38-57 | no chunk holds a double bar and no chunk but the last ends in a bar |
| SplitRules.ChunksJoin | src/f_regexp_replace_rand.c:38-57 | every list of that form is the splitting of its joined text, so splitting is a bijection |
| SplitRules.JoinFrom | src/f_regexp_replace_rand.c:608 | the rest of the text from a chunk's start is the join of the chunks from there on |
| RegexpRewrite.FirstHitIsLeast | src/f_regexp_replace_rand.c:255-272 | the pair taken is the least one whose rule compiles and matches; none when no tried rule does |
| RegexpRewrite.FirstFit | src/f_regexp_replace_rand.c:77-160 | the least of the first nine pairs, empty texts behind the last token left out, whose rule compiles and matches decides in both versions: by the substituted text, but the input when that is empty and empty texts are not kept, or when the engine throws; it is what the slots are left with |
| RegexpRewrite.NoFit | src/f_regexp_replace_rand.c:254-302 | where none of these fits the input comes back, in the array version unless a further pair fits; the slots are left with the last pair tried |
| RegexpRewrite.FurtherPair | src/f_regexp_replace_rand.c:586-617 | for which rule and result texts the array version tries a further pair, and which texts that pair is |
| RegexpRewrite.Attempt | src/f_regexp_replace_rand.c:269-288 | after all earlier pairs missed, a hit or the end of the usable pairs makes this pair decide the scalar result |
| RegexpRewrite.AttemptElement | src/f_regexp_replace_rand.c:563-582 | the same for an array element, where only a hit or a natural end decides |
| RegexpRewrite.BreakLeavesFallback | src/f_regexp_replace_rand.c:586-617 | leaving the array loop by the pair limit or an empty last chunk hands the decision to one precisely described further pair |
| RegexpRewrite.CallFrame.Apply | src/f_regexp_replace_rand.c:77-160 | whether the rule compiles and matches, and the text: what the engine substitutes unless that is empty and empty texts are not kept; the input when the rule is bad or misses, or the engine throws |
| RegexpRewrite.CallFrame.AttemptPair | src/f_regexp_replace_rand.c:255-272 | the chunks cut into the argument slots and the outcome of trying them |
| RegexpRewrite.Advance | src/f_regexp_replace_rand.c:274-288 | the loop goes on exactly while the next pair is usable, with the pointers at the next chunks, or where the break leaves them |
| RegexpRewrite.CallFrame.Tail | src/f_regexp_replace_rand.c:291-302 | which texts the tail code puts into the slots, and what it makes of them |
| RegexpRewrite.LastRule | src/f_regexp_replace_rand.c:291-302 | without a further rule token the tail decides the reference result in both versions, provided an uncut slot is current |
| RegexpRewrite.LatePair | src/f_regexp_replace_rand.c:601-613 | after an early break the tail tries the fallback pair, whatever an earlier element left in the slots |
| RegexpRewrite.CallFrame.RewriteScalar | src/f_regexp_replace_rand.c:239-302 | the result is the outcome of the first pair that hits among the usable pairs, at most nine, else the input; the slots are left with the pair tried last |
| RegexpRewrite.CallFrame.RewriteOne | src/f_regexp_replace_rand.c:543-618 | one element gets its exact result from slots an earlier element has overwritten, and leaves the pair it tried last, fit for the next |
| RegexpRewrite.CallFrame.RewriteArray | src/f_regexp_replace_rand.c:514-626 | every element is rewritten on its own, NULL elements stay, the input argument is restored, the slots are those of the last element that is not NULL |
| RegexpRewrite.SlotsFollow | src/f_regexp_replace_rand.c:530-619 | after an array the slots are those of its last element that is not NULL, or untouched |
| RegexpRewrite.ArrayAgrees | src/f_regexp_replace_rand.c:529-619 | the array version does what the scalar version does unless the fallback pair has a rule not yet tried |
| RegexpRewrite.ArrayDiverges | src/f_regexp_replace_rand.c:586-617 | otherwise some engine and some input tell the two apart: the condition is exact |
| RegexpRewrite.VersionsDiffer | src/f_regexp_replace_rand.c:529-619 | for a given engine and input the versions differ if and only if no usable rule hits, there is a fallback pair, and it changes the input |
| RegexpRewrite.TrailingToken | src/f_regexp_replace_rand.c:590-617 | a rule text that ends in a token makes the array version try the empty rule where the scalar one returns the input |
| RegexpRewrite.PlainRulesAgree | src/f_regexp_replace_rand.c:529-619 | up to nine rules and no empty last chunk: the array version is the scalar version on each element |
| RegexpRewrite.TenPairsDiverge | src/f_regexp_replace_rand.c:586-588 | with ten or more pairs the two versions always can differ |
| RegexpRewrite.TenthPairIgnored | src/f_regexp_replace_rand.c:276-278 | the scalar result does not depend on any pair after the ninth |
| RegexpRewrite.NineAreEnough | src/f_regexp_replace_rand.c:276-278 | a limit of ten pairs would give what the nine give, unless there is a tenth usable pair with a new rule |
| RegexpRewrite.TenthIsMissed | src/f_regexp_replace_rand.c:276-278 | and then some engine and input tell the documented limit from the real one |
| RegexpRewrite.SecondCallAgrees | src/f_regexp_replace_rand.c:239-302 | with what the loop leaves in the slots a second walk of it answers as a first one, when all usable rules are one and so are the first and last result |
| RegexpRewrite.SecondCallDiffers | src/f_regexp_replace_rand.c:239-302 | otherwise some engine and two inputs make the second answer wrong: that condition is exact |
| RegexpReplaceRand.ReplaceText | src/f_regexp_replace_rand.c:163-322 | NULL and empty arguments, digits drawn before variables are filled in, the reference rewriting, and which slots are restored |
| RegexpReplaceRand.ReplaceArray | src/f_regexp_replace_rand.c:440-636 | the same for arrays, each element by the exact array rule |
| RegexpReplaceRand.InsertedValuesStay | src/f_regexp_replace_rand.c:205-237 | values that variables insert into the result get no random digits and are not scanned again |
| RegexpReplaceRand.DigitsThenValue | src/f_regexp_replace_rand.c:205-237 | in a result text number placeholders become digits first, then variables their values; without a JSON object these stay |
| RegexpReplaceRand.VarsOnlyFromObject | src/f_regexp_replace_rand.c:218-237 | only a JSON object fills in variables, by the meaning of the template |
| RegexpReplaceRand.VarsNeedToken | src/f_regexp_replace_rand.c:218-237 | the texts no variables argument changes are exactly those without `{{` |
| RegexpReplaceRand.PrepareSlots | src/f_regexp_replace_rand.c:205-237 | the slots hold the expanded texts, and exactly the originals that the end of the call will restore are kept |
| SecondRow.SecondRowAgrees | src/f_regexp_replace_rand.c:200-316 | without variables and for a result without random digits: with the slots a first row left, a second row is answered as on a fresh frame by the scalar and by the array function, if all usable rules are one, not empty, its result holds no placeholder, and what a miss leaves reads the same |
| SecondRow.SecondRowDiffers | src/f_regexp_replace_rand.c:475-634 | otherwise some engine, two inputs and some digits make the second answer wrong: the condition is exact for both functions |
| Numerals.ParseDecimal | src/replace_rand.c:82 | reading a printed number gives the number |
| Numerals.ParseSigned | src/replace_rand.c:82 | blanks, a sign or none, a printed number and whatever does not go on with a digit are read as that number |
| Numerals.ParseNothing | src/replace_rand.c:82-85 | without a digit there nothing is read |
| ReplaceRand.FindPlaceholders | src/replace_rand.c:54-118 | the cache ends up with exactly the placeholders of the reference definition, in order |
| ReplaceRand.Cache.Push | src/replace_rand.c:97-116 | growing keeps every recorded placeholder, and there is always room for the next |
| ReplaceRand.NoClose | src/replace_rand.c:70-78 | after an `r(` without closing bracket nothing further is complete |
| ReplaceRand.Closed | src/replace_rand.c:80-95 | a closed `r(` is a placeholder with its clamped number, or is stepped over when it holds none |
| ReplaceRand.AtPlaceholder | src/replace_rand.c:113-157 | recorded placeholders lie in order without overlap, and the expansion goes from one to the next |
| ReplaceRand.OutputSize | src/replace_rand.c:128-134 | the size computed is the exact length of the expansion and never drops below zero on the way |
| ReplaceRand.AppendDigits | src/replace_rand.c:153-154 | exactly the asked number of fresh digits is written, behind what is there |
| ReplaceRand.WriteOutput | src/replace_rand.c:144-158 | the buffer of that size is filled completely with the expansion |
| ReplaceRand.Replace | src/replace_rand.c:34-162 | the three passes give the expansion, and report a replacement exactly when there is a placeholder |
| ReplaceRandProperties.RescanExact | src/replace_rand.c:56-158 | the output holds a placeholder if and only if the text rejoins one, for all digits drawn |
| ReplaceRandProperties.FirstCloseIsExact | src/replace_rand.c:70-157 | what the output holds before its first closing bracket is known from the text, up to the digits drawn |
| ReplaceRandProperties.TwoStreamsTellAll | src/replace_rand.c:149-157 | two digit streams show which characters of an expansion are drawn; with any other stream only those differ |
| ReplaceRandProperties.FewerR | src/replace_rand.c:144-158 | every placeholder takes an `r` out of the text, so an expansion with placeholders is never the text itself |
| ReplaceRandProperties.FixedIffNothingFound | src/replace_rand.c:54-158 | a text is its own expansion if and only if it holds no placeholder |
| ReplaceRandProperties.ExpandIsIdempotent | src/replace_rand.c:56-158 | expanding the output again, with whatever digits, changes nothing if and only if nothing rejoins |
| ReplaceRandProperties.PositiveNeverRejoins | src/replace_rand.c:87-95 | nothing rejoins when every placeholder asks for at least one digit |
| ReplaceRandProperties.ZeroLengthJoins | src/replace_rand.c:87-89 | `rr(0)(5)` expands to the placeholder `r(5)` |
| ReplaceRandProperties.RunToCut | src/replace_rand.c:56-84 | scanning the output finds nothing inside a copied literal |
| ReplaceRandProperties.ExpandShifts | src/replace_rand.c:144-158 | what stands before a position does not influence the expansion behind it |
| ReplaceRandProperties.NumberPlaceholder | src/replace_rand.c:82-158 | a placeholder that reads as v becomes min(v, 64) digits as drawn, none for a negative v, between literal and expanded rest |
| ReplaceRandProperties.DecimalPlaceholder | src/replace_rand.c:82-95 | `r(N)` becomes N digits up to 64, and `r(-N)` none, with blanks and a sign before the number and anything but a digit behind it |
| ReplaceRandProperties.NoNumberStays | src/replace_rand.c:80-85 | an argument that is no number stays as text, and the search goes on from its closing bracket |
| ReplaceRandProperties.UnclosedStays | src/replace_rand.c:56-78 | a text without an opening, or without a closing bracket behind its first opening, stays |
| Templates.ReplacePlaceholders | src/f_process_templates.c:84-202 | the two-state scanner yields the meaning of the parsed template |
| Templates.OnlyKnownNamesMean | src/f_process_templates.c:146-194 | a name means something if and only if it is the prefix and the nonempty key of a value that shows |
| Templates.ShownInPlace | src/f_process_templates.c:174-194 | strings and numbers as printed, `true` and `false`, and nothing for null and for values that are not scalar |
| Templates.UnclosedLosesBraces | src/f_process_templates.c:117-141 | an opening that is never closed loses its two braces, a text without opening stays |
| Templates.PlaceholderInPlace | src/f_process_templates.c:111-197 | a placeholder is replaced by its value in place; the texts before and behind it expand as without it |
| Templates.UnknownNamesVanish | src/f_process_templates.c:146-170 | a placeholder that names no variable vanishes from the text without a trace |
| Templates.ProcessText | src/f_process_templates.c:43-62 | NULL unless template and JSON object are given |
| Templates.ProcessArray | src/f_process_templates.c:43-81 | every element is expanded, NULL elements stay; without a JSON object the array is unchanged |
| Templates.PrintParse | src/f_process_templates.c:111-145 | every text is the printed form of its well-formed parse |
| Templates.ParsePrint | src/f_process_templates.c:111-145 | parsing undoes printing on every well-formed template |
| Templates.ExpandPrinted | src/f_process_templates.c:111-197 | expanding a printed template gives its segments' meanings; inserted values are never scanned again |
| Templates.LeavesNoOpeningIsExact | src/f_process_templates.c:113-196 | the output is free of `{{` if and only if no inserted value brings one in or makes one with its neighbour |
| Templates.IdempotentIff | src/f_process_templates.c:84-202 | a second expansion changes nothing, whatever its variables, under exactly that condition |
| Templates.BracelessValues | src/f_process_templates.c:113-196 | the condition holds when no value has a brace and an unclosed placeholder has no opening |
| Templates.FixedIffFree | src/f_process_templates.c:113-145 | the texts no variables can change are exactly those without `{{` |
| Templates.LonePlaceholder | src/f_process_templates.c:147-191 | a lone placeholder for a known variable becomes the variable's value |
| Templates.ValueMayBePlaceholder | src/f_process_templates.c:178-181 | a value that is a placeholder is expanded by the second call, not by the first |
| Templates.ValueMayBeItself | src/f_process_templates.c:178-181 | a value that is its own placeholder is reproduced by every expansion with it, although its output holds an opening token |
| TokenBucket.Capacity | src/f_tbf_rate_check.c:178-179 | the whole part of 2r, but at least one |
| TokenBucket.Refilled | src/f_tbf_rate_check.c:199-205 | whole tokens within one of what was earned; none is lost but the fraction |
| TokenBucket.RateLimiter.RateCheck | src/f_tbf_rate_check.c:138-227 | one call is one step on the shared table; missing arguments pass and a zero rate does not, both without touching a bucket |
| TokenBucket.Extend | src/f_tbf_rate_check.c:187-222 | in a run every call meets its own bucket in time order, and moves no other |
| TokenBucketProperties.BucketTime | src/f_tbf_rate_check.c:188-209 | a bucket exists once a call on it was admitted and remembers when the last one was |
| TokenBucketProperties.RefusedOnlyTooSoon | src/f_tbf_rate_check.c:205-221 | a call is refused only when less than one token was earned since the last admitted call |
| TokenBucketProperties.SpacedCallsPass | src/f_tbf_rate_check.c:199-218 | a call 1/rate or more after every earlier call on its key is never refused |
| TokenBucketProperties.BurstFillsCapacity | src/f_tbf_rate_check.c:188-221 | of a burst at one instant on a fresh bucket exactly the capacity passes |
| TokenBucketProperties.PauseThenBurst | src/f_tbf_rate_check.c:199-221 | after any run, of calls at one later instant exactly as many pass as the bucket held and has earned since, in whole tokens and up to its capacity; the rest stays in it |
| TokenBucketProperties.PauseRefills | src/f_tbf_rate_check.c:178-221 | after a pause of capacity/r a bucket is full again, after a shorter one exactly min(m, capacity, floor(b + r times pause)) of m calls pass |
| TokenBucketProperties.ZeroRateRefuses | src/f_tbf_rate_check.c:167-171 | a call with rate zero is refused and moves no bucket |
| TokenBucketProperties.FluidSimulates | src/f_tbf_rate_check.c:187-222 | what the integer bucket admits, a real-valued bucket of that depth and rate admits too |
| TokenBucketProperties.FluidWindow | src/f_tbf_rate_check.c:205-215 | a real-valued bucket lets at most depth + rate times length through in a window |
| TokenBucketProperties.RateBound | src/f_tbf_rate_check.c:178-222 | at constant rate r at most capacity + r(e - s) calls pass in any window [s, e] of any run |
| TokenBucketProperties.KeysAreIndependent | src/f_tbf_rate_check.c:173-187 | every call is decided as in the run reduced to its own key |
| TokenBucketProperties.AdmissionStamps | src/f_tbf_rate_check.c:208-221 | an admitted call stamps its bucket with its time, a refused one leaves its bucket as it was |
| TokenBucketProperties.RefusalsLeaveNoTrace | src/f_tbf_rate_check.c:208-221 | a run without some of its refused calls ends with the same buckets |
| TokenBucketProperties.RefusalsAreInvisible | src/f_tbf_rate_check.c:208-221 | and decides every remaining call as before |
| SrvRank.FillWeights | src/f_sort_srv.c:17-29 | the context gets the rows' weights, NULL as zero, and nothing else of it changes |
| SrvRank.GetNextRow | src/f_sort_srv.c:31-56 | the two passes pick the row of the reference definition and leave weights and ranks alone |
| SrvRank.FillDistribution | src/f_sort_srv.c:58-79 | the ranks written are the places in the order the draws determine |
| SrvRank.PickIs | src/f_sort_srv.c:46-54 | a row is picked exactly when it is free and the residue lies in its stretch of the running sum |
| SrvRank.ResidueCount | src/f_sort_srv.c:39-54 | a free row of weight w is picked by w residues, the first free row by w + 1 |
| SrvRank.OrderIsPermutation | src/f_sort_srv.c:73-78 | for all draws the picks are distinct rows |
| SrvRank.RanksAreBijective | src/f_sort_srv.c:70-78 | the ranks are a bijection onto 1..rows |
| SrvRank.DrawCountsByRemainder | src/f_sort_srv.c:46 | a draw counts by its remainder modulo the weight still free plus one |
| SrvRank.NullWeightsWait | src/f_sort_srv.c:24-54 | a row whose weight is NULL or zero ranks after every row before it, whatever is drawn |
| SrvRank.OrderLetsZeroesWait | src/f_sort_srv.c:46-54 | a row of weight zero comes after every row before it |
| SrvRank.EveryWaitingOrderIsReached | src/f_sort_srv.c:31-78 | every permutation with that property comes out of given draws within the total weight |
| SrvRank.ReachableOrders | src/f_sort_srv.c:31-78 | a permutation comes out of some draws if and only if no row of weight zero overtakes an earlier row |
| SrvRank.TuplesAreExact | src/f_sort_srv.c:31-78 | the tuples counted are exactly the tuples of residues, one for each step, that give the ranking |
| SrvRank.TupleCount | src/f_sort_srv.c:39-78 | a ranking is given by the product over its steps of the weight of the row taken, plus one for a first free row |
| SrvRank.WaysOfWaiting | src/f_sort_srv.c:46-54 | that product is zero exactly when a row of weight zero overtakes an earlier row |
| TagSets.SetContainsValue | src/f_tag_compare.c:14-21 | the backward search decides membership |
| TagSets.AddValues | src/f_tag_action.c:88-95 | the array collects the distinct values in order, continuing what it holds |
| TagSets.RemoveValues | src/f_tag_action.c:135-141 | what is kept is exactly the values not in the second set, in order |
| TagSets.IntersectValues | src/f_tag_action.c:180-187 | distinct common values in the order of the second array |
| TagSets.TagAction | src/f_tag_action.c:31-203 | every operation, NULL arguments, unknown operations and the early exits give the reference result |
| TagSets.ActionCodes | src/f_tag_action.c:39-202 | which number clears, removes, appends, intersects and replaces; the result lists each value of the set difference, union or intersection once, in the order of first occurrence |
| TagSets.ActionsAreSetOperations | src/f_tag_action.c:106-202 | the results are free of duplicates and are the set difference, union and intersection |
| TagSets.RemovedAndIntersectedCount | src/f_tag_action.c:108-197 | removed and common values together are as many as the first array has distinct values |
| TagSets.RemoveUndoesAppend | src/f_tag_action.c:108-172 | removing b after appending b gives, in order, what removing b gives at once |
| TagSets.DistinctIsSet | src/f_tag_action.c:88-95 | collecting keeps every value once |
| TagSets.ScanB | src/f_tag_compare.c:104-127 | what the scan of b has decided when it ends or breaks off |
| TagSets.AllInB | src/f_tag_compare.c:133-141 | the backward check of mutual mode decides containment |
| TagSets.TagCompare | src/f_tag_compare.c:25-148 | the scan with its early exits gives the code of the set-level comparison |
| TagSets.ComparisonCodes | src/f_tag_compare.c:33-147 | the numeric code for each numeric mode, by the two sets of values, NULL in a, emptiness and NULL arrays |
| TagSets.Verdict | src/f_tag_compare.c:129-142 | equal sizes after a completed scan mean equal sets, and the final corrections give the reference code |
| TagSets.CompareMeetsAction | src/f_tag_compare.c:106-131 | without NULL, containment and overlap as compared agree with what removal and intersection leave |
| UriParser.ParseAddr | src/uri_parser.c:6-63 | the components found, for addresses whose host fits |
| UriParser.ParsePrint | src/uri_parser.c:22-51 | parsing undoes printing of proto://host:port within the field sizes and the range of int |
| UriParser.AddressForms | src/uri_parser.c:22-62 | what becomes of protocol, host and port in each of the four forms of an address, with those too long for their fields dropped |
| UriParser.RefusedAddresses | src/uri_parser.c:12-13 | exactly the empty address and those of 128 bytes and more are refused |
| Pdu.MessageBuffer.Prepare | src/resolver.c:295-304 | on success the buffer holds the encoding; otherwise the code and error of the failing branch |
| Pdu.MessageBuffer.PrepareTagged | src/resolver.c:306-333 | the tagged layout, or an error when it does not fit |
| Pdu.MessageBuffer.PrepareJson | src/resolver.c:335-362 | the CNAM layout, or an error when it does not fit |
| Pdu.RequestRoundTrip | src/resolver.c:306-362 | a server reads the request as meant if and only if its fields fit their widths |
| Pdu.TaggedRequestLayout | src/resolver.c:309-332 | the bytes of a tagged request, one by one, or none when it would exceed 2048 |
| Pdu.JsonRequestLayout | src/resolver.c:338-361 | the bytes of a CNAM request |
| Pdu.OtherTypes | src/resolver.c:295-304 | requests of any other type are neither encoded nor answered |
| Pdu.MessageBuffer.ParseConfirm | src/resolver.c:380-399 | exactly the four-byte datagrams are confirmations |
| Pdu.MessageBuffer.ParseJsonMsg | src/resolver.c:401-444 | response or error, from the received bytes alone |
| Pdu.MessageBuffer.ParseTaggedMsg | src/resolver.c:446-519 | response, remote error or local error, from the received bytes alone |
| Pdu.MessageBuffer.ParseMsg | src/resolver.c:364-378 | the kind of request and the received bytes alone determine code, response and error |
| Pdu.MessageBuffer.Receive | src/resolver.c:239-251 | the buffer holds the datagram, with room for its terminating zero |
| Pdu.TaggedResponseRoundTrip | src/resolver.c:446-519 | decoding inverts the tagged response layout, whatever trails it |
| Pdu.JsonResponseRoundTrip | src/resolver.c:401-444 | decoding inverts the JSON response layout, whatever trails it |
| Pdu.OnlyLayoutsDecode | src/resolver.c:401-519 | nothing else decodes to a data response |
| Pdu.FourBytesConfirm | src/resolver.c:380-399 | four bytes are a confirmation of the id in them, for requests of either type |
| Pdu.TaggedResponseLayout | src/resolver.c:446-519 | what each byte of a tagged response means, and each way it is refused |
| Pdu.JsonResponseLayout | src/resolver.c:401-444 | the same for a JSON response |
| Pdu.CutResponse | src/resolver.c:364-519 | a data response cut short fails, or is a confirmation when four bytes are left, and is never taken for data |
| Resolver.ResolverState.AddEndpoint | src/resolver.c:100-129 | appends an endpoint whose id is its index, or changes none of those counted |
| Resolver.ResolverState.GetEndpointAtIndex | src/resolver.c:135-141 | the stored endpoint whose id is the index asked for, and none if and only if there is no such endpoint |
| Resolver.ResolverState.GetCurrentEndpoint | src/resolver.c:143-150 | an endpoint always, and the position is valid afterwards even if it was not before |
| Resolver.ResolverState.GetNextEndpoint | src/resolver.c:152-158 | the next endpoint of the ring |
| Resolver.ResolverState.RemoveAllEndpoints | src/resolver.c:160-165 | an empty, valid ring |
| ResolverProperties.IdsUntilWrap | src/request_id.c:10-18 | from a counter that is not zero the ids count up through the wrap to zero, and only then a new start is drawn |
| Resolver.ResolverState.ReceiveLoop | src/resolver.c:232-279 | outcome, error pointer and number of datagrams consumed are those of the reference definition |
| Resolver.ResolverState.ResolveCall | src/resolver.c:167-288 | outcome, requests sent, position, counter and error pointer after a call are those of the reference run, and the ring stays valid |
| ResolverProperties.AbandonedAttempts | src/resolver.c:179-227 | a run whose first attempts wait in vain is their requests followed by the run that starts that many endpoints and ids on |
| ResolverProperties.DecidingArrival | src/resolver.c:237-279 | arrivals that are confirmations or answers to other requests do not matter |
| ResolverProperties.ReceiveExact | src/resolver.c:237-279 | the loop answers if and only if some arrival answers this request and all before it are passed over |
| ResolverProperties.StopsBehindAnswer | src/resolver.c:276-278 | datagrams behind the answer stay unread |
| ResolverProperties.AdditionalArrival | src/resolver.c:237-279 | one more arrival anywhere leaves the outcome alone if and only if the loop has ended before it, passes it over, or decides the same by it |
| ResolverProperties.ConfirmationsDoNotMatter | src/resolver.c:259-268 | a four-byte datagram makes no difference wherever it arrives, to a request of either type |
| ResolverProperties.OtherRepliesDoNotMatter | src/resolver.c:270-274 | nor do data replies to other requests |
| ResolverProperties.FirstArrivalDecides | src/resolver.c:241-278 | the answer, an error reply, a datagram that does not parse, a transport error or silence end the loop, each with its own outcome |
| ResolverProperties.HarmlessBeforeAnswer | src/resolver.c:253-278 | before an answer exactly the confirmations, the data replies to other requests and equal answers do no harm |
| ResolverProperties.AttemptsFailOver | src/resolver.c:176-227 | requests go to consecutive endpoints, all but the last wait in vain, the position ends on the answering endpoint |
| ResolverProperties.GettingThroughDecides | src/resolver.c:203-281 | the first attempt whose wait ends in time decides the call whatever its receive loop ends with; nobody else is asked |
| ResolverProperties.NotEncoded | src/resolver.c:182-187 | a request that cannot be encoded uses up an id and fails at once, unsent |
| ResolverProperties.NoEndpoint | src/resolver.c:171-174 | without endpoints nothing is sent, and the error says so |
| ResolverProperties.NoEndpointTwice | src/resolver.c:176-227 | one call sends at most one request to each endpoint |
| ResolverProperties.AllInVain | src/resolver.c:203-227 | if every wait is in vain, every attempt is made and the call fails with the error of the last wait |
| ResolverProperties.RingComesRound | src/resolver.c:176-227 | and the position is back where it was |
| ResolverProperties.AbortsIffSendFails | src/resolver.c:179-201 | a call is aborted if and only if the request can be encoded and a send fails before an attempt gets through; the position stays on that send's endpoint |
| ResolverProperties.NeverPassed | src/resolver.c:176-201 | over any number of calls nothing behind an endpoint to which sends fail is asked |
| ResolverProperties.StuckAtFailingSend | src/resolver.c:176-201 | a call that starts at such an endpoint is aborted there, and so are all that follow |
| ResolverProperties.SecondEndpointNotAsked | src/resolver.c:190-201 | for instance the second of two endpoints, which would answer, is asked by neither of two calls |
| ResolverProperties.ReceiveFailsWithError | src/resolver.c:243-257 | for known kinds of request every failure of the receive loop has an error |
| ResolverProperties.ErrorIffFailure | src/resolver.c:167-288 | the error pointer tells success from failure if and only if the kind is known or there is no endpoint |
| ResolverProperties.IdsCountOn | src/request_id.c:10-18 | ids of successive attempts count on from a nonzero first one while the counter does not wrap |
| ResolverProperties.IdsOfLaterUse | src/request_id.c:10-18 | every id of a later call is above the counter an earlier one left |
| ResolverProperties.LateRepliesAreNeverAccepted | src/resolver.c:179-282 | over any number of calls a successful response carries the id of the last request sent and no id of an earlier call or abandoned attempt |
| ResolverProperties.LateReplyIsPassedOver | src/resolver.c:259-278 | for instance the reply to a request that timed out is passed over, and the reply behind it taken |
| ResolverProperties.LateErrorIsTaken | src/resolver.c:255-257 | the late error reply to a request that timed out becomes the result of the next call, whose own answer stays unread |

## Left out

- The regular-expression engine, collations and wide characters: arbitrary functions of pattern, result and input stand for them.
- PostgreSQL memory contexts, varlena headers, failed allocations and `PG_TRY`: texts are sequences, a throwing substitution is a value.
- `regexp_replace_rand` with options (src/f_regexp_replace_rand.c:324-437): one call of the engine, without a chunk loop.
- Numbers beyond `long` in `sscanf` and beyond `int` in `atoi`: numbers are unbounded here. For placeholders a saturating read gives the same after clamping to 0..64; for ports the round trip is stated within the range of `int`.
- JSON parsing and the printing of numbers: a map from names to values, numbers given by their printed form.
- TokenBucket.RateLimiter.RateCheck: rates are nonnegative exact reals, and a call may not read an earlier time than the bucket's last update; float rounding and the conversion of negative numbers to unsigned ones are not modelled.
- TokenBucketProperties.RateBound: assumes, like all laws about runs, that clock readings agree with lock order; the code reads the clock before it takes the lock (src/f_tbf_rate_check.c:176 and 185).
- The bucket table without shared memory (every call passes), its exhaustion, and the padding bytes of its key.
- SrvRank.FillDistribution: the context has room for all rows and no weight is negative. The code has room for twenty and the assignment meant to enforce that sets another variable (src/f_sort_srv.c:66). The total is in 32 bits.
- The widths of tag values, and the size unit of one reallocation (src/f_tag_action.c:156): capacities are counted in elements.
- Sockets, `poll` restarts after a signal, and transport errors other than those of sending, waiting and receiving: the network chooses each outcome.
- Resolver.ResolverState.ReceiveLoop: the datagrams that arrive during a call are finitely many, after which receiving fails; an endless stream of stale datagrams would keep the original waiting.
- Pdu.MessageBuffer.Receive: datagrams of the full 2048 bytes, whose terminating zero has no place in the buffer.
- UriParser.ParseAddr: addresses of less than 128 bytes without a port whose host is longer than 64 bytes, which the code copies unchecked (src/uri_parser.c:59).
- Resolver.ResolverState.AddEndpoint: the same addresses, while there is room for a further endpoint.
- Host byte order other than little-endian.
- The endpoints cache, the LNP wrapper functions, SQL upgrade scripts and packaging: thin, with easy claims.
