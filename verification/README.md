# A verified model of MEMT and its language model

The repository is a machine translation system combination decoder together with the n-gram language model
toolkit it is built on. This project models the parts whose correctness is least obvious from reading them:

- **The language model.** `ngrams.dfy` defines what a model means: a finite map of n-grams and a backoff
  recursion. `scoring.dfy` proves that the scorer's shortcuts (early stop, minimal state, saved backoffs) lose
  nothing against it. `fragments.dfy`, `rule_score.dfy` and `bracketing.dfy` treat scoring of sentence
  fragments whose left context comes later. `hashed_build.dfy`, `hashed_meaning.dfy` and `hashed_loading.dfy`
  treat loading, where missing n-grams are filled in and signs of weights are reused as marks;
  `loaded_examples.dfy` loads two small listings.
- **The hash table** the loader uses, with doubling in place: `probing.dfy`.
- **The packed trie**: the merge that inserts missing prefixes (`trie_merge.dfy`), writing (`trie.dfy`),
  interpolation search (`sorted_uniform.dfy`), bit packing (`bit_packing.dfy`), split pointers (`bhiksha.dfy`),
  one packed order put together from these (`packed_middle.dfy`), and all orders with lookup (`packed_trie.dfy`).
- **The decoder's beams** (`n_best.dfy`) and the enumeration of the best paths of the final lattice
  (`kbest.dfy`).
- **The request pipeline**: the queue between threads (`pcqueue.dfy`) and what its callers see (`queue_calls.dfy`),
  the pool of workers (`thread_pool.dfy`) and the life of a request (`pipeline.dfy`), as state machines over
  interleaved steps.
- **Alignment closure**: `transitive.dfy`.

`finite_sets.dfy`, `arithmetic.dfy` and `wrappers.dfy` hold what several of these need. Word sequences are
kept newest word first throughout, the order in which the program hashes and stores them. Weights are real
numbers; a float whose sign carries a mark is a magnitude or value and a separate bit. Code that updates state
in place is a class or a method with loops, proved against functions and predicates on values; the concurrent
parts are transition relations.

Some properties one might expect do not hold of the code in general, and the model says exactly when they do.

- *Bracketing.* Grouping the words of a sentence differently can change the state it ends in, and its score by
  the backoffs that state has forgotten. For each sentence, both are the same for all groupings exactly if none of
  its contexts extends right that does not without its oldest words (`Bracketing.ScoreSentence`, `SentenceGap`,
  `SplitChangesState`, `ClosedUnlessGap`), and the score alone exactly if the backoffs of longer contexts add to zero
  wherever the newest words do not extend right. The same holds for fragments (`BracketingGap`, `ExactIffSilent`).
  Where the right marks of n-grams of two or more words are exact, as they are in every loaded table
  (`HashedLoading.BuiltExact`), all fragments without the beginning of sentence, which no fragment contains, have
  one score exactly if all their contexts are closed in this way (`ExactIffClosed`). Loading does not make it so:
  the trigram of line 107 of `lm/test.arpa` has a backoff, while the bigram left without its oldest word is not
  listed and precedes nothing (`LoadedExamples.GapExample`).
- *Blanks.* An n-gram filled in at loading gets a backed-off log probability. If that is positive, marking the
  entry loses its sign and the model scores differently from its listing (`HashedMeaning.BuiltMeaning`,
  `LoadedExamples.PositiveExample`).
- *Left marks.* A unigram whose log probability is read as zero without a sign is marked as extending left from the
  start. Left marks are exact exactly if every such word starts a longer n-gram (`HashedLoading.BuiltExact`).

The comment in `Double` of the hash table allows an entry to wrap around to a slot that is visited later. It
cannot (`Probing.LandsSafely`); the model follows the code. The loader's error message asks that every context be
listed; the code also takes one that an earlier line of the same order, or the line itself, has inserted as a blank,
so whether such a file loads depends on the order of its lines (`HashedLoading.ReadNGrams`).

## Model

| member | source | states |
|---|---|---|
| `NGrams.OrderBoundsHistory` | lm/model.cc:142-144 | the recursion looks at no more than the last `order - 1` words, so the stateless query may drop the others |
| `NGrams.ScoreByMatch` | lm/model.cc:134-140 | the recursion has a closed form: the probability of the longest stored n-gram plus the backoffs of the longer contexts; this is what the walk plus the backoff array computes |
| `NGrams.KeepIsAdequate` | lm/model.cc:245-270 | the longest context that still extends right is enough to predict with: no stored n-gram continues a longer one, and the backoffs dropped with the longer ones add to zero |
| `Scoring.ResumeScore` | lm/model.cc:272-296 | however early the walk stops (an entry that does not extend left, a missing entry, the longest order), it reports the longest stored match, whether more left context could matter, exactly the backoffs met, and the longest extendable context |
| `Scoring.ScoreExceptBackoff` | lm/model.cc:245-270 | the result is that of the walk from the unigram, and the new state is the minimal one for the whole context |
| `Scoring.FullScore` | lm/model.cc:134-140 | from any valid state the probability is the recursion's over the state's words, and the new state is minimal |
| `Scoring.ScoreFromState` | lm/model.cc:134-140 | any adequate state predicts like the whole history up to the backoffs it dropped, and one word later the minimal state of the whole history is reached |
| `Scoring.ScoreWords` | lm/model.cc:134-140 | state minimisation is lossless: along any word sequence from the null or begin-sentence state each probability is the recursion's over the whole history, although only the minimal state is passed on |
| `Scoring.GetState` | lm/model.cc:169-193 | the state read off a context alone is the minimal state, the same one that scoring the words reaches |
| `Scoring.FullScoreForgotState` | lm/model.cc:142-167 | scoring from the words alone gives the recursion's probability, the match, pointer and left marks of the walk over all the words, and the minimal new state, for contexts of any length |
| `Scoring.ChargeBackoffs` | lm/model.cc:142-167 | stopping at the first missing context still charges all the backoffs there are |
| `Scoring.Recombination` | lm/state.hh:17-20 | comparing states by their words alone is sound: minimal states with the same words are equal in their backoffs too, and every continuation of the two histories scores the same |
| `Scoring.ExtendLeft` | lm/model.cc:195-227 | continuing a stored pointer's walk with older words reports the longest match of the joined words, relative to what the pointer had been charged, with the backoffs across the join that the match does not reach |
| `Fragments.TotalConcat` | lm/left.hh:87-150 | the total of a joined fragment is the total of its older part plus that of its newer part given the older |
| `Fragments.BeyondCut` | lm/left.hh:127-137 | once a word joins with nothing older, the whole difference that older words make to the rest of the fragment is the backoffs charged at that cut |
| `Fragments.JoinScore` | lm/left.hh:170-188 | the difference reported for one word is exactly what the older words change about its score, less the backoffs still to be charged |
| `Fragments.JoinStep` | lm/left.hh:170-188 | after one word the words and backoffs carried over are exactly those the next word's join needs, and no more context matters than the extendable one |
| `RuleScoring.RuleScore.BeginSentence` | lm/left.hh:59-63 | the object then describes no words after the beginning of sentence |
| `RuleScoring.RuleScore.Terminal` | lm/left.hh:65-79 | the object describes one more word; its right state is minimal and its score is the recursion's total, whatever had been charged early before |
| `RuleScoring.RuleScore.BeginNonTerminal` | lm/left.hh:81-85 | the object takes over a scored fragment, state and score |
| `RuleScoring.RuleScore.NonTerminal` | lm/left.hh:87-150 | joining a scored fragment describes the concatenated words, in every branch: empty or full left state, empty right state, early exit, minimised right state, assembled right state; a full fragment's right state is the result's |
| `RuleScoring.RuleScore.ExtendLeft` | lm/left.hh:170-188 | one more word is joined; on the early exit the object already describes all of the fragment |
| `RuleScoring.RuleScore.Finish` | lm/left.hh:152-156 | the description is a complete chart state, also for a fragment of the longest context length |
| `RuleScoring.TerminalTotal` | lm/left.hh:65-79 | adding the word's conditional probability to a score with pending backoffs gives the exact total: the pending backoffs are those the word charges |
| `RuleScoring.FinishCut` | lm/left.hh:127-137 | replacing the right state by the fragment's and charging the remaining backoffs keeps the description right |
| `RuleScoring.MidStep` | lm/left.hh:170-202 | one step of the join keeps the invariant that ties score, left state and carried backoffs to the two fragments |
| `Bracketing.ScoreTree` | lm/left.hh:52-202 | any derivation tree, scored bottom up, ends in a chart state that describes its words |
| `Bracketing.ScoreSentence` | lm/left.hh:59-156 | a sentence opened by BeginSentence and derived by any tree scores the recursion's total plus the backoffs of contexts the right state has already forgotten; the score is exactly the total if no context that does not extend right leaves longer ones with backoffs, and the state also is the minimal one if no context of the sentence extends right that does not without its oldest words |
| `Bracketing.LeftToRight` | lm/model.cc:134-140 | adding up FullScore word by word gives the recursion's total and ends in the minimal state; the reference that bracketings are compared with |
| `Bracketing.BracketingGap` | lm/left.hh:114-150 | where the newest words of a fragment do not extend right, joining them as a fragment of their own ends in their state and charges the backoffs of all longer contexts early, compared with adding word by word: another state if one of these extends, another score unless their backoffs add to zero |
| `Bracketing.SentenceGap` | lm/left.hh:59-156 | the same for every sentence and every such split of its words, against left-to-right scoring; the beginning of sentence is context only, so with ScoreSentence the score of a sentence is independent of bracketing exactly if the longer contexts' backoffs add to zero at every split |
| `Bracketing.SplitChangesState` | lm/left.hh:87-150 | with ScoreSentence and SentenceGap: a sentence's final state and score are independent of bracketing exactly if none of its contexts extends right that does not without its oldest words |
| `Bracketing.ClosedUnlessGap` | lm/left.hh:87-150 | which is so exactly if none extends right that does not without its oldest word |
| `Bracketing.ExactIffSilent` | lm/left.hh:87-150 | for each fragment: its description fixes its score to the recursion's total exactly if no split leaves backoffs of longer contexts that do not add to zero |
| `Bracketing.ExactIffClosed` | lm/left.hh:87-150 | with exact right marks: all fragments without the beginning of sentence have one score exactly if all contexts that can occur in them are closed under dropping oldest words |
| `LoadedExamples.GapExample` | lm/test.arpa:107 | the test model's entries for this trigram, loaded, give a table with such a gap, in which the two bracketings of the trigram differ by its backoff of -12 |
| `Bracketing.ChartUnique` | lm/state.hh:57-61 | where left marks are exact, a fragment whose contexts are closed has one score and one chart state, whatever the derivation |
| `Bracketing.ExactAtEnd` | lm/left.hh:152-156 | if nothing ending in the last word has a backoff, every bracketing scores exactly the total, in any model |
| `Bracketing.LastPointerSuffices` | lm/state.hh:57-61 | comparing only the last left pointer is sound, because it determines the others |
| `HashedBuild.HashedSearch.FindLower` | lm/search_hashed.cc:57-78 | the chain goes from the next shorter n-gram to the longest stored one, and blanks were inserted for exactly the missing ones; it fails exactly if the table of some missing one had no room |
| `HashedBuild.HashedSearch.AdjustLower` | lm/search_hashed.cc:80-136 | every blank gets the probability of the stored n-gram plus the backoffs between, all of the chain is marked as extending left, the contexts of the blanks are marked as extending right, and nothing else changes |
| `HashedMeaning.StepSound` | lm/search_hashed.cc:159-201 | reading one line keeps the table sound for the lines read: listed weights, guessed weights, closure both ways and both kinds of marks |
| `HashedMeaning.BlankStored` | lm/search_hashed.cc:97-124 | a blank scores minus the magnitude of its guess, and that guess is the listing's backed-off log probability unless the sign of a shorter blank was lost before |
| `HashedMeaning.BuiltWellFormed` | lm/search_hashed.cc:257-290 | the finished table has the closure and marks the scorer relies on |
| `HashedMeaning.BuiltMeaning` | lm/search_hashed.cc:80-136 | the table gives every context and word the listing's own backed-off probability exactly if no blank's backed-off log probability is positive |
| `HashedLoading.Activate` | lm/search_hashed.cc:24-55 | marks the context of an n-gram, failing exactly if it is not stored |
| `HashedLoading.StepMarks` | lm/search_hashed.cc:159-201 | reading one line keeps both kinds of marks exact: what is marked as extending has an extension, or a backoff to charge |
| `HashedLoading.ReadLine` | lm/search_hashed.cc:177-198 | one line is stored and marked; it fails for its context exactly if that is neither stored nor one of the blanks the line itself needs, and for room only if some order has less than the listing needs |
| `HashedLoading.ReadNGrams` | lm/search_hashed.cc:159-201 | reading all lines of an order leaves the table sound and its marks exact; it fails for a context exactly if some line's context is not listed and is no blank of that line or an earlier one, and for room only if some order has too little |
| `HashedLoading.BuiltExact` | lm/search_hashed.cc:257-290 | in the finished table right marks are exact, and left marks are exactly if every word whose unigram came with the sign of its probability clear starts a longer n-gram |
| `HashedLoading.ListedContexts` | lm/search_hashed.cc:30-39 | if every context is listed, none is missing, whatever the order of the lines |
| `HashedLoading.Build` | lm/search_hashed.cc:257-290 | end to end: loading succeeds exactly if every context is there in time and every order has room for its distinct prefixes of listed n-grams; the scorer may then use the table, its marks are exact, and it means what BuiltMeaning says |
| `LoadedExamples.PositiveBlankExample` | lm/value_build.hh:26-29 | a valid listing with a positive blank: a missing bigram after a word with a positive backoff |
| `LoadedExamples.PositiveExample` | lm/value_build.hh:26-29 | loaded, that bigram scores -2 where the listing gives 2 |
| `Probing.EmptySlot` | util/probing_hash_table.hh:78-84 | some slot is empty exactly if fewer entries are used than there are slots; why every probe loop ends |
| `Probing.ProbingHashTable.Find` | util/probing_hash_table.hh:130-140 | lookup agrees with the finite map the slots stand for, in both directions |
| `Probing.ProbingHashTable.Insert` | util/probing_hash_table.hh:78-84 | adds the binding, failing exactly if no slot would stay empty |
| `Probing.ProbingHashTable.FindOrInsert` | util/probing_hash_table.hh:87-102 | finds what is there or adds the binding, failing exactly if that would leave no slot empty |
| `Probing.ProbingHashTable.UncheckedInsert` | util/probing_hash_table.hh:237-242 | fills the first empty slot from the ideal one, also in the half-rehashed tables that doubling goes through |
| `Probing.ProbingHashTable.Double` | util/probing_hash_table.hh:172-206 | rehashing within the same array, from any consistent table, even a full one: every key is found with its value, no other key is, and a slot is empty |
| `Probing.ProbingHashTable.LiftFirstRun` | util/probing_hash_table.hh:182-187 | after the first run is lifted out no remaining entry has wrapped around, and nothing is lost |
| `Probing.LandsSafely` | util/probing_hash_table.hh:188-201 | since slot `i` has just been emptied, its entry lands at `i` or before or in the upper half, never at a later slot still to be visited (the comment says it may) |
| `Probing.MoveStep` | util/probing_hash_table.hh:194-201 | one re-insertion keeps the partial invariant: entries outside `[i, n)` are reachable without passing through `[i, n)`, and the others either move up or were passed |
| `Probing.AutoProbing.constructor` | util/probing_hash_table.hh:272-276 | the table has room for what was asked for; at least half of its buckets may be used before it grows, and the threshold is zero only if nothing was asked for |
| `Probing.AutoProbing.DoubleIfNeeded` | util/probing_hash_table.hh:314-321 | threshold and buckets double together, just when the entries reach the threshold: afterwards there is room for another entry and the bindings are the same |
| `Probing.AutoProbing.FindOrInsert` | util/probing_hash_table.hh:284-287 | never fails for lack of space, whatever the initial size was; over any run a table that has grown has at most four slots for each entry, unless it was made for nothing: then the threshold stays zero and every call doubles it |
| `TrieMerge.BlankManager.Visit` | lm/search_trie.cc:336-364 | moving on to the next n-gram inserts blanks for exactly the prefixes it does not share, each with the longest prefix in the input and its probability; it fails exactly if the first word is not the last unigram |
| `TrieMerge.RecursiveInsert` | lm/search_trie.cc:377-409 | the merge of sorted streams fails exactly if some n-gram starts with an unknown word; otherwise its events are strictly increasing, hold every input n-gram with its probability and every missing prefix once, and nothing else |
| `TrieMerge.ListsPrefixes` | lm/search_trie.cc:377-409 | the n-grams of the merged stream are exactly the non-empty prefixes of input n-grams |
| `TrieMerge.BlanksHaveBasis` | lm/search_trie.cc:352-361 | every blank carries the order and probability of its longest prefix in the input, and there is one |
| `TrieMerge.Unseen` | lm/search_trie.cc:336-364 | in a sorted stream a prefix that the last n-gram does not share has not occurred before |
| `TrieMerge.FirstShared` | lm/search_trie.cc:349-351 | the least head starts with the last unigram exactly if its first word is a known unigram |
| `Trie.RangeExact` | lm/search_trie.cc:516-546 | an entry's stored range holds exactly the n-grams that extend it, although only insert indices of the next order were stored |
| `Trie.NodeExact` | lm/search_trie.hh:71-90 | a node's range lists its extensions in strictly increasing order of the last word |
| `Trie.TrieArrays.Insert` | lm/search_trie.cc:283-306 | appending an entry that points at the next order's insert index keeps the orders linked |
| `Trie.WriteEntries` | lm/search_trie.cc:269-317 | writing the merged stream leaves one entry per event, in its order's array, linked to its extensions and with its own weights |
| `Trie.TrieArrays.FinishedLoading` | lm/search_trie.cc:539-546 | writing the end pointers closes every range |
| `Trie.BuildTrie` | lm/search_trie.cc:462-547 | after a build exactly the input n-grams and their prefixes have entries, each order as many as there are prefixes of its length; it fails exactly for an unknown first word or an order too large to index |
| `PackedTrie.TrieSearch.LookupUnigram` | lm/search_trie.hh:71-76 | the unigram's weights and node, independent on the left exactly if nothing extends it |
| `PackedTrie.TrieSearch.LookupMiddle` | lm/search_trie.hh:82-86 | finds the extension exactly if it has an entry, gives its own weights and its node, and calls it independent exactly if nothing extends it |
| `PackedTrie.TrieSearch.LookupLongest` | lm/search_trie.hh:88-90 | finds an n-gram of the longest order exactly if it has an entry, with its own probability |
| `PackedTrie.TrieSearch.FastMakeNode` | lm/search_trie.hh:92-101 | succeeds exactly if the context has an entry and then gives its node |
| `PackedTrie.TrieSearch.Lookup` | lm/search_trie.hh:71-101 | walking unigram, packed middles and packed longest finds a sequence exactly if it has an entry, and then the weights are those written for it |
| `PackedTrie.Pack` | lm/search_trie.cc:549-576 | packed into bits, every order still holds its entries, ranges and weights |
| `PackedTrie.Load` | lm/search_trie.cc:462-547 | from sorted input to packed orders: afterwards exactly the input n-grams and their prefixes can be looked up, each with its own weights; it fails exactly for an unknown first word, an order too large to index or one too large for 57-bit fields |
| `Trie.ContextReader.Visit` | lm/search_trie.cc:292-299 | reading contexts in step with the n-grams marks an n-gram exactly when it is the next context |
| `Trie.ContextReader.Leftover` | lm/search_trie.cc:524-537 | a context is left over exactly if some context is not an n-gram; if none is, exactly the contexts were marked |
| `SortedUniform.BoundedSortedUniformFind` | util/sorted_uniform.hh:65-85 | in 64-bit arithmetic, with a range that may start at zero, interpolation search ends and succeeds exactly if the key is in the strictly sorted range, for every pivot that stays inside |
| `SortedUniform.Pivot32Inside` | util/sorted_uniform.hh:27-31 | the 32-bit pivot always lies strictly inside the range |
| `SortedUniform.Pivot32Exact` | util/sorted_uniform.hh:26-31 | in any state of a search for 32-bit keys the product does not overflow 64 bits |
| `SortedUniform.Capped` | util/sorted_uniform.hh:18-24 | whatever the floating-point guess is, the capped 64-bit pivot lies inside the range, all the search needs |
| `BitPacking.WriteInt57` | util/bit_packing.hh:70-81 | ORing a value into eight bytes sets bits of its own field only, whatever is next to it |
| `BitPacking.ReadsField` | util/bit_packing.hh:64-66 | reading eight bytes, shifting and masking gives the field's value |
| `BitPacking.WriteAll` | util/bit_packing.hh:64-81 | in zeroed memory any writes of up to 57 bits to disjoint fields all read back |
| `BitPacking.NonPositiveRoundTrip` | util/bit_packing.hh:137-149 | a float stored without its sign reads back exactly if its sign bit was set |
| `BitPacking.Float32RoundTrip` | util/bit_packing.hh:110-119 | a whole float reads back |
| `BitPacking.BaseSizeSuffices` | lm/trie.cc:39-46 | every access to an entry, or to the next pointer after the last, is within the memory sized for the order |
| `BitPacking.BaseSizeTight` | lm/trie.cc:39-46 | and with two bytes less one would not be |
| `BitPacking.FitsBits` | util/bit_packing.cc:17-22 | the bits required are the fewest that hold the value |
| `Bhiksha.ChopBits` | lm/bhiksha.cc:32-46 | the number of bits to move to the table is the least costly of those allowed, the smallest such |
| `Bhiksha.ArrayBhiksha.constructor` | lm/bhiksha.cc:48-75 | of all chops the configuration allows, the table and inline parts as built take the fewest bits together, and any smaller chop takes more |
| `Bhiksha.ArrayBhiksha.WriteNext` | lm/bhiksha.hh:98-102 | appending the next value keeps the table of where each high part starts and puts the low bits in the field |
| `Bhiksha.ArrayBhiksha.FinishedLoading` | lm/bhiksha.cc:81-90 | the size check passes exactly if the last value has the greatest high part, so it passes when the last value is the greatest |
| `Bhiksha.ArrayBhiksha.ReadNext` | lm/bhiksha.hh:77-96 | reads back the values at an index and the next, as if they had been stored whole |
| `Bhiksha.DontBhiksha.ReadNext` | lm/bhiksha.hh:47-50 | the same for values stored whole |
| `PackedMiddle.BitPackedMiddle.Insert` | lm/trie.cc:74-86 | packs one more word and next pointer behind those before, within memory, leaving room for the weights |
| `PackedMiddle.BitPackedMiddle.FinishedLoading` | lm/trie.cc:101-108 | after the end pointer is written every entry's range can be read |
| `PackedMiddle.BitPackedMiddle.Find` | lm/trie.cc:88-99 | finds a word in a range of packed entries exactly if it is there, and gives the range that was written for it |
| `PackedMiddle.BitPackedLongest.Insert` | lm/trie.cc:110-117 | packs one more word of the last order, leaving room for the probability |
| `PackedMiddle.BitPackedLongest.Find` | lm/trie.cc:119-124 | finds a word in a range of the last order exactly if it is there |
| `PackedMiddle.BitPackedMiddle.WriteWeight` | lm/quantize.hh:52-55 | writing a weight where Insert said changes that field of that entry's weights and nothing else; the weights of earlier entries outlast all later insertions |
| `PackedMiddle.BitPackedMiddle.ReadWeight` | lm/quantize.hh:42-48 | reads a field of the entry's weights back |
| `PackedMiddle.WeightsApart` | lm/trie.cc:80-84 | weights written where Insert said disturb no word and no pointer, and leave the memory after the entries zero for the next insertion |
| `KBest.PathScoreIsWordScores` | MEMT/Decoder/EndBeam.cc:71-136 | the score a path gets from differences to first choices is the sum of what its own words add; when normalizing, its product with the length is, where the ending's score is multiplied by the length too |
| `KBest.CrumbAt` | MEMT/Decoder/EndBeam.cc:229-231 | the words reported for a path are those of the nodes its choices go through, from the beginning to the ending |
| `KBest.TopIs` | MEMT/Decoder/EndBeam.cc:177-181 | the entry popped has the best score, and among those its node has the least distance from the beginning of sentence |
| `KBest.BestOfBranch` | MEMT/Decoder/EndBeam.cc:168-172 | a queue entry's score is the best among all paths that make its choices |
| `KBest.SecondMatches` | MEMT/Decoder/EndBeam.cc:94-120 | queueing the second choice with a multiplier scores its best path, also when normalizing |
| `KBest.NextMatches` | MEMT/Decoder/EndBeam.cc:123-136 | going one down keeps that |
| `KBest.PartitionStep` | MEMT/Decoder/EndBeam.cc:193-220 | taking a branch apart into its best path and the branches queued keeps every unemitted path in exactly one branch |
| `KBest.FollowBest` | MEMT/Decoder/EndBeam.cc:201-221 | following first choices ends at the beginning of sentence with a path of the popped score, and the entries to queue hold all the branch's other paths and score no better |
| `KBest.Completed` | MEMT/Decoder/EndBeam.cc:183-236 | terminates and emits distinct paths in non-increasing score, each with its true score and words, such that no other path scores above the last; it stops short of the number asked for only when there are no more |
| `KBest.MakeCompletedHypotheses` | MEMT/Decoder/EndBeam.cc:245-263 | the same from the beam's endings |
| `KBest.ScoresDetermined` | MEMT/Decoder/EndBeam.cc:177-181 | ties may be broken either way, but the scores of the list are determined |
| `NBest.InsertKeepsBest` | util/n_best.hh:339-360 | inserting keeps the beam the best groups of all values seen, although evicted groups are forgotten and may come back |
| `NBest.SkipKeepsBest` | util/n_best.hh:335-337 | skipping a value that could not score above the worst of a full beam loses nothing |
| `NBest.KeptAbove` | util/n_best.hh:339-360 | however the values arrived, the beam keeps as many groups above any score as there are, up to its size |
| `NBest.OpenNBest.MayMakeIt` | util/n_best.hh:335-337 | says exactly whether the beam has room or something in it scores less |
| `NBest.OpenNBest.InsertAvailable` | util/n_best.hh:339-360 | a duplicate is merged into the better of the two, otherwise the value is added and, if the beam was full, a worst one leaves; slots, duplicates and heap stay in agreement |
| `NBest.OpenNBest.Offer` | util/n_best.hh:335-360 | over any stream, asked first or not, the beam ends with at most its size of groups, each at its best score, and omits none that is better than what it keeps |
| `NBest.OpenNBest.DestructiveIncreasingVector` | util/n_best.hh:441-449 | lists all used slots in increasing order of score |
| `NBest.ArrayStorage.UseAvailable` | util/n_best.hh:82-86 | the available slot joins the used ones and another becomes available |
| `NBest.ArrayStorage.ReplaceAvailable` | util/n_best.hh:87-90 | a used slot changes places with the available one |
| `NBest.HashDupe.FindOrInsert` | util/n_best.hh:483-487 | finds the slot of the value's group if there is one, and otherwise adds the value's slot |
| `NBest.OneBestMerge` | util/n_best.hh:554-560 | keeps the better value and says whether the score changed |
| `PCQueue.StepInv` | util/pcqueue.hh:92-124 | every step of every thread, also a thrown assignment, keeps semaphores, locks, ring pointers and slots in agreement with the values written and read |
| `PCQueue.Fifo` | util/pcqueue.hh:82-124 | in every run the j-th value read is the j-th written, and no more are unread than fit |
| `QueueCalls.CallsFifo` | util/pcqueue.hh:92-124 | in every run the Consume call that reads j-th hands back the argument of the Produce call that writes j-th, and each call reads or writes at most once |
| `QueueCalls.ScheduleExists` | util/pcqueue.hh:92-124 | so for every run: it always has the schedule that the record is kept by |
| `QueueCalls.ReturnedOrThrew` | util/pcqueue.hh:92-124 | a call that has returned has written or read, one that threw has done neither, and a call runs just as long as some thread is in it |
| `QueueCalls.EarlierFirst` | util/pcqueue.hh:92-124 | a call that had returned before another began writes, or reads, before it |
| `PCQueue.WriteIsSafe` | util/pcqueue.hh:92-115 | a producer writes a slot that holds no unread value, and a consumer reads the first unread value |
| `PCQueue.ReaderApartFromWriter` | util/pcqueue.hh:92-115 | a producer and a consumer in their critical sections at once are at different slots |
| `PCQueue.StepIsQueueStep` | util/pcqueue.hh:92-124 | each step is a step of an atomic bounded FIFO or leaves it alone |
| `PCQueue.StuckOnlyWhenFullOrEmpty` | util/pcqueue.hh:92-124 | when no call can go on, all wait: producers for a full queue or consumers for an empty one; other threads may begin either call |
| `ThreadPool.ShutdownHandlesAll` | util/thread_pool.hh:69-76 | when the destructor returns every worker has taken one poison, and every earlier request has been handled exactly once, exactly if there were workers or no requests |
| `ThreadPool.HandledOnce` | util/thread_pool.hh:25-42 | at no time is anything handled that was not submitted, nor more often, and no more wait than the queue holds |
| `ThreadPool.ShutdownNotStuck` | util/thread_pool.hh:69-76 | until the destructor returns some step can be taken |
| `ThreadPool.ShutdownSteps` | util/thread_pool.hh:69-76 | and however the steps interleave, it returns after exactly as many as are left when it begins |
| `Pipeline.StepInv` | MEMT/Controller/Sentence.hh:75-108 | every step of connections, decoders and output workers keeps each request in one place and the numbers in flight those not yet sent |
| `Pipeline.RepliesInOrder` | MEMT/Controller/OutputHandler.hh:30-58 | for any order of decoding, each connection's replies have gone out for its requests in the order they were submitted, one each, and all of them once it is done waiting; and no output queue holds more than it has room for |
| `Pipeline.StepReceive` | MEMT/Controller/OutputHandler.hh:30-36 | the number of a received request is never less than the base, so the unsigned difference is right, and the slot it is put into is free |
| `Pipeline.ExactlyOnePlace` | MEMT/Controller/Sentence.hh:69-119 | each pooled request is in exactly one queue, buffer or hand |
| `Pipeline.NeverBlocks` | MEMT/Controller/Sentence.hh:84-108 | returning a request to the free queue and passing one to the decoders never block |
| `Pipeline.NotStuck` | MEMT/Controller/Sentence.hh:75-108 | while a submitted request has no reply, some decoder or output worker can go on |
| `Pipeline.InternalRunsEnd` | MEMT/Controller/OutputHandler.hh:30-58 | without new requests the decoders and output workers take one step less each time, and when they can take no more none is left, every submitted request has had its reply and every reply has been counted |
| `Pipeline.IdleWhenWaited` | MEMT/Controller/ConnectionHandler.hh:61-71 | when a connection has waited for its replies, the output backend it leaves to the next is empty and its counter zero, as its reset asserts |
| `Pipeline.CloseToReopen` | MEMT/Controller/ConnectionHandler.hh:57-71 | once the replies are out, a connection can close, wait for each reply it has not waited for, and leave its output backend as new to the next |
| `Transitive.CloseAlignment` | MEMT/Input/Transitive.cc:14-32 | finds the least set with the start that alignments do not lead out of |
| `Transitive.SameClosure` | MEMT/Input/Transitive.cc:43-54 | with alignments both ways, all words of a closure have the same closure |
| `Transitive.Input.Add` | MEMT/Input/Alignment.cc:13-17 | adds a kind of alignment, given that its assertion holds |
| `Transitive.Input.Tell` | MEMT/Input/Transitive.cc:72-78 | telling a word about its closure never violates the assertion |
| `Transitive.Input.MakeAlignmentsTransitive` | MEMT/Input/Transitive.cc:34-82 | every closure with at most one word per engine is made one complete class, the others are left unchanged, and the result is true either way |
| `Transitive.Erase` | MEMT/Input/Transitive.cc:50-62 | the counts find a conflict exactly if the closure has two words of one engine |
| `Transitive.CompleteClass` | MEMT/Input/Transitive.cc:34-82 | afterwards a word without conflict is aligned to exactly the words of its closure |
| `Transitive.StillSymmetric` | MEMT/Input/Transitive.cc:34-82 | afterwards alignments still go both ways, and closures are what they were |

## Left out

- Floating-point rounding, infinities and NaN: weights are reals, and no weight equals the value that marks a blank
  in the merge, which is an option here. The table sizes of AutoProbing are computed exactly, not in floats.
- Hash functions: keys are distinct numbers that differ from the invalid key, so there are no collisions.
- Files, memory mapping, sockets, ARPA parsing and the byte buffers that carry blanks' probabilities between passes
  over sorted files (`lm/search_trie.cc:58-228`): streams come sorted and without duplicates, and what weights are
  written for an n-gram of the trie is a parameter.
- Rest costs, quantization and `lm/partial.hh`: variations on the same walk. `UnRest` is zero here.
- PackedTrie.Pack: the orders are written as arrays first and then packed, one order after the other; the program
  packs each entry as it comes. Each order has its own memory, so nothing else differs.
- Trie.BuildTrie: fails for an order of 2^64 - 1 entries or more, where 64-bit indices would wrap; the program checks
  only the 57 bits of middle orders.
- Bhiksha.ArrayBhiksha.WriteNext: the low bits are written to the shared memory of the order, the table of high
  parts to an array of its own rather than to the same memory.
- BitPacking.WriteInt57: little-endian memory only, and sizes are unbounded integers, so `entries * bits` beyond 64
  bits is not modelled.
- HashedBuild.HashedSearch.Insert: the tables are one finite map with a count of room for each order, as
  Probing.ProbingHashTable allows; a file whose unigrams lack special words, or repeat an n-gram, is not modelled.
- Probing.ProbingHashTable.Insert: after it fails the counter has been increased, and nothing is said about later
  calls; AutoProbing's own `Insert`, which does not count entries, is left out, and so is CheckConsistency.
- KBest.Completed: scores are the overall scores; the vector of features goes through the same arithmetic. Histories
  are values, so sharing between paths is not represented. The set of sentences compares chains of nodes by identity,
  so paths are distinct but their words may not be.
- NBest.OpenNBest.Offer: equal scores may be dropped in any order. SetDropper and the resizing of storage are left out.
- PCQueue.Step: a step is one action on shared memory, with sequentially consistent memory; interrupted waits are
  retried in the code and are no step here.
- ThreadPool.Do, Pipeline.Do: operations on queues are atomic, as PCQueue.StepIsQueueStep allows. Handlers and
  decoders terminate and do not throw; failed replies and broken connections are left out. No caller submits the
  value that serves as poison.
- Transitive.Input.MakeAlignmentsTransitive: words are taken in any order rather than the least first, and the text
  is one nested sequence rather than objects that share nothing.
- The decoder's search, features, tuning, Java and Ruby scripts, and the build system.
