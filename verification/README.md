# Multi-pattern LIKE: a verified model

The repository answers SQL `LIKE` for many patterns at once. A pattern is cut at `%` into segments and at `_` into
literals; all literals of all patterns go into one Aho-Corasick automaton whose transitions are code points; while a
row is read, every literal hit drives a small positional matcher of its pattern. This project models that pipeline
and the structures it stands on, and proves that it computes `LIKE`.

The specification is `LikePredicate.LikeEscape`: the predicate of section 8.5 of ISO/IEC 9075-2:2003 with and without
an ESCAPE clause, over code points. It reads the pattern from left to right into symbols and matches those by
`LikePredicate.Like`; `LikePredicate.LikeEquals` and its neighbours say in plain terms what that makes of the usual
shapes of patterns. The code works on bytes, so patterns and texts are `Utf8.Encode` of code point sequences, and
every byte offset has to be related to a code point position.

## How the proof is layered

1. `utf8`, `utf8_form`, `utf8_bits`: the writer and reader, that they are UTF-8 bit by bit, and byte offsets of code
   points.
2. `like`: the predicate, and the two reference matchers of the repository.
3. `options`, `tokenizer`, `pattern_text`: the tokenizer with its one-byte look-back for escapes, and exactly which
   patterns it reads as their symbols say, offsets included (`PatternTexts.Source.Readable`).
4. `layout`, `skeleton`, `compiler`, `wildcard_only`: what a list of segments accepts, and that the compiler, with the
   folding of segments without literals, keeps the meaning of every pattern that is read right.
5. `lru_cache`, `delay_queue`, `matcher`: the mutable state of one pattern, each method tied to a function on values.
6. `alignment`, `capacity`, `runs`, `eviction`: the heart of the project. One pattern over one text is a transition
   system whose events are the hits, the stores of due queue items and the next code point, for caches of any
   capacities. Its invariant gives soundness whatever is evicted, and completeness as long as nothing live is evicted.
   `capacity` says which caches are large enough; `eviction` says exactly where the capacity the code picks stops
   being enough, for skeletons that are shown to be the compiler's only output for their patterns.
7. `trie`, `links`, `aho_corasick`, `scanning`: the byte trie with code point links, the breadth-first construction
   of suffix and output links, and the exact list of hits for every code point of a text.
8. `probing`, `parser`, `probe`: the imperative iterator, which is shown to make only steps that the transition
   system of every pattern allows, and the row loop. `Probe.AcProbe` is the end-to-end theorem.
9. `concurrent_insert`: any number of threads inserting at once by optimistic lock coupling, as a transition system
   on the same tree.
10. `flat_map`, `kmp`, `escape`: the Robin Hood hash table, the KMP search, and where the tokenizer's reading of the
    ESCAPE clause leaves its documentation.

Ghost parameters such as `codes` and `t` name the code points that the bytes encode. `iter.evicted[k]` is a ghost
record of whether the matcher of pattern `k` has, for this row, evicted an alignment whose next literal was still to
come; `Probe.AcProbe` ends in a state that the transition system of every pattern reaches with that record.

## Results that go against what the repository says

- `LruCapForSegment` is commented as large enough for every alignment that may be live (src/skeleton.cc:131-133). It
  is not. `EvictionLimits.ShapeExact` gives the exact limit for the patterns with two literals behind a `%`:
  with literals of `m` and `n` code points and `g` underscores between them, all such patterns are right on all texts
  if and only if `n <= m + g + 2`. `EvictionLimits.SampleNeverFound` gives the texts that are missed beyond it;
  `%a_aaaaa` on `aaaaaaa` is one of them. Of the patterns that are read right no report is ever wrong
  (`Runs.RunSound`), and no matching row is missed when every literal that follows another one in its segment has at
  most two code points (`Capacities.ShortRoomy`).
- The tokenizer documentation says that an escape character before an escape character is literal
  (src/include/aho_corasick/tokenizer.h:33-36). The code looks one byte back only, when it cuts at wildcards and when
  it counts the escapes in front of a literal. `EscapeClause.WildcardsReadRight` says when the wildcards are read
  right; `!!%` is not (`EscapeClause.EscapedEscape`). That is not all: `!!!!a_b` has its wildcard read right, but three
  bytes are counted where two are escapes, so `b` gets the offset at which the first literal ends
  (`EscapeClause.DoubledMiscounted`). `PatternTexts.ReadableIsExact` gives the condition for both together, and
  `EscapeClause.ProperIsExact` gives it for patterns that escape only what may be escaped: no escaped escape character
  stands before a wildcard, and none before another escaped symbol unless it is in the last literal of its segment.
  Every pattern that only escapes wildcards is read right (`Probe.WildcardsAccepted`).
- `SpecialMatchEmptyPattern` is documented for patterns of `%`, `_` and escape sequences (src/skeleton.cc:37-39).
  Counting wildcards is right for all texts if and only if the pattern has nothing but wildcards
  (`WildcardOnly.CountingIsExact`); `!%_` is one that it answers wrong (`WildcardOnly.EscapedIsMiscounted`). The row
  loop never asks it about such a pattern, because an escape sequence is a literal.
- `KMPAlgorithm::Match` is commented to return the first matching position (src/include/kmp/kmp.h:30). It returns the
  length of the pattern, which is the start of the first occurrence if and only if that starts there
  (`Kmp.KMPAlgorithm.Match`); `a` in `a` is an input for which it does not (`Kmp.NotThePosition`).

## Model

| member | source | states |
|---|---|---|
| Probe.AcProbe | benchmark/probe.h:78-96 | The end-to-end theorem, for every list of patterns that the tokenizer reads right, with or without an ESCAPE clause, every row, and an iterator left in any state by earlier rows: every pattern ends in a state that its transition system reaches, evictions included; a pattern that is reported matches the row by LIKE ... ESCAPE; it is reported exactly if it matches when it has no literal, when its matcher evicted no live alignment, when its caches meet the capacity bound, when its later literals are short, or when each segment's underscores or last offset leave room (`Capacities.Fitted`, a condition on the pattern alone); and the suffix links followed, counted from the trie and the text, are at most one per code point |
| Probe.WildcardsAccepted | src/tokenizer.cc:8-42 | Every pattern in which the escape character stands only before `%` and `_` is one that the tokenizer reads right, so the theorem covers it |
| Probe.BuildAc | benchmark/probe.h:53-70 | The automaton is fully linked, names exactly the literals of all patterns at their offsets, every skeleton accepts exactly the LIKE ... ESCAPE language of its pattern, and the wildcard-only list is complete |
| Probe.AnswerWildcards | benchmark/probe.h:80-89 | Patterns without a literal are answered as LIKE says, all others start as not matched |
| Probe.ProbeCodePoint | benchmark/probe.h:92-95 | One round of the row loop takes every pattern from a reachable state with nothing due to another one |
| Runs.RunSound | src/parser.cc:59-90 | For caches of any capacities: whatever is evicted and whatever stale queue items and entries survive: in every reachable state, a pattern that is reported is accepted |
| Runs.RunComplete | src/parser.cc:55-91 | For caches of any capacities: at the end of the text, if no live alignment was evicted, reported and accepted are the same |
| Runs.RunRoomy | src/skeleton.cc:131-138 | For any capacities that meet the bound, the pattern reaches no state in which a live alignment was evicted |
| Runs.SafeStep | src/parser.cc:55-159 | Hits in any order, stores of due items in any order, other patterns' traffic in the shared queue and the next code point all keep the invariant |
| Runs.SafeAlways | src/parser.cc:55-159 | Every reachable state satisfies it |
| Alignments.KeysMeet | src/skeleton.cc:204-208 | Two alignments that share the key `text_pos - pat_pos` are the same alignment or cannot be live at the same time, also with 64-bit wrap-around |
| Matchers.DiffIs | src/skeleton.cc:205-205 | The key is the difference modulo 2^64 |
| Alignments.HitElsewhere | src/skeleton.cc:180-183 | A hit of a literal of a segment already left or not yet reached is refused and changes nothing |
| Alignments.HitStays | src/skeleton.cc:175-220 | A hit that does not end the current segment keeps the alignment invariant, accepted or not, cache entry consumed or not |
| Alignments.HitAdvances | src/parser.cc:77-89 | A hit that ends a segment establishes the invariant for the next one, with what the old segment left in the queue harmless from then on |
| Alignments.HitCompletes | src/parser.cc:83-89 | A hit that ends the last segment certifies a split of the whole text |
| Alignments.FirstThroughIsEarliest | src/skeleton.cc:222-230 | The greedy choice: the first alignment of a segment to be through is the one that leaves most text to the rest of the pattern |
| Alignments.StoreKeeps | src/parser.cc:153-159 | Storing a due item keeps the invariant, and the only thing that can be lost is a live entry that falls out of the cache |
| Alignments.NextCodePoint | src/parser.cc:153-159 | Once nothing is due any more, moving to the next code point keeps the invariant: an item is popped exactly at its ready index |
| Alignments.UndecidedFails | src/parser.cc:55-91 | An undecided pattern at the end of a text is one that the text does not match, if nothing was lost |
| Capacities.EvictionNotRoomy | src/skeleton.cc:131-138 | Evicting a live alignment takes a segment whose capacity, whatever it is, is below (followed literals) x (longest later literal) and that is not tied to the start of the text |
| Capacities.TooManyLive | src/include/common/lrucache.h:19-34 | When the oldest entry is still live, there are no more entries than that bound, those of earlier segments included |
| Capacities.TiedCount | src/skeleton.cc:192-203 | A first segment tied to the start of the text never has more entries than literals |
| Capacities.ShortRoomy | src/skeleton.cc:134-138 | The capacity the code picks meets the bound for every pattern whose later literals have at most two code points, one literal per segment included |
| Capacities.CapExact | src/skeleton.cc:131-138 | The capacity of a compiled segment is one more than the larger of its longest run of underscores, as merged by the folding, and the offset of its last literal |
| Capacities.FittedRoomy | src/skeleton.cc:122-138 | So a pattern in which (followed literals) x (longest later literal) is at most one above either of the two, segment by segment, never loses a live alignment |
| Capacities.FollowedSpaced | src/skeleton.cc:134-138 | That capacity is at least twice the number of literals that another one follows |
| EvictionLimits.ShapeExact | src/skeleton.cc:131-138 | For all lengths of two literals and of the gap between them: all patterns of this shape, as compiled, are decided right by all runs over all texts if and only if the second literal is at most `m + g + 2` long |
| EvictionLimits.SampleCompiled | src/include/aho_corasick/skeleton.h:115-158 | For such a pattern the compiler's contract leaves one skeleton and one layout, the ones the limit is about |
| EvictionLimits.SampleExact | src/skeleton.cc:131-138 | For patterns that repeat one letter, being always right, that inequality and the capacity bound are equivalent |
| EvictionLimits.SampleNeverFound | src/skeleton.cc:131-138 | Beyond the limit no run over a text that repeats the letter reports the pattern, however long the text, although it matches |
| EvictionLimits.ShortRight | src/skeleton.cc:131-138 | Within the limit, for any two literals, every run over every text ends with the answer of LIKE |
| EvictionLimits.LongWrong | src/skeleton.cc:131-138 | Beyond the limit the patterns that repeat one letter are not always right: a run over a matching text ends without a report |
| Compiler.NewSkeleton | src/include/aho_corasick/skeleton.h:115-158 | For every pattern that is read right the segments are the maximal stretches without `%`, their literals the maximal stretches without `_`, with offsets that leave the escapes out, then folded; flags and counts stand for that layout; it accepts exactly the texts the pattern matches by LIKE ... ESCAPE; the reported spans without their escapes are its literals byte for byte; a pattern without spans holds wildcards only |
| Compiler.CompileSegment | src/include/aho_corasick/skeleton.h:120-145 | The literal loop stores a segment that describes its stretch of pattern completely: literals, every run of underscores, and the longest run |
| Compiler.FillSuffixFlags | src/include/aho_corasick/skeleton.h:148-154 | Every segment but the last is followed by a `%` exactly if the next one has it in front; nothing else changes |
| Compiler.FoldLiteralFreeSegments | src/skeleton.cc:92-129 | Afterwards every segment has a literal if more than one is left, the segments are the two foldings of those from before, with the same language and literals, and the largest underscore count covers the runs that became longer |
| Skeletons.FoldFirst | src/skeleton.cc:95-108 | `__%a` and `%__a` accept the same texts: a literal-free first segment may become leading underscores of the next |
| Skeletons.FoldBack | src/skeleton.cc:110-121 | A literal-free later segment may become trailing underscores of the one before it |
| Tokenizers.Tokenizer.NextSegment | src/tokenizer.cc:8-24 | Returns the next maximal stretch without a `%` (0x25) that is not escaped, and nothing only if such `%` are all that is left, with the cursor kept; the escape count starts again |
| Tokenizers.Tokenizer.NextLiteral | src/tokenizer.cc:26-42 | Returns the next maximal stretch of the segment without a `_` (0x5F) that is not escaped, with the number of escaped bytes counted in the stretches before it; nothing only if such `_` are all that is left |
| Tokenizers.Tokenizer.StripEscapes | src/tokenizer.cc:44-62 | The copy loop computes the literal without its escapes, also with a trailing escape character; without an escape character the bytes are handed out as they are |
| PatternTexts.ReadableIsExact | src/tokenizer.cc:8-42 | For every pattern: the tokenizer cuts where the wildcards stand and gives every later literal of a segment the right offset if and only if no wildcard stands behind an escaped escape character and the count of escapes in front of every such literal comes out even |
| PatternTexts.CountedClean | src/include/aho_corasick/skeleton.h:135-135 | In a pattern that is read right, the start of a later literal less the count is the length of what precedes it without the escapes |
| PatternTexts.StripToks | src/tokenizer.cc:44-62 | Stripping the bytes of any stretch of symbols gives the code points they stand for |
| PatternTexts.TokensAre | src/include/aho_corasick/tokenizer.h:33-36 | Every pattern that does not end in a bare escape character is a row of symbols: these give back its code points and the symbols that LIKE ... ESCAPE reads |
| PatternTexts.WildcardsEscaped | src/include/aho_corasick/tokenizer.h:33-36 | A pattern in which only wildcards are escaped is read right |
| WildcardOnly.SpecialMatchEmptyPattern | src/skeleton.cc:41-68 | Answers by the numbers of unescaped wildcards and of code points; that is LIKE for every pattern of wildcards only |
| WildcardOnly.LikeCounts | src/skeleton.cc:61-68 | Such a pattern matches the texts of exactly as many code points as it has underscores, and all longer ones if it has a `%` |
| WildcardOnly.CountingIsExact | src/skeleton.cc:37-68 | Counting is right for all texts if and only if the pattern has wildcards only |
| WildcardOnly.EscapedIsMiscounted | src/skeleton.cc:37-39 | A concrete pattern with an escape sequence that counting answers wrong |
| LruCaches.LRUCache.Upsert | src/include/common/lrucache.h:19-34 | List and map keep the same keys, once each; the contents are those of a plain list with the entry at the front, cut at the capacity |
| LruCaches.LRUCache.GetAndRemove | src/include/common/lrucache.h:36-43 | Returns the stored value of the key and takes exactly that entry out of list and map |
| LruCaches.LRUCache.Contain | src/include/common/lrucache.h:45-45 | The map answers what the list contains |
| LruCaches.LRUCache.Reset | src/include/common/lrucache.h:53-57 | Empties both, from any state, and sets the capacity |
| DelayQueues.DelayedMatchQueue.Schedule | src/include/aho_corasick/delay_queue.h:50-55 | Sifting the new item up keeps the array a heap; it holds one more occurrence of the item and nothing else changes |
| DelayQueues.DelayedMatchQueue.FrontReady | src/include/aho_corasick/delay_queue.h:78-80 | Looking at the top of the heap alone says whether any item is due |
| DelayQueues.DelayedMatchQueue.Front | src/include/aho_corasick/delay_queue.h:61-61 | The top is an item that no other one precedes |
| DelayQueues.DelayedMatchQueue.Pop | src/include/aho_corasick/delay_queue.h:58-58 | Moving the last item to the root and sifting it down keeps the array a heap and takes out one occurrence of the top |
| DelayQueues.RootEarliest | src/include/aho_corasick/delay_queue.h:78-80 | The heap order along the edges makes the root earliest of all |
| DelayQueues.DelayedMatchQueue.Clear | src/include/aho_corasick/delay_queue.h:72-74 | Popping until the heap is empty ends, from any heap |
| Matchers.Matcher.TryMatchingLiteral | src/skeleton.cc:175-220 | Accepts a hit exactly if it fits where the matcher stands; a hit that asks the cache uses the alignment up even when it is refused; only an accepted hit with a successor schedules one, at the right code point |
| Matchers.Matcher.AdvanceNextSegment | src/skeleton.cc:222-230 | Moves to the next segment with an empty cache of that segment's size, or past the last with the cache as it is |
| Matchers.Utf8Advance | src/skeleton.cc:82-90 | The byte loop computes the recursive walk |
| Matchers.AdvanceEncoded | src/skeleton.cc:82-90 | From a code point boundary of an encoded text the walk lands on the boundary `count` code points on, and fails exactly if the text ends before |
| Tries.ChainStep | src/aho_corasick.cc:84-105 | A suffix that cannot be extended may be skipped: the next one to try is the longest shorter suffix in the trie |
| Tries.ChainFound | src/aho_corasick.cc:84-105 | The first suffix on the chain that can be extended gives the longest suffix of the longer word |
| SuffixLinks.OutputIs | src/aho_corasick.cc:109-111 | The longest literal among the proper suffixes is the suffix node itself if it is terminal, else that node's output |
| SuffixLinks.BfsReached | src/aho_corasick.cc:36-60 | While a path is visited every path that is not longer has been seen, so no link is read before it is set |
| SuffixLinks.BfsPush | src/aho_corasick.cc:63-114 | Each child that enters the queue, with its links set if it ends a code point, keeps the invariant of the search |
| SuffixLinks.BfsEnd | src/aho_corasick.cc:36-116 | An empty queue means that every node that ends a code point has its exact links |
| AhoCorasicks.AhoCorasick.BuildSuffixLink | src/aho_corasick.cc:32-116 | Every non-empty word of the trie gets as suffix link its longest proper suffix in the trie at code point boundaries, as output link the longest one that is a literal or none; the tree itself is unchanged |
| AhoCorasicks.AhoCorasick.FindSuffix | src/aho_corasick.cc:82-107 | The climb along the links of shorter words ends at the longest proper suffix of the extended word |
| AhoCorasicks.AhoCorasick.LinkChild | src/aho_corasick.cc:63-114 | Exactly the links of that child become right, no other node's links change |
| AhoCorasicks.AhoCorasick.VisitCodePoint | src/aho_corasick.cc:118-127 | Following bytes from the node of a path gives the node of the longer path, and nothing exactly if the trie does not have it |
| AhoCorasicks.AhoCorasick.Insert | src/aho_corasick.cc:13-30 | Into any trie, linked or not: records the pattern position under the literal: one leaf and one id per distinct literal, ids without gaps, all other literals and positions unchanged, and the nodes still one tree that spells exactly the literals |
| AhoCorasicks.GrownShape | src/include/art/tree.h:104-121 | Hanging a bottom-up chain of new nodes into the tree leaves a tree with unique paths and right code point labels |
| AhoCorasicks.GrownSpells | src/include/art/tree.h:104-121 | It spells the old literals and the new one, and nothing else |
| AhoCorasicks.EndFlags | src/include/art/tree.h:61-70 | The level labels are true exactly for the prefixes that end a code point |
| Parsers.PatternAnalyzer.constructor | src/include/aho_corasick/parser.h:26-38 | After the build loop all skeletons mean their patterns, and the trie, which may have held literals before, names those and exactly the new patterns' literals with their offsets |
| Parsers.InsertLiterals | src/include/aho_corasick/parser.h:32-36 | Stripping and inserting the spans of one pattern adds exactly its literals at their offsets to what the trie names |
| Probing.NamedDisjoint | src/include/aho_corasick/aho_corasick.h:52-58 | The occurrence sets of two distinct literals are disjoint, because an offset of a pattern stands for one literal |
| Scanning.PartlyNew | src/include/aho_corasick/aho_corasick.h:52-58 | With disjoint sets, a position that comes next in a bitmap has not been emitted before at this code point |
| Scanning.CoveredIsEmission | src/include/aho_corasick/aho_corasick.h:52-58 | Once all suffixes are covered, the list holds every hit that ends here exactly once and nothing else |
| Parsers.TextParserIterator.FollowText | src/parser.cc:96-108 | Afterwards the node is the longest suffix of the consumed text that the trie has; the number of links followed is that of the suffixes in the trie that are shorter than where it started and no shorter than where it lands |
| Parsers.TextParserIterator.AppendResult | src/parser.cc:137-151 | Adds exactly the positions of one literal, in some order, each with its true start |
| Parsers.TextParserIterator.EmitAll | src/parser.cc:107-120 | The node and its chain of output links give every hit that ends at this code point, each once |
| Parsers.TextParserIterator.ContinueParseText | src/parser.cc:93-135 | After each code point of any text the buffer is exactly the set of (pattern, offset, start) occurrences that end there, without duplicates |
| Parsers.TextParserIterator.HandleHit | src/parser.cc:59-90 | One hit changes the matcher of its pattern, the queue and the result exactly as the transition system says, and no other pattern's |
| Parsers.TextParserIterator.IterateOneCodePoint | src/parser.cc:55-91 | All hits of a code point are handled once, every pattern stays in a reachable state, and results of patterns without literals stay untouched |
| Parsers.TextParserIterator.ProcessDelayedMatching | src/parser.cc:153-159 | Everything due is stored, for every pattern by steps of its own system, until nothing is due |
| Parsers.TextParserIterator.ResetText | src/parser.cc:30-43 | From any reachable state, also in the middle of a text, the iterator becomes like a new one on the next text |
| Parsers.TextParserIterator.ResetDirty | src/parser.cc:31-36 | Resetting the matchers on the dirty list brings all matchers to their initial state |
| Parsers.TextParserIterator.MarkDirty | src/include/aho_corasick/parser.h:127-132 | The list stays free of duplicates and agrees with the flags |
| Parsers.TextParserIterator.Progress | src/parser.cc:100-113 | In every valid state the links followed so far are the sum of those numbers over the code points read, and no more than these |
| Scanning.LinksPaid | src/parser.cc:100-104 | Every link followed for a code point shortens the longest suffix in the trie by at least one code point |
| Scanning.LinksLinear | src/parser.cc:93-113 | For every trie and text, the links followed up to any code point are at most as many as the code points |
| Parsers.TextParserIterator.constructor | src/parser.cc:5-28 | A new iterator has one matcher per pattern in its initial state, nothing dirty, nothing queued, and stands at the root |
| Probing.HitIs | src/parser.cc:59-70 | Every emitted hit names a pattern with a literal and is a hit of one of that pattern's literals at this code point |
| Probing.HitsAll | src/parser.cc:93-135 | No hit of any pattern is missing from what is emitted |
| Probing.HitKeeps | src/parser.cc:59-90 | One hit takes all patterns together from reachable states to reachable states |
| Probing.StoreStep | src/parser.cc:153-159 | So does storing one due item of the shared queue |
| Probing.Decided | src/parser.cc:55-159 | At the end of the text: a reported pattern LIKE-matches; without an early eviction reported and matching are the same; the capacity bound, or short later literals, rule such an eviction out |
| ConcurrentInsert.StepInv | src/include/art/tree.h:84-142 | Every atomic step of every call is possible and keeps the invariant: one tree, private chains apart, even versions for free nodes, what was read and is still validated is still true |
| ConcurrentInsert.InvAlways | src/include/art/tree.h:57-143 | It holds in every state of every interleaving of any number of calls |
| ConcurrentInsert.StepRefines | src/include/art/tree.h:104-138 | Seen from the literals and their positions each step is either invisible or exactly one insert, and no call has its effect twice |
| ConcurrentInsert.AllReturned | src/include/art/tree.h:118-137 | When all calls have returned: one leaf and one id per distinct literal, ids without gaps, each literal with the positions of exactly the calls that inserted it, nothing locked |
| ConcurrentInsert.InsertsLinearize | src/aho_corasick.cc:13-30 | Whatever the interleaving, the outcome is that of inserting the same literals one after the other: no insert is lost |
| ConcurrentInsert.BlameAlways | src/include/art/node.h:78-98 | In every reachable state a version that has moved on since it was read is explained by a lock that was taken since |
| ConcurrentInsert.RestartBlame | src/include/art/node.h:81-98 | A call restarts only because another call holds the node it came to, or locked that node or its parent since the version was read; a call that holds a lock never restarts |
| ConcurrentInsert.HolderProceeds | src/include/art/node.h:105-120 | A call that holds a lock never waits: at most five of its own steps and it has let go, of the one node it holds |
| ConcurrentInsert.FinishAlone | src/include/art/tree.h:72-142 | Run alone from any reachable state in which nobody else holds a lock, a call ends |
| ConcurrentInsert.NoDeadlock | src/include/art/tree.h:72-142 | From every reachable state there is a schedule after which all calls have returned |
| FlatMaps.Table.Find | src/include/common/flat_map.h:1198-1238 | For any hash function: finds a key exactly if the map has it, with its value; the unrolled probes and the early exit miss nothing |
| FlatMaps.Table.TryEmplace | src/include/common/flat_map.h:1176-1196 | Adds the pair if the key is new and changes nothing otherwise; the table doubles exactly if the values outgrow its capacity. It fails exactly if the key is new and all 2^32 indexes are taken, and then nothing has changed |
| FlatMaps.Table.Emplace | src/include/common/flat_map.h:1552-1582 | The same, with the value pushed first and taken back if the key was there or there is no room |
| FlatMaps.Table.DoPlaceElement | src/include/common/flat_map.h:1160-1174 | Placing a new key where its search ended adds exactly that pair, with or without growing, or fails with nothing changed exactly if every index is taken |
| FlatMaps.Table.EraseKey | src/include/common/flat_map.h:1136-1151 | Removes exactly that key and says whether it was there |
| FlatMaps.Table.EraseAt | src/include/common/flat_map.h:1676-1685 | Removes exactly the key of the value at an index |
| FlatMaps.Table.DoErase | src/include/common/flat_map.h:1115-1134 | Removes exactly the key the bucket points at, moving the last value into the gap with its bucket following |
| FlatMaps.Table.IncreaseSize | src/include/common/flat_map.h:1103-1113 | After doubling, all invariants hold for the same values and there is room for one more; at the largest bucket count it fails and takes the pushed value back |
| FlatMaps.Table.ClearAndFillBucketsFromValues | src/include/common/flat_map.h:1091-1101 | Filling empty buckets from the values establishes all invariants |
| FlatMaps.Table.NextWhileLess | src/include/common/flat_map.h:992-1003 | The search for a place passes only buckets farther from their home, never the key itself, and ends |
| FlatMaps.Table.Clear | src/include/common/flat_map.h:1409-1412 | Leaves the empty map |
| FlatMaps.PlaceAndShiftUp | src/include/common/flat_map.h:1005-1012 | Moves the buckets up to the next free one by one place each, one farther from home, and nothing else |
| FlatMaps.EraseAndShiftDown | src/include/common/flat_map.h:1014-1023 | Moves the buckets behind down to the first that is empty or at home, one nearer to home, and nothing else |
| FlatMaps.Backward | src/include/common/flat_map.h:992-1003 | The neighbour condition reaches back from a key to its home: no bucket on the way is nearer to its own |
| FlatMaps.SearchOver | src/include/common/flat_map.h:1198-1238 | The early exit is right: a key that is farther on would have pushed this bucket away |
| FlatMaps.SomeFree | src/include/common/flat_map.h:1067-1081 | With fewer values than buckets a bucket is free, which is why shifting up ends |
| FlatMaps.CapacityRoom | src/include/common/flat_map.h:1067-1081 | A value more than the capacity allows leaves a free bucket or means that all indexes are taken; only the largest table is used to the last bucket |
| FlatMaps.FourFifths | src/include/common/flat_map.h:1067-1081 | The capacity is the bucket count times the default load factor, rounded down: four fifths for tables below 2^24 buckets |
| FlatMaps.UpRests | src/include/common/flat_map.h:1014-1023 | Also a table that is filled to its last bucket has a key that is at home, which is why shifting down ends |
| FlatMaps.DownPartRest | src/include/common/flat_map.h:1014-1023 | Shifting down never passes a bucket at rest; if it goes all the way round a full table, what it meets there is at home by then |
| FlatMaps.UpSane | src/include/common/flat_map.h:1005-1012 | Placing and shifting up keeps the neighbour condition and the one-to-one relation of buckets and values |
| FlatMaps.DownSane | src/include/common/flat_map.h:1014-1023 | Shifting down keeps them for all values but the erased one |
| FlatMaps.Renumbered | src/include/common/flat_map.h:1115-1134 | Moving the last value into the gap and renumbering its bucket restores them for the shorter list |
| FlatMaps.HomeIsShift | src/include/common/flat_map.h:980-982 | The home of a hash is what the right shift of the code computes, for powers of two |
| FlatMaps.DfFields | src/include/common/flat_map.h:976-978 | A bucket's first number is the distance above eight bits of fingerprint, the lowest byte of the hash |
| FlatMaps.Table.FirstBucket | src/include/common/flat_map.h:980-982 | In every valid table of at most 2^64 buckets the home of a hash is the hash shifted right by 64 less the table's bits |
| LikePredicate.GreedyMatching | test/matcher.h:29-90 | The matcher that backtracks to the last `%` only terminates and decides LIKE, for all patterns and texts |
| LikePredicate.NljRecursiveMatch | benchmark/reference.h:43-104 | The recursive reference decides LIKE ... ESCAPE for every pattern and every escape character, a bare one at the end included |
| LikePredicate.LaterStarSuffices | test/matcher.h:29-90 | The exchange argument: whatever an earlier `%` could still reach, the later one reaches too |
| LikePredicate.StuckFails | test/matcher.h:29-90 | A mismatch rules out the current start of the block, so the text may be advanced by one |
| LikePredicate.LikeEquals | src/include/aho_corasick/tokenizer.h:26-37 | Without 0x25 and 0x5F in the pattern LIKE is equality |
| LikePredicate.LikeStartsWith | src/include/aho_corasick/tokenizer.h:51-51 | With 0x25 behind plain text LIKE says that the text starts with it |
| LikePredicate.LikeEndsWith | src/include/aho_corasick/tokenizer.h:51-51 | With 0x25 in front it says that the text ends with it |
| LikePredicate.LikeContains | src/include/aho_corasick/tokenizer.h:51-51 | With 0x25 on both sides it says that the text contains it |
| LikePredicate.LikeStartsAndEnds | src/include/aho_corasick/tokenizer.h:51-51 | With 0x25 between two plain texts it says that the text starts with one and ends with the other, without overlap |
| LikePredicate.LikeOneBetween | src/include/aho_corasick/tokenizer.h:52-52 | With 0x5F between two plain texts it says that the text is the two with exactly one code point between them |
| LikePredicate.LikeEscaped | src/include/aho_corasick/tokenizer.h:33-36 | With an escape character before the last character it says equality with that character, whatever it is |
| LikePredicate.LikeBareEscape | benchmark/reference.h:43-104 | With an escape character at the end and nothing behind it, nothing matches |
| Utf8.ReadWrite | src/include/common/utf8.h:165-185 | Reading what was written gives the code point back and stops right behind it, for all code points from 0 to 0x7FFFFFFF and whatever follows |
| Utf8.DecodeEncode | src/include/common/utf8.h:165-185 | A concatenation of encodings decodes to the original sequence, from every code point on |
| Utf8.EncodePrefix | src/include/common/utf8.h:15-55 | Encodings are prefix-free: a byte prefix that is an encoding is a code point prefix |
| Utf8Bits.FormIsWritten | src/include/common/utf8.h:15-53 | A byte string is the form of a code point by section 2 of RFC 2279 (as many leading ones as bytes, six bits a byte behind, the shortest possible) if and only if it is what the writer writes; there is a form exactly up to 0x7FFFFFFF |
| Utf8Bits.LengthIsOnes | src/include/common/utf8.h:147-153 | The length of a sequence is the number of leading ones of its header, for every byte |
| Utf8Bits.ContinuationIs | src/include/common/utf8.h:188-193 | A continuation byte is one whose two highest bits are 1 and 0 |
| Utf8Bits.ReadIs | src/include/common/utf8.h:123-185 | What the reader does on any bytes, malformed ones included, in terms of leading ones and payload bits |
| Utf8Forms.EncodeOrder | src/include/common/utf8.h:15-53 | Encoded texts sort byte by byte as the texts do code point by code point |
| Utf8.MoveBackwardsToCodePointBegin | src/include/common/utf8.h:188-193 | From any byte of an encoded text the walk back ends at the first byte of the code point the byte belongs to |
| Kmp.KMPAlgorithm.constructor | src/include/kmp/kmp.h:19-28 | Every table entry is the length of the longest proper border of that prefix |
| Kmp.KMPAlgorithm.Match | src/include/kmp/kmp.h:31-39 | Returns a number rather than the invalid position exactly if the pattern occurs; the number is the pattern length, and the start of the first occurrence exactly if that occurrence starts there |
| Kmp.NotThePosition | src/include/kmp/kmp.h:30-30 | A concrete input whose first occurrence starts elsewhere than the returned number says |
| EscapeClause.WildcardsReadRight | src/include/aho_corasick/tokenizer.h:81-87 | For every byte string: all wildcards are taken for what the documentation says exactly if none stands behind an even, non-zero number of escape characters |
| EscapeClause.OddRunEscapes | src/include/aho_corasick/tokenizer.h:33-36 | Read as documented, a character is literal exactly if an odd number of escape characters stands before it |
| EscapeClause.EscapedEscape | src/include/aho_corasick/tokenizer.h:81-82 | A concrete pattern that the code and the documentation read differently |
| EscapeClause.DoubledMiscounted | src/tokenizer.cc:37-41 | A concrete pattern whose wildcards are read right and whose later literal gets a wrong offset, so that the underscore in front of it is lost |
| EscapeClause.ProperIsExact | src/tokenizer.cc:26-42 | For patterns that escape only `%`, `_` and the escape character: read right, offsets included, if and only if an escaped escape character is followed by no wildcard and, in front of a later literal of its segment, by no other escaped symbol |
| EscapeClause.StripEscape | src/tokenizer.cc:44-62 | Stripping undoes escaping, for every byte string |
| EscapeClause.EscapeHidesWildcards | src/include/aho_corasick/tokenizer.h:81-87 | A literal written with escapes shows the tokenizer no wildcard if and only if the escape character is no wildcard itself or the literal has none |

## Left out

- Probe.AcProbe: the escape character is one ASCII character other than `%` and `_`, the pattern does not end in a
  bare one, and the tokenizer reads the pattern right; for the others, exactly when it does not is proved, what the
  matcher then answers is not.
- Compiler.NewSkeleton: the same patterns; what a skeleton with miscounted offsets accepts is not described. So it is
  with `Compiler.CompileSegment`, `Parsers.PatternAnalyzer.constructor` and `Probe.BuildAc`.
- WildcardOnly.SpecialMatchEmptyPattern: the same patterns.
- Probe.AcProbe: texts and patterns are well-formed, shortest-form UTF-8 without a zero byte, patterns have at most
  65535 bytes and texts less than 2^63; malformed and overlong input is not modelled.
- Runs.RunComplete: one direction only when something live was evicted, since a later alignment may still match. That
  the capacity bound is also necessary is proved for the shapes of `EvictionLimits`, not for every pattern.
- Runs.SafeStep: hits at one code point and due items may come in any order, so the order of bitmap iteration and of
  ties in the heap is left open.
- DelayQueues.DelayedMatchQueue.Pop: the heap is a sequence with the textbook sifting; the library behind
  `std::priority_queue` may swap in another order.
- LruCaches.LRUCache.Upsert: the hash map inside is a map and list iterators are node ids; the hash table is proved
  separately in `FlatMaps`.
- AhoCorasicks.AhoCorasick.Insert: nodes live in an arena under ids rather than as heap objects; `Insert` there is the
  run without interference, and `ConcurrentInsert` is the one with.
- ConcurrentInsert.StepInv: a call builds its private chain and publishes it in one step; versions do not wrap; memory
  orders, fences, yielding and pointer tagging are not modelled; memory is sequentially consistent.
- ConcurrentInsert.NoDeadlock: says that all calls can end, not that every fair schedule makes them end.
- FlatMaps.Table.Find: keys and values are numbers and the hash function is arbitrary; hashing arithmetic, segmented
  vectors, allocators, `replace_key`, range erase and user-set load factors are not modelled.
- FlatMaps.Table.NextWhileLess: distances are unbounded, so that the code's count of them has 24 bits is not modelled.
- Kmp.KMPAlgorithm.constructor: the table is a sequence of the pattern's length; that the code writes into reserved
  but unsized storage is not modelled. The empty pattern is outside.
- Packing a pattern id and an offset into 64 bits, and pattern ids of 32 bits.
- CRoaring bitmaps and the concurrent literal map are a set and a map.
- `ParseText` and the end-of-life of nodes, which add nothing to the per-code-point results.
- Benchmark harness, timing, memory measurement, the DuckDB binding, data sets, queries and build files: I/O.
