# libpsl build tools in Dafny

This project models the two programs that libpsl runs at build time to turn
the Public Suffix List into compiled-in data:

- **psl2c** loads the list into two sorted rule vectors, `suffixes` and
  `suffix_exceptions`. It refuses inconsistent lists: duplicate rules, three
  rules with the same text, a rule that is both a suffix and an exception,
  and a plain rule already covered by a wildcard rule. It then writes both
  vectors as C arrays, followed by four provenance definitions: file time,
  compile time, SHA-1 checksum and file name. Each outcome has its own exit
  code.
- **make_dafsa.py** turns the `domain, <digit>` lines of a gperf file into
  words. It builds a deterministic acyclic finite-state automaton (DAFSA)
  with one chain of nodes per word, then compresses it with `reverse`,
  `join_suffixes`, `reverse`, `join_suffixes` and `join_labels`. Finally it
  writes the automaton as a byte array in the grammar documented at the head
  of the script.

Modules:

| module | file | models |
|---|---|---|
| `PslCheck` | `psl_check.dfy` | `_check_psl_entries`, `_check_psl`, `_vector_get`, `_vector_find` (as a contract) |
| `PslEmit` | `psl_emit.dfy` | `_print_psl_entries`, the trailer and exit codes of `main`, `atol`, the `%hd`/`%lu` conversions |
| `Optional` | `optional.dfy` | the `Option` type shared by both programs |
| `Bits` | `bits.dfy` | `|`, `&`, `>>` and `1 << k` on naturals and their arithmetic meaning |
| `DafsaGraph` | `dafsa_graph.dfy` | the node/sink/source graph in an arena, the words a graph spells, `to_words` |
| `DafsaPaths` | `dafsa_paths.dfy` | words as paths from the source to the sink |
| `DafsaInput` | `dafsa_input.dfy` | `parse_gperf`, `to_dafsa` |
| `DafsaReverse` | `dafsa_reverse.dfy` | `reverse` |
| `DafsaJoinSuffixes` | `dafsa_join_suffixes.dfy` | `join_suffixes` |
| `DafsaJoinLabels` | `dafsa_join_labels.dfy` | `join_labels` |
| `DafsaTopSort` | `dafsa_top_sort.dfy` | `top_sort` |
| `DafsaLinks` | `dafsa_links.dfy` | `encode_links`, and the grammar's reading of offsets |
| `DafsaEncode` | `dafsa_encode.dfy` | `encode_prefix`, `encode_label`, `encode`, and a reader of the whole grammar |
| `DafsaPipeline` | `dafsa_pipeline.dfy` | `words_to_whatever` with the `bytearray` converter |

Python identifies nodes by object identity. Here the nodes of one graph live
in an arena, and a child is either the sink or an arena index. Every stage
builds arenas in which children sit below their parents. Python exceptions
become a `Result` with `InputError`, `IndexError`, `KeyError` or
`AssertionError`.

The stages of the DAFSA builder are proved against one reference meaning:
`Words(g)`, the set of words spelled along the paths from the source to the
sink.

- `to_dafsa` spells exactly the input words, with the last character of each
  word masked to its return value.
- `reverse` spells exactly the reversed words.
- `join_suffixes` and `join_labels` keep the words.
- `top_sort` gives every reachable node once, parents before children.
- The bytes that `encode` writes, read back by the grammar, spell the words
  of the graph.

## Model

| member | source | states |
|---|---|---|
| PslCheck.VectorGet | src/psl2c.c:104-106 | a position gives an entry exactly when it lies inside the vector, and then the entry at that position |
| PslCheck.VectorFind | src/psl2c.c:96 | a non-negative result is the position of an entry with the key's text; a negative one means no entry has that text |
| PslCheck.CheckEntries | src/psl2c.c:57-80 | reports an error exactly when two neighbouring entries share text and wildcard flag, or three neighbouring entries share text; fewer than two entries never fail |
| PslCheck.FlaggedStep | src/psl2c.c:65-76 | one more pair examined adds exactly a duplicate at that pair or a triplet ending there, which is what the doublet counter detects |
| PslCheck.FlaggedAll | src/psl2c.c:61-77 | after all pairs are examined, the flags raised are exactly "a duplicate or a triplet anywhere" |
| PslCheck.Grouped | src/psl2c.c:111-112 | in a sorted vector, entries with the same text are contiguous |
| PslCheck.RunAroundPos | src/psl2c.c:111-120 | any entry with the same text as the found one is at most one place away from it, unless a triplet surrounds the found position; checking the neighbours is enough |
| PslCheck.CheckSuffixesNotExceptions | src/psl2c.c:92-100 | reports an error exactly when some plain suffix rule also appears among the exceptions |
| PslCheck.ProbePlain | src/psl2c.c:106-120 | a hit means a plain suffix rule with that text exists; without duplicates and triplets the converse holds too |
| PslCheck.CheckExceptionsNotSuffixes | src/psl2c.c:102-122 | an error means some exception is also a plain suffix rule; without duplicates and triplets the converse holds too |
| PslCheck.FirstDot | src/psl2c.c:129 | the position of the first dot in the label, or none when the label has no dot |
| PslCheck.ProbeWildcard | src/psl2c.c:136-153 | a hit means a wildcard rule on the parent exists; without duplicates and triplets the converse holds too |
| PslCheck.CheckWildcardCoverage | src/psl2c.c:124-155 | an error means some plain multi-label rule is covered by a wildcard rule on its parent; without duplicates and triplets the converse holds too |
| PslCheck.CheckPsl | src/psl2c.c:82-158 | reports an error exactly when the lists hold a duplicate, a triplet, a suffix that is also an exception, or a rule covered by a wildcard |
| PslCheck.ExceptionCheckMirrorsSuffixCheck | src/psl2c.c:92-122 | the two cross checks between suffixes and exceptions refuse exactly the same lists |
| PslCheck.StrCompareZero | src/psl2c.c:65 | byte-wise comparison gives 0 exactly for identical texts |
| PslCheck.StrCompareFlip | src/psl2c.c:65 | byte-wise comparison is antisymmetric |
| PslCheck.StrCompareTrans | src/psl2c.c:65 | byte-wise comparison is transitive |
| PslCheck.StrCompareIsKeyOrder | src/psl2c.c:65 | byte-wise comparison meets the ordering the checks assume of the comparator |
| PslCheck.ExampleDoublets | src/psl2c.c:66-70 | `*.uk` next to `uk` is allowed; `uk` twice is refused |
| PslCheck.ExampleTriplet | src/psl2c.c:71-74 | `*.uk`, `uk`, `*.uk` in a row is refused |
| PslCheck.ExampleSuffixAndException | src/psl2c.c:92-122 | a plain `uk` that is also an exception is caught by both cross checks |
| PslCheck.ExampleCovered | src/psl2c.c:124-155 | `foo.example` is covered by `*.example` |
| PslEmit.AsShort | src/psl2c.c:186-187 | the value `%hd` prints: in the 16-bit signed range, congruent to the argument modulo 2^16, and equal to it when it fits |
| PslEmit.AsULong | src/psl2c.c:289-293 | the value `%lu` prints: below 2^64, congruent to the argument, and equal to it when it fits |
| PslEmit.PrintEntries | src/psl2c.c:160-191 | appends the banner, the array header, one record per entry and the closing line, and nothing else |
| PslEmit.ParseEntriesBlock | src/psl2c.c:181-190 | a parsed block has three lines more than it has entries |
| PslEmit.ParseEntriesBlockRoundTrip | src/psl2c.c:181-190 | reading an entries block back gives the array name and the entries, in order |
| PslEmit.ParseEntriesBlockExact | src/psl2c.c:181-190 | whatever reads as a block is exactly the block of what it reads to |
| PslEmit.AlnumPrefix | src/psl2c.c:282-283 | the checksum `fscanf` keeps: at most 63 leading letters and digits, stopping at the first other character |
| PslEmit.SpaceRun | src/psl2c.c:291 | the whitespace `atol` skips: a run of spaces followed by a non-space or the end |
| PslEmit.DigitRun | src/psl2c.c:291 | the digits `atol` reads: a run of digits followed by a non-digit or the end |
| PslEmit.AtolDecimal | src/psl2c.c:290-291 | `atol` reads back the decimal text of a number, with an optional sign |
| PslEmit.AtolUnsigned | src/psl2c.c:291 | `atol` of a run of digits is their decimal value |
| PslEmit.AtolSigned | src/psl2c.c:291 | `atol` honours a leading `-` or `+` |
| PslEmit.AtolSkipsSpace | src/psl2c.c:291 | `atol` ignores leading whitespace |
| PslEmit.PrintTrailer | src/psl2c.c:280-295 | appends file time, compile time (the epoch when `SOURCE_DATE_EPOCH` is set, else the clock), checksum and file name |
| PslEmit.Emit | src/psl2c.c:277-295 | the file holds the suffix block, the exception block and the trailer, in that order |
| PslEmit.ArtifactReadsBack | src/psl2c.c:277-295 | the written file splits back into the suffix entries, the exception entries and the trailer |
| PslEmit.ReproducibleBuild | src/psl2c.c:290-293 | with `SOURCE_DATE_EPOCH` set, the file no longer depends on the clock, and the compile time is the epoch |
| PslEmit.Compile | src/psl2c.c:239-304 | exit code 1 for wrong arguments, 2 when loading fails, 5 when the check fails (nothing written), 3 when the output cannot be opened, else the full file with 4 or 0 by the close result |
| DafsaInput.StripLeftSpec | src/make_dafsa.py:453 | left stripping removes exactly the leading whitespace |
| DafsaInput.StripRightSpec | src/make_dafsa.py:453 | right stripping removes exactly the trailing whitespace |
| DafsaInput.StripSpec | src/make_dafsa.py:453 | `strip()` leaves the slice between leading and trailing whitespace, with no whitespace at either end |
| DafsaInput.ParseGperf | src/make_dafsa.py:451-466 | every failure is an `InputError`; success gives one word per line |
| DafsaInput.ParseGperfAccepts | src/make_dafsa.py:458-465 | a file is accepted exactly when every stripped line ends in ", " and a hexadecimal digit |
| DafsaInput.ParseGperfWords | src/make_dafsa.py:466 | each word is the domain followed by the return digit |
| DafsaInput.GperfFormatLine | src/make_dafsa.py:459-466 | the gperf line of a word is accepted and gives the word back |
| DafsaInput.ParseGperfRoundTrip | src/make_dafsa.py:451-466 | parsing the gperf lines of a list of words gives the list back |
| DafsaInput.Mask | src/make_dafsa.py:214 | `chr(ord(c) & 0x0F)` keeps the low four bits of the character |
| DafsaInput.MaskLastCons | src/make_dafsa.py:215 | masking the last character commutes with taking off the first |
| DafsaInput.ToNodesError | src/make_dafsa.py:209-215 | a chain fails exactly for an empty word (`IndexError`) or a character outside 0x20..0x7F (`InputError`) |
| DafsaInput.ToNodesChain | src/make_dafsa.py:209-215 | a valid word becomes a chain, appended to the arena, that spells the word with its last character masked |
| DafsaInput.OneWordNode | src/make_dafsa.py:215 | a node over a chain spelling one word spells its label followed by that word |
| DafsaInput.ChainsError | src/make_dafsa.py:216 | building the chains fails exactly when some word is invalid, with the error of the first invalid word |
| DafsaInput.ChainsSpell | src/make_dafsa.py:216 | for valid words, one chain per word, each spelling its masked word |
| DafsaInput.ToDafsaError | src/make_dafsa.py:201-216 | `to_dafsa` fails exactly on an empty list (`InputError`) or an invalid word (the first one's error) |
| DafsaInput.ToDafsaWords | src/make_dafsa.py:201-216 | for valid words, the graph spells exactly the masked words, each source child one word |
| DafsaGraph.ToWordsLang | src/make_dafsa.py:219-223 | `to_words` lists exactly the words spelled from the node to the sink |
| DafsaGraph.ChildWordsLang | src/make_dafsa.py:223 | the words through the children are the node's label followed by the children's words |
| DafsaGraph.LangOfMember | src/make_dafsa.py:223 | a word is spelled by a list of children exactly when one of them spells it |
| DafsaGraph.ClosedHoldsReachable | src/make_dafsa.py:248-249 | a set holding the source's nodes and closed under children holds every reachable node |
| DafsaPaths.ChainInLang | src/make_dafsa.py:219-223 | a path of nodes ending at the sink spells a word of its first node |
| DafsaPaths.LangHasChain | src/make_dafsa.py:219-223 | every word of a node is spelled by a path that starts there |
| DafsaPaths.LangOfChains | src/make_dafsa.py:219-223 | a word is spelled by a list of children exactly when a path from one of them spells it |
| DafsaReverse.MirrorEdge | src/make_dafsa.py:242-246 | the reversed graph has an edge from x to p exactly when the old one has a reachable p with child x |
| DafsaReverse.MirrorSinkEdge | src/make_dafsa.py:239-240 | a reversed node leads to the sink exactly when its old node was a child of the source |
| DafsaReverse.MirrorSourceEdge | src/make_dafsa.py:239-240 | a reversed node is a source child exactly when its old node was reachable and led to the sink |
| DafsaReverse.MirrorSourceSink | src/make_dafsa.py:248-250 | the sink is a source child of the reversed graph exactly when it was one of the old graph |
| DafsaReverse.MirrorText | src/make_dafsa.py:242 | a reversed node's label is its old label reversed |
| DafsaReverse.MirrorChain | src/make_dafsa.py:226-251 | a source-to-sink path of the old graph, flipped, is one of the reversed graph spelling the reversed word |
| DafsaReverse.MirrorChainBack | src/make_dafsa.py:226-251 | a source-to-sink path of the reversed graph, flipped, is one of the old graph spelling the reversed word |
| DafsaReverse.MirrorWords | src/make_dafsa.py:226-251 | the reversed graph spells a word exactly when the old one spells its reversal |
| DafsaReverse.VisitSink | src/make_dafsa.py:239-240 | reaching the sink adds the parent to the new source and changes nothing else |
| DafsaReverse.AgainInv | src/make_dafsa.py:245-246 | a node visited again only gains the parent as one more child |
| DafsaReverse.Dfs | src/make_dafsa.py:233-246 | one `dfs` call adds exactly the reversed edges of the nodes it first visits, plus the edge to the parent |
| DafsaReverse.Expand | src/make_dafsa.py:241-244 | the first visit of a node creates its reversed node and visits each child with it as parent |
| DafsaReverse.SourceStep | src/make_dafsa.py:248-249 | each source child visited adds its references to the new graph |
| DafsaReverse.Reverse | src/make_dafsa.py:226-251 | the reversed graph mirrors the reachable part of the old one and spells exactly the reversed words |
| DafsaJoinSuffixes.Record | src/make_dafsa.py:296-297 | recording a new node under its word set keeps every recorded node spelling its set |
| DafsaJoinSuffixes.RecordCanonical | src/make_dafsa.py:296-297 | recording a node under a word set not yet recorded keeps every node of the arena the one recorded under its own words |
| DafsaJoinSuffixes.ChildrenShorter | src/make_dafsa.py:223 | a node's children spell no longer words than the node, and strictly shorter ones when its label is not empty and it spells a word |
| DafsaJoinSuffixes.JoinNew | src/make_dafsa.py:295-297 | a node built for a word set not yet recorded is recorded under it, earlier keys keep their nodes, and the children's keys cannot collide with it when its label is not empty |
| DafsaJoinSuffixes.Join | src/make_dafsa.py:291-298 | the result is the node recorded under the old node's word set and spells it; every key recorded before keeps its node; new keys have no longer words than the old node; the arena only grows and, over labelled live nodes, stays one node per word set |
| DafsaJoinSuffixes.JoinAll | src/make_dafsa.py:297 | each joined child is the node recorded under the old child's word set, and spells it; earlier keys keep their nodes |
| DafsaJoinSuffixes.JoinSuffixes | src/make_dafsa.py:285-300 | each new source child spells what the old one did, so the graph keeps its words; source children with equal word sets get the same node; when every reachable node has a label and spells a word, no two new nodes spell the same word set |
| DafsaJoinSuffixes.CanonicalMinimal | src/make_dafsa.py:295-297 | an arena whose every node is the one recorded under its word set has no two nodes with the same word set |
| DafsaJoinLabels.CountParents | src/make_dafsa.py:260-267 | one call adds one reference to its node, plus the references from the children lists of the nodes it first visits |
| DafsaJoinLabels.CountAll | src/make_dafsa.py:257-281 | the counts are 2 for the sink and, for every reachable node, its number of references from the source and from reachable nodes |
| DafsaJoinLabels.MergesOneToOne | src/make_dafsa.py:273 | with the final counts, a node is merged exactly when it has a single child that is a node with no other reference |
| DafsaJoinLabels.KeptLang | src/make_dafsa.py:276-277 | a node rebuilt over its joined children spells what it spelled |
| DafsaJoinLabels.MergedLang | src/make_dafsa.py:273-275 | a node fused with its only child spells what it spelled |
| DafsaJoinLabels.Join | src/make_dafsa.py:269-278 | the node recorded for an old node spells the same words and is shaped as `join` builds it |
| DafsaJoinLabels.JoinAll | src/make_dafsa.py:272 | every child gets a recorded node, and the result is the list of them |
| DafsaJoinLabels.JoinLabels | src/make_dafsa.py:253-282 | each source child spells the same words; every reachable node is fused with its child exactly when the link is one-to-one |
| DafsaTopSort.CountIncoming | src/make_dafsa.py:307-315 | one call adds one reference to its node, plus the references from the children lists of the nodes it first visits; the sink is skipped |
| DafsaTopSort.CountAllIncoming | src/make_dafsa.py:317-318 | the counts exist for exactly the reachable nodes, and each is the node's number of references |
| DafsaTopSort.Discount | src/make_dafsa.py:320-321 | fails with `KeyError` exactly when the sink is a source child; otherwise each count loses the source's references |
| DafsaTopSort.Zeros | src/make_dafsa.py:323 | the waiting list is the source children with count 0, without repeats when the source has none |
| DafsaTopSort.PopStep | src/make_dafsa.py:327-329 | the popped node has count 0, and emitting it keeps the algorithm's invariant with its children pending |
| DafsaTopSort.DecStep | src/make_dafsa.py:331-334 | releasing one reference to a child keeps the invariant, and the child waits exactly when its count reaches 0 |
| DafsaTopSort.Release | src/make_dafsa.py:330-334 | after the children loop no reference is pending, and the waiting list grows by the counts that reached 0 |
| DafsaTopSort.NoneLeft | src/make_dafsa.py:326 | when nothing waits, every reachable node has been emitted |
| DafsaTopSort.StartKahn | src/make_dafsa.py:320-324 | the initial counts and waiting list meet the algorithm's invariant |
| DafsaTopSort.Drain | src/make_dafsa.py:326-335 | the loop ends; its only failure is the assertion; for a source without repeats it emits every reachable node once, parents first |
| DafsaTopSort.TopSort | src/make_dafsa.py:303-335 | `KeyError` exactly when the sink is a source child; otherwise, for a source without repeats, every reachable node once, parents before children |
| DafsaLinks.EncodeOffset | src/make_dafsa.py:355-366 | a distance takes one to three bytes, the first with bit 7 clear |
| DafsaLinks.EncodeOffsetBits | src/make_dafsa.py:355-366 | the bytes are those of the shifts, masks and tags the encoder uses |
| DafsaLinks.ReadEncodeOffset | src/make_dafsa.py:54-60 | reading an encoded offset by the grammar gives the distance, its size and its end flag back |
| DafsaLinks.ReadFlagged | src/make_dafsa.py:70-81 | reading marked offsets by the grammar gives the distances back, whatever follows them |
| DafsaLinks.SortDesc | src/make_dafsa.py:346 | the sorted children are a permutation of the children, in decreasing offset |
| DafsaLinks.Dists | src/make_dafsa.py:348-369 | the first distance is measured from the links' end, every later one from the previous child |
| DafsaLinks.LinksPass | src/make_dafsa.py:348-369 | the inner loop succeeds exactly when every distance lies in (0, 2^21); the buffer is then the encoded distances |
| DafsaLinks.LinksShorter | src/make_dafsa.py:370-372 | a shorter guess never gives a longer buffer |
| DafsaLinks.Refit | src/make_dafsa.py:370-372 | a wrong guess is followed by a strictly smaller one that still fits, so the loop ends |
| DafsaLinks.Attempt | src/make_dafsa.py:347-372 | one round succeeds exactly when every distance measured from the guessed end lies in (0, 2^21); it then gives the buffer for the guess, whether it was exact, and a strictly shorter guess otherwise |
| DafsaLinks.Settle | src/make_dafsa.py:344-374 | the result holds marked offsets whose first distance is measured from their own end, and no longer length up to three bytes per link is self-consistent; the loop succeeds whenever the distances are in range for one and for three bytes per link |
| DafsaLinks.Overshot | src/make_dafsa.py:347-374 | a guess that led to a shorter buffer rules out every length between the buffer's and the guess |
| DafsaLinks.InRangeBetween | src/make_dafsa.py:344-372 | distances in range for one and for three bytes per link are in range for every guess in between, the only guesses the loop makes |
| DafsaLinks.InRangeOf | src/make_dafsa.py:346-353 | distinct children at distinct offsets, none past the current length, are in range when the current length plus three bytes per child stays below 2^21 |
| DafsaLinks.EncodeLinks | src/make_dafsa.py:338-376 | `IndexError` without children; `[]` for the sink alone; `KeyError` for a child not yet written; otherwise, reversed, the marked distances to the sorted children, of the longest self-consistent length, or the assertion; no assertion when the sorted children are in range for every guess |
| DafsaLinks.EncodedUnique | src/make_dafsa.py:344-376 | two encodings of the same children that are both the longest self-consistent one are equal, so the result is determined |
| DafsaLinks.ExampleLongest | src/make_dafsa.py:347-375 | for one child 62 bytes back both one byte and two bytes are self-consistent encodings, and the longest, the two-byte one, is the only one the contract allows |
| DafsaLinks.EncodedSize | src/make_dafsa.py:355-366 | the links take one to three bytes per child |
| DafsaEncode.EncodePrefix | src/make_dafsa.py:379-387 | the assertion for an empty label, otherwise the label's codes, reversed |
| DafsaEncode.EncodeLabel | src/make_dafsa.py:390-396 | the assertion for an empty label, otherwise one byte per character |
| DafsaEncode.EncodeLabelMarked | src/make_dafsa.py:390-396 | for a seven-bit label, the label's codes reversed, the last character with bit 7 set |
| DafsaEncode.NodeWordsShift | src/make_dafsa.py:102-106 | a node reads the same whatever precedes it in the array |
| DafsaEncode.CodesDecode | src/make_dafsa.py:62-65 | characters below 0x80 read as a prefix of the words that follow |
| DafsaEncode.ReturnDecode | src/make_dafsa.py:67 | a return-value byte ends the word with that value |
| DafsaEncode.EndDecode | src/make_dafsa.py:83 | a label's last character is followed by its offsets, leading to the children |
| DafsaEncode.TargetsDecode | src/make_dafsa.py:102-106 | distances to written children read as the words of those children |
| DafsaEncode.LangOfSorted | src/make_dafsa.py:346 | sorting the children does not change their words |
| DafsaEncode.OffsetsDecode | src/make_dafsa.py:83 | a label followed by the offsets of its children reads as the label followed by the children's words |
| DafsaEncode.PrefixNodeDecode | src/make_dafsa.py:405-407 | a node written as a prefix of its only child, written just before, reads as its words |
| DafsaEncode.EndNodeDecode | src/make_dafsa.py:340-343 | a node over the sink alone, written as its label, reads as its words |
| DafsaEncode.LinksNodeDecode | src/make_dafsa.py:409-410 | a node written as links and label reads as its words |
| DafsaEncode.EncodeLinked | src/make_dafsa.py:408-410 | links then label: the output grows by at most the node's cost, reads as the node's words for a node ready to write, and fails only on the assertion, never when the links are in range |
| DafsaEncode.EncodeNode | src/make_dafsa.py:405-410 | the output grows by at most the label plus three bytes per child and, for a node ready to write, reads as the node's words from its start, or fails on the assertion; it succeeds when the node's links are in range for every guess |
| DafsaEncode.TightStep | src/make_dafsa.py:404-411 | written nodes keep distinct offsets no later than the output's end, and the output stays within the costs of the written nodes |
| DafsaEncode.TightFit | src/make_dafsa.py:404-410 | in a compact graph the links of the next node to write are in range |
| DafsaEncode.TightSource | src/make_dafsa.py:413 | in a compact graph the links of the source list are in range |
| DafsaEncode.ChildrenPlaced | src/make_dafsa.py:404-406 | in topological order, a node's children are written before it |
| DafsaEncode.ProgressStep | src/make_dafsa.py:404-411 | recording the new node's offset keeps every written node readable |
| DafsaEncode.SourceDecode | src/make_dafsa.py:413-414 | the source's links, then the reversal, give an array that reads as the graph's words |
| DafsaEncode.Encode | src/make_dafsa.py:399-415 | `KeyError` when the sink is a source child; for a graph the grammar can spell, the array read back spells exactly the graph's words, or the distance assertion fails; a compact graph (distinct children, and the arena plus the source links under 2^21 bytes) is always encoded |
| DafsaEncode.ExampleDecode | src/make_dafsa.py:134-138 | the documented array of the example reads as "aa" with value 1 and "a" with value 2 |
| DafsaPipeline.ReverseTwice | src/make_dafsa.py:436 | two reversals give back the words they started from |
| DafsaPipeline.Compress | src/make_dafsa.py:436-437 | the five compression passes keep the words |
| DafsaPipeline.WordsToBytes | src/make_dafsa.py:433-438 | the errors of `to_dafsa` pass unchanged; for valid words the compressed graph spells the masked words; when that graph is encodable, the array spells exactly those words or an assertion fails, and nothing fails when it is also compact |

## Left out

- The C text of the generated files is not modelled. Each `fprintf` is one `Line` value, and the banner variants for the punycode libraries are one `Banner`.
- Messages printed to `stderr` are not modelled; only the verdicts and exit codes are.
- `psl_load_file` is not modelled. Its result is an input to `PslEmit.Compile`, absent on failure.
- `_suffix_compare` is not modelled. It is a comparator parameter, required to be a total order that is 0 only for equal texts, and it compares rule texts. psl.c's comparison of label count and length is not part of this model.
- PslCheck.VectorFind: only `_vector_find`'s contract is stated. Which of several equal entries the binary search finds is left open.
- PslCheck.ProbePlain: exact only when the suffix vector has no duplicate or triplet. Otherwise the result depends on which equal entry the search finds. `CheckPsl` refuses those vectors anyway.
- PslCheck.ProbeWildcard: exact only without duplicates or triplets, for the same reason.
- PslCheck.CheckExceptionsNotSuffixes: exact only without duplicates or triplets, for the same reason.
- PslCheck.CheckWildcardCoverage: exact only without duplicates or triplets, for the same reason.
- The file system, the `sha1sum` pipe, `stat`, `getenv` and `time` are not modelled. What they return is a `Provenance` parameter.
- `atol` beyond the range of `long` is undefined in C. The model reads the value unbounded and reduces it modulo 2^64 for `%lu`.
- The branch of `main` built without an IDNA library (fixed empty arrays) is not modelled.
- `_str_needs_encoding` and `_add_punycode_if_needed` are compiled out and not modelled.
- `to_cxx`, `words_to_cxx` and the argument and file handling of make_dafsa.py's `main` are not modelled. They are text formatting and I/O.
- DafsaPipeline.WordsToBytes: `bytearray`'s own check that every value is below 256 is not modelled.
- DafsaPipeline.WordsToBytes: the compressed graph is not proved encodable or compact. Encodable means distinct source children and non-empty seven-bit labels whose last character is a return value exactly at the end of a word. Compact means distinct children in every reachable node and an arena whose labels plus three bytes per child and per source link stay below 2^21. The words of the bytes, and success, are stated under those conditions.
- DafsaPipeline.WordsToBytes: nothing is stated about the result when the compressed graph is not encodable. A word given twice is such a case: `to_dafsa` accepts it, the compressed graph has an end node with the sink twice among its children, and Python fails on the end-label assertion (src/make_dafsa.py:342), not on a distance.
- DafsaJoinSuffixes.JoinSuffixes: that no two new nodes spell the same word set is stated only when every reachable node has a non-empty label and spells a word. Without that, a node's key can first be recorded by one of its descendants, and Python then overwrites it. The pipeline does not derive the premise for the graphs it compresses.
- DafsaEncode.Encode: correctness is stated only for graphs the grammar can spell. For other graphs only the `KeyError` case is stated. Success is stated for compact graphs only, a sufficient condition: a graph that is not compact may still encode.
- DafsaLinks.Settle: success is stated when the distances are in range for one and for three bytes per link, a sufficient condition. The exact condition is that the last guess tried is in range, and `Attempt` states it round by round.
- DafsaLinks.EncodeLinks: success is stated under the same sufficient condition as `Settle`.
- DafsaEncode.EncodeNode: success is stated when the node's links are in range for every guess, a sufficient condition, not an exact one.
- DafsaEncode.ExampleDecode: only the decoding of the documented array (src/make_dafsa.py:111-138) is proved. That the pipeline produces exactly those bytes from the example words is not derived: the bytes depend on the stack order of `top_sort` and the child order of `reverse`, which the model's contracts leave open.
- DafsaTopSort.TopSort: the order is stated only when no node appears twice among the source's children. With a repeat, Python puts the node on the stack twice, and that path is not characterised.
- DafsaTopSort.Drain: the same restriction as `TopSort`.
- The grammar documents a return value as the byte `& 0x0F`, while the reader here takes its low seven bits below 0x20. The two agree on everything `to_dafsa` produces, because it masks the value to four bits.
- DafsaReverse.Reverse: the reversed node of old node `x` sits at index `n-1-x`. Unreachable old nodes leave empty placeholder nodes that nothing references.
- Object identity is modelled by arena indices: two Python references to one node are two equal indices. A node can be updated after it is shared. In `reverse`, a later visit appends a parent to a reversed node's children (src/make_dafsa.py:246); the model updates that node's arena slot, and every index to it sees the change.
- DafsaLinks.SortDesc: stability is not stated, only a permutation in decreasing offset. Python's `sorted` keeps children with equal offsets in input order. Distinct written nodes have distinct offsets, so ties only join equal children, whose order does not matter.
