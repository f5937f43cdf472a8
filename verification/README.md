# A model of the IMS Open Corpus Workbench in Dafny

The Corpus Workbench (CWB) stores corpora in compressed, indexed form and searches them with regular
expressions. Many of its parts are fast forms of something simple: a filter in front of the regex
engine, an index built in several passes with little memory, positions stored as gaps in a bit stream,
item numbers stored as Huffman codes behind a one-block cache, tags sorted so that they nest, tables
that are really finite maps or sets. This project models those parts step by step, as the C code has
them, and proves that each fast form agrees with the simple one.

`dafny verify dfyconfig.toml` checks the whole project.

## The main results

* **Regex optimiser** (`Regex*.dfy`, `Regopt*.dfy`, `LexiconScan.dfy`). Regular expressions are trees with a printer
  and a full-match language. The scanners of `cl/regopt.c` are methods that move through the text. They
  equal functions on the remaining text, and these equal a scan of the tree (`RegoptTree.AnalyseText`).
  Whatever the language contains has a stored grain in it, where the anchors say
  (`RegoptSound.GrainSoundness`); cutting the grains keeps that; the Boyer-Moore search finds an occurrence
  exactly if there is one. `RegoptWords` says what is stored for the expressions the optimiser was made for, lists
  and groups of words between wildcards; since plain literals count as wildcards behind a word, of `abc.*defgh` only
  `abc` is stored and the heuristic that prefers longer grains gets no choice. So, wherever the next three points do not apply, the optimised match equals the engine, and
  `cl_regex2id` lists exactly the matching ids.
* **Three claims of the optimiser are wrong**, and each is delimited. (1) It claims an end anchor for
  a grain whose last symbol is quantified: `abc+` is taken for "ends with `abc`", and `abcc` is lost. For every
  accepted regex, disjunctions included, `RegexMatch.FilterExact` says exactly when the surviving end anchor is right: if
  and only if each image of the literals at the end of the regex ends with a cut grain. For a single grain
  `RegoptLimits.EndAnchorExact` turns that into a condition on the syntax of those literals. (2) `read_kleene`
  takes any digits and commas in braces for a quantifier, while PCRE takes `{}`, `{,3}` or `{1,2,3}` literally, so that
  `abc{}` is lost (`RegoptLimits.BracesFailure`). The tree language gives such braces their literal meaning; a start
  anchor and the grain survive it, and the end anchor falls under (1). (3) `read_matchall` takes `[^]` for a
  complete set, while for the engine the set goes on: for every regex `[^]w[m]` the grain `w` is stored although only
  single characters match (`RegoptLimits.NegatedSetFailure`). `Regular` excludes sets that begin so.
* **Inverted index** (`MakeComps.dfy`, `Postings.dfy`, `Queries.dfy`). The multi-pass counting sort is right for every
  corpus and every buffer size, including 0. Plain and compressed readers return the same positions, under
  any sorted restrictor list and for any split of the stream reads; `Postings.IndexRoundTrip` builds the index of any corpus,
  compresses it and reads it back. `Queries.Matchlist.MatchedPositions`
  puts the parts together: a regex query yields exactly the ascending positions whose string matches.
* **Compression** (`BitIO.dfy`, `Golomb.dfy`, `Huffman*.dfy`). Bit streams and Golomb codes round-trip. The Huffman
  encoder of `utils/cwb-huffcode.c` is modelled too: from the array that is heap, parent table and depth
  table at once comes a full binary tree, so its depths satisfy Kraft's equality, so the canonical
  codes are well-formed, so `cl_cpos2id` returns the plain item for any run of accesses
  (`HuffmanLengths.RoundTrip`). The heap always yields two least frequent roots, so no prefix code needs fewer bits
  (`HuffmanOptimal.DepthsOptimal`), and codes of 32 bits, which compression refuses, need at least 5702887 tokens
  and types.
* **Concordance output** (`Tags.dfy`, `LeftContext.dfy`). Over all positions the tags form a matched bracket
  word in which every region is opened and closed exactly once, around exactly its tokens. The left character context
  is the last `width` characters of the blank-padded left tokens, and the patched
  offsets are the exact places of the tokens shown.
* **Tables, sets, searches** (`LexHash.dfy`, `Primes.dfy`, `FeatureSets.dfy`, `SetIntersection.dfy`, `Searches.dfy`, `AttHash.dfy`, `Binsert.dfy`,
  `Sorting.dfy`). The hash tables refine finite maps under any run of operations with automatic growth. Feature sets
  are normal forms of multisets; their intersection is wrong for some empty elements, and
  `SetIntersection.EmptyElements` says for exactly which. The searches find what is there, in logarithmically many steps, so their
  guards never fire. Probing keeps every key in one bucket.

## How the model is laid out

Text is a sequence of 8-bit characters. Objects that the C code updates are classes, loops are loops,
and each such method is proved against a function or predicate of its inputs and the old state.
Pointers into a text are indices. Integers are unbounded unless a width matters (bytes, 32-bit words of
the bit streams, the size of a table that an `int` can index). The engine of a compiled regex is a predicate
on strings that agrees with the tree's language; qsort is the sorted permutation, which under a total
order is unique (`Sorting.SortedUnique`); hash functions and the choice of the Golomb parameter are arbitrary functions.

Where code and comments differ, the model follows the code: `read_escape_seq` expects `\oo...}` where
its comment has `\o{...}`; the comment of `read_kleene` lists `{,m}` as a quantifier, which PCRE takes literally; `is_prime` calls 1 a prime, so `find_prime(1)` is 1; feature sets may have empty elements, for
which `cl_set_intersection` compares whatever an earlier call left in its buffers; `get_alignment` reads one
number behind its table for positions behind the last boundary.

## Model

| member | source | states |
|---|---|---|
| RegoptReaders.Run | cl/regopt.c:646-651 | the longest run of characters with a property: all in it have it and the next has not |
| RegoptReaders.WorthOfLength | cl/regopt.c:1084-1091 | which of two grain sets wins: each further character is worth a factor of three in the number of grains, up to a difference of one; beyond that the longer set wins |
| RegoptReaders.NoFlipFlop | cl/regopt.c:1084-1091 | of two sets that differ in length or number exactly one is better than the other |
| RegoptParse.MembersText | cl/regopt.c:728-739 | reading the members of a set stops at its closing bracket exactly if every member is of a kind the reader knows |
| RegoptParse.ElemText | cl/regopt.c:703-743 | read_matchall consumes exactly one element of the regex tree, or nothing if it is of an unsupported kind |
| RegoptParse.KleeneText | cl/regopt.c:767-803 | read_kleene consumes exactly the quantifier and says whether one repetition is mandatory |
| RegoptParse.WildcardItem | cl/regopt.c:822-851 | read_wildcard consumes exactly an item with its quantifier, nested groups included, or nothing |
| RegoptParse.GroupText | cl/regopt.c:829-849 | a group is read up to its own closing parenthesis exactly if all it contains are wildcards |
| RegoptParse.BodyAlts | cl/regopt.c:837-846 | the loop over a group body ends at its `)` if and only if all alternatives are wildcards |
| RegoptTree.LiteralsText | cl/regopt.c:890-915 | reading literals from the text of a branch yields the leading literals of the tree and stops before their quantifier |
| RegoptTree.GrainText | cl/regopt.c:880-940 | read_grain on the text of a branch yields the tree's grain, without the last symbol if that is optional |
| RegoptTree.FindText | cl/regopt.c:1011-1021 | the search for the grain of an alternative finds the tree's first grain, and skips nothing exactly if it is in front |
| RegoptTree.TailText | cl/regopt.c:1028-1036 | skipping to the next bar or parenthesis reaches the end of the alternative exactly if what follows are wildcards |
| RegoptTree.AlternativesText | cl/regopt.c:976-1052 | a disjunction read from text gives the grains and alignments of the tree and ends behind it |
| RegoptTree.GroupDisjunction | cl/regopt.c:987-1000 | a group is read as a disjunction exactly as its tree says, up to the closing parenthesis |
| RegoptTree.ScanText | cl/regopt.c:1329-1375 | the main loop on the text of a branch stores what the scan of the tree stores |
| RegoptTree.ScanStopsAtBar | cl/regopt.c:1366-1373 | a bar outside a group ends the scan without a result |
| RegoptTree.AnalyseText | cl/regopt.c:1283-1379 | for every regex tree the analysis of its printed text accepts exactly what the scan of the tree accepts, with the same grain set |
| RegoptWords.WordsAreStored | cl/regopt.c:976-1052 | a list of words between wildcards is accepted exactly if it has at most 11 words and none of a single character; then exactly the words are stored, anchored at the start exactly if nothing precedes any of them, at the end exactly if nothing follows |
| RegoptWords.GroupIsStored | cl/regopt.c:1329-1375 | the same for a group of words between wildcards: stored exactly if its quantifier makes it mandatory, with an end anchor only if there is no quantifier |
| RegoptSound.PowerOfLiteral | cl/regopt.c:917-929 | the strings matched by a repeated literal are its repetitions |
| RegoptSound.FoundParts | cl/regopt.c:1011-1021 | every string of a branch splits around an image of the literals that the grain was read from |
| RegoptSound.ExactTailEnds | cl/regopt.c:919-928 | with a tail of fixed shape every match of the literals ends with the grain |
| RegoptSound.InexactTailFails | cl/regopt.c:919-928 | without one, some allowed count gives a string that does not end with the grain, whatever precedes it |
| RegoptSound.AltsHit | cl/regopt.c:1004-1052 | a string of a disjunction contains one of its grains, at the ends that the alignment flags claim |
| RegoptSound.ScanHit | cl/regopt.c:1335-1375 | the grain set stored by the main loop accounts for every string of the branch |
| RegoptSound.GrainSoundness | cl/regopt.c:1283-1379 | every string in the full-match language of an accepted regex contains a stored grain, at offset 0 under a start anchor, and at the end under an end anchor if the end literals have tails of fixed shape |
| RegoptEnds.ScanStoresEnd | cl/regopt.c:1341-1363 | a stored set with an end anchor consists of the grains of the literals that end the regex |
| RegoptEnds.EndParts | cl/regopt.c:1341-1363 | every string of a regex with an end-anchored set ends with an image of one of the literals at its end |
| RegoptEnds.EndBuild | cl/regopt.c:1341-1363 | conversely every image of those literals ends some string of the language, if every alternative matches something |
| RegoptLimits.EndAnchorExact | cl/regopt.c:1341-1345 | for a regex that stores a single grain with an end anchor the exact condition is one on its syntax: every string of the language ends with the grain if and only if the tail of its literals is exact |
| RegoptLimits.EndAnchorFailure | cl/regopt.c:919-928 | `abc+` is stored as `abc` with an end anchor although `abcc` matches and is rejected by the filter |
| RegoptLimits.BracesFailure | cl/regopt.c:780-790 | `abc{}` is stored as `ab` anchored at both ends although the engine takes the braces literally and matches `abc{}` itself |
| RegoptLimits.NegatedSetFailure | cl/regopt.c:723-741 | for every word `w` and member text `m`, `[^]w[m]` is accepted with the grain `w` although it matches a single other character |
| Regopt.ReadEscapeSeq | cl/regopt.c:624-680 | the pointer moves over exactly the escape sequence the reader recognises, else it stays |
| Regopt.ReadMatchall | cl/regopt.c:703-743 | the pointer moves by the length of the element read from the rest of the text |
| Regopt.ReadKleeneOp | cl/regopt.c:767-803 | pointer and flag are those of the quantifier read from the rest of the text |
| Regopt.ReadWildcard | cl/regopt.c:822-851 | the recursive reader moves the pointer by the length of the wildcard, whatever the text |
| Regopt.ReadGrainAt | cl/regopt.c:880-940 | grain and pointer are those of the specification, including the dropped optional symbol |
| Regopt.SkipToGrain | cl/regopt.c:1011-1021 | finds the first grain behind wildcards, and whether anything was skipped |
| Regopt.SkipTail | cl/regopt.c:1028-1036 | the pointer moves over all wildcards before a bar or parenthesis |
| Regopt.ShortestLength | cl/regopt.c:1076-1080 | the minimum of the grain lengths: attained, and below all others |
| Regopt.Optimiser.UpdateGrainBuffer | cl/regopt.c:1069-1103 | the public grain set is replaced exactly if the heuristic prefers the local one |
| Regopt.Optimiser.ReadDisjunctionAt | cl/regopt.c:976-1052 | for every text the local buffer, the alignment flags and the pointer are those of the specification |
| Regopt.Optimiser.ReadAlternatives | cl/regopt.c:1010-1052 | the loop over alternatives collects the grains of all of them or fails |
| Regopt.Optimiser.AnalyseRegex | cl/regopt.c:1283-1379 | for every text the verdict and the public grain set are those of `Analyse` |
| RegexMatch.CutSides | cl/regopt.c:1195-1230 | all grains are cut to the shortest length, suffixes off unless only the end is anchored, prefixes off then; which anchors survive, in both directions |
| RegexMatch.CutKeepsHits | cl/regopt.c:1195-1230 | a string that the full grains account for is one the cut grains account for, with the anchors that are kept |
| RegexMatch.JumpIsSafe | cl/regopt.c:356-381 | no allowed occurrence of a grain starts inside the stretch that a jump skips |
| RegexMatch.HitMatches | cl/regopt.c:352-382 | a string with an accounted grain of the common length has one at an offset the search may visit |
| RegexMatch.Regex.JumpDistance | cl/regopt.c:1127-1140 | the distance from the last byte to the nearest equal byte of any grain, or the grain length |
| RegexMatch.Regex.MakeJumpTable | cl/regopt.c:1114-1158 | every entry is the jump distance of its character |
| RegexMatch.Regex.CopyFrom | cl/regopt.c:1177-1252 | the object holds the cut grains, their length and a valid jump table; a start anchor always survives, an end anchor exactly if there is no start anchor or the grains have one length |
| RegexMatch.OffsetsAllowed | cl/regopt.c:352-382 | what the search looks for, said about texts: a grain with something in front and behind, nothing behind under an end anchor, nothing in front under a start anchor alone |
| RegexMatch.Regex.Search | cl/regopt.c:354-382 | terminates, and is true if and only if a grain occurs at an allowed offset: any, 0 under a start anchor, length minus grain length under an end anchor, or both |
| RegexMatch.Regex.Match | cl/regopt.c:320-417 | if the language passes the filter, the optimised match equals the engine's verdict |
| RegexMatch.EndMatches | cl/regopt.c:352-382 | under an end anchor a string passes the search if and only if it ends with a grain |
| RegexMatch.FilterIsSound | cl/regopt.c:336-399 | every string of the language passes the filter built from the regex; if the filter keeps an end anchor, under the condition that FilterExact shows to be necessary |
| RegexMatch.FilterExact | cl/regopt.c:1195-1230 | for every accepted regex whose filter keeps an end anchor and whose alternatives match something, disjunctions included: no match is lost if and only if every image of its end literals ends with some cut grain |
| RegexMatch.ReliableHolds | cl/regopt.c:919-928 | the condition holds whenever no quantifier changes what precedes the end of a match |
| RegexMatch.StartAnchorDecides | cl/regopt.c:1195-1230 | an accepted regex whose set has a start anchor and grains of different length loses no match, with no condition on its end: every string of the language begins with a cut grain |
| RegexMatch.NewRegex | cl/regopt.c:149-282 | the object has grains exactly if the regex is accepted, namely those of its set cut to one length, and under the condition of FilterExact it never rejects a string that the engine matches |
| LexiconScan.MaskBits | cl/cdaccess.c:1383-1446 | the eight masks select different bits, and setting one leaves the others |
| LexiconScan.ScanLexicon | cl/cdaccess.c:1382-1423 | bit `i` of the bitmap is set if and only if string `i` matches, and the count is the number of matches |
| LexiconScan.ListIds | cl/cdaccess.c:1432-1446 | the set bits are listed in ascending order |
| LexiconScan.Regex2Id | cl/cdaccess.c:1335-1455 | the result is exactly the ascending list of ids whose string matches; with an end anchor in the filter, under the exact condition of FilterExact |
| MakeComps.PositionsBelow | cl/makecomps.c:326-337 | exactly the positions of an id, strictly increasing |
| MakeComps.SliceIsPositions | cl/makecomps.c:415-423 | the slice of the inverted file from the sum of the lower frequencies on is the position list of the id |
| MakeComps.TotalIsCorpusSize | cl/makecomps.c:355-364 | the frequencies add up to the corpus size |
| MakeComps.CreatFreqs | cl/makecomps.c:200-214 | each count is the number of positions of its id, for any block size, and there are as many warnings as positions with an id out of range |
| MakeComps.PlanPass | cl/makecomps.c:303-322 | the ids chosen for a pass fit the buffer, the pass makes progress, and pointers start at each id's part |
| MakeComps.Store | cl/makecomps.c:329-337 | a store stays within the buffer and within the part of its id |
| MakeComps.Pass | cl/makecomps.c:326-352 | after a pass the direct writes and the buffer are the position lists of the ids of the pass |
| MakeComps.PointersConsistent | cl/makecomps.c:340-346 | the consistency check on the pointers never fires |
| MakeComps.CreatRevCorpus | cl/makecomps.c:300-364 | for every corpus and every buffer size, 0 included, the passes terminate and write the complete inverted file of exactly `datasize` numbers |
| MakeComps.BufferSize | cl/makecomps.c:276-279 | the buffer never exceeds the corpus, and is the memory limit if that is smaller |
| MakeComps.CreatRevCorpusIdx | cl/makecomps.c:415-423 | each index entry is the sum of the frequencies of the lower ids |
| MakeComps.MakeIndex | cl/makecomps.c:159-430 | for any memory limit and block size, the slice of each id in the file is the list of all its positions |
| BitIO.SplitBits | cl/bitio.c:384-414 | the low bits of a word are its high part's bits followed by its low part's |
| BitIO.ByteBits | cl/bitio.c:228-247 | bit `j` of a byte in the file counts from the most significant one |
| BitIO.BFile.WriteBit | cl/bitio.c:228-247 | the written bits grow by one, through the partial byte or a new one |
| BitIO.BFile.Write | cl/bitio.c:222-253 | the written bits grow by the low bits of the byte, most significant first |
| BitIO.BFile.WriteWord | cl/bitio.c:384-414 | the written bits grow by exactly the low `nbits` bits of the word; more than 32 are refused |
| BitIO.BFile.Flush | cl/bitio.c:126-160 | the file holds the written bits, padded with zeros to whole bytes |
| BitIO.BStream.Seek | cl/bitio.c:490-497 | what remains are the bits from the byte offset on |
| BitIO.BStream.Read | cl/bitio.c:346-369 | returns the value of the next bits and leaves the rest |
| BitIO.BStream.ReadWord | cl/bitio.c:426-455 | returns the value of up to 32 bits and leaves the rest, if the caller's word is zero |
| BitIO.WordRoundTrip | cl/bitio.c:384-455 | reading `n` bits written for `x` gives `x` modulo `2^n` |
| Golomb.CeilLog2 | cl/compression.c:74-76 | the least exponent whose power of two is not below `b` |
| Golomb.CodeShape | cl/compression.c:69-103 | the format: as many ones as `b` goes into `x`, a zero, and the truncated binary remainder with its exact length and value |
| Golomb.WriteGolombCode | cl/compression.c:69-103 | the written bits grow by the Golomb code of `x`: unary quotient, truncated binary remainder |
| Golomb.RemainderPrefix | cl/compression.c:180-196 | short remainders are recognised by their first bits and long ones decode with the extra bit |
| Golomb.ReadGolombCode | cl/compression.c:160-199 | what was written for `x` with any `b >= 2` is read as `x`, and not a bit more is consumed |
| Golomb.CodesAreDistinct | cl/compression.c:69-199 | codes are self-delimiting: equal bits mean equal numbers and equal rests |
| Postings.GapsAppend | utils/cwb-compress-rdx.c:283-298 | one more position adds the code of its distance from the one before, or from 0 |
| Postings.WriteGaps | utils/cwb-compress-rdx.c:283-298 | reading positions one at a time from a stream over the index, the written bits grow by the gap codes of the position list |
| Postings.CompressIndex | utils/cwb-compress-rdx.c:259-304 | succeeds if and only if every id occurs; then the parts of the ids lie one behind the other from offset 0 on, each of them exactly the gap codes padded with zeros to whole bytes, and the compressed index stores the same corpus |
| Postings.KeepExact | cl/cdaccess.c:759-774 | exactly the positions inside some range are kept, or all if there is no restrictor |
| Postings.FilterInline | cl/cdaccess.c:759-774 | a position is kept if and only if some range contains it |
| Postings.FilterInPlace | cl/cdaccess.c:816-849 | the two-pointer filter leaves in the buffer exactly the positions inside some range, in order |
| Postings.DecodeGaps | cl/cdaccess.c:746-775 | summing up the gaps yields the position list inside the restrictor list, and exactly the bits of the list are read |
| Postings.Id2Cpos | cl/cdaccess.c:680-860 | plain or compressed, the result is the position list of the id inside the restrictor list, or the right error |
| Postings.PositionStream.constructor | cl/cdaccess.c:910-990 | a new stream has the whole position list before it |
| Postings.PositionStream.Read | cl/cdaccess.c:1033-1091 | delivers as many of the next positions as fit and keeps the others |
| Postings.ReadInChunks | cl/cdaccess.c:1033-1091 | any split into reads delivers the front of the position list, and all of it if enough is asked for |
| Postings.PlainAttribute | cl/makecomps.c:159-430 | the files built for any corpus, memory limit and block size are an index that stores that corpus, as the readers assume |
| Postings.IndexRoundTrip | utils/cwb-compress-rdx.c:259-304 | building the index of any corpus, compressing it and reading back: plain and compressed form give the same positions for any id, restrictor list and split into reads; compression gives up exactly if some id does not occur |
| Queries.GatheredOften | cl/cdaccess.c:1599-1621 | each position is gathered as often as its id is on the list |
| Queries.GatheredMatches | cl/cdaccess.c:1623-1628 | for ids without repetition the sorted table is exactly the ascending list of matching positions |
| Queries.IdList2Freq | cl/cdaccess.c:1472-1500 | the sum of the frequencies is the size of the table, or an error for an unknown id |
| Queries.IdList2Cpos | cl/cdaccess.c:1563-1634 | all positions of all ids fit the table, fill it completely, and are sorted on request |
| Queries.WholeCorpus | cqp/eval.c:287-322 | if every string matches, the shortcut that lists the whole corpus gives the matching positions |
| Queries.Matchlist.MatchedPositions | cqp/eval.c:264-357 | a regex query yields exactly the ascending positions whose string the engine matches, through both shortcuts, optimiser, bitmap, either index form and sorting; and exactly when the whole-corpus flag is set afterwards: for `.*`, if every string matches, or if it was set before and some string matches |
| Huffman.ProperPrefixBelow | cl/attributes.h:56-76 | every proper prefix of a code of a well-formed block lies below the codes of its length |
| Huffman.PrefixFree | cl/attributes.h:56-76 | no code is a prefix of another |
| Huffman.ReadItem | cl/cdaccess.c:1176-1208 | the loop over the code length stays within `max_codelen` and returns the item whose code was read, with nothing more consumed |
| Huffman.CompressedSequence.ReadBlock | cl/cdaccess.c:1149-1214 | afterwards the cache holds the items of the block, also of a short last one |
| Huffman.CompressedSequence.Cpos2Id | cl/cdaccess.c:1130-1219 | whatever was asked before, the answer is the item of the plain sequence, or the range error |
| Huffman.CompressedSequence.Accesses | cl/cdaccess.c:1110-1225 | the same for any run of accesses |
| Huffman.WriteSequence | utils/cwb-huffcode.c:722-752 | each block of 128 items starts at its synchronisation offset; the blocks lie one behind the other from offset 0 on, each of them exactly the codes of its items padded with zeros to whole bytes |
| HuffmanCodes.MinCodeExact | utils/cwb-huffcode.c:580-583 | for complete lengths the halvings of the assignment are exact |
| HuffmanCodes.SlotsDistinct | utils/cwb-huffcode.c:622-650 | different items get different places among the symbols |
| HuffmanCodes.CanonicalOrder | utils/cwb-huffcode.c:622-650 | among items of one length codes and places go up one by one in the order of the items, and items with shorter codes have the earlier places |
| HuffmanCodes.TableIsWellFormed | cl/attributes.h:56-76 | the assigned codes satisfy what the decoder assumes |
| HuffmanCodes.TableCodes | utils/cwb-huffcode.c:622-650 | the code of each item stands for that item |
| HuffmanCodes.CountLengths | utils/cwb-huffcode.c:533-556 | the counts of code lengths |
| HuffmanCodes.FirstCodes | utils/cwb-huffcode.c:580-583 | `min_code` of every length, from the longest down |
| HuffmanCodes.SymbolIndex | utils/cwb-huffcode.c:585-587 | `symindex` of every length is the number of items with shorter codes |
| HuffmanCodes.IssueCodes | utils/cwb-huffcode.c:622-650 | codes of one length are consecutive in the order of the items |
| HuffmanCodes.AssignCodes | utils/cwb-huffcode.c:580-655 | any complete lengths, or the one-type lexicon, lead to the canonical, well-formed block that decodes every item |
| HuffmanTree.FrontierStep | utils/cwb-huffcode.c:517-531 | replacing a node by its two children keeps the weight of the frontier |
| HuffmanTree.LeafDepthsComplete | utils/cwb-huffcode.c:519-545 | the depths of the leaves satisfy Kraft's equality |
| HuffmanOptimal.ExchangeLengths | utils/cwb-huffcode.c:426-459 | giving the greatest length to the lighter of two roots costs no more |
| HuffmanOptimal.MergeDeepest | utils/cwb-huffcode.c:488-491 | two deepest children replaced by their parent one level higher: Kraft's inequality is kept and the cost falls by the weight of the parent |
| HuffmanOptimal.LowerBound | utils/cwb-huffcode.c:426-491 | at any stage of the merging no lengths for the roots cost less than all merges still to come |
| HuffmanOptimal.DepthsOptimal | utils/cwb-huffcode.c:426-545 | the leaf depths of the tree are code lengths of least total cost |
| HuffmanOptimal.KraftInequality | cl/attributes.h:56-76 | the words of any prefix code satisfy Kraft's inequality |
| HuffmanOptimal.OptimalAmongPrefixCodes | utils/cwb-huffcode.c:426-545 | so no prefix code for the items needs fewer bits |
| HuffmanOptimal.ThreeGenerations | utils/cwb-huffcode.c:426-491 | a node with a grandchild weighs at least as much as the child and the grandchild together |
| HuffmanOptimal.DeepNeedsWeight | utils/cwb-huffcode.c:376-382 | a leaf of depth `L` needs a total weight of at least the Fibonacci number of `L + 2` |
| HuffmanLengths.TopIsLeast | utils/cwb-huffcode.c:415-424 | in heap order the top pointer leads to a least weight |
| HuffmanLengths.Sift | utils/cwb-huffcode.c:159-205 | sifting keeps the set of roots and extends the heap order by one node |
| HuffmanLengths.PopTop | utils/cwb-huffcode.c:449-459 | the removed root is one of least weight, the others remain, and the heap order is restored |
| HuffmanLengths.PopTwo | utils/cwb-huffcode.c:441-459 | the two roots removed are the least frequent ones |
| HuffmanLengths.Merge | utils/cwb-huffcode.c:435-508 | two least frequent roots become the children of a new node with their weights together; the cells again describe a forest in heap order |
| HuffmanLengths.BuildTree | utils/cwb-huffcode.c:435-508 | merging ends with one full binary tree over all items in which every inner node joins two roots that were least at the time |
| HuffmanLengths.PointersToDepths | utils/cwb-huffcode.c:519-531 | parent pointers are replaced by depths in place |
| HuffmanLengths.CodeLengths | utils/cwb-huffcode.c:342-556 | the lengths fill the code tree and cost no more bits than any lengths that satisfy Kraft's inequality, or there is one type; a longest code of `L` bits needs a total weight of at least the Fibonacci number of `L + 2` |
| HuffmanLengths.Compress | utils/cwb-huffcode.c:290-760 | the compressed components hold the item sequence; codes are short enough for up to 32 types, or if tokens and types together are fewer than 5702887 |
| HuffmanLengths.RoundTrip | utils/cwb-huffcode.c:779-900 | compression followed by any run of accesses gives the items of the plain sequence |
| Tags.SwapRemovesInversion | cqp/concordance.c:164-178 | a swap of wrongly ordered neighbours removes exactly one inversion |
| Tags.SortRegions | cqp/concordance.c:157-182 | the sort terminates with the stable order of the regions, on a permutation of indices |
| Tags.OrderedUnique | cqp/concordance.c:157-182 | there is only one ordered list of a set of regions |
| Tags.MatchAppend | cqp/concordance.c:245-345 | a bracket word can be read in two parts |
| Tags.PositionStep | cqp/concordance.c:245-345 | if the regions around a position are open, its tags close exactly the innermost ones and leave the right ones open |
| Tags.CollectRegions | cqp/concordance.c:209-231 | exactly the regions that start or end at the position, in attribute order |
| Tags.TokenPlace | cqp/concordance.c:245-345 | the token of a position is printed when exactly the regions around the position are open, outer ones before inner ones, for the same extent in attribute order |
| Tags.PositionValues | cqp/concordance.c:189-345 | the output of a position: start tags in order, the token, end tags in reverse order of the one ordered list of regions that start or end there |
| Tags.PrintedOnce | cqp/concordance.c:245-345 | over all positions every token is printed once, every region is opened once at its start and closed once at its end, and nothing else is printed |
| Tags.PrintAll | cqp/concordance.c:189-345 | for nested regions the tags form a correctly matched bracket word in which each tag that is due appears exactly once; tokens come in order, and each of them stands inside exactly the regions around its position |
| LeftContext.RevRev | cqp/concordance.c:50-64 | reversing twice gives the text back |
| LeftContext.KwicLine.Srev | cqp/concordance.c:50-64 | the in-place reversal of the end of the line |
| LeftContext.KwicLine.AddPiece | cqp/concordance.c:679-741 | one more token: separator, reversed text, and for each wanted position offsets that are exactly where the text of that piece lies |
| LeftContext.KwicLine.Patch | cqp/concordance.c:772-794 | every recorded pair is moved to the exact place of its piece in the reversed line; the others stay -1 |
| LeftContext.AllCollected | cqp/concordance.c:656-766 | the pieces are those of the tokens, from the last one to the left until the width is reached or the tokens end |
| LeftContext.WholeTokens | cqp/concordance.c:679-766 | every piece but the leftmost shows its whole token, and the leftmost a suffix of it |
| LeftContext.PieceInPlace | cqp/concordance.c:772-794 | at the place given by the pieces in front of it the printed line has exactly the text of a piece |
| LeftContext.JoinedParts | cqp/concordance.c:677-685 | two stretches of tokens are joined by one separator, which determines the joined text |
| LeftContext.ContextComplete | cqp/concordance.c:656-766 | the collected pieces are the last `width` characters of the padded tokens |
| LeftContext.CharContext | cqp/concordance.c:648-796 | the segment is the last `width` characters of the blank-padded, joined left tokens, with markup around each token where there is any; each returned pair is the exact place of the token wanted and delimits its markup and shown text, and is -1 exactly if nothing of the token is printed |
| LexHash.ReplaceBucket | cl/lexhash.c:110-132 | a table stays a map if one bucket gets the right keys and the others are untouched |
| LexHash.Traversal | cl/lexhash.c:656-669 | the entries bucket by bucket list every key exactly once |
| LexHash.FrequencySinceDeletion | cl/lexhash.c:479-620 | after a deletion a key is present if and only if it was added again, with the sum of what was added since |
| LexHash.TargetDoubles | cl/lexhash.c:345-348 | an overfull table is given at least twice as many buckets |
| LexHash.NewFillRate | cl/lexhash.c:302-388 | with the target number of buckets the fill rate is within the limit |
| LexHash.HashTable.constructor | cl/lexhash.c:146-167 | a new table is empty, and its size is the next number that passes the prime test |
| LexHash.HashTable.AutoGrowFillrate | cl/lexhash.c:302-309 | the exact new settings: the target is at least 0.01 and the limit at least twice the target |
| LexHash.HashTable.Find | cl/lexhash.c:425-441 | the entry of the key if and only if the map has it |
| LexHash.HashTable.Lookup | cl/lexhash.c:539-564 | id and frequency from the map, or -1 and 0 |
| LexHash.HashTable.Add | cl/lexhash.c:479-523 | the map changes at one key only: more of it, or a new entry with the next id; after a new entry the fill rate is within the limit, whatever it was |
| LexHash.HashTable.CheckGrow | cl/lexhash.c:338-398 | growing keeps the map; the table grows exactly if auto-grow is on and the limit exceeded, to the next prime from the target size on, and what happens at the cap; the check on the number of entries never fails |
| LexHash.HashTable.Rehash | cl/lexhash.c:360-376 | all entries are moved to their new buckets |
| LexHash.HashTable.Delete | cl/lexhash.c:579-604 | the map loses the key and nothing else, and the frequency is returned |
| LexHash.HashTable.Perform | cl/ngram-hash.c:267-456 | from any table, overfull or not, any run of additions, deletions and growth refines the map of frequencies; `entries` is the number of keys and ids stay unique |
| LexHash.HashTable.IteratorNext | cl/lexhash.c:656-669 | returns the first of the remaining entries, and nothing exactly at the end |
| LexHash.HashTable.IterateAll | cl/lexhash.c:656-669 | a full iteration visits the entry of every key exactly once |
| LexHash.HashTable.GetEntries | cl/ngram-hash.c:541-566 | the array holds the entry of every key once, and neither consistency check fires |
| LexHash.HashTable.Stats | cl/ngram-hash.c:631-653 | the number of buckets of each size, the last one cumulative |
| LexHash.CountIsSize | cl/ngram-hash.c:640-651 | the counts are cardinalities of sets of buckets |
| Primes.TestIsPrime | cl/lexhash.c:42-49 | no divisor up to the square root means prime, from 2 on |
| Primes.IsPrime | cl/lexhash.c:42-49 | true if and only if no number from 2 to the root divides it |
| Primes.Euclid | cl/lexhash.c:52-58 | above every number there is a prime |
| Primes.FindPrime | cl/lexhash.c:52-58 | terminates with the least number from `n` on that passes the test, a prime from 2 on |
| Sorting.SortedUnique | cl/makecomps.c:126-134 | under a total order there is one sorted permutation only |
| FeatureSets.StrCmp | cl/cdaccess.c:70-89 | the result is the difference of the signed characters at the first place where the strings differ |
| FeatureSets.ComparePrecedes | cl/cdaccess.c:70-89 | negative if and only if the strings agree up to some place where the first has the smaller signed character or ends |
| FeatureSets.CompareAntisymmetric | cl/cdaccess.c:70-89 | only equal strings compare as equal, and swapping changes the sign |
| FeatureSets.CompareTransitive | cl/cdaccess.c:70-89 | the comparison is transitive |
| FeatureSets.WellFormedTexts | cl/attributes.c:1424-1440 | a text starts and ends with a bar if and only if it is the text of a list of bar-free elements, which parsing returns |
| FeatureSets.TokensAreWords | cl/attributes.c:1396-1421 | tokens are not empty, contain no whitespace, and contain every bar of the input |
| FeatureSets.TokensOfSpaced | cl/attributes.c:1396-1421 | any list of words is the list of tokens of its spaced text |
| FeatureSets.TokensSplit | cl/attributes.c:1396-1421 | blank, tab and newline separate tokens and a text without them is one token, which determines the tokens of every text |
| FeatureSets.SplitBlank | cl/attributes.c:1396-1421 | the loop collects exactly the maximal runs without whitespace |
| FeatureSets.CutBars | cl/attributes.c:1424-1440 | succeeds if and only if the text is well-formed, with its elements |
| FeatureSets.MakeSet | cl/attributes.c:1386-1480 | fails exactly for malformed input or an element with a bar; otherwise the result is the text of the same elements, none of them before an earlier one in the order of their characters, and fills its memory exactly |
| FeatureSets.MadeIsNormal | cl/attributes.c:1386-1480 | the result is a well-formed sorted permutation of the input's elements and is reproduced by a second call |
| FeatureSets.MadeIsCanonical | cl/attributes.c:1386-1480 | two inputs give the same text if and only if they have the same elements equally often |
| FeatureSets.SetSize | cl/attributes.c:1492-1511 | the number of elements if the text is well-formed, else -1 |
| SetIntersection.MergeIntersects | cl/attributes.c:1550-1590 | the merge of sorted lists is their sorted multiset intersection |
| SetIntersection.MergeCommutes | cl/attributes.c:1525-1593 | intersection is commutative and idempotent, and its size is the number of common elements |
| SetIntersection.MergeAssociates | cl/attributes.c:1525-1593 | intersection is associative |
| SetIntersection.FeatureBuffers.Intersection | cl/attributes.c:1525-1593 | for any two strings and any buffers left by earlier calls: bad starts, long strings and a last element without its bar are errors; otherwise the result and the new buffers are those of the comparison of current elements, which for non-empty elements is the merge |
| SetIntersection.MeetFills | cl/attributes.c:1550-1590 | an empty element is read as whatever the buffer holds: the result is the merge of the lists with empty elements filled from the left |
| SetIntersection.MeetIsMerge | cl/attributes.c:1550-1590 | without empty elements the buffers do not matter |
| SetIntersection.WrongForSome | cl/attributes.c:1552-1571 | for any other two sets there are buffer contents with which the result is wrong |
| SetIntersection.EmptyElements | cl/attributes.c:1525-1593 | for all well-formed sorted sets within the length limit: the result is right whatever earlier calls left in the buffers if and only if one set is empty, or neither has an empty element, or those of one set are harmless |
| SetIntersection.HarmlessEmptyElement | cl/attributes.c:1552-1571 | harmless empty elements exist: behind a string that starts with a negative character |
| SetIntersection.IntersectionOfMade | cl/attributes.c:1386-1593 | the intersection of two sets made from text is the set made from the common tokens |
| Searches.Logarithmic | cl/cdaccess.c:1673-1703 | a number below `2^k` can be halved at most `k` times |
| Searches.Str2Id | cl/cdaccess.c:206-302 | finds an id of the string or reports its absence, with at most 32 comparisons, so that the guard never fires |
| Searches.InvertId | cl/cdaccess.c:206-302 | with distinct strings cl_str2id inverts cl_id2str |
| Searches.GetPreviousMark | cl/cdaccess.c:1662-1704 | the region around the position if there is one, else the null pointer, in logarithmically many steps |
| Searches.OnlyOne | cl/cdaccess.c:1662-1704 | there is at most one such region |
| Searches.GetExtendedAlignment | cl/cdaccess.c:2202-2247 | the source region around the position if there is one, else the error, in logarithmically many steps |
| Searches.GetAlignment | cl/cdaccess.c:2137-2183 | the region for every position before the last boundary, and what happens at and behind it |
| Searches.Cpos2Alg | cl/cdaccess.c:2388-2428 | the alignment of a position in either format; in the old format CDA_EPOSORNG before the first boundary, the number of the last boundary at it, and behind it that number or CDA_EPOSORNG, depending on the number behind the table |
| Searches.Alg2Cpos | cl/cdaccess.c:2445-2504 | the two regions of an alignment; numbers out of range are refused |
| Searches.RegionAround | cl/cdaccess.c:2388-2504 | a region around the position is found if and only if there is one, in old alignments from the first up to the last boundary |
| AttHash.ProbeFails | CQi/server.c:1216-1232 | too many collisions occur if and only if the first fifth of the table, cyclically, is taken by other keys |
| AttHash.ProbePath | CQi/server.c:1216-1232 | all slots from the hash value up to the one found, cyclically, are taken by other keys |
| AttHash.ProbeStable | CQi/server.c:1216-1232 | filling other slots does not move a key |
| AttHash.SlotIsProbed | CQi/server.c:1216-1232 | probing looks at a fifth of the slots from the hash value on, cyclically, and ends at the first that is free or holds the name, or fails exactly if there is none |
| AttHash.FewNamesFit | CQi/server.c:1216-1232 | too many collisions occur only when at least a fifth as many other names as slots are in use |
| AttHash.FillSlot | CQi/server.c:1218-1223 | filling the slot found keeps every name reachable |
| AttHash.AttributeHash.BucketFor | CQi/server.c:1200-1236 | the first slot of that fifth that is free or holds the name, made its bucket if there is none, or the error with nothing changed |
| AttHash.AttributeHash.LookupAttribute | CQi/server.c:1238-1280 | answers from the map of open attributes, and opens an attribute at most once |
| AttHash.AttributeHash.DropAttribute | CQi/server.c:1293-1305 | removes the attribute from the map exactly if it was open and could be deleted |
| AttHash.AttributeHash.Perform | CQi/server.c:1200-1305 | over any run of lookups and drops a name keeps one bucket, different names have different ones, and the open attributes are those of the run; no name is refused while at most a fifth as many names as slots are used |
| Binsert.InsertAt | cl/binsert.c:118-144 | inserting at the right place keeps the table strictly sorted and adds the key to its set |
| Binsert.SortedUnique | cl/binsert.c:77-148 | a strictly sorted table is determined by its set of elements |
| Binsert.Table.Search | cl/binsert.c:93-125 | the place of the key, or the place where everything before is smaller and everything behind larger |
| Binsert.Table.Insert | cl/binsert.c:77-148 | the set grows by the key, the table stays strictly sorted, and the memory is a multiple of 16 that is never exceeded |
| Binsert.InsertAll | cl/binsert.c:77-148 | any run of insertions leaves the strictly sorted table of the keys inserted |

## Left out

* PCRE itself (compiling, studying, JIT), UTF-8 and case folding in the optimiser and in `cl_regex_match`: the engine is a predicate on 8-bit strings.
* Possessive and lazy quantifiers match like greedy ones; possessive ones may match less in the engine, which soundness allows.
* Lookaround, back references and other constructs that no reader of the optimiser accepts occur in the regex tree as foreign items with any language; an unescaped literal `{` and half-written escape sequences are not part of the tree grammar.
- RegoptSound.GrainSoundness: its end claim is about the uncut grains and uses `EndReliable`, a sufficient condition; the exact condition, on the grains as the filter compares them, is that of `RegexMatch.FilterExact`.
- RegexMatch.FilterExact: alternatives that match nothing at all are left out of the necessity half; numbers above 65535 in braces, which PCRE refuses to compile, count like others.
- RegoptLimits.NegatedSetFailure: shows that sets beginning with `[^]` must be excluded; the exact condition for a given regex of that kind is not stated, because it depends on the rest of the regex.
- Regopt.Optimiser.AnalyseRegex: grain buffers are sequences of strings, so CL_MAX_LINE_LENGTH and the layout of the static buffers are not modelled.
- Golomb.WriteGolombCode: requires that the power of two above `b` fits 32 bits; the overflow of `1 << ub` for larger `b` is not modelled, and compute_ba only appears as a parameter of at least 2.
- Searches.GetAlignment: requires a table of whole pairs; the read behind its end is a parameter.
- LexHash.HashTable.Add: entries are values in sequences, so pointers that callers keep to entries, the data fields, the cleanup callback and the abort at the maximal number of entries are not modelled.
- LexHash.HashTable.IterateAll: no changes of the table during an iteration.
- HuffmanLengths.CodeLengths: optimality is for the weights the program uses, frequencies plus one; sums of frequencies are unbounded, so their wrap-around at 32 bits is not modelled.
- Tags.PrintAll: regions of one attribute are disjoint, and all regions are nested; line breaks and attribute values in tags are not modelled.
- LeftContext.CharContext: separators of at most one character and 8-bit text; the word and structure contexts and the right context are not modelled.
- FeatureSets.MakeSet: the working copy that is cut by zeros is modelled as slices of the input.
- Queries.Matchlist.MatchedPositions: that the engine matches every string of the lexicon with `.*` is a hypothesis, since it depends on what a dot matches; the restrictor list is unused, as in the source.
- AttHash.AttributeHash.LookupAttribute: opening an attribute is a parameter, and the different reasons why it fails are one.
* Byte order, memory mapping, files and component loading: components are sequences of numbers.
* `BFread` and `read_golomb_code_bf` are the stream readers on a file; they differ only in the result at the end of the file.
* Positional streams on corrupt data, and corrupt components in general: readers are proved on what the writers produce.
* `cl/list.c`, `cl/bitfields.c`, the CQi codecs and command switch, printing modes, translation tables and registry parsing would add only easy members.
* `cl_cpos_offset`, the deletion mode of `cl_string_zap_controls`, the auto-string functions and insertion into attribute lists are not modelled, because their comments promise something other than the code does.
