# Verified models of the Erbsland generators, analysers and demo protocol

This project models, in Dafny, the algorithms of the repository that decide what the library ships and how
two programs of it talk to each other, and proves what they promise for all inputs:

- **Include graph** (`Graphs`, `GraphSearch`, `PathOrder`, `ShortestPaths`, `TarjanInvariant`, `TarjanSteps`,
  `ComponentOrder`, `Tarjan`, `InsertionPoints`,
  `TreeInvariant`, `TreeMarkers`, `TreeLayout`, `TreeText`): reachability, shortest paths, strongly connected
  components, the smallest set of headers at which a required include can be added, and the printed
  dependency tree.
- **Public suffix table** (`Huffman*`, `WeightedTrees`, `BitStream`, `Flattening`, `FrontCoding`,
  `StreamSize`, `PublicSuffix*`, `TokenSequences`): the Huffman-coded, front-coded rule table from the
  rule families to the label count that the cookie code of the library computes from it.
- **Unicode tables** (`Leb128`, `Normalization*`, `MappingGraph`, `CycleSearch`, `CompositionChains`,
  `Decomposition`, `RuntimeLimits`, `Idna*`, `LightData`): the generators of the normalization, IDNA and
  Unicode Light tables together with the lookups of the library that read them.
- **Token authentication demo** (`JsonFraming`, `Base64Url`, `Authentication`, `AuthenticationSessions`,
  `AuthenticationRun`): line framing, the data fields, both session objects, and all runs of the two over
  byte channels.
- **Paragraph reflow** (`ParagraphTokens`, `TokenShapes`, `ParagraphReflow`) of the reStructuredText cleanup.
- **Return types** (`TypeBrackets`, `ReturnTypes`) in API pattern pages.

Objects whose methods update fields are classes (`BitWriter`, `SccRun`, `TreeRun`, `CycleCheck`, `ChainSearch`,
`Expander`, `JsonLine`, `ServerSession`, `ClientSession`), loops are methods with invariants, and each of them is
tied to a specification about which the theorems are proved. Exceptions are `Result` values. Verify the whole
project with `dafny verify dfyconfig.toml`.

Four facts of the models are worth knowing when reading them:

- Where the code of a check can never fail, the model keeps the check and proves that it cannot: the final
  validation of the public suffix encoder, the page check of the IDNA ranges, and the second encoding in the
  authentication records, whose decoder already refuses everything that is not canonical.
- A public suffix lookup answers zero, not the algorithm's count, for hosts that are empty or end in a dot.
- `reachable` never contains its start, not even on a cycle through it; `reaches` does count the empty path.
- Atomic markup that touches the next word is separated from it by a space when it is reflowed. The tokens and
  the visible characters stay the same, but white space between them can be new.

## Model

| member | source | states |
|---|---|---|
| GraphSearch.Reachable | utilities/lib/include_dependencies.py:264-275 | The worklist ends on every finite graph, cyclic or not, and returns exactly the other nodes to which some include path leads; the start is never in it, even on a cycle |
| GraphSearch.ReachesNode | utilities/lib/include_dependencies.py:277-281 | True exactly when some include path, of length zero or more, leads from source to target |
| ShortestPaths.ShortestPath | utilities/lib/include_dependencies.py:283-303 | A path is returned exactly when one exists; it is an include path from source to target, no include path between them is shorter, although the goal is tested on discovery, and of all that are as short it is the first in display order, node by node |
| ShortestPaths.DiscoverLeast | utilities/lib/include_dependencies.py:291-301 | The path to a node that is discovered comes before every other path of its length to that node |
| Tarjan.SccRun.Visit | utilities/lib/include_dependencies.py:314-339 | One visit ends, keeps the numbering, stack and low-link invariant, adds the visited node, and reports exactly the cycles among the components it has popped |
| Tarjan.SccRun.CloseComponent | utilities/lib/include_dependencies.py:326-339 | A node whose low link is its own number pops precisely its strongly connected component |
| TarjanSteps.TopComponent | utilities/lib/include_dependencies.py:324-334 | The nodes above the root of a component on the stack reach each other, and no other node is in a component with them |
| Tarjan.StronglyConnectedComponents | utilities/lib/include_dependencies.py:305-343 | Every reported list is a strongly connected component with two nodes or a self edge, its nodes at ascending places of the display order; the lists share no node; every such component is reported; and the lists are in the display order of their first nodes |
| Tarjan.SortedReport | utilities/lib/include_dependencies.py:343 | Sorting the reported lists as tuples keeps what they list and puts their first nodes in display order |
| InsertionPoints.AnalyzeRequiredDependency | utilities/lib/include_dependencies.py:349-379 | The missing headers are those public headers that no path connects to the target; the insertion points are the first headers of those classes of mutually reaching missing headers that reach no other missing header; both lists have their headers at ascending places of the display order, so each of them once |
| Graphs.OrderedOnce | utilities/lib/include_dependencies.py:377-378 | A list in display order has no header twice, as the graph has no node twice |
| InsertionPoints.AnalysisIsMinimal | utilities/lib/include_dependencies.py:349-379 | With an include of the target added at every insertion point every missing header reaches it; no point reaches another; and no set of missing headers with this effect is smaller |
| InsertionPoints.FrontierSmallest | utilities/lib/include_dependencies.py:368-374 | Every covering set of missing headers has a member in the class of every insertion point, so it is at least as large |
| TreeText.TreeRun.Visit | utilities/lib/include_dependencies.py:493-510 | A visit of an entered file ends, keeps what is known of the printed lines, the colouring and the topological order of the files, and finishes the file, with or without a depth limit; everything it prints is indented at least as deep as its own directives |
| TreeText.TreeLines | utilities/lib/include_dependencies.py:487-513 | Every directive stands under the line that enters its file, in order and at its depth; every file entered above the limit has all its directives printed once, and one entered at the limit has a note instead; every marker is the one its line deserves. Without a limit every include directive of a reachable file is on exactly one line, every reachable file but the root is expanded exactly once, every cycle has a step all of whose directives are marked, and a cycle marker appears if and only if a cycle is reachable |
| TreeMarkers.MarkerChosen | utilities/lib/include_dependencies.py:501-505 | The marker chosen by the active and the seen files is the one the lines above ask for: a cycle exactly for an include of a file on the way down to its source, a repetition exactly for another file that was entered |
| TreeMarkers.CycleMarkersAreTrue | utilities/lib/include_dependencies.py:501-505 | Every line marked as a cycle is an include from which a path leads back to the including file |
| TreeText.CycleIsMarked | utilities/lib/include_dependencies.py:493-510 | On every cycle below the root there is a step all of whose directives are marked as cycles |
| TreeLayout.FinishedCovered | utilities/lib/include_dependencies.py:493-510 | Every file entered above the depth limit has all its directives printed |
| Alphabet.AlphabetsAgree | src/erbsland/network/impl/http/cookie/PublicSuffixLookup.cpp:119-133 | The characters of the library's token table are those of the generator, number by number |
| Labels.ReverseLabelsInvolution | utilities/dev/generate_public_suffix_data.py:142-145 | Reversing the labels of a rule twice gives the rule back, empty labels included |
| BitStream.BitWriter.Write | utilities/dev/generate_public_suffix_data.py:45-59 | The bits written grow by exactly the low bits of the code, most significant first, and the unused bits of the last byte stay zero |
| BitStream.BitReader.Read | utilities/dev/generate_public_suffix_data.py:62-74 | The next bit of the bytes in most-significant-first order, and none exactly behind the last byte |
| Huffman.BuildHuffmanTree | utilities/dev/generate_public_suffix_data.py:155-174 | Fewer than two tokens are refused; otherwise the heap loop, with its ties broken by token and serial number, ends with the tree of repeated merging |
| HuffmanOptimality.HuffmanTreeOver | utilities/dev/generate_public_suffix_data.py:155-174 | The leaves of the tree built by the heap loop are exactly the counted tokens, each once |
| HuffmanOptimality.HuffmanIsOptimal | utilities/dev/generate_public_suffix_data.py:155-174 | Among all binary trees whose leaves are exactly the given tokens none has a smaller sum of count times depth, for every table of at least two non-negative counts |
| HuffmanOptimality.HuffmanTreeIsBranch | utilities/dev/generate_public_suffix_data.py:155-174 | The tree is never a single leaf, so no token has an empty code |
| HuffmanOrder.HuffmanLighterFirst | utilities/dev/generate_public_suffix_data.py:160-174 | At every branch the left side is counted less often than the right one, or as often and has the smaller least token |
| WeightedTrees.MergeCostIsLeast | utilities/dev/generate_public_suffix_data.py:165-174 | Merging the two smallest weights until one is left costs no more than any binary tree over the same weights |
| HuffmanCodes.BuildCodes | utilities/dev/generate_public_suffix_data.py:176-189 | The recursive numbering yields the code table of the tree |
| HuffmanCodes.CodesArePaths | utilities/dev/generate_public_suffix_data.py:176-189 | The bits of a token's code are the branches from the root to its leaf |
| HuffmanCodes.PrefixFree | utilities/dev/generate_public_suffix_data.py:176-189 | No code is a prefix of the code of another token |
| HuffmanCodes.KraftEquality | utilities/dev/generate_public_suffix_data.py:176-189 | The shares of all bit strings that begin with a code add up to one: the codes leave no string unused |
| Flattening.FlattenHuffmanTree | utilities/dev/generate_public_suffix_data.py:191-222 | The byte table has two entries for every branch, in the order in which branches are entered: it describes the tree from its root, the left branch right behind its parent and the right one behind all of the left; it fails exactly for a leaf, a token or an index of 128 or more |
| HuffmanCodes.DecodeHuffmanToken | utilities/dev/generate_public_suffix_data.py:224-232 | Walking the table ends and consumes exactly the bits of the walk over the bit string |
| HuffmanCodes.WalkReadsPath | utilities/dev/generate_public_suffix_data.py:191-232 | Over bits that begin with a token's path the walk over the flattened table returns that token and consumes exactly its path |
| TokenSequences.SpellingDecodes | utilities/dev/generate_public_suffix_data.py:191-232 | Walks over the codes of any token sequence return exactly that sequence and end behind the last code |
| TokenSequences.WrittenTokensDecode | utilities/dev/generate_public_suffix_data.py:45-74 | Any token sequence is read back from the bytes of the writer it was written with, behind whatever was written before, and the walks consume exactly the sum of its code lengths |
| FrontCoding.CommonPrefixLength | utilities/dev/generate_public_suffix_data.py:147-153 | The length is that of the longest prefix the two texts share |
| FrontCoding.RecordKeepsShared | utilities/dev/generate_public_suffix_data.py:252-262 | A record keeps the longest prefix its rule shares with the rule before, none at the start of a block of 32 rules, and spells the other characters and the terminal token in order |
| StreamSize.StreamLength | utilities/dev/generate_public_suffix_data.py:265-283 | The bit stream of the records has as many bits as the two token counts times the code lengths add up to |
| StreamSize.StreamIsShortest | utilities/dev/generate_public_suffix_data.py:260-283 | No other pair of trees over the same two alphabets writes the records in fewer bits |
| PublicSuffixEncoder.EncodeRules | utilities/dev/generate_public_suffix_data.py:243-294 | Rules that do not overlap and use the alphabet are encoded exactly when both trees can be flattened and the stream offsets fit; the result holds the front-coded records, block by block, in the codes its two tables describe, with no byte more, and the greatest length and label count that some rule has |
| PublicSuffixEncoder.Encode | utilities/dev/generate_public_suffix_data.py:234-294 | The rule families are refused exactly for an overlap, a character outside the alphabet, a tree or an offset that does not fit; the final validation never fails |
| PublicSuffixEncoder.EncodedRoundTrips | utilities/dev/generate_public_suffix_data.py:234-325 | Every table that is handed out decodes to the sorted reversed rules and terminal tokens it was made from, in order |
| PublicSuffixRoundTrip.BlockDecodes | utilities/dev/generate_public_suffix_data.py:296-325 | Every block of 32 rules decodes to its own rules from its own bit offset, with nothing kept from earlier blocks, and ends at the next offset |
| PublicSuffixRoundTrip.RoundTrip | utilities/dev/generate_public_suffix_data.py:296-325 | The decoder recovers every rule and terminal token in order and its checks hold |
| PublicSuffixDecoder.ValidateDecoding | utilities/dev/generate_public_suffix_data.py:296-325 | The decoding loops with their running offset and previous rule report exactly the first thing that is wrong with a table |
| PublicSuffixLookup.Compare | src/erbsland/network/impl/http/cookie/PublicSuffixLookup.cpp:61-73 | The three-way comparison orders texts as the sorting of the generator does |
| PublicSuffixLookup.DecodeIntoBuffer | src/erbsland/network/impl/http/cookie/PublicSuffixLookup.cpp:37-59 | The loop decodes a rule into the fixed buffer as the function of the bits says |
| PublicSuffixLookup.BufferExactly | src/erbsland/network/impl/http/cookie/PublicSuffixLookup.cpp:37-59 | The buffer holds exactly the rules that the generator decodes there, whose prefix is within the greatest rule length and which have at most 256 characters |
| PublicSuffixLookup.FindRule | src/erbsland/network/impl/http/cookie/PublicSuffixLookup.cpp:75-117 | The binary search over block starts followed by the scan of one block finds the rule with the key, and reports none exactly when the table has none |
| PublicSuffixList.PublicSuffixLabelCount | src/erbsland/network/impl/http/cookie/PublicSuffixLookup.cpp:135-184 | The label count is that of the public suffix algorithm: one label less than the shortest matching exception, otherwise the longest of the exact rules and of the wildcard rules with their extra label, otherwise one |
| PublicSuffixList.MatchesAsWritten | src/erbsland/network/impl/http/cookie/PublicSuffixLookup.cpp:135-184 | A suffix of a host matches a rule of the encoded table exactly when the generator was given that suffix in the rule's family |
| PublicSuffixList.CountByRules | src/erbsland/network/impl/http/cookie/PublicSuffixLookup.cpp:135-184 | From the rule families through encoder and lookup: with rules of at most 255 characters the answer is the count of the public suffix algorithm by the rules as they are written |
| PublicSuffixList.EncodedIsSorted | utilities/dev/generate_public_suffix_data.py:234-250 | Tables of the generator are in the order that the search of the library relies on |
| Leb128.EncodeUnsigned | utilities/dev/generate_unicode_normalization_data.py:280-293 | Negative values are refused; every other value gives its LEB128 bytes |
| Leb128.UlebComplete | utilities/dev/generate_unicode_normalization_data.py:280-293 | The bytes end exactly at the first one without continuation bit, stand for the value, and end in zero only for zero itself |
| Leb128.UlebIsShortest | utilities/dev/generate_unicode_normalization_data.py:280-293 | No complete byte string with the same value is shorter, and none other is as short |
| Leb128.OnlyCanonical | utilities/tests/test_unicode_normalization_generator.py:102-109 | A complete byte string without a needless zero byte at its end is the encoding of its value |
| Leb128.UlebPrefixFree | utilities/dev/generate_unicode_normalization_data.py:280-293 | No encoding is a prefix of the encoding of another value |
| Leb128.ReadUleb | utilities/tests/test_unicode_normalization_generator.py:26-35 | Reading at an encoded value returns it and the offset behind it, whatever follows |
| Leb128.ReadUnsigned | src/erbsland/text/impl/UnicodeNormalizationData.hpp:50-64 | The 32-bit reader of the library with its shift limit returns every value below two to the power 32 and advances behind its bytes |
| NormalizationTables.PackPage | utilities/dev/generate_unicode_normalization_data.py:295-302 | Page and offset are accepted exactly within nine and twenty-three bits, and both can be read back from the packed word |
| NormalizationTables.EncodePages | utilities/dev/generate_unicode_normalization_data.py:305-343 | Every entry is written on its page relative to the one before; encoding fails exactly when some page starts beyond the largest offset |
| NormalizationStream.PageDecodes | utilities/tests/test_unicode_normalization_generator.py:37-59 | The entries of a page are read back from its first to its last byte |
| NormalizationRoundTrip.PageBrackets | utilities/dev/generate_unicode_normalization_data.py:310-325 | The directory gives for every page exactly the begin and end of its bytes |
| NormalizationRoundTrip.TableRoundTrip | utilities/tests/test_unicode_normalization_generator.py:37-138 | Decoding a table returns all entries in order with no byte left over on any page: decompositions, combining classes and composition pairs alike |
| NormalizationRoundTrip.TableInjective | utilities/dev/generate_unicode_normalization_data.py:305-393 | Different inputs of one kind never share a table |
| NormalizationLookup.PageRange | src/erbsland/text/impl/UnicodeNormalizationData.hpp:68-87 | The lower-bound search in the directory brackets the bytes of the code point's page, and nothing for pages that are not represented |
| NormalizationLookup.DecompositionFor | src/erbsland/text/impl/UnicodeNormalizationData.hpp:91-118 | For every code point the lookup returns its entry of the source list, and none exactly for code points without one |
| NormalizationLookup.CombiningClassFor | src/erbsland/text/impl/UnicodeNormalizationData.hpp:122-139 | For every code point the lookup returns its listed class, and zero exactly when it is not listed |
| NormalizationLookup.CompositionFor | src/erbsland/text/impl/UnicodeNormalizationData.hpp:143-165 | For every pair the lookup returns a listed composite, and zero only when none is listed for the pair |
| NormalizationData.BuildCompositions | utilities/dev/generate_unicode_normalization_data.py:345-370 | The grouped, sorted pairs are exactly the primary composites; it fails exactly when two of them have the same pair |
| NormalizationData.PrimaryFrom | utilities/dev/generate_unicode_normalization_data.py:354-363 | A primary composite of a pair is a listed canonical mapping to exactly that pair which is not excluded and, like its first code point, of class zero |
| NormalizationData.EncodeCombiningClasses | utilities/dev/generate_unicode_normalization_data.py:327-343 | The table of the class map, or a failure exactly when its pages do not fit |
| NormalizationData.EncodeDecompositions | utilities/dev/generate_unicode_normalization_data.py:304-325 | The table of the decomposition list, or a failure exactly when its pages do not fit |
| NormalizationData.EncodeCompositions | utilities/dev/generate_unicode_normalization_data.py:372-393 | The table of the composition map, or a failure exactly when its pages do not fit |
| NormalizationData.ClassFound | utilities/dev/generate_unicode_normalization_data.py:327-343 | What the library finds in the class table is the class of the source map, and zero outside it |
| NormalizationData.CompositeFound | utilities/dev/generate_unicode_normalization_data.py:345-393 | What the library finds for a pair is its only primary composite; zero is found only for pairs without one, or whose composite is zero |
| CycleSearch.CycleCheck.Visit | utilities/dev/generate_unicode_normalization_data.py:156-165 | A visit ends, restores the set of active code points, completes the visited one after its targets, and raises only on a real cycle |
| CycleSearch.ValidateDecompositionGraph | utilities/dev/generate_unicode_normalization_data.py:149-168 | Validation raises exactly when some chain of mappings comes back to its start |
| MappingGraph.WalkShort | utilities/dev/generate_unicode_normalization_data.py:149-168 | Without cycles no chain has more code points than there are mappings plus one |
| Decomposition.CanonicalAcyclic | utilities/dev/generate_unicode_normalization_data.py:193-203 | Canonical expansion terminates on everything that compatibility expansion was validated for |
| Decomposition.Expander.Expand | utilities/dev/generate_unicode_normalization_data.py:193-203 | The memoised expansion returns what plain recursion returns, and the shared cache stays right for both modes |
| Decomposition.Expander.Depth | utilities/dev/generate_unicode_normalization_data.py:205-215 | The memoised depth is the largest number of mappings nested below the code point |
| Decomposition.FullIsFinal | utilities/dev/generate_unicode_normalization_data.py:193-203 | No mapping applies to a full decomposition any more |
| Decomposition.FullIdempotent | utilities/dev/generate_unicode_normalization_data.py:193-203 | Decomposing a full decomposition again changes nothing |
| Decomposition.CompatibilityOfCanonical | utilities/dev/generate_unicode_normalization_data.py:193-203 | Compatibility expansion of a canonical expansion equals compatibility expansion of the original |
| CompositionChains.ChainSearch.Length | utilities/dev/generate_unicode_normalization_data.py:250-262 | The memoised length is the number of code points on a longest chain; it raises only on a cycle |
| CompositionChains.MaximumCompositionChain | utilities/dev/generate_unicode_normalization_data.py:243-266 | It raises exactly when the class-zero composition graph is cyclic; otherwise the maximum bounds every chain and is reached, or is the floor of three |
| RuntimeLimits.ValidateRuntimeLimits | utilities/dev/generate_unicode_normalization_data.py:181-278 | The data is refused exactly when some expansion has more than 18 code points, more than three nested mappings or a starter behind a leading non-starter, or when some chain of class-zero compositions comes back to its start or has more than 34 code points; the limits returned bound all expansions and chains and are reached unless they are the floors |
| RuntimeLimits.WalkIsChain | utilities/dev/generate_unicode_normalization_data.py:243-262 | The walks of the composition graph are the chains in which every code point composes with one of class zero to the next |
| IdnaRanges.MapToRanges | utilities/dev/generate_idna_data.py:136-145 | The ranges are ordered, no two neighbours could be one, and they give every code point exactly the value of the map |
| IdnaRanges.SplitAtPageBoundaries | utilities/dev/generate_idna_data.py:185-195 | No range crosses a page any more, every code point keeps its value, and neighbours could be one range only where a page ends |
| IdnaRanges.PageOffsets | utilities/dev/generate_idna_data.py:231-246 | The ranges of a page lie between its offset and the next one, for represented and for empty pages; it fails exactly above 65535 ranges |
| IdnaLookup.Attributes | utilities/dev/generate_idna_data.py:268-285 | The emitted binary search on 16-bit halves returns the value of the range with the code point, which is the only one, and zero where there is none or the page is not represented |
| IdnaAttributes.Combine | utilities/dev/generate_idna_data.py:197-219 | Every code point with a status gets it combined with the fields of all ranges that contain it, and no other code point gets an attribute |
| IdnaAttributes.WithTablesBits | utilities/dev/generate_idna_data.py:197-219 | A bit of an attribute is set exactly when the status or the shifted value of some range with the code point has it |
| IdnaAttributes.RuntimeRanges | utilities/dev/generate_idna_data.py:196-229 | The merged and split ranges say exactly the combined attributes, with no split that no page asks for; it fails exactly when some attribute is 0x2000 or more or has its two lowest bits zero |
| IdnaAttributes.FieldsAreSeparate | utilities/dev/generate_idna_data.py:34-38 | Where every property has one value for a code point, each packed field gives back its own property |
| IdnaGeneration.FirstsAreStarts | utilities/dev/generate_idna_data.py:196-229 | The runtime ranges start exactly at the code points where the attribute changes or a page begins, so their number is a matter of the property tables alone |
| IdnaGeneration.Generate | utilities/dev/generate_idna_data.py:292-307 | The two arrays are the halves and offsets of ranges that say exactly the combined attributes; it fails exactly when some attribute is 0x2000 or more or has no status, or when there are more than 65535 such starts, and reports the first of the two |
| IdnaGeneration.ProperIsAccepted | utilities/dev/generate_idna_data.py:221-228 | Where every code point with a status has a status from 1 to 3 and one value within its field for every property, no attribute is refused |
| IdnaGeneration.GenerateData | utilities/dev/generate_idna_data.py:292-307 | With proper property tables only the number of ranges can stop the generator |
| IdnaGeneration.Lookup | utilities/dev/generate_idna_data.py:268-285 | For every code point the generated function returns the combined attribute of the property tables, and zero without a status |
| IdnaGeneration.LookupFields | src/erbsland/text/punycode/impl/IdnaDataTypes.hpp:62-81 | Where every property table has one value for a code point with a status, the five fields of what the generated function returns are its five properties; without a status all five are zero |
| LightData.UniqueDeltaTable | utilities/dev/generate_unicode_light_data.py:240-256 | Every index leads back to its own triple, no triple is listed twice and none without use; lists of equal length are refused exactly when they need more than 256 entries, one for the zero triple and one for every other triple that occurs |
| LightData.CompressToRanges | utilities/dev/generate_unicode_light_data.py:266-291 | The last entry that starts at or before a code point has its properties; starts ascend and neighbours differ |
| LightData.SplitTables | utilities/dev/generate_unicode_light_data.py:298-322 | The ASCII table and the other entries, with an entry inserted at 0x80 when none starts there, still give every code point its properties |
| LightData.UnicodeDataFor | src/erbsland/text/impl/UnicodeData.hpp:70-83 | The lookup returns the properties of every code point, and unassigned ones behind the last |
| LightData.GenerateTables | utilities/dev/generate_unicode_light_data.py:240-322 | The three tables hold category, width and triple index of every code point; they are refused exactly when there are more than 256 triples |
| LightData.Lookup | src/erbsland/text/impl/UnicodeData.hpp:70-101 | From a code point through its entry and the triple table back to its own category, width and case mapping triple; none behind the last code point |
| JsonFraming.JsonLine.Receive | demos/cryptology/TokenAuthentication/JsonLine.hpp:37-61 | Records, error and remaining buffer of one chunk are those of taking its bytes in turn, stopping at the first error |
| JsonFraming.ChunksDoNotMatter | demos/cryptology/TokenAuthentication/JsonLine.hpp:37-61 | However a stream is cut into chunks, the records, the first error and the remaining buffer are the same |
| JsonFraming.StaysWellFramed | demos/cryptology/TokenAuthentication/JsonLine.hpp:37-61 | The buffer never exceeds 4096 bytes nor holds a line break, and every record delivered is what a non-empty plain line of at most 4096 bytes stands for |
| JsonFraming.StreamReproduced | demos/cryptology/TokenAuthentication/JsonLine.hpp:37-61 | Delivered lines, their separators and the buffer are together the stream that was consumed |
| JsonFraming.FirstError | demos/cryptology/TokenAuthentication/JsonLine.hpp:37-61 | The first error belongs to one byte: the stream before it is reproduced, and nothing after it changes the outcome |
| JsonFraming.AllDelivered | demos/cryptology/TokenAuthentication/JsonLine.hpp:18-23 | What the sender writes for short records is delivered completely, in order, with an empty buffer left |
| JsonFraming.DeliveredArePrefix | demos/cryptology/TokenAuthentication/JsonLine.hpp:37-61 | Whatever part of the sent bytes has arrived, the delivered records are the first ones that were sent |
| Base64Url.AlphabetIs | src/erbsland/text/base_n/BaseNFormat.cpp:178-179 | The character of a value is the one at its place in the alphabet string |
| Base64Url.Encode | src/erbsland/text/base_n/BaseNEncoder.cpp:41-106 | The encoding loop writes the six-bit groups of the bits of the data, the last one filled with zeros, without padding |
| Base64Url.Decode | src/erbsland/text/base_n/BaseNDecoder.cpp:31-108 | The two decoding loops accept exactly texts of the alphabet with a possible length, a result within the limit and zero unused bits, and return the bytes of their bits |
| Base64Url.Base64RoundTrip | demos/cryptology/TokenAuthentication/JsonLine.hpp:25-35 | Decoding undoes encoding for all data within the limit |
| Base64Url.DecodedIsCanonical | demos/cryptology/TokenAuthentication/JsonLine.hpp:29-35 | Any text that decodes is the encoding of the result |
| Base64Url.DecodeRecord | demos/cryptology/TokenAuthentication/JsonLine.hpp:29-35 | Decoding with the limit and comparing a second encoding is the decoding of which the inverse is proved below |
| Base64Url.UnbaseIsInverse | demos/cryptology/TokenAuthentication/JsonLine.hpp:29-35 | A text is accepted exactly when it encodes some data within the limit, which is the result; the check against a second encoding never fires |
| Authentication.DataFields | demos/cryptology/TokenAuthentication/JsonLine.hpp:29-35 | The data of a challenge or response record reads back as the bytes that were sent |
| AuthenticationSessions.ServerSession.OnRecord | demos/cryptology/TokenAuthentication/Server.hpp:52-80 | The session object changes its phase, its pending challenge and its link as the protocol step says, also when a record is refused or an answer cannot be queued |
| AuthenticationSessions.ServerSession.OnData | demos/cryptology/TokenAuthentication/Server.hpp:44-50 | A chunk is handled byte by byte; after an abort the rest of it is dropped |
| AuthenticationSessions.ClientSession.SendHello | demos/cryptology/TokenAuthentication/Client.hpp:75-80 | Connecting sends the hello record with the token's identifier, or aborts when it cannot be queued |
| AuthenticationSessions.ClientSession.OnRecord | demos/cryptology/TokenAuthentication/Client.hpp:49-73 | The client object follows the protocol step, and keeps its state when a record is refused |
| AuthenticationSessions.ClientSession.OnData | demos/cryptology/TokenAuthentication/Client.hpp:41-47 | A chunk is handled byte by byte; after an abort the rest of it is dropped |
| AuthenticationRun.ServerRecordKeeps | demos/cryptology/TokenAuthentication/Server.hpp:52-80 | Every record, accepted or refused, keeps the history of the session: one challenge, one verification, one result |
| AuthenticationRun.RunsAreGood | demos/cryptology/TokenAuthentication/Server.hpp:44-80 | In every state of every run, with failures and losses after aborts, both histories hold and each receiver has taken a beginning of what the other has sent |
| AuthenticationRun.PendingOnlyInProof | demos/cryptology/TokenAuthentication/Server.hpp:52-80 | A live session holds a pending challenge exactly in the proof state, and verifies at most one response |
| AuthenticationRun.ClientKnowsOutcome | demos/cryptology/TokenAuthentication/Client.hpp:49-73 | A client that has finished with a result was answered by a finished session whose one verification, of the client's own response to the challenge it was sent, had that outcome |
| AuthenticationRun.SuccessIsVerified | demos/cryptology/TokenAuthentication/Client.hpp:32-36 | The client exits successfully only after its response has been verified |
| AuthenticationRun.QuietIsFinished | demos/cryptology/TokenAuthentication/Server.hpp:52-80 | Without failures nothing is left to deliver only after both sides have finished with two records each |
| AuthenticationRun.UndisturbedRunsFinish | demos/cryptology/TokenAuthentication/Client.hpp:41-80 | Runs without failures have at most one event for the connect and one for each byte of four lines of the greatest length; if some challenge can be answered, a run that cannot go on without a failure has both sides finished after exactly four records |
| AuthenticationRun.CanFinish | demos/cryptology/TokenAuthentication/Client.hpp:41-80 | Every run without failures can be continued until both sides have finished |
| ParagraphReflow.Tokenize | utilities/dev/cleanup_rst.py:350-368 | The text is cut into its tokens with nothing but white space between them, and each is where it starts the token by its shape |
| TokenShapes.TokenShape | utilities/dev/cleanup_rst.py:350-379 | A token is closed markup, or a word up to the first white space where no closed markup begins, with all the punctuation behind it: two backticks to the next two, or colon-separated names and a backtick up to the next backtick |
| TokenShapes.OnlyCut | utilities/dev/cleanup_rst.py:350-368 | A text can be cut into such tokens in one way only, which is that of the tokenizer |
| ParagraphTokens.TokenStays | utilities/dev/cleanup_rst.py:350-379 | The length of a token does not depend on what follows it, as long as that ends a word and closes no markup left open |
| ParagraphTokens.TokensOfJoined | utilities/dev/cleanup_rst.py:350-379 | Cutting the tokens of a text joined by spaces gives the same tokens, for every text |
| ParagraphTokens.VisibleKept | utilities/dev/cleanup_rst.py:350-368 | The characters that are not white space keep their number and order |
| ParagraphReflow.Wrap | utilities/dev/cleanup_rst.py:310-331 | It gives up exactly when some token is wider than a line; otherwise the lines fit, and each of them ends behind a sentence, before a token that does not fit any more, or at the end |
| ParagraphReflow.BreaksAfterIs | utilities/dev/cleanup_rst.py:333-348 | A token ends a sentence exactly when what lies between its outer quotes and brackets ends in a full stop and is no listed abbreviation, no letters alternating with full stops, and has no digit before the stop |
| ParagraphReflow.GreedyEndsRight | utilities/dev/cleanup_rst.py:316-331 | In the greedy layout a token is the last of its line exactly for one of these three reasons, and always behind a sentence |
| ParagraphReflow.ReflowIsFixed | utilities/dev/cleanup_rst.py:310-379 | Wrapping the wrapped lines again gives the same tokens and the same lines, with nothing visible lost, added or moved |
| ParagraphReflow.ReflowIsBest | utilities/dev/cleanup_rst.py:310-331 | Every line fits and ends no later than a sentence does, and no layout of the tokens with these properties has fewer lines |
| ParagraphReflow.GreedyIsShortest | utilities/dev/cleanup_rst.py:316-331 | Every layout that fits and breaks after every sentence end has at least as many lines as the greedy one |
| TypeBrackets.BalancedTemplateArguments | utilities/lib/api_guidelines.py:434-446 | True exactly for one pair of brackets around everything with something inside, and for the empty text |
| TypeBrackets.Split | utilities/lib/api_guidelines.py:413-431 | The parts between the commas outside all brackets, and nothing at all when the brackets do not match |
| TypeBrackets.PiecesOfJoined | utilities/lib/api_guidelines.py:413-431 | Parts without commas of their own are found again after joining them with commas |
| ReturnTypes.CheckReturnType | utilities/lib/api_guidelines.py:313-331 | The mutual recursion ends on every text and computes the recogniser |
| ReturnTypes.Parse | utilities/lib/api_guidelines.py:313-331 | Every accepted text is the text of some type of the grammar |
| ReturnTypes.Accepts | utilities/lib/api_guidelines.py:313-331 | The text of every type of the grammar is accepted, with any white space around its template arguments |
| ReturnTypes.RecognisesTheGrammar | utilities/lib/api_guidelines.py:313-331 | A text is accepted if and only if it is the text of a type: optional brackets, optional const, a name, optional balanced template arguments that are again types, optional suffix |

## Left out

- Reading source files, configuration, Unicode and public suffix data; IDNA encoding of rules; rendering of C++ arrays, DOT and JSON; size budgets: the models start from the parsed values.
- Include graph: `resolve_identifier` and path matching. Nodes are an arbitrary finite list in display order; ties of the case-insensitive sort are decided by that order.
- Include graph: the reversed direction of the tree and the search is the same graph with its edges turned round.
- TreeText.TreeLines: lines are records of source, directive, depth and marker; their rendering as text is not part of the model.
- Huffman.BuildHuffmanTree: the heap is a list in ascending order, from which the two least entries are taken; serial numbers are unique, so trees are never compared.
- Flattening.FlattenHuffmanTree: a node is identified by its path from the root instead of by object identity, and the leaf mark is 0x80 as in all calls.
- PublicSuffixLookup.FindRule: for tables of the generator only; on other bytes the library may read outside them. Characters are compared as characters, not as signed bytes; rules and keys are ASCII.
- Public suffix: counters kept for statistics, such as the original byte count of the rules.
- NormalizationTables.EncodePages: one pair of loops stands for the three page writers of the generator, which differ only in the payload of an entry.
- Leb128.ReadUnsigned: for integers of more than five bytes or 32 bits only the bounds of the position are stated; the generator writes none.
- RuntimeLimits.ValidateRuntimeLimits: for mappings that have passed the cycle validation, as in the generator. Python's recursion limit is not modelled.
- The normalizer that uses the tables (canonical ordering, Hangul, windows) and its fixed buffers.
- IDNA: how the status and property tables are derived from the Unicode data and RFC 5892; they are the inputs.
- LightData.UniqueDeltaTable: the lists have equal length, otherwise they are refused as the strict zip does.
- Authentication: cryptography, JSON syntax and UTF-8 are function parameters. Verification is a function of challenge and response. Of printing and parsing only this is assumed, and only for the records of a session: they print to a non-empty text without raw line break, and parsing undoes printing when the line is short enough to be received.
- Authentication: timers, including the validity of a challenge, TCP and the event loop, the list of sessions, printing and the application's exit. An aborted connection is a final state; bytes an aborted party has sent may be lost. An exception while the client sends its hello counts as an abort.
- Authentication: sensitive memory and the size limits of the socket buffers, beyond the fact that a record may not be accepted for sending.
- Base64Url.Decode: the formats of the codec with padding, white space or line wrapping, which the records do not use.
- ParagraphReflow.Wrap: case folding and digits beyond ASCII in the sentence-end exceptions are parameters; every result holds for any choice of them.
- Reflow: Doxygen links, title lines, and the choice of paragraphs in a document. The fixed point is stated for the lines joined by spaces, as the cleanup joins them; a wrapped line that would itself read as a list item or title in the file is not considered.
- ReturnTypes.CheckReturnType: the regular expression for qualified names is a predicate on texts without white space, brackets and the characters of the grammar; the other patterns of the page validator are not modelled.
- Box drawing, CMake, Git, Sphinx and formatter utilities, and the other demos.
