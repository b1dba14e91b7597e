# Verified model of the gaby_vm AArch64 core

gaby_vm is an AArch64 interpreter built on VIXL. This project models five parts
of it in Dafny and proves what they are for:

- **The decode-graph compiler** (`decode_pattern`, `decode_table`, `compress`,
  `decode_graph`, `decoder`). Symbolic bit patterns over an arbitrary list of
  sampled bits become dense tables of linked nodes, with a memo and a two-entry
  form. The compiled walk is proved to mean what the pattern tables say. The
  nodes, the tables and the decoder are objects that the methods change in place.
- **Floating-point rounding and conversion** (`float_format`, `fp_round`,
  `double_rounding`, `fp_convert`, `fp_widen`, `fp_theorems`, `fp_immediates`).
  Numbers are bit patterns, their values exact integers scaled by powers of two.
- **Pointer authentication** (`pac_hash`, `pointer_auth`).
- **Bit and wide arithmetic** (`compiler_intrinsics`, `bitfields`,
  `multiply_high`, `logical_imm`).
- **The argument allocator of the procedure call standard** (`abi`).

Machine words are natural numbers, with shifts, masks and truncation to the word
size written out; `bits` defines the operators and proves their laws bit by bit.
Loops and objects of the source are loops and classes here. Each method is proved
against a function of its inputs or of the old state, and that function is in
turn related to an independent description by a lemma.

## What turned out

- Branches and loads that authenticate a pointer test two error bits of the
  result for zero. A pointer with bit 55 set that authenticates has both bits
  set, so it is stopped like a forged one (`PointerAuth.PassesCheck`,
  `PointerAuth.UpperPointerIsStopped`).
- Signing a pointer whose field disagrees with bit 55 and authenticating it fails,
  but the result still equals the pointer exactly if the pointer already held the
  error of the key, as every result of a failed authentication does
  (`PointerAuth.RoundTripExactly`, `PointerAuth.FailureSurvivesRoundTrip`).
- The leading-zero fallback gives 64, not the width, for a nonzero value with no
  set bit among the low bits (`CompilerIntrinsics.CountLeadingZerosFallBack`).
- An instruction form called "node" would be taken for an inner node
  (`DecodeGraphs.LeavesAreForms`).
- Two comments disagree with the code, which the model follows: the example
  "1x01" at decoder-constants-aarch64.h:33-34 shows an encoding without its x
  (decoder-aarch64.h:432-433 has it right), and the comment on bits 19 to 0 at
  utils-vixl.h:806 stands above a mask of bits 18 to 0.

## Model

| member | source | states |
|---|---|---|
| `Decoding.CompiledDecodeNode.Decode` | Sources/gaby_vm/src/aarch64/decoder-aarch64.cc:1354-1367 | walking the linked tables from a node ends at the leaf that the direct reading of the graph reaches, which follows by name the first pattern that matches the word, for every word whose direct reading ends, in cyclic graphs too; no table index is out of range and no entry met is empty |
| `Decoding.DecodeNode.Compile` | Sources/gaby_vm/src/aarch64/decoder-aarch64.cc:1302-1352 | terminates on every graph of which Root reaches no missing name, cyclic or not, because each call compiles a node that had no compiled form; afterwards this node and every compiled node outside the ghost set of nodes still under way is complete (each entry points to the compiled form of the node that its patterns put there), no two nodes share a table, and what was compiled before is the same object |
| `Decoding.DecodeNode.CompileFullTable` | Sources/gaby_vm/src/aarch64/decoder-aarch64.cc:1307-1347 | a node with the full table gets 2^k entries, none empty, each linked to the first matching handler or to the unallocated node; no node compiled before changes |
| `Decoding.DecodeNode.CompileEntry` | Sources/gaby_vm/src/aarch64/decoder-aarch64.cc:1327-1346 | one entry gets the first handler whose mask and value the index satisfies, or the unallocated node; the other entries keep their contents |
| `Decoding.DecodeNode.CompileNodeForBits` | Sources/gaby_vm/src/aarch64/decoder-aarch64.cc:993-1003 | the entry points to the one compiled form of the named node, made now if there was none; all other entries and all compiled nodes stay |
| `Decoding.DecodeNode.TryCompileOptimisedDecodeTable` | Sources/gaby_vm/src/aarch64/decoder-aarch64.cc:1256-1300 | succeeds exactly for one pattern without x over two or more bits, and then leaves a complete two-entry node; otherwise it changes nothing that is compiled |
| `Decoding.DecodeNode.CreateCompiledNode` | Sources/gaby_vm/src/aarch64/decoder-aarch64.h:583-587 | a new table of the requested size with every entry empty |
| `Decoding.CompiledDecodeNode.SetNodeForBits` | Sources/gaby_vm/src/aarch64/decoder-aarch64.h:504-508 | changes one entry of the table and no other |
| `Decoding.DecodeNode.Matches` | Sources/gaby_vm/src/aarch64/decoder-aarch64.cc:1312-1317 | the masks and values of all patterns, in table order, over the sampled bits sorted by position |
| `Decoding.Decoder.constructor` | Sources/gaby_vm/src/aarch64/decoder-aarch64.h:322-325 | a decoder built from well-formed mappings, of which Root reaches no missing name, has the graph of those mappings, every table reachable from Root complete, and the inverted table of unallocated encodings |
| `Decoding.Decoder.ConstructDecodeGraph` | Sources/gaby_vm/src/aarch64/decoder-aarch64.cc:66-88 | the graph has exactly the nodes that the mappings give it, first definition of a name first, and is compiled from Root |
| `Decoding.Decoder.AddDecodeNode` | Sources/gaby_vm/src/aarch64/decoder-aarch64.cc:52-56 | a node joins under its name unless the name is taken |
| `Decoding.Decoder.Decode` | Sources/gaby_vm/src/aarch64/decoder-aarch64.cc:39-50 | an instruction word is reported under the name that the direct reading from Root reaches, which is unallocated or an instruction form of the mappings, tagged as unallocated exactly if some mask and value lists that form and the masked word equals the value |
| `DecodeGraphs.NextNameIsFirstMatch` | Sources/gaby_vm/src/aarch64/decoder-aarch64.cc:1309-1346 | the node that comes next for a word is the handler of the first pattern that matches it, and "unallocated" if none does |
| `DecodeTables.LiteralMatches` | Sources/gaby_vm/src/aarch64/decoder-constants-aarch64.h:30-46 | a word matches a pattern literal exactly if it has a set bit wherever the literal has '1' and a clear bit wherever it has '0', character by character in the order of the sampled bits |
| `DecodeGraphs.CompiledNodeIsRight` | Sources/gaby_vm/src/aarch64/decoder-aarch64.cc:1302-1352 | whichever table a node gets, the index extracted from any word is in range and the entry there is the handler of the first pattern that matches the word symbol by symbol, or unallocated |
| `DecodeGraphs.FullTableIsRight` | Sources/gaby_vm/src/aarch64/decoder-aarch64.cc:1307-1347 | the same for the full table: the entry at the word's compressed bits is the first symbol-by-symbol match |
| `DecodeGraphs.EitherOrAgreesWithFull` | Sources/gaby_vm/src/aarch64/decoder-aarch64.cc:1256-1300 | the two-entry node picks, for every word, the child that the full table would pick |
| `DecodeGraphs.GraphIsMeaning` | Sources/gaby_vm/src/aarch64/decoder-aarch64.cc:66-84 | adding nodes in order with first-wins gives each name the meaning found by searching the mappings from the front: the first mapping of that name, or a leaf if an earlier mapping uses the name as an instruction form |
| `DecodeGraphs.FirstUseGivesNode` | Sources/gaby_vm/src/aarch64/decoder-aarch64.cc:66-80 | a mapping before any other use of its name is the node of that name, with its sampled bits and its patterns in order; a form before any other use is a leaf |
| `DecodeGraphs.UnusedName` | Sources/gaby_vm/src/aarch64/decoder-aarch64.cc:82-84 | a name that no mapping has or mentions is no node, except that there is always an unallocated leaf |
| `DecodeGraphs.FormsHaveNoUnderscore` | Sources/gaby_vm/src/aarch64/decoder-aarch64.cc:72-79 | a handler is an instruction form exactly if it does not begin with an underscore |
| `DecodeGraphs.GraphResolves` | Sources/gaby_vm/src/aarch64/decoder-aarch64.cc:58-84 | if Root and every handler with a leading underscore name a mapping, no missing name can be looked up |
| `DecodeGraphs.AcyclicEnds` | Sources/gaby_vm/src/aarch64/decoder-aarch64.cc:1354-1367 | in a graph without cycles every word's walk from every node ends at a leaf |
| `DecodeGraphs.EndsEarlyOrNever` | Sources/gaby_vm/src/aarch64/decoder-aarch64.cc:1354-1367 | cycles or not, a walk ends exactly if it has ended within the number of nodes of the graph |
| `DecodeGraphs.EndsOnce` | Sources/gaby_vm/src/aarch64/decoder-aarch64.cc:1354-1367 | a walk that has reached a leaf stays there, so it visits exactly one leaf |
| `DecodeGraphs.LeavesAreForms` | Sources/gaby_vm/src/aarch64/decoder-aarch64.h:577-577 | a node of a built graph is a leaf exactly if it was added under its own name as an instruction form and that name is not "node"; every leaf is an instruction form of the mappings or the unallocated node |
| `DecodeGraphs.ReportedForm` | Sources/gaby_vm/src/aarch64/decoder-aarch64.cc:66-88 | a walk from Root that has reached a leaf reports the name it has reached, which is unallocated or an instruction form of the mappings |
| `DecodeGraphs.RootResolvesExactly` | Sources/gaby_vm/src/aarch64/decoder-aarch64.cc:58-64 | no missing name is looked up while compiling from Root exactly if some set of nodes holds Root and, with each node, every name in its table |
| `DecodeGraphs.LiveResolves` | Sources/gaby_vm/src/aarch64/decoder-aarch64.cc:66-88 | when no missing name is looked up, the part of the graph that Root reaches is closed |
| `DecodeTables.IndexMatches` | Sources/gaby_vm/src/aarch64/decoder-aarch64.cc:1369-1411 | for any order of distinct sampled bits, the compressed bits satisfy the mask and value of the sorted pattern exactly if the word has each symbol of the unsorted pattern at its sampled position; the index is below 2^k |
| `DecodeTables.SingleComparison` | Sources/gaby_vm/src/aarch64/decoder-aarch64.cc:1270-1284 | for a pattern without x the masked word equals the value exactly if the word matches symbol by symbol |
| `DecodeTables.GenerateMaskValuePair` | Sources/gaby_vm/src/aarch64/decoder-aarch64.cc:1369-1378 | the mask has a one for each symbol but x, the value a one for each symbol 1, first symbol highest |
| `DecodeTables.GenerateSampledBitsMask` | Sources/gaby_vm/src/aarch64/decoder-aarch64.cc:1413-1419 | the mask built by the loop is the word of the sampled positions |
| `DecodeTables.SampledMaskBits` | Sources/gaby_vm/src/aarch64/decoder-aarch64.cc:1413-1419 | that word has a one at exactly the sampled positions |
| `DecodeTables.SingleMaskAndValue` | Sources/gaby_vm/src/aarch64/decoder-aarch64.cc:1270-1282 | the mask and value of the two-entry form, built from the symbols one by one |
| `DecodePatterns.GenerateOrderedPattern` | Sources/gaby_vm/src/aarch64/decoder-aarch64.cc:1380-1411 | the result is the pattern whose symbols are sorted by sampled position, with as many symbols as the input |
| `DecodePatterns.OrderedKeepsLength` | Sources/gaby_vm/src/aarch64/decoder-aarch64.cc:1404-1408 | sorting by position neither loses nor repeats a symbol |
| `DecodePatterns.SymbolsUndoesEncode` | Sources/gaby_vm/src/aarch64/decoder-constants-aarch64.h:37-46 | reading the symbols of an encoded sequence gives the sequence back |
| `DecodePatterns.EncodeUndoesSymbols` | Sources/gaby_vm/src/aarch64/decoder-aarch64.h:428-433 | every word of the pattern shape is the encoding of its symbols |
| `DecodePatterns.StringPattern` | Sources/gaby_vm/src/aarch64/decoder-constants-aarch64.h:37-46 | a pattern literal has the symbols of its string in order, and fits 32 bits exactly up to 15 characters |
| `DecodePatterns.LengthIs` | Sources/gaby_vm/src/aarch64/decoder-aarch64.h:629-636 | the marker sits at an odd position with both its bits set, and half that position is the number of symbols |
| `DecodePatterns.SymbolAt` | Sources/gaby_vm/src/aarch64/decoder-aarch64.h:647-653 | the symbol read at a position is the symbol at that position of the sequence |
| `DecodePatterns.PatternContainsSymbol` | Sources/gaby_vm/src/aarch64/decoder-aarch64.h:638-645 | true exactly if the symbol occurs in the pattern |
| `Decoding.Decoder.VisitNamedInstruction` | Sources/gaby_vm/src/aarch64/decoder-aarch64.cc:137-158 | the unallocated tag is set exactly if some mask and value of the table lists the form's hash and the masked word equals the value |
| `Decoding.Decoder.PopulatePerInstructionUnallocatedMap` | Sources/gaby_vm/src/aarch64/decoder-aarch64.cc:981-986 | the multimap holds each mask and value once under every form it lists, and nothing else |
| `Decoding.TaggedIffListed` | Sources/gaby_vm/src/aarch64/decoder-aarch64.cc:137-158 | searching the inverted multimap and searching the table itself agree, for every table |
| `Decoding.EntryMeans` | Sources/gaby_vm/src/aarch64/decoder-aarch64.cc:147-150 | an entry of a mask in the high half and a value in the low half holds exactly for the words that the mask takes to the value |
| `Decoding.HashOfCharacter` | Sources/gaby_vm/src/utils-vixl.h:1516-1520 | each character is added to the hash, which is multiplied by 1025 modulo 2^32 and folded down by 64 |
| `Decoding.HashOfEnd` | Sources/gaby_vm/src/utils-vixl.h:1511-1515 | the end of the string multiplies by 9, folds by 2048 and multiplies by 32769, modulo 2^32 |
| `Compression.Compress` | Sources/gaby_vm/src/aarch64/instructions-aarch64.h:253-272 | the five rounds of parallel suffix, mask and shift equal the specification that gathers the masked bits one at a time |
| `Compression.GatherBit` | Sources/gaby_vm/src/aarch64/instructions-aarch64.h:253-272 | bit r of that specification comes from the one mask position with r mask bits below it |
| `Compression.MoveRound` | Sources/gaby_vm/src/aarch64/instructions-aarch64.h:259-270 | each round keeps the invariant that bit i has moved down by the low bits of the number of clear mask bits below it |
| `Compression.ParallelSuffix` | Sources/gaby_vm/src/aarch64/instructions-aarch64.h:260-264 | five shifts compute at each position the parity of the set bits up to it |
| `FPRounding.FPRound` | Sources/gaby_vm/src/utils-vixl.h:1187-1371 | in both modes the word is the sign followed by the exact input, mantissa * 2^(exponent - highest bit), rounded once, through subnormals, exponent carry, overflow and underflow |
| `FPRounding.RoundRightToEven` | Sources/gaby_vm/src/utils-vixl.h:1328-1348 | the half bit, lowered by one unit for a tie with an even result, rounds the exact input to nearest even, carrying into the exponent where needed |
| `FPRounding.RoundRightToOdd` | Sources/gaby_vm/src/utils-vixl.h:1350-1361 | collecting the bits shifted out in the lowest kept bit rounds the exact input to odd |
| `FPConversionTheorems.RoundInputIsCorrect` | Sources/gaby_vm/src/utils-vixl.h:1187-1371 | in ties-to-even mode no encoding is nearer to the exact input and ties go to the even one; in round-to-odd mode the result is exact or odd and next to the input, finite and nonzero |
| `FPConversionTheorems.RoundInputOverflows` | Sources/gaby_vm/src/utils-vixl.h:1267-1283 | infinity is the result exactly from the roundTiesToEven threshold up, and never with round-to-odd |
| `FPConversionTheorems.RoundInputMonotone` | Sources/gaby_vm/src/utils-vixl.h:1187-1371 | a larger exact magnitude never rounds to a smaller encoding, in both modes |
| `FloatFormat.NearestIsNearestEven` | Sources/gaby_vm/src/utils-vixl.h:1327-1348 | an encoding is the nearest with ties to even exactly if it is the one the rounding picks |
| `FloatFormat.ToOddIsRoundedToOdd` | Sources/gaby_vm/src/utils-vixl.h:1350-1361 | an encoding is exact, or odd and next to the input, exactly if it is the one the rounding picks |
| `DoubleRounding.OddThenNearest` | Sources/gaby_vm/src/utils-vixl.h:1187-1371 | for every pair of formats where the wide one has enough room and every number, rounding to odd in the wide format and then to nearest in the narrow one is a single rounding to nearest |
| `FPConversionTheorems.RoundToOddAvoidsDoubleRounding` | Sources/gaby_vm/src/utils-vixl.cc:355-415 | double to single with round-to-odd and then single to half equals double to half on every double word, NaNs, infinities, tiny and overflowing numbers included |
| `FPConversionTheorems.NarrowUndoesWiden` | Sources/gaby_vm/src/utils-vixl.cc:288-352 | narrowing undoes widening on every word of the narrow format: NaNs come back with the quiet bit forced on and nothing else changed, all others unchanged |
| `FPConversionTheorems.SignallingIffQuietingChanges` | Sources/gaby_vm/src/utils-vixl.h:462-490 | the words for which the conversions raise the exception are exactly the NaNs that forcing the quiet bit changes |
| `FPConversionTheorems.ResultsAreQuiet` | Sources/gaby_vm/src/utils-vixl.cc:355-415 | no narrowing conversion returns a signalling NaN, and NaNs stay NaNs |
| `FPConversionTheorems.HalfThroughSingle` | Sources/gaby_vm/src/utils-vixl.cc:467-519 | half to single to half, on every half word |
| `FPConversionTheorems.SingleThroughDouble` | Sources/gaby_vm/src/utils-vixl.cc:425-464 | single to double to single, on every single word |
| `FPConversionTheorems.WidenIsExact` | Sources/gaby_vm/src/utils-vixl.cc:288-352 | widening keeps the exact value and the sign of every finite number |
| `FPConversionTheorems.BFloatByAdding` | Sources/gaby_vm/src/utils-vixl.cc:575-631 | conversion to bfloat16 of every word that is not a NaN is (r + 0x7fff + ((r >> 16) & 1)) >> 16, with no carry out of 32 bits |
| `FPConversionTheorems.NearestByAdding` | Sources/gaby_vm/src/utils-vixl.cc:575-631 | with a common exponent range, rounding to nearest even is adding just under half a unit, plus the parity of what is kept, and dropping the rest |
| `FPConversions.ClassFromFields` | Sources/gaby_vm/src/utils-vixl.cc:188-209 | the class of a word, decided by its order against zero, the subnormals and infinity, is the one its exponent and fraction fields give |
| `FPConversions.DoubleToSingle` | Sources/gaby_vm/src/utils-vixl.cc:355-415 | a finite double is rounded exactly once in the requested mode, NaNs keep sign and top payload and become quiet or default, and the exception is raised exactly for signalling NaNs |
| `FPConversions.SingleToHalf` | Sources/gaby_vm/src/utils-vixl.cc:467-519 | the same for single to half, ties to even |
| `FPConversions.DoubleToHalf` | Sources/gaby_vm/src/utils-vixl.cc:522-573 | the same for double to half, ties to even |
| `FPConversions.SingleToBFloat` | Sources/gaby_vm/src/utils-vixl.cc:575-631 | the same for single to bfloat16, ties to even |
| `FPWidening.HalfToSingle` | Sources/gaby_vm/src/utils-vixl.cc:288-352 | the single word nearest to the half, subnormals normalised, with NaN payload kept and made quiet |
| `FPWidening.SingleToDouble` | Sources/gaby_vm/src/utils-vixl.cc:425-464 | a NaN keeps sign and payload and becomes quiet or default, with the exception exactly for signalling ones; numbers and infinities go through the host's cast, which is taken as exact |
| `FPImmediates.TestedIffEncodable` | Sources/gaby_vm/src/utils-vixl.h:802-842 | a single or double word passes the immediate test exactly if some eight-bit immediate expands to it |
| `FPImmediates.ImmediateRoundTrip` | Sources/gaby_vm/src/utils-vixl.h:754-801 | every eight-bit immediate survives expansion to a single or double and back |
| `FPImmediates.SingleValue` | Sources/gaby_vm/src/utils-vixl.h:778-789 | the single-precision word of an immediate has sign bit 7 and the value (16 + efgh) / 16 * 2^(E - 3), with E the bits (not b), c, d |
| `FPImmediates.DoubleValue` | Sources/gaby_vm/src/utils-vixl.h:790-801 | the same number in double precision |
| `FPImmediates.FromImm8Bit` | Sources/gaby_vm/src/utils-vixl.h:778-801 | the bits of the expanded immediate: sign, inverted bit, copies, fraction and zeros |
| `FPImmediates.ToImm8Bit` | Sources/gaby_vm/src/utils-vixl.h:754-777 | the bits of the immediate taken from a word |
| `FPImmediates.IsImmTests` | Sources/gaby_vm/src/utils-vixl.h:802-842 | the three mask tests say that the fraction ends in zeros, the copied bits agree and the bit above them differs |
| `PACHash.ComputePAC` | Sources/gaby_vm/src/aarch64/pointer-auth-aarch64.cc:115-128 | the network computes the hash function composed of the specified permutations, substitutions, mixings and key additions |
| `PACHash.PACPermutesData` | Sources/gaby_vm/src/aarch64/pointer-auth-aarch64.cc:115-128 | for each context and key the hash is a permutation of the data words, with its inverse given |
| `PACHash.PACPermutesContext` | Sources/gaby_vm/src/aarch64/pointer-auth-aarch64.cc:115-128 | for each data word and key the hash is a permutation of the contexts, with its inverse given |
| `PACHash.ShuffleNibbles` | Sources/gaby_vm/src/aarch64/pointer-auth-aarch64.cc:60-68 | the loop computes the permutation of nibbles given bit by bit |
| `PACHash.SubstituteNibbles` | Sources/gaby_vm/src/aarch64/pointer-auth-aarch64.cc:70-80 | the loop computes the substitution of each nibble |
| `PACHash.ShuffleTable` | Sources/gaby_vm/src/aarch64/pointer-auth-aarch64.cc:61-67 | where each of the sixteen nibbles of the shuffled word comes from |
| `PACHash.SubstituteTable` | Sources/gaby_vm/src/aarch64/pointer-auth-aarch64.cc:72-79 | what each of the sixteen nibble values is replaced by, at every place |
| `PACHash.MixedColumn` | Sources/gaby_vm/src/aarch64/pointer-auth-aarch64.cc:91-110 | each bit of a nibble after mixing is the exclusive-or of three bits, at the given rotations, of the other nibbles of its column |
| `PACHash.BigShuffle` | Sources/gaby_vm/src/aarch64/pointer-auth-aarch64.cc:83-110 | the loop computes the mixing in which each bit is the exclusive-or of rotated bits of the three other nibbles of its column |
| `PACHash.ShuffleInverse` | Sources/gaby_vm/src/aarch64/pointer-auth-aarch64.cc:60-68 | the nibble permutation has an inverse on all 64-bit words |
| `PACHash.SubstituteInverse` | Sources/gaby_vm/src/aarch64/pointer-auth-aarch64.cc:70-80 | the nibble substitution has an inverse on all 64-bit words |
| `PACHash.FourRounds` | Sources/gaby_vm/src/aarch64/pointer-auth-aarch64.cc:91-110 | four mixings add to each bit the parity of its column |
| `PACHash.EightRounds` | Sources/gaby_vm/src/aarch64/pointer-auth-aarch64.cc:91-110 | eight mixings are the identity |
| `PointerAuth.AddPAC` | Sources/gaby_vm/src/aarch64/pointer-auth-aarch64.cc:164-188 | the signed pointer has the hash of the canonical pointer in its field, one bit inverted exactly if the field did not agree with bit 55, and all other bits unchanged |
| `PointerAuth.AuthPAC` | Sources/gaby_vm/src/aarch64/pointer-auth-aarch64.cc:142-162 | the canonical pointer if the field holds its hash, and otherwise the canonical pointer with the key's error code in the two error bits |
| `PointerAuth.PoisonedValue` | Sources/gaby_vm/src/aarch64/pointer-auth-aarch64.cc:154-161 | the result of a failed authentication is the canonical pointer plus 2^(top - 2 + number) if bit 55 is clear, and minus 2^(top - 1 - number) if it is set |
| `PointerAuth.SignedBits` | Sources/gaby_vm/src/aarch64/pointer-auth-aarch64.cc:174-187 | each bit of a signed pointer: the hash in the field, bit top - 1 inverted exactly for pointers that were not canonical, the pointer elsewhere |
| `PointerAuth.StripPAC` | Sources/gaby_vm/src/aarch64/pointer-auth-aarch64.cc:190-193 | the pointer with its field replaced by copies of bit 55 |
| `PointerAuth.CalculatePACMask` | Sources/gaby_vm/src/aarch64/pointer-auth-aarch64.cc:133-140 | the mask has exactly the bits from bottom to top except bit 55; as a number it is 2^55 - 2^bottom with an ignored top byte and 2^64 - 2^bottom - 2^55 without |
| `PointerAuth.AuthenticateUndoesSign` | Sources/gaby_vm/src/aarch64/pointer-auth-aarch64.cc:142-188 | authenticating a signed pointer gives it back if its field agreed with bit 55, and its poisoned form otherwise, for every pointer, context and key |
| `PointerAuth.AcceptsSigned` | Sources/gaby_vm/src/aarch64/pointer-auth-aarch64.cc:142-188 | a signed pointer authenticates exactly if the pointer was canonical |
| `PointerAuth.OnlySignedIsAccepted` | Sources/gaby_vm/src/aarch64/pointer-auth-aarch64.cc:142-162 | a pointer authenticates exactly if it is its own canonical form, signed: one field value is accepted and no other |
| `PointerAuth.RejectionIsVisible` | Sources/gaby_vm/src/aarch64/pointer-auth-aarch64.cc:154-161 | the result is canonical exactly if the pointer was accepted, and a rejected one has the error bit of its key set and the other clear |
| `PointerAuth.SignedKeepsCanonical` | Sources/gaby_vm/src/aarch64/pointer-auth-aarch64.cc:190-193 | stripping a signed pointer gives the canonical form of the pointer that was signed |
| `PointerAuth.AuthenticatedAddress` | Sources/gaby_vm/src/aarch64/simulator-aarch64.cc:4034-4042 | the branch check stops unless both error bits are clear, so it passes exactly if the pointer was accepted and its bit 55 is clear |
| `PointerAuth.PassesCheck` | Sources/gaby_vm/src/aarch64/simulator-aarch64.cc:4495-4498 | the same for loads: accepted pointers with bit 55 set are stopped like forged ones |
| `PointerAuth.UpperPointerIsStopped` | Sources/gaby_vm/src/aarch64/simulator-aarch64.cc:4034-4042 | every canonical pointer with bit 55 set authenticates back to itself once signed and has both error bits set, so the check stops it |
| `PointerAuth.OnesAreCanonical` | Sources/gaby_vm/src/aarch64/simulator-aarch64.cc:4034-4042 | the all-ones word is such a pointer, for every layout |
| `PointerAuth.RoundTripExactly` | Sources/gaby_vm/src/aarch64/pointer-auth-aarch64.cc:142-188 | signing and then authenticating gives the pointer back exactly if its field agrees with bit 55, or its error bits hold the code of the key and the rest of its field agrees with bit 55 |
| `PointerAuth.FailureSurvivesRoundTrip` | Sources/gaby_vm/src/aarch64/pointer-auth-aarch64.cc:154-161 | every result of a failed authentication is not canonical, holds the error of its key, and comes back unchanged from signing and authenticating |
| `PointerAuth.PoisonedFixed` | Sources/gaby_vm/src/aarch64/pointer-auth-aarch64.cc:158-161 | writing the error code changes nothing exactly if the pointer already holds that error |
| `PointerAuth.PoisonedTwice` | Sources/gaby_vm/src/aarch64/pointer-auth-aarch64.cc:158-161 | writing the error code twice is writing it once |
| `HighMultiplication.MultiplyHigh` | Sources/gaby_vm/src/utils-vixl.h:1094-1126 | for N of 8, 16, 32 and 64, signed and unsigned, the result is the floor of u * v / 2^N (as a 64-bit word reread as signed for unsigned N of 64), although every intermediate wraps at 64 bits |
| `Bitfields.AsInt64Is` | Sources/gaby_vm/src/utils-vixl.h:1122-1124 | copying a 64-bit word into a signed integer gives the one integer of the signed range that has this word |
| `HighMultiplication.HighFromHalves` | Sources/gaby_vm/src/utils-vixl.h:1113-1121 | cross products of half words and their carries add up to the high half of the product |
| `HighMultiplication.ShiftedWord` | Sources/gaby_vm/src/utils-vixl.h:1117-1119 | a logical shift with the sign bits or-ed in is the arithmetic shift, for every partial sum |
| `LogicalImmediates.DecodeImmBitMask` | Sources/gaby_vm/src/aarch64/instructions-aarch64.cc:745-791 | zero exactly for reserved encodings; otherwise bit i is set exactly if i + R, around the element width, is at most S; the search for the width always ends inside the loop |
| `LogicalImmediates.GetSVEImmLogical` | Sources/gaby_vm/src/aarch64/instructions-aarch64.cc:647-663 | the mask at the lane of the element, or of a byte for narrower elements, which it fits; zero exactly for reserved encodings |
| `LogicalImmediates.GetImmLogical` | Sources/gaby_vm/src/aarch64/instructions-aarch64.cc:636-642 | the mask at 32 or 64 bits, zero exactly for reserved encodings |
| `LogicalImmediates.ElementsFitLanes` | Sources/gaby_vm/src/aarch64/instructions-aarch64.cc:699-737 | there is a lane size exactly if there is an element width, and the lane is the element, or a byte for narrower elements |
| `LogicalImmediates.GetSVEBitwiseImmLaneSizeInBytesLog2` | Sources/gaby_vm/src/aarch64/instructions-aarch64.cc:699-737 | -1 exactly if there is no element width, and otherwise the logarithm of the lane that is the element, or a byte for narrower elements |
| `LogicalImmediates.MaskIsNotZero` | Sources/gaby_vm/src/aarch64/instructions-aarch64.cc:644-646 | no encoding that is not reserved stands for zero, so zero can report failure |
| `LogicalImmediates.MaskIsNotOnes` | Sources/gaby_vm/src/aarch64/instructions-aarch64.cc:749-763 | no mask is all ones: each element has a clear bit |
| `LogicalImmediates.ElementValue` | Sources/gaby_vm/src/aarch64/instructions-aarch64.cc:749-763 | the element of a mask as a number: S + 1 ones rotated right by R |
| `LogicalImmediates.WidthTable` | Sources/gaby_vm/src/aarch64/instructions-aarch64.cc:752-758 | the element width by the ranges of imms |
| `LogicalImmediates.ReservedEncodings` | Sources/gaby_vm/src/aarch64/instructions-aarch64.cc:766-783 | the reserved encodings are imms 63 with N set, and imms 31, 47, 55, 59, 61, 62 and 63 with N clear |
| `LogicalImmediates.RepeatBitsAcrossReg` | Sources/gaby_vm/src/aarch64/instructions-aarch64.cc:39-51 | bit j of the result is bit j modulo the width of the value, up to the register size |
| `LogicalImmediates.RotateRight` | Sources/gaby_vm/src/utils-vixl.h:237-248 | bit i of the result is bit i + rotate of the value, around the width |
| `LogicalImmediates.RotatedValue` | Sources/gaby_vm/src/utils-vixl.h:237-248 | a rotation as a number: the low bits that leave on the right come back on top |
| `LogicalImmediates.RotateLeft` | Sources/gaby_vm/src/utils-vixl.h:250-254 | a left rotation is the right rotation by the rest of the width |
| `LogicalImmediates.RotateBack` | Sources/gaby_vm/src/utils-vixl.h:237-254 | rotating left undoes rotating right, for every value, count and width |
| `Bitfields.ExtractedBits` | Sources/gaby_vm/src/utils-vixl.h:200-205 | bit j of the field is bit j + lsb of the word, up to msb, for every pair of positions including the whole word |
| `Bitfields.ExtractSignedBitfield64` | Sources/gaby_vm/src/utils-vixl.h:215-226 | the field with its top bit counted negatively |
| `CompilerIntrinsics.CountLeadingZerosFallBack` | Sources/gaby_vm/src/compiler-intrinsics-vixl.cc:45-77 | width minus one minus the position of the highest set bit of the low bits, width at zero, and 64 for a nonzero value without low bits |
| `CompilerIntrinsics.CountTrailingZerosFallBack` | Sources/gaby_vm/src/compiler-intrinsics-vixl.cc:115-144 | the position of the lowest set bit of the low bits, or the width |
| `CompilerIntrinsics.CountSetBitsFallBack` | Sources/gaby_vm/src/compiler-intrinsics-vixl.cc:80-112 | the parallel count is the number of set bits among the low bits |
| `Compression.PopCountIsCount` | Sources/gaby_vm/src/compiler-intrinsics-vixl.cc:80-112 | the count of set bits is the number of positions with a set bit |
| `CompilerIntrinsics.CountLeadingSignBitsFallBack` | Sources/gaby_vm/src/compiler-intrinsics-vixl.cc:34-42 | what is left of the width is the smallest signed width that holds the value |
| `CompilerIntrinsics.RoundKeepsSum` | Sources/gaby_vm/src/compiler-intrinsics-vixl.cc:97-110 | each halving round of the count keeps the sum of the fields |
| `ArgumentPassing.ABI.GetNextParameterGenericOperand` | Sources/gaby_vm/src/aarch64/abi-aarch64.h:86-145 | one argument takes the next register of its kind or the next stack slot; a type over eight bytes is unimplemented and changes nothing |
| `ArgumentPassing.ABI.GetStackSpaceRequired` | Sources/gaby_vm/src/aarch64/abi-aarch64.h:71-71 | the stack space is the offset that the next stacked argument starts from |
| `ArgumentPassing.ABI.Reset` | Sources/gaby_vm/src/aarch64/abi-aarch64.h:65-69 | all three counters start at zero |
| `ArgumentPassing.ABI.GetReturnGenericOperand` | Sources/gaby_vm/src/aarch64/abi-aarch64.h:73-80 | a result of at most eight bytes is in register zero of its kind |
| `ArgumentPassing.PlaceOf` | Sources/gaby_vm/src/aarch64/abi-aarch64.h:86-145 | for every list of small arguments, an argument with k of its kind before it is in register k if k < 8, and else in the slot numbered by the stacked arguments before it |
| `ArgumentPassing.RegisterExactlyIfEarly` | Sources/gaby_vm/src/aarch64/abi-aarch64.h:107-122 | the k-th argument of a kind is in register k exactly if k < 8, whatever the interleaving |
| `ArgumentPassing.PlaceWidths` | Sources/gaby_vm/src/aarch64/abi-aarch64.h:97-109 | floating-point registers have the width of the argument, all other places 32 bits up to four bytes and 64 bits above, and a pointer always 64 |
| `ArgumentPassing.PlacesAreDisjoint` | Sources/gaby_vm/src/aarch64/abi-aarch64.h:86-145 | no register is handed out twice and no two stack places share a byte |
| `ArgumentPassing.StackPlacesFit` | Sources/gaby_vm/src/aarch64/abi-aarch64.h:86-145 | stack places are 8-aligned, hold their argument and lie within the stack space |
| `ArgumentPassing.StackSpace` | Sources/gaby_vm/src/aarch64/abi-aarch64.h:71-71 | the stack space is eight bytes for each stacked argument |
| `ArgumentPassing.AlignedSlot` | Sources/gaby_vm/src/aarch64/abi-aarch64.h:136-137 | aligning the next stack slot changes nothing for a type of at most eight bytes whose alignment divides its size |

## Left out

- FPRounding.FPRound: excludes the one exponent for which a mantissa of 2^63 or more is shifted right by 64, which C++ leaves undefined; exponents so low that the cast to `int` at utils-vixl.h:1292 truncates the extra shift; and exponents so high that rebiasing overflows 64 bits.
- FPWidening.SingleToDouble: takes the host's `static_cast<double>` as exact for numbers and infinities; only the NaN path is the source's own code.
- FPConversions.SingleToBFloat: the conversion from double to bfloat16 is unimplemented in the source and not modelled; the conversion from half to double is the composition of two modelled ones.
- LogicalImmediates.RotateRight: requires that the count modulo 64 does not exceed the width, since the source would shift by a negative count.
- LogicalImmediates.DecodeImmBitMask: takes N, imms and immr as arguments; reading these fields from the instruction word is bit-field extraction.
- Decoding.CompiledDecodeNode.Decode: takes as ghost arguments the name of its node and a number of steps after which the direct reading has reached a leaf; the source has no bound and would not return on a walk that stays in a cycle.
- Decoding.Decoder.constructor: requires that Root reaches no missing name, which is exactly where the source aborts, and that all mappings are well formed; the source checks the pattern lengths and takes distinct sampled bits below 32 for granted. A handler is a string, never a null pointer.
- Decoding.Decoder.Decode: returns the metadata that the visitors are given; the list of visitors and the calls to them are not modelled.
- Decoding.Decoder.VisitNamedInstruction: form names are sequences of characters hashed by their codes, so a name with bytes above 127 is read as unsigned.
- PointerAuth.AddPAC: requires the layout with an ignored top byte, as the source asserts; the layout is a parameter elsewhere, where the source fixes 48 and 55.
- ArgumentPassing.PlaceOf: concerns arguments of at most eight bytes with at most eight-byte alignment; larger ones are unimplemented in the source, whose branch for sixteen-byte integers can therefore not be reached.
- The contents of the decode mapping and of the table of unallocated encodings, which are arbitrary well-formed inputs here.
- The list of instantiated bit-extraction functions: every mask and value is taken to have one, also the empty mask of a node that samples no bits.
- The predecode cache, the simulator's registers, memory and instruction semantics, and the shadow runner.
- CPU feature sets and the features auditor, the register and vector-format tables, the debugger and the disassembler, which would add large case tables with small claims.
- Host `fma`, arithmetic on the simulated half type through host doubles, and cache maintenance.
