# Verified models of libpcap's filter compiler, GNU getopt and argp, and a radiotap iterator

The repository bundles C libraries for its Android tools. This project models the parts of them that
are hardest to get right, in Dafny, and proves what they are for.

**The filter compiler (`libpcap/gencode.c`).** A filter expression is compiled while it is parsed.
Blocks with two branches are joined by "and", "or" and "not"; unresolved branches are threaded through
the branch fields themselves, two lists per composite, and `sense` says which field of a block is the
link. `Backpatch` keeps the fields and mutations of the C code. `BlockGraph` says which graph a tree
of tests stands for and proves that running it is short-circuit evaluation; `Layout` says, over plain
values, when blocks in memory are such a graph, and what a walk along a list changes. `Arith` models
arithmetic on sixteen scratch words and proves both what the code computes and exactly when it
compiles; `Frames` and `Predicates` give the meaning of byte strings, 802.11 addresses, VLAN tags,
protocols and relations; `Checks` says when the kept protocol checks cover an expression. `Language`
says what a filter asks of the bytes of an Ethernet frame, without any table, width or offset of the
compiler: every atom is tested behind as many tags as there are VLAN tests to its left, under "not" and
"or" too. `CodeGen` has the generator object with the `gen_` routines, and the end to end theorem
`PcapCompile`, which is about that language. The interpreter is not part of the repository: `Machine`
gives the semantics of the BPF paper of McCanne and Jacobson (USENIX Winter 1993), in which a load behind
the end of the packet, and a division or remainder by zero, reject the packet. A shift by 32 or more gives 0.
`ChunkPool` is the compiler's allocator.

**getopt (`libargp/getopt.c`).** `GetoptScan` describes the scan of an argument vector without moving
anything; `Getopt` has the vector that is permuted in place, the fields that persist between calls, and
proves that each call is one step of that scan, that a whole run leaves the option elements in front
and the rest behind, both in order (Guideline 10 in section 12.2 of POSIX.1-2017 for "--"), which values
it returns, and when a second run agrees. `GetoptAnswers` says what is answered to what is typed, in
texts, marks of the option string and the rules for abbreviations, and proves that a command line
spelled for some options and arguments is read as just those. Two of the promises fail for "W;" in the
option string, and one for a missing argument; each has its exact condition.

**The radiotap iterator (`Csi/radiotap.c`).** `RadiotapHeader` describes headers, the walk over chained
presence words up to a vendor namespace, and the layout of fields that it refines on plain headers;
`RadiotapTour` is the walk through a whole header, vendor namespaces included, and `Radiotap` the
resumable iterator, which returns exactly what that walk does. The code takes up a pointer that it
may not have set: the model ends there with `Unset`, and says for which headers this happens.

**Word-at-a-time search (`libargp/strchrnul.c`, `rawmemchr.c`).** `WordSearch` proves the
subtract-and-mask test for every number of bytes, and both searches for every word size, start and
byte order.

**argp (`libargp/argp-parse.c`, `argp-help.c`).** `ArgpParse` fills the tables that getopt reads from a
tree of option groups, and finds the group of a value that getopt returns. `ArgpGetopt` puts the two
together: exactly when an option, as it is typed, is read with the argument that was declared and comes
back to the group that declares it, with its key, and which keys and names do not. `ArgpAnswers` says
the same by the fields that the programmer declared, and what becomes of what nobody declared.
`ArgpHelp` flattens the same tree for the help text, and says when an option goes to the group whose
entry shows it.

`-1` is the value `End`, a C error return or a `bpf_error` is a value of the result type, and a pointer
into a buffer is an offset. Lists of statements (`struct slist`) are sequences. Integers are unbounded
unless the width matters: BPF words, offsets, packed option values and allocation sizes wrap as in C.
`Common` holds what several models share.

## Model

| member | source | states |
|---|---|---|
| `BlockGraph.GraphCorrect` | app/src/main/jni/libpcap/gencode.c:642-670 | Running the block graph of any tree of tests, from any packet and machine state, ends like left-to-right short-circuit evaluation: same verdict, same fault, same final state. |
| `BlockGraph.GraphShape` | app/src/main/jni/libpcap/gencode.c:559-670 | Resolved branches only go forward, so the graph is acyclic; the last block has one exit of each kind and every other block at most one. |
| `BlockGraph.ExitsSound` | app/src/main/jni/libpcap/gencode.c:565-599 | The list of true (or false) exits starts at the composite's own block, repeats nothing and holds only blocks with such an exit. |
| `BlockGraph.ExitsComplete` | app/src/main/jni/libpcap/gencode.c:565-599 | The list misses no open exit. |
| `BlockGraph.ListsShareOwn` | app/src/main/jni/libpcap/gencode.c:584-599 | The true list and the false list share the composite's own block and no other. |
| `Layout.WalkResolves` | app/src/main/jni/libpcap/gencode.c:565-581 | A walk that fills every link of a list resolves exactly the exits on that list and changes no other field. |
| `Layout.WalkExtends` | app/src/main/jni/libpcap/gencode.c:587-599 | A walk that fills the last, null link of a list appends to it and changes no other field. |
| `Layout.JoinLaid` | app/src/main/jni/libpcap/gencode.c:642-663 | After patching and merging, the two lists of the joined composite are threaded, null-terminated and complete, and the graph is that of the join. |
| `Layout.FlipLaid` | app/src/main/jni/libpcap/gencode.c:665-670 | Flipping the `sense` of the own block of a laid-out composite turns the walk from one list to the other, and both lists stay threaded and complete. |
| `Layout.NotLaid` | app/src/main/jni/libpcap/gencode.c:665-670 | With `sense` turned to the other list, the same blocks are the laid-out composite of the negation. |
| `Layout.BothListsFilled` | app/src/main/jni/libpcap/gencode.c:601-640 | Filling both lists, with `sense` flipped in between, leaves no open branch. |
| `Backpatch.Backpatch` | app/src/main/jni/libpcap/gencode.c:565-581 | The loop, on the heap: exactly the listed exits get the target; nothing else changes. |
| `Backpatch.Merge` | app/src/main/jni/libpcap/gencode.c:587-599 | The loop, on the heap: the second list is appended at the null link; nothing else changes. |
| `Backpatch.GenAnd` | app/src/main/jni/libpcap/gencode.c:642-652 | On disjoint valid composites the result is a valid composite for the conjunction, on the union of their blocks. |
| `Backpatch.GenOr` | app/src/main/jni/libpcap/gencode.c:654-663 | The same for the disjunction. |
| `Backpatch.GenNot` | app/src/main/jni/libpcap/gencode.c:665-670 | One flipped bit makes a valid composite for the negation. |
| `Backpatch.RunBlocksIsRun` | app/src/main/jni/libpcap/gencode.c:601-640 | Following pointers through completed blocks is running the graph. |
| `Backpatch.FinishParse` | app/src/main/jni/libpcap/gencode.c:601-640 | From the returned root, every run on every packet and state ends within the number of blocks, never at a null branch, and returns snaplen exactly if the filter is true, 0 if it is false or faults. |
| `ChunkPool.RoundedCovers` | app/src/main/jni/libpcap/gencode.c:331-333 | With longs of w = 4 or 8 bytes, a rounded request is a multiple of w; it covers the request if and only if that is at most 2^32 - w, and the last ones wrap to nothing. |
| `ChunkPool.ChunksDouble` | app/src/main/jni/libpcap/gencode.c:338-345 | Chunk k has 1024 * 2^k bytes. |
| `ChunkPool.Pool.NewChunk` | app/src/main/jni/libpcap/gencode.c:323-355 | For every request: a block is aligned, inside its chunk, zero, and apart from every block handed out since the last free; it covers the request exactly if the rounding does, and it fails exactly when the current chunk has no room and is the sixteenth, or the next, of 1024 times a power of two bytes, has none either. |
| `ChunkPool.Pool.FreeChunks` | app/src/main/jni/libpcap/gencode.c:357-368 | Makes the pool usable again, also after an error, although it does not reset what is left of the chunks. |
| `Arith.FirstFreeIsFirst` | app/src/main/jni/libpcap/gencode.c:7069-7085 | The search finds the first free register at or after the current one in cyclic order. |
| `Arith.AllocExact` | app/src/main/jni/libpcap/gencode.c:7069-7096 | A register can be had exactly when one is free; one fewer is free afterwards. |
| `Arith.CompileExact` | app/src/main/jni/libpcap/gencode.c:6695-7047 | Register demand is exact: an expression compiles if and only if it is well formed and Need of it is at most the number of free registers; it then holds one register more than before. |
| `Arith.NestingExact` | app/src/main/jni/libpcap/gencode.c:6695-7096 | So with sixteen free registers, sums nested to the right compile up to fifteen of them, sums nested to the left and indices in indices at every depth; with one, no sum and no item does. |
| `Arith.CompileCorrect` | app/src/main/jni/libpcap/gencode.c:6695-7047 | The code faults exactly when left-to-right evaluation does; otherwise it leaves the 32-bit value in its register and every live scratch word as it was. What is read of the packet is Language.ItemMeaning, what is computed Machine.AluMeaning. |
| `Machine.AluMeaning` | app/src/main/jni/libpcap/optimize.c:583-641 | What the operations compute on words: sums, differences and products modulo 2^32, quotients and remainders, the others bit by bit, shifts dropping what leaves the word; only division by 0 faults. |
| `Language.ItemMeaning` | app/src/main/jni/libpcap/gencode.c:6695-6905 | proto[i:size] is accepted for sizes 1, 2 and 4 of an addressable protocol. It is the big-endian number in just `size` bytes of the packet from the place of the item, which for a transport header lies behind the IPv4 header, and faults exactly if one of these bytes, or the first of that header, is missing. |
| `Arith.OperandsCorrect` | app/src/main/jni/libpcap/gencode.c:6921-6965 | Computing both operands one after the other leaves both values in place, or faults when one of them does. |
| `Truths.JoinMeaning` | app/src/main/jni/libpcap/gencode.c:642-663 | A join of filters that ignore the machine's state ignores it too, and combines their truths, fault included. |
| `Truths.FieldMeaning` | app/src/main/jni/libpcap/gencode.c:772-796 | A masked comparison of a field is True, False or Faulty by the bytes of the packet alone. |
| `Frames.BytesMeaning` | app/src/main/jni/libpcap/gencode.c:727-764 | A byte-string test, built from the end in words, halves and bytes, faults if and only if the packet ends before the string, and otherwise is True if and only if all bytes agree. |
| `Frames.SourceMeaning` | app/src/main/jni/libpcap/gencode.c:3931-4080 | "wlan src" accepts exactly the frames without the low type bit whose six bytes at the source address, placed by type, To DS and From DS (section 9.3.2.1 of IEEE 802.11-2016), are there and equal the address. CodeGen.CompileWlan has the places in numbers. |
| `Frames.DestinationMeaning` | app/src/main/jni/libpcap/gencode.c:4082-4194 | The same for "wlan dst". |
| `Frames.VlanChainMeaning` | app/src/main/jni/libpcap/gencode.c:7900-8017 | The filters of k VLAN tests and an EtherType, each at the offsets behind the tags before it, accept exactly the frames with k matching tags at 12, 16, ... and that type behind them (section 9.6 of IEEE 802.1Q-2014). |
| `Predicates.ChainMeaning` | app/src/main/jni/libpcap/gencode.c:7900-8017 | What the compiler makes of "vlan .. and vlan .. and proto", as the parser nests it, is that chain, and accepts exactly those frames; the registers are as before. |
| `Predicates.ProtoMeaning` | app/src/main/jni/libpcap/gencode.c:4843-5082 | A protocol name means the EtherType, or the protocol number in an IPv4 header, in an IPv6 header or behind its fragment header. |
| `Predicates.CheckMeaning` | app/src/main/jni/libpcap/gencode.c:6852-6905 | The check kept with an expression is True exactly if the items it covers lie in packets of their protocols, and for transport headers in an IPv4 packet that is no later fragment. It covers the items of the left operands only: a binary operation drops the check of its right operand. |
| `Checks.CoveredExactly` | app/src/main/jni/libpcap/gencode.c:7023-7047 | On Ethernet, the kept checks cover every item of an expression, right operands included, if and only if each protocol of an item is implied by one whose check is kept, or no packet passes the kept ones. |
| `Checks.RightOperandUnchecked` | app/src/main/jni/libpcap/gencode.c:7023-7047 | `1 + tcp[0]` keeps no check, and some packet that is not TCP gets past it. |
| `Predicates.SubtractionExact` | app/src/main/jni/libpcap/gencode.c:6944-6949 | Equality by subtraction modulo 2^32 is exact. |
| `Predicates.RelationMeaning` | app/src/main/jni/libpcap/gencode.c:6921-6965 | A relation is True if and only if the checks of both operands are and the unsigned comparison holds; reversal complements the comparison and never the checks. |
| `Predicates.PredCompileExact` | app/src/main/jni/libpcap/gencode.c:6921-7096 | A predicate compiles if and only if it is accepted and its hungriest relation fits the free registers; all registers are free again afterwards. |
| `Predicates.PredCorrect` | app/src/main/jni/libpcap/grammar.c:2242-2333 | The compiled filter means what the predicate says, whatever the machine did before, with every atom at the offsets behind the VLAN tests to its left. |
| `Predicates.OffsetsAfter` | app/src/main/jni/libpcap/gencode.c:7919-7929 | Every VLAN test, even under "not" or on a side of "or", moves the link type and the payload by four bytes for all that follows, and nothing else moves an offset. |
| `Language.SaysExactly` | app/src/main/jni/libpcap/grammar.c:2242-2333 | The compiler accepts exactly the predicates of the language, and what they mean to it is what they say of the bytes of a frame: the connectives from left to right, over atoms that are tested behind as many tags as there are VLAN tests before them, with protocols, fragment headers, tags, items, the kept checks and comparisons in bytes. |
| `Language.NotVlanShifts` | app/src/main/jni/libpcap/gencode.c:7900-7932 | "not vlan and ip" accepts exactly the untagged frames whose bytes 16 and 17 are 0x0800: ip is tested behind a tag that is not there. |
| `Language.CompareSays` | app/src/main/jni/libpcap/gencode.c:6921-6965 | The comparisons of words, the test of common bits included. |
| `CodeGen.Generator.AllocReg` | app/src/main/jni/libpcap/gencode.c:7069-7085 | The loop takes the first free register in cyclic order, or fails when none is free. |
| `CodeGen.Generator.GenArth` | app/src/main/jni/libpcap/gencode.c:7023-7047 | Frees both registers before it takes the one for the result. |
| `CodeGen.Generator.GenLoad` | app/src/main/jni/libpcap/gencode.c:6695-6919 | Takes the result's register before it frees the index's; makes the load for its protocol, whose width is that of `size` (Language.LoadIsNumber), and the check. |
| `CodeGen.Generator.GenRelation` | app/src/main/jni/libpcap/gencode.c:6921-6965 | Builds the filter of the relation and gives both registers back. |
| `CodeGen.Generator.GenBcmp` | app/src/main/jni/libpcap/gencode.c:727-764 | The three loops build the byte-string filter, null for no bytes. |
| `CodeGen.Generator.GenVlan` | app/src/main/jni/libpcap/gencode.c:7900-8017 | Builds the tag test and moves the link type and payload behind the tag. |
| `CodeGen.Generator.GenWlanHostOp` | app/src/main/jni/libpcap/gencode.c:3912-4194 | Builds the source or destination filter out of shared pieces. |
| `CodeGen.Generator.CompileExpr` | app/src/main/jni/libpcap/grammar.c:3053-3135 | The semantic actions compile every expression to code and checks, failing exactly when its registers, sizes or protocols do not allow it. |
| `CodeGen.Generator.CompilePred` | app/src/main/jni/libpcap/grammar.c:2242-2333 | The semantic actions build a valid composite for the filter of every predicate, and leave the offsets moved by one tag for every VLAN test in it, wherever it stands. |
| `CodeGen.PcapCompile` | app/src/main/jni/libpcap/gencode.c:429-523 | End to end: a predicate compiles if and only if the snapshot length is not 0, its atoms are those of the language, and it needs at most sixteen registers; the program, run on any packet from any state, returns snaplen if the predicate, read on the bytes of the packet as Language.Says, is true, and 0 otherwise. |
| `CodeGen.CompileWlan` | app/src/main/jni/libpcap/gencode.c:3912-4194 | End to end: the finished program of "wlan src" or "wlan dst" on 802.11, run from any state, returns snaplen for exactly the management and data frames with the address at 10, 16 or 24, or at 4 or 16, as type, To DS and From DS say, and 0 for all others. |
| `GetoptScan.FindExactly` | app/src/main/jni/libargp/getopt.c:507-548 | The search of the long options returns r if and only if r follows the rules: an exact match wins, else the first abbreviation unless another one differs. |
| `GetoptScan.DecodePasses` | app/src/main/jni/libargp/getopt.c:478-1153 | Reading an option passes the element exactly when nothing of it remains, and a second element only as its argument; with "W;" in the option string, at most one element more than there are. |
| `GetoptScan.CallProgress` | app/src/main/jni/libargp/getopt.c:345-1154 | In a vector that is read in order, every call but the last consumes something and stays in the vector. |
| `GetoptScan.EndsExactly` | app/src/main/jni/libargp/getopt.c:345-1154 | Calls come to -1 without leaving the vector if and only if the scan reads no element in which, without long options, a -W of "W;" has text behind it, nor, with long options, a -W whose text is the end of the vector and an ambiguous abbreviation. |
| `GetoptScan.Extent` | app/src/main/jni/libargp/getopt.c:861-1086 | An element is never passed exactly under the first of these guards, and is passed too far exactly under the second. |
| `GetoptScan.ConveniencePasses` | app/src/main/jni/libargp/getopt.c:861-862 | That is so for every vector when the option string does not have "W;". |
| `GetoptScan.NeverPassed` | app/src/main/jni/libargp/getopt.c:872-873 | It fails for "prog -Wx" with "W;" and no long options: the element is never passed. |
| `GetoptScan.PassedTooFar` | app/src/main/jni/libargp/getopt.c:984-986 | It fails for "prog -W fo" when fo is ambiguous: one element too many is passed. |
| `GetoptScan.RunPartitions` | app/src/main/jni/libargp/getopt.c:392-459 | A whole permuting run sorts the vector into option elements with their arguments and "--", and non-options, both in their original order; the values that its calls return are those of the option elements, in order. |
| `GetoptScan.PartitionPermutes` | app/src/main/jni/libargp/getopt.c:392-459 | Nothing is lost or invented. |
| `GetoptScan.SecondRun` | app/src/main/jni/libargp/getopt.c:302-305 | A second run over the permuted vector is read in order, leaves it as it is and returns the same values, exactly unless the last option lacks its argument and there are non-options. |
| `GetoptScan.StarvesExactly` | app/src/main/jni/libargp/getopt.c:1103-1151 | One more element would be taken exactly if the option read needs an argument and nothing is left that could be it; so a missing argument is told by these guards. |
| `GetoptScan.SecondRunDiffers` | app/src/main/jni/libargp/getopt.c:1103-1151 | "prog foo -x", where x needs an argument, is such a vector: it is left as "prog -x foo". |
| `Getopt.RotateBottom` | app/src/main/jni/libargp/getopt.c:180-196 | Swapping a short bottom segment with the far end of the top one leaves a smaller exchange with the same result. |
| `Getopt.RotateTop` | app/src/main/jni/libargp/getopt.c:198-213 | The same for a short top segment and the near end of the bottom one. |
| `Getopt.GetoptData.Exchange` | app/src/main/jni/libargp/getopt.c:143-220 | In place and for all lengths: the two neighbouring segments change places, the rest stays, and the bounds are moved along. |
| `Getopt.GetoptData.SkipNonOptions` | app/src/main/jni/libargp/getopt.c:393-410 | Options read since the last non-options move in front of them; further non-options are passed. |
| `Getopt.GetoptData.ReadShort` | app/src/main/jni/libargp/getopt.c:817-1153 | Short options, in clusters and with required, optional or missing arguments, and -W. |
| `Getopt.GetoptData.ReadW` | app/src/main/jni/libargp/getopt.c:861-1086 | "-W foo" and "-Wfoo" as the long option foo: found, abbreviated, ambiguous or unknown, with or without a value. |
| `Getopt.FindLong` | app/src/main/jni/libargp/getopt.c:507-548 | The loop finds what the rules for abbreviations ask for. |
| `Getopt.GetoptData.GetoptInternalR` | app/src/main/jni/libargp/getopt.c:344-1154 | Each call is one step of the scan of the original vector, whose answers GetoptAnswers.CallAnswers, LongAnswers, ShortAnswers and WAnswers say: first_nonopt <= last_nonopt <= optind between calls, options and non-options in place, the unread tail untouched; optind is at most argc, or argc + 1 after an ambiguous -W. |
| `Getopt.RunPermutes` | app/src/main/jni/libargp/getopt.c:302-305 | What a permuting run leaves is a permutation of the vector with the options first. |
| `Getopt.ReadAll` | app/src/main/jni/libargp/getopt.c:344-1154 | For every ordering, a caller that goes on until -1 gets the values of the whole run, and the vector and optind are as the scan ends. |
| `Getopt.ReadPermuting` | app/src/main/jni/libargp/getopt.c:344-459 | For every vector that is read in order: after -1 argv is the program name, the option elements, then the non-options, each in original order; optind is the first non-option; argv is a permutation; the values are those of the option elements. |
| `GetoptAnswers.LongAnswers` | app/src/main/jni/libargp/getopt.c:476-815 | What a call answers to every text behind "--", or behind "-" with long_only, by the rules for abbreviations: none or several meant, '?' with optopt 0, no optarg, the element passed; one meant, its val, or 0 exactly if it has a flag, with the value or the next element as its kind asks, or '?' (':' behind a leading colon) with optopt its val. |
| `GetoptAnswers.AbbreviationAnswers` | app/src/main/jni/libargp/getopt.c:507-548 | An abbreviation is answered like the full name. |
| `GetoptAnswers.ShortAnswers` | app/src/main/jni/libargp/getopt.c:817-1153 | What a call answers to a character, by the marks behind it in the option string: unknown, alone, with an argument, or with an optional one. |
| `GetoptAnswers.WAnswers` | app/src/main/jni/libargp/getopt.c:861-1086 | "-Wfoo" and "-W foo" are answered like "--foo" when that is an option with what it needs; what is wrong is answered with the text in optarg, and a text that means no option with 'W'. |
| `GetoptAnswers.CallAnswers` | app/src/main/jni/libargp/getopt.c:345-476 | Where a call stops and what it answers there: -1 at the end, behind "--", and before a non-option that stops it; 1 for another non-option; else the first option, behind one dash or, with long options, two. |
| `GetoptAnswers.SettingsAnswer` | app/src/main/jni/libargp/getopt.c:238-256 | The ordering, from a leading '-' or '+' of the option string or POSIXLY_CORRECT. |
| `GetoptAnswers.LineRead` | app/src/main/jni/libargp/getopt.c:344-1154 | When permuting, and without long_only: every command line spelled for a list of options and arguments (clusters of short options, values attached or apart, long options in full or abbreviated, with or without a value) is read in order, comes apart into just those option elements and those arguments, and the caller is told just those options with their values. |
| `RadiotapHeader.FieldsExactly` | app/src/main/jni/Csi/radiotap.c:244-245 | The fields of a present word are exactly its set bits below the three marks. |
| `RadiotapHeader.AcceptableExactly` | app/src/main/jni/Csi/radiotap.c:90-157 | In bytes: which headers are accepted. Version 0, a length that is there, and a row of present words that ends inside it. |
| `RadiotapHeader.PresentBit` | app/src/main/jni/Csi/radiotap.c:111-123 | Bit b of a present word is bit b % 8 of its byte b / 8. |
| `RadiotapHeader.RadiotapPlaces` | app/src/main/jni/Csi/radiotap.c:19-45 | The fields that the radiotap namespace has, with their sizes and the multiples that they start at. |
| `RadiotapHeader.LayoutPlaces` | app/src/main/jni/Csi/radiotap.c:295-343 | Each argument is its field's, aligned, placed with no more padding than needed, inside the header; and there is one for every field unless one does not fit. |
| `RadiotapHeader.PlainWalk` | app/src/main/jni/Csi/radiotap.c:231-393 | On a header without vendor namespaces whose fields are known, the walk over chained words with its resets of the field number is the fold over those fields. |
| `RadiotapHeader.GapExactly` | app/src/main/jni/Csi/radiotap.c:264-279 | The walk takes up a pointer that only a vendor namespace sets if and only if some word has bit 18, its fields are counted from 0, every word before it is passed whole (no vendor namespace, no unknown field), and all fields before that bit fit. |
| `RadiotapHeader.GapHeaderFails` | app/src/main/jni/Csi/radiotap.c:264-279 | The eight bytes of a header with bit 18 alone are accepted, and lead there. |
| `RadiotapTour.KnownVendor` | app/src/main/jni/Csi/radiotap.c:301-320 | At the head of a vendor namespace, at the first even offset a: three bytes of an identifier, most significant first, one of a sub-namespace, two of a length, least significant first. The walk goes on at a + 6 by the table of the first registered namespace with these numbers, and skips to a + 6 + length. |
| `RadiotapTour.UnknownVendor` | app/src/main/jni/Csi/radiotap.c:301-364 | If nobody registered it, the walk returns argument 30 at a, of 6 + length bytes, and goes on behind it; unless it runs out of the header. |
| `RadiotapTour.UnknownFields` | app/src/main/jni/Csi/radiotap.c:264-279 | The fields of a word of such a namespace are passed, and so is its data. |
| `RadiotapTour.KnownFields` | app/src/main/jni/Csi/radiotap.c:264-343 | The fields of a word of any namespace with a table are laid out by that table, up to the first that does not fit. |
| `RadiotapTour.MissingField` | app/src/main/jni/Csi/radiotap.c:264-279 | A field that the table does not have: the end in the radiotap namespace; in others, and at the gap, what is left of the namespace is skipped, by the unset pointer if there was no vendor namespace. |
| `RadiotapTour.TourInside` | app/src/main/jni/Csi/radiotap.c:337-343 | Every argument lies inside the header; behind a vendor namespace no pointer is unset. |
| `RadiotapTour.TourWalk` | app/src/main/jni/Csi/radiotap.c:231-393 | Up to the first vendor namespace this walk is the one above, end included. |
| `RadiotapTour.VendorHeaderRead` | app/src/main/jni/Csi/radiotap.c:301-364 | A header of 27 bytes with a vendor namespace nobody knows, and the flags behind it: arguments 30 at 16, of 10 bytes, and 1 at 26. |
| `RadiotapTour.PadOfPower` | app/src/main/jni/Csi/radiotap.c:295-299 | The masked padding is the distance to the boundary for every power of two. |
| `Radiotap.Iterator.Init` | app/src/main/jni/Csi/radiotap.c:90-161 | Succeeds exactly if version, length and the chain of present words fit; data starts behind the last present word. |
| `Radiotap.Iterator.FindNs` | app/src/main/jni/Csi/radiotap.c:163-182 | Finds the first registered namespace with these numbers. |
| `Radiotap.Iterator.EnterVendor` | app/src/main/jni/Csi/radiotap.c:301-320 | The head of a vendor namespace: which namespace it names, where its data ends, and that the data belongs to the head if nobody registered it. |
| `Radiotap.Iterator.Next` | app/src/main/jni/Csi/radiotap.c:231-393 | On every header, from every state that calls can lead to: the call returns the next argument of the walk, vendor namespaces included, or its end as it comes, the unset pointer included; the argument is on its boundary and inside the header, and present words and vendor heads are read inside it. |
| `Radiotap.ReadArguments` | app/src/main/jni/Csi/radiotap.c:90-393 | For every header and all registered namespaces, exactly the arguments and the end of the walk. So the unset pointer is taken up exactly under the condition above; a plain header yields exactly its fields, word by word in ascending order, then -ENOENT, or -EINVAL at the first that does not fit. |
| `WordSearch.ZeroTest` | app/src/main/jni/libargp/strchrnul.c:80-117 | For every number of bytes, the masked difference is nonzero if and only if some byte is zero, despite borrows. |
| `WordSearch.HitsExactly` | app/src/main/jni/libargp/rawmemchr.c:113-121 | The test of a word finds a byte if and only if it occurs there. |
| `WordSearch.HitsEitherExactly` | app/src/main/jni/libargp/strchrnul.c:119-129 | The combined test finds the byte or NUL if and only if one of them occurs. |
| `WordSearch.Constants` | app/src/main/jni/libargp/strchrnul.c:58-78 | The shifts fill every byte of a word of any power-of-two size from four bytes up. |
| `WordSearch.Rawmemchr` | app/src/main/jni/libargp/rawmemchr.c:24-136 | Returns the least index that holds the byte, for every start, size and byte order. |
| `WordSearch.Strchrnul` | app/src/main/jni/libargp/strchrnul.c:25-144 | Returns the least index that holds the byte or the NUL. |
| `ArgpParse.ConvertIsPreorder` | app/src/main/jni/libargp/argp-parse.c:288-387 | The recursion over the tree enters groups in preorder. |
| `ArgpParse.GroupsExactly` | app/src/main/jni/libargp/argp-parse.c:297-301 | The groups are just the argps of the tree that have options or a parser. |
| `ArgpParse.OptionWrites` | app/src/main/jni/libargp/argp-parse.c:296-349 | What an option writes into the tables, by its own fields and those of the nearest option before it that is no alias: its character with no colon, one, or two if the argument is optional; its name with that kind of argument, and its key or that one's; nothing for documentation. |
| `ArgpParse.ShortDispatch` | app/src/main/jni/libargp/argp-parse.c:716-740 | The search for a short option other than the colon ends at the first group in preorder that declares it, and fails only if none does. |
| `ArgpParse.LongTable` | app/src/main/jni/libargp/argp-parse.c:324-349 | The table of long options has every declared name once, as its first declaration in preorder. |
| `ArgpParse.PackedDelivered` | app/src/main/jni/libargp/argp-parse.c:342-344 | The packed 32-bit value leads to its group with its key if and only if the group is one of the first 127 and the key has 24 signed bits, or the group's number is lost (every 256th) and the key also finds the group as a character. |
| `ArgpParse.LongDelivered` | app/src/main/jni/libargp/argp-parse.c:714-747 | Every entry of the table of any tree is the first declaration of its name in preorder, with the argument that is declared there, or by the option it is an alias of, and its value leads to that group with the key declared there exactly under that condition. |
| `ArgpParse.WideKeyFails` | app/src/main/jni/libargp/argp-parse.c:742-747 | A key of 25 bits comes back negative. |
| `ArgpParse.FarGroupFails` | app/src/main/jni/libargp/argp-parse.c:342-344 | The long option of the 128th group leads to an index that is no group's. |
| `ArgpParse.ParserSizes.CalcSizes` | app/src/main/jni/libargp/argp-parse.c:424-454 | The totals over the tree: short and long options, groups, and slots for the inputs of children. |
| `ArgpParse.SlotsApart` | app/src/main/jni/libargp/argp-parse.c:360-370 | The slots for inputs that the groups get follow one another without overlap. |
| `ArgpParse.Parser.ConvertOptions` | app/src/main/jni/libargp/argp-parse.c:286-387 | Fills the tables with what every option writes (ArgpParse.OptionWrites), group by group in preorder, terminated, and hands out the slots, inside the calculated room. |
| `ArgpParse.Parser.ParseOpt` | app/src/main/jni/libargp/argp-parse.c:714-747 | Whatever the value, the option goes where Deliver says, which the delivery lemmas are about: to a group with a key, nowhere, or to an index that is no group's. |
| `ArgpParse.Prepare` | app/src/main/jni/libargp/argp-parse.c:457-507 | Storage of the calculated sizes holds the tables of every tree: what the options of its groups write, in preorder. |
| `ArgpGetopt.ShortExactly` | app/src/main/jni/libargp/argp-parse.c:714-829 | getopt reads a character in the prepared table with an argument of a given kind, in every element that is not a long option and whatever follows, and the parser delivers it to a given group, if and only if the group is the first to declare it and the table allows it: the character is no ':' or ';', is seen behind a '-' or '+' that leads the table, has just the colons of that argument behind it and, for 'W', no ';', and, when it needs an argument, what getopt sees does not lead with a colon. |
| `ArgpAnswers.ShortFields` | app/src/main/jni/libargp/argp-parse.c:301-322 | So the first option that declares a short key takes, as it is typed, what its fields say, and comes back to its group: without `arg` nothing whatever follows, with an optional one the rest of the element or nothing, otherwise that or the next element, or it is an error. This holds if no key is a colon or semicolon and the first is no '-' or '+', and in general exactly when the table allows it. |
| `ArgpAnswers.UnknownShort` | app/src/main/jni/libargp/argp-parse.c:822-829 | A character that no group declares is an error, and takes nothing. |
| `ArgpGetopt.MarksMisread` | app/src/main/jni/libargp/getopt.c:825 | The keys ';' and ':' are answered as invalid options. |
| `ArgpGetopt.LeadingMisread` | app/src/main/jni/libargp/getopt.c:241-250 | A first key '+' or '-' is taken for an ordering. |
| `ArgpGetopt.FollowedMisread` | app/src/main/jni/libargp/getopt.c:862 | Keys 'W', ';' make -W a long option; keys 'a', ':' give 'a' an argument. |
| `ArgpGetopt.MissingMisread` | app/src/main/jni/libargp/argp-parse.c:822-829 | Behind a first key ':', a missing argument is taken for an option. |
| `ArgpGetopt.LongRead` | app/src/main/jni/libargp/argp-parse.c:324-349 | An entry of the long table, typed in full with or without a value, is read with the argument of its first declaration and delivered to that group with its key if and only if its name is not empty and has no '=', key and group number fit, and, when it needs an argument, what getopt sees does not lead with a colon. |
| `ArgpAnswers.LongFields` | app/src/main/jni/libargp/argp-parse.c:324-349 | The same by the fields declared: without `arg` a value is an error and nothing is taken, with an optional argument only a value behind '=' is, otherwise that or the next element, or it is an error. |
| `ArgpAnswers.UnknownLong` | app/src/main/jni/libargp/argp-parse.c:822-829 | Every text that means no entry, or does not tell which, is an error. |
| `ArgpAnswers.AbbreviatedLong` | app/src/main/jni/libargp/argp-parse.c:714-747 | An abbreviation goes where the full name does. |
| `ArgpGetopt.SplitName` | app/src/main/jni/libargp/getopt.c:507-508 | A name with '=' is never read as declared. |
| `ArgpGetopt.ParseNext` | app/src/main/jni/libargp/argp-parse.c:777-862 | One call of getopt on the tables in memory, and where its value goes: an error for '?' with optopt set, nowhere for -1 and 1, else to a group with a key as Deliver says. |
| `ArgpHelp.LettersOnce` | app/src/main/jni/libargp/argp-help.c:850-940 | Each short letter occurs once in the flattened help list. |
| `ArgpHelp.ShownExactly` | app/src/main/jni/libargp/argp-help.c:473-499 | An entry shows a letter if and only if it declares it and no earlier entry does. |
| `ArgpHelp.Hol.Append` | app/src/main/jni/libargp/argp-help.c:848-940 | Appending lists keeps the letters exact: those shadowed go, each entry's letters start where the earlier ones end. |
| `ArgpHelp.Hol.ShortIterate` | app/src/main/jni/libargp/argp-help.c:551-574 | The greedy scan of an entry finds exactly its unshadowed letters. |
| `ArgpHelp.ArgpHol` | app/src/main/jni/libargp/argp-help.c:1387-1406 | The list of a whole tree, in preorder. |
| `ArgpHelp.HelpAgrees` | app/src/main/jni/libargp/argp-help.c:1387-1406 | The entry that shows a short option is made in the place, in preorder, of a group such that the option, as it is typed, takes what the entry's first option is declared to take and is delivered to that very group, if and only if the group hands the letter to getopt and the table allows it. That first option is the one that the letter belongs to, or is an alias of. |
| `ArgpHelp.DocAliasShown` | app/src/main/jni/libargp/argp-parse.c:301-322 | An alias of a documentation entry is shown in the help list, and getopt never sees it. |

## Left out

- Variable-length link headers (radiotap, AVS, Prism, PPI, Geneve): their offset register is allocated on demand and filled at program start, another lifetime discipline; the register theorems are for constant-offset link types.
- `gen_protochain`, and the `|` and `&` cases of `gen_byteop`, which emit no load.
- CheckTruth: a binary operation keeps the check of its left operand only, as the code does (see `Checks`).
- The optimizer, `icode_to_fcode`, the lexer and the Bison tables: the model starts from a syntax tree and ends at the block graph. `gen_retblk` for an empty filter is part of that.
- Host, net, port and gateway filters, link types other than Ethernet in `PcapCompile`, and `gen_ether_linktype` for AppleTalk, AARP, and values up to 1500; AH, ESP and ISO protocols.
- The VLAN path that uses BPF extensions, and MPLS.
- GenWlanHostOp: the directions other than source and destination are not modelled; they combine these two or test one address.
- `struct slist`: statement lists are sequences, so sharing of list cells is not modelled; code after a `bpf_error` is not run in either.
- ChunkPool.Pool.NewChunk: requests fit an unsigned int, as the parameter does; memory given back by the C library is taken to be new; the failure of malloc itself is not modelled.
- getopt: error messages, storing through `flag`, and callers that move optind between calls. `POSIXLY_CORRECT` is a parameter. The search of the long options, written out twice in the source, is one method.
- Getopt.GetoptData.GetoptInternalR: a call after optind has come to argc + 1 is not described, because the code then reads behind the null pointer that ends argv.
- GetoptAnswers.LineRead: whole command lines under the other two orderings, with long_only, and with -W for a long option; these are described call by call (CallAnswers, LongAnswers, WAnswers).
- The size of a name in an `unsigned int` in the long option search.
- Radiotap overrides, and reuse of `this_arg` by callers.
- Radiotap.Iterator.Next: nothing is said about what the code does once it has taken up the pointer it never set; and which namespace an argument belongs to is a field of the iterator, not of the argument.
- WordSearch.Rawmemchr: memory is taken to end at a word boundary, as pages do, because whole aligned words are read.
- argp: flags other than 0, parser callbacks, quoted regions and reparsing, the inputs in their slots and hooks, `ARGP_KEY_ARG`, sorting and printing of help, clusters and groups of entries. Short keys are printable ASCII, as `isprint` says in the C locale.
- ArgpParse.ShortDispatch: a colon as a short key is excluded, because `strchr` would also find the colons that mark arguments; getopt never returns it as an option (ArgpGetopt.MarksMisread).
- ArgpParse.Parser.ParseOpt: what the code reads at an index that is no group's.
- JNI wrappers, sockets, device discovery and name lookups.
