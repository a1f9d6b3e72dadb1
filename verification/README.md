# Huffman codec host software, modelled in Dafny

The repository pairs an FPGA Huffman codec with two bare-metal C programs,
one for each direction. Both programs pass all their data between stages as
text files of '0'/'1' lines.

`Software/compression.c` runs these stages in order:

- it packs the bits of a bitstream file 32 to a word for a bit-parser IP;
- it counts the 8-bit symbols on a frequency-counter IP;
- it builds a Huffman code in software, using a node pool, an array min-heap
  and `assign_codes`;
- it writes the codebook twice: as a readable table, and as three
  fixed-width helper files of 8-bit symbols, 16-bit codewords and 5-bit
  lengths;
- it loads those helper files into an encoder IP and writes one trimmed
  codeword line per symbol;
- it concatenates header, codebook and stream into one bundle.

`Software/decompression.c` reverses this:

- it splits the bundle with a three-state line classifier;
- it regenerates the 8/16/5-bit helper files from the readable codebook
  rows, and the 16/5-bit stream files from the stream lines;
- it loads the table into a decoder IP and decodes pair by pair;
- it merges the decoded 8-bit symbols four at a time into 32-bit words.

The model covers all of this host-side logic:

- the binary-text helpers, the C library conversions used (`atoi`,
  `strtol(.., 2)`, `sprintf` padding) and `rstrip`;
- the two different `f_readline` functions and the read loops built on them;
- the bit and symbol packers, the frequency files and their parser;
- the heap, code assignment and tree building;
- codeword packing, the helper and readable codebook files, and the
  encoding loop;
- the bundle split, the codebook-row and stream-line parsers, the width
  filters, the decoding loop and the 4-symbol merge;
- the timeout tests after the IP busy-wait loops.

Every IP is a function parameter: the frequency counter, the encoder, the
decoder and the bit merger. The round-trip lemmas state which behaviour of
the IPs they assume.

The modules follow the programs' structure:

| module (file) | what it holds |
|---|---|
| `BinText` (bintext.dfy) | `Render` (every `*_to_binstr` loop), `BinValue`, `binstr_to_int`, `is_binstr`, `binstr_to_byte` |
| `CText` (ctext.dfy) | `isspace`, `%u`, `atoi`, `strtol` base 2, `%-Ns`/`%Nd`, `rstrip`, the token counter |
| `LineIO` (lineio.dfy) | the two `f_readline`s and the lines their read loops see |
| `HuffTree`, `MinHeap`, `Builder`, `CodeTable` | the tree, `heap_push`/`heap_pop`, `generate_huffman_codes`, `huff_table` |
| `Packing`, `FreqFiles` | `stage_bit_parser`, `stage_freq_counter`, `parse_sym_freq_files` |
| `Codebook`, `Encoder` | `stage_codebook_gen`, `stage_huffman_encode` |
| `Bundle`, `TableParse`, `Decoding` | `stage_create_comp_bin`, `split_comp_bin`, the two regenerators, table load, decode and merge |
| `Polling` | the `while (!IP_READ(flag) && to--)` waits and the tests after them |
| `Wrappers` | `Option` and `Result` |

## Model

| member | source | states |
|---|---|---|
| BinText.Render | Software/decompression.c:101-106 | a rendering has exactly the requested width and only '0'/'1' characters |
| BinText.RenderBit | Software/compression.c:103-108 | character i of a w-bit rendering is bit w-1-i of the value, as the per-bit C loops write it |
| BinText.IsBinStr | Software/decompression.c:92-99 | `is_binstr` holds exactly for non-empty strings of '0'/'1' |
| BinText.LeadingBits | Software/compression.c:123-128 | `binstr_to_int` reads the maximal leading run of bits and stops at the first non-bit |
| BinText.BinStrToInt | Software/compression.c:123-128 | `binstr_to_int`: the value of the leading run of bits; LeadingBits states the run, BinStrToIntOfRender that a rendered line reads back as its value |
| BinText.BinStrToByte | Software/decompression.c:130-136 | `binstr_to_byte` is below 256 and equals `binstr_to_int` on the first eight characters |
| BinText.ValueOfRender | Software/decompression.c:101-106 | reading a w-bit rendering gives back the value modulo 2^w |
| BinText.RenderOfValue | Software/decompression.c:101-106 | rendering a bit string's value at its own width gives the string back |
| BinText.RenderWide | Software/decompression.c:330-335 | a shorter bit string rendered in more bits is zero-extended on the left |
| BinText.RenderMod | Software/compression.c:525-528 | a w-bit rendering shows only the value modulo 2^w |
| BinText.RenderSuffix | Software/compression.c:525-528 | a narrower rendering is the tail of a wider one |
| BinText.BinValueAppend | Software/compression.c:123-128 | shift-and-or reading: a's value moves up by the length of b |
| BinText.SuffixValue | Software/compression.c:123-128 | the last n bits of a read string are its value modulo 2^n, the rest its quotient |
| BinText.BinValueInjective | Software/decompression.c:92-99 | two bit strings of one width with the same value are equal |
| BinText.BinStrToIntOfRender | Software/compression.c:123-128 | `binstr_to_int` of a w-bit rendering followed by the line end is the value modulo 2^w |
| BinText.BinStrToByteOfByteLine | Software/decompression.c:130-136 | on an 8-bit line `binstr_to_byte` returns the line's value |
| CText.Decimal | Software/compression.c:347 | `%u` writes at least one character, all digits |
| CText.DecValueOfDecimal | Software/compression.c:347 | the digits `%u` writes have the printed value |
| CText.AtoiOfDecimal | Software/compression.c:470 | `atoi` reads back what `%u` wrote, whatever non-digit follows |
| CText.Atoi | Software/decompression.c:318 | `atoi`: blanks, a sign, then digits; AtoiOfDecimal and SkipSpacesOver state that it reads back a `%u` or `%2d` field |
| CText.SkipSpacesOver | Software/decompression.c:305 | leading white space is skipped up to the first other character |
| CText.Strtol2OfBits | Software/compression.c:469 | `strtol(.., 2)` reads back a non-empty bit string, whatever non-bit follows |
| CText.Strtol2 | Software/compression.c:469 | `strtol(.., 2)`: blanks, a sign, then bits; Strtol2OfBits states that it reads back a written symbol |
| CText.PadRight | Software/compression.c:544-545 | `%-Ns` keeps the text as a prefix, pads with blanks to at least N |
| CText.PadLeft | Software/compression.c:544-545 | `%Nd` keeps the text as a suffix, pads on the left with blanks to at least N |
| CText.RStrip | Software/decompression.c:108-114 | `rstrip` removes a suffix of spaces and tabs only, and leaves no trailing blank |
| CText.RStripIdempotent | Software/decompression.c:108-114 | stripping twice equals stripping once |
| CText.RStripKeeps | Software/decompression.c:108-114 | a string not ending in a blank is unchanged |
| CText.SingleToken | Software/decompression.c:232-242 | a non-empty line without white space counts as one token |
| CText.BitsHaveNoSpace | Software/decompression.c:242 | bit strings hold no white space |
| LineIO.ReadLine | Software/decompression.c:116-128 | one `f_readline` call stores at most len-1 characters, none of them '\n' or '\r', and moves forward |
| LineIO.LinesDShape | Software/decompression.c:116-128 | every line a decompression read loop sees is non-empty, clean and shorter than the buffer |
| LineIO.ReadFramedLine | Software/decompression.c:116-128 | a clean short line followed by "\n" or "\r\n" is read in one call that ends after the terminator |
| LineIO.UnlinesAppend | Software/compression.c:631-632 | writing two blocks of lines is writing their concatenation |
| LineIO.LinesDStep | Software/decompression.c:116-128 | a framed non-empty line is one turn of the read loop |
| LineIO.LinesDOfUnlines | Software/decompression.c:116-128 | written non-empty short lines are read back one for one, and reading resumes after them |
| LineIO.LinesDRoundTrip | Software/decompression.c:116-128 | a file of such lines reads back exactly |
| LineIO.EmptyLineEndsLoop | Software/decompression.c:127 | an empty line ends every decompression read loop |
| LineIO.LinesDStopAtEmpty | Software/decompression.c:127 | lines after an empty line are never seen |
| LineIO.LinesCOfUnlines | Software/compression.c:151-160 | the compression read loop reads written lines back, empty ones included, unless the last is empty |
| HuffTree.AssignCodes | Software/compression.c:421-432 | `assign_codes` yields one entry per leaf |
| HuffTree.AssignPrefix | Software/compression.c:421-432 | every code below a prefix extends that prefix |
| HuffTree.AssignBits | Software/compression.c:427-429 | codes consist of '0'/'1' only |
| HuffTree.CodeIsPath | Software/compression.c:421-432 | each code, read as a path from the root, leads to the leaf of its symbol |
| HuffTree.PathIsCode | Software/compression.c:421-432 | conversely, every root-to-leaf path is the code of that leaf's entry |
| HuffTree.NodeCodesLonger | Software/compression.c:427-431 | below a merged node every code is longer than the prefix |
| HuffTree.CodesPrefixFree | Software/compression.c:421-432 | no assigned code is a prefix of another |
| HuffTree.KraftEquality | Software/compression.c:421-432 | the codes below a prefix p have Kraft sum 2^-\|p\|, so the code space is filled exactly |
| HuffTree.SingleLeafCode | Software/compression.c:449 | a tree of one leaf gives its symbol the empty code of length 0 |
| MinHeap.HeapMin | Software/compression.c:404-419 | the root of a heap is a minimum |
| MinHeap.HeapPush | Software/compression.c:395-402 | `heap_push` keeps the heap order, grows by one and adds exactly the node |
| MinHeap.PushStep | Software/compression.c:397-400 | one turn of the sift-up keeps the hole invariant |
| MinHeap.PushDone | Software/compression.c:401 | dropping the node into the final hole gives a heap |
| MinHeap.SwapHole | Software/compression.c:398-401 | moving the parent into the hole keeps the contents |
| MinHeap.PopStep | Software/compression.c:411-416 | one turn of the sift-down keeps the hole invariant |
| MinHeap.PopDone | Software/compression.c:413-417 | dropping `last` into the final hole gives a heap |
| MinHeap.SiftDown | Software/compression.c:407-417 | the sift-down loop ends with a heap holding the old contents minus the root |
| MinHeap.HeapPop | Software/compression.c:404-419 | `heap_pop` returns a minimum, shrinks by one and keeps the heap order and the other elements |
| Builder.Seeds | Software/compression.c:437-442 | seeds are leaves for symbols with positive frequency, of that frequency |
| Builder.SeedsComplete | Software/compression.c:437-442 | every symbol with a positive frequency is seeded |
| Builder.SeedsAscending | Software/compression.c:437-442 | seeds come in ascending symbol order, so no symbol twice |
| Builder.PermLeaves | Software/compression.c:443-448 | reordering the heap keeps the leaves under it |
| Builder.WeightedSum | Software/compression.c:446 | a merged node's frequency is the total of its leaves |
| Builder.MergeKeeps | Software/compression.c:444-447 | one merge keeps the leaves under the heap |
| Builder.SeedHeap | Software/compression.c:437-442 | the seeding loop leaves exactly the seeds in a heap |
| Builder.MergeTwo | Software/compression.c:444-447 | one merge pops a minimum of the heap and then a minimum of what is left, pushes their sum node, keeps heap order and leaves |
| Builder.MergeAll | Software/compression.c:443-448 | the merge loop ends with no root on an empty heap, else one weighted root holding every leaf, after \|heap\|-1 merges; the heap never grows past its starting size |
| Builder.GenerateHuffmanTree | Software/compression.c:434-450 | k seeds give no root when k = 0, else a root over exactly the seeds; 2k-1 pool slots used; at most 256 heap slots while seeding and while merging |
| CodeTable.FillFrom | Software/compression.c:423-424 | a `huff_table` slot holds the code of the last entry for its symbol |
| CodeTable.SlotReachesLeaf | Software/compression.c:423-424 | a filled slot belongs to a seeded symbol and its code leads to that leaf |
| CodeTable.TablePrefixFree | Software/compression.c:423-424 | slots filled from prefix-free codes are prefix-free |
| CodeTable.RootShape | Software/compression.c:449 | the root is a leaf exactly when one symbol was seeded |
| CodeTable.GenerateHuffmanCodes | Software/compression.c:434-450 | codes exist exactly for positive frequencies, are root paths, prefix-free and bits only; non-empty with two or more symbols, empty with one |
| FreqFiles.FreqTable | Software/compression.c:138-141 | each symbol's count is the counter register masked to 24 bits |
| FreqFiles.FreqStage | Software/compression.c:278-359 | an empty parsed file fails; otherwise the symbols sent are the file's bits in 8-bit groups, and the helper files list the positive counts |
| FreqFiles.FreqRowReadBack | Software/compression.c:327-330 | a FREQ report row reads back as its symbol and count |
| FreqFiles.Scan | Software/compression.c:459-462 | a field scan keeps at most 31 characters, none '\r' or '\n' |
| FreqFiles.StoreKeepsOrPositive | Software/compression.c:469-476 | storing keeps every slot or sets it to a positive count |
| FreqFiles.ParsedCounts | Software/compression.c:452-478 | the parsed frequency table holds no negative count |
| FreqFiles.ScanLine | Software/compression.c:459-462 | a short clean line before "\n" is scanned whole and reading resumes after it |
| FreqFiles.PairsOfFiles | Software/compression.c:455-477 | the paired read loop meets exactly the (symbol, count) rows written |
| FreqFiles.StoreRows | Software/compression.c:471-476 | storing those rows into a zeroed table gives the written table |
| FreqFiles.FreqFilesRoundTrip | Software/compression.c:338-350 | `parse_sym_freq_files` reads back exactly the table `stage_freq_counter` wrote |
| Packing.BitsOf | Software/compression.c:308 | the packers keep only '0'/'1' characters |
| Packing.BlocksCover | Software/compression.c:307-318 | full w-bit blocks and the short tail laid end to end are the bits |
| Packing.SplitUnique | Software/compression.c:307-318 | blocks and tail determine each other |
| Packing.PackBits | Software/compression.c:218-248 | the shift-and-count loop yields the values of the full blocks and the pending tail and its length |
| Packing.FreqSymbols | Software/compression.c:294-318 | an empty file fails; otherwise the symbols are the 8-bit groups, a partial group dropped |
| Packing.FreqReadsByteLines | Software/compression.c:103-114 | the frequency stage reads the bit parser's byte lines back as the bytes modulo 256 |
| Packing.ByteLine | Software/compression.c:103-114 | `write_binary_string`: bits 7..0 and a newline; BinStrToByteOfByteLine and FreqReadsByteLines state that such lines read back as the byte |
| Packing.HeaderLines | Software/compression.c:207-215 | the header runs up to and including the first line starting with "Bits:" |
| Packing.BitParser | Software/compression.c:186-275 | header lines copied with "\n"; later bits packed 32 to a word, a partial word shifted to the top |
| Packing.PadWordBits | Software/compression.c:252-253 | the padded word shows the tail bits first, then zeros |
| Codebook.RowsExact | Software/compression.c:507-548 | rows come for exactly the symbols with positive frequency, in ascending order, with their codes |
| Codebook.Low | Software/compression.c:520-523 | the last (at most) w characters of a code |
| Codebook.PackCodeword | Software/compression.c:520-523 | the codeword loop yields the value of the code's last 32 characters |
| Codebook.PackedLowBits | Software/compression.c:520-528 | those bits render back as the code's last characters |
| Codebook.CodeTextLast16 | Software/compression.c:525-528 | the codeword line is the code's last 16 characters, zero-extended on the left |
| Codebook.CodeTextValue | Software/compression.c:525-528 | the codeword line reads back as the value of the code's last 16 characters |
| Codebook.LenTextValue | Software/compression.c:534-538 | the length line reads back as code_len modulo 32 |
| Codebook.SymColumn | Software/compression.c:511-517 | SYMIN has one line of 8 binary digits per row, reading back as the symbol mod 256 |
| Codebook.CodeColumn | Software/compression.c:525-531 | CODEWIN has one line of 16 binary digits per row, reading back as the value of the codeword's low 16 bits |
| Codebook.LenColumn | Software/compression.c:533-541 | CODELEN has one line of 5 binary digits per row, reading back as the code length mod 32 |
| Codebook.DebugColumn | Software/compression.c:543-546 | for a code of at most 20 characters the readable row is 34 characters: the 8-bit symbol padded to column 11, the code padded to column 32, and a 2-column length that `atoi` reads back as the code length |
| Codebook.DebugTextLayout | Software/compression.c:543-546 | the `%-10s %-20s %2d` row places symbol, code and length at fixed columns |
| Codebook.LengthField | Software/compression.c:544-545 | `%2d` of a length below 100 is two characters that `atoi` reads back |
| Codebook.FirstLong | Software/compression.c:519-528 | finds the first code longer than the 16-bit codeword line, or reports that none is |
| Codebook.CheckedWriteRows | Software/decompression.c:321-325 | corrected writer: fails exactly when some code exceeds 16 bits, naming it; otherwise writes the rows |
| Codebook.WriteRows | Software/compression.c:501-548 | the header and the four files written row by row; SymColumn, CodeColumn, LenColumn and DebugColumn state each file's lines, TableRoundTrip that the decompression program rebuilds the helper files from the readable one |
| Codebook.CodebookGen | Software/compression.c:480-559 | `stage_codebook_gen`: RowsExact states that the rows are exactly the positive-frequency symbols, ascending, with their codes |
| Codebook.CheckedCodebookGen | Software/compression.c:480-559 | corrected stage: CheckedWriteRows states that it fails exactly on a code longer than 16 bits |
| Encoder.LoadLockstep | Software/compression.c:582-603 | the table loop loads as many entries as the shortest file has lines, entry k from line k of each file, symbol and length below 256 |
| Encoder.TrimmedBits | Software/compression.c:620-629 | the emitted line has len5 characters, the codeword's low bits when len5 <= 24 |
| Encoder.Trimmed | Software/compression.c:620-630 | `cw16`/`len5` and the trimmed line; TrimmedBits and TrimmedShortCode state its width and contents |
| Encoder.EncodeLines | Software/compression.c:609-638 | one output line per parsed line, of as many binary digits as the low 5 bits of the IP's length answer for the line's byte, equal to the low bits of its codeword answer when that length is at most 24 |
| Encoder.Encode | Software/compression.c:562-648 | `stage_huffman_encode`'s OUTZFO file; EncodeRoundTrip states that each parsed line comes out as its symbol's code, LongCodeGarbled what happens to a code longer than 16 |
| Encoder.TrimmedLines | Software/compression.c:620-629 | every emitted line of at most 24 bits is the low bits of the codeword answer |
| Encoder.ColumnReadBack | Software/compression.c:151-160 | a column of short bit lines reads back line for line |
| Encoder.RowReadBack | Software/compression.c:586-588 | one row's three lines load as that row's entry |
| Encoder.LoadRows | Software/compression.c:582-603 | the table loop loads exactly one entry per row written |
| Encoder.LastForUnique | Software/compression.c:590-593 | with each symbol loaded once, the entry the IP keeps is that one |
| Encoder.TrimmedShortCode | Software/compression.c:626-629 | a code of at most 16 characters is emitted as itself |
| Encoder.EncodeOne | Software/compression.c:609-632 | a parsed line whose symbol was loaded once is encoded as that row's code |
| Encoder.DistinctEntries | Software/compression.c:507-517 | rows in ascending symbol order load with distinct symbols |
| Encoder.EncodeRoundTrip | Software/compression.c:562-648 | with codes of at most 16 bits and an IP that serves the loaded table, each parsed line is encoded as its symbol's code |
| Encoder.LongCodeGarbled | Software/compression.c:520-538 | a 17..31-character code is emitted as zeros followed by its last 16 characters |
| Encoder.LongCodeCounterexample | Software/compression.c:520-538 | seventeen '1's come out as "0" and sixteen '1's |
| Encoder.CheckedEncodeRoundTrip | Software/compression.c:562-648 | when the corrected writer succeeds, every line is encoded as its symbol's code |
| Bundle.Next | Software/decompression.c:216-256 | the state never moves back or skips; it moves on exactly at a "Symbol" line, then at a stream line |
| Bundle.SplitSound | Software/decompression.c:216-256 | the three outputs laid end to end are the lines read, and have the state machine's shape |
| Bundle.SplitCompBin | Software/decompression.c:197-265 | `split_comp_bin`: BundleSplitsBack and CompressedBundleSplits state that a bundle of header, codebook and stream splits back into those three parts |
| Bundle.SplitUnique | Software/decompression.c:216-256 | segments of that shape split back into exactly themselves |
| Bundle.ReadThree | Software/compression.c:671-678 | three written blocks of readable lines are read as one list |
| Bundle.BundleSplitsBack | Software/decompression.c:197-264 | a bundle whose parts have that shape splits back into its parts, rewritten with "\r\n" |
| Bundle.DebugRowFacts | Software/compression.c:544-545 | a codebook row is 34 characters, clean, with a blank after the symbol, neither a stream line nor a title |
| Bundle.HeaderLinesFacts | Software/compression.c:503-505 | the title starts with "Symbol", the rule is 38 dashes and no stream line |
| Bundle.CodebookSegment | Software/compression.c:503-546 | the readable codebook opens with its title and holds no stream line |
| Bundle.BitsAreStreamLine | Software/decompression.c:232-243 | a non-empty bit string is a stream line |
| Bundle.CompressedBundleSplits | Software/compression.c:651-687 | the bundle the compressor writes splits back into header, codebook and stream |
| Bundle.SingleSymbolStreamLost | Software/decompression.c:216 | with one symbol, the stream of empty codewords is lost at its first line |
| TableParse.TakeToken | Software/decompression.c:307-311 | a token is a prefix without white space, within its cap, ended by a blank or the cap |
| TableParse.Tokenize | Software/decompression.c:303-313 | at most three tokens |
| TableParse.TokensWithinCaps | Software/decompression.c:303-313 | every token is non-empty, within its buffer size and free of white space |
| TableParse.ParseCodeRow | Software/decompression.c:296-325 | a blank line is skipped; otherwise, on the row's tokens, the row is taken exactly when all field checks pass and the codeword has at most 16 bits, and aborts exactly when they pass and it has more; a taken row carries its symbol, codeword and atoi'd length, an aborting one its codeword |
| TableParse.CheckTokens | Software/decompression.c:314-325 | on any tokens: taken exactly when there are three tokens, an 8-bit binary symbol, a binary codeword, a length of 0..31 and a codeword of at most 16 bits; aborts exactly when the same checks pass with a longer codeword |
| TableParse.ParseRows | Software/decompression.c:295-346 | one verdict per line: a blank line is skipped, a taken row has an 8-bit symbol, a codeword of 1 to 16 bits and a bounded length field, an aborting row has a codeword of more than 16 bits |
| TableParse.AcceptRowsFails | Software/decompression.c:321-325 | the row loop fails exactly when some row aborts, with the first such codeword |
| TableParse.AcceptRowsTaken | Software/decompression.c:295-346 | without aborts, the accepted lines are the taken rows in order |
| TableParse.CodeLines | Software/decompression.c:330-337 | CODEWIN gets one line of 16 binary digits per row, reading back as the codeword's value mod 2^16, and equal to the codeword with leading zeros when it is binary and at most 16 bits |
| TableParse.LenLines | Software/decompression.c:339-342 | CODELEN gets one line of 5 binary digits per row, reading back as the length field mod 32 |
| TableParse.TokenizeStep | Software/decompression.c:304-313 | blanks then a whole token: the token is taken and scanning resumes after it |
| TableParse.ThreeTokens | Software/decompression.c:303-313 | three blank-separated tokens within their caps come out as they are |
| TableParse.DebugRowTokens | Software/decompression.c:303-313 | a written row splits into symbol, code and length tokens |
| TableParse.EmptyCodeRowTokens | Software/decompression.c:303-314 | a row with an empty code has only two tokens |
| TableParse.DebugRowStripped | Software/decompression.c:296 | `rstrip` leaves a written row unchanged |
| TableParse.DebugRowParsed | Software/decompression.c:295-325 | a written row is skipped when its code is empty, taken when it is up to 16 bits, and aborts otherwise |
| TableParse.TitleSkipped | Software/decompression.c:288-292 | a "Symbol" title and the line after it are skipped |
| TableParse.DebugColumnParsed | Software/decompression.c:295-325 | each row written for a short code parses as taken with its symbol, code and length |
| TableParse.ExpectedColumns | Software/decompression.c:327-342 | the regenerated files are the compression program's helper files |
| TableParse.RowsAfterTitle | Software/decompression.c:288-295 | after the title and one more line, the row loop reads the remaining rows as written |
| TableParse.CodebookRowsRead | Software/decompression.c:288-295 | the row loop reads exactly the rows of a readable codebook |
| TableParse.TableRoundTrip | Software/decompression.c:269-354 | from the readable codebook with short codes, the regenerated helper files equal the compressor's |
| TableParse.RegenerateTable | Software/decompression.c:269-355 | `generate_huffman_table_files_from_HMCODES`: TableRoundTrip states the rebuilt files equal the compressor's, LongCodeRejected that a code longer than 16 bits fails |
| TableParse.SingleSymbolTableEmpty | Software/decompression.c:314 | with a single symbol, the table regenerates empty |
| TableParse.LongCodeRejected | Software/decompression.c:321-325 | a codebook with a code longer than 16 bits is rejected |
| TableParse.AcceptStream | Software/decompression.c:375-412 | accepted stream lines are 1..16 bits, '0'/'1' only |
| TableParse.StreamCodeLines | Software/decompression.c:396-405 | OUTCW gets one line of 16 binary digits per stream line, reading back as its value mod 2^16, and equal to the line with leading zeros when it is binary and at most 16 bits |
| TableParse.StreamLenLines | Software/decompression.c:407-411 | OUTLEN gets one line of 5 binary digits per stream line, reading back as its length mod 32 |
| TableParse.StripKeepsBits | Software/decompression.c:376-384 | the kept characters are the line's bits |
| TableParse.AcceptStreamFails | Software/decompression.c:385-394 | the stream loop fails exactly when some line keeps more than 16 bits |
| TableParse.AcceptCodes | Software/decompression.c:375-412 | lines that are already short codewords are kept as they are |
| TableParse.StreamRoundTrip | Software/decompression.c:359-421 | a stream of short codewords regenerates as their 16-bit values and 5-bit lengths |
| TableParse.RegenerateStream | Software/decompression.c:359-422 | `generate_out_stream_files_from_OUTPUT`: StreamRoundTrip states the codeword and length files it writes, AcceptStreamFails when it fails |
| TableParse.PairDeterminesCode | Software/decompression.c:396-411 | the 16-bit value and the 5-bit length determine the codeword |
| Decoding.LoadTriples | Software/decompression.c:443-476 | the load loop yields no more entries than any file has lines |
| Decoding.LoadDecoderTable | Software/decompression.c:426-485 | `load_huffman_table_from_files`: LoadTriplesMembers states the width filter, DecoderTableMatches and CodebookLoadsTable that the compressor's table is loaded |
| Decoding.LoadTriplesMembers | Software/decompression.c:443-449 | an entry is loaded exactly when some triple of the right widths gives it |
| Decoding.LoadedInRange | Software/decompression.c:451-453 | each loaded entry fits its register: a byte, 16 bits, 5 bits |
| Decoding.LoadTriplesAll | Software/decompression.c:443-476 | three equal-length files of the right widths load every triple in order |
| Decoding.BitColumnReadBack | Software/decompression.c:116-128 | a column of short bit lines reads back line for line |
| Decoding.DecoderTableMatches | Software/decompression.c:426-484 | from the compressor's helper files the decoder loads the compressor's table |
| Decoding.CodebookLoadsTable | Software/decompression.c:269-484 | from the readable codebook alone the decoder loads the compressor's table |
| Decoding.SymbolLine | Software/decompression.c:525-530 | each written symbol line has 8 bits |
| Decoding.DecodePairs | Software/decompression.c:508-534 | at most one line per pair read, each 8 binary digits; DecodePairsMembers, DecodePairsAppend and DecodePairsSkips state which pairs give one |
| Decoding.DecodePairsAll | Software/decompression.c:508-534 | when every pair has the right widths, every pair is decoded, in order |
| Decoding.DecodePairsMembers | Software/decompression.c:508-514 | a symbol line is written exactly when some pair reached in lockstep has widths 16 and 5 and decodes to it |
| Decoding.DecodePairsAppend | Software/decompression.c:508-534 | the loop handles pairs one at a time, so its output on two parts of the files is the output on the first part followed by that on the second |
| Decoding.DecodePairsSkips | Software/decompression.c:510-514 | a pair of the wrong widths, wherever it stands, adds nothing to the output |
| Decoding.PairOfCode | Software/decompression.c:517-522 | the decoder is asked with the codeword's value and length |
| Decoding.DecodeStreamLines | Software/decompression.c:508-534 | the pairs written for a stream decode to the answers for its codewords |
| Decoding.StreamDecodes | Software/decompression.c:359-542 | the stream is decoded codeword by codeword into one 8-bit line each |
| Decoding.Decompress | Software/decompression.c:489-543 | `decompress_from_files`: StreamDecodes states that PARRGN holds one 8-bit line per codeword of the stream |
| Decoding.SymbolComesBack | Software/decompression.c:517-530 | a decoder that inverts the table gives back each row's symbol line |
| Decoding.SymbolsRoundTrip | Software/decompression.c:489-542 | encoding then decoding through IPs that serve and invert the table gives back the symbol lines |
| Decoding.ByteKey | Software/compression.c:610 | the encoder keys an 8-bit line by its value |
| Decoding.ByteValues | Software/decompression.c:566-570 | the merge loop collects at most one byte per line |
| Decoding.MergeGroups | Software/decompression.c:572-589 | one 32-bit word per full group of four, a short tail dropped |
| Decoding.MergeGroupsSnoc | Software/decompression.c:572-589 | a full group adds one word at the end |
| Decoding.MergeGroupsTail | Software/decompression.c:566-597 | fewer than four pending symbols add nothing |
| Decoding.MergeSymbols | Software/decompression.c:547-606 | the merge loop writes one word per four accepted bytes, in order |
| Decoding.ByteValuesOfSymbols | Software/decompression.c:567-569 | 8-bit symbol lines give their values in order |
| Decoding.MergeOfSymbols | Software/decompression.c:547-606 | the decoded symbol lines are merged four at a time, \|lines\|/4 words |
| Decoding.Merge | Software/decompression.c:547-607 | `merge_symbols_to_words`: MergeSymbols and MergeOfSymbols state the words written for the symbol lines |
| Polling.Poll | Software/decompression.c:462-464 | the wait loop ends where the step-by-step definition says |
| Polling.WaitFromOutcome | Software/decompression.c:462-464 | from any read on, the counter ends below 0 exactly when the flag is never seen, else it counts the reads before it |
| Polling.WaitOutcome | Software/compression.c:595-596 | the counter is -1 exactly when the flag was not raised in budget+1 reads; otherwise budget minus the reads before it |
| Polling.SilentLoadTimeout | Software/compression.c:599-602 | a device that never answers leaves the counter at -1, and `!to` reports no timeout |
| Polling.SpuriousLoadTimeout | Software/decompression.c:469-475 | a device that answers on the last read leaves 0, and `!to` reports a timeout |
| Polling.LoadTimeoutCounterexamples | Software/compression.c:595-602 | both cases with the programs' budget of 10000 |
| Polling.TimedOutExactly | Software/decompression.c:462-475 | corrected: `to < 0` reports a timeout exactly when the flag was never raised |
| Polling.ValidTimeoutAsWrittenCatches | Software/compression.c:144-148 | `to <= 0` catches every real timeout but also an answer on the last read |

## Left out

- The SD card, file open/close and error-print paths are left out; each file is its whole content as a string.
- Each IP the model needs is a parameter of the function that uses it: the frequency counter, the encoder, the decoder, the bit merger, and the done/valid flags. The bit parser IP is not modelled: `Packing.BitParser` ends with the words it would hand over, and the byte lines that IP writes appear only as the `outs` argument of `Packing.FreqReadsByteLines`.
- The IPs' own behaviour is not modelled. The round-trip lemmas assume an encoder that answers with the last entry loaded for a symbol, and a decoder that inverts the table.
- `stage_encrypt_comp_bin` and `decrypt_file` are left out. They are byte-wise XOR through an IP and have no host-side logic.
- `merge_header_and_data`, `copy_file`, `cleanup_helper_files`, `main`, `get_time_ms` and the progress prints are left out. They are plain file copying, deletion, timing and console output.
- The register handshakes are left out: `send_symbol`'s spin on `REG_DONE`, the strobes of `REG_VALID_IN`/`REG_LOAD_VALID`, and the spin on `REG_VALID_OUT` after a read. The model assumes each IP answers. `Polling` models the bounded waits separately.
- Encoder.EncodeLines: does not stop at an encoder timeout. The `break` taken when `wait_valid_out` fails is covered only by `Polling`.
- Encoder.TrimmedBits: states the emitted characters only for a length register of at most 24. Above that the line still has len5 characters of the 24-bit-masked codeword, which `Trimmed` computes, but no lemma states them.
- `CText.Atoi` is unbounded: `atoi` on a numeral beyond `int` is undefined behaviour in C and is not modelled. The written counts are below 2^24.
- Codebook.PackCodeword: `1 << (code_len - 1 - b)` is a shift of a signed `int`. A code of 32 characters shifts a 1 into the sign bit and a longer code shifts past the width; both are undefined behaviour in C. The model keeps the last 32 characters instead.
- A NUL byte inside a line is not modelled. C's `strlen` would stop at it; the model treats lines as character sequences.
- Bundle.SingleSymbolStreamLost and TableParse.SingleSymbolTableEmpty state a behaviour the C code has but that is evidently unintended. With one symbol its code is empty, so the stream lines are empty, the decompression reader stops at the first of them, and the table row has only two tokens and is skipped. No correction is modelled: the intended output for a one-symbol input is not evident from the code.
- `Builder.GenerateHuffmanTree` requires a table of exactly 256 frequencies, the size of `freq_table`.
- Builder.GenerateHuffmanTree: frequencies and merged sums are unbounded integers. In C the sum `left->freq + right->freq` (Software/compression.c:446) is an `int`, as are `freq_table` and `HuffNode.freq`; once the counts total more than 2^31-1 a merge overflows, which is undefined behaviour in C and is not modelled.

## Findings

| source | as written | input that shows it | evidently intended | confidence | as-written member | corrected member |
|---|---|---|---|---|---|---|
| Software/compression.c:520-538 | the codeword file keeps only the low 16 bits of a code, while the length file keeps the full length (up to 31) | a code of seventeen '1's: the encoder emits "0" followed by sixteen '1's | reject codes longer than 16 bits, as the decompression side does at decompression.c:321-325 | not executed; high | Encoder.LongCodeCounterexample | Codebook.CheckedWriteRows |
| Software/compression.c:595-602 | after `while (!done && to--)` the timeout test is `if (!to)`, but a device that never answers leaves `to == -1` | flag never raised: the counter ends at -1 and no timeout is reported; flag raised on read 10000: the counter is 0 and a timeout is reported | test `to < 0` | not executed; high | Polling.LoadTimeoutCounterexamples | Polling.TimedOutExactly |
