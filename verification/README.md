# BusyBox algorithms, modelled and proved in Dafny

The project models the algorithms of BusyBox 1.33.0 that do more than call the system, above all the
DEFLATE compressor of its gzip applet, and proves what they are for. Besides the compressor there are
lzop's best compressor, its in-place optimiser and its checksum, dpkg's tables, versions and dependencies, factor, and expr.

## The compressor

`Gzip.Zip` is the compressor as the source has it: classes for the structures that it updates in
place, loops where it loops, arrays where it has arrays. It is proved against a decoder written from
RFC 1951 and RFC 1952 alone (`Inflate`, `Canonical`, `Crc`): for every input and every way in which
reads split it up, decoding the output gives the input.

The proof follows the layers of the source.

| files | what they model |
|---|---|
| Bits, BitWriter | bit strings; the accumulator and the flushing byte buffer |
| Canonical, Inflate, Crc | the specification: codes, blocks, members, checksums |
| Heap, MergeTree, BuildSteps, BuildStart, HuffmanShape, HuffmanTree | build_tree on an array heap, with the unions of freq/code and dad/len overwritten as in the source |
| LengthLimit, CutLengths, LengthCounts, Reassign | gen_bitlen and its length limit |
| Optimal, PrefixCodes, Shallow, TieBreak | why the tree is a best one, and among the best a shallowest |
| CodeGen, TrimCodes, ShortestCodes, ShortestBlock | gen_codes and bi_reverse; the codes of a block are the shortest |
| Counting, RunLength, TreeCoding, BlockHeader | frequencies; run-length coding of code lengths |
| Tokens, Tables, TokenStore, BlockCost, BlockTrees, BlockDecode, Block | literals and matches, the tables of ct_init, compress_block, flush_block |
| Hash, Chains, Window | the rolling hash, hash chains over absolute offsets, the sliding window, longest_match |
| Deflate, Gzip | lazy parsing; header, trailer, and the theorem |

What the compressor finds is pinned as well. `Window.SlidingWindow.LongestMatch` misses no longer match
among the strings with the same hash that it has to look at, as many of the nearest as the chain length
allows; this is said of the input, because the chains are proved to lead to exactly those. And
`Deflate.Deflater.Round` says which tokens each decision of lazy parsing outputs.

Besides being correct the blocks are as small as promised: `Block.BlockCoder.FlushBlock` sends the cheapest
of the three forms, at exactly the cost computed, and unless a length had to be cut no codes at all give
the tokens of the block fewer bits than those that build_tree makes for it. Cut or not, a rarer symbol
never has a shorter codeword.

Invariants are stated over absolute offsets in the input, so a slide of the window is invisible in
them: a match is pending at offset p with distance d when the bytes from p on repeat those d earlier,
although match_start may have wrapped below zero.

## lzop

`LzoCompress.PackBlock` is what lzop does with a block at its levels 7 to 9: it compresses it, and
optimises the result if that is shorter. The stream decodes to the block, neither of the two internal
errors can occur, and the block itself is unchanged, although the optimiser overwrites it. The compressor
is proved for any dictionary that offers true matches and for any preference among them.
`LzoCoder.MatchRead` connects the five forms in which matches are written with the four kinds that are
read.

`LzoOptimize.Optimizer.Optimize` decompresses a block and rewrites it at the same time: a short match
becomes literals of the match before it, or joins the runs of literals around it. `LzoFormat` is the
decoder as steps of a machine, written from the arithmetic of the four kinds of matches. The claim is
that the rewritten stream decodes to the same bytes and ends at the same place. The argument: what a
step does depends only on the bytes it reads, so it is enough to remember where the match or the run
before the current place begins, and to show that the rewritten bytes lead from there to here.

## dpkg

Strings are interned by double hashing (`Probing`, `NameTable`). The table sizes are proved to be
primes, which is why a search reaches every slot. `Versions` states the order of versions as one on
keys that are sequences of numbers, and proves that the one-pass comparison computes it. The comment
before version_compare promises -1, 0 or 1; the code returns the gap at the first difference, which
`Versions.ResultRange` shows to be one of these exactly when the difference is close, and
`Versions.OneAndThree` to be -2 for 1 against 3. `VersionLaws` proves what section 5.6.12 of the
Debian Policy Manual asks of the order, and what the parts of a written version are. `EdgeTexts` writes
lines of dependencies and shows that they are read as written; `StatusWords` does this for the words of
a status.

`Packages`, `EdgeLists` and `Dependencies` lead to `Dependencies.CheckDependencies`, and `StatusFile` to
`StatusFile.CheckFile`, whose contract mentions no table: the check fails if and only if the status file
has a package to be installed with a dependency none of whose alternatives is satisfied.
`StatusWords.CheckWritten` says the same of a file written out word by word. Two things go wrong in reading
dependencies: `EdgeLists.CrashIff` says when NULL is dereferenced, and `EdgeLists.DeterminedIff` when an
edge keeps an operator that was never set.

## factor and expr

`Factor` proves that trial division along the packed wheel of `Wheel` prints the prime factorisation,
which `Divisors.FactorisationUnique` shows to be the only one. `ExprLaws` says what the operators
of expr do by their laws and what is accepted as a number. `Expr` proves that evaluating while
parsing gives any expression tree its value, when it is printed with parentheses only where the
levels of the operators ask for them. `ExprValues.SubstringIff` says when substr gives the substring
that it is asked for: the length is cut to an int on the way.

## Model

| member | source | states |
|---|---|---|
| Gzip.Zip | _pool/busybox/busybox-1.33.0/archival/gzip.c:2062-2101 | for every input and every way reads split it up, with or without a read failing, the bytes written are a gzip file that the decoder of RFC 1952 accepts (checksum, size modulo 2^32, nothing left over), which begins with the ten bytes of the header, and decodes to exactly the bytes read: all of the input unless a read failed |
| Gzip.WriteTrailer | _pool/busybox/busybox-1.33.0/archival/gzip.c:2095-2099 | the checksum and the size modulo 2^32 behind the blocks complete the file |
| Gzip.ZipData | _pool/busybox/busybox-1.33.0/archival/gzip.c:2062-2101 | the same for a sequence of bytes handed over as the input: no read error means the output decodes to that very sequence |
| Gzip.FileDecodes | _pool/busybox/busybox-1.33.0/archival/gzip.c:2065-2099 | whole bytes whose blocks decode to some data, followed by checksum and size of these data in little-endian order, are a complete gzip file for them |
| Gzip.Start | _pool/busybox/busybox-1.33.0/archival/gzip.c:2067-2091 | after the header, the tables and the first reads the state at the head of deflate's loop is established |
| Deflate.Deflater.Deflate | _pool/busybox/busybox-1.33.0/archival/gzip.c:1808-1910 | the loop ends, the input is read to its end or to a failure, and a decoder of the bits sent gets exactly the input, whatever slides, refills, lazy decisions and block ends happened |
| Deflate.Deflater.Round | _pool/busybox/busybox-1.33.0/archival/gzip.c:1817-1893 | one round of lazy parsing: the previous match is output if and only if it is of three bytes or more and the search at strstart found none longer, else the pending byte becomes a literal; exactly these tokens are added, the tokens stay equal to the input up to strstart (less the byte that is pending), and the search missed nothing that it had to look at |
| Deflate.Deflater.Fill | _pool/busybox/busybox-1.33.0/archival/gzip.c:1895-1904 | refilling or sliding the window does not change what is tallied or what match is pending, although match_start may wrap below zero |
| Deflate.Deflater.Search | _pool/busybox/busybox-1.33.0/archival/gzip.c:1818-1848 | a length of three or more that improves on the previous one belongs to a true match inside the input, at a distance of at most MAX_DIST; and no string that the search has to look at begins a longer one |
| Deflate.Deflater.MoveOn | _pool/busybox/busybox-1.33.0/archival/gzip.c:1874-1893 | with no match to output before strstart the byte there, if pending, becomes a literal, and a match found at strstart is the one pending in the next round |
| Deflate.Deflater.UseMatch | _pool/busybox/busybox-1.33.0/archival/gzip.c:1852-1873 | outputting the previous match adds the token of its length and distance, and advances to the end of the match, with all its strings in the hash table |
| Deflate.Deflater.UseLiteral | _pool/busybox/busybox-1.33.0/archival/gzip.c:1874-1886 | outputting the previous byte adds its literal and advances by one byte, also when the block ends there |
| Deflate.Deflater.TallyMatch | _pool/busybox/busybox-1.33.0/archival/gzip.c:1853-1856 | the token tallied expands to the next bytes of the input, its distance computed in unsigned arithmetic |
| Deflate.Deflater.Flush | _pool/busybox/busybox-1.33.0/archival/gzip.c:1786-1793 | the block flushed covers the input from block_start to strstart, from the window or from NULL, and the decoder then has the input up to strstart |
| Deflate.Deflater.Finish | _pool/busybox/busybox-1.33.0/archival/gzip.c:1905-1909 | at the end of the input everything, the pending byte included, is sent in a last block |
| Deflate.BlockInWindow | _pool/busybox/busybox-1.33.0/archival/gzip.c:1786-1793 | a block that starts inside the window is found there unchanged; one whose start has slid out is longer than any block that is stored |
| Deflate.CopyIsInput | _pool/busybox/busybox-1.33.0/archival/gzip.c:1853-1856 | copying a match byte by byte gives the input it stands for, also when source and target overlap |
| Window.SlidingWindow.FillWindow | _pool/busybox/busybox-1.33.0/archival/gzip.c:639-687 | refilling keeps window and input in step, moves everything by WSIZE if and only if strstart is beyond WSIZE + MAX_DIST, and reads a byte or sees the end; if it sees the end, the Assert of longest_match holds for all strings that are left if and only if the window was moved or what it holds ends by WINDOW_SIZE - MIN_LOOKAHEAD + 1 |
| Window.SlidingWindow.MakeRoom | _pool/busybox/busybox-1.33.0/archival/gzip.c:641-678 | the room behind the lookahead, computed in unsigned arithmetic: at least two bytes, and exactly up to the end of the window |
| Window.SlidingWindow.EnoughAhead | _pool/busybox/busybox-1.33.0/archival/gzip.c:734-734 | while MIN_LOOKAHEAD bytes are ahead the Assert of longest_match holds |
| Window.NotInside | _pool/busybox/busybox-1.33.0/archival/gzip.c:734-734 | on an input of 65400 bytes, read in any way and passed byte by byte, the Assert does not hold at 65300, where the search would compare bytes beyond the window |
| Window.SlidingWindow.FillWindowIfNeeded | _pool/busybox/busybox-1.33.0/archival/gzip.c:689-693 | afterwards there are MIN_LOOKAHEAD bytes ahead or the end is seen; absolute positions and the pending distance are unchanged |
| Window.SlidingWindow.MoveWindow | _pool/busybox/busybox-1.33.0/archival/gzip.c:651-676 | sliding keeps the window equal to the input at its new base and keeps all hash chains valid |
| Window.SlidingWindow.ReadMore | _pool/busybox/busybox-1.33.0/archival/gzip.c:520-533 | a read of any size appends to the input; checksum and size stay those of everything read |
| Window.SlidingWindow.InsertString | _pool/busybox/busybox-1.33.0/archival/gzip.c:1801-1806 | the string is inserted in its chain, and what is returned is the last earlier string with the same hash that lies within reach, or none if there is none |
| Window.SlidingWindow.RollHash | _pool/busybox/busybox-1.33.0/archival/gzip.c:1772-1772 | the running hash is the hash of the three bytes at strstart, whatever was hashed before |
| Window.SlidingWindow.LongestMatch | _pool/busybox/busybox-1.33.0/archival/gzip.c:708-782 | a result above prev_length is the length of a true match at match_start, not farther than MAX_DIST, of at most 258 bytes; and unless it reaches nice_match, none of the strings with the hash of the one at strstart that lie within MAX_DIST, as many of the nearest as the chain length allows, begins a longer match inside the input, which is said of the input and not of the chains |
| Window.SlidingWindow.MatchLength | _pool/busybox/busybox-1.33.0/archival/gzip.c:757-768 | comparing eight bytes at a time up to 258 finds a length up to which the strings agree, and stops at 258, at the end of the input, or where the bytes differ |
| Window.SlidingWindow.Promising | _pool/busybox/busybox-1.33.0/archival/gzip.c:740-748 | the quick test lets through only strings whose first three bytes agree, the third of which is not compared, and turns away only those that do not agree in more bytes than the best so far |
| Window.SlidingWindow.TryMatch | _pool/busybox/busybox-1.33.0/archival/gzip.c:737-777 | after a string was tried the best length is at least what it agrees in, or nice_match is reached |
| Window.SlidingWindow.FindMatch | _pool/busybox/busybox-1.33.0/archival/gzip.c:1821-1848 | clamped to the lookahead an improved length is a match inside the input, a distant match of three is dropped, and nothing longer was missed among the strings that are looked at |
| Window.SlidingWindow.InsertMatch | _pool/busybox/busybox-1.33.0/archival/gzip.c:1858-1868 | every position of a match is inserted |
| Window.SlidingWindow.LmInit | _pool/busybox/busybox-1.33.0/archival/gzip.c:1925-1958 | the first reads leave the window in step with the input, the chains empty and the hash ready |
| Window.Source.Read | _pool/busybox/busybox-1.33.0/archival/gzip.c:520-533 | a read gives some of the rest of the input, its end, or fails, leaving the buffer elsewhere unchanged |
| Chains.Insert | _pool/busybox/busybox-1.33.0/archival/gzip.c:1801-1806 | linking a new position to the old head of its hash keeps every entry of both tables the last earlier position with its hash, as long as that is within reach |
| Chains.Slide | _pool/busybox/busybox-1.33.0/archival/gzip.c:659-675 | subtracting WSIZE from all entries of both tables, or clearing them, keeps all chains valid over the moved window |
| Chains.MoreInput | _pool/busybox/busybox-1.33.0/archival/gzip.c:678-686 | appending input leaves the chains valid because only complete strings had been inserted |
| Chains.Follow | _pool/busybox/busybox-1.33.0/archival/gzip.c:778-779 | within the last WSIZE positions a link leads to a strictly earlier position with the hash of strstart |
| Chains.SameThree | _pool/busybox/busybox-1.33.0/archival/gzip.c:740-756 | two equal bytes and an equal hash make three equal bytes |
| Chains.StepTried | _pool/busybox/busybox-1.33.0/archival/gzip.c:778-779 | going on by a link, the strings tried are all those with the hash that are nearer than the one next |
| Chains.TriedThorough | _pool/busybox/busybox-1.33.0/archival/gzip.c:778-779 | when the chain is left for its length or the limit, nothing longer is among the strings that had to be tried |
| Chains.LongerHash | _pool/busybox/busybox-1.33.0/archival/gzip.c:778-779 | a longer match begins with three equal bytes and so has the hash |
| Hash.ThirdByte | _pool/busybox/busybox-1.33.0/archival/gzip.c:750-755 | strings with the same hash and the same first two bytes have the same third byte |
| Hash.RolledUpdate | _pool/busybox/busybox-1.33.0/archival/gzip.c:1766-1772 | after one more byte the running hash no longer depends on the byte before the last three |
| Block.BlockCoder.Tally | _pool/busybox/busybox-1.33.0/archival/gzip.c:1571-1623 | the token is saved and counted: the data grow by exactly what it expands to, frequencies stay those of the tokens, and a full buffer asks for a flush |
| Block.BlockCoder.FlushWanted | _pool/busybox/busybox-1.33.0/archival/gzip.c:1597-1618 | the buffers are flushed before they overflow |
| Block.BlockCoder.FlushBlock | _pool/busybox/busybox-1.33.0/archival/gzip.c:1678-1763 | for any decoder state the bits of the block add exactly the data of its tokens, whichever form is chosen; opt and fixed are the exact numbers of bits of the block with the codes built for it, which the trees still hold, and with the static ones; of these and a stored block the one with the fewest bytes is sent, a stored one when it costs four bytes more than its data at most; unless a length is the greatest allowed, no codes at all give the tokens fewer bits than those built; the last block ends on a whole byte |
| ShortestBlock.ShortestBoth | _pool/busybox/busybox-1.33.0/archival/gzip.c:1678-1763 | literal and distance codes that are shortest for the lists of their symbols give the block fewest bits among all codes within Kraft's inequality |
| ShortestBlock.BodySize | _pool/busybox/busybox-1.33.0/archival/gzip.c:1628-1671 | with any codes a block takes up what its symbols cost and the extra bits |
| ShortestCodes.BuiltShortest | _pool/busybox/busybox-1.33.0/archival/gzip.c:1310-1392 | the lengths that build_tree gives to the symbols of a list, none being cut, take no more bits for the list than any possible code, forced symbols or not |
| ShortestCodes.BuildTrimmed | _pool/busybox/busybox-1.33.0/archival/gzip.c:1310-1392 | build_tree for a list of symbols, the lengths of 0 at the end left off: complete, covering the list, shortest for it when no length is max_length |
| Block.BlockCoder.SendBlock | _pool/busybox/busybox-1.33.0/archival/gzip.c:1694-1750 | the choice between stored, static and dynamic; a block that is cheapest stored always still is in the window and shorter than 65536 bytes |
| Block.BlockCoder.BuildTrees | _pool/busybox/busybox-1.33.0/archival/gzip.c:1686-1695 | opt_len is exactly the number of bits of header and body of the dynamic block, static_len that of the static block |
| Block.BlockCoder.BuildLitDist | _pool/busybox/busybox-1.33.0/archival/gzip.c:1686-1692 | both codes are complete, encode every token of the block and the end-of-block code, and cost exactly the bits added to opt_len and static_len |
| Block.BlockCoder.BuildBlTree | _pool/busybox/busybox-1.33.0/archival/gzip.c:1509-1536 | the code length code is complete, has every symbol that will be sent, at least four of its lengths are sent and none that is not 0 is left out; opt_len grows by exactly the bits of the header |
| Block.BlockCoder.SendAllTrees | _pool/busybox/busybox-1.33.0/archival/gzip.c:1543-1566 | sends the header of a dynamic block: the counts, the lengths in their order, and both trees |
| Block.BlockCoder.SendStored | _pool/busybox/busybox-1.33.0/archival/gzip.c:1722-1734 | sends type, padding, length, complement and the bytes of the window |
| Block.BlockCoder.SendStatic | _pool/busybox/busybox-1.33.0/archival/gzip.c:1735-1739 | sends type and tokens with the static codes |
| Block.BlockCoder.SendDynamic | _pool/busybox/busybox-1.33.0/archival/gzip.c:1740-1746 | sends type, header and tokens with the new codes |
| Block.BlockCoder.InitBlock | _pool/busybox/busybox-1.33.0/archival/gzip.c:1093-1112 | the counts of an empty block hold the end-of-block code once and nothing else |
| Block.BlockCoder.CtInit | _pool/busybox/busybox-1.33.0/archival/gzip.c:1967-2056 | all tables are those of the format and the first block is empty |
| BlockDecode.StoredCarries | _pool/busybox/busybox-1.33.0/archival/gzip.c:1722-1734 | whatever came before and follows, a stored block appends its bytes to what the decoder has |
| BlockDecode.StaticCarries | _pool/busybox/busybox-1.33.0/archival/gzip.c:1735-1739 | whatever came before and follows, a block with the static codes appends what its tokens expand to |
| BlockDecode.DynamicCarries | _pool/busybox/busybox-1.33.0/archival/gzip.c:1740-1746 | whatever came before and follows, a block with its own codes appends what its tokens expand to |
| BlockDecode.DecodingStep | _pool/busybox/busybox-1.33.0/archival/gzip.c:1678-1763 | sending one more block takes the decoder from the old data to the new |
| BlockDecode.DecodingEnd | _pool/busybox/busybox-1.33.0/archival/gzip.c:1754-1757 | after the last block the decoder stops in the padded last byte with all the data |
| BlockCost.TokensCost | _pool/busybox/busybox-1.33.0/archival/gzip.c:1197-1200 | frequency times length, summed over both trees, is the number of bits that the tokens and the end-of-block code take up, extra bits included |
| BlockCost.StaticBound | _pool/busybox/busybox-1.33.0/archival/gzip.c:1711-1722 | with the static codes a block of n tokens takes at most 31 n + 7 bits |
| BlockCost.SymsCost | _pool/busybox/busybox-1.33.0/archival/gzip.c:1527-1532 | the cost counted for the code length code is the number of bits of the run-length coded lengths with their repeat counts |
| BlockHeader.HeaderReads | _pool/busybox/busybox-1.33.0/archival/gzip.c:1543-1566 | the decoder of section 3.2.7 of RFC 1951 reads both codes back from the header |
| BlockHeader.LengthsRead | _pool/busybox/busybox-1.33.0/archival/gzip.c:1452-1503 | reading the lengths of both trees as one list, as the format does, gives back both, although they are coded separately |
| BlockHeader.SymbolsValid | _pool/busybox/busybox-1.33.0/archival/gzip.c:1481-1489 | every repeat count that is sent fits its field of 2, 3 or 7 bits |
| BlockHeader.FirstLengthSent | _pool/busybox/busybox-1.33.0/archival/gzip.c:1478-1481 | the first length that is not 0 is sent as itself |
| BlockTrees.SomeLengthUsed | _pool/busybox/busybox-1.33.0/archival/gzip.c:1523-1526 | the scan for the last code length to send never runs past the fourth place of the order |
| BlockTrees.BuiltSends | _pool/busybox/busybox-1.33.0/archival/gzip.c:1628-1671 | trees built for the counts of a block have codewords for all its tokens |
| TokenStore.TokenBuffer.Append | _pool/busybox/busybox-1.33.0/archival/gzip.c:1573-1596 | literals, lengths, distances and the flag bits that tell them apart are stored so that the tokens can be recovered |
| TokenStore.TokenBuffer.SaveFlags | _pool/busybox/busybox-1.33.0/archival/gzip.c:1683-1683 | after the flags of the last tokens are saved the flag buffer has a bit for every token |
| TokenStore.CompressBlock | _pool/busybox/busybox-1.33.0/archival/gzip.c:1628-1671 | the tokens recovered from the three buffers are sent with their codewords and extra bits, then the end-of-block code |
| TokenStore.SendMatch | _pool/busybox/busybox-1.33.0/archival/gzip.c:1645-1665 | length code, extra length bits, distance code and extra distance bits of a match |
| Tokens.TokensDecode | _pool/busybox/busybox-1.33.0/archival/gzip.c:1628-1671 | decoding the bits of any list of tokens in any complete codes expands the tokens |
| Tokens.LengthFits | _pool/busybox/busybox-1.33.0/archival/gzip.c:1988-2003 | every length has one code whose extra bits hold the rest |
| Tokens.DistFits | _pool/busybox/busybox-1.33.0/archival/gzip.c:2005-2021 | every distance has one code whose extra bits hold the rest |
| Tables.CodeTables.InitLengths | _pool/busybox/busybox-1.33.0/archival/gzip.c:1988-2003 | the table gives every length the code of section 3.2.5 of RFC 1951, 258 its code of its own |
| Tables.CodeTables.InitDistances | _pool/busybox/busybox-1.33.0/archival/gzip.c:2005-2021 | the two-level table gives every distance up to 32768 its code |
| Tables.CodeTables.InitStaticLiterals | _pool/busybox/busybox-1.33.0/archival/gzip.c:2023-2047 | the static tree has the codes of section 3.2.6 of RFC 1951 |
| Tables.CodeTables.InitStaticDistances | _pool/busybox/busybox-1.33.0/archival/gzip.c:2049-2053 | the static distance codes are those that the lengths give |
| Tables.TablesAgree | _pool/busybox/busybox-1.33.0/archival/gzip.c:881-898 | the constant tables of gzip are those of the format |
| Tables.FixedLiteralsComplete | _pool/busybox/busybox-1.33.0/archival/gzip.c:2023-2047 | the static literal code is complete because the codes 286 and 287 are included |
| RunLength.EncodeDecodes | _pool/busybox/busybox-1.33.0/archival/gzip.c:1452-1503 | whatever lengths were read before, reading what send_tree sends appends the lengths of the tree |
| RunLength.ChunkDecodes | _pool/busybox/busybox-1.33.0/archival/gzip.c:1473-1489 | each form of a run comes back as the lengths it stands for |
| TreeCoding.ScanTree | _pool/busybox/busybox-1.33.0/archival/gzip.c:1400-1446 | the frequencies grow by exactly the symbols that send_tree sends, and the guard is set behind the tree |
| TreeCoding.SendTree | _pool/busybox/busybox-1.33.0/archival/gzip.c:1452-1503 | sends the run-length symbols of the tree with the code length code |
| TreeCoding.SendCode | _pool/busybox/busybox-1.33.0/archival/gzip.c:1065-1071 | sending a code sends its codeword |
| HuffmanTree.TreeBuilder.BuildTree | _pool/busybox/busybox-1.33.0/archival/gzip.c:1310-1392 | the lengths form a complete code within max_length in which every symbol that occurs has a codeword and a rarer symbol never a shorter one, whether lengths are cut or not; opt_len and static_len grow by exactly what the symbols cost, forced codes and corrections included; when all lengths are below max_length, no lengths that satisfy Kraft's inequality cost less, and none that cost the same are shorter at their longest; at most two symbols are forced, with frequency 1, and none if two occur |
| HuffmanTree.TreeBuilder.LengthsFromHeap | _pool/busybox/busybox-1.33.0/archival/gzip.c:1363-1392 | the merge tree, how many of its nodes lie too deep, and the lengths: best when none does, and some length is max_length when one does |
| HuffmanTree.LensRarer | _pool/busybox/busybox-1.33.0/archival/gzip.c:1310-1392 | among the symbols that occur one with a lower frequency has no shorter length |
| Reassign.FallingRarer | _pool/busybox/busybox-1.33.0/archival/gzip.c:1251-1273 | lengths given out to the leaves in the order of their frequencies fall as these rise |
| Optimal.CheapestRarer | _pool/busybox/busybox-1.33.0/archival/gzip.c:1251-1273 | in cheapest lengths, too, a rarer symbol has no shorter one |
| HuffmanTree.TreeBuilder.MergeHeap | _pool/busybox/busybox-1.33.0/archival/gzip.c:1363-1387 | from the heap to the finished merge tree, ties broken by height |
| Shallow.MergeTreeShallow | _pool/busybox/busybox-1.33.0/archival/gzip.c:1117-1123 | breaking ties by height, as SMALLER does, the merge tree is no higher than the longest length of any lengths that cost as little |
| Shallow.TreeShallow | _pool/busybox/busybox-1.33.0/archival/gzip.c:1117-1123 | the lengths of an uncut merge tree are, among the cheapest, shortest at their longest |
| TieBreak.TiesStep | _pool/busybox/busybox-1.33.0/archival/gzip.c:1366-1379 | merging the first two nodes by frequency and height keeps the order of removal sorted by both, and the recorded height of each node one above that of its higher son |
| TieBreak.HeightBound | _pool/busybox/busybox-1.33.0/archival/gzip.c:1370-1370 | a node as high as 23 would weigh more than 16 bits hold, so the byte for its height does not overflow |
| HuffmanTree.TreeBuilder.StartHeap | _pool/busybox/busybox-1.33.0/archival/gzip.c:1324-1361 | at least two symbols are in a heap; forced ones are new, occur once and are paid back |
| HuffmanTree.TreeBuilder.ForceOne | _pool/busybox/busybox-1.33.0/archival/gzip.c:1341-1349 | the code forced is one of the first three and did not occur |
| HuffmanTree.TreeBuilder.Combine | _pool/busybox/busybox-1.33.0/archival/gzip.c:1367-1384 | merging the two rarest nodes keeps the order of removal sorted by frequency and the total frequency |
| HuffmanTree.TreeBuilder.MergeAll | _pool/busybox/busybox-1.33.0/archival/gzip.c:1363-1387 | combining ends with one node, the root of a merge tree over exactly the symbols that occur |
| HuffmanTree.TreeBuilder.GenBitlen | _pool/busybox/busybox-1.33.0/archival/gzip.c:1159-1242 | depths cut at max_length and then corrected are the lengths of a complete code with one length for every leaf; overflow is the number of nodes that were too deep; without one the lengths are the depths, with one some length is max_length; costs are exact |
| HuffmanTree.TreeBuilder.AssignCutLengths | _pool/busybox/busybox-1.33.0/archival/gzip.c:1167-1201 | the first pass gives every node its depth, cut at max_length, counts the leaves and the cut nodes, and adds up the costs |
| HuffmanTree.TreeBuilder.GiveLengths | _pool/busybox/busybox-1.33.0/archival/gzip.c:1227-1240 | the corrected lengths go to the leaves, each length as often as counted, and opt_len follows |
| LengthLimit.RepairCounts | _pool/busybox/busybox-1.33.0/archival/gzip.c:1209-1220 | the counts end up with Kraft sum exactly 1, the same number of leaves, and at least one leaf at max_length |
| LengthLimit.FirstToLengthen | _pool/busybox/busybox-1.33.0/archival/gzip.c:1210-1212 | the inner scan always finds a length that is used |
| LengthLimit.RepairStep | _pool/busybox/busybox-1.33.0/archival/gzip.c:1213-1219 | one step removes exactly one unit of the excess and keeps the number of leaves |
| LengthCounts.CutKraft | _pool/busybox/busybox-1.33.0/archival/gzip.c:1176-1201 | the number of cut nodes, leaves and inner ones together, is exactly twice the excess of the Kraft sum |
| LengthCounts.EnoughAtMax | _pool/busybox/busybox-1.33.0/archival/gzip.c:1209-1220 | there are more leaves at max_length than units to give up |
| HuffmanShape.LeafSpace | _pool/busybox/busybox-1.33.0/archival/gzip.c:1176-1192 | the leaves of a merge tree cut at max_length take up the whole space and one unit more for each inner node at that depth |
| HuffmanShape.LeafCost | _pool/busybox/busybox-1.33.0/archival/gzip.c:1197-1200 | in an uncut tree the leaves cost what the inner nodes weigh |
| Optimal.MergeTreeBest | _pool/busybox/busybox-1.33.0/archival/gzip.c:1363-1387 | no lengths with room for all leaves cost less than the inner nodes of the merge tree weigh |
| Optimal.TreeCheapest | _pool/busybox/busybox-1.33.0/archival/gzip.c:1159-1203 | the depths of an uncut merge tree are the cheapest lengths |
| PrefixCodes.BestPrefixCode | _pool/busybox/busybox-1.33.0/archival/gzip.c:1310-1392 | the lengths of an uncut tree cost no more than any code in which no codeword begins another |
| PrefixCodes.ShareBound | _pool/busybox/busybox-1.33.0/archival/gzip.c:1310-1392 | any set of words none of which begins another satisfies Kraft's inequality |
| Heap.Pqdownheap | _pool/busybox/busybox-1.33.0/archival/gzip.c:1125-1147 | sifting one node down extends the heap by one father and keeps the nodes |
| Heap.RootSmallest | _pool/busybox/busybox-1.33.0/archival/gzip.c:1299-1308 | the first node of a heap is smallest by frequency and, among equals, by depth |
| CodeGen.GenCodes | _pool/busybox/busybox-1.33.0/archival/gzip.c:1252-1286 | every symbol with a length gets its canonical codeword, reversed, for any complete lengths |
| CodeGen.BiReverse | _pool/busybox/busybox-1.33.0/archival/gzip.c:579-589 | sending the result low bit first sends the code high bit first |
| Canonical.DecodeCodeword | _pool/busybox/busybox-1.33.0/archival/gzip.c:1252-1286 | in a complete code the decoder reads a codeword as its own symbol whatever follows |
| Canonical.PrefixFree | _pool/busybox/busybox-1.33.0/archival/gzip.c:1252-1286 | no codeword of a complete code begins another |
| BitOutput.BitWriter.SendBits | _pool/busybox/busybox-1.33.0/archival/gzip.c:539-572 | the bits sent grow by exactly the low bits of the value; less than 32 bits are pending and the buffer is never full |
| BitOutput.BitWriter.BiWindup | _pool/busybox/busybox-1.33.0/archival/gzip.c:594-607 | zero bits complete the last byte and nothing is pending |
| BitOutput.BitWriter.CopyBlock | _pool/busybox/busybox-1.33.0/archival/gzip.c:613-629 | padding, length and complement if wanted, and the bytes |
| BitOutput.BitWriter.Put16bit | _pool/busybox/busybox-1.33.0/archival/gzip.c:443-478 | two bytes, low one first, with a flush wherever the buffer fills |
| BitOutput.BitWriter.Put32bit | _pool/busybox/busybox-1.33.0/archival/gzip.c:482-497 | four bytes, lowest first |
| BitOutput.BitWriter.Put8bit | _pool/busybox/busybox-1.33.0/archival/gzip.c:435-440 | one byte |
| BitOutput.BitWriter.FlushOutbuf | _pool/busybox/busybox-1.33.0/archival/gzip.c:423-430 | what is buffered goes out once |
| BitOutput.StoredLengthWord | _pool/busybox/busybox-1.33.0/archival/gzip.c:617-618 | the word in front of a stored block is the length below its complement |
| Crc.BlockEndian0 | _pool/busybox/busybox-1.33.0/libbb/crc32.c:66-75 | the table-driven checksum of a buffer is the bitwise one of section 8 of RFC 1952 |
| Crc.FillTable | _pool/busybox/busybox-1.33.0/libbb/crc32.c:22-43 | the table holds eight steps of the register for every byte |
| Crc.UpdateConcat | _pool/busybox/busybox-1.33.0/libbb/crc32.c:66-75 | checksumming in pieces gives the checksum of the whole |
| LzoOptimize.Optimizer.Optimize | _pool/busybox/busybox-1.33.0/archival/lzop.c:143-395 | for every valid stream, whatever is rewritten on the way, the stream left in the buffer decodes to the same bytes and ends at the same place, out holds those bytes, and the return code tells whether the whole input was used |
| LzoOptimize.Optimizer.TakeCopy | _pool/busybox/busybox-1.33.0/archival/lzop.c:212-364 | which rewriting is applied to a match and exactly which bytes it changes: none unless no literals follow the match, what precedes it is known, and the result fits a one-byte length |
| LzoOptimize.Optimizer.TakeExtended | _pool/busybox/busybox-1.33.0/archival/lzop.c:222-231 | a match becomes literals of the match before it, another match following; the rewritten stream leads to the same place with the same output |
| LzoOptimize.Optimizer.TakeMerged | _pool/busybox/busybox-1.33.0/archival/lzop.c:232-256 | the literals before a match, the match and the run behind it become one run, the literals moving up by one; the rewritten stream leads to the same place with the same output |
| LzoOptimize.Optimizer.TakeJoined | _pool/busybox/busybox-1.33.0/archival/lzop.c:277-292 | two runs with a match of three bytes in two between them become one run; the rewritten stream leads to the same place with the same output |
| LzoOptimize.Optimizer.TakeInstruction | _pool/busybox/busybox-1.33.0/archival/lzop.c:212-385 | any match keeps the stream given and the one rewritten in step, and the end marker ends both with the same output |
| LzoOptimize.Optimizer.LiteralRun | _pool/busybox/busybox-1.33.0/archival/lzop.c:172-192 | a run of literals keeps both streams in step, and litp and lit describe it if its length takes one byte |
| LzoOptimize.Optimizer.MatchDone | _pool/busybox/busybox-1.33.0/archival/lzop.c:365-382 | after a match and its literals litp and lit describe them |
| LzoOptimize.Optimizer.Begin | _pool/busybox/busybox-1.33.0/archival/lzop.c:165-170 | a first byte above 17 counts literals; nothing before them may be rewritten |
| LzoOptimize.Optimizer.ReadInstruction | _pool/busybox/busybox-1.33.0/archival/lzop.c:212-321 | distance and length of the four kinds of matches, and the end marker |
| LzoOptimize.Optimizer.Copy2 | _pool/busybox/busybox-1.33.0/archival/lzop.c:112-119 | the two bytes that the match would give, though it may overlap them |
| LzoOptimize.Optimizer.Copy3 | _pool/busybox/busybox-1.33.0/archival/lzop.c:121-137 | the three bytes that the match would give, though it may overlap them |
| LzoOptimize.Optimizer.Merge | _pool/busybox/busybox-1.33.0/archival/lzop.c:240-251 | the four writes of a merger in order |
| LzoRewrite.ExtendedKeeps | _pool/busybox/busybox-1.33.0/archival/lzop.c:222-231 | literals that replace a match of as many bytes count as literals of the match before, and give its bytes |
| LzoRewrite.MergedKeeps | _pool/busybox/busybox-1.33.0/archival/lzop.c:335-352 | what was a match with literals, a match and a run is a match without literals and one run with all the bytes |
| LzoRewrite.JoinedKeeps | _pool/busybox/busybox-1.33.0/archival/lzop.c:277-287 | what were two runs and a match between them is one run with all the bytes |
| LzoFormat.Recount | _pool/busybox/busybox-1.33.0/archival/lzop.c:226-228 | changing the two low bits of the last byte but one of a match changes the number of literals behind it and nothing else, for all four kinds |
| LzoFormat.RunSame | _pool/busybox/busybox-1.33.0/archival/lzop.c:143-395 | how a decoder gets to a place depends only on the bytes before it |
| LzoRewrite.StepFrom | _pool/busybox/busybox-1.33.0/archival/lzop.c:143-395 | what a decoder does next does not depend on the bytes before it |
| LzoRewrite.CountNotFirst | _pool/busybox/busybox-1.33.0/archival/lzop.c:365-370 | the byte that counts the literals behind a match is never the first of the stream |
| LzoCompress.PackBlock | _pool/busybox/busybox-1.33.0/archival/lzop.c:683-715 | a block at the levels 7 to 9, compressed and, if that made it shorter, optimised: neither internal error occurs, the block is unchanged, and what is stored is the block itself or a shorter stream that decodes to it |
| LzoCompress.CompressLevel | _pool/busybox/busybox-1.33.0/archival/libarchive/lzo1x_9x.c:894-919 | for every block the stream decodes to the block and ends with it, at the levels 7 to 9; other levels are refused |
| LzoCompress.Compressor.Compress | _pool/busybox/busybox-1.33.0/archival/libarchive/lzo1x_9x.c:717-888 | whatever matches the dictionary offers and whichever of them are preferred, literals and matches written decode to the input before bp less the literals that wait, and in the end to all of it |
| LzoCompress.Compressor.CodeMatch | _pool/busybox/busybox-1.33.0/archival/libarchive/lzo1x_9x.c:502-567 | the bytes of the match, which the decoder reads as the match, in any of its five forms |
| LzoCompress.Compressor.StoreRun | _pool/busybox/busybox-1.33.0/archival/libarchive/lzo1x_9x.c:570-593 | the literals come next for the decoder, whether they start the stream, are counted in the match before them, or are a run of their own |
| LzoCompress.Compressor.Accepted | _pool/busybox/busybox-1.33.0/archival/libarchive/lzo1x_9x.c:768-784 | a match is coded if it can be behind the literals that wait, except for three bytes from too far behind four literals or more, and for what may not begin a stream |
| LzoCompress.Compressor.BetterMatch | _pool/busybox/busybox-1.33.0/archival/libarchive/lzo1x_9x.c:673-709 | the match that replaces another takes fewer bytes to code, is a match of the input too, and at most two bytes shorter |
| LzoCompress.Compressor.Round | _pool/busybox/busybox-1.33.0/archival/libarchive/lzo1x_9x.c:752-872 | one round: if the match found is not acceptable one more literal waits; else it, or one a little shorter that takes fewer bytes, is written whole behind the literals, or a match one or two bytes later that is no shorter is preferred, and those bytes become literals or the beginning of the old match is written |
| LzoCompress.Compressor.TakeMatch | _pool/busybox/busybox-1.33.0/archival/libarchive/lzo1x_9x.c:795-870 | the same for a match accepted |
| LzoCompress.Compressor.LookAhead | _pool/busybox/busybox-1.33.0/archival/libarchive/lzo1x_9x.c:801-859 | looking ahead by up to two bytes; a match preferred may leave two bytes of the old one, coded as a match by itself |
| LzoCompress.LenOfCodedMatch | _pool/busybox/busybox-1.33.0/archival/libarchive/lzo1x_9x.c:614-641 | exactly the number of bytes that code_match writes, negative if and only if the match cannot be coded |
| LzoCoder.MatchRead | _pool/busybox/busybox-1.33.0/archival/libarchive/lzo1x_9x.c:502-567 | the decoder reads the bytes of a match, with any number of literals behind it added, as offset, length and that number |
| LzoCoder.CountAdded | _pool/busybox/busybox-1.33.0/archival/libarchive/lzo1x_9x.c:576-577 | the bits to which the number of literals is added are 0 |
| LzoCoder.MatchCoded | _pool/busybox/busybox-1.33.0/archival/libarchive/lzo1x_9x.c:502-567 | after anything that leads a decoder to some place, a match and up to three literals lead it to the copy and the literals |
| LzoCoder.RunCoded | _pool/busybox/busybox-1.33.0/archival/libarchive/lzo1x_9x.c:578-590 | the same for a run of four literals or more |
| LzoCoder.FirstCoded | _pool/busybox/busybox-1.33.0/archival/libarchive/lzo1x_9x.c:574-575 | up to 238 literals begin a stream |
| LzoCoder.EndCoded | _pool/busybox/busybox-1.33.0/archival/libarchive/lzo1x_9x.c:879-883 | the end marker ends it |
| Adler.LzoAdler32 | _pool/busybox/busybox-1.33.0/archival/lzop.c:509-536 | with the modulo deferred over runs of 5552 bytes the 32-bit sums never overflow, and the result is the checksum of section 2.2 of RFC 1950, from any start and for any buffer |
| Adler.Adler32Concat | _pool/busybox/busybox-1.33.0/archival/lzop.c:509-536 | the checksum of a concatenation is that of its second part continued from that of the first |
| Adler.RunFits | _pool/busybox/busybox-1.33.0/archival/lzop.c:520-530 | from any 16-bit sums a run of 5552 bytes fits 32 bits |
| Adler.RawReduced | _pool/busybox/busybox-1.33.0/archival/lzop.c:531-533 | reducing once after a run is reducing after every byte |
| Probing.ProbeReaches | _pool/busybox/busybox-1.33.0/archival/dpkg.c:169-227 | stepping by any amount but 0 and the size through a table of prime size reaches every slot, within as many probes as there are slots |
| Probing.EndsIff | _pool/busybox/busybox-1.33.0/archival/dpkg.c:195-204 | a search ends if and only if the table has a slot to stop at |
| Probing.NameSizePrime | _pool/busybox/busybox-1.33.0/archival/dpkg.c:88-88 | the size of the name table is a prime |
| Probing.PackageSizePrime | _pool/busybox/busybox-1.33.0/archival/dpkg.c:98-98 | the size of the package table is a prime |
| Probing.StatusSizePrime | _pool/busybox/busybox-1.33.0/archival/dpkg.c:116-116 | the size of the status table is a prime |
| NameTable.MakeHash | _pool/busybox/busybox-1.33.0/archival/dpkg.c:169-186 | for every key of characters 1 to 255 a slot to start at, and a step that is neither 0 nor the whole table |
| NameTable.Names.Search | _pool/busybox/busybox-1.33.0/archival/dpkg.c:189-206 | the number of a key is that of its slot; if it is new it is stored, and nothing else changes |
| NameTable.SearchEnds | _pool/busybox/busybox-1.33.0/archival/dpkg.c:189-206 | the search for a key ends if and only if a slot is free or holds the key |
| NameTable.Interns | _pool/busybox/busybox-1.33.0/archival/dpkg.c:189-206 | over any sequence of calls equal strings, and only they, get equal numbers |
| NameTable.StoreSound | _pool/busybox/busybox-1.33.0/archival/dpkg.c:204-205 | storing a name where its search ended leaves every name where the search for it ends |
| NameTable.StoredOnce | _pool/busybox/busybox-1.33.0/archival/dpkg.c:189-206 | no string is stored twice |
| Versions.VersionComparePart | _pool/busybox/busybox-1.33.0/archival/dpkg.c:240-277 | the exact result, from the first difference: of the orders of two characters, of the first digits in which equally long numbers differ, or the sign; it has the sign of the lexicographic comparison of the keys of both strings: orders of non-digits, then a number, and so on, what has ended going on with zeros |
| Versions.DifferDecides | _pool/busybox/busybox-1.33.0/archival/dpkg.c:240-277 | the first difference has the sign of the comparison of the keys |
| Versions.ResultRange | _pool/busybox/busybox-1.33.0/archival/dpkg.c:279-282 | the result is one of the -1, 0 and 1 of the comment if and only if epochs differ or the first difference is between neighbouring orders, numbers of different lengths, or numbers that are one apart at the first digit in which they differ |
| Versions.OneAndThree | _pool/busybox/busybox-1.33.0/archival/dpkg.c:279-282 | 1 against 3 gives -2 |
| Versions.VersionCompare | _pool/busybox/busybox-1.33.0/archival/dpkg.c:283-334 | epochs decide first, then the part before the last hyphen, then the part after it; the exact result and its sign |
| Versions.VersionsOrdered | _pool/busybox/busybox-1.33.0/archival/dpkg.c:283-334 | the order is a total preorder: antisymmetric in sign, reflexive, transitive, ties included |
| Versions.TestVersion | _pool/busybox/busybox-1.33.0/archival/dpkg.c:336-354 | each operator asks what its name says of the order of the two versions; without an operator nothing holds |
| Versions.OperatorsAgree | _pool/busybox/busybox-1.33.0/archival/dpkg.c:336-354 | the operators are consistent with one another, and bounds carry over |
| Versions.TildeFirst | _pool/busybox/busybox-1.33.0/archival/dpkg.c:229-277 | a version that goes on with a tilde sorts before the version itself, as section 5.6.12 of the Debian Policy Manual asks |
| VersionLaws.LetterFirst | _pool/busybox/busybox-1.33.0/archival/dpkg.c:229-238 | behind a common prefix a letter sorts before whatever is neither letter, digit nor tilde, as section 5.6.12 of the Debian Policy Manual asks |
| VersionLaws.LetterFirstVersions | _pool/busybox/busybox-1.33.0/archival/dpkg.c:229-277 | so 1.0a is earlier than 1.0.1: the same for whole versions of the same epoch |
| VersionLaws.CodeDecides | _pool/busybox/busybox-1.33.0/archival/dpkg.c:229-238 | behind a common prefix, of two letters, or of two that are neither letters, digits nor tildes, the one with the smaller code sorts first |
| VersionLaws.TildeBefore | _pool/busybox/busybox-1.33.0/archival/dpkg.c:229-238 | behind a common prefix a tilde sorts before everything else that is no digit |
| VersionLaws.EndBefore | _pool/busybox/busybox-1.33.0/archival/dpkg.c:229-238 | where one version ends, or has a number, and the other has a character that is no digit, the other sorts later, but earlier if it is a tilde |
| VersionLaws.NumbersDecide | _pool/busybox/busybox-1.33.0/archival/dpkg.c:254-273 | behind a common prefix two different numbers decide as numbers do, however they go on |
| VersionLaws.CommonPrefix | _pool/busybox/busybox-1.33.0/archival/dpkg.c:240-277 | a common prefix does not matter, unless it ends inside a number |
| VersionLaws.ParseWhole | _pool/busybox/busybox-1.33.0/archival/dpkg.c:293-330 | a version written as epoch, colon, upstream, hyphen, revision has these parts, though the upstream part may have hyphens and colons |
| VersionLaws.ParseNoRevision | _pool/busybox/busybox-1.33.0/archival/dpkg.c:293-330 | without a hyphen there is no revision |
| VersionLaws.ParseNoEpoch | _pool/busybox/busybox-1.33.0/archival/dpkg.c:293-330 | without a colon the epoch is 0 |
| VersionLaws.ParseUpstream | _pool/busybox/busybox-1.33.0/archival/dpkg.c:293-330 | a version may be only its upstream part |
| VersionLaws.AtoiSigned | _pool/busybox/busybox-1.33.0/archival/dpkg.c:293-303 | an epoch with a sign, as atoi reads it |
| VersionLaws.AtoiSpace | _pool/busybox/busybox-1.33.0/archival/dpkg.c:293-303 | blanks before an epoch do not matter |
| VersionLaws.EpochDecides | _pool/busybox/busybox-1.33.0/archival/dpkg.c:305-310 | the smaller epoch sorts first, whatever follows |
| Versions.NumbersRead | _pool/busybox/busybox-1.33.0/archival/dpkg.c:262-273 | the first difference of equally long digits decides as the numbers do, a longer number is larger |
| Packages.SearchPackage | _pool/busybox/busybox-1.33.0/archival/dpkg.c:356-377 | a package of the name with an acceptable version, or a free slot if the table holds none |
| Packages.StoreReachable | _pool/busybox/busybox-1.33.0/archival/dpkg.c:685-687 | storing a package where the search ended keeps every package within reach |
| Packages.StorePackageFound | _pool/busybox/busybox-1.33.0/archival/dpkg.c:685-687 | ... and every status found, though the package that is replaced had one |
| Packages.StoreStatusFound | _pool/busybox/busybox-1.33.0/archival/dpkg.c:789-790 | storing a status where the search for its package ended keeps every status where its search ends |
| Packages.SearchStatus | _pool/busybox/busybox-1.33.0/archival/dpkg.c:211-227 | the only status of the package of that name, or a free slot |
| EdgeLists.Node.AddSplitDependencies | _pool/busybox/busybox-1.33.0/archival/dpkg.c:429-519 | for any line the outcome: the edges of all fields in order, roots counting their alternatives in place; the illegal operator; or NULL dereferenced, if and only if there is no field, or one without a name comes before any illegal operator; where a parenthesis holds no operator the edge has whatever its memory held |
| EdgeLists.CrashIff | _pool/busybox/busybox-1.33.0/archival/dpkg.c:443-453 | reading crashes if and only if some field has no name and all before it are readable and legal, and adds all edges if and only if all fields are |
| EdgeLists.NoNames | _pool/busybox/busybox-1.33.0/archival/dpkg.c:443-453 | a line of a comma, and a blank between commas, crash it |
| EdgeLists.DeterminedIff | _pool/busybox/busybox-1.33.0/archival/dpkg.c:468-503 | the edges of a readable line do not depend on uninitialised memory if and only if every parenthesis holds an operator |
| EdgeLists.NoOperator | _pool/busybox/busybox-1.33.0/archival/dpkg.c:468-503 | a (1) is an alternative without one |
| EdgeTexts.VersionedRead | _pool/busybox/busybox-1.33.0/archival/dpkg.c:462-507 | an alternative written as a name, a parenthesis, one of the five operators, a version, with blanks between them, is the edge with that name, operator and version |
| EdgeTexts.PlainRead | _pool/busybox/busybox-1.33.0/archival/dpkg.c:462-471 | a name by itself is the edge for any version of it |
| EdgeTexts.OperatorsRead | _pool/busybox/busybox-1.33.0/archival/dpkg.c:477-491 | the operator for each of =, <<, <=, >> and >=, for < and > by themselves, and no operator for any other run of these characters |
| EdgeTexts.AlternativesRead | _pool/busybox/busybox-1.33.0/archival/dpkg.c:460-512 | alternatives written one after the other are read as their edges |
| EdgeTexts.LineRead | _pool/busybox/busybox-1.33.0/archival/dpkg.c:429-519 | a whole line of fields, commas between them and bars between their alternatives, has exactly the edges written, each group behind a root that counts it |
| EdgeTexts.AddWritten | _pool/busybox/busybox-1.33.0/archival/dpkg.c:429-519 | splitting such a line adds these edges to the package, whatever the memory of the new edges held |
| EdgeLists.Node.AddField | _pool/busybox/busybox-1.33.0/archival/dpkg.c:443-514 | the root is added first and counts up as its alternatives are added behind it |
| EdgeLists.LineLayout | _pool/busybox/busybox-1.33.0/archival/dpkg.c:429-519 | a line of dependencies adds one dependency per field with its alternatives, other lines add none, and each root stays followed by exactly the alternatives it counts |
| EdgeLists.LayoutJoin | _pool/busybox/busybox-1.33.0/archival/dpkg.c:413-417 | edges laid out one after the other have the dependencies of both |
| Dependencies.CheckDependencies | _pool/busybox/busybox-1.33.0/archival/dpkg.c:1064-1177 | it dies if and only if some package whose status wants it installed has a dependency none of whose alternatives is satisfied, directly or by a provider |
| StatusFile.CheckFile | _pool/busybox/busybox-1.33.0/archival/dpkg.c:766-795 | reading a status file of up to 8190 paragraphs and checking dies if and only if the file, by its last paragraph for each package and version and its last status for each name, has a package to be installed with a dependency none of whose alternatives is satisfied; no table is left in the statement |
| StatusFile.IndexStatusFile | _pool/busybox/busybox-1.33.0/archival/dpkg.c:766-795 | the tables hold exactly the last paragraph for each package and version and the last status for each name, and are fit for searching |
| StatusFile.StoreEntry | _pool/busybox/busybox-1.33.0/archival/dpkg.c:773-790 | one paragraph replaces what is alike and nothing else |
| StatusFile.BrokenListed | _pool/busybox/busybox-1.33.0/archival/dpkg.c:1064-1177 | what is broken in the tables is what is broken in the file |
| Dependencies.CheckEdges | _pool/busybox/busybox-1.33.0/archival/dpkg.c:1095-1175 | counting alternatives down and skipping those behind a satisfied one tells whether every dependency of the package is met |
| Dependencies.EdgeSatisfied | _pool/busybox/busybox-1.33.0/archival/dpkg.c:1115-1149 | an edge is satisfied if and only if some package of its name and an acceptable version, or some package that provides the name, has a fitting status |
| Dependencies.SatisfiedIff | _pool/busybox/busybox-1.33.0/archival/dpkg.c:1128-1149 | it does not matter which of several matching packages the search finds |
| Dependencies.SearchForProvides | _pool/busybox/busybox-1.33.0/archival/dpkg.c:395-408 | the next package that provides the name, or -1 if no later one does |
| Dependencies.GetStatus | _pool/busybox/busybox-1.33.0/archival/dpkg.c:692-712 | the first, second or third word of the status |
| Dependencies.PackageSatisfies | _pool/busybox/busybox-1.33.0/archival/dpkg.c:963-978 | whether the package has a status, and is installed for a pre-dependency or wanted for a dependency |
| StatusWords.WordsRead | _pool/busybox/busybox-1.33.0/archival/dpkg.c:692-712 | of three words with blanks between them the first, second and third, also with a newline and more behind |
| StatusWords.FitsWritten | _pool/busybox/busybox-1.33.0/archival/dpkg.c:963-978 | a status written from want, flag and state suits a pre-dependency if and only if its state is installed, a dependency if and only if its want is install |
| StatusWords.ReadyWritten | _pool/busybox/busybox-1.33.0/archival/dpkg.c:963-978 | a package of the file is ready as its last paragraph says in these words |
| StatusWords.BrokenWritten | _pool/busybox/busybox-1.33.0/archival/dpkg.c:1064-1177 | what is broken in the file, said in these words |
| StatusWords.CheckWritten | _pool/busybox/busybox-1.33.0/archival/dpkg.c:766-795 | indexing and checking a file whose statuses are written so dies if and only if some package whose last paragraph says install has a dependency none of whose alternatives is satisfied by a package that is installed, or to be installed, as the kind of dependency asks |
| StatusWords.PackageWritten | _pool/busybox/busybox-1.33.0/archival/dpkg.c:429-519 | the dependency lines of a package, written out, are its groups of alternatives, to which its Provides line adds none |
| Factor.Factorizer.FactorizeNumber | _pool/busybox/busybox-1.33.0/coreutils/factor.c:220-232 | for every number below 2^64 one line is printed: primes in ascending order whose product is the number, nothing for 0 |
| Factor.Factorizer.Factorize | _pool/busybox/busybox-1.33.0/coreutils/factor.c:162-218 | the prime factors in ascending order, each as often as square_count says, across the wheel, the odd square-root bound, the half-width overflow and the recursion |
| Factor.Factorizer.Square | _pool/busybox/busybox-1.33.0/coreutils/factor.c:148-152 | the factors of a root, printed twice as often, are those of its square; the byte that counts this does not overflow |
| Factor.Factorizer.IsqrtOdd | _pool/busybox/busybox-1.33.0/coreutils/factor.c:138-160 | either the number was a square and is printed, or an odd bound beyond which no odd divisor has to be tried |
| Factor.Factorizer.DivideOut | _pool/busybox/busybox-1.33.0/coreutils/factor.c:196-202 | dividing by a factor as often as it goes, printing it each time |
| Factor.Factorizer.PrintW | _pool/busybox/busybox-1.33.0/coreutils/factor.c:124-129 | the number, as often as square_count says |
| Factor.RestIsPrime | _pool/busybox/busybox-1.33.0/coreutils/factor.c:203-204 | when the divisor has passed the odd bound the rest is a prime |
| Factor.RestIsPrimeWide | _pool/busybox/busybox-1.33.0/coreutils/factor.c:205-207 | when the divisor would not fit 32 bits any more the rest is a prime |
| Factor.Advance | _pool/busybox/busybox-1.33.0/coreutils/factor.c:205-212 | a step of the wheel passes over no divisor, in any turn |
| Factor.Isqrt | _pool/busybox/busybox-1.33.0/libbb/isqrt.c:20-36 | the root x with x*x <= N < (x+1)*(x+1), for every 64-bit number, without overflow |
| Wheel.UnpackWheel | _pool/busybox/busybox-1.33.0/coreutils/factor.c:99-121 | unpacking gives the 485 steps of the table |
| Wheel.StepAt | _pool/busybox/busybox-1.33.0/coreutils/factor.c:46-82 | every step from the fifth on starts at an odd number and skips only multiples of 2, 3, 5, 7 and 11 |
| Wheel.Turn | _pool/busybox/busybox-1.33.0/coreutils/factor.c:46-82 | the steps from the fifth on add up to 2310 |
| Divisors.FactorisationUnique | _pool/busybox/busybox-1.33.0/coreutils/factor.c:162-218 | there is only one ascending list of primes with a given product |
| Divisors.PrimeByRoot | _pool/busybox/busybox-1.33.0/coreutils/factor.c:138-160 | a number without a divisor up to its square root is a prime |
| Expr.PrintedEvaluates | _pool/busybox/busybox-1.33.0/coreutils/expr.c:317-537 | any expression tree, printed with parentheses only where needed and quote before keywords and parentheses, evaluates to its value, or dies if it has none, reading exactly the tokens printed |
| Expr.PrintedParses | _pool/busybox/busybox-1.33.0/coreutils/expr.c:317-537 | the same at each of the eight levels and in any context: what is printed for a level is an operand of its loop |
| Expr.BinaryParses | _pool/busybox/busybox-1.33.0/coreutils/expr.c:406-537 | operators of one level associate to the left |
| Expr.Evaluator.Run | _pool/busybox/busybox-1.33.0/coreutils/expr.c:539-559 | what is printed and the exit status: for the tokens of a tree those of its value, for other tokens what the levels make of them, if they use them all up |
| Expr.Evaluator.Eval | _pool/busybox/busybox-1.33.0/coreutils/expr.c:522-537 | the loop over the operator or gives what level 0 makes of the tokens, on every list of tokens |
| Expr.Evaluator.Eval1 | _pool/busybox/busybox-1.33.0/coreutils/expr.c:502-518 | the loop over & gives what level 1 makes of the tokens |
| Expr.Evaluator.Eval2 | _pool/busybox/busybox-1.33.0/coreutils/expr.c:472-498 | the loop over comparisons gives what level 2 makes of the tokens |
| Expr.Evaluator.Eval3 | _pool/busybox/busybox-1.33.0/coreutils/expr.c:448-468 | the loop over + and - gives what level 3 makes of the tokens |
| Expr.Evaluator.Eval4 | _pool/busybox/busybox-1.33.0/coreutils/expr.c:424-444 | the loop over *, / and % gives what level 4 makes of the tokens |
| Expr.Evaluator.Eval5 | _pool/busybox/busybox-1.33.0/coreutils/expr.c:406-420 | the loop over : gives what level 5 makes of the tokens |
| Expr.Evaluator.Eval6 | _pool/busybox/busybox-1.33.0/coreutils/expr.c:341-401 | keywords take their operands at their own level |
| Expr.Evaluator.Eval7 | _pool/busybox/busybox-1.33.0/coreutils/expr.c:317-337 | a parenthesis holds a whole expression; a closing one or the end is an error |
| Expr.CmpCommon | _pool/busybox/busybox-1.33.0/coreutils/expr.c:217-243 | the comparison that the sum of the characters of the operator stands for |
| Expr.ArithmeticCommon | _pool/busybox/busybox-1.33.0/coreutils/expr.c:247-268 | the operation that the operator stands for, None for strings that are no numbers and for division by zero |
| ExprLaws.PlusLaws | _pool/busybox/busybox-1.33.0/coreutils/expr.c:256-257 | adding is symmetric, 0 is neutral, and adding one more gives one more |
| ExprLaws.MinusUndoes | _pool/busybox/busybox-1.33.0/coreutils/expr.c:258-259 | subtracting undoes adding, and only it |
| ExprLaws.TimesLaws | _pool/busybox/busybox-1.33.0/coreutils/expr.c:260-261 | multiplying by 0, by one more and by one less |
| ExprLaws.DivisionLaw | _pool/busybox/busybox-1.33.0/coreutils/expr.c:262-266 | for a divisor other than 0 quotient and remainder are the only q and r with a = b*q + r, r smaller than b in size and 0 or of the sign of a |
| ExprLaws.ArithmeticDies | _pool/busybox/busybox-1.33.0/coreutils/expr.c:252-263 | arithmetic fails exactly on what is no number and on division by 0 |
| ExprLaws.NumbersCompare | _pool/busybox/busybox-1.33.0/coreutils/expr.c:217-243 | each of the seven comparisons of numbers is 1 exactly when less, equal or greater is what it asks for |
| ExprLaws.TextsCompare | _pool/busybox/busybox-1.33.0/coreutils/expr.c:217-243 | the same for values one of which is a text, compared as texts by their first difference |
| ExprLaws.CompareTextOrder | _pool/busybox/busybox-1.33.0/coreutils/expr.c:223-228 | comparing texts is the lexicographic order: a text is less if it ends first or has the smaller character where they first differ |
| ExprLaws.NullIs | _pool/busybox/busybox-1.33.0/coreutils/expr.c:168-174 | null are 0, the empty text and the text of a single 0 |
| ExprLaws.EitherBoth | _pool/busybox/busybox-1.33.0/coreutils/expr.c:502-537 | the operator or gives its left side unless that is null, the operator and its left side if neither is null and else 0 |
| ExprLaws.IndexFirst | _pool/busybox/busybox-1.33.0/coreutils/expr.c:372-380 | index gives the first position, from 1 on, of any of the characters, and 0 if and only if there is none |
| ExprLaws.DecimalWritten | _pool/busybox/busybox-1.33.0/coreutils/expr.c:178-184 | numbers are written in decimal, negative ones with a sign |
| ExprLaws.NumbersAccepted | _pool/busybox/busybox-1.33.0/coreutils/expr.c:188-204 | blanks, a sign, zeros and the digits of a number are read as that number |
| ExprLaws.OthersRefused | _pool/busybox/busybox-1.33.0/coreutils/expr.c:188-204 | any other text is no number |
| ExprLaws.Reported | _pool/busybox/busybox-1.33.0/coreutils/expr.c:554-558 | what is printed for numbers and texts, and the status: 1 for null values and 0 for others |
| ExprLaws.TwoNumbers | _pool/busybox/busybox-1.33.0/coreutils/expr.c:539-559 | two numbers and an operator of arithmetic between them print the number that the operator gives, with status 1 for 0 |
| ExprLaws.Tokens | _pool/busybox/busybox-1.33.0/coreutils/expr.c:424-537 | the operators as they are written |
| ExprLaws.Levels | _pool/busybox/busybox-1.33.0/coreutils/expr.c:406-537 | how tightly each operator binds |
| ExprLaws.PrecedencePrinted | _pool/busybox/busybox-1.33.0/coreutils/expr.c:406-537 | of two operators between three numbers the tighter is applied first, the first of two as tight |
| ExprValues.SubstringIff | _pool/busybox/busybox-1.33.0/coreutils/expr.c:383-395 | substr gives the length characters from the position on, or what there is of them, if and only if the length fits the int that xstrndup takes, or both it and its 32 low bits are no less than what there is |
| ExprValues.SubstringOfTooMany | _pool/busybox/busybox-1.33.0/coreutils/expr.c:383-395 | of 2^32 characters it gives none |
| ExprValues.IntegerTextReads | _pool/busybox/busybox-1.33.0/coreutils/expr.c:177-203 | a number written as a string reads back as the number |

## Left out

- File descriptors, option parsing, renaming and unlinking, bbunpack: plumbing around the transformation. Reading is a source that gives any part of the rest, the end, or a failure; writing appends to the bytes written.
- One configuration of gzip.c: CONFIG_GZIP_FAST=0, no levels, a 32-bit bi_buf, no unaligned stores, no debug code.
- The hash heads and the previous links are two arrays here; the source keeps both in one.
- Reads beyond the end of the window, which the source does where the Assert at line 734 does not hold: Peek returns any byte there. When that is, Window.SlidingWindow.FillWindow states; Window.NotInside is an example.
- opt_len and static_len are integers; in the source they are unsigned and pass below zero while codes are forced. Their final values are the numbers of bits proved, below 2^32.
- isize, crc and match_start are unsigned 32-bit with wrap-around; other unsigned variables stay in range and are natural numbers.
- ArithmeticCommon: works on mathematical integers, and so do CmpCommon and ReadInteger: C leaves overflow of 64-bit arithmetic undefined, and strtoll clamps.
- regcomp and regexec: what a match gives is a parameter of expr. Values are values here, not cells that tostring and toarith overwrite and freev frees.
- AddSplitDependencies: strtok_r, strspn and strcspn are functions; of the values that an unset operator can have, those that are no operator at all are one here, as all of them satisfy no version.
- CheckDependencies: asks for a free slot in the package and the status table, without which the searches of the source need not end, and for tables in which what is stored is found; StatusFile.IndexStatusFile gives such tables for up to 8190 paragraphs. Statuses of paragraphs without a status line, which the source leaves unset, are not modelled, nor is the adding of packages from the command line.
- Edges, packages and statuses hold strings where the source holds their numbers in the name table; NameTable.Interns is why this is the same. The 16-bit fields for these numbers and for the number of edges are not modelled.
- The conflict phase of check_deps, splitting control files and the status file into fields, and everything dpkg does to the file system.
- MakeHash: characters are unsigned; where char is signed, make_hash shifts by a negative number for those above 127, which C leaves undefined. Numbers of epochs beyond 32 bits wrap around here and are undefined in C.
- The dictionary in which lzop's compressor finds matches: LzoCompress.Compressor.FindMatch leaves open which match it offers, and asks only that it is one, inside the block and no farther than the dictionary reaches; what is proved holds for every such dictionary. min_gain, by how much a later match must be longer, is left open in the same way.
- The compressors of lzop for the levels 1 to 6, its decompressor, its file format, and the LZO1Y branch of the optimiser.
- In lzop's compressor bytes are put together by adding where the source joins bits that do not overlap; LzoCoder.CountAdded shows this for the bits that are added later.
- factor: reading numbers and the text in front of the colon.
- Optimality beyond the codes of one block: where blocks end, lazy matching and length limiting are heuristics. What they do is stated (Deflate.Deflater.Round, Window.SlidingWindow.LongestMatch, Block.BlockCoder.FlushWanted); that it is good is not.
