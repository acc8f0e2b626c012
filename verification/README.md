# BudgetApp client libraries, verified

A model in Dafny 4.11 of the algorithms in four JavaScript libraries that BudgetApp ships, and proofs of what
they promise. The originals are written in JavaScript; nothing here replaces them.

- **DEFLATE in `jszip.js`.** `RawDeflate` (LZ77 matching, a 16-bit heap, length-limited Huffman code lengths by
  reverse package-merge, canonical codes, the run-length coded header, the bit writer) and `RawInflate` (lookup
  tables, bit and symbol reading, header, body, growing output). The codes, the block layout and the reference
  reader `DeflateFormat.Inflate` follow sections 3.1.1, 3.2.2, 3.2.5 and 3.2.7 of RFC 1951.
- **The ZIP container in `jszip.js`** for stored files: generator, reader and the archive object, after sections
  4.3.7, 4.3.12 and 4.3.16 of PKWARE's APPNOTE.
- **`DataView` in `slick.dataview.js`**: filtering with cached hints, paging, multi-level grouping, and the notices
  of changed rows that a grid relies on.
- **`slick.grid.js`**: Tab order over cells with column spans, dragging a column edge, fitting columns to the
  viewport, virtual scrolling; and **`frac` in `xlsx.js`**.

The modules follow the program: `Bits`, `HuffmanCodes`, `MaxHeaps`, `MergeLevels`, `MergeCosts`, `PackageMerge`,
`CodeLengths`, `RunLengths`, `RunLengthCosts`, `RunLengthEncoders`, `Tokens`, `Lz77Matching`, `BitWriters`, `DeflateFormat`, `BlockReading`, `RawDeflate`,
`BufferGrowth`, `RawInflate`, `DeflateRoundTrip`, `BitRoundTrip`, `CutOffStream`, `MisreadBlock`; `ZipFormat`,
`ZipWriter`, `ZipReader`, `ZipArchive`; `RowGrouping`, `RowDiffs`, `DataViews`; `GridNavigation`, `Columns`,
`ColumnDragging`, `ColumnAutosize`, `ScrollPaging`; `Fractions`. Loops over changing variables are methods proved
against functions; objects whose fields change are classes.

## Main results

- `RawDeflate.Compress`: for every non-empty byte sequence, whatever its symbol counts, the output is one final
  dynamic block that a reader of RFC 1951 expands to exactly the input. Its tokens are the greedy ones, which the data
  determine (`Lz77Matching.GreedyUnique`); all three codes are the cheapest of their limit for the counts in 16 bits.
  Counts that wrap there cost at most some compression, never correctness: the lengths meet the Kraft inequality for
  any weights.
- `PackageMerge.LimitedLengths` and `CodeLengths.GetLengths`: no other lengths within the limit that meet the Kraft
  inequality need fewer bits, for all positive counts below 65536.
- `DeflateRoundTrip.CompressThenDecompress`: where no repeat run straddles the two lists of the header, the library's
  own inflater gives the input back exactly if the block does not outrun its output buffer, which is a function of the
  block (`BufferGrowth.BlockOutruns`) and never true of inputs of up to 32768 bytes.
- `ZipArchive.GenerateThenLoad`: an archive loads back exactly unless three numbers in its end record happen to
  contain the end signature, or a file is named `hasOwnProperty`; `ZipFormat.MaskedIff` says when the former is.
- `Fractions.Frac`: for every number and every bound, the loop ends, and the fraction is reduced and near the number,
  exactly under a condition on the continued fraction of the number; where the expansion goes beyond the bound no
  fraction within it is nearer.
- `DataViews.DataView.Refresh` and the mutators: a grid that redraws only the reported rows always shows the rows, and
  with honest hints the rows are those of a plain recalculation.
- `RowGrouping.ShownUnderPath`: grouping shows exactly the rows outside collapsed groups, each under its path in order.
- `GridNavigation.TabThrough`: Tab visits every stop once in row-major order, and Shift-Tab takes it back.
- `ColumnDragging.ColumnHeaders.Drag`: dragging conserves the width and respects every limit at every mouse position.
- `ScrollPaging.Viewport.ScrollTo`: the viewport lands where it was sent exactly if the guard of the source lets it;
  after every scroll event it does (`ScrollPaging.Viewport.HandleScroll`).
- `ColumnAutosize.AutosizeColumns`: in every pass each column that it reaches gives up its part of the excess, in
  proportion to its room, or gets its part of the missing width, in proportion to its width; the guard against looping
  never fires.

## Where the code does not do what it should

Each of these is a property that fails for some inputs: the project proves a condition that holds if and only if the
code meets it, and names inputs for which it does not.

- **A repeat run across the two code length lists.** The encoder codes both lists as one sequence, as section 3.2.7 of
  RFC 1951 allows, but the inflater reads them separately. It gets the two lists from the bits, and leaves the bits
  behind them, exactly if no four equal lengths straddle the boundary (`BlockReading.ReadInTwoOf`,
  `BlockReading.ReadHeaderOf`; `RunLengths.TwoPartsAgree` for the operations). `RunLengths.MisreadHeader` has such
  lengths, for the tokens of a text of 16 bytes (`BlockReading.MisreadText`, `BlockReading.MisreadSymbols`). That the
  compressor chooses just these lengths for it is not proved. A block of two literals with these lengths comes out
  empty (`MisreadBlock.DecompressMisread`).
- **Counts of 65536 and more.** The heap keeps counts modulo 65536, and the code is the cheapest for those, not for the
  counts themselves: for 65537, 2 and 2 occurrences it is not (`CodeLengths.Misweighed`). For smaller counts it always
  is (`CodeLengths.GetLengths`).
- **Output that cannot grow.** The inflater divides the input length by the read index to decide how much to grow its
  output. It looks ahead for the longest code, and once that takes the index past the input, the buffer stops growing.
  `BufferGrowth.Outruns` follows bits, index and capacity through a body; a stream is cut off, or stopped with an
  error if every symbol has a code, exactly if its body outruns the buffer (`RawInflate.RawInflate.Decompress`).
  `CutOffStream.LongRunIsCutOff` is a stream of 33025 bytes that does: the inflater reports success and gives less.
- **`frac` on large partial quotients.** The conversion to 32 bits is the floor only below 2^31. With a quotient that
  wraps the source goes round for ever, gives the convergent before it, or gives 1/0, and `Fractions.FracIsGood` says
  when, as a function of the exact continued fraction. It never ends for 3000000000 with the bound 9 that
  `# ? / ?` uses, nor for 1/3000000000 with any bound above 1 (`Fractions.LoopsForever`); from 10737418240 on it
  gives 1/0 (`Fractions.LargeNumber`).
- **Scrolling to where the grid already was.** `scrollTo` does nothing if the position seen last is the one wanted, but
  `updateRowCount` takes over a position from the browser without noting it. The viewport lands exactly if the position
  seen last differs from the wanted one or the present one is the wanted one (`ScrollPaging.Viewport.ScrollTo`).
  Scrolled to 500, emptied and filled again, a grid stays at 0 when sent to 500 (`ScrollPaging.StaleScroll`); the next
  scroll event settles it. A viewport taller than all rows and without a horizontal scrollbar is sent to a negative
  page.
- **Entering a grid with Shift-Tab.** `gotoPrev` without a position leads to the last stop exactly under the condition
  of `GridNavigation.ShiftTabEntersAtLastStop`; otherwise it skips the whole last row, as in
  `GridNavigation.ShiftTabMissesLastRow`. The same step gives up left of the last stop of a row
  (`GridNavigation.ShiftTabFromAnywhere`).
- **The end-of-archive signature.** An archive of one file can contain the signature twice, exactly if its name and
  content have 101010226 bytes together (`ZipArchive.AmbiguousFile`); loading it fails (`ZipArchive.LostArchive`). For
  any archive `ZipFormat.MaskedIff` says when.
- **Names of files.** A file named `__proto__` is lost when it is added (`ZipArchive.ProtoIsLost`), and with one named
  `hasOwnProperty` no archive can be written (`ZipArchive.JSZip.Generate`).
- **Groups that share their key.** Collapsing a group collapses every group of its level whose values join to the same
  string (`RowGrouping.ToggleHolds`). Different names without a colon never do (`RowGrouping.JoinedApart`); names that contain the
  delimiter can (`RowGrouping.JoinedAlike`).
- **Inserting out of place.** `insertItem` with a position past the end, with a negative one or with an id in use adds
  the item, but the index by id is then wrong; so it is after `addItem` exactly if the id was in use
  (`DataViews.DataView.InsertItem`, `DataViews.DataView.AddItem`).
- **A page number that is not a number.** Asking for a page while there is no page size and no row makes the page
  number NaN (`DataViews.LostPage`); `DataViews.LostPageIff` says after which calls it is.
- **An empty page.** The page shown can be empty although there are items: exactly if its number is lost, or it begins
  where the items end, as the corrected page does when they fill whole pages (`DataViews.EmptyPage`).

## Model

| member | source | states |
|---|---|---|
| HuffmanCodes.PrefixFree | BudgetApp/war/js/jszip.js:1512 | for lengths meeting the Kraft inequality, no canonical code is a prefix of another, in the reversed form that is written |
| HuffmanCodes.EndCodeIsKraftSum | BudgetApp/war/js/jszip.js:1512 | the code counter of each length, scaled, is the Kraft sum so far; so codes never overflow their length |
| HuffmanCodes.KraftAnyLimit | BudgetApp/war/js/jszip.js:1512 | the Kraft inequality does not depend on the length limit it is written for |
| HuffmanCodes.AssignCodes | BudgetApp/war/js/jszip.js:1512 | the loops of `pa` compute for every symbol the canonical code of RFC 1951 section 3.2.2, bit-reversed |
| HuffmanCodes.BuildTable | BudgetApp/war/js/jszip.js:1559 | `u` fills a table of 2^longest cells; if the code meets Kraft, a window beginning with a symbol's code maps to that symbol and length, and one beginning with no code to nothing |
| MaxHeaps.MaxHeap.Push | BudgetApp/war/js/jszip.js:1492 | pushing keeps the heap order in place and adds exactly one node, with its value truncated to 16 bits |
| MaxHeaps.MaxHeap.Pop | BudgetApp/war/js/jszip.js:1493 | popping removes exactly one node, a largest one, and keeps the heap order |
| MaxHeaps.RootIsLargest | BudgetApp/war/js/jszip.js:1492-1493 | in a heap ordered parent by parent the root is a largest node |
| PackageMerge.LimitedLengths | BudgetApp/war/js/jszip.js:1510-1511 | for any weights of 2..2^limit symbols every length is in 1..limit and the sum of 2^(limit-length) is at most 2^limit; for positive weights in falling order it is exactly 2^limit, and no other lengths within these bounds have a smaller weighted sum |
| MergeCosts.FirstAreBest | BudgetApp/war/js/jszip.js:1511 | on a merged level no choice of symbols and pairs is worth more than as many first items |
| MergeCosts.AnyGain | BudgetApp/war/js/jszip.js:1510-1511 | however many symbols are taken from each level, if they pay for the excess they save no more than the first items of the top level and the mandatory items below |
| MergeCosts.TakenGain | BudgetApp/war/js/jszip.js:1510-1511 | what the method takes saves exactly that much |
| MergeCosts.NeedIsListed | BudgetApp/war/js/jszip.js:1510-1511 | the levels, cut to size and without the items that follow the last symbol, list every item that any such choice can need |
| MergeCosts.Filled | BudgetApp/war/js/jszip.js:1510-1511 | lengths that leave room in the Kraft sum can be shortened until it is full |
| MergeLevels.Merger.TakePackage | BudgetApp/war/js/jszip.js:1510 | taking a package takes its two halves on the next level, recursively, and shortens no other symbol |
| MergeLevels.SymbolWorth | BudgetApp/war/js/jszip.js:1510-1511 | the worth of all but the last item taken on each level changes by a symbol's depth, with equality while the depths ascend |
| MergeLevels.PaidInFull | BudgetApp/war/js/jszip.js:1510-1511 | the packages that the bits of 2^limit - n leave out pay for lengths within the limit and a Kraft sum of at most one |
| CodeLengths.GetLengths | BudgetApp/war/js/jszip.js:1509 | for any counts, exactly the used symbols get a length and the lengths meet Kraft; if no count is a multiple of 65536, no other code for the used symbols needs fewer bits for the counts modulo 65536, and with two used symbols the code is complete |
| CodeLengths.HandedOut | BudgetApp/war/js/jszip.js:1509-1510 | the cheapest lengths for the nodes from the heap, handed to their symbols, are the cheapest code |
| CodeLengths.Misweighed | BudgetApp/war/js/jszip.js:1509 | for counts of 65537, 2 and 2 the code is not the cheapest |
| RunLengths.RunLengthRoundTrip | BudgetApp/war/js/jszip.js:1497-1498 | run-length coding of any list of lengths up to 15 expands back to the list |
| RunLengths.EncodeEconomical | BudgetApp/war/js/jszip.js:1497-1498 | the coding needs no more numbers than there are lengths, every repeat fits its 2, 3 or 7 bits, and no symbol count exceeds what 8 bits hold for 316 lengths |
| RunLengthCosts.EncodeShortest | BudgetApp/war/js/jszip.js:1497-1498 | no operations that a reader expands to the same lengths are fewer |
| RunLengths.TwoPartsAgree | BudgetApp/war/js/jszip.js:1567 | reading the operations of the two lists separately gives the two lists if and only if no four equal lengths straddle the boundary |
| BlockReading.ReadInTwoOf | BudgetApp/war/js/jszip.js:1567 | the same of the bits, which go on behind the lists: the two-part reader gets both lists and leaves what follows if and only if no four equal lengths straddle the boundary |
| BlockReading.ReadHeaderOf | BudgetApp/war/js/jszip.js:1567 | of the whole header of a consistent block the reader in one part always gets both codes and the body behind them; the two-part reader does if and only if no four equal lengths straddle the boundary |
| RunLengths.MisreadHeader | BudgetApp/war/js/jszip.js:1567 | lengths with four equal ones across the boundary, so that the two-part reading gets them wrong |
| MisreadBlock.MisreadContent | BudgetApp/war/js/jszip.js:1561-1569 | bytes that hold a block of two literals with these lengths: a reader of the format gets the two literals, one that reads the two lists apart gets no content |
| MisreadBlock.DecompressMisread | BudgetApp/war/js/jszip.js:1561-1573 | for them the inflater reports success and gives nothing |
| MisreadBlock.MisreadCanBeHeld | BudgetApp/war/js/jszip.js:1561-1569 | there are such bytes |
| RunLengthEncoders.RunLengthEncoder.EncodeLengths | BudgetApp/war/js/jszip.js:1497-1498 | the index loops produce exactly the specified operations and their 8-bit counts, for up to 316 lengths |
| Tokens.LengthCodeInverse | BudgetApp/war/js/jszip.js:1501-1503 | the symbol, extra bits and extra value of every match length 3..258 lead back to it through the inflater's tables |
| Tokens.DistanceCodeInverse | BudgetApp/war/js/jszip.js:1504-1506 | the same for every distance 1..32768 |
| Tokens.CopyReproduces | BudgetApp/war/js/jszip.js:1569 | the overlapping copy of a match reproduces the bytes that matched |
| Lz77Matching.MatchKey | BudgetApp/war/js/jszip.js:1507 | the key packs the next up to three bytes |
| Lz77Matching.LongestMatch | BudgetApp/war/js/jszip.js:1508 | the match found is real, has length 3..258, no candidate matches longer and no later one as long, although candidates are rejected by comparing backwards from the best length and the search stops at 258 |
| Lz77Matching.Lz77 | BudgetApp/war/js/jszip.js:1504-1508 | the tokens expand to the input by allowed matches, fit into 2n numbers, and the counts are exact but for the end mark counted twice; they are greedy: where more than three bytes are left, a literal if and only if no position in the 32768 bytes before agrees for three bytes, else a match as long as any up to 258 bytes and the nearest of these |
| Lz77Matching.GreedyUnique | BudgetApp/war/js/jszip.js:1507-1508 | greedy tokens of the same data are the same |
| BitWriters.BuildReverseTable | BudgetApp/war/js/jszip.js:1492 | the table holds the reversal of every byte |
| BitWriters.ReverseBits | BudgetApp/war/js/jszip.js:1491 | the table lookups and the arithmetic shift reverse up to 32 bits, up to a sign that the writer ignores |
| BitWriters.BitWriter.Write | BudgetApp/war/js/jszip.js:1491 | every write appends exactly the bits of the number in the order asked for, across byte flushes and a growing buffer |
| BitWriters.BitWriter.Finish | BudgetApp/war/js/jszip.js:1491 | the bytes hold the bits written, padded with zero bits |
| RawDeflate.ChooseCodes | BudgetApp/war/js/jszip.js:1497 | the lengths for literals and distances, cut after the last used symbol, meet Kraft and cover every used symbol; both codes are the cheapest for the stored counts |
| RawDeflate.WriteBlock | BudgetApp/war/js/jszip.js:1497-1499 | the bits written are exactly those of one final dynamic block of RFC 1951 section 3.2.7 for these tokens and lengths |
| RawDeflate.Compress | BudgetApp/war/js/jszip.js:1495-1512 | for every non-empty input a reader of RFC 1951 expands the output to the input; a reader of the two lists does so too unless a run straddles the boundary; the tokens are greedy, the codes for them and for the header are the cheapest for their counts, and what is sent of them ends with the last used symbol |
| DeflateFormat.Order | BudgetApp/war/js/jszip.js:1496 | the lengths of the code for the header are sent in the order of RFC 1951: the repeats, zero, then outwards from 8 |
| BlockReading.BlockRoundTrip | BudgetApp/war/js/jszip.js:1497-1499 | every consistent block, followed by anything, is read back to the expansion of its tokens; by the two-part reader unless four equal lengths straddle the boundary |
| RawInflate.MakeTable | BudgetApp/war/js/jszip.js:1559 | every table the inflater builds is in range and, for Kraft lengths, decodes the canonical code |
| RawInflate.RawInflate.ReadBits | BudgetApp/war/js/jszip.js:1565 | whenever the reference reader gets a number from the remaining bits, the buffered reader gets the same, leaves the same rest and has fetched no more bytes than needed |
| RawInflate.RawInflate.ReadCode | BudgetApp/war/js/jszip.js:1566 | whenever a code stands in the remaining bits, the table lookup gives its symbol and leaves the same rest, also at the end of the input; it fetches enough for the longest code, which can take the index past the end |
| RawInflate.RawInflate.ReadLengthList | BudgetApp/war/js/jszip.js:1567 | one list of code lengths is read as the reference reader does, with the zero that follows zero runs as previous value |
| RawInflate.RawInflate.ReadTables | BudgetApp/war/js/jszip.js:1567 | the header is read as the two-part reference reader does |
| RawInflate.RawInflate.Expand | BudgetApp/war/js/jszip.js:1571 | the output grows by the ratio of the input to the read index while that is within the input, so at least doubles; past it, the output keeps its length, or growing throws if every symbol has a code |
| RawInflate.RawInflate.PutByte | BudgetApp/war/js/jszip.js:1569 | a literal is appended; it throws, or is lost, exactly when the buffer is full and the read index past the input, and the buffer otherwise has the size that `Grown` gives |
| RawInflate.RawInflate.PutCopy | BudgetApp/war/js/jszip.js:1569 | a match appends its overlapping copy; it throws, or is lost in part, exactly when it does not fit and the read index is past the input |
| RawInflate.RawInflate.DecodeBody | BudgetApp/war/js/jszip.js:1569 | a body that the reference reader expands is expanded to the same bytes; they are in the buffer if and only if the body does not outrun it, and otherwise the decoder stops if every symbol has a code |
| RawInflate.RawInflate.Decompress | BudgetApp/war/js/jszip.js:1561-1573 | for input that the reference reader expands, the output is the expansion if and only if the stream is not cut off, which is a function of the stream; otherwise it is a proper prefix, or an error if every symbol has a code |
| BufferGrowth.Forgets | BudgetApp/war/js/jszip.js:1565-1571 | by the time a buffer overflows it no longer matters how many bytes had been fetched before the body |
| BufferGrowth.FittingBody | BudgetApp/war/js/jszip.js:1569-1571 | a content no longer than the buffer never outruns it |
| BufferGrowth.BlockCutsOff | BudgetApp/war/js/jszip.js:1561-1573 | a stream that holds a block is cut off exactly if the block, followed by its padding, outruns the buffer |
| CutOffStream.LongRunIsCutOff | BudgetApp/war/js/jszip.js:1569-1571 | any bytes that hold one literal with a code of 15 bits and 128 matches of length 258 are a stream of the format with 33025 bytes of content that is cut off |
| CutOffStream.LongRunCanBeHeld | BudgetApp/war/js/jszip.js:1569-1571 | there are such bytes |
| CutOffStream.DecompressLongRun | BudgetApp/war/js/jszip.js:1569-1571 | for them the inflater reports success and gives a proper prefix of the content |
| DeflateRoundTrip.CompressThenDecompress | BudgetApp/war/js/jszip.js:1518-1521 | if no run straddles the header boundary, compressing and decompressing gives the input back if and only if the block does not outrun the output buffer, always so up to 32768 bytes, and otherwise fails or gives a proper prefix; if one does, the result is the content that the two-part reader gets, if it gets one of up to 32768 bytes |
| BitRoundTrip.WriteThenRead | BudgetApp/war/js/jszip.js:1491-1565 | any list of numbers written with widths of 1 to 15 bits is read back with the same widths |
| ZipWriter.ToHex | BudgetApp/war/js/jszip.js:256-263 | the loop of masks and shifts writes the number modulo 2^32, lowest byte first |
| ZipWriter.GenerateZipParts | BudgetApp/war/js/jszip.js:438-515 | the records of a file are the local and the central header of the format with these contents |
| ZipWriter.Uint8ArrayWriter.Append | BudgetApp/war/js/jszip.js:546-566 | appending writes into the array behind what is there, which must have room |
| ZipWriter.Generate | BudgetApp/war/js/jszip.js:705-784 | the bytes are all local records, all central records with their offsets and the end record; the length allocated beforehand is exactly used |
| ZipFormat.LocalsAt | BudgetApp/war/js/jszip.js:728-733 | the offset recorded for the k-th file is where its local record stands |
| ZipReader.LocalInArchive | BudgetApp/war/js/jszip.js:728-733 | every local record stands in the archive at the offset its central record gives |
| ZipFormat.MaskedIff | BudgetApp/war/js/jszip.js:736-754 | the end record contains its signature a second time exactly for the listed values of the three numbers |
| ZipFormat.SmallIsUnmasked | BudgetApp/war/js/jszip.js:736-754 | fewer than 19280 files in less than 80 MB never make the end record ambiguous |
| ZipArchive.AmbiguousFile | BudgetApp/war/js/jszip.js:1824-1835 | an archive of one file has an ambiguous end record if and only if its name and content have 101010226 bytes together |
| ZipArchive.LostArchive | BudgetApp/war/js/jszip.js:2207-2225 | the archive that results from adding a file of 101010225 bytes with a name of one byte cannot be loaded |
| ZipReader.IntAtLittleEndian | BudgetApp/war/js/jszip.js:1714-1722 | a number below 2^31 written with enough bytes is read back, despite the 32-bit shifts |
| ZipReader.DataReader.ReadInt | BudgetApp/war/js/jszip.js:1714-1722 | reading fails exactly at the end of the data and otherwise gives the bytes as a number and moves on |
| ZipReader.DataReader.ReadData | BudgetApp/war/js/jszip.js:1840-1845 | reading fails exactly outside the data and otherwise gives the bytes and moves on |
| ZipReader.DataReader.LastIndexOfSignature | BudgetApp/war/js/jszip.js:1824-1835 | the position found holds the signature and no later one does |
| ZipReader.ReadEndOfCentral | BudgetApp/war/js/jszip.js:2207-2225 | for an archive the end record is read, exactly unless it is ambiguous; then reading fails |
| ZipReader.ReadCentralPart | BudgetApp/war/js/jszip.js:1997-2029 | a central record written for a file is read to that file's fields |
| ZipReader.ReadCentralDir | BudgetApp/war/js/jszip.js:2192-2202 | the loop over signatures reads every central record of an archive and stops at the end record |
| ZipReader.ReadLocalPart | BudgetApp/war/js/jszip.js:1941-1986 | behind a local record the file's content is found |
| ZipReader.ReadLocalFiles | BudgetApp/war/js/jszip.js:2179-2187 | the local records of an archive give back names, contents and directory flags |
| ZipReader.LoadEntries | BudgetApp/war/js/jszip.js:2274-2279 | an archive loads exactly unless it is ambiguous, and gives all its files in order |
| ZipArchive.AddedClosed | BudgetApp/war/js/jszip.js:312-353 | adding a file adds the folders it lies in, so every file has its folder |
| ZipArchive.AddedHasFolders | BudgetApp/war/js/jszip.js:312-366 | for every slash of the name but a first, a last or a repeated one, the name up to it is there as a folder |
| ZipArchive.AddedOnly | BudgetApp/war/js/jszip.js:312-353 | nothing else is added but the file and empty folders that its name begins with, and no other file changes |
| ZipArchive.AddedWithin | BudgetApp/war/js/jszip.js:312-353 | adding a file of a closed archive to a part of it adds no foreign name and changes no other file |
| ZipArchive.JSZip.FileAdd | BudgetApp/war/js/jszip.js:312-353 | the loop through parent folders yields the files with the folders added, every folder that the slashes of the name tell, and the new names from the outermost folder to the file; a file named `__proto__` is not kept |
| ZipArchive.ProtoIsLost | BudgetApp/war/js/jszip.js:350-351 | adding a file named `__proto__` leaves the files as they were |
| ZipArchive.JSZip.Generate | BudgetApp/war/js/jszip.js:705-784 | the archive holds the files in the order in which their names are visited: numbers ascending, then the others as they were added; writing fails exactly if a file is named `hasOwnProperty` |
| ZipArchive.IndexIsNumber | BudgetApp/war/js/jszip.js:716-720 | the names visited as numbers are exactly the decimal forms of the numbers below 2^32 - 1 |
| ZipArchive.PlacedInOrder | BudgetApp/war/js/jszip.js:716-720 | adding a name keeps the order, in which only smaller numbers stand before a number, and adds no other name |
| ZipArchive.PlacedKeeps | BudgetApp/war/js/jszip.js:716-720 | the other names keep their order, and a name that is not a number comes last |
| ZipArchive.JSZip.Load | BudgetApp/war/js/jszip.js:2290-2311 | loading into an empty archive gives the files of the archive written, exactly unless it is ambiguous |
| ZipArchive.GenerateThenLoad | BudgetApp/war/js/jszip.js:705-784 | writing and loading gives the same map of names to contents and directory flags exactly unless a file is named `hasOwnProperty` or the end record is ambiguous; then it fails |
| RowGrouping.ExtractGroups | BudgetApp/war/SlickGrid-master/slick.dataview.js:456-504 | the loops over values, rows and subgroups compute the specified groups |
| RowGrouping.CalculateTotals | BudgetApp/war/SlickGrid-master/slick.dataview.js:524-545 | inner groups first, every group gets its totals if there is an aggregate and there are rows, subgroups or a demand for empty totals; `HeadersAreTrue` says of which rows they are |
| RowGrouping.FinalizeGroups | BudgetApp/war/SlickGrid-master/slick.dataview.js:547-566 | the backward loop sets collapsed state and title of every group and drops the rows of outer groups |
| RowGrouping.FlattenGroupedRows | BudgetApp/war/SlickGrid-master/slick.dataview.js:568-590 | the loop yields headers, contents unless collapsed, and totals, group after group |
| RowGrouping.GroupsDescribe | BudgetApp/war/SlickGrid-master/slick.dataview.js:456-504 | the extracted groups have distinct values, cover every row, and each holds exactly the rows under its key |
| RowGrouping.ShownUnderPath | BudgetApp/war/SlickGrid-master/slick.dataview.js:456-590 | for every path of values, the rows shown are exactly those with these values in their order, or none if a group on the path is collapsed |
| RowGrouping.GroupingConservesRows | BudgetApp/war/SlickGrid-master/slick.dataview.js:456-590 | as a multiset, the data rows shown are the rows outside collapsed groups |
| RowGrouping.HeadersAreTrue | BudgetApp/war/SlickGrid-master/slick.dataview.js:547-590 | every header shown counts the rows under its key, shows the state of its key and lies in no collapsed group; its totals are the aggregate of exactly these rows, and they have a row if and only if they are to be shown |
| RowGrouping.GroupsHaveHeaders | BudgetApp/war/SlickGrid-master/slick.dataview.js:568-590 | every group with rows outside collapsed groups has its header |
| RowGrouping.ToggleHolds | BudgetApp/war/SlickGrid-master/slick.dataview.js:415-418 | expanding or collapsing a key sets the state of exactly the groups of the level whose values join to it, whatever the default of the level |
| RowGrouping.JoinedApart | BudgetApp/war/SlickGrid-master/slick.dataview.js:474 | values whose names differ and contain no colon join to different keys |
| RowGrouping.JoinedAlike | BudgetApp/war/SlickGrid-master/slick.dataview.js:474 | values with names that contain the delimiter can join to the same key |
| RowGrouping.AllSetHolds | BudgetApp/war/SlickGrid-master/slick.dataview.js:388-399 | expanding or collapsing all groups, or those of one level, sets exactly their states whatever was toggled |
| RowGrouping.AllSetShows | BudgetApp/war/SlickGrid-master/slick.dataview.js:388-399 | with all groups collapsed no row is shown, with all expanded every row is |
| RowDiffs.GetRowDiffs | BudgetApp/war/SlickGrid-master/slick.dataview.js:741-778 | the positions reported are exactly those in range that are new or differ, in rising order |
| RowDiffs.ReportedIff | BudgetApp/war/SlickGrid-master/slick.dataview.js:741-778 | the positions in range are those from the first hint on and before the second one unless it is 0 |
| RowDiffs.DirtyUnlessAlike | BudgetApp/war/SlickGrid-master/slick.dataview.js:760-773 | the comparison misses content changed under an unchanged id, and nothing else; it finds only rows that look different, totals and items marked as updated |
| RowDiffs.RedrawnMirrors | BudgetApp/war/SlickGrid-master/slick.dataview.js:741-778 | redrawing the reported rows gives the new rows exactly if no other row differs; without hints, exactly if no item changed silently |
| DataViews.UncompiledFilter | BudgetApp/war/SlickGrid-master/slick.dataview.js:680-690 | the loop selects the items that pass, in order |
| DataViews.UncompiledFilterWithCaching | BudgetApp/war/SlickGrid-master/slick.dataview.js:692-706 | with a cache that knows only passing items the selection is the same and the cache stays so |
| DataViews.ValidPageStarts | BudgetApp/war/SlickGrid-master/slick.dataview.js:727-735 | a page past the end becomes the one in which the rows end, other pages stay; the page begins within the rows, so the second recalculation never happens |
| DataViews.PageShows | BudgetApp/war/SlickGrid-master/slick.dataview.js:727-736 | page p shows max(0, min(size, n - p*size)) of n items, from item p*size on and in order |
| DataViews.ItemOnPage | BudgetApp/war/SlickGrid-master/slick.dataview.js:733 | item k stands at k % size on page k / size |
| DataViews.PagesMakeItems | BudgetApp/war/SlickGrid-master/slick.dataview.js:733 | the pages up to the last, one after the other, are the items |
| DataViews.LastPageHolds | BudgetApp/war/SlickGrid-master/slick.dataview.js:138-143 | the last page begins before the last row and ends behind it |
| DataViews.DataView.GetFilteredAndPagedItems | BudgetApp/war/SlickGrid-master/slick.dataview.js:708-739 | with honest hints the filtered items are a plain filter of the items; the page is the corrected one and shows its part of them, in order |
| DataViews.DataView.Recalc | BudgetApp/war/SlickGrid-master/slick.dataview.js:780-807 | the rows are the grouped page of the filtered items, and the differences are those to the old rows |
| DataViews.DataView.RecalcTwice | BudgetApp/war/SlickGrid-master/slick.dataview.js:815-824 | the branch for a page past the end is never taken, and a grid that followed still follows |
| DataViews.DataView.Refresh | BudgetApp/war/SlickGrid-master/slick.dataview.js:809-840 | unless suspended: rows recalculated, hints consumed; with honest hints all is fresh, and the next hints are compared with this state; a grid that followed the notices still shows the rows |
| DataViews.DataView.EndUpdate | BudgetApp/war/SlickGrid-master/slick.dataview.js:86-89 | ending a suspension brings everything up to date |
| DataViews.DataView.SetItems | BudgetApp/war/SlickGrid-master/slick.dataview.js:125-134 | items are replaced and numbered exactly if their ids are unique |
| DataViews.DataView.SetPagingOptions | BudgetApp/war/SlickGrid-master/slick.dataview.js:136-149 | the page is limited by the last page, then corrected by the refresh |
| DataViews.LostPage | BudgetApp/war/SlickGrid-master/slick.dataview.js:142-144 | a page asked for without page size and rows is not a number, and setting a page size leaves it so: no rows are shown |
| DataViews.LostPageIff | BudgetApp/war/SlickGrid-master/slick.dataview.js:136-149 | the page number is lost if and only if a page is asked for that has neither a size nor rows, or it was lost and neither a page number nor the size 0 is given |
| DataViews.EmptyPage | BudgetApp/war/SlickGrid-master/slick.dataview.js:727-736 | the page shown of some items is empty if and only if its number is lost, it begins where they end, or it was past them and they fill whole pages |
| DataViews.DataView.Sort | BudgetApp/war/SlickGrid-master/slick.dataview.js:156-169 | the items are rearranged as the sort says, reversed twice when descending, and renumbered |
| DataViews.SortedByStable | BudgetApp/war/SlickGrid-master/slick.dataview.js:156-166 | with a stable sort the items rise or fall as asked, and those the comparer holds equal keep their order either way |
| DataViews.DataView.SetFilter | BudgetApp/war/SlickGrid-master/slick.dataview.js:208-215 | a new filter keeps the grid following |
| DataViews.DataView.SetGrouping | BudgetApp/war/SlickGrid-master/slick.dataview.js:221-250 | a new grouping forgets toggles and keeps the grid following |
| DataViews.DataView.ExpandCollapseGroup | BudgetApp/war/SlickGrid-master/slick.dataview.js:415-418 | toggling one group keeps the grid following |
| DataViews.DataView.ExpandCollapseAllGroups | BudgetApp/war/SlickGrid-master/slick.dataview.js:388-399 | all groups, or those of one level, get the state; their toggles are forgotten; the grid keeps following |
| DataViews.DataView.UpdateItem | BudgetApp/war/SlickGrid-master/slick.dataview.js:326-336 | an item is replaced and marked, exactly if the id is known and matches |
| DataViews.DataView.InsertItem | BudgetApp/war/SlickGrid-master/slick.dataview.js:338-342 | an item is inserted where `splice` puts it, also from the end; the call fails exactly for a negative position; the index by id stays right exactly if the position is one of the items' or the end and the id is new |
| DataViews.DataView.AddItem | BudgetApp/war/SlickGrid-master/slick.dataview.js:344-348 | an item is appended and numbered; the index by id stays right exactly if the id is new |
| DataViews.DataView.DeleteItem | BudgetApp/war/SlickGrid-master/slick.dataview.js:350-359 | an item is removed and the later ones renumbered, exactly if the id is known |
| GridNavigation.FindFirstFocusableCell | BudgetApp/war/SlickGrid-master/slick.grid.js:2790-2799 | finds the first stop of a row, if any |
| GridNavigation.FindLastFocusableCell | BudgetApp/war/SlickGrid-master/slick.grid.js:2801-2811 | finds the last stop of a row, if any |
| GridNavigation.GotoRight | BudgetApp/war/SlickGrid-master/slick.grid.js:2813-2831 | leads to the nearest stop on the right of any position |
| GridNavigation.GotoLeft | BudgetApp/war/SlickGrid-master/slick.grid.js:2833-2859 | leads to the nearest stop on the left, but only if the row has a stop at or right of the position |
| GridNavigation.GotoNext | BudgetApp/war/SlickGrid-master/slick.grid.js:2907-2936 | leads to the next stop in row-major order from any position, or to the first |
| GridNavigation.GotoPrev | BudgetApp/war/SlickGrid-master/slick.grid.js:2938-2973 | leads where `PrevStop` says, which is the previous stop on every stop |
| GridNavigation.TabOrderMembers | BudgetApp/war/SlickGrid-master/slick.grid.js:2790-2831 | the stops are exactly the focusable cells that begin a span |
| GridNavigation.RowsFromIncrease | BudgetApp/war/SlickGrid-master/slick.grid.js:2907-2936 | the stops are in strict row-major order, so each occurs once |
| GridNavigation.TabFollowsOrder | BudgetApp/war/SlickGrid-master/slick.grid.js:2907-2936 | Tab enters at the first stop, goes from each to the following one and leaves after the last |
| GridNavigation.ShiftTabUndoesTab | BudgetApp/war/SlickGrid-master/slick.grid.js:2938-2973 | on the stops Shift-Tab takes back Tab and Tab takes back Shift-Tab; only the first stop has no predecessor |
| GridNavigation.TabThrough | BudgetApp/war/SlickGrid-master/slick.grid.js:2907-2936 | pressing Tab until it leads nowhere visits all stops once, in order, and ends |
| GridNavigation.ShiftTabEntersAtLastStop | BudgetApp/war/SlickGrid-master/slick.grid.js:2938-2949 | entering with Shift-Tab leads to the last stop if and only if the corner cell is a stop, or cannot be active and the last row has none |
| GridNavigation.ShiftTabFromAnywhere | BudgetApp/war/SlickGrid-master/slick.grid.js:2833-2859 | from any position Shift-Tab leads to the last stop before it if and only if the row has none on the left or one at or right of it |
| GridNavigation.ShiftTabMissesLastRow | BudgetApp/war/SlickGrid-master/slick.grid.js:2938-2949 | a grid in which Tab finds a stop and Shift-Tab none |
| GridNavigation.GotoDown | BudgetApp/war/SlickGrid-master/slick.grid.js:2861-2882 | leads to the nearest row below whose span over the remembered column can be active |
| GridNavigation.GotoUp | BudgetApp/war/SlickGrid-master/slick.grid.js:2884-2905 | the same upwards |
| GridNavigation.UpUndoesDown | BudgetApp/war/SlickGrid-master/slick.grid.js:2861-2905 | moving up takes back a move down exactly if the starting row could be landed on |
| ColumnDragging.ColumnHeaders.Leeways | BudgetApp/war/SlickGrid-master/slick.grid.js:734-767 | the loops add up how much the columns of a range can shrink and stretch |
| ColumnDragging.ColumnHeaders.DragStart | BudgetApp/war/SlickGrid-master/slick.grid.js:721-779 | the range of the mouse comes from the four leeways |
| ColumnDragging.ColumnHeaders.Drag | BudgetApp/war/SlickGrid-master/slick.grid.js:780-847 | at every mouse position both sides absorb the move: totals change by it, limits hold, and a column further out moves only after the nearer ones have reached their limit |
| ColumnDragging.RoomLeft | BudgetApp/war/SlickGrid-master/slick.grid.js:785-797 | what a column cannot take of the move, the columns further out can |
| ColumnDragging.DragConservesWidth | BudgetApp/war/SlickGrid-master/slick.grid.js:780-847 | under `forceFitColumns` the total width stays and every resizable column is within its limits |
| ColumnDragging.DragForgetsHistory | BudgetApp/war/SlickGrid-master/slick.grid.js:780-847 | the widths are determined by the mouse position, not by earlier positions |
| ColumnAutosize.ShrinkColumns | BudgetApp/war/SlickGrid-master/slick.grid.js:1052-1074 | the loop ends; no column goes below its minimum; the result fits or all are at their minimum; it is above the available width less one pixel for each resizable column; and the guard against looping never fires; the widths come from a sequence of proportional passes |
| ColumnAutosize.ShrinkPass | BudgetApp/war/SlickGrid-master/slick.grid.js:1054-1068 | every pass takes at least one pixel and, in all, less than the excess plus one pixel for each column; a column before which the widths are still too large loses at least one pixel of its room r, at most max(1, e*r/s) for excess e and total room s, and all its room or more than e*r/s - 1; the others keep their width |
| ColumnAutosize.GrowPass | BudgetApp/war/SlickGrid-master/slick.grid.js:1078-1089 | a column that can grow and before which the width is not filled gets what it lacks of its part of the available width, rounded down, but at least one pixel and no more than up to its maximum; the others keep their width |
| ColumnAutosize.GrowColumns | BudgetApp/war/SlickGrid-master/slick.grid.js:1076-1095 | the loop ends with the width filled or no column able to grow, too wide by at most one pixel for each resizable column and, if columns were shrunk, by what the shares of the old widths spill |
| ColumnAutosize.AutosizeColumns | BudgetApp/war/SlickGrid-master/slick.grid.js:1024-1104 | columns that cannot be resized keep their width, minimums hold, and the width is filled or nothing can grow; columns too wide at first end at their minimums or exceed the width by a stated amount; shrinking passes and then growing passes, all in proportion, lead from the old widths to the new |
| ScrollPaging.PageCount | BudgetApp/war/SlickGrid-master/slick.grid.js:1646-1652 | a canvas at the limit has at least 100 pages |
| ScrollPaging.OffsetsFallBehind | BudgetApp/war/SlickGrid-master/slick.grid.js:1646-1652 | the offsets of neighbouring pages are no further apart than the pages, and the last offset is what the canvas lacks |
| ScrollPaging.OnCanvas | BudgetApp/war/SlickGrid-master/slick.grid.js:1336-1344 | the page of a position has an offset between 0 and what the canvas lacks, and leaves the position on the canvas |
| ScrollPaging.Viewport.ScrollTo | BudgetApp/war/SlickGrid-master/slick.grid.js:1336-1358 | scroll position plus offset is the position asked for, as far as the rows reach, if and only if the position seen last is not the wanted one or the present one is; always so for a settled grid; the page is negative when the rows end above the bottom of the viewport |
| ScrollPaging.Viewport.HandleScroll | BudgetApp/war/SlickGrid-master/slick.grid.js:1964-1998 | after a scroll event the grid is settled; a short way keeps rows in place, a jump ends on the canvas, and one to the end of the canvas shows the last rows |
| ScrollPaging.Viewport.ScrollRowIntoView | BudgetApp/war/SlickGrid-master/slick.grid.js:2712-2726 | a settled grid shows the row wanted, and does not move if it was shown |
| ScrollPaging.StaleScroll | BudgetApp/war/SlickGrid-master/slick.grid.js:1336-1358 | a grid that was emptied and filled again is sent to 500 and stays at 0 |
| ScrollPaging.Viewport.UpdateRowCount | BudgetApp/war/SlickGrid-master/slick.grid.js:1616-1668 | a new number of rows sends the viewport to its position if that is still in range, and otherwise to the bottom; it lands there under the condition of `ScrollTo`; a position taken over from the browser is not noted |
| ScrollPaging.Viewport.RowsStayInPlace | BudgetApp/war/SlickGrid-master/slick.grid.js:1328-1334 | a row is found where it is drawn, and its place in the viewport does not depend on the page |
| Fractions.Convergents | BudgetApp/war/js/xlsx.js:72-86 | the loop with the wrapping conversion and the threshold, given up after some number of rounds, is `Loop` |
| Fractions.EndReached | BudgetApp/war/js/xlsx.js:76-88 | where the denominator has reached the bound, the convergent chosen is reduced, nearer than 1/(Q*D), and no fraction with a denominator up to D >= 2 is nearer |
| Fractions.EndVanishes | BudgetApp/war/js/xlsx.js:80-88 | where the rest has vanished, the convergent is as good as exact; one that is too large is dropped for one that is nearer than 1/(Q*D) and best up to D |
| Fractions.EndWrapped | BudgetApp/war/js/xlsx.js:76-88 | with a quotient of 2^31 or more the loop never ends if and only if the next denominator is below the bound and the rest at most 10^10, and otherwise the result is good exactly if `Meant` says so |
| Fractions.WrittenGood | BudgetApp/war/js/xlsx.js:89-91 | sign and mixed form keep a fraction reduced and as near as it is |
| Fractions.Frac | BudgetApp/war/js/xlsx.js:72-92 | for every number and bound: the loop ends unless the continued fraction is `Endless`; the fraction is reduced, with denominator 1..D, near the number and proper in its mixed form, if and only if it is `Meant`; whenever the expansion goes beyond D it is nearer than 1/(Q*D), and for D >= 2 no p/q with q up to D has a smaller |q*x - p| |
| Fractions.LastIsBest | BudgetApp/war/js/xlsx.js:76-88 | a convergent is a best approximation below the denominator that would follow it |
| Fractions.PreviousIsBest | BudgetApp/war/js/xlsx.js:76-88 | so is the one before it below its denominator |
| Fractions.BestForOne | BudgetApp/war/js/xlsx.js:76-88 | with the bound 1 the result is the whole part, which is best if and only if the rest is at most a half |
| Fractions.FracIsGood | BudgetApp/war/js/xlsx.js:72-92 | the same of the function that the method computes |
| Fractions.LargeNumber | BudgetApp/war/js/xlsx.js:76-86 | numbers from 2^31 to below 10737418240 never end, larger ones give 1/0, or infinity in the mixed form |
| Fractions.LoopsForever | BudgetApp/war/js/xlsx.js:235 | 3000000000 with the bound 9 and 1/3000000000 with any bound above 1 never end |

## Left out

- Stored and fixed-code blocks and streams of several blocks in the inflater: the compressor writes one final dynamic block; other block types end with the status `Unsupported`.
- Lazy matching in LZ77: JSZip never asks for it.
- The branches of `jszip.js` for engines without typed arrays, and calls into `TextEncoder`, `Buffer` and `Blob`.
- RawInflate.RawInflate.Decompress: takes a bound on the number of decoding steps, because code lengths read from a corrupt stream may decode symbols without consuming bits for ever; for every stream the reference reader accepts, eight steps for each input byte are proved to suffice.
- RawInflate.RawInflate.Expand: symbol counts and lengths are unbounded integers; the output length would wrap only beyond 4 GB.
- Lz77Matching.Lz77: counts are unbounded integers, where the source's 32-bit counters would wrap for inputs of 4 GB.
- Fractions.Frac: works on exact real numbers, so floating point rounding is not modelled; it takes a bound on the number of rounds, and D + 4 rounds are proved to suffice wherever the loop ends.
- DEFLATE-compressed entries of an archive: the container is modelled for stored files, the compressor on its own.
- ZIP64 records, encryption and the checksum test: the writer never emits the first two and the loader skips the third by default; a record that would need ZIP64 counts as a failure.
- UTF-8: names are encoded and decoded by two functions of which only that decoding undoes encoding is assumed.
- ZipReader.ReadLocalPart: reads the content at once, where the source reads it on first use; for archives as written there is no difference.
- Removing files from an archive, and archives seen from a sub-folder.
- RowGrouping.ExtractGroups: group values are integers that stand for the property names by which the source tells them apart; that a group shows the first of several values with the same name is not modelled. Groups are values that the methods rebuild, where the source updates shared objects; a row held by a caller would see later changes.
- RowGrouping.CalculateTotals: totals are a function of the rows of a group; aggregating subgroups (`aggregateChildGroups`), which fails on the innermost level, is not modelled.
- RowDiffs.DirtyUnlessAlike: headers are compared as `Group.equals` does, which ignores their level and key.
- DataViews.DataView.Refresh: that `items`, `filteredItems` and `rows` may be one array is not modelled; nor are compiled filters, which are text rewriting of JavaScript.
- DataViews.DataView.Sort: what the engine's sort does is a parameter of which only that it rearranges is assumed, and for `SortedByStable` that it is stable; `fastSort` and `reSort` do the same with other comparers.
- `rowsById`, `mapIdsToRows` and the selection helpers of the data view: look-ups without effect on the rows.
- ColumnDragging.ColumnHeaders.Drag: assumes nothing of the widths at the start, but promises the limits only if the widths were within them then.
- ColumnAutosize.AutosizeColumns: no column with `autoWidth`; the bound on the excess needs more available pixels than resizable columns; and it does not promise maximum widths, because the grow loop tests them against the width before the first pass.
- ScrollPaging.Viewport.ScrollTo: the position that the browser keeps, which can differ from the one assigned, is a parameter of the scroll event; the direction of scrolling and the rendering are left out.
- BlockReading.BlockRoundTrip: that a misread header changes the content is not stated; a block whose distances are never used can survive it.
- `slick.grid.frozen.js`: the same code with panes added.
- Rendering, editors, plugins, servlets, XML parsing and number formatting.
