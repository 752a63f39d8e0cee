# Verified model of the offline heap-file decoder

The program reads PostgreSQL heap files without a server: it deforms tuples, follows and decompresses
TOASTed values, asks the commit log whether a transaction committed, and prints the values, JSONB and
numeric among them. This project models that decoding in Dafny and proves that it gives back what was
stored. `dafny verify dfyconfig.toml` checks it all.

Each decoder is proved against a meaning that does not mention it. Where the program has only the reading
half of a format, the writing half is written here as a ghost function, and the main theorem is the round
trip; where writer and reader share a definition, its own contract or `KnownBytes` says in plain numbers what it
is. Objects that the C code updates in place are classes; loops are loops; each such method is proved
equal to a function of the old state, and the theorems are about those functions.

| file | what it is about |
|---|---|
| `JsonbFormat`, `JsonbPack` | the packed container format, entry arithmetic, and the writer's half |
| `JsonbTokens`, `JsonbIterator` | the token stream of a document and the explicit-stack walk that delivers it |
| `JsonbRender`, `JsonbPrinter`, `JsonReader` | the text of a document, the printer's state machine, an independent reader of the text |
| `JsonLoss` | what the text tells apart and what it loses |
| `JsonbDatum` | a jsonb column from pages to text: scanning, detoasting, walking and printing composed |
| `Pglz` | the decompressor and its doubling block copy |
| `Varlena`, `ToastCache`, `Detoast`, `StoredForms` | varlena headers, the chunk cache, detoasting, every stored form of a value |
| `HeapPage` | line pointers and tuple headers on a page, and which intact tuples are accepted |
| `ToastScan` | the scan of a toast table: pages to tuples to chunks in the cache |
| `Tuples`, `TupleDeform` | alignment, padding and null bitmaps; deforming a tuple that was laid out |
| `NumericText`, `NumericValue` | base-10000 digits to decimal text, and what that text is worth |
| `JulianDate` | `j2date` against the Gregorian calendar |
| `Xact` | the commit-log page cache |
| `StringInfo`, `SchemaBuilder`, `Csv` | the growable buffer, the schema builder, the CSV writer |
| `KnownBytes` | stored values with every byte spelt out |

Conventions: a byte is a number below 256, and masks and shifts are remainders and quotients by powers of
two; a pointer into a buffer is an offset; unsigned 32-bit arithmetic is written with its wrap-around;
`exit(1)` is the outcome `Exit`. `Undefined` stands for runs in which the C code reads past a buffer or
through a null pointer.

Places where the code differs from what its names or comments say:

* The second part of the transaction cache's key is called `pageindex`, but `pg_xact_lookup` passes the slot
  of the transaction within its page (pg_xact.c:187-192, 205-210). Two transactions on different pages of a
  segment can then share a key, and the second is told the status of the first. The key is a parameter here:
  with the page as key the cache is always right; with the slot it is right exactly under the condition of
  `Xact.SlotKeyExact`, and `Xact.SlotKeyExample` is the smallest failing run.
* The printer writes nothing for a number (pg_string.c:775-779) and cuts a string at its first zero byte.
  Documents without either are told apart by their texts and read back; every document with one shares its
  text with a different document (`JsonLoss.CleanTextsDiffer`, `JsonLoss.TextShared`).
* `decode_tuple` counts the tuple header with the size of its C struct, 24 bytes (pg_data.c:155-160), although
  23 bytes precede the null bitmap and `SizeofHeapTupleHeader` says so (pg_heap.h:258). It therefore refuses
  intact tuples whose null bitmap just fills the last word of the header, among them every tuple of one to eight
  attributes that holds a null; it also refuses tuples without attribute data. `HeapPage.RowDecodes` gives the
  exact condition.
* `j2date` is right exactly from Julian day -32044 on; below it the negative day, made unsigned, stays a huge
  number.
* A CSV file with a header has an empty line behind the names, because the last name has already ended the line
  (pg_page.c:202-207); `Csv.FileReads` gives the table that is read back.

## Model

| member | source | states |
|---|---|---|
| JsonbDatum.JsonbToText | pg_type.c:256-265 | For every document and every stored form (short, plain, compressed, external, external compressed with chunks in any order), the text printed is the document's rendering, and a reader gives the document back exactly if it holds no number and no zero byte |
| JsonbDatum.PagesToText | pg_page.c:384-423 | Starting from the bytes of the toast table's pages as they were written, line pointers and chunk tuples in whatever order and among those of other values: after the scan, the text printed for the document's datum is its rendering |
| JsonbDatum.RenderZeroFree | pg_string.c:380-419 | No rendering contains a zero byte, so the final copy of the C string loses nothing |
| JsonbPrinter.JsonbToCStringWorker | pg_string.c:144-252 | For every packed document the printer appends exactly the recursive rendering to what the buffer held, and it exits only when the buffer limit is near |
| JsonbPrinter.PrintTokens | pg_string.c:165-249 | The printer's loop turns the iterator's tokens into their text; when the iterator is done, `level` is 0 and no iterator is left |
| JsonbPrinter.AfterKey | pg_string.c:207-217 | After a key the next token is its value, printed at once, or the start of a container, left to the next turn of the loop (`redo_switch`) |
| JsonbPrinter.PutToken | pg_string.c:171-245 | One turn of the switch writes the token's separator and body and updates `first`, `raw_scalar` and `level` as the token requires |
| JsonbPrinter.Cursor.Next | pg_string.c:165-165 | One call of the iterator takes the first token off the stream that is still to come; done if and only if the stream is empty |
| JsonbPrinter.JsonbToCString | pg_string.c:254-256 | In a new buffer the text is the rendering, whenever rendering and estimate stay below the buffer limit |
| JsonbPrinter.EscapeJson | pg_string.c:379-419 | Appends the quoted and escaped form of a C string, and gives up only near the buffer limit |
| JsonbPrinter.PutEscapedValue | pg_string.c:764-789 | Appends the rendering of the scalar the value denotes; a number has the empty rendering |
| JsonbPrinter.Pnstrdup | pg_string.c:258-270 | Copies the bytes before the first zero byte, at most `len` |
| JsonbRender.DocumentPrints | pg_string.c:144-252 | For every document, raw scalars included, the printer's separator and bracket flags run over its token stream give the recursive rendering |
| JsonbRender.ContainerPrints | pg_string.c:173-242 | A nested container prints as its separator and its rendering, and leaves `first` false for what follows |
| JsonbRender.PrintsBoth | pg_string.c:165-249 | Printing one stream after another prints the two texts after one another, through any flags |
| JsonReader.PrintedTextFaithful | pg_string.c:144-252 | A JSON reader (RFC 8259 sections 2 to 7, numbers left out) applied to the printed text returns the document if and only if it holds no number and no zero byte |
| JsonLoss.CleanTextsDiffer | pg_string.c:144-252 | Two documents without numbers and zero bytes that print the same text are the same |
| JsonLoss.TextShared | pg_string.c:258-270 | Every document with a zero byte in a string or key, or with a number (pg_string.c:775-779), prints the same text as some different document |
| JsonLoss.AlteredRenders | pg_string.c:764-789 | A byte more in every number, or behind the first zero byte of a string, changes no text |
| JsonLoss.AlteredSame | pg_string.c:764-789 | That change leaves a document as it is if and only if it holds no number and no zero byte |
| JsonReader.DocumentReads | pg_string.c:173-245 | The printed text of every number-free document is read back to it, strings cut at their first zero byte |
| JsonReader.EscapeAllReads | pg_string.c:380-419 | Unescaping undoes `escape_json` for every byte string and whatever follows the closing quote |
| JsonReader.ValueReads | pg_string.c:173-245 | Read in front of any further text, a rendered value gives the value and leaves that text |
| JsonReader.MembersRead | pg_string.c:198-218 | The pairs from any index on are read back as their keys and values |
| JsonReader.TruncatedSame | pg_string.c:258-270 | Cutting every string at its first zero byte changes a document exactly if some string holds one |
| JsonbIterators.JsonbIteratorNext | pg_string.c:475-590 | Every call delivers the first token of what the whole chain still has to deliver; the chain stays sound and its length is the nesting depth |
| JsonbIterators.JsonbIterator.Begin | pg_string.c:484-494 | The first step of a container delivers its opening token and sets both running offsets right |
| JsonbIterators.JsonbIterator.TakeElement | pg_string.c:496-509 | The element fetched is the next child, and `curDataOffset` is again the offset of the child at `curIndex` |
| JsonbIterators.JsonbIterator.TakeKey | pg_string.c:544-563 | The key fetched is the next one, always a string |
| JsonbIterators.JsonbIterator.TakeValue | pg_string.c:565-577 | The value fetched belongs to the key just delivered, and `curDataOffset` and `curValueOffset` are again the offsets of children `curIndex` and `curIndex + nElems` |
| JsonbIterators.JsonbIterator.TakeChild | pg_string.c:503-523 | A scalar child is delivered as its token, a container as its whole token stream still to come |
| JsonbIterators.NextEnd | pg_string.c:592-599 | At the end of a container the parent chain loses one iterator and the stream its closing token |
| JsonbIterators.EnterChild | pg_string.c:513-515 | A nested container is pushed and begun; its tokens come before everything the parents still deliver |
| JsonbIterators.NextChild | pg_string.c:511-524 | An element or value is delivered or entered, the chain and the remaining stream staying right |
| JsonbIterators.IteratorFromContainer | pg_string.c:106-142 | The header is decoded to the container's kind, count and data position |
| JsonbIterators.FillJsonbValue | pg_string.c:617-659 | The value filled in is the child at the given index: scalar contents, or position and size of a packed container |
| JsonbTokens.TokensBracketed | pg_string.c:475-590 | The token stream of every container returns to its depth and never goes below it |
| JsonbTokens.TokensAnswered | pg_string.c:205-217 | In every token stream each key is followed at once by its value or the start of it |
| JsonbFormat.GetJsonbOffset | pg_string.c:601-615 | For any mix of length and end-offset entries the offset is the sum of the lengths before the child |
| JsonbFormat.GetJsonbLength | pg_string.c:661-676 | The length is the child's, whether its entry holds a length or an end offset |
| JsonbFormat.IntAlign | pg_string.c:655-657 | The next multiple of four |
| JsonbFormat.AdvanceOffset | pg_string.h:303-310 | Advancing the offset of a child gives the offset of the next one |
| JsonbFormat.EntryMeaning | pg_string.h:263-276 | What the offset-or-length field of an entry says about the offsets around its child |
| JsonbFormat.HeaderFields | pg_string.h:97-106 | Count, kind and raw-scalar flag are recovered from the header word |
| JsonbPack.PackIsPacked | pg_string.h:97-106 | The bytes the writer lays out for a document, for any choice of which entries hold offsets, are a packed container of it, at any position in memory |
| JsonbPack.KidAt | pg_string.c:636-657 | The same for one child behind its alignment padding |
| Pglz.DecodeEncoded | pg_lzcompress.c:24-146 | Decompressing the encoding of any token list with its exact length and the completeness test gives the byte-by-byte expansion, all input used |
| Pglz.DecompressPrefix | pg_lzcompress.c:137-146 | A smaller `rawsize` without the completeness test gives exactly the matching prefix of a successful larger decompression |
| Pglz.AcceptedIsTokens | pg_lzcompress.c:24-135 | Whatever input is accepted, the output is the expansion of some token list, cut at `rawsize` |
| Pglz.PglzDecompress | pg_lzcompress.c:10-147 | For any input bytes it terminates and returns -1 or the length of the decoder function's output; accepted or not, it writes exactly the bytes that function produces before it ends and changes nothing else, so neither result nor memory depends on what lies behind the source |
| Pglz.DecodeItem | pg_lzcompress.c:33-134 | One item consumes its source bytes and extends the output as the decoder function does, or the input is corrupt and the output stays as it is |
| Pglz.Decompress | pg_lzcompress.c:137-146 | An accepted run has used all input or filled the output, and with the completeness test both |
| Pglz.CopyBackRepeats | pg_lzcompress.c:70-81 | A match of any length writes bytes each equal to the one its offset before, and keeps what was there |
| Pglz.CopyMatch | pg_lzcompress.c:82-119 | The doubling block copy equals copying one byte at a time, source and target overlapping or not |
| Pglz.CopyBlock | pg_lzcompress.c:88-90 | One non-overlapping block copy, after which the last `off` bytes repeat |
| Pglz.ReadTag | pg_lzcompress.c:46-53 | The tag read is the one of the source, and `next` lies past the end if and only if some tag byte did |
| Pglz.DoublingStep | pg_lzcompress.c:93-116 | After one block, copying on from twice the offset makes the same copy |
| Pglz.CopyBackBlock | pg_lzcompress.c:84-90 | A byte-by-byte copy no longer than its offset is one block move |
| Pglz.CopyBackDouble | pg_lzcompress.c:93-116 | Once the last block repeats, copying from one or two offsets back is the same |
| Pglz.RunTokens | pg_lzcompress.c:24-135 | The decoder in the middle of a control byte reads off the rest of any encoded token list |
| Pglz.RunPrefix | pg_lzcompress.c:24-135 | The prefix property from any state of the decoder |
| Pglz.RunReadsTokens | pg_lzcompress.c:24-135 | The token list behind any accepted input, from any state of the decoder |
| StoredForms.DetoastRestores | pg_detoast.c:145-225 | In whatever form a payload is stored, detoasting returns a datum with a four-byte header, the right length and exactly the payload |
| StoredForms.ExternalDetoasts | pg_detoast.c:21-57 | A plain external value whose chunks were seen in any order, among those of other values, is fetched back |
| StoredForms.ExternalCompressedDetoasts | pg_detoast.c:148-162 | So is a compressed external value, decompressed after its chunks are put together |
| StoredForms.InlineCompressedDetoasts | pg_detoast.c:201-208 | A compressed inline datum of any token list detoasts to the expansion |
| StoredForms.ShortDetoasts | pg_detoast.c:209-222 | A short-header datum becomes a plain one of the same payload |
| StoredForms.PlainDetoasts | pg_detoast.c:224-224 | A plain datum is returned as it is |
| StoredForms.SeenAssembles | pg_detoast.c:82-119 | Chunks seen in any order assemble to the bytes that were cut |
| StoredForms.ShortExtracted | pg_page.c:188-192 | A chunk's data attribute with a short header gives its payload |
| StoredForms.LongExtracted | pg_page.c:188-192 | So does one with a long header |
| HeapPage.RowDecodes | pg_data.c:145-163 | A tuple that PostgreSQL has laid out anywhere on a page is decoded to its attribute count, null flag, bitmap and data; it is refused exactly if it has no attribute data or its null bitmap is one byte longer than a multiple of eight |
| HeapPage.RowRead | pg_data.c:7-95 | From page bytes to values: every row that is not refused is deformed to its values and null flags |
| HeapPage.FewAttributesWithNull | pg_data.c:154-163 | No row of one to eight attributes with a null among them is ever decoded |
| HeapPage.HeaderRead | pg_heap.h:60-81 | Attribute count, null flag and header size are read from the fixed header, whatever the other flag bits |
| HeapPage.ItemRead | pg_heap.h:115-120 | A line pointer written with fifteen bits of offset, two of flags and fifteen of length is read as these three |
| HeapPage.LinesRead | pg_page.c:408-412 | With `pd_lower` written right behind `n` line pointers, `n` of them are read |
| HeapPage.AlignGap | pg_data.c:154-159 | The header PostgreSQL writes is as long as the code demands for all bitmap sizes but one in eight |
| ToastScan.ScanTable | pg_page.c:408-423 | Scanning all pages of a toast table, described by the line pointers and tuples written on them, adds the chunks of their tuples to the cache, page after page |
| ToastScan.ScanPage | pg_page.c:408-423 | One page: every line pointer that was written is read, and exactly the chunks of the tuples laid out where they point join the cache, in page order, unused, empty and refused items adding nothing |
| ToastScan.ExtractTuple | pg_page.c:307-395 | One used item: its chunk joins the cache unless the item is empty or its tuple refused |
| ToastScan.AddTuple | pg_page.c:384-389 | One accepted tuple: deform, extract, add |
| ToastScan.ItemYields | pg_data.c:145-195 | The tuple PostgreSQL forms for a chunk, at any line pointer, is accepted and yields the chunk |
| ToastScan.ExtractToastChunk | pg_page.c:181-194 | The chunk is the one made of the tuple's three attributes as a full deform gives them |
| ToastScan.LaysYields | pg_page.c:181-194 | A tuple laid out for a chunk, its data behind a short or a long header, gives back that chunk: value id, signed number and payload |
| ToastScan.AmongSeen | pg_page.c:289-303 | If a value's pieces are among the scanned chunks and all others belong to other values, the scan has seen the value, whatever the order |
| StoredForms.PointerExtracted | pg_page.c:188-192 | An on-disk pointer in a chunk's place gives the sixteen bytes behind its first one |
| StoredForms.FormsWrite | pg_detoast.c:145-225 | Whatever fits the lengths of the format can be written in each of the five forms |
| Detoast.DetoastAttr | pg_detoast.c:145-225 | Returns what the datum's kind means, with the chunks the cache has seen; the chunks stay as they are |
| Detoast.ToastFetchDatum | pg_detoast.c:21-57 | The fetched datum has the header its pointer asks for and the first `attrsize` assembled bytes |
| Detoast.ToastDecompressDatum | pg_detoast.c:227-250 | Dispatch on the method: pglz decompresses, any other gives the null result |
| Detoast.PglzDecompressDatum | pg_detoast.c:252-272 | The result is the plain datum of the decompressed bytes, or carries the header of a failed run and the bytes written before it failed; a length field below the header's size is such a failure |
| ToastCaches.OrderIrrelevant | pg_page.c:289-303 | For distinct (id, number) pairs, every scan order of the same chunks gives every value the same bytes or the missing result |
| ToastCaches.ToastCache.Add | pg_page.c:289-303 | The list of each id holds exactly its chunks in scan order, with their greatest number, through every growth |
| ToastCaches.ToastCache.GetList | pg_detoast.c:121-143 | Finds the one list of the id or adds an empty one, which changes no value |
| ToastCaches.ToastCache.FetchValue | pg_detoast.c:59-80 | Returns the assembled value of the id, or the null result, whatever chunks other ids have |
| ToastCaches.ToastCache.constructor | pg_access.c:493-499 | A new cache holds no chunk |
| ToastCaches.ChunkList.Assemble | pg_detoast.c:82-119 | The concatenation in number order if numbers 0 to the greatest are all present, else the missing result |
| ToastCaches.ChunkList.CopyAll | pg_detoast.c:108-114 | The copy loop fills the buffer exactly |
| ToastCaches.AssembledSame | pg_detoast.c:82-119 | The assembled value depends only on which chunks there are |
| Varlenas.Header4BRead | pg_varatt.h:231-241 | A plain four-byte header is read back; its first byte is zero only for lengths divisible by 64 |
| Varlenas.Header4BCRead | pg_varatt.h:221-243 | A compressed header is read back and told from a plain one |
| TupleDeform.DeformsWhatWasFormed | pg_data.c:7-95 | For every schema with legal lengths and alignments and every row of nulls, fixed-width values, C strings and short, long, compressed or external varlenas, deforming the tuple formed with zero padding finds every value and null flag; missing trailing attributes are null |
| TupleDeform.FormedCells | pg_data.c:17-94 | The same from any attribute and offset on |
| TupleDeform.FormedField | pg_data.c:61-93 | One formed field is located at its bytes, and the next one starts right behind it |
| TupleDeform.TupleSlot.Deform | pg_data.c:7-95 | Fills every attribute of the slot with the cell that the tuple holds for it; `nvalid` becomes the last attribute that is not null, and stays as it is if there is none |
| TupleDeform.TupleSlot.GetAttr | pg_data.c:197-206 | Whatever was asked before and wherever the nulls fall, the attribute returned is the one a full deform gives |
| TupleDeform.TupleSlot.Reset | pg_page.c:398-406 | After a reset nothing counts as deformed, every null flag is set and every value holds ones |
| TupleDeform.TupleSlot.Bind | pg_data.c:147-151 | A tuple bound to a slot just reset can be deformed and nothing of it counts as deformed yet |
| TupleDeform.TupleSlot.constructor | pg_access.c:226-237 | A slot bound to a schema has zero values, no null flags, no tuple yet and nothing deformed |
| Tuples.AlignNominal | pg_heap.h:388-397 | The next multiple of 1, 2, 4 or 8, whichever the alignment letter stands for |
| Tuples.FieldFound | pg_heap.h:388-421 | Behind zero padding every kind of field is found: a zero byte at an unaligned offset means padding, and a zero first byte of an aligned long header does no harm |
| Tuples.VarFound | pg_varatt.h:334-337 | The size of each varlena form is its length, and only a long header can start with a zero byte |
| Tuples.BitmapTells | pg_data.c:52-56 | The bit of each attribute in the null bitmap is its null flag |
| NumericValue.PrintedValue | pg_integer.c:161-290 | The printed text is a decimal with exactly `dscale` digits behind the point, and no point if `dscale` is zero; read back, it has the sign and is worth the stored value cut to that scale |
| NumericValue.PrintedExactly | pg_integer.c:248-283 | Read back, the text is the stored value itself if and only if no decimal digit beyond the display scale is set |
| NumericValue.ValueCut | pg_integer.c:253-283 | Dropping the last decimals of the printed groups cuts the stored value at that place, zeros standing outside the stored digits |
| NumericValue.GroupsValue | pg_integer.c:205-281 | Integer part and groups behind the point together denote the stored digits so far |
| NumericValue.NoLeadingZero | pg_integer.c:212-233 | No superfluous zero stands in front if the first stored digit is not zero |
| NumericText.GetStrFromVar | pg_integer.c:161-290 | Writes the text and a zero behind it, and never outside the allocated `i + dscale + DEC_DIGITS + 2` bytes |
| NumericText.PutInteger | pg_integer.c:202-246 | The digits before the point, zeros in front suppressed |
| NumericText.PutFraction | pg_integer.c:253-281 | The digits behind the point, in whole groups |
| NumericText.PutGroup | pg_integer.c:213-233 | The decimal digits of one base-10000 digit |
| JulianDate.CorrectFromMinus32044 | pg_time.c:7-30 | Over all 32-bit day numbers, the conversion gives the valid Gregorian date of that number exactly from day -32044 on |
| JulianDate.IsCalendarDate | pg_time.c:7-30 | From day -32044 on the result is a valid date and its day number is the argument |
| JulianDate.WrongBelow | pg_time.c:15-17 | Every day below -32044 is converted to a wrong date, its unsigned form being a huge number |
| JulianDate.NextDayConverted | pg_time.c:7-30 | The date of the next day is the calendar successor under the Gregorian leap rule |
| JulianDate.Bijection | pg_time.c:7-30 | Every valid date in range is the conversion of its own day number and of no other |
| JulianDate.Epochs | pg_time.c:91-92 | The Unix and PostgreSQL epoch days are 1970-01-01 and 2000-01-01, and the first right day is March 1 of the year -4800 |
| JulianDate.DayBelow | pg_time.c:7-30 | Day -32045, its number wrapped round, becomes August 16 of the year -4559 |
| JulianDate.J2Date | pg_time.c:7-30 | The statements, each step unsigned, compute that conversion |
| JulianDate.MarchYearFound | pg_time.c:17-20 | Undoing the century correction leaves the right year and day of a calendar that starts in March |
| JulianDate.YearDayRight | pg_time.c:20-26 | Year and day of the year in a calendar where every fourth year is long |
| JulianDate.MonthDayRight | pg_time.c:27-29 | The multiplications by 2141 and 7834 find month and day |
| JulianDate.DayNumberInjective | pg_time.c:7-30 | No two valid dates share a day number |
| Xact.PageKeyExact | pg_xact.c:155-218 | Keyed by the page in the segment, every run of lookups answers what the commit log says, before and after the cache is full |
| Xact.SlotKeyExact | pg_xact.c:178-216 | Keyed by the slot, as written, a run is answered rightly for every commit log if and only if no lookup finds an entry cached for a different page |
| Xact.SlotKeyPairs | pg_xact.c:178-216 | With room for every lookup that condition is: no two lookups of one segment share a slot on different pages |
| Xact.SlotKeySafe | pg_xact.c:178-216 | However small the cache, runs without such a pair are answered rightly |
| Xact.SlotKeyWrong | pg_xact.c:178-216 | For every other run there is a commit log it answers wrongly |
| Xact.SlotKeyExample | pg_xact.c:178-216 | Transactions 3 and 32771: the second is told the status of the first |
| Xact.CollisionsDecide | pg_xact.c:178-216 | How colliding pairs and already cached pages decide whether an alias is met |
| Xact.PgXactLookup | pg_xact.c:155-218 | Answer and new cache of one lookup over the hash table; with the page key the answer is the log's and the cache stays a copy of the log |
| Xact.HashKnown | pg_xact.c:8-12 | The hash and the bucket in plain numbers, a wrap-around among them |
| Xact.XactCtl.Lookup | pg_xact.c:44-72 | Walking the bucket's chain finds exactly what the cache maps the key to; only the hit count of the entry found changes |
| Xact.XactCtl.Insert | pg_xact.c:75-120 | The new page answers for its key and no other key changes; a full cache refuses and changes nothing |
| Xact.XactCtl.constructor | pg_xact.c:14-42 | A new cache is empty |
| Xact.Addressed | pg_xact.c:165-181 | Segment, page in the segment and slot are the digits of the transaction id in the mixed radix 32, 32768 |
| Xact.OwnPlace | pg_xact.c:165-181 | No two transactions share a place in the log |
| Xact.ByteOfFour | pg_xact.h:20-29 | A byte of a page is the statuses of four transactions in a row, two bits each, the first lowest |
| Xact.MarkedIsRead | pg_xact.h:20-29 | Each transaction has its own two bits on its page: setting one status is read back and no other status changes |
| StringInfos.StringInfo.Enlarge | pg_string_info.c:8-68 | Refuses exactly the requests that would reach 0x3fffffff; else there is room, the text is kept, and the new size is the old one doubled until it suffices, at most that limit |
| StringInfos.StringInfo.AppendBinary | pg_string_info.c:71-93 | The buffer holds the old text and the new bytes, with a zero behind them |
| StringInfos.StringInfo.AppendChar | pg_string.c:429-440 | The same for one character, refused exactly at the limit |
| StringInfos.StringInfo.AppendVA | pg_string.c:318-353 | Appends the whole text or leaves the buffer unchanged and says how much room to make, as the int the C code casts it to |
| StringInfos.StringInfo.AppendFormatted | pg_string.c:355-377 | The format-and-retry loop appends the text within three tries or exits near the limit, for a text of any length that an int can count |
| StringInfos.StringInfo.Reset | pg_string_info.c:101-107 | The text is empty and the buffer kept |
| StringInfos.StringInfo.constructor | pg_string_info.c:109-118 | An empty buffer of 1024 bytes |
| SchemaBuilders.ScanOrderIrrelevant | pg_page.c:157-179 | With distinct attnums the schema's columns do not depend on the order in which the catalogue scan added them, nor on how the sort works |
| SchemaBuilders.SchemaBuilder.Finalize | pg_page.c:157-179 | The first `natts` columns are sorted and a permutation of exactly the added columns with positive attnum |
| SchemaBuilders.SchemaBuilder.Add | pg_page.c:127-149 | One more column behind all earlier ones, with its own copy of the name, across every growth |
| SchemaBuilders.SchemaBuilder.constructor | pg_access.c:347-354 | A new builder has no column |
| SchemaBuilders.Compact | pg_page.c:159-166 | In place, the columns with positive attnum move to the front in their order; the rest of the array is as before |
| SchemaBuilders.Sort | pg_page.c:168-168 | The first `n` columns become a sorted permutation of themselves, the others stay |
| SchemaBuilders.SortedUnique | pg_page.c:150-155 | Distinct attnums leave only one sorted order |
| Csv.TableReads | pg_output.c:15-46 | Every table of non-empty rows written field by field is read back by an RFC 4180 style reader, NULL as the empty text |
| Csv.FileReads | pg_page.c:200-211 | A file with a header is read back as the names, a record of one empty field, and the rows |
| Csv.WriteHeader | pg_page.c:202-207 | Writes the names as a row and one more line end |
| Csv.WriteFields | pg_page.c:202-206 | The loop over the columns writes exactly the row |
| Csv.FieldReads | pg_output.c:15-46 | One field is read back whatever follows, quoted or not |
| Csv.NeedsQuote | pg_output.c:15-46 | A field is quoted if and only if a comma, a quote or a line feed is in it |
| Csv.CsvWriteField | pg_output.c:15-46 | Appends the field, quoted with doubled quotes if and only if it holds a comma, quote or newline, and its separator |
| KnownBytes.WordBytes | pg_varatt.h:217-243 | Words are stored lowest byte first |
| KnownBytes.VarlenaBytes | pg_varatt.h:240-245 | The bytes of a long and of a short datum |
| KnownBytes.CompressedHeader | pg_varatt.h:242-243 | The header of a compressed datum: its size with the kind bits, then the raw size |
| KnownBytes.PointerBytes | pg_varatt.h:246-248 | The bytes of an on-disk pointer: tag 18, the two sizes, the value id, the toast table |
| KnownBytes.PointerSizes | pg_varatt.h:86-101 | The size of each pointer form, its two header bytes included |
| KnownBytes.TagBytes | pg_lzcompress.c:46-53 | Match tags of two and three bytes, and one cut short |
| KnownBytes.CompressedBytes | pg_lzcompress.c:95-109 | The example of the decompressor's comment, from its eight compressed bytes to its 21 raw ones |
| KnownBytes.EncodedBytes | pg_lzcompress.c:95-109 | And the other way: the encoder's bytes for the tokens of that example |
| KnownBytes.RowBytes | pg_heap.h:60-81 | The tuple of an int4 and an int8: every header byte, and the int8 on a boundary of eight |
| KnownBytes.NullRowBytes | pg_heap.h:60-81 | The same with its second attribute null: the null flag and a bitmap byte of 1 |
| KnownBytes.StringBytes | pg_heap.h:406-421 | A bool, a C string with its zero byte, padding, and an int4 |
| KnownBytes.TextFieldBytes | pg_heap.h:399-404 | A short datum stands unaligned where the one before it ends, a long one behind padding |
| KnownBytes.LineBytes | pg_heap.h:115-120 | The line pointer of a tuple of 40 bytes at offset 8152 |
| KnownBytes.ChunkBytes | pg_access.c:600-609 | The schema of a toast table, and the attribute bytes of a chunk tuple |
| KnownBytes.PageBytes | pg_page.c:408-423 | A whole page of one chunk tuple is laid out as the scan's precondition says |
| KnownBytes.ValueBytes | pg_type.c:27-58 | oid, int4 and bytea values from their bytes |
| KnownBytes.ArrayBytes | pg_string.h:263-276 | `["a", []]` as it is packed: header, entries, padding in front of the inner array |
| KnownBytes.ObjectBytes | pg_string.h:263-276 | `{"a": true}` as it is packed |
| KnownBytes.NumberBytes | pg_string.h:263-276 | An array of `false` and a number as it is packed |
| KnownBytes.ScalarBytes | pg_string.h:97-106 | The scalar document `null` as it is packed |
| KnownBytes.TextBytes | pg_string.c:144-252 | The texts of the array and the object |
| KnownBytes.EscapedBytes | pg_string.c:385-411 | The escapes with a letter, and one of the others in lower-case hexadecimal digits |
| KnownBytes.EscapedOrNot | pg_string.c:385-411 | Which characters are escaped by a letter, by four digits, and not at all |

## Left out

- JsonReader.PrintedTextFaithful: the reader knows no numbers and no surrogate pairs, because the printer writes neither; RFC 8259 grammar beyond that is not modelled.
- JsonbPrinter.JsonbToCStringWorker: only `indent` false, the one call the program makes; the exit on an invalid iterator state cannot be reached by a packed document.
- JsonbIterators.JsonbIteratorNext: only `skipNested` false; bytes that pack no document are outside the model.
- Pglz.PglzDecompress: a negative source length, which one caller can pass, is part of Detoast.PglzDecompressDatum; a negative `rawsize` does not occur.
- Detoast.DetoastAttr: indirect and expanded pointers exist in memory only and have no defined result here; lz4 is not compiled in and gives the null result.
- ToastCaches.ToastCache.FetchValue: negative numbers among the chunks of the id fetched, for which the C code indexes outside its array, are excluded; the arrays that are reallocated are sequences with their capacity kept as a field.
- StoredForms.DetoastRestores: the C code does not check that a value exists or that its assembled length is the stored one, so both are part of what "stored" means.
- ToastScan.ScanPage: line pointers that lie beyond the page, or point to tuples that do, are excluded; the code reads them unchecked.
- HeapPage.RowDecodes: the visibility test of decode_tuple is not part of it; a toast table is scanned without it.
- TupleDeform.TupleSlot.GetAttr: schemas with system attributes (attnum below 1) are excluded, as is a tuple that the loop would read beyond its memory; `decode_value` is a function parameter.
- NumericText.GetStrFromVar: starts from digits, weight, sign and scale; `NUMERIC_NDIGITS` is applied to a pointer already moved past the varlena header and does not give the digit count, and the special values are a short case split.
- StringInfos.StringInfo.AppendFormatted: what vsnprintf makes of a format is a parameter; a text too long for vsnprintf to count in an int is excluded.
- SchemaBuilders.Sort: an insertion sort stands for qsort; the theorems use only that the result is a sorted permutation.
- Xact.PgXactLookup: the commit log is a function from segment and page to bytes; opening and mapping its files is not modelled, nor is freeing the cache.
- Memory allocation is taken to succeed.
- Visibility rules, catalogue schemas and type tables: finite case splits and data.
- Float, time and timestamp formatting: calls into the C library.
- File access, directory scans, the phase driver, command line and WAL scanning: input, output and unfinished code.
