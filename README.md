# LZW codec of `lzw.c` and `main.c`, modelled and proved in Dafny

The modelled program is a command-line LZW compressor with variable-width codes.

- lzw.c holds the two dictionaries.
  - A trie `code_tab` serves the encoder. It has `code_init`, `code`, `search`, `insert` and `flush`.
  - A prefix table `decode_tab` serves the decoder. It has `decode_init`, `decode` and `write_code`.
  - Both tables hold `TABSIZE` = 8190 entries. When an encoder miss finds the table full, the table is reset to the 256 literal codes.
- main.c holds the wire format.
  - `compress` sends every reported code plus 2, so that no code from a non-empty input collides with 0 (`DEC_WIDTH`) or 1 (`INC_WIDTH`), which tell the receiver to narrow or widen the width.
  - The empty input is the exception. Its only report is EMPTY (-1), sent as the value 1, and the receiver takes it as INC_WIDTH. The zero padding is then read as `DEC_WIDTH` symbols, which narrow the width until the words run out, without output.
  - It starts at 8 bits, sends `INC_WIDTH` before any code that does not fit, and narrows back to 8 bits after a reset.
  - `send` packs each code, most significant bit first, into 32-bit words, and a final flush pads the last word with zero bits.
  - `decompress` reads codes at the current width with `receive`, and stops when a read fails or the width reaches 0.

The proofs are layered, and each module follows one part of the program:

- `Bits`: the C operators on `unsigned int` words (`|`, `&`, `<<`, `>>`), defined on naturals below 2^32. It also has bit strings (`NatBits`, `BitsVal`) and the bits of a word stream (`WordsBits`).
- `LzwModel`: both dictionaries stated as sequences of byte strings.
  - `EncStep` describes one call of `code`, and `DecodeStep` one call of `decode`.
  - The main lemma `EncodeDecode` says that decoding the codes the encoder reports gives back the input.
- `CodeTable` and `DecodeTable`: the invariants that tie a snapshot of `code_tab` or `decode_tab` to the dictionary it stands for.
  - The trie invariant also covers the child lists and each entry's parent.
  - There is one lemma per table operation.
- `Lzw`: the classes `Encoder` and `Decoder`.
  - Their fields are arrays and integers, like the static state of lzw.c.
  - Each method is proved to follow `EncStep` or `DecodeStep`.
- `Channel`: the classes `BitWriter` (`send`) and `BitReader` (`receive`), with their static buffers.
  - `BitWriter.Send` is proved to append exactly the code's bits to everything accepted so far.
  - `BitReader.Receive` is proved to take exactly the next bits of the file.
- `Protocol`: the width protocol.
  - `CompressBits(s)` is the bit string `compress` writes for input `s`.
  - `Run` is `decompress` as a function of the unread bits.
  - `RoundTrip` proves `Run(CompressBits(s)) == Some(s)` for every input, the empty one included.
- `Driver`: the `compress` and `decompress` loops as methods over the classes above.
  - `Compress` writes words whose bits are `CompressBits(s)`.
  - `Decompress` outputs what `Run` gives.
  - So `CompressThenDecompress(s)` returns `s`.

## Model

| member | source | states |
|---|---|---|
| LzwModel.Search | lzw.c:79-91 | With no current match the result is the byte itself. Otherwise the result is non-negative exactly when the match extended by the byte is in the dictionary, and it is then that string's code. |
| LzwModel.EncStep | lzw.c:56-77 | At EOF the held code is reported and nothing changes. The first byte only starts a match. A known extension grows the match without a report. On a miss the old match is reported, a new match starts at the byte, and one of two things happens: the extended string is added, or the dictionary is reset when it already holds TABSIZE strings. The dictionary stays duplicate-free. |
| LzwModel.EncodeFromShape | main.c:50-93 | The `do` loop of `compress` calls `code` once per byte and once for EOF. So it reports at most one code per call and at least the EOF one, and that last report never resets the table. |
| LzwModel.EncodeCodes | lzw.c:52-62 | Compressing the empty input reports only EMPTY. Any other input of n bytes reports between 1 and n codes, all in [0, TABSIZE). |
| LzwModel.Lag | lzw.c:136-145 | The dictionary after this call's deferred insertion, or after the reset when the table is full, still has the literals first, no empty string and at most TABSIZE entries. |
| LzwModel.PopulatedInTable | lzw.c:136-147 | `decode` accepts a code exactly when it names an entry of the dictionary as the deferred insertion or reset leaves it. On the first call that is any existing entry. Right after a reset it is a literal. Otherwise it is an existing entry or the one being made. |
| LzwModel.FirstOf | lzw.c:141-142 | The byte that completes the deferred entry is the first byte of the incoming code's string in the dictionary that entry completes. This fixed point makes the KwKwK case consistent. |
| LzwModel.DecodeStep | lzw.c:129-152 | A code is accepted exactly when it is populated in the current epoch. An accepted code makes the deferred insertion, or a reset when the table is full, and becomes the last code. Its output is its string in the updated dictionary. |
| LzwModel.KwKwK | lzw.c:140-143 | A code naming the entry being inserted decodes to the previous string followed by that string's first byte. |
| LzwModel.DecodeFrom | main.c:141-153 | Decoding a run of codes only appends to the output, and an accepted run leaves a well-formed decoder state. |
| LzwModel.DecodeCurrent | lzw.c:136-149 | A decoder one insertion behind the encoder accepts the encoder's current code, outputs its string, and then holds the encoder's dictionary. |
| LzwModel.StepKeepsSync | lzw.c:65-76 | After one encoder step the decoder is again one insertion behind, whether or not a code was reported. |
| LzwModel.EncodeDecodeFrom | lzw.c:56-152 | From any synchronised pair of states, decoding the reports for the rest of the input outputs the current match followed by the rest of the input. |
| LzwModel.EncodeDecode | lzw.c:43-167 | For a non-empty input, every reported code is below TABSIZE, and decoding the reports in order reproduces the input. |
| CodeTable.InitTrie | lzw.c:43-54 | The table `code_init` leaves is a valid trie for the 256 literals, with no children. |
| CodeTable.SearchHit | lzw.c:86-88 | A child of the prefix whose `last` is c is the code of the prefix's string extended by c, and the dictionary's only index for that string. |
| CodeTable.SearchMiss | lzw.c:86-90 | When no child of the prefix ends in c, the prefix's string extended by c is not in the dictionary. |
| CodeTable.InsertTrie | lzw.c:93-105 | Four updates keep the trie valid. The new entry has no children. Its sibling is the old head of the prefix's list. It becomes the new head. The dictionary gains the extended string. |
| CodeTable.FlushTrie | lzw.c:107-115 | After the literal entries lose their children, the table is a valid trie for the 256 literals. |
| CodeTable.FlushedEntries | lzw.c:111-112 | `flush` sets `first_child` of the 256 literal entries to NO_CHILD and keeps every other field. It leaves every entry above 255 as it was. |
| DecodeTable.InitTable | lzw.c:117-127 | The table `decode_init` leaves stands for the 256 literals. |
| DecodeTable.StringFits | lzw.c:131-134 | Every string in the table is 1 to BSIZE bytes long, so it fits in `decode`'s buffer. |
| DecodeTable.InsertTable | lzw.c:139-144 | The deferred insertion keeps the table tied to the dictionary, which gains the previous string followed by one byte. That byte is the first byte of the incoming code's string, read after the new entry's `first` is set. |
| DecodeTable.ResetTable | lzw.c:136-138 | When `d_next_free` goes back to 256, the old entries still stand for the literals. |
| Lzw.Encoder.constructor | lzw.c:35-40 | A zeroed static table of TABSIZE entries. |
| Lzw.Encoder.CodeInit | lzw.c:43-54 | The literal entries are set and have no children. The other entries are untouched. `c_next_free` is 256 and `curr_code` is EMPTY. The encoder then stands for the initial state. |
| Lzw.Encoder.Search | lzw.c:79-91 | The walk down the child list returns the code `LzwModel.Search` gives. On a hit it is a child of the prefix ending in c. On a miss no child ends in c. |
| Lzw.Encoder.Insert | lzw.c:93-105 | Returns 1 and changes nothing when the table is full. Otherwise it returns 0, links the new entry at the head of the prefix's child list, and appends the string to the dictionary. |
| Lzw.Encoder.Flush | lzw.c:107-115 | It clears the literal entries' child lists and leaves the rest of the array unchanged. Afterwards `c_next_free` is 256 and the dictionary is the literals. |
| Lzw.Encoder.Code | lzw.c:56-77 | It moves to `EncStep`'s new state. It returns 0 when `EncStep` reports nothing, 1 when it reports a code without a reset, and 2 when it reports a reset. The reported code is the old `curr_code`. EOF and hits leave the table alone. A reset leaves it flushed. |
| Lzw.Decoder.constructor | lzw.c:36-41 | A zeroed static table of TABSIZE entries and a buffer of BSIZE bytes. |
| Lzw.Decoder.DecodeInit | lzw.c:117-127 | The literal entries are their own first and last byte. The other entries are untouched. `d_next_free` is 256 and `last_code` is EMPTY. |
| Lzw.Decoder.WriteCode | lzw.c:154-167 | Walking the prefix chain writes the code's whole string at the end of the buffer. The length is between 1 and BSIZE, and 1 for a literal. |
| Lzw.Decoder.Decode | lzw.c:129-152 | It moves to `DecodeStep`'s new state and returns its output. `last_code` becomes the code. The first call changes no entry. A full table resets `d_next_free` to 256. Otherwise exactly entry `d_next_free` is written. |
| Channel.BitWriter.constructor | main.c:168-169 | An empty buffer with all 32 bits free and nothing written. |
| Channel.BitWriter.Send | main.c:166-195 | A code of `bit_width` bits appends exactly its bits to everything accepted, and writes one word when the buffer fills. A flush writes the pending bits padded with zero bits as one word and empties the buffer. Words already written are never changed. |
| Channel.BitWriter.Pack | main.c:182-186 | When the code fits below the pending bits, it is or-ed in and its bits follow the pending ones. |
| Channel.BitWriter.Spill | main.c:187-194 | When the code fills the word, the completed word is written, and the code's low bits start the next word. |
| Channel.BitReader.constructor | main.c:199-200 | No bits buffered, so the unread bits are the whole file. |
| Channel.BitReader.Receive | main.c:197-217 | It returns -1, and changes nothing, exactly when fewer than `bit_width` bits remain. Otherwise it returns the value of the next `bit_width` bits and consumes exactly those. |
| Channel.BitReader.TakeBuffered | main.c:203-207 | With enough bits buffered, the result is the next `bit_width` of them and the file is not read. |
| Channel.BitReader.TakeRefilled | main.c:208-215 | With too few bits buffered, the buffered bits are the code's top bits and the next word supplies the rest. |
| Bits.OrDisjoint | main.c:184 | Or-ing a value into zero low-order bits is addition. This is what `BitOr`, the C `|`, computes in `send`. |
| Bits.AndLowMask | main.c:216 | Masking with `(1 << k) - 1` keeps the k low-order bits. This is what `BitAnd`, the C `&`, computes in `receive`. |
| Bits.Shr | main.c:205 | `x >> k` on a word drops the k low-order bits: the result times 2^k is at most x and exceeds x - 2^k. |
| Channel.ShlFits | main.c:184 | `cd << (bits_free - bit_width)` loses no bits when the code fits below the pending ones. `Shl`, the C `<<` on a word, is reduced mod 2^32, and here it equals the product. |
| Protocol.WidthFor | main.c:72-78 | The width reached is at least the start and holds the value, and it is the start itself when the value already fits. |
| Protocol.WidthForLeast | main.c:72-78 | No narrower width from the start on holds the value, so the width reached is the least one that does. |
| Protocol.CodeFits | main.c:71-78 | A code below TABSIZE, shifted by 2, never widens beyond 13 bits. |
| Protocol.WireFits | main.c:71-88 | For a code below TABSIZE, both the width it is sent at and the width `After` leaves stay within 8 to 13. `After` is the width after the code: 8 after a reset, otherwise the width it was sent at. |
| Protocol.EmitSplit | main.c:69-89 | The bits `Emit` gives for one report are, in order, the INC_WIDTH symbols, the code plus 2 in the widened width, and the DEC_WIDTH symbols after a reset. |
| Protocol.EmitFits | main.c:69-89 | Every symbol `Emit` gives for one code fits its width, and every width stays within 8 to 13. |
| Protocol.AllSymsFront | main.c:50-93 | `AllSyms` sends one report's symbols and then the rest's, starting at the width the first leaves. |
| Protocol.IncsFit | main.c:72-78 | The widening sends exactly `WidthFor(v, w) - w` symbols. The i-th is INC_WIDTH at width w + i. So it sends one at each width from the current one up to the last width that is too narrow. |
| Protocol.DecsFit | main.c:81-88 | After a reset, DEC_WIDTH is sent once at each width from the current one down to 9, which is w - 8 symbols. |
| Protocol.AllSymsFit | main.c:69-89 | Every value `compress` sends fits its width, and every width stays within 8 to 13. |
| Protocol.WidthAfterRange | main.c:48-93 | The width after any run of codes stays within 8 to 13. |
| Protocol.Padded | main.c:173-177 | The flush keeps the bits sent and appends zero bits, between 1 and 32 of them, up to a whole number of words. |
| Protocol.CompressBits | main.c:34-107 | The file `compress` writes is a whole number of words, and at least one word. |
| Protocol.PadLength | main.c:173-177 | With `bits_free` bits free, the flush pads exactly `bits_free` zero bits. |
| Protocol.Run | main.c:123-155 | The `decompress` loop only ever appends to what it has written. |
| Protocol.RunDecode | main.c:141-153 | A code is passed on only when `decode` accepts it, and its string comes next in the output. |
| Protocol.RunOnce | main.c:123-155 | On a stream that decompresses, the width stays readable. A failed read ends with the output so far. DEC_WIDTH narrows, and at width 1 it ends the loop. INC_WIDTH widens. Any other value is a code `decode` accepts, and its output is appended. |
| Protocol.ReadInc | main.c:135-140 | Receiving INC_WIDTH goes on at one bit wider. |
| Protocol.ReadDec | main.c:129-134 | Receiving DEC_WIDTH above width 1 goes on at one bit narrower. |
| Protocol.RunIncs | main.c:72-78 | Reading the INC_WIDTH symbols `compress` sent brings the reader to the width the next code is sent at. |
| Protocol.RunDecs | main.c:81-88 | Reading the DEC_WIDTH symbols sent after a reset brings the reader back to 8 bits. |
| Protocol.RunCode | main.c:141-153 | A wire value `cd + 2` is handed to `decode` as `cd`. |
| Protocol.RunEmit | main.c:69-89 | Reading what `compress` sends for one code decodes that code and leaves the reader at the sender's new width. |
| Protocol.RunAll | main.c:50-93 | Reading everything sent for a run of codes decodes them in order, as `DecodeFrom` does. |
| Protocol.RunZeros | main.c:97 | The zero padding of the flush ends `decompress` with no further output. |
| Protocol.RoundTrip | main.c:34-161 | `decompress` reading the bits `compress(s)` writes outputs exactly `s`, for every input, the empty one included. |
| Driver.Widen | main.c:72-78 | It sends the INC_WIDTH symbols and ends at the least width in which the value fits, with `next_width` equal to 2 raised to that width. |
| Driver.Narrow | main.c:81-88 | It sends the DEC_WIDTH symbols and ends at width 8, with `next_width` equal to 2^8 = 256. |
| Driver.SendCode | main.c:79-88 | It sends the code in its width, then narrows back to 8 on a reset. |
| Driver.Transmit | main.c:70-89 | It sends the widening symbols, the shifted code at the widened width, and the narrowing symbols after a reset. The new width is the result. |
| Driver.Feed | main.c:52-89 | One `code` call and what it sends: the bits sent so far followed by the bits still to be sent stay the same. The encoder moves to `EncStep`'s new state. |
| Driver.Pass | main.c:50-93 | One pass of the `do` loop keeps the loop invariant. It advances one byte, or ends after EOF. |
| Driver.Flush | main.c:94-97 | The words written are all bits sent, padded to a word boundary. |
| Driver.Compress | main.c:34-107 | The words written carry exactly `CompressBits(s)`. |
| Driver.Decompress | main.c:109-161 | On a stream that decompresses, the output is the one `Run` gives. |
| Driver.Dispatch | main.c:129-153 | A received value narrows, widens or decodes, and the rest of the run goes on from there. |
| Driver.CompressThenDecompress | main.c:34-161 | Decompressing what `Compress` wrote returns the input. |

## Left out

- `main`'s argument handling, `fopen`/`fclose` and their error returns are not modelled. The input is a byte sequence and the output file is a sequence of 32-bit words.
- The `verbose` output (`printf`, `putchar`) and the `nbits`/`nbytes` statistics are not modelled. They do not affect what is written.
- `fwrite(&buf, ...)` writes a word in host byte order. The model keeps the 32-bit word and does not fix a byte order. So a file written on one byte order and read on the other is not covered.
- `fread` failing on a partial last word is modelled as the end of the file. Input files are whole words.
- lzw.h declares an interface that lzw.c does not implement. lzw.h is not part of this model; the modules use the functions lzw.c defines.
- `send` and `receive` shift `int` values, and the modelled values are non-negative. The model uses unsigned 32-bit words throughout, which agrees on every value `compress` and `decompress` use.
- Channel.BitWriter.Send: requires the code to fit in `bit_width` bits and `bit_width` to be below 32. Every caller in main.c passes a value and width that do; wider values would be or-ed over pending bits.
- Channel.BitReader.Receive: requires `bit_width` between 1 and 30, because `1 << bit_width` must not overflow an `int`. `Run` treats a stream that widens past 30 bits as malformed.
- Driver.Decompress: requires a stream `Run` accepts. Malformed files are not modelled. Such files read entries outside the current dictionary, where lzw.c reads stale or uninitialised table entries. They are also files that widen past 30 bits.
- Lzw.Decoder.Decode: requires a code populated in the current epoch, for the same reason.
- Driver.Compress: its contract is stated through `CompressBits`. The round trip is stated separately, by `Protocol.RoundTrip` and `Driver.CompressThenDecompress`.
- Lzw.Decoder.Decode: it returns the decoded bytes as a sequence. It does not return a pointer into the static buffer. `WriteCode` is proved to leave the same bytes at the end of the buffer.
- The `do ... while (bit_width > 0)` of `decompress` is written as a `while` loop. Its first test holds because the width starts at 8.
