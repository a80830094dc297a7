# A verified model of Scar

Scar is a seekable tar. The writer appends tar entries through a compressor that it restarts at checkpoints,
then appends an index, a checkpoint table, a tail and an end marker; the reader uses these to jump straight to
an entry. The format is implemented twice, in Rust (`scar-rs`) and in C (`scar-c`). This project models the
three layers of both and proves that they fit together. Every claim is a theorem for all inputs or all runs.

The main results:

- `RandomAccess.RandomAccess`: for every run of the Rust writer, opening the finished archive, taking an index
  item, seeking by checkpoint, reading the header and the content returns exactly what was added.
  `RandomAccess.OpenFinished` and `Reader.ReadBack` say exactly when opening succeeds: always for a format that marks
  where members end; for one whose decoder goes on, when the section headers are not split between buffers.
- `RandomAccess.SeekRefinesBody` and `Archive.NoStraddling`: the checkpointed reader refines the raw tar body,
  and no entry straddles a checkpoint.
- `Resolution.ResolvesEachField`: where every field of a header comes from, for any records in front of any block.
- `PaxHeader.HeaderRoundTrip`, `PaxRecords.ParseStringify` and `PaxRecords.ComposesExactly`: printer and parser
  of headers and extended records are inverse on representable metadata, and record text composes exactly when
  it is complete.
- `Checkpoints.MadeWhenDue` and `CCheckpoints.PlacedByRun`: when either writer makes a checkpoint, and where.
- `Convert.ConvertPreservesMeaning`: the file that converting writes decodes to the entries of its input.
- `CReader.ListsExactly`, `CIterator.ListAll` and `CSeek.ListThenSeek`: with the C implementation and its `plain`
  format, archives open, list and seek correctly for exactly the requests whose index lines are short, whatever
  moves the shared cursor in between; with no assumption about a codec.
- `CPaxSyntax.PaxParse`: the C record parser never reads past its records, through any nesting of limited and
  block readers; `CFields.SetsEachField` says which fields it sets; `TakesExactly` and `AlignedExactly` say for which sizes it takes what it should.
- `GlobMeaning.TranslationExact`: what the regular expression built for a glob accepts, for every pattern and
  path; `PatternsExactly` and `PathsExactly` say when that is what the glob means.

## How it is organised

| files | role |
|---|---|
| `Bytes`, `Decimal`, `Ustar` | bytes and machine words, decimal numbers and the length that counts itself, header fields |
| `PaxRecords`, `PaxHeader` | extended records and headers as functions, with their round trips |
| `PaxIO` | the methods of `pax.rs`, proved against those functions |
| `Resolution`, `Checkpoints`, `CFields`, `CCheckpoints` | what those functions and both writers do, over bytes, fields and offsets alone |
| `Grammar`, `CGrammar` | exactly which texts the readers accept, character by character |
| `Codec`, `Cursor` | the abstract compression format; the shared file cursor and buffered decoders |
| `Sections`, `Archive`, `Scan`, `RandomAccess` | index, checkpoint and tail text; the writer as a state machine; seeking and the end-to-end theorem |
| `Writer`, `Reader` | `ScarWriter`, `IndexIter` and `ScarReader` as classes, proved against the state machine and the seek function |
| `Convert`, `TailScan`, `Locate` | the convert command; the search for the tail |
| `CStream`, `CPaxSyntax` | the C readers and writers, in any nesting; the C record parser |
| `CArchive`, `CReader`, `CIterator`, `CSeek` | the C writer, listing, the iterator over a shared cursor, and seeking with the `plain` format; content copying |
| `Glob`, `GlobMeaning` | the glob translation; a semantics for globs and for the emitted expressions |

Code that computes a value by changing things step by step is a method or a class method here; its contract
ties the result or the new state to a function, and the properties are lemmas about the functions.

## What is assumed

- A compression format is three functions: what a compressor has emitted so far, the finished member, and what
  a decompressor yields. `Codec.Appends`, `Incremental`, `Faithful`, `Bounded` and `Continuing` are the laws that
  theorems name as premises. `Bounded` is section 2.2 of RFC 1952 (a member ends where it says), as for gzip and
  xz here. `Continuing` is a decoder that goes on with the next member, as those of `plain` and of zstd, whose
  decoder is built without a limit to one frame (scar-rs/scar/src/compression/zstd.rs:79). `Codec.PlainLaws` and
  `Codec.StoredLaws` show that the laws can be met. A call of `write_all` or `write!` is one write to the
  compressor; the laws hold for every division into writes.
- Times (`f64` in Rust) are exact decimals. Rounding, infinities, NaN and exponents are not modelled.
- The counters are unbounded; where 64-bit numbers are printed and read back, a premise says that the archive
  is smaller than 2^64 bytes (Rust) or 2^63 bytes (C). Numbers that are parsed wrap around as in the code.

## Where the code differs from its intent

The model follows the code in each of these places:

- The C writer prints a line of its index with `scar_io_vprintf`, which formats a text over 127 bytes a second
  time from an argument list that the first attempt has used up (scar-c/src/ioutil.c:37-53). What comes out is
  undefined, so `CArchive.ScarIoPrintf` promises nothing for such a text. The line of an entry has 4 bytes more
  than its path and the digits of its offset: at the start of an archive a path of 123 bytes is already too long
  (`CArchive.LongestFirstPath`). `CReader.ListsExactly` proves that short lines are exactly what listing needs.
- `scar_pax_parse` takes an unsigned size and passes it on as a signed limit (scar-c/src/pax-syntax.c:189-193), so
  from 2^63 on nothing is taken and the parse succeeds (`CPaxSyntax.TakesExactly`), and a reader that was at a block
  boundary need not be at one again (`CPaxSyntax.AlignedExactly`, `CPaxSyntax.SizeTooLarge`).
- A block reader that is used as a reader reports a failure below it as the end of input
  (scar-c/src/ioutil.c:418-431). Contracts over an embedded block reader therefore hold while its error field is
  clear; `CPaxSyntax.HiddenFailure` shows what happens otherwise.
- The Rust code looks for the end of a section in the current buffer only (scar-rs/scar/src/read.rs:142 and 273).
  With a format whose decoder goes on, a header that is split between two fills is taken for an entry, and reading
  fails: `RandomAccess.OpenFinished` and `Reader.ReadBack` are exact about it, and `Reader.SplitByOnePath` is a case.
- A whole negative `mtime`, or one in [8^11, 8^12), does not survive the header (scar-rs/scar/src/pax.rs:428);
  values of 16384 bytes or more are refused (scar-rs/scar/src/pax.rs:561). `PaxHeader.Representable` says exactly
  which metadata survives.
- `g` index entries are written with a length that is one too large (`Sections.DeclaredLengthExact`). The
  iterators report them here and do not go on; `CGrammar.GlobalTakesOneMore` says what the C one takes. The command line tools never write such entries.
- `create` in Rust searches the second 512 bytes of a long file for the tail instead of the last ones
  (scar-rs/scar/src/read.rs:66); these are the same for exactly the lengths up to 512, and 1024
  (`TailScan.SearchesTheEnd`).
- The Rust checkpoint table also lists the checkpoints that end the body and the index
  (scar-rs/scar/src/write.rs:119-136), which the format description of Scar does not say; `RandomAccess.Layout`
  states the table as written.
- The C index iterator fails at an entry with an empty path (`CReader.ListFinished`), and the C record parser
  refuses empty values (`CPaxSyntax.CReadRecordText`).
- `scar_block_reader_read_line` stores a NUL behind a line that fills its buffer (scar-c/src/ioutil.c:447-460);
  `CSeek.ReadLine` says when what it stores lies inside, and `CSeek.LineOfCheckpoint` that written tables do.
- The name in a GNU `L` or `K` entry is its whole content (scar-rs/scar/src/pax.rs:699-700), so a NUL at its end, as
  GNU tar writes one, stays part of the path (`Resolution.ResolvesEachField`).
- `.` does not match a line feed, so `**` does not cross one (`GlobMeaning.PatternsExactly`).
- For an empty pattern with an option `build_rx_string` reads through a null pointer, so `Glob.BuildRxString`
  promises nothing there; `GlobMeaning.TranslationExact` then speaks of a text that the code does not produce.
- Numbers that do not fit a signed 64-bit variable overflow in the C reader (scar-c/src/scar-reader.c:240, 258, 430
  and 474), so nothing is promised of them (`CReader.ListFits`). Files below 2^63 bytes that the writer made with
  short lines hold none (`CReader.FinishedFits`).

## Model

| member | source | states |
|---|---|---|
| Decimal.Log10Ceil | scar-rs/scar/src/util.rs:13-25 | The loop counts exactly the decimal digits that the number is printed with. |
| Decimal.CLog10Ceil | scar-c/src/internal-util.h:10-19 | The C loop counts the printed digits too, except that it gives 0 for 0. |
| Decimal.SelfLengthExact | scar-rs/scar/src/pax.rs:324-331 | The corrected length counts itself: it equals its own number of digits plus the payload, and it is the least number that does; so one correction step is always enough. |
| Decimal.ReadNumDigits | scar-rs/scar/src/util.rs:47-71 | Reading a printed 64-bit number gives it back and stops right behind its digits, whatever follows. |
| Decimal.ParseU64Digits | scar-rs/scar/src/pax.rs:577-603 | A printed 64-bit number parses back to itself. |
| Decimal.ValueDigits | scar-c/src/pax-syntax.c:87-103 | The positional value of the printed digits of n is n. |
| Decimal.AccumulateMeans | scar-c/src/pax-syntax.c:87-103 | Reading digits into an accumulator that wraps around gives their value modulo 2^64. |
| Ustar.OctalFieldRoundTrip | scar-rs/scar/src/pax.rs:51-77 | An octal field of length L reads back as the number modulo 8^(L-1): high digits are cut off. |
| Ustar.BlockWriteStr | scar-rs/scar/src/pax.rs:46-49 | In place: exactly the bytes of the field that the data covers change. |
| Ustar.BlockWriteOctal | scar-rs/scar/src/pax.rs:51-59 | In place: the field holds the octal digits and a NUL, every other byte is kept. |
| Ustar.BlockReadOctal | scar-rs/scar/src/pax.rs:61-77 | The loop computes the wrapped octal value of the field up to its first space or NUL. |
| Ustar.BlockReadStr | scar-rs/scar/src/pax.rs:79-90 | The loop returns the field up to its first NUL. |
| Ustar.BlockReadPath | scar-rs/scar/src/pax.rs:92-101 | A path is the prefix field, a slash and the name, or the name alone when there is no prefix. |
| Ustar.BlockReadSize | scar-rs/scar/src/pax.rs:103-115 | A size with the top bit set is read in base 256, any other in octal. |
| Ustar.OctalMeans | scar-rs/scar/src/pax.rs:61-77 | An octal field is worth what its characters write up to the first space or NUL, modulo 2^64; anything that is not an octal digit counts as 0. |
| Ustar.Base256Means | scar-rs/scar/src/pax.rs:108-114 | A base 256 field is worth what its bytes write, the most significant first, modulo 2^64. |
| Ustar.SumBound | scar-rs/scar/src/pax.rs:348-358 | A byte sum is at most 255 per byte, so a checksum always fits its six octal digits. |
| Ustar.SumBlock | scar-rs/scar/src/pax.rs:348-358 | The checksum loop computes the byte sum of the block. |
| PaxRecords.ParseTimeText | scar-rs/scar/src/pax.rs:344-346 | A printed time (exact decimal) parses back to itself, sign and fraction included. |
| PaxRecords.KeyRoundTrip | scar-rs/scar/src/pax.rs:578-607 | Each of the twelve keys is recognised from its own text, and none contains an equals sign. |
| PaxRecords.RecordTextLength | scar-rs/scar/src/pax.rs:324-338 | The length printed in front of a record is the length of the whole record. |
| PaxRecords.ReadRecordText | scar-rs/scar/src/pax.rs:517-576 | A printed record in front of any other text is read back with its key, value and exact end if its value is shorter than 16384 bytes, and refused otherwise. |
| PaxRecords.ReadRecordAppend | scar-rs/scar/src/pax.rs:517-576 | A complete record is read the same whatever is appended; the appended bytes are left over. |
| PaxRecords.AssignRecords | scar-rs/scar/src/pax.rs:578-607 | Assigning the records of n on top of m gives the field-by-field override of m by n. |
| PaxRecords.ParseStringify | scar-rs/scar/src/pax.rs:517-665 | parse after stringify, on top of any earlier state: every field of the printed metadata is recovered and overrides the earlier one, or the parse fails exactly because some value has 16384 bytes or more. |
| PaxRecords.ParseAppend | scar-rs/scar/src/pax.rs:517-609 | Parsing a sequence of complete records followed by anything equals parsing one after the other; the last key wins. |
| PaxRecords.ComposesExactly | scar-rs/scar/src/pax.rs:517-609 | Text that parses composes with whatever follows it if and only if it ends with a complete record. |
| PaxRecords.PartialDoesNotCompose | scar-rs/scar/src/pax.rs:517-539 | For any text that parses but ends inside a length there is a continuation that parses differently in one piece and in two. |
| PaxRecords.RecordsTextWhole | scar-rs/scar/src/pax.rs:611-665 | What stringify prints is such a sequence of complete records. |
| PaxRecords.SplitLengthDoesNotCompose | scar-rs/scar/src/pax.rs:517-539 | A concrete split of one record inside its length that does not compose. |
| PaxRecords.StringifyIsShort | scar-rs/scar/src/pax.rs:611-665 | An extended header whose values can be read back is at most 204000 bytes long. |
| PaxHeader.SealedChecksum | scar-rs/scar/src/pax.rs:348-358 | Every block that is written carries a valid checksum: the stored octal number is the byte sum with the checksum field read as spaces. |
| PaxHeader.HeaderBlockFields | scar-rs/scar/src/pax.rs:452-465 | Reading any field of a written header block gives the written number modulo the field width, the whole seconds of the time whatever its fraction, or the string cut to its field and at its first NUL; no field disturbs another. |
| PaxHeader.NextHeaderBlock | scar-rs/scar/src/pax.rs:681-809 | A header block in front of any bytes ends the header, takes exactly 512 bytes and is resolved against the pending and the global records. |
| PaxHeader.NextRawEntry | scar-rs/scar/src/pax.rs:475-482 | A written g, x, L or K entry is absorbed with its exact content and the reader goes on right behind its padding. |
| PaxHeader.ResolveWritten | scar-rs/scar/src/pax.rs:720-806 | Resolving a written block against the extended records written with it gives the computed read-back metadata. |
| PaxHeader.ReadWrittenHeader | scar-rs/scar/src/pax.rs:395-468 | next_header after write_header, computed for every metadata: it consumes exactly the bytes written and gives the read-back metadata, or fails exactly when an extended value is too long. |
| PaxHeader.ReadbackExact | scar-rs/scar/src/pax.rs:395-468 | The read-back equals the metadata exactly when the metadata is representable. |
| PaxHeader.HeaderRoundTrip | scar-rs/scar/src/pax.rs:395-468 | Representable metadata always comes back equal, whether a field went through the block or an extended record; metadata that is not representable never does. |
| PaxHeader.RepresentableIsShort | scar-rs/scar/src/pax.rs:475-482 | The extended header of representable metadata fits its own size field. |
| PaxHeader.ReadPaddedContent | scar-rs/scar/src/pax.rs:360-393 | read_content inverts write_content and consumes exactly whole blocks. |
| PaxHeader.TypeRoundTrip | scar-rs/scar/src/pax.rs:129-157 | File types survive their type characters. |
| Resolution.ResolvesEachField | scar-rs/scar/src/pax.rs:681-806 | For any number of x, g, L and K entries in any order and any header block behind them: each field, by its place in the block, is what the last x entry with it (or L or K, for a name) says, else the last g entry with it, else the globals known before, else the block, with the prefix field in front of a name that uses it. |
| Resolution.ResolvedFields | scar-rs/scar/src/pax.rs:713-806 | Resolution of a block against pending and global records, field by field, by the places of the fields in the block. |
| Resolution.KeepsGlobals | scar-rs/scar/src/pax.rs:697-702 | What is kept for later headers is what the g entries say, the last one winning, on top of the globals known before; x, L and K entries leave nothing behind. |
| Resolution.NextWinsOverGlobal | scar-rs/scar/src/pax.rs:720-806 | A g entry, an x entry and a written block: every field of the header is that of the x records, else of the g records, else of the block, cut to its width; the g records stay as globals. |
| Resolution.WrittenFields | scar-rs/scar/src/pax.rs:452-465 | Every field of a written block by its place: numbers modulo the width, strings cut to the field and at a NUL, and the whole seconds of the time, whatever its fraction: 0 for a negative time and 2^64 - 1 for one past that, modulo 8^11. |
| Resolution.WritesSealed | scar-rs/scar/src/pax.rs:348-358 | Every block that is written says ustar and 00, and its checksum is the sum of its bytes with eight spaces for the checksum. |
| Resolution.OneBlockExactly | scar-rs/scar/src/pax.rs:395-450 | A header is the plain block alone exactly when no field is set that only a record can hold and every field fits its place in the block. |
| Resolution.WrittenHeader | scar-rs/scar/src/pax.rs:395-468 | What next_header gives for a written header, field by field: ids, size, large names and times with a fraction come back whole, modes and devices modulo 8^7, short names up to a NUL. |
| Resolution.NeedsTwoZeroBlocks | scar-rs/scar/src/pax.rs:704-711 | A zero block ends the archive if another one follows, and is refused otherwise. |
| Resolution.CutShort | scar-rs/scar/src/pax.rs:685-686 | Input that ends inside a block is refused. |
| Resolution.UnreadableRefused | scar-rs/scar/src/pax.rs:697-702 | An x or g entry with a record that cannot be read makes the header fail, whatever follows. |
| Resolution.ContentExactly | scar-rs/scar/src/pax.rs:378-393 | Content takes the least whole number of blocks that holds it, and fails when they are not all there. |
| Grammar.KeyNames | scar-rs/scar/src/pax.rs:578-607 | The twelve keys are spelled as POSIX spells them. |
| Grammar.OtherNamesSkipped | scar-rs/scar/src/pax.rs:602-607 | A record with any other key changes nothing. |
| Grammar.SectionNames | scar-rs/scar/src/write.rs:120-141 | The names of the sections and the end marker of the plain format. |
| Grammar.U64Exactly | scar-rs/scar/src/pax.rs:584-602 | A number is accepted exactly when it is an optional plus sign and digits whose value fits 64 bits. |
| Grammar.ReadsTime | scar-rs/scar/src/pax.rs:578-580 | An optional sign, digits and a fraction are read as exactly that time. |
| Grammar.OnlyTimesRead | scar-rs/scar/src/pax.rs:578-580 | Nothing else is read as a time. |
| Grammar.TrimmedZeros | scar-rs/scar/src/pax.rs:578-580 | What a fraction loses is zeros at its end. |
| Grammar.OnlyRecordsRead | scar-rs/scar/src/pax.rs:517-576 | Whatever is read as a record is digits, a space, a key, an equals sign, a value of less than 16384 bytes and a line feed. |
| Grammar.ReadsRecordExactly | scar-rs/scar/src/pax.rs:517-576 | A text of that form is read as a record exactly when its digits, leading zeros allowed, count it whole and its value is that short. |
| Grammar.RecordPrints | scar-rs/scar/src/pax.rs:324-338 | A record is printed in that form, and its length counts it whole. |
| Grammar.PrintsInOrder | scar-rs/scar/src/pax.rs:611-665 | The records of a header are printed in the alphabetical order of their keys. |
| Grammar.RecordsEndExactly | scar-rs/scar/src/pax.rs:520-531 | The records end without an error exactly where nothing but digits is left. |
| Grammar.OnlyEntriesRead | scar-rs/scar/src/read.rs:263-369 | Whatever is read as an index entry is length, type, offset, path and line feed with single spaces between, and the item names these parts. |
| Grammar.ReadsEntryExactly | scar-rs/scar/src/read.rs:263-369 | A text of that form is an entry exactly when its length counts it whole and is at most 16384. |
| Grammar.IndexEndsExactly | scar-rs/scar/src/read.rs:268-275 | The index ends exactly at the end of the input or where the name of the next section stands. |
| Grammar.OnlyNamedIndex | scar-rs/scar/src/read.rs:177-181 | No index is read that does not start with its name. |
| Grammar.OnlyNamedTable | scar-rs/scar/src/read.rs:130-134 | No checkpoint table is read that does not start with its name. |
| Grammar.ReadsCheckpointExactly | scar-rs/scar/src/read.rs:146-164 | A line of the table is read exactly when it is two runs of digits with a space between and a line feed behind, and as their values. |
| Grammar.ReadsLineExactly | scar-rs/scar/src/read.rs:102-112 | A line of the tail is read exactly when all but its last character is a 64-bit number. |
| Grammar.ReadsTailExactly | scar-rs/scar/src/read.rs:97-112 | A tail is read exactly when it is its name and two such lines. |
| PaxIO.WritePaxBytes | scar-rs/scar/src/pax.rs:324-338 | The method with its correction step appends the record text. |
| PaxIO.StringifyMeta | scar-rs/scar/src/pax.rs:611-665 | The sequence of optional writes prints exactly the records of the metadata, in order. |
| PaxIO.SealBlock | scar-rs/scar/src/pax.rs:348-358 | In place: the block becomes the sealed block. |
| PaxIO.BuildHeaderBlock | scar-rs/scar/src/pax.rs:452-465 | The in-place construction yields the header block that the round trip is about. |
| PaxIO.BuildRawBlock | scar-rs/scar/src/pax.rs:475-480 | The in-place construction yields the header block of a raw entry. |
| PaxIO.ParseRecord | scar-rs/scar/src/pax.rs:520-539 | The digit loop with wrap-around reads one record as specified, error cases included. |
| PaxIO.ParseBody | scar-rs/scar/src/pax.rs:541-576 | The key loop and the value read follow the specification, error cases included. |
| PaxIO.ParseMeta | scar-rs/scar/src/pax.rs:517-609 | The whole parse loop refines the recursive parse. |
| PaxIO.ReadContentFrom | scar-rs/scar/src/pax.rs:378-393 | The block loop delivers the content and leaves the reader behind the padding, or fails when input is missing. |
| PaxIO.ResolveBlock | scar-rs/scar/src/pax.rs:720-806 | Resolves every field as specified; `Resolution.ResolvedFields` says of each field where it comes from. |
| PaxIO.PaxReader.NextHeader | scar-rs/scar/src/pax.rs:681-809 | The loop over g, x, L, K and zero blocks refines the recursive reader; the global state and the stream position change exactly as specified. |
| Codec.PlainLaws | scar-rs/scar/src/compression/mod.rs:18-35 | The plain format obeys the laws of a codec whose decoder goes on with the next member. |
| Cursor.Decoder.FillBuf | scar-rs/scar/src/read.rs:23-33 | Over a shared cursor and arbitrary chunks the buffer is always a prefix of what remains and is empty only at the end. |
| Cursor.Decoder.HeldIs | scar-rs/scar/src/read.rs:268-275 | As long as each fill is full and no read goes past the buffer, the position in the input decides whether the next n bytes lie in the buffer as a whole. |
| Cursor.Decoder.ReadExact | scar-rs/scar/src/read.rs:213-231 | Exactly n bytes of the decoded stream are delivered, or none when fewer remain. |
| Cursor.Decoder.ReadLine | scar-rs/scar/src/read.rs:118-130 | The first line is delivered independently of how the stream is split into buffers. |
| Cursor.Decoder.ReadNumber | scar-rs/scar/src/util.rs:47-71 | The number and its digit count are independent of how the stream is split into buffers. |
| Sections.DeclaredLengthExact | scar-rs/scar/src/write.rs:186-214 | The declared length of an index entry is its true length, except for g entries where it is one too large. |
| Sections.NextItemText | scar-rs/scar/src/read.rs:263-369 | A printed entry with any path bytes is read back exactly, whatever follows, unless it is longer than 16384 bytes, when it is refused. |
| Sections.ReadItemsText | scar-rs/scar/src/read.rs:263-369 | A printed list of entries, at the end of the input or in front of the next section, reads back as that list, or fails exactly when one entry is too long. |
| Sections.ReadIndexText | scar-rs/scar/src/read.rs:169-189 | The index section round trip: at the end of the input or in front of the checkpoint section, the reader recovers the written list exactly when every entry has at most 16384 bytes. |
| Sections.IndexRestText | scar-rs/scar/src/read.rs:263-275 | Behind the entries of a written index the iterator stops at the end of the input or at the header of the next section. |
| Sections.ReadCheckpointsText | scar-rs/scar/src/read.rs:118-167 | The checkpoint section round trip, for every table of 64-bit pairs, at the end of the input or in front of the tail. |
| Sections.TableRestText | scar-rs/scar/src/read.rs:136-144 | Behind the lines of a written table the reader stops at the end of the input or at the tail header. |
| Sections.ReadTailText | scar-rs/scar/src/read.rs:97-112 | The tail text gives back both locations. |
| Archive.WriteHeaderBlocks | scar-rs/scar/src/pax.rs:395-468 | A written header is a positive number of whole blocks. |
| Archive.PutBlocksAppend | scar-rs/scar/src/write.rs:151-154 | Writing two runs of blocks is writing their concatenation. |
| Archive.CheckpointedBody | scar-rs/scar/src/write.rs:166-184 | A checkpoint changes the member structure but not the raw body. |
| Archive.LocatedContinues | scar-rs/scar/src/write.rs:75-112 | Bytes that lie in one member stay there through every later step of the writer. |
| Archive.ItemStep | scar-rs/scar/src/write.rs:75-92 | Adding one entry keeps the whole writer invariant. |
| Archive.RunInvariant | scar-rs/scar/src/write.rs:75-112 | Every run: the raw body is the concatenation of the entries, the index names each offset, each entry lies in one member, and each member starts at an entry. |
| Archive.NoStraddling | scar-rs/scar/src/write.rs:156-164 | Every run: each body checkpoint is the offset of the first header block of an entry, a multiple of 512, and no entry straddles a checkpoint. |
| Checkpoints.MadeWhenDue | scar-rs/scar/src/write.rs:156-182 | Every run, over the members and the format alone: each member that was closed had emitted more than 1 MiB when it was flushed in front of the next entry; each entry that is not the first of its member begins behind a flush after which the member had emitted at most 1 MiB. |
| Checkpoints.FlushedBeforeFinish | scar-rs/scar/src/write.rs:114-149 | Every member but the last was flushed right before it was finished, and three members follow those of the body. |
| RandomAccess.FindsGreatest | scar-rs/scar/src/read.rs:201-212 | On a sorted table the early-break scan finds the last checkpoint at or below the offset. |
| RandomAccess.SeekExactly | scar-rs/scar/src/read.rs:201-232 | A seek succeeds exactly when the decoder at the checkpoint yields all that is to be skipped, and leaves what follows. |
| Scan.ReachedIs | scar-rs/scar/src/read.rs:201-212 | The scan stops at the one position with everything before it at or below the offset and the next one past it. |
| Scan.StopsLast | scar-c/src/scar-reader.c:141-163 | In ascending positions the scan stops right behind the last one at or below the offset. |
| RandomAccess.Layout | scar-rs/scar/src/write.rs:114-149 | A finished file is the body members, then one member each for index, checkpoints and tail; the table holds member boundaries and the tail names the starts of the index and checkpoint members. |
| RandomAccess.BodyThenZeros | scar-rs/scar/src/write.rs:114-119 | The members of the body hold the entries and then 1024 zeros. |
| RandomAccess.DecodeMember | scar-c/src/compression/gzip.c:163-172 | Decoding from the start of any member of a finished file yields that member, and then nothing or what decoding from the next one yields, as the format does. |
| RandomAccess.BodyBehind | scar-rs/scar/src/compression/zstd.rs:70-77 | With a decoder that goes on, decoding from any body member yields the whole rest of the tar body. |
| RandomAccess.FindsMember | scar-rs/scar/src/read.rs:201-212 | For an offset inside member k the scan over the written table finds the start of member k. |
| RandomAccess.SeekRefinesBody | scar-rs/scar/src/read.rs:201-232 | From every offset, in body member k, the reader sees the raw body from there at least to the end of member k: exactly so far if the format marks member ends, and the whole rest of the body if the decoder goes on. |
| RandomAccess.SeekEntry | scar-rs/scar/src/read.rs:191-199 | Seeking to any index offset puts the reader in front of all bytes of that entry. |
| RandomAccess.SectionsOf | scar-rs/scar/src/read.rs:97-167 | What a decoder yields at each section of a finished archive: its text, and then nothing or the header of the next section. |
| RandomAccess.SeenEntries | scar-rs/scar/src/read.rs:263-275 | A written index is seen exactly when its entries are short enough and the next header, if there is one, lies in the buffer as a whole. |
| RandomAccess.SeenTable | scar-rs/scar/src/read.rs:136-144 | A written table is seen exactly when the next header, if there is one, lies in the buffer as a whole. |
| RandomAccess.OpenFinished | scar-rs/scar/src/read.rs:97-167 | Opening any finished archive and reading its index to the end recovers the table and all items, exactly when no index entry is longer than 16384 bytes and, unless the format marks where members end, both section headers lie in the buffer as a whole when they are looked for. |
| RandomAccess.SplitHeaderFails | scar-rs/scar/src/read.rs:268-275 | A plain archive whose section header is split between two fills of the buffer cannot be opened and read. |
| RandomAccess.ReadAddedEntry | scar-rs/scar/src/read.rs:191-232 | Seek, next_header and read_content return exactly the metadata and content that were added. |
| RandomAccess.RandomAccess | scar-rs/scar/src/read.rs:191-232 | End to end, for every run and every entry, in a format that marks where members end or when the section headers are seen: open, take the index item, seek by checkpoint, read; the result is exactly what was added. |
| Writer.ScarWriter.constructor | scar-rs/scar/src/write.rs:55-73 | A new writer satisfies the counter invariant. |
| Writer.ScarWriter.Step | scar-rs/scar/src/write.rs:24-34 | Both counters stay exact through every write and flush. |
| Writer.ScarWriter.MakeCheckpoint | scar-rs/scar/src/write.rs:166-184 | Closes the member, records its end in both coordinates and opens a new one; counters stay exact. |
| Writer.ScarWriter.ConsiderCheckpoint | scar-rs/scar/src/write.rs:156-164 | Flushes, and restarts the compressor as the specified run does; `Checkpoints.MadeWhenDue` says when that is. |
| Writer.ScarWriter.WriteContent | scar-rs/scar/src/pax.rs:360-376 | The block loop writes the padded content and takes exactly the content from the reader; it fails exactly when the reader has less. |
| Writer.ScarWriter.WriteRawEntry | scar-rs/scar/src/pax.rs:475-482 | Writes the whole blocks of a raw entry. |
| Writer.ScarWriter.WriteHeaderOf | scar-rs/scar/src/pax.rs:395-468 | Writes the extended and the plain header of the metadata. |
| Writer.ScarWriter.AddEntry | scar-rs/scar/src/write.rs:80-92 | Considers a checkpoint, records the entry at the current raw offset and writes its header. |
| Writer.ScarWriter.AddFile | scar-rs/scar/src/write.rs:75-78 | Adds one complete entry with padded content; fails exactly when content is missing. |
| Writer.ScarWriter.WriteBlock | scar-rs/scar/src/write.rs:151-154 | One block goes to the body. |
| Writer.ScarWriter.WriteIndexEntry | scar-rs/scar/src/write.rs:186-214 | Writes the entry text of the specification. |
| Writer.ScarWriter.Finish | scar-rs/scar/src/write.rs:114-149 | The produced file is the finished file of the run, section for section. |
| Reader.IndexIter.Next | scar-rs/scar/src/read.rs:263-369 | The next item depends only on what remains of the index, not on where the shared cursor was left, and fails at a section header of which the buffer holds only a part; the iterator is ready again after each item. |
| Reader.ScarReader.Index | scar-rs/scar/src/read.rs:169-189 | Checks the header and leaves the iterator in front of the first entry. |
| Reader.ScarReader.SeekToRawLoc | scar-rs/scar/src/read.rs:201-232 | The scan and the skip loop leave the decoder where the specified seek says, or fail when the raw data ends before. |
| Reader.ScarReader.ReadItem | scar-rs/scar/src/read.rs:191-199 | Gives a fresh header reader at the item, with the globals of the item in force. |
| Reader.ScarReader.ReadItemWhole | scar-rs/scar/src/read.rs:191-232 | Header and content of an item as specified. |
| Reader.ScarReader.ReadAll | scar-rs/scar/src/read.rs:263-369 | Iteration interleaved with reading every item yields the same items as an uninterrupted iteration, each with its entry; it fails exactly when that does, or when the header behind the index is missed. |
| Reader.ScarReader.ReadCheckpointSection | scar-rs/scar/src/read.rs:118-167 | The loop reads the table, or fails exactly when there is none or the header behind it is missed. |
| Reader.ScarReader.OpenAt | scar-rs/scar/src/read.rs:97-114 | From a tail on, the reader gets both offsets and the table as it is seen, and fails exactly when one of them cannot be read. |
| Reader.FinishedSections | scar-rs/scar/src/read.rs:268-275 | With steady fills, the length of each section of a finished archive decides whether the header behind it is seen. |
| Reader.SplitByOnePath | scar-rs/scar/src/read.rs:268-275 | An index with one path of 8169 bytes has 8190 bytes, and the header behind it is split. |
| Locate.LocateTail | scar-rs/scar/src/read.rs:59-95 | The search of create over the block it reads: it goes to the last occurrence of the magic there whose position, counted from the end of the file, decodes to a tail header. |
| Locate.LocatesTail | scar-rs/scar/src/read.rs:59-95 | When its length makes create search the end of a finished archive, and the tail member lies there and starts with the magic, the search finds the tail if and only if no later occurrence is taken for one. |
| Locate.LocatesPlainTail | scar-rs/scar/src/read.rs:59-95 | For the plain format the search finds the tail of every finished archive whose length makes it search the end. |
| Reader.ReadBack | scar-rs/scar/src/read.rs:55-116 | Opening a finished archive from its tail and reading every item gives all entries that were added, in order, if and only if the format marks where members end or both section headers lay in the buffer as a whole; with steady fills, if and only if the lengths of the sections allow it. |
| Convert.DecodeBody | scar-rs/scar/src/pax.rs:681-809 | Decoding a written body, whatever follows it, is computed for every list of entries: their read-backs, or failure exactly when an extended value is too long. |
| Convert.DecodeEntries | scar-rs/scar/src/pax.rs:681-809 | Decoding written entries in front of anything gives their read-backs and then what that decodes to, or fails exactly when an extended value is too long. |
| Convert.CutBody | scar-rs/scar/src/pax.rs:704-711 | Written entries with less than 1024 zeros behind them are refused. |
| Convert.SameItems | scar-rs/scar/src/pax.rs:395-468 | The read-backs are the entries themselves exactly when all are representable. |
| Convert.BodyKeepsMeaning | scar-rs/scar/src/pax.rs:681-809 | A written body decodes to the entries it was written for if all are representable, and to something else if not. |
| Convert.DecodedMembers | scar-rs/scar/src/read.rs:201-232 | Decoding from the front and from each body checkpoint, one after the other, yields the raw body. |
| Convert.BodyInFile | scar-rs/scar/src/write.rs:114-149 | What a reader decodes of a finished file, member by member or straight through, is the raw body it was written from. |
| Convert.ConvertPreservesMeaning | scar-rs/scar-bin/src/main.rs:271-298 | For every tar stream the reader accepts with representable metadata, decoding the tar body of the produced file gives the same resolved entries; with any other metadata it does not. |
| Convert.CopyBlocks | scar-rs/scar-bin/src/main.rs:285-292 | The size loop copies exactly the content blocks of a regular file, none for other types, and fails exactly when input is missing. |
| Convert.OnlyFilesHaveContent | scar-rs/scar-bin/src/main.rs:281-292 | Behind a regular file its content in the least number of whole blocks is taken, or the stream is refused; behind a header of any other type, whatever its size says, the next header follows. |
| Convert.CmdConvert | scar-rs/scar-bin/src/main.rs:271-298 | The command produces the finished archive of the entries decoded from its input, or fails exactly when the input cannot be decoded. |
| TailScan.FindLastOccurrence | scar-rs/scar/src/util.rs:27-45 | Returns the greatest match, or none exactly when there is none. |
| TailScan.FindTail | scar-rs/scar/src/read.rs:71-95 | The retry loop with its shrinking end tries every occurrence, overlapping ones too, exactly once and in descending order, until one is a tail: it returns that one, or none exactly when no occurrence is one. |
| TailScan.SearchesTheEnd | scar-rs/scar/src/read.rs:61-69 | The block that is searched is the last one of the file for exactly the lengths up to 512, and 1024. |
| CStream.Source.Read | scar-c/src/ioutil.c:96-106 | The backing reader: any positive chunk, failure at any time, 0 only at the end. |
| CStream.Reader.Read | scar-c/src/ioutil.c:336-439 | Through any nesting of limited and block readers the chunks concatenate to the stream, unless a block reader below has met a failure and hidden it. |
| CStream.Reader.LimitedRead | scar-c/src/ioutil.c:336-358 | A limited reader over any reader takes exactly what it delivers and never more than its limit; with a limit below zero it takes nothing. |
| CStream.BlockReader.constructor | scar-c/src/ioutil.c:360-377 | Shows the first byte of the stream. |
| CStream.BlockReader.Consume | scar-c/src/ioutil.c:379-401 | Delivers exactly one byte of the stream of whatever reader it stands on; the end is sticky. |
| CStream.BlockReader.Skip | scar-c/src/ioutil.c:403-416 | Skips exactly n bytes, or reports that fewer remain. |
| CStream.BlockReader.Read | scar-c/src/ioutil.c:418-439 | Delivers the next n bytes of the stream, fewer only at its end or at an error. |
| CStream.MemWriter.Grow | scar-c/src/ioutil.c:209-229 | Keeps the contents, makes room for n more bytes and stays below twice what is needed. |
| CStream.MemWriter.Write | scar-c/src/ioutil.c:239-250 | Appends exactly the data. |
| CStream.MemWriter.Put | scar-c/src/ioutil.c:252-261 | Appends one byte. |
| CPaxSyntax.CReadRecordText | scar-c/src/pax-syntax.c:105-187 | A record as both writers print it is accepted with its name, value and exact end, exactly when its value is not empty. |
| CPaxSyntax.CParseRecordsText | scar-c/src/pax-syntax.c:189-208 | Printed records parse to their assignments in order, or are refused exactly when a value is empty. |
| CPaxSyntax.ParseSize | scar-c/src/pax-syntax.c:105-123 | The size loop reads the wrapped number and its space, or fails at any other byte. |
| CPaxSyntax.ParseName | scar-c/src/pax-syntax.c:125-146 | The name loop stops at the equals sign and fails exactly when the name is too long or uses up the size. |
| CPaxSyntax.ParseU64Field | scar-c/src/pax-syntax.c:87-103 | Reads exactly size digits, wrapping around; fails at any other byte. |
| CPaxSyntax.ParseTimeField | scar-c/src/pax-syntax.c:11-66 | Takes exactly size bytes of an accepted time and keeps its text; refuses exactly the rest. |
| CPaxSyntax.ParseValue | scar-c/src/pax-syntax.c:148-187 | Whatever the kind of the field, exactly its value is consumed, and assigned as `CFields.AssignsItsField` says. |
| CPaxSyntax.ParseOne | scar-c/src/pax-syntax.c:105-187 | One record is read as specified and exactly its bytes are consumed. |
| CPaxSyntax.PaxParse | scar-c/src/pax-syntax.c:189-208 | No over-read through any nesting of readers and any chunking: the size becomes a signed limit, at most that is taken, and on success exactly the limit or all there is. Unless a read failed, the result, failure included, is the specified parse. |
| CPaxSyntax.TakesExactly | scar-c/src/ioutil.c:328-348 | A success takes min(size, available) bytes if and only if the size is below 2^63 or nothing is available. |
| CPaxSyntax.HiddenFailure | scar-c/src/ioutil.c:418-431 | Over a block reader whose error field is set the parse succeeds without having read anything. |
| CPaxSyntax.ReadPaxBlockAligned | scar-c/src/pax.c:48-65 | On success the reader has moved over the bytes that were taken and the rest of the last block of size; never over more. |
| CPaxSyntax.AlignedExactly | scar-c/src/pax.c:48-65 | What is moved over is a multiple of 512 if and only if the size is below 2^63 or a multiple of 512; below 2^63 it is the padded size. |
| CPaxSyntax.SizeTooLarge | scar-c/src/pax.c:48-65 | With a size of 2^63 + 1 nothing is parsed and 511 bytes are skipped. |
| CFields.AssignsItsField | scar-c/src/pax-syntax.c:150-178 | A record sets its own field and no other, to its text up to a NUL, its number modulo 2^64 or its time text, and is refused exactly when it is empty or of the wrong kind. |
| CFields.NameUpToNul | scar-c/src/pax-syntax.c:146-175 | The name of a record counts up to its first NUL. |
| CFields.OtherNamesSkipped | scar-c/src/pax-syntax.c:173-175 | A record with an unknown name changes nothing. |
| CFields.LastRecordWins | scar-c/src/pax-syntax.c:189-208 | Any list of printed records, with any keys any number of times: it is refused exactly when one record is; otherwise each key has the value of its last record, or what it had before if it has none. |
| CFields.SetsEachField | scar-c/src/pax-syntax.c:105-208 | A printed extended header, on top of any metadata: each of the twelve fields that it has is set to its number, its time text or its text up to a NUL, and each other field keeps what it had; it is refused exactly when one of its texts is empty. |
| CArchive.ScarIoPrintf | scar-c/src/ioutil.c:37-53 | A text of at most 127 bytes is printed as it is; nothing is known of a longer one. |
| CArchive.PrintIndexEntry | scar-c/src/scar-writer.c:122-151 | Whatever was printed for the line is framed with its self-counting length; a line of at most 127 bytes is the one asked for. |
| CArchive.SameEntryText | scar-c/src/scar-writer.c:133-138 | A line that is printed as asked for makes the index entry that the Rust writer prints. |
| CArchive.LineLength | scar-c/src/scar-writer.c:125-127 | The length of a line in terms of the offset and the path. |
| CArchive.LongestFirstPath | scar-c/src/ioutil.c:37-53 | The line of the first entry is short exactly when its path has at most 122 bytes. |
| CArchive.ScarWriter.CreateCheckpoint | scar-c/src/scar-writer.c:85-103 | Adds the pair of current offsets to the table text and to the abstract table, as `CCheckpoints.PlacedByRun` says of every run. |
| CArchive.ScarWriter.WriteEntry | scar-c/src/scar-writer.c:105-156 | Checkpoints exactly past the limit, then adds what was printed for the entry and its tar bytes; counters and both section buffers stay exact. |
| CArchive.ScarWriter.Finish | scar-c/src/scar-writer.c:158-223 | The file is body, index, checkpoints, tail with the true section offsets, and end marker. |
| CCheckpoints.PlacedByRun | scar-c/src/scar-writer.c:85-120 | Every run: each checkpoint is the pair (n, n) for the start n of an entry, more than 10 MiB behind the one before, and no entry starts more than 10 MiB behind the last checkpoint before it. |
| CCheckpoints.OnlyOneTable | scar-c/src/scar-writer.c:85-120 | The entries leave no choice: only one table is placed like that. |
| CReader.OpenFinished | scar-c/src/scar-reader.c:207-348 | For every run, whatever was printed for its lines, the backward scan recovers the two offsets that the writer computed. |
| CReader.NextText | scar-c/src/scar-reader.c:406-533 | A printed entry is yielded exactly when its path is not empty; with an empty path the iterator fails. |
| CReader.ItemsText | scar-c/src/scar-reader.c:406-533 | Printed entries are listed in front of whatever follows, or the listing fails exactly when some path is empty. |
| CReader.RunInvariant | scar-c/src/scar-writer.c:85-156 | Every run: body and printed index are exact, and the checkpoint table is ordered, within the body, with equal coordinates. |
| CReader.IndexTextIs | scar-c/src/scar-writer.c:122-151 | With short lines the printed index is the text of the expected one. |
| CReader.ListFinished | scar-c/src/scar-reader.c:350-533 | Open and list, for every run with short lines: iteration yields exactly the written types, offsets and paths if no path is empty, and fails otherwise. |
| CReader.FinishedFits | scar-c/src/scar-reader.c:428-430 | In a file of less than 2^63 bytes with short lines every number that opening and listing meets is in range. |
| CReader.BlankLineFails | scar-c/src/scar-reader.c:406-533 | If nothing comes out for a line that is too long, the listing fails. |
| CReader.ListsExactly | scar-c/src/ioutil.c:37-53 | Requests without empty paths are listed as written, whatever the formatting of long lines delivers, if and only if all their lines are short. |
| CReader.ParseTailNumber | scar-c/src/scar-reader.c:233-251 | The digit loop accepts exactly a number that ends with a line feed, and computes it if it is below 2^63. |
| CReader.ParseTail | scar-c/src/scar-reader.c:207-271 | Accepts exactly the header and two such numbers within 512 bytes, and computes those in range. |
| CReader.FindTail | scar-c/src/scar-reader.c:273-290 | The backward pointer loop returns the last position that parses as a tail. |
| CIterator.ReadDigits | scar-c/src/scar-reader.c:417-432 | Reads exactly the digits up to a space, for any chunking, and computes a number that is in range; fails at any other byte. |
| CIterator.IteratorEntry | scar-c/src/scar-reader.c:417-445 | Item and failure as specified, and the stream is left behind the item, for any chunking. |
| CIterator.IteratorBody | scar-c/src/scar-reader.c:450-458 | Type character and separator as specified. |
| CIterator.IteratorName | scar-c/src/scar-reader.c:460-533 | Offset, path and line feed, or the records of a g entry, as specified, with exact consumption. |
| CIterator.ParseGlobal | scar-c/src/scar-reader.c:487-490 | The records of a g entry are parsed through the iterator's own block reader: as long as its error field is clear, exactly their bytes are taken and the result is the specified parse. |
| CIterator.ReadPath | scar-c/src/scar-reader.c:503-520 | The path and its line feed are taken exactly; fails at any other byte or when input is missing. |
| CIterator.IndexIterator.Next | scar-c/src/scar-reader.c:406-533 | What it yields depends only on what is pending, not on where the shared cursor was moved; after an item it is ready again. |
| CIterator.Create | scar-c/src/scar-reader.c:292-348 | Gives the specified offsets as far as they are in range, unless its one read is cut short. |
| CIterator.StartIteration | scar-c/src/scar-reader.c:350-404 | Checks the index header and leaves the iterator in front of the first entry. |
| CIterator.ListAll | scar-c/src/scar-reader.c:292-533 | Opening and iterating, with arbitrary seeks and reads over the same cursor between items, gives exactly the result of an uninterrupted iteration, unless a read fails, the read of the tail block is cut short, or a number is out of range. |
| CSeek.LineOfText | scar-c/src/ioutil.c:441-468 | A short line followed by another is delivered whole and the rest starts at the next line. |
| CSeek.ReadLine | scar-c/src/ioutil.c:441-468 | The line loop delivers the specified line and leaves the specified rest, for any chunking; what it stores lies inside the buffer exactly when the line is shorter than the buffer. |
| CSeek.LineOfCheckpoint | scar-c/src/scar-reader.c:80-91 | A line of a written table is shorter than the buffer it is read into, and is read whole. |
| CSeek.StrToLLDigits | scar-c/src/scar-reader.c:100-110 | A printed offset below 2^63 is converted back. |
| CSeek.LoadLinesText | scar-c/src/scar-reader.c:80-129 | The lines of a written table load as the table, and loading stops at the tail. |
| CSeek.LoadText | scar-c/src/scar-reader.c:47-139 | A written checkpoint section loads as the table it was written from. |
| CSeek.SeekFinished | scar-c/src/scar-reader.c:141-203 | For every run: the table loads, the scan finds the greatest checkpoint at or below the offset, and the seek ends exactly at the offset. |
| CSeek.ListThenSeek | scar-c/src/scar-reader.c:542-563 | For every run with short lines and every entry: the listed item has its type and path, and seeking to its offset stands in front of exactly the bytes written for it. |
| CSeek.SeekingReader.LoadTable | scar-c/src/scar-reader.c:66-138 | The line loop loads the specified table or fails exactly when there is none. |
| CSeek.SeekingReader.EnsureCheckpointSection | scar-c/src/scar-reader.c:47-139 | Loads once; a table that counts as loaded is the one in the file, and a failed load leaves none. |
| CSeek.SeekingReader.FindCheckpoint | scar-c/src/scar-reader.c:141-163 | The loop with its early break returns the specified checkpoint. |
| CSeek.SeekingReader.SeekTo | scar-c/src/scar-reader.c:165-203 | On success the reader stands exactly where the table says; failure means that this position cannot be reached or that a read was cut short. |
| CSeek.WriteContent | scar-c/src/pax.c:596-628 | Appends the content padded to whole blocks; fails only on missing input or a read that was cut short. |
| CSeek.ReadContent | scar-c/src/pax.c:280-310 | Delivers the content and consumes exactly the padded length. |
| CGrammar.CNames | scar-c/src/scar-writer.c:158-223 | The names of the sections and the end marker. |
| CGrammar.CReadsRecordExactly | scar-c/src/pax-syntax.c:105-187 | A text in the form of a record is read exactly when its length counts it whole, its name has at most 62 bytes, and it has a value or no name. |
| CGrammar.OnlyCRecordsRead | scar-c/src/pax-syntax.c:105-187 | Nothing else is read as a record. |
| CGrammar.CReadsEntryExactly | scar-c/src/scar-reader.c:406-533 | A text in the form of an index entry is listed exactly when its length counts it whole and no part is empty. |
| CGrammar.OnlyCEntriesRead | scar-c/src/scar-reader.c:406-533 | Nothing else is listed, and the item names the parts. |
| CGrammar.ListingEndsExactly | scar-c/src/scar-reader.c:406-416 | The listing ends exactly where no digit stands. |
| CGrammar.GlobalTakesOneMore | scar-c/src/scar-reader.c:480-490 | Of a g entry as the Rust writer prints it the C iterator takes one byte too many for its records. |
| CGrammar.CReadsTailNumberExactly | scar-c/src/scar-reader.c:233-251 | A number of the tail is read exactly when it is digits and a line feed. |
| CGrammar.CReadsTailExactly | scar-c/src/scar-reader.c:207-271 | A tail is read exactly when it is its name and two such numbers, within 512 bytes. |
| CGrammar.OnlyTheEndCounts | scar-c/src/scar-reader.c:292-348 | Only the last 512 bytes of a file decide what opening it gives. |
| CGrammar.OnlyMarkedOpens | scar-c/src/scar-reader.c:322-330 | A file that is opened ends with the end marker. |
| CGrammar.LastTailTaken | scar-c/src/scar-reader.c:273-290 | Of everything that is a tail in the block the last one is taken. |
| CGrammar.OnlyNamedCIndex | scar-c/src/scar-reader.c:350-404 | No index is listed that does not start with its name. |
| CGrammar.OnlyNamedCTable | scar-c/src/scar-reader.c:66-78 | No checkpoint table is loaded whose first line is not its name. |
| CGrammar.LineSplits | scar-c/src/ioutil.c:441-468 | Every line of at most n + 1 bytes is delivered whole, with all line ends behind it skipped; a longer one is cut there. |
| CGrammar.CReadsOffset | scar-c/src/scar-reader.c:100-110 | Blanks, a sign and digits are converted to the number, kept at the bounds of a signed 64-bit one. |
| CGrammar.OnlyOffsetsRead | scar-c/src/scar-reader.c:100-110 | Nothing else is taken for an offset, but for the empty text. |
| CGrammar.CReadsTableLine | scar-c/src/scar-reader.c:93-124 | A line of the table, up to a NUL, is read exactly when it is two such offsets around its first space. |
| CGrammar.FileIs | scar-c/src/scar-writer.c:158-223 | The whole file of a run, byte by byte: tar bytes, 1024 zeros, and the sections with their names and true offsets. |
| Glob.TranslateOne | scar-c/cmd/scar/rx.c:32-49 | One turn of the loop appends the translation of one token. |
| Glob.BuildRxString | scar-c/cmd/scar/rx.c:26-70 | For a pattern that is not empty, or without options, the loop and the option suffixes build the specified text; looking at the last written byte is looking at the last byte of the pattern. |
| Glob.TextParses | scar-c/cmd/scar/rx.c:26-70 | Whatever the pattern, the built text is a well-formed expression, and which one: no pattern byte leaks into the syntax. |
| Glob.CharacterText | scar-c/cmd/scar/rx.c:33-48 | What each single character is translated to, and two stars. |
| Glob.PiecesText | scar-c/cmd/scar/rx.c:33-48 | A pattern is translated piece by piece, unless two stars are cut apart. |
| Glob.OptionText | scar-c/cmd/scar/rx.c:51-65 | The text that each option appends, by whether the pattern ends with a slash. |
| GlobMeaning.PatternMeans | scar-c/cmd/scar/rx.c:32-49 | In front of any tail the translated pattern matches where the glob matches. |
| GlobMeaning.SuffixMeans | scar-c/cmd/scar/rx.c:51-65 | The option suffixes accept exactly the remainders that the options ask for. |
| GlobMeaning.TranslationExact | scar-c/cmd/scar/rx.c:26-70 | For every pattern, options and path: the parsed expression accepts the path exactly when the glob with its options selects it with ** staying within a line. |
| GlobMeaning.TranslationPreservesMeaning | scar-c/cmd/scar/rx.c:26-70 | For every pattern, options and path: what the expression accepts, the glob selects; and the two agree if the path has no line feed, or if the pattern has no ** and not all children are wanted. |
| GlobMeaning.FewPairs | scar-c/cmd/scar/rx.c:26-70 | Where a line feed is followed by a slash, two parts of the expression have to meet, so only so many such places can be matched. |
| GlobMeaning.PatternsExactly | scar-c/cmd/scar/rx.c:26-70 | A pattern with options agrees with its glob on all paths if and only if it has no ** and not all children are wanted. |
| GlobMeaning.PathsExactly | scar-c/cmd/scar/rx.c:26-70 | Every pattern agrees with its glob on a path if and only if the path has no line feed. |

## Left out

- PaxHeader.HeaderRoundTrip: the converse is stated for extended headers of at most 8^11 - 1 bytes, the most their own size field can hold; representable metadata needs no such premise.
- PaxHeader.ReadWrittenHeader: for extended headers of at most 8^11 - 1 bytes, the most their own size field can hold.
- Convert.DecodeEntries: carries the same bound on extended headers.
- Convert.CutBody: carries the same bound on extended headers.
- Convert.DecodeBody: carries the same bound on extended headers.
- Convert.ConvertPreservesMeaning: the converse carries the same bound on extended headers.
- PaxRecords.ParseTimeText: about exact decimals; the rounding of `f64` and its infinities, NaN and exponents are not modelled.
- PaxIO.ParseMeta: refuses times with exponents, infinities and NaN, which parsing an `f64` accepts.
- PaxIO.WritePaxBytes: the key is one of the twelve that the callers use.
- RandomAccess.OpenFinished: starts from the location of the tail, which `create` finds only in files of some lengths (`Locate.LocatesTail`).
- RandomAccess.RandomAccess: starts from the location of the tail, too; the entry must be representable, and for a format whose decoder goes on both section headers must have been seen.
- Reader.IndexIter.Next: `g` entries are reported and not followed.
- Reader.ReadBack: covers archives that `add_entry` and `add_file` wrote with representable metadata and enough content, from the location of the tail.
- Locate.LocateTail: decoding errors are not modelled, a failing decoder is one that yields no tail header; the block is read whole.
- PaxIO.PaxReader.NextHeader: refuses times with exponents, infinities and NaN, as `PaxIO.ParseMeta` does.
- CIterator.IndexIterator.Next: at a `g` entry it takes the records and returns; the code goes back to its start and seeks to a position that is stale by then, so what follows depends on the chunks of the reader.
- CPaxSyntax.ParseTimeField: keeps the text of a time instead of its floating-point value.
- CPaxSyntax.PaxParse: failing allocations are not modelled; a value that no memory could hold is refused when the input ends.
- CArchive.ScarWriter.WriteEntry: the tar bytes of an entry are a parameter; a line that is too long may also end the program, which is not modelled.
- CSeek.ListThenSeek: the tar bytes of an entry are a parameter.
- CSeek.SeekingReader.SeekTo: the difference of two 64-bit offsets is taken as it is; in a table that was not written by Scar it could overflow.
- CSeek.ReadLine: what a store behind the buffer does is not modelled.
- CReader.ParseTail: a read past the end of the block counts as a mismatch; of a number from 2^63 on, nothing is promised.
- CReader.ParseTailNumber: of a number from 2^63 on, nothing is promised.
- CIterator.ReadDigits: of a number from 2^63 on, nothing is promised.
- CIterator.ListAll: for files whose numbers are in range.
- Convert.BodyKeepsMeaning: the converse carries the bound on extended headers.
- Glob.BuildRxString: for an empty pattern with an option nothing is promised, since the code reads through a null pointer.
- `add_global_meta` and following `g` index entries: the divergence above.
- The C header writer and reader (`scar_pax_write_meta`, `scar_pax_read_meta`): the Rust pair is modelled instead; the C time printer and parser do not invert each other, and strings that fill their field lose a byte.
- Counting readers and writers: their counters are fields here.
- Detection of the compression format, and the gzip, xz and zstd codecs: foreign code behind the codec laws.
- PCRE2 and the `regex` crate: the emitted fragment has its own parser and semantics here. fnmatch.rs is not part of this model.
- File handles, directory walking, user lookup, argument parsing, printing and the other commands: input and output only.
- Memory allocation failure, freeing and pointer ownership in C.
