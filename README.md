# chksvs: decoding SVS sample files

`chksvs` reads SVS files and turns each into output files under a data
directory. An SVS file is a 16-byte big-endian envelope followed by a
payload.

- **Intro records** (envelope sequence 1) have their payload copied to
  `<upi>.ini`.
- **Data records** carry a 74-byte little-endian packet metadata record.
  That record becomes an XML description. The sample block after it
  becomes a CSV table. Both go to a shard directory
  `<datadir>/<upi>/<seq / per, six digits>/`.
- **Other files:** a file without the "SVS " tag is skipped silently. A file
  cut short fails with the read error of the `encoding/binary` or `io` read
  that ran out of bytes.

This project models that core as it is written in `chksvs.go`:

- the envelope and metadata layouts, with their decoders and encoders;
- the identifier taken from the input file's name;
- the trimmed UPI text;
- the two timestamp layouts;
- the data file name and the shard directory;
- the XML description's attributes and elements;
- the conversion of the sample block into CSV records;
- the clamping of the `-p` and `-w` flags;
- the `.bad` input filter.

The steps that read a cursor one step at a time are methods on a `Reader`
class, in the program's own order: `processFile`, `processIntro`,
`processMeta` and `processData`. The header and the rows of `processData`
are written into one array reused in place, as the program's `vs` slice is.
Each method is proved equal to a specification function: `FileSpec`,
`RecordSpec` or `SampleBlock`. The lemmas prove the following about those
functions:

- round trips of every layout;
- the exact error conditions;
- where each output file goes and what its name is made of;
- that a data file written from a record and a sample block decodes back to
  them.

Modules, one per file:

| module | file | what it holds |
|---|---|---|
| `Bytes` | bytes.dfy | fixed-width words and their byte layouts |
| `Text` | text.dfy | decimal, `%0Nd`, `%04x`, `strings.Split` and `strings.Join` |
| `Paths` | paths.dfy | `filepath.Base`, `Ext` and `Join`, and the `.bad` filter |
| `Clock` | clock.dfy | ticks, `time.Duration` and the two layouts |
| `Stream` | stream.dfy | the read cursor and the `io` errors |
| `Container` | container.dfy | envelope, metadata and UPI |
| `Samples` | samples.dfy | the sample block and `processData` |
| `Naming` | naming.dfy | flags, identifier, shard and data file name |
| `Description` | description.dfy | the XML description |
| `Pipeline` | pipeline.dfy | `processFile`, `processIntro` and `processMeta` |

What the program takes from outside the core is passed in as a parameter.

- **Calendar:** `Clock.Calendar` turns a signed nanosecond offset from the
  GPS epoch into UTC calendar fields. This is Go's `time` package.
- **Float rendering:** `Samples.FloatFormat` renders a float32 bit pattern
  as `strconv.FormatFloat(…, 'f', -1, 32)` does.
- **File system:** file contents arrive as a byte sequence. What would be
  written is returned as an `Outcome`: `Failed`, `Skipped`, `Crashed`,
  `Intro(path, payload)`, or `Data(meta, xmlPath, document, csvPath, block)`.

Where the code does something other than its names or tags suggest, the model
follows the code:

- The UPI element is named `upi`, not `user-packet-info`. The UPI type's
  own `MarshalXML` (`chksvs.go:36-40`) uses that name and ignores the field
  tag.
- The UPI is trimmed of zero bytes at both ends (`bytes.Trim`). Trailing
  padding is not the only thing removed.
- The compact stamp has the layout "20060102_150406". In Go's layout
  language "06" is the two-digit year, so the last two characters of the
  stamp repeat the year and the seconds never appear (`Clock.CompactLayout`).
- The sequence field of the data file name is `%06d`: at least six digits,
  and exactly six only below 1000000 (`Naming.DataNameLayout`).
- A sample block with N = 0 and bytes after it never terminates: the row
  loop consumes nothing. This is the `Endless` outcome.
- An input whose base name has fewer than five '_' makes the identifier's
  slice expression panic. This is the `Crashed` outcome.

## Model

| member | source | states |
|---|---|---|
| Bytes.LEOfToLE | chksvs.go:195 | little-endian decoding of the `w`-byte layout of any value below 256^w gives the value back |
| Bytes.ToLEOfLE | chksvs.go:195 | every byte string is the little-endian layout, at its own width, of the value it decodes to |
| Bytes.BEOfToBE | chksvs.go:154 | big-endian decoding of the `w`-byte layout of any value below 256^w gives the value back |
| Bytes.ToBEOfBE | chksvs.go:154 | every byte string is the big-endian layout, at its own width, of the value it decodes to |
| Bytes.U16LE | chksvs.go:257 | a u16 read is within 0..65535 and its two-byte layout is the bytes it was read from |
| Bytes.U32LE | chksvs.go:195 | a little-endian u32 read is within 0..2^32−1 and its four-byte layout is the bytes it was read from |
| Bytes.U64LE | chksvs.go:195 | a little-endian u64 read is within 0..2^64−1 and its eight-byte layout is the bytes it was read from |
| Bytes.U32BE | chksvs.go:154 | a big-endian u32 read is within 0..2^32−1 and its four-byte layout is the bytes it was read from |
| Bytes.U64BE | chksvs.go:154 | a big-endian u64 read is within 0..2^64−1 and its eight-byte layout is the bytes it was read from |
| Bytes.ReadsBack | chksvs.go:154-155 | each typed reader (u16, u32, u64; LE and BE) reads back the layout of any value of its width |
| Stream.ShortRead | chksvs.go:154-156 | a short fixed-size read fails with `EOF` exactly when no byte was there, otherwise with `UnexpectedEOF` |
| Stream.Reader.constructor | chksvs.go:246 | a new cursor is positioned at the first byte of the data it reads |
| Stream.Reader.ReadByte | chksvs.go:249-252 | with bytes left: the next byte, cursor advanced by one; with none: `EOF`, cursor unchanged |
| Stream.Reader.ReadFull | chksvs.go:154-156 | with `n` bytes left: exactly those bytes, cursor advanced by `n`; otherwise the short-read error and the input consumed |
| Stream.Reader.ReadAll | chksvs.go:240-243 | everything that was left, and the cursor at the end |
| Container.DecodeEnvelope | chksvs.go:149-155 | the tag is bytes 0..3, the sequence is big-endian in bytes 4..7 and the tick big-endian in bytes 8..15; every 16 bytes are the layout of the envelope they decode to, so no byte is ignored |
| Container.DecodeEncodeEnvelope | chksvs.go:149-156 | decoding the 16-byte big-endian layout of an envelope gives back its tag, sequence and tick |
| Container.IdentityDecodes | chksvs.go:66-70 | bytes 0..21 of the record decode to magic, acquisition, sequence, auxiliary time and originator id |
| Container.GeometryDecodes | chksvs.go:71-74 | bytes 22..28 of the record decode to the source extents, format and drop count |
| Container.RegionDecodes | chksvs.go:75-80 | bytes 29..40 of the record decode to the region of interest and the scale sizes |
| Container.DecodeEncodeMetadata | chksvs.go:65-83 | the 74-byte little-endian layout of any metadata record decodes back to that record, field for field |
| Container.DecodeMetadata | chksvs.go:194-197 | every 74 bytes are the little-endian layout of the record they decode to: the layout has no padding and no byte is ignored |
| Container.TrimZeros | chksvs.go:38 | the result is a contiguous slice of the buffer with only zero bytes before and after it, and it neither starts nor ends with a zero byte |
| Container.TrimZerosOfPadded | chksvs.go:37-38 | any text whose first and last bytes are non-zero comes back unchanged from any zero padding on either side, inner zeros included |
| Container.UpiText | chksvs.go:39 | the UPI text has one character per byte of the trimmed buffer, with that byte's code |
| Text.Decimal | chksvs.go:264 | `strconv.Itoa` of a non-negative integer is a non-empty digit string with no leading zero unless the value is 0 |
| Text.ParseDecimalOfDecimal | chksvs.go:264 | the decimal rendering of `n` reads back as `n` |
| Text.DecimalInjective | chksvs.go:260 | distinct numbers have distinct decimal renderings |
| Text.PadDecimal | chksvs.go:176 | `%0wd` is a digit string of at least `w` characters that reads back as the value |
| Text.PadDecimalWidth | chksvs.go:204 | `%0wd` has exactly `w` characters exactly when the value is below 10^w |
| Text.Hex04 | chksvs.go:200 | `%04x` of a byte is "00" and two lower-case hex digits whose value is the byte |
| Text.Split | chksvs.go:162 | `strings.Split` on one character gives at least one piece, and no piece contains the separator |
| Text.JoinSplit | chksvs.go:162-163 | joining the pieces of a split with the separator gives back the string |
| Text.SplitJoin | chksvs.go:162-163 | splitting a join of separator-free pieces gives back the pieces |
| Text.SplitCount | chksvs.go:162 | a split gives one more piece than the string has separators |
| Paths.Base | chksvs.go:162 | `filepath.Base` is never empty and holds no '/' unless it is "/" itself |
| Paths.BaseOfChild | chksvs.go:224 | the base of `dir/name` is `name` for any plain name |
| Paths.BaseOfName | chksvs.go:224 | a plain name is its own base |
| Paths.Ext | chksvs.go:300 | `filepath.Ext` is a suffix of the path; when not empty it starts with the final '.' and holds no other '.' or '/' |
| Paths.ExtOfSuffix | chksvs.go:300 | a path ending in '.' and a suffix without '.' or '/' has "." + suffix as its extension |
| Paths.KeepInputByExt | chksvs.go:320 | `KeepInput`: a file whose final extension is `ext` is passed on exactly when `-k` is given or `ext` is not "bad" |
| Paths.JoinPathAppend | chksvs.go:176 | `JoinPath` (`filepath.Join` without `Clean`): joining one more non-empty element puts it after a '/', or alone when the rest joins to nothing |
| Clock.Duration | chksvs.go:49 | `time.Duration` of a tick is a signed 64-bit value equal to the tick modulo 2^64, and the tick itself below 2^63 |
| Clock.DurationInjective | chksvs.go:49 | distinct ticks give distinct offsets from the epoch |
| Clock.TrimTrailingZeros | chksvs.go:45 | the result followed by the removed '0's is the input, and it does not end in '0' |
| Clock.FractionShape | chksvs.go:45 | ".999999999" is empty exactly for whole seconds; otherwise '.' and 1 to 9 digits, no trailing zero, which padded to nine digits read as the nanoseconds |
| Clock.DateLayout | chksvs.go:45 | for a four-digit year the date is 10 characters "YYYY-MM-DD" whose fields read back as year, month and day |
| Clock.TimeOfDayLayout | chksvs.go:45 | the time of day is 8 characters "hh:mm:ss" whose fields read back as hour, minute and second |
| Clock.PreciseLayout | chksvs.go:44-46 | the precise form is the date, 'T', the time of day, the fraction and a final 'Z' |
| Clock.CompactDateLayout | chksvs.go:200 | the compact date is eight digits reading back as year, month and day, with the year's last two digits at offset 2 |
| Clock.CompactTimeLayout | chksvs.go:200 | the compact time is six digits: hour, minute, then the year's last two digits where seconds would be |
| Clock.CompactLayout | chksvs.go:200 | the compact stamp is 15 characters: date, '_', time; its last two characters equal characters 2..3 and read as the year modulo 100 |
| Clock.LastTwoDigits | chksvs.go:200 | the last two characters of a four-digit rendering are the rendering of its value modulo 100 |
| Naming.EffectivePer | chksvs.go:101-103 | `-p` after the start-up check is positive; it is the flag's value, or 512 when that value is not positive |
| Naming.EffectiveWorkers | chksvs.go:104-106 | `-w` after the start-up check is positive; it is the flag's value, or 4 when that value is not positive |
| Naming.EffectiveSettings | chksvs.go:101-106 | the check leaves a value unchanged exactly when it is positive, and applying it twice is applying it once |
| Naming.Identifier | chksvs.go:161-164 | the identifier exists exactly when the base name has five or more '_' (otherwise the slice panics); it is empty with exactly five and never holds '/' |
| Naming.IdentifierOfName | chksvs.go:161-164 | for any path whose base name is `<prefix>_<ids…>_<five pieces>` (a plain name or in a directory), the identifier is the ids joined by '_' |
| Naming.Shard | chksvs.go:201 | the shard of sequence `s` is the `k` with `per*k <= s < per*(k+1)` |
| Naming.ShardDir | chksvs.go:204 | the `%06d` shard directory is at least six digits reading back as the shard, and exactly six for shards below 1000000 |
| Naming.ShardExamples | chksvs.go:201-204 | with the default of 512, sequences 0..511 go to "000000" and 1025 to "000002" |
| Naming.DataNameLayout | chksvs.go:200 | `DataName` with its `Stamp` splits into hex id (four characters, the last two lower-case hex digits reading as the originator id), identifier, 15-character stamp, at least six digits reading as the sequence (exactly six below 10^6) and ".csv" |
| Naming.NameFields | chksvs.go:200 | the positions of the four '_'-separated fields and the ".csv" suffix in a data file name |
| Naming.NameNoSlash | chksvs.go:200 | the data file name is a non-empty plain name when the identifier has no '/' |
| Naming.CompactDigits | chksvs.go:200 | the compact stamp holds no '/' |
| Samples.LabelReadsBack | chksvs.go:260 | a label is "g2(t, ", the scale word's decimal digits and ")": the scale reads back from it and distinct scales have distinct labels |
| Samples.Header | chksvs.go:253-261 | the header record has N + 1 fields and its first field is "t" |
| Samples.Row | chksvs.go:264-271 | a row record has N + 1 fields and its first field is the decimal row index |
| Samples.RowsOutcome | chksvs.go:263-273 | `Rows` (the row loop) converts exactly when the bytes after the header are a whole number of N×4-byte rows; otherwise the error is the short read of the incomplete row |
| Samples.RowsRecords | chksvs.go:263-273 | a successful conversion has one record per N×4-byte group, the k-th being row k read from the k-th group |
| Samples.SampleBlockTable | chksvs.go:249-273 | `SampleBlock`, for N > 0 with all scale words present: `Table` exactly when the rest is whole rows, with the header of "t" and the labels, then (L−1−2N)/(4N) rows numbered 0, 1, … of N + 1 fields; otherwise `Broken` with the partial row's error |
| Samples.HeaderLabels | chksvs.go:255-261 | header field j + 1 is the label of scale word j of the block |
| Samples.SampleBlockErrors | chksvs.go:249-273 | empty block: `EOF`; scale words cut short: the short read of the last word; an incomplete last row: broken; N = 0 with bytes left: endless |
| Samples.RowOfPacked | chksvs.go:265-271 | a row written as N little-endian words reads back as its index and the rendering of each word |
| Samples.HeaderOfPacked | chksvs.go:255-261 | N scale words written little-endian read back as "t" and their labels |
| Samples.RowsOfPacked | chksvs.go:263-273 | rows of N words each, written end to end, convert to their records numbered from the first index |
| Samples.SampleBlockRoundTrip | chksvs.go:233-277 | a block written from N > 0 scale words and rows of N words converts to the labels' header followed by one record per row |
| Samples.ReadHeader | chksvs.go:253-261 | with 2N bytes left, `vs` becomes the header of those bytes and the cursor moves 2N; otherwise the short read of the last word |
| Samples.ReadRow | chksvs.go:264-272 | with 4N bytes left, `vs` becomes row `i` of those bytes and the cursor moves 4N; otherwise the short read of the last word |
| Samples.ConvertSamples | chksvs.go:244-276 | the conversion as the program runs it, with one array rewritten for every record, yields exactly `SampleBlock` of the bytes |
| Samples.WriteRows | chksvs.go:263-273 | the row loop yields the records already written followed by the rows of what is left, or the first row's error |
| Samples.ProcessData | chksvs.go:233-277 | `processData` consumes the rest of the input and yields `SampleBlock` of those bytes |
| Description.RenderReadsBack | chksvs.go:52-58 | a number is written as digits that read back as it; a tick with a four-digit year as date, 'T', time of day and a final 'Z' |
| Description.ElementsDetermine | chksvs.go:215-230 | `MetadataElements`: two records with the same sixteen child elements (acquisition-time … scale-far, upi) agree on the acquisition tick, every numeric field and the trimmed UPI |
| Description.ValuesDetermine | chksvs.go:215-230 | two records with the same sixteen element values agree on the acquisition tick, every numeric field and the trimmed UPI |
| Description.UpiTextInjective | chksvs.go:36-40 | two UPI buffers with the same text have the same trimmed bytes |
| Description.DescribeIgnoresMagic | chksvs.go:66 | `Describe`: changing the magic byte (`xml:"-"`) leaves the description unchanged |
| Description.DescribeUpi | chksvs.go:36-40 | the "upi" element of a buffer holding a text between zero bytes is that text, byte for character |
| Pipeline.ProcessIntro | chksvs.go:182-191 | the `.ini` file is `<datadir>/<upi>.ini` and its contents are everything left after the envelope |
| Pipeline.ProcessMeta | chksvs.go:193-231 | fewer than 74 bytes: the short-read error; otherwise the decoded record and its `MetaArtifacts` (file name, shard, XML path `<datadir>/<shard>/<name>.xml`, description), and the cursor 74 bytes on |
| Pipeline.ProcessFile | chksvs.go:142-180 | the program's steps over one cursor yield exactly `FileSpec` of the file's name and contents |
| Pipeline.ProcessRecord | chksvs.go:165-180 | past the envelope, the intro branch or the metadata and sample steps yield exactly `RecordSpec` of the rest |
| Pipeline.EnvelopeOutcome | chksvs.go:149-164 | `FileSpec` under 16 bytes: the short-read error (`EOF` exactly for an empty file); skipped exactly for a wrong tag; crashed exactly for a right tag and fewer than five '_' in the base name |
| Pipeline.IntroOutcome | chksvs.go:171-172 | for any file path with an identifier (a plain name or a name in a directory), an envelope with sequence 1 sends the payload unchanged to `<root>/<upi>/<upi>.ini` |
| Pipeline.MetadataTooShort | chksvs.go:174-179 | a data envelope followed by fewer than 74 bytes gives the short read of those bytes and no file name |
| Pipeline.DataPaths | chksvs.go:174-177 | the CSV path is `<root>/<upi>/<shard>/<name>`, its base is the data file name, and the XML path is the CSV path + ".xml" |
| Pipeline.ShardPaths | chksvs.go:204-209 | joining directory and shard first and then the name is joining all three, whose base is the name |
| Pipeline.RecordData | chksvs.go:193-197 | after a data envelope, an encoded record decodes to itself and its description, and the bytes after it are the sample block |
| Pipeline.DataOutcome | chksvs.go:174-178 | a data envelope and an encoded record decode to that record, its description and the sample block of what follows |
| Pipeline.DataRoundTrip | chksvs.go:165-178 | a data file written from a record, N > 0 scales and rows of N words decodes to the record, its description and the table of labels and rendered rows |

## Definitions

These specification functions carry no contract of their own beyond
lengths and ranges. What each one means is stated by the members named
here, and each of those has its row above.

| definition | source | stated by |
|---|---|---|
| `Container.EncodeEnvelope`, `Container.EncodeMetadata` | chksvs.go:65-83, 149-153 | `DecodeEncodeEnvelope`, `DecodeEncodeMetadata`, `DecodeEnvelope`, `DecodeMetadata` |
| `Naming.Stamp`, `Naming.DataName` | chksvs.go:199-200 | `Naming.DataNameLayout`, `Naming.NameNoSlash`, `Clock.CompactLayout` |
| `Samples.Label` | chksvs.go:260 | `Samples.LabelReadsBack` |
| `Samples.Rows` | chksvs.go:263-273 | `Samples.RowsOutcome`, `Samples.RowsRecords`, `Samples.RowsOfPacked` |
| `Samples.SampleBlock` | chksvs.go:249-273 | `Samples.SampleBlockTable`, `Samples.SampleBlockErrors`, `Samples.SampleBlockRoundTrip`, `Samples.ConvertSamples` |
| `Description.MetadataElements`, `Description.Describe` | chksvs.go:215-230 | `Description.ElementsDetermine`, `Description.DescribeIgnoresMagic`, `Description.DescribeUpi`, `Description.RenderReadsBack` |
| `Pipeline.MetaArtifacts` | chksvs.go:198-230 | `Pipeline.ProcessMeta`, `Pipeline.DataPaths` |
| `Pipeline.FileSpec`, `Pipeline.RecordSpec` | chksvs.go:142-180 | `Pipeline.ProcessFile`, `Pipeline.ProcessRecord`, `Pipeline.EnvelopeOutcome`, `Pipeline.IntroOutcome`, `Pipeline.MetadataTooShort`, `Pipeline.DataPaths`, `Pipeline.DataOutcome` |
| `Paths.KeepInput` | chksvs.go:300, 320 | `Paths.KeepInputByExt` |
| `Paths.JoinPath` | chksvs.go:165, 176, 209 | `Paths.JoinPathAppend`, `Pipeline.ShardPaths` |

## Left out

- Concurrency (`chksvs.go:113-139`): the semaphore, the goroutines and
  their log lines. The model handles one file at a time, and no per-file
  result depends on the others.
- Input enumeration (`chksvs.go:279-329`): reading paths from standard
  input and walking directories are file-system I/O. Only their common
  `.bad` filter is modelled (`Paths.KeepInput`).
- File-system effects: opening the input, `MkdirAll`, `Create`, `io.Copy`
  and their errors. `Outcome` gives the paths and contents that would be
  written. An error of the file system itself is not represented.
- Output written before a failure: whatever a CSV writer or XML encoder has
  flushed when a later read fails is not modelled. `Broken` carries only the
  error.
- Calendar arithmetic: `GPS.Add(d).UTC()` is the `Calendar` parameter. Only
  the reinterpretation of the tick as a signed duration is modelled.
- Float rendering: `strconv.FormatFloat` is the `FloatFormat` parameter,
  applied to the float32's bit pattern.
- XML and CSV encoding: the tags, escaping, indentation and CSV quoting are
  left out. `Document` holds the names and values the encoder receives.
- Non-ASCII and control bytes in the UPI: `string(xs)` keeps raw bytes, and
  the XML encoder then replaces invalid UTF-8 and ASCII control bytes with
  U+FFFD. That includes zero bytes inside the text, which the trim keeps
  (`Container.TrimZerosOfPadded`, `Description.DescribeUpi`). The model maps
  every byte to the character with that code.
- `filepath.Join`'s final `Clean`: `Paths.JoinPath` joins the non-empty
  elements with '/' and does not remove "." or "..", or doubled slashes
  inside an element. A data directory given with a trailing '/' (`-d out/`)
  gives `out//upi` in `JoinPath` where Go gives `out/upi`.
- Flag parsing: `-d` and `-k` are plain parameters. The int64 range of `-p`
  and `-w` is not modelled; any integer is accepted.
- The non-terminating row loop for N = 0 with bytes left is represented by
  the `Samples.Endless` outcome, returned before the loop.
- The slice panic for a short identifier is reported as `Pipeline.Crashed`.
  The process abort that follows is not modelled.
- Pipeline.DataRoundTrip: does not state the data file's name. The name
  depends on the `Calendar` parameter; its layout is stated for any
  calendar by Naming.DataNameLayout.
