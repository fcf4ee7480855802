# TFS dataframe core in Dafny

This project models `tfs_dataframe.h`, the header-only C++ library that reads and writes
TFS tables. A TFS table has three parts:

- `@ name type value` property lines;
- a `*` line of column names and a `$` line of column types;
- whitespace-separated data rows.

The library also has a binary format of its own. The model covers these pieces:

- the scalar `data_value` (`Values`) and the named `data_property`;
- the typed column `data_vector`: its value-level meaning is in `Columns`, and the mutable
  object `DataVectors.DataVector` is proved against it;
- the text helpers (`Text`): `tokenize`, `DT_from_string` / `string_fromDT`, the `strtol`
  call with its `(int)` cast, and the string collapse of `read_property`;
- `std::map<std::string, size_t>` as a key-sorted association list (`OrderedMap`), since
  its iteration order is observable;
- the binary codec of strings, values, properties and columns (`Binary`) and of whole
  frames (`FrameCodec`);
- the text reader of `dataframe(path, index)`, with its header latch `ini_complete`
  (`Frames`);
- the mutable `DataFrames.DataFrame` class, whose five fields are those of the C++ class.
  Every method is proved against the value-level functions of `Frames` and `FrameCodec`.

Conventions used throughout:

- Strings are byte sequences.
- A `real` is an opaque 64-bit pattern, and `strtod` is a function parameter.
- The binary layout is little-endian: `u16` string lengths, `u32` tags, `u64` counts,
  two's complement `i32`.
- Undefined behaviour in the source (an unchecked index, a dereferenced empty map, a token
  vector indexed past its end) becomes `Err(Undefined)`.
- A C++ exception becomes an `Err` naming it.
- Reading past the end of the input becomes `Err(EndOfStream)`.
- A reader is a function from the unread bytes to the item and the bytes left after it.
  Round trips are stated as `Read(Enc(x) + rest) == Ok((x, rest))`.
- In the function model of `load_from_binary`, the header insertions are made after all
  columns are read. This gives the same map, because no read looks at the headers.
  `DataFrame.ReadColumnsFrom` interleaves them as the source does.

The model follows the code as written, including choices a reader might not expect:

- An unparsable numeric token becomes 0, through `strtol`, or whatever `strtod` returns. It
  is not reported as a parse error.
- Non-const `get_column(name)` silently inserts a missing name at position 0.
- Encoding a `D`, `B` or `C` column writes its header before it throws.
- A column name given twice on the `*` line keeps its first position (`map::insert`). When
  the `$` line gives one type per name, the map then has fewer entries than there are
  columns, and the header never latches.
- A key repeated in the index column keeps the row of its first occurrence.
- A string property keeps a trailing blank after its last word.
- `size()` is the size of the column under the alphabetically first header name.
- `read_from_binary` stores the name and tag it read before it throws.

## Model

| member | source | states |
|---|---|---|
| Bytes.FromLEToLE | tfs_dataframe.h:47 | decoding the little-endian bytes of `n < 256^w` gives back `n` |
| Bytes.ToLEFromLE | tfs_dataframe.h:60 | encoding the value of any byte string gives back those bytes |
| Bytes.UnsignedRoundTrip | tfs_dataframe.h:874-879 | u16/u32/u64 encodings have their width and decode to the number |
| Bytes.I32RoundTrip | tfs_dataframe.h:129 | the two's complement `int` encoding is 4 bytes and decodes to the same `int` |
| Bytes.LexTransitive | tfs_dataframe.h:509 | the key order of `std::map<std::string, …>` (byte-lexicographic) is transitive |
| Bytes.LexTotal | tfs_dataframe.h:509 | that order is total: two distinct keys are ordered one way |
| Bytes.LexIrreflexive | tfs_dataframe.h:509 | no key is below itself |
| Bytes.LexAsymmetric | tfs_dataframe.h:509 | no two keys are below each other |
| Values.TagCode | tfs_dataframe.h:126 | the `u32` code written for a tag is below 5 (the enumerator values) |
| Values.TagCodeRoundTrip | tfs_dataframe.h:144-146 | decoding a tag's code gives the tag |
| Values.TagOfCode | tfs_dataframe.h:144-146 | a code decodes to a tag exactly when it is one of the five codes |
| Values.DefaultValue | tfs_dataframe.h:98 | `data_value()` is the integer 0 |
| Values.GetInt | tfs_dataframe.h:171-173 | succeeds exactly on a `%d` value and returns its integer; otherwise `bad_variant_access` |
| Values.GetDouble | tfs_dataframe.h:185-187 | succeeds exactly on a `%le` value; otherwise `bad_variant_access` |
| Values.GetString | tfs_dataframe.h:212-214 | succeeds exactly on a `%s` value; otherwise `bad_variant_access` |
| Values.GetComplex | tfs_dataframe.h:200-204 | `(v, 0)` for a `%le` value, the stored complex for a `%c` value; other tags are excluded by the precondition |
| Values.GettersExclusive | tfs_dataframe.h:171-214 | exactly one typed getter succeeds on an `S`, `LE` or `D` value, and none on `B` or `C` |
| Text.FindFirstOf | tfs_dataframe.h:668 | `find_first_of`: the first delimiter position at or after `from`, or none |
| Text.FindFirstNotOf | tfs_dataframe.h:661 | `find_first_not_of`: the first non-delimiter position at or after `from`, or none |
| Text.Tokenize | tfs_dataframe.h:657-681 | the `tokenize` loop returns exactly `Words(str, delimiters)`, whatever `trimEmpty` is |
| Text.WordsAreWords | tfs_dataframe.h:657-681 | no token is empty and no token contains a delimiter |
| Text.WordsEmptyIff | tfs_dataframe.h:657-681 | there are no tokens exactly when the line is all delimiters |
| Text.WordsSplit | tfs_dataframe.h:657-681 | tokens are maximal runs: splitting at a delimiter splits the token list |
| Text.WordsOfWord | tfs_dataframe.h:657-681 | a single run without delimiters is one token |
| Text.WordLength | tfs_dataframe.h:668-672 | the run at the start of a line ends at the first delimiter or at the end |
| Text.WordLengthUnique | tfs_dataframe.h:668-672 | the run length is the only length meeting that description |
| Text.WordsSkip | tfs_dataframe.h:661 | leading delimiters do not change the tokens |
| Text.DtFromString | tfs_dataframe.h:475-480 | `%d`→D, `%le`→LE, `%b`→B, anything else→S; never C |
| Text.DtRoundTrip | tfs_dataframe.h:475-492 | `DT_from_string(string_fromDT(t)) == t` exactly for S, LE and D |
| Text.TokenRoundTrip | tfs_dataframe.h:475-492 | `string_fromDT(DT_from_string(s)) == s` exactly for `%d`, `%le` and `%s` |
| Text.StringFromDt | tfs_dataframe.h:481-492 | `string_fromDT` writes `%d` exactly for D and `%le` exactly for LE, and `%s` for every other tag |
| Text.SkipSpaces | tfs_dataframe.h:322 | `strtol` skips exactly the leading C white space: every byte skipped is a space, and the byte it stops at is not |
| Text.DigitsEnd | tfs_dataframe.h:322 | the digit run ends at the first non-digit |
| Text.Strtol | tfs_dataframe.h:322 | `strtol` gives a negative value only after a leading `-`, and 0 when no sign or digit follows the white space |
| Text.ToInt32 | tfs_dataframe.h:322 | the `(int)` cast keeps values in `int` range and is congruent modulo 2^32 |
| Text.Digits | tfs_dataframe.h:771 | the decimal digits of a natural number are a non-empty digit string |
| Text.DigitsValueOfDigits | tfs_dataframe.h:771 | decimal digits read back to the number |
| Text.StrtolOfDigits | tfs_dataframe.h:771 | `strtol` reads back a decimal number up to `LONG_MAX` |
| Text.StrtolOfMinusDigits | tfs_dataframe.h:771 | `strtol` reads back a negated decimal number down to `LONG_MIN` |
| Text.StrtolOfDecimal | tfs_dataframe.h:771 | `strtol` reads back the decimal text of every `long` |
| Text.StrtolNoDigits | tfs_dataframe.h:771 | a token that starts with no sign, space or digit reads as 0 |
| Text.CollapseTokens | tfs_dataframe.h:783-787 | the `ostream_iterator` copy writes each token followed by one blank |
| Text.JoinTrailingEndsInBlank | tfs_dataframe.h:783-787 | a collapsed string of at least one token ends in a blank |
| Text.WordsOfJoinTrailing | tfs_dataframe.h:783-787 | tokenizing a collapsed string gives back its tokens |
| Text.JoinTrailingSnoc | tfs_dataframe.h:783-787 | collapsing one more token appends it and a blank |
| OrderedMap.LookupFinds | tfs_dataframe.h:509 | a key is found exactly when some entry holds it |
| OrderedMap.LookupSorted | tfs_dataframe.h:509 | in a sorted map, each entry's key finds that entry's value |
| OrderedMap.LookupEntry | tfs_dataframe.h:509 | a found value is stored in an entry under its key |
| OrderedMap.Insert | tfs_dataframe.h:798 | `map::insert` keeps the order, leaves a present key's value alone, adds a missing key, and changes no other key |
| OrderedMap.NotInAbove | tfs_dataframe.h:798 | a key below the first key of a sorted map is absent |
| OrderedMap.LookupOrInsert | tfs_dataframe.h:646 | `map::operator[]` gives the present value unchanged, or inserts the default and leaves other keys alone |
| OrderedMap.InsertFrom | tfs_dataframe.h:797-798 | the insert loop from position `i` keeps the map sorted |
| OrderedMap.InsertAll | tfs_dataframe.h:797-798 | inserting every name with its position keeps the map sorted |
| OrderedMap.InsertAllDistinct | tfs_dataframe.h:797-798 | distinct names into an empty map: one entry per name, each with its own position, other keys untouched |
| OrderedMap.InsertAllSize | tfs_dataframe.h:797-798 | the map grows by at most the number of names, and by less when a name repeats |
| OrderedMap.InsertAllKeys | tfs_dataframe.h:797-798 | every inserted name is present afterwards |
| OrderedMap.InsertAllFirst | tfs_dataframe.h:707-708 | a repeated key keeps the position of its first occurrence |
| OrderedMap.InsertAllSnoc | tfs_dataframe.h:912 | inserting one more name after the others is one more `insert` |
| OrderedMap.InsertSize | tfs_dataframe.h:798 | `insert` adds at most one entry, and none for a present key |
| OrderedMap.InsertKeeps | tfs_dataframe.h:798 | a present key stays present after `insert` |
| Columns.NewColumn | tfs_dataframe.h:274-290 | `data_vector(t, s)` has tag `t`, name `s`, a payload of the alternative the tag selects, and no elements |
| Columns.Elements | tfs_dataframe.h:257-262 | the active vector seen as values, as many as the vector holds |
| Columns.Size | tfs_dataframe.h:333-346 | the active vector's length for S/LE/D, 0 for B and C, and `bad_variant_access` on a wrong alternative |
| Columns.PushBack | tfs_dataframe.h:455-473 | a matching tag appends exactly the value and keeps the earlier elements; a mismatch throws |
| Columns.PushBackSize | tfs_dataframe.h:455-473 | a successful push grows `size()` by one (B columns stay at 0) |
| Columns.PushBackMismatch | tfs_dataframe.h:455-473 | a push with the wrong tag throws "this is not a … vector" |
| Columns.TokenValue | tfs_dataframe.h:318-331 | the value a token becomes has the column's tag |
| Columns.ConvertBack | tfs_dataframe.h:318-331 | S/LE/D columns get the parsed token appended; B and C columns are left as they were |
| DataVectors.DataVector.constructor | tfs_dataframe.h:274-290 | the new column is the tag's empty column with the given name |
| DataVectors.DataVector.AsDoubleVector | tfs_dataframe.h:292-294 | the doubles of a double vector, or `bad_variant_access` |
| DataVectors.DataVector.AsStringVector | tfs_dataframe.h:295-297 | the strings of a string vector, or `bad_variant_access` |
| DataVectors.DataVector.AsIntVector | tfs_dataframe.h:301-303 | the integers of an int vector, or `bad_variant_access` |
| DataVectors.DataVector.AsBoolVector | tfs_dataframe.h:298-300 | the booleans of a bool vector, or `bad_variant_access` |
| DataVectors.DataVector.Size | tfs_dataframe.h:333-346 | `size()` agrees with `Columns.Size` and counts the elements |
| DataVectors.DataVector.SetName | tfs_dataframe.h:351-353 | only the name changes |
| DataVectors.DataVector.PushBack | tfs_dataframe.h:455-473 | on success the column becomes `Columns.PushBack`; on failure the object is unchanged |
| DataVectors.DataVector.ConvertBack | tfs_dataframe.h:318-331 | agrees with `Columns.ConvertBack`; on failure the object is unchanged |
| DataVectors.DataVector.Reserve | tfs_dataframe.h:436-451 | succeeds exactly when the tag's accessor does; only capacity changes |
| DataVectors.DataVector.WriteToBinary | tfs_dataframe.h:369-394 | the bytes written are `WriteColumn` of the column |
| DataVectors.DataVector.ReadFromBinary | tfs_dataframe.h:396-434 | the new column and unread bytes are `ReadColumnInto` of the old column; when it throws, the name and tag read are stored already, and the elements too are unchanged unless the stream ended inside the element loop |
| DataVectors.DataVector.ReadRealsIn | tfs_dataframe.h:411-417 | the double loop appends to the vector held exactly what `ReadReals` reads, leaving name and tag alone; a short stream is end of stream |
| DataVectors.DataVector.ReadStringsIn | tfs_dataframe.h:422-427 | the string loop appends to the vector held exactly what `ReadStrings` reads, leaving name and tag alone; a short stream is end of stream |
| DataVectors.WriteReals | tfs_dataframe.h:379-382 | the element loop writes `EncodeReals` of the doubles |
| DataVectors.WriteStrings | tfs_dataframe.h:385-388 | the element loop writes `EncodeStrings` of the strings |
| Binary.ReadBytes | tfs_dataframe.h:63 | `n` bytes are read when the input has them, otherwise end of stream |
| Binary.ReadUnsigned | tfs_dataframe.h:60 | a fixed-width read succeeds exactly when the input has the bytes |
| Binary.ReadFixed | tfs_dataframe.h:60 | a fixed-width read returns the number written in that width |
| Binary.EncodeString | tfs_dataframe.h:45-49 | `write_string` writes 2 length bytes, then as many bytes as the length cut to 16 bits |
| Binary.ReadString | tfs_dataframe.h:57-65 | `read_string` consumes 2 bytes plus a string shorter than 65536 bytes, or fails at end of stream |
| Binary.EncodeValue | tfs_dataframe.h:125-140 | a value is written as its `u32` tag, then 4 bytes for `D`, 8 for `LE`, a length-prefixed string for `S`, and nothing for `B` or `C` |
| Binary.EncodeProperty | tfs_dataframe.h:238-241 | a property is written as its name string followed by its value, whose tag starts right after the name |
| Binary.StringRoundTrip | tfs_dataframe.h:45-65 | a string shorter than 65536 bytes reads back unchanged; a longer one reads back cut to its length modulo 65536 |
| Binary.ReadValue | tfs_dataframe.h:142-163 | only `S` and `LE` values are decoded, and decoding consumes input |
| Binary.ValueRoundTrip | tfs_dataframe.h:125-163 | `S` and `LE` values round-trip |
| Binary.ValueNotImplemented | tfs_dataframe.h:142-163 | decoding a `D`, `B` or `C` value throws "not implemented" |
| Binary.ReadProperty | tfs_dataframe.h:243-248 | a property read consumes input |
| Binary.PropertyRoundTrip | tfs_dataframe.h:238-248 | a property with an `S` or `LE` value round-trips |
| Binary.PropertyNotImplemented | tfs_dataframe.h:238-248 | a property with a `D`, `B` or `C` value throws "not implemented" on reading |
| Binary.WriteColumn | tfs_dataframe.h:369-394 | an S or LE column is written whole; a D, B or C column throws after its name, tag and count are written |
| Binary.ReadReals | tfs_dataframe.h:411-418 | the double loop succeeds exactly when `8 * count` bytes remain, appends `count` doubles after those already held, and consumes 8 bytes each; a short stream is end of stream |
| Binary.ReadStrings | tfs_dataframe.h:422-428 | the string loop appends `count` strings after those already held; a short stream is end of stream |
| Binary.ReadColumnHeader | tfs_dataframe.h:397-403 | name, tag and count are read from 14 bytes plus the name, within their widths, or the stream ends |
| Binary.StampHeader | tfs_dataframe.h:405-406 | the name and tag read are stored over the vector before the element loop, payload untouched; a cut-short header stores nothing |
| Binary.ReadColumnInto | tfs_dataframe.h:396-434 | a successful read stores the name and tag read and appends to the vector already held, which must be the double vector for `LE` or the string vector for `S`; it consumes input; errors are end of stream, `bad_variant_access` or "not implemented" |
| Binary.ReadRealsRoundTrip | tfs_dataframe.h:411-418 | the double loop reads back the doubles in order |
| Binary.ReadStringsRoundTrip | tfs_dataframe.h:422-428 | the string loop reads back the strings in order |
| Binary.HeaderRoundTrip | tfs_dataframe.h:396-404 | name, tag and count read back |
| Binary.RealColumnRoundTrip | tfs_dataframe.h:369-434 | an LE column read into an LE placeholder is reproduced: name, tag, count and elements in order |
| Binary.StringColumnRoundTrip | tfs_dataframe.h:369-434 | an S column read into an S column is reproduced |
| Binary.StringColumnIntoRealColumn | tfs_dataframe.h:405-422 | an S column read into an LE placeholder throws `bad_variant_access` |
| Binary.ReadColumnReset | tfs_dataframe.h:396-434 | the corrected reader yields an `S` or `LE` column whose payload agrees with its tag, with the name and tag read, and consumes input |
| Binary.ResetColumnRoundTrip | tfs_dataframe.h:396-434 | with the payload reset to the tag's vector, every S or LE column round-trips into any column |
| FrameCodec.WriteColumns | tfs_dataframe.h:880-881 | the column loop fails exactly when some column is not S or LE, or its payload disagrees with its tag |
| FrameCodec.WriteColumnsPrefixFails | tfs_dataframe.h:880-881 | after a column throws, later columns write nothing |
| FrameCodec.WriteColumnsClean | tfs_dataframe.h:880-881 | when no column throws, every column is written whole, in order |
| FrameCodec.WriteFrame | tfs_dataframe.h:872-882 | `write_to_binary` fails exactly when some column cannot be written |
| FrameCodec.WriteFrameBytes | tfs_dataframe.h:872-882 | an encodable frame is written as property count, properties, column count, columns |
| FrameCodec.ReadProperties | tfs_dataframe.h:895-899 | the property loop appends exactly `numprops` properties after those already held |
| FrameCodec.ReadPropertiesRoundTrip | tfs_dataframe.h:898-899 | the property loop reads back encodable properties, appended in order |
| FrameCodec.ReadColumns | tfs_dataframe.h:908-913 | the column loop changes only the columns it reads into |
| FrameCodec.ReadColumnsRoundTrip | tfs_dataframe.h:908-913 | columns that each read back are reproduced in order |
| FrameCodec.ReadColumnsStops | tfs_dataframe.h:908-913 | the first column that fails ends the load with its error |
| FrameCodec.LoadColumns | tfs_dataframe.h:901-913 | appends `numcolumns` placeholders and reads into the first `numcolumns` columns: the properties are those read, and the columns after position `numcolumns` are what was there before |
| FrameCodec.LoadBinary | tfs_dataframe.h:893-914 | loading keeps the earlier properties as a prefix and never removes a column, keeps both maps sorted, and leaves the index and latch alone |
| FrameCodec.LoadFromBinary | tfs_dataframe.h:893-914 | `load_from_binary` keeps both maps sorted and leaves the index and the latch alone |
| FrameCodec.RealFrameRoundTrip | tfs_dataframe.h:872-914 | a frame whose columns are all LE is read back into an empty frame with its properties, columns and headers |
| FrameCodec.StringColumnLoadFails | tfs_dataframe.h:905-913 | a frame whose first S column follows only LE columns fails to load with `bad_variant_access` |
| FrameCodec.LoadFromBinaryFixed | tfs_dataframe.h:893-914 | the loader with a resetting column read keeps both maps sorted |
| FrameCodec.FrameRoundTripFixed | tfs_dataframe.h:872-914 | with a resetting column read, every encodable frame round-trips |
| Frames.EmptyFrame | tfs_dataframe.h:517 | `dataframe()` has no columns, no properties and an open latch |
| Frames.ParseProperty | tfs_dataframe.h:759-789 | an `@` line needs three tokens, and a fourth for `%d` and `%le`; it gives an int, a real, or the collapsed string of the remaining tokens |
| Frames.IntPropertyValue | tfs_dataframe.h:771 | an integer property written in decimal reads back exactly |
| Frames.StringPropertyValue | tfs_dataframe.h:783-787 | a string property gives back its tokens when tokenized, and ends in a blank |
| Frames.ReadProperty | tfs_dataframe.h:759-789 | `read_property` appends one property and changes nothing else |
| Frames.ReadColumnHeaders | tfs_dataframe.h:792-799 | `read_column_headers` inserts each name with its position; a line without tokens is undefined |
| Frames.NewColumns | tfs_dataframe.h:806-809 | one empty, unnamed column per type token |
| Frames.ReadColumnTypes | tfs_dataframe.h:802-811 | `read_column_types` appends those columns; a line without tokens is undefined |
| Frames.SetNames | tfs_dataframe.h:831-833 | the naming loop succeeds exactly when every position is within the columns |
| Frames.SetNamesNames | tfs_dataframe.h:831-833 | with distinct positions, each named column gets its entry's name |
| Frames.SetNamesElsewhere | tfs_dataframe.h:831-833 | a column that no entry names is left alone |
| Frames.CheckIni | tfs_dataframe.h:828-836 | `check_ini` keeps the maps, properties and column count; afterwards the latch is set exactly when it was set or there are columns and as many as map entries; otherwise nothing changes |
| Frames.CheckIniNames | tfs_dataframe.h:792-836 | with distinct names and one column per name, the header latches and column `i` gets the `i`-th name |
| Frames.DistinctHeaders | tfs_dataframe.h:797-798 | distinct names map to distinct positions, each holding its own name |
| Frames.DuplicateNamesNoLatch | tfs_dataframe.h:797-836 | with a repeated name and one column per name, the header does not latch |
| Frames.FirstToken | tfs_dataframe.h:694-698 | a line starting with a sigil has a first token |
| Frames.HeaderStep | tfs_dataframe.h:693-699 | a line without `@`, `*` or `$` only runs `check_ini` |
| Frames.HeaderLinesCommute | tfs_dataframe.h:693-699 | before any column is declared, after any `@` lines, a `*` line and a `$` line give the same frame in either order |
| Frames.HeaderPhase | tfs_dataframe.h:692-700 | the header loop keeps both maps sorted and stops within the lines |
| Frames.HeaderPhaseSkipsOne | tfs_dataframe.h:692 | the header loop as written is the intended one, except that one more line is consumed after the latch |
| Frames.HeaderPhaseFixed | tfs_dataframe.h:692-700 | the intended header loop keeps both maps sorted |
| Frames.HeaderPhaseFixedLatch | tfs_dataframe.h:692-700 | the intended header loop stops before the end only when latched |
| Frames.ConvertRow | tfs_dataframe.h:821-824 | token `i` goes to column `i`; the row fails when it has more tokens than there are columns or a conversion throws |
| Frames.ConvertRowPrefixErr | tfs_dataframe.h:821-824 | once a prefix of the row fails, the row fails the same way |
| Frames.ReadLine | tfs_dataframe.h:814-825 | `read_line` replaces the columns by the converted row |
| Frames.DataPhase | tfs_dataframe.h:701-703 | the data loop changes only the columns, and keeps their number |
| Frames.ReadLineColumn | tfs_dataframe.h:821-824 | one data line keeps each column's tag and name, appends token `j` to an `S`, `LE` or `D` column `j` when the line has one, and leaves `B` and `C` columns alone |
| Frames.DataPhaseColumns | tfs_dataframe.h:701-703 | the data loop only appends: each column keeps its tag and name, an `S`, `LE` or `D` column gains exactly token `j` of every line that has one, in line order, and `B` and `C` columns stay as they were |
| Frames.ColumnPosition | tfs_dataframe.h:712-715 | non-const `get_column(name)` inserts a missing name at 0 and fails when the position is past the columns |
| Frames.BuildIndex | tfs_dataframe.h:705-708 | an empty index name leaves the frame alone; otherwise both maps stay sorted |
| Frames.IndexKeepsFirstRow | tfs_dataframe.h:707-708 | a key the index column repeats keeps the row of its first occurrence |
| Frames.LoadText | tfs_dataframe.h:688-709 | the constructor's result keeps both maps sorted |
| Frames.LoadTextFixed | tfs_dataframe.h:688-709 | the intended constructor keeps both maps sorted |
| Frames.FirstRowDropped | tfs_dataframe.h:692 | on a one-column file with one data row, the constructor returns the column empty |
| Frames.FirstRowKept | tfs_dataframe.h:692 | the intended constructor keeps that row |
| Frames.FrameSize | tfs_dataframe.h:612-617 | `size()` is 0 without columns, the size of the column the map's first entry names otherwise, and undefined for an empty map or a position past the columns |
| Frames.FrameSizeSmallestName | tfs_dataframe.h:616 | in a sorted map the entry holding the smallest name is the first, so `size()` is the size of that name's column |
| Frames.FindProperty | tfs_dataframe.h:590-595 | `get_property(key)` finds the first property with that name, or throws when none has it |
| Frames.AddPropertyFinds | tfs_dataframe.h:590-602 | after `add_property`, its name finds it unless an earlier property has that name; other names find what they found before |
| DataFrames.DataFrame.constructor | tfs_dataframe.h:517 | the new object holds `EmptyFrame()` |
| DataFrames.DataFrame.ReadProperty | tfs_dataframe.h:759-789 | agrees with `Frames.ReadProperty`; on failure the object is unchanged |
| DataFrames.DataFrame.ReadColumnHeaders | tfs_dataframe.h:792-799 | agrees with `Frames.ReadColumnHeaders`; on failure the object is unchanged |
| DataFrames.DataFrame.ReadColumnTypes | tfs_dataframe.h:802-811 | agrees with `Frames.ReadColumnTypes`; on failure the object is unchanged |
| DataFrames.DataFrame.ReadLine | tfs_dataframe.h:814-825 | agrees with `Frames.ReadLine`, error included |
| DataFrames.DataFrame.CheckIni | tfs_dataframe.h:828-836 | agrees with `Frames.CheckIni` |
| DataFrames.DataFrame.HeaderStep | tfs_dataframe.h:693-699 | agrees with `Frames.HeaderStep`, error included |
| DataFrames.DataFrame.ReadHeader | tfs_dataframe.h:692-700 | the header loop agrees with `Frames.HeaderPhase`, including the line it consumes after the latch |
| DataFrames.DataFrame.ReadData | tfs_dataframe.h:701-703 | the data loop agrees with `Frames.DataPhase` |
| DataFrames.DataFrame.BuildIndex | tfs_dataframe.h:705-708 | agrees with `Frames.BuildIndex`, error included |
| DataFrames.DataFrame.GetColumn | tfs_dataframe.h:712-715 | agrees with `Frames.ColumnPosition`; changes only the headers; with the name present it matches the const overload |
| DataFrames.DataFrame.GetColumnConst | tfs_dataframe.h:718-721 | `column_headers.at(name)` throws `out_of_range` for a missing name; otherwise gives that position's column |
| DataFrames.DataFrame.GetColumnAt | tfs_dataframe.h:527 | `columns.at(i)`: the column, or `out_of_range` |
| DataFrames.DataFrame.GetIndex | tfs_dataframe.h:646 | `idx[key]` is `LookupOrInsert` on the index, and changes nothing else |
| DataFrames.DataFrame.GetProperty | tfs_dataframe.h:590-595 | agrees with `Frames.FindProperty`: the first match, or "couldn't find key" |
| DataFrames.DataFrame.GetPropertyAt | tfs_dataframe.h:596-598 | `properties[i]`, undefined past the end |
| DataFrames.DataFrame.AddProperty | tfs_dataframe.h:600-602 | appends one property and changes nothing else |
| DataFrames.DataFrame.PropertyCount | tfs_dataframe.h:604-606 | `property_count()` is exactly the bound of the positions `get_property(index)` can read |
| DataFrames.DataFrame.ColumnCount | tfs_dataframe.h:619-621 | `column_count()` is exactly the bound of the positions `get_column(index)` accepts |
| DataFrames.DataFrame.Size | tfs_dataframe.h:612-617 | `size()` is 0 without columns, and the size of the column under the alphabetically first header name when the maps are well formed |
| DataFrames.DataFrame.ReserveRows | tfs_dataframe.h:530-534 | succeeds exactly when every column's `reserve` does |
| DataFrames.DataFrame.WriteToBinary | tfs_dataframe.h:872-882 | the bytes and failure written are `WriteFrame` of the frame |
| DataFrames.DataFrame.AddPlaceholders | tfs_dataframe.h:904-906 | appends `numcolumns` empty LE columns and changes nothing else |
| DataFrames.DataFrame.ReadColumnsFrom | tfs_dataframe.h:908-913 | agrees with `FrameCodec.ReadColumns`, with the header insertions interleaved |
| DataFrames.DataFrame.LoadFromBinary | tfs_dataframe.h:893-914 | agrees with `FrameCodec.LoadFromBinary`, error included |
| DataFrames.Open | tfs_dataframe.h:688-709 | `dataframe(path, index)` agrees with `Frames.LoadText` |
| DataFrames.ReadFromBinary | tfs_dataframe.h:885-890 | `read_from_binary` is `load_from_binary` into a new frame |
| DataFrames.WriteProperties | tfs_dataframe.h:874-877 | the property loop writes `EncodeProperties` |
| DataFrames.WriteColumnList | tfs_dataframe.h:879-881 | the column loop writes `WriteColumns`, stopping at the first column that throws |
| DataFrames.ReadPropertyList | tfs_dataframe.h:895-899 | the property loop gives `FrameCodec.ReadProperties`, error included |

## Left out

- The Qt viewer and its models, and the regex filter worker. They only read the dataframe,
  or run `std::regex` on a thread.
- Float parsing and formatting:
  - `strtod` is a function parameter and is never interpreted.
  - `pretty_print`, `print_at`, `operator<<`, `to_file` and `verify` are not modelled. They
    are formatted output. As a consequence, the name-sorted column order of `to_file` is not
    modelled either.
- File and stream plumbing is replaced by values:
  - `std::ifstream` opening, `to_binary_file`, `from_binary_file` and
    `load_from_binary_file` are out.
  - `dataframe(path, index)` takes the file's lines.
  - The binary readers take and return bytes.
  - The native `sizeof` and endianness are fixed to one little-endian layout.
- The `add_column` overloads at tfs_dataframe.h:542, :560 and :567 are not modelled. They
  assign `payload.double_vector` or `payload.string_vector`, members that `std::variant`
  does not have, so they cannot be instantiated.
- The `add_column` overloads at tfs_dataframe.h:549 and :581 are not modelled. They belong
  to building a frame in memory, not to reading or writing a TFS file. Both set
  `column_headers[name]` with `operator[]`, so a repeated name moves to the new position,
  unlike the first-name-wins `*` line. The one at :581 also writes to `std::cout`.
- `reserve_columns` is not modelled: it changes capacity only.
- References are not modelled:
  - The const and non-const accessor pairs return references into the object. The model
    returns values, so aliasing through a returned reference is not modelled.
  - Only the non-const `get_column(name)` and the const one by name are distinguished,
    because they differ in behaviour.
- The `push_back(float)` overload is not modelled. It only widens to `double`, and a real
  is opaque here.
- A tag read from a binary stream that is not one of the five enumerators is handled
  without undefined behaviour:
  - A tag for a value is "not implemented", as for `D`, `B` and `C`.
  - A column whose tag is outside the enumeration is "not implemented". Its name is stored
    first, as in the source, but its raw tag cannot be stored in the model's tag type.
- A short binary read is `Err(EndOfStream)`. In the source it leaves the stream failed and
  the variables uninitialised.
- DataVectors.DataVector.ReadFromBinary: when the stream ends inside the element loop, the
  elements already appended are not stated. The source goes on pushing uninitialised values.
- `v.reserve(count)` and `columns.reserve(numcolumns)` throw `length_error` or `bad_alloc` on a
  huge count read from the stream. Capacity is not modelled, so the model reads on and
  reports end of stream instead.
- DataFrames.DataFrame.ReadLine: the column state after a failed row is not stated. The same
  holds for CheckIni, HeaderStep, BuildIndex, ReadColumnsFrom and LoadFromBinary when they
  fail midway. In the source, the changes made before the failure stay.
- Values.GetComplex: a tag other than `LE` or `C` is excluded by a precondition, because the
  source falls off the end of the function there (undefined behaviour).

## Findings

| source | as written | input that shows it | evidently intended | confidence | as-written member | corrected member |
|---|---|---|---|---|---|---|
| tfs_dataframe.h:692 | `while(std::getline(file, line) && !ini_complete)` reads one more line after the header latches, and drops it | `* A` / `$ %s` / `x`: the column `A` comes back empty | test the latch before reading the next line, so that the first data row is read | not executed | Frames.FirstRowDropped | Frames.FirstRowKept |
| tfs_dataframe.h:405-422 | `read_from_binary` sets only the tag of the LE placeholder, so `as_string_vector()` throws on a string column | any frame with an `S` column, written and read back | reset the payload to the tag's vector before reading the elements | not executed | FrameCodec.StringColumnLoadFails | FrameCodec.FrameRoundTripFixed |
