# Cotodec container reader, modelled in Dafny

This project models the part of Cotodec that reads a "Cotopha Image file" (`.csx`)
container: the class `CSXFile` in `csxfile.cpp`. Loading checks the 18-byte magic at
the start of the header. It then reads the section records that follow it (an 8-byte
id, a u32 size, then that many payload bytes) into an ordered list.

Four readers then walk that list. Each decodes every section whose id is its own:
- `read_offsets` handles "function": the initialisation offsets and the named
  function offsets;
- `read_conststr` handles "conststr": strings stored in a map under every offset
  that uses them;
- `read_global` handles "global  ": global variable records, whose layout depends on
  the type tag;
- `read_linkinf` handles "linkinf ": link targets and a second offset-to-string map.

`decompile` builds the offset list for the decompiler: the initialisation offsets,
then the named ones. It starts one decompiler run per offset for every "image   "
section. `get_function_name` finds the name of the first named function at an offset.

The modules:
- `Bytes` (bytes.dfy) is the byte cursor. It covers:
  - little-endian u32 reads;
  - length-prefixed UTF-16 strings, as `read_unicode_string` stores them;
  - relative skips.

  Every decoder is a function from a payload and a cursor position. A read past the
  end yields `None`.
- `Sections` (sections.dfy) holds the container layout: the magic, the section
  record, the section loop, and which sections a reader selects.
- `FunctionTables`, `StringTables`, `Globals` and `LinkInfo` hold the four section
  layouts. Each has:
  - a decoding function that states the layout;
  - the loop the source runs, as a method proved equal to that function;
  - an encoder, and a round-trip lemma showing that decoding gives back every field
    exactly.
- `Csx` (csxfile.dfy) holds the class `CsxFile`. Its fields are the tables the
  source keeps:
  - `m_sections`, `m_init_offsets`, `m_offsets` and `m_global` become sequences;
  - `m_conststr` and `m_linkinf2` become maps;
  - `m_linkinf1` becomes `linkTargets`.

  Each reader is a method that loops over the sections and updates those fields in
  place. Its contract states the new value of every field.

A short read stops a counted loop where it happened. Whatever was already pushed or
stored stays. The record being read when the data ran out is not pushed.

## Model

| member | source | states |
|---|---|---|
| Bytes.ReadU32List | csxfile.cpp:70-74 | the counted loop `for i < count: read u32` returns exactly the words `ReadU32s` reads, in on-disk order, with the cursor after the last one or `None` after a short read |
| Bytes.ReadU32sEncoded | csxfile.cpp:70-74 | n little-endian words laid end to end read back as the same n values, and the cursor ends 4·n bytes on |
| Bytes.ReadU32sShape | csxfile.cpp:70-74 | a counted u32 loop reads item i at position + 4·i, and stops exactly at the first word that runs past the end |
| Bytes.ReadStringEncoded | csxfile.cpp:81 | reading a string back from its bytes (a u32 unit count, then the 16-bit units) gives the same string and moves the cursor past it |
| Bytes.ReadStringDecoded | csxfile.cpp:81 | a string that was read is exactly the count and units it was read from, so a string consumes 4 + 2·length bytes |
| Bytes.ReadUnits | csxfile.cpp:81 | n code units are read in full exactly when 2·n bytes remain, and then the cursor moves 2·n bytes |
| Sections.ReadSection | csxfile.cpp:47 | a section record read moves the cursor past at least the 8-byte id and the u32 size, and stays within the data |
| Sections.ReadSectionEncoded | csxfile.cpp:47 | a record laid out as id, size and payload reads back as the same section |
| Sections.ReadSectionDecoded | csxfile.cpp:47 | a record that was read has an 8-byte id, and the bytes it consumed are exactly its id, its size word and its payload |
| Sections.SectionsReassemble | csxfile.cpp:45-49 | when the section loop reaches the end of the data, concatenating the records it read reproduces the bytes after the header |
| Sections.SectionsRoundTrip | csxfile.cpp:45-49 | conversely, records laid end to end up to the end of the data load back as the same sections, in order |
| Sections.MatchingAppend | csxfile.cpp:62-64 | the sections a reader selects from one list followed by another are those of the first, then those of the second |
| Csx.MatchingSpec | csxfile.cpp:62-64 | a payload is decoded by a reader if and only if some section carries that reader's id and that payload |
| Csx.MatchingSkipsOthers | csxfile.cpp:106-108 | sections with any other id leave what a reader decodes unchanged |
| Csx.MatchingNext | csxfile.cpp:145-147 | each step of a reader's section loop decodes the current section exactly when its id equals the reader's id |
| Csx.CsxFile.constructor | csxfile.cpp:13-17 | a new container holds no sections and empty tables; the kinds' tags it is given are distinct, as the case labels of the switch at csxfile.cpp:160-193 must be |
| Csx.CsxFile.LoadFromFile | csxfile.cpp:28-52 | the load succeeds if and only if the first 18 bytes of the file are "Cotopha Image file". A failed load appends no section; a successful one appends the section records after the header, in file order. No other table changes |
| FunctionTables.ReadNamedList | csxfile.cpp:78-83 | the loop `read offset, read name` returns exactly the pairs `ReadNamedOffsets` reads, in on-disk order |
| FunctionTables.DecodeFunctionSection | csxfile.cpp:66-87 | one "function" payload decodes to `DecodeFunctionTable`: n0 offsets, one skipped word, then n1 (offset, name) pairs |
| FunctionTables.ReadNamedOffsetsEncoded | csxfile.cpp:78-83 | n (offset, name) pairs laid end to end read back as the same n pairs, unsorted |
| FunctionTables.FunctionTableRoundTrip | csxfile.cpp:68-83 | decoding an encoded "function" payload gives back both lists exactly and in order, whatever the skipped word holds |
| Csx.CsxFile.ReadOffsets | csxfile.cpp:60-90 | the initialisation offsets and the named offsets of every "function" section are appended in container and on-disk order. Every other field is unchanged |
| StringTables.BindOffsets | csxfile.cpp:118-125 | the inner loop stores the entry's string under each offset it reads, in order, and stops at a short read |
| StringTables.ReadBindingsInto | csxfile.cpp:114-126 | the entry loop leaves the map equal to `Assign` of the entries read, applied to the map it started from |
| StringTables.DecodeBindingsInto | csxfile.cpp:110-128 | one "conststr" payload stores the entries of `DecodeBindings` into the map, in order |
| StringTables.BindSpec | csxfile.cpp:120-125 | after one entry, each of its offsets maps to its string. Every other key keeps its value, and no key is removed |
| StringTables.AssignKeys | csxfile.cpp:114-125 | the keys afterwards are the keys before, plus every offset some entry names (both directions) |
| StringTables.AssignLastWins | csxfile.cpp:124 | an offset maps to the string of the last entry that names it, so a later duplicate overwrites an earlier one |
| StringTables.AssignUntouched | csxfile.cpp:124 | an offset no entry names keeps the string it had |
| StringTables.AssignAppend | csxfile.cpp:106-126 | storing the entries of one section and then those of the next is the same as storing all the entries in order |
| StringTables.ReadBindingsEncoded | csxfile.cpp:114-125 | n entries laid end to end (string, count, offsets) read back as the same entries, and the cursor ends after them |
| StringTables.BindingsRoundTrip | csxfile.cpp:112-125 | decoding an encoded "conststr" payload gives back every entry, string and offsets, in order |
| Csx.CsxFile.ReadConstStr | csxfile.cpp:104-131 | the entries of every "conststr" section are stored into the map in container order, last store winning. Every other field is unchanged |
| Globals.ClassifyTags | csxfile.cpp:160-194 | when the kinds' tags are distinct, each kind's tag takes that kind's branch, and a tag takes the default branch if and only if it is no kind's tag |
| Globals.ReadGlobalHeadShape | csxfile.cpp:156-159 | a record's fixed part reads the name (4 + 2·length bytes), then the u32 tag, then the declared type name if the tag is 0. For any other tag it reads nothing more and leaves the type name empty. No initial value is set |
| Globals.ReadKindDataShape | csxfile.cpp:160-194 | the switch keeps the name and the tag, sets the kind's type name, and keeps the declared one only in the default branch. Integer and String store the next u32 in the integer field; Real stores it, as raw bits, in the real field; each consumes exactly 4 bytes. Parent consumes its length word, plus exactly 112 bytes when that length is not 0. Reference, Unknown and the default consume nothing. A field a branch does not read is left as it was |
| Globals.ReadKindDataFails | csxfile.cpp:165-191 | the switch comes up short exactly when its kind reads a u32 that is not there, or a Parent with a non-zero length has fewer than 112 bytes left |
| Globals.ReadGlobalCanonical | csxfile.cpp:155-194 | every record read has the type name and initial-value fields that its tag's branch sets, and nothing else, and the cursor moved forward within the payload |
| Globals.ReadGlobalEncoded | csxfile.cpp:155-196 | a record laid out as name, tag, declared name for tag 0, then its kind's data reads back as the same global and ends exactly after it. For a Parent record the kind's data is a length word, then 112 skipped bytes exactly when the length is not 0 |
| Globals.ReadGlobalList | csxfile.cpp:153-197 | the record loop returns exactly the globals `ReadGlobals` reads, in declaration order |
| Globals.DecodeGlobalSection | csxfile.cpp:149-199 | one "global  " payload decodes to `DecodeGlobals`: the count, then the records read before the first short read |
| Globals.ReadGlobalsEncoded | csxfile.cpp:153-197 | n stored records laid end to end read back as their n globals, in order, with the cursor after the last |
| Globals.GlobalsRoundTrip | csxfile.cpp:151-197 | decoding an encoded "global  " payload gives back every global in declaration order, with the Parent padding skipped |
| Csx.CsxFile.ReadGlobal | csxfile.cpp:143-202 | the records of every "global  " section are appended in container and declaration order. Every other field is unchanged |
| LinkInfo.DecodeLinkSection | csxfile.cpp:237-266 | one "linkinf " payload yields `DecodeLinkTable`'s targets, and stores its entries into the map in order |
| LinkInfo.CountedU32sEncoded | csxfile.cpp:247-249 | a counted list of words is read in full whatever its count, so the entries after it are found at the right place |
| LinkInfo.SymbolsEncoded | csxfile.cpp:251-264 | the counted entries at the end of the payload read back exactly |
| LinkInfo.LinkTableRoundTrip | csxfile.cpp:240-264 | decoding an encoded "linkinf " payload gives back the targets and the entries exactly, for any content and any length of the dropped list |
| Csx.CsxFile.ReadLinkInf | csxfile.cpp:231-269 | the targets of every "linkinf " section are appended in order. Its entries are stored into the second map, last store winning. Every other field is unchanged |
| Csx.CsxFile.DispatchOffsets | csxfile.cpp:290-294 | the offset list handed to the decompiler is `DispatchList` of the initialisation offsets and the named offsets |
| Csx.DispatchListSpec | csxfile.cpp:290-294 | that list is as long as both lists together: the initialisation offsets in order, then each named function's offset in order, duplicates kept |
| Csx.CsxFile.Decompile | csxfile.cpp:284-307 | one decompiler run is started per "image   " section and per offset of the dispatch list, image by image and in list order |
| Csx.LaunchesLength | csxfile.cpp:298-307 | the number of runs started is the number of image sections times the length of the dispatch list |
| Csx.LaunchesIndex | csxfile.cpp:284-307 | launch i·(list length) + j is image i with offset j, so each offset is launched exactly once per image, image by image and in list order |
| Csx.LaunchesSpec | csxfile.cpp:284-307 | a run is started for an (image, offset) pair if and only if the image is an "image   " payload and the offset is in the dispatch list |
| Csx.CsxFile.GetFunctionName | csxfile.cpp:330-336 | the name of the first named function at the offset, with every earlier entry at another offset, or the empty string when no entry has that offset |

## Left out

- Threads: `decompile` starts `std::thread`s, bounds them with an atomic counter and
  waits in sleep loops. The model gives the list of runs started, in start order.
  The runs themselves, their interleaving and the bound of three at a time are not
  modelled.
- `CSXImage::decompile_bin` and `listing_to_dir`: the decompiler is not part of this
  model. The new `CSXImage` made per image section, and the one it replaces, are not
  modelled either.
- File I/O: opening the file (csxfile.cpp:30-36) and exporting sections. The input
  is the file's bytes as a sequence.
- Printing: `print_offsets`, `print_conststr` and `print_global` only display data.
  So do the progress line in `decompile` and the "Unknown data! seek 112 bytes"
  message `read_global` prints before skipping a Parent's padding (csxfile.cpp:172).
- Floating point: the initial value of a Real global is kept as its raw 32 bits.
- The `m_instance` singleton, the destructor and memory management: the container
  is an ordinary object. `GetFunctionName` reads that object's own table.
- `offsets_sort`: it is unused, because the sort at csxfile.cpp:85 is commented out.
- main.cpp: command-line handling only.
- `Stream`, `CSXSection`, `CSXUtils::read_unicode_string` and the `EVariableType`
  enumeration are not part of this model. The first three are modelled from the
  layout they read.
- The size of the header (`sizeof(CSXHeader_t)`) and the numeric values of
  `EVariableType` are not known here. They are parameters of `Csx.CsxFile` (`headerSize`,
  `tags`). The only thing required of the tags is that they are distinct.
- Short reads: the source never checks what `Stream::read` returned. The model
  decides what a short read does: a `None` result. A counted loop stops at the first
  short read and keeps what it already pushed or stored. An entry cut short inside
  its offsets keeps the offsets it read. A global record cut short is not pushed.
- Csx.CsxFile.LoadFromFile: a file shorter than the 18-byte magic fails. The source
  would then compare the part of `m_header` that was never read, which is not
  modelled. A file that holds the magic but ends inside the rest of the header
  succeeds with no sections, as in the source. A section record cut short at the end
  of the file ends the load without being added, and the load still reports success,
  as the source does. The source's `CSXSection` would read that record's partial
  data.
- Globals: the u32 length word of a Parent global is read but not kept, as in the
  source. The record carries no initial value for it.
- Globals.ReadGlobalCanonical: the canonical shape is proved for each record read.
  It is not restated for whole lists of records.
