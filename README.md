# STL loader model

A Dafny model of the loader in `stlloader.h`, the single-header library that
reads STL triangle meshes. `main.cpp` carries a line-for-line copy of the same
code, in which the sniffer is called `parse_file(std::istream&)`. Both copies
are modelled once. The table below cites `stlloader.h`; the same code sits in
`main.cpp` at these lines:

- the data model, stlloader.h:32-44, is main.cpp:8-20;
- `consume` and `getlinestream`, stlloader.h:74-89, are main.cpp:45-60;
- `parse_ascii_facet`, `parse_ascii_solid` and `parse_ascii_file`,
  stlloader.h:91-150, are main.cpp:62-121;
- `read_binary_value` and `parse_binary_file`, stlloader.h:152-203, are
  main.cpp:123-174;
- `parse_stream`, stlloader.h:205-223, is `parse_file(std::istream&)`,
  main.cpp:176-194.

What is modelled:

- **The data model.** `Vertex`, `Normal` and `Facet` are datatypes; a facet
  holds exactly three vertices. `Mesh` is a class whose `facets`, `name` and
  `header` fields the parsers update in place, as the source does through its
  `Mesh&` parameter. A 32-bit float is kept uninterpreted. It is the zero of a
  value-initialised facet, four raw bytes from a binary record, or the decimal
  token an ASCII line hands to `>> float`.
- **The stream.** `Stream` is a class over the input bytes with a read
  position and the iostream failbit.
  - `Read` is `istream::read`; a short read sets the failbit.
  - `Rewind` is `seekg(0)`, which a failed stream refuses.
  - `GetLine` is `std::getline`, built on a scanning loop.
  - What a stream can still deliver is described by the ghost functions `Rest`
    (bytes) and `PendingLines` (`Lines(Rest())`).
- **The ASCII parser** (`consume`, `getlinestream`, `parse_ascii_facet`,
  `parse_ascii_solid`, `parse_ascii_file`). These are imperative methods over a
  stream and a mesh. Each is proved to do exactly what a grammar function of
  the same level says: `LoopSpec`, `FacetSpec`, `SolidSpec` and `FileSpec`.
  - A line's tokens are what successive `>>` extractions into a `std::string`
    give (`Tokens`, split at the C locale's white space).
  - A keyword variable keeps its old value when a line has no token left for
    it (`Extract`). So a blank line repeats the previous keyword, as in the
    source.
  - Properties about the grammar functions are proved in `AsciiProperties`.
    How they compose is proved in `AsciiStructure`: the facets already in the
    mesh play no part in how a solid or a file parses, a solid made of
    well-formed facet blocks yields exactly their facets in order, and the
    name a file leaves is the second token of its last named `solid` line.
- **The binary parser** (the `read_binary_value` specialisations and
  `parse_binary_file`). These are methods reading fixed-size fields from the
  stream. They are proved against `BinaryFile`, which describes the layout: an
  80-byte header cut at its first NUL, a 4-byte count, and that many 50-byte
  records. Properties about the layout are proved in `BinaryProperties`.
- **The sniffer** (`parse_stream`). It reads 5 bytes, rewinds, compares the
  NUL-terminated 6-byte buffer with `solid`, and hands the stream to one of the
  two parsers. `ParseStream` is proved against `Dispatch`, and `ParseRoutes`
  restates the choice as "the first five bytes are `solid`".
- **Two whole inputs** taken through the model (`Scenarios`): the
  one-triangle ASCII file and the 84-byte all-zero binary file.

Where the specification of the format and the code disagree, the model follows
the code:

- A facet with fewer than three `vertex` lines is accepted. The slots it does
  not fill keep the zero the caller gave them.
- Lines inside the vertex loop that start with neither `vertex` nor `endloop`
  are skipped, not rejected.
- A solid ends at `endsolid` or at the end of input. Running out of lines
  inside a solid is not an error.
- Malformed numbers are not rejected: `>> float` only sets the failbit of the
  line's own string stream.
- The binary header is stored up to its first NUL, not as 80 raw bytes.
- An ASCII parse leaves `header` as it was, and a binary parse leaves `name` as
  it was, rather than emptying them.
- A file may hold any number of solids one after another, not just one: the
  file loop goes back to reading `solid` lines after each `endsolid`. `FileSpec`
  models that loop.
- A blank line between solids opens another solid. `kind` keeps `solid` from
  the last line that had a token, so the blank line is taken as a `solid` line.

## Model

| member | source | states |
|---|---|---|
| Geometry.Mesh.constructor | stlloader.h:40-44 | a new mesh has no facets, an empty name and an empty header |
| Geometry.Mesh.PushBack | stlloader.h:201 | `push_back` appends the facet after all facets already there and changes nothing else |
| Bytes.CutAtNul | stlloader.h:188-189 | a `std::string` built from a `char*` is the longest NUL-free prefix of the buffer: a prefix, with no NUL, followed by a NUL when shorter than the buffer |
| Text.LineLength | stlloader.h:84-89 | the length of the first line is the index of the first '\n', or the whole input when there is none |
| Text.Lines | stlloader.h:84-89 | input splits into lines, and there is at least one line exactly when the input is non-empty |
| Text.FirstLine | stlloader.h:86-87 | the first line of non-empty input runs to its first '\n', and the following lines are those after that '\n' |
| Text.FirstLineClean | stlloader.h:86-87 | the first line never contains the '\n' that ends it |
| Text.LinesHaveNoNewline | stlloader.h:84-89 | no line `getline` returns contains a '\n' |
| Text.TerminatedOfLines | stlloader.h:84-89 | input that is empty or ends in '\n' is exactly its lines, each followed by '\n': splitting loses nothing |
| Text.FirstNewlineAt | stlloader.h:84-89 | a line written before a '\n' is read back as exactly that first line |
| Text.LinesOfTerminated | stlloader.h:84-89 | `getline` splits '\n'-terminated lines back into exactly those lines |
| Text.WordLength | stlloader.h:78-79 | a word runs up to the first white-space byte and contains none |
| Text.Tokens | stlloader.h:78-79 | every token `>>` extracts is non-empty and free of white space |
| Text.TokensSkipSpace | stlloader.h:78-79 | one white-space byte in front of a line does not change its tokens |
| Text.TokensOfJoined | stlloader.h:78-79 | words joined with single spaces are extracted back as exactly those words, in order |
| Text.TokensOfWord | stlloader.h:78-79 | a single word is extracted as exactly itself |
| Streams.FindNewline | stlloader.h:86-87 | the scan `getline` performs stops at the first '\n' at or after its start, or at the end of the input |
| Streams.NextLine | stlloader.h:86-87 | the line read from position p ends at the '\n' the scan found, and the lines after it are the lines of the bytes past that '\n' |
| Streams.Stream.constructor | stlloader.h:227 | a freshly opened stream is positioned at its start and not failed |
| Streams.Stream.Read | stlloader.h:187 | `read(buf, n)` delivers the next n bytes and advances past them; with fewer left it delivers what is left and sets the failbit |
| Streams.Stream.Rewind | stlloader.h:211 | `seekg(0)` returns to the start of the input unless the failbit is set, in which case nothing moves |
| Streams.Stream.GetLine | stlloader.h:86-87 | `getline` fails exactly when no line is pending and then sets the failbit; otherwise it returns the first pending line and leaves the rest pending |
| AsciiSpec.LoopSpec | stlloader.h:97-107 | the vertex loop, when it ends, leaves a facet of three vertices, counts at least the vertex lines already counted, and resumes strictly later in the input; otherwise it never ends |
| AsciiSpec.FacetSpec | stlloader.h:91-113 | a facet that parses has three vertices and leaves parsing strictly later in the input |
| AsciiSpec.SolidSpec | stlloader.h:115-136 | a solid that parses only appends facets to those already in the mesh, all of them triangles |
| AsciiSpec.FileSpec | stlloader.h:138-150 | a file that parses only appends facets to those already in the mesh, all of them triangles |
| AsciiParser.Consume | stlloader.h:74-82 | `consume` reads one line and succeeds exactly when that line's first token is the expected keyword (no line gives the empty word) |
| AsciiParser.ParseAsciiFacet | stlloader.h:91-113 | the facet read and the lines left are exactly those `FacetSpec` gives, and a rejection carries `FacetSpec`'s reason |
| AsciiParser.VertexLoop | stlloader.h:97-107 | the do-while leaves exactly the facet, vertex count and remaining lines `LoopSpec` gives; running out of input is reported as divergence |
| AsciiParser.ParseAsciiSolid | stlloader.h:115-136 | the facets in the mesh and the lines left are exactly those `SolidSpec` gives, and a rejection carries `SolidSpec`'s reason |
| AsciiParser.ParseAsciiFile | stlloader.h:138-150 | the facets and name in the mesh are exactly those `FileSpec` gives, and a rejection carries `FileSpec`'s reason |
| AsciiProperties.ExtractOfWords | stlloader.h:95 | on a line written as the words `ws`, the `i`-th `>>` into a `std::string` gives `ws[i]` when the line has that many words, and otherwise leaves the variable's old value |
| AsciiProperties.ComponentOfWords | stlloader.h:103 | on a line written as the words `ws`, the `i`-th `>>` into a float gives the number written as `ws[i]`, and otherwise leaves the old value |
| AsciiProperties.VertexOfLine | stlloader.h:99-103 | a `vertex` line followed by words: the vertex read (`operator>>` at line 51) takes x, y, z from the first three words in order; a coordinate the line lacks keeps its value, and later words are not read |
| AsciiProperties.NormalOfLine | stlloader.h:125-130 | a `facet normal` line followed by words: the normal read (`operator>>` at line 52) takes x, y, z from the first three words after `normal`; a component the line lacks keeps its value |
| AsciiProperties.HeadOfLine | stlloader.h:100 | the label `ss >> label` reads from a line is the run of non-white-space bytes after the line's leading white space; on an all-white-space line it is empty |
| Text.LeadingSpaces | stlloader.h:78-79 | the white space `>>` skips before a word: every byte before the count is white space, and the byte at it, if any, is not |
| Text.SpacesSkipped | stlloader.h:78-79 | leading white space yields no token: a line's tokens are those of the line with its leading white space removed |
| Text.WordFirst | stlloader.h:79 | a line that does not start with white space has no token exactly when it is empty, and otherwise its first token is the maximal word at its start |
| AsciiProperties.EndloopIndex | stlloader.h:107 | where the vertex loop stops: at most the number of lines, and the line there, if any, starts with `endloop` |
| AsciiProperties.EndloopIndexIsFirst | stlloader.h:107 | no line before that index starts with `endloop`, so the loop stops at the first `endloop` line |
| AsciiProperties.VertexTokens | stlloader.h:100 | the selected lines each start with `vertex`, and there are no more of them than lines |
| AsciiProperties.Filled | stlloader.h:101-103 | filling slots keeps three vertices and the normal |
| AsciiProperties.Fill | stlloader.h:100-104 | one loop line keeps three vertices and the normal |
| AsciiProperties.FilledStep | stlloader.h:100-104 | filling slot vi from one vertex line, then the later slots from the rest, is filling from vi with all of them |
| AsciiProperties.LoopStep | stlloader.h:97-107 | a line that is not `endloop` lets the loop go on with the label, count and facet that line leaves |
| AsciiProperties.LoopStopsAtEndloop | stlloader.h:97-107 | the loop succeeds exactly when some line starts with `endloop`, resumes right after the first such line, and counts every `vertex` line before it |
| AsciiProperties.LoopFillsSlots | stlloader.h:97-107 | with no blank lines, the loop fills slots 0, 1, 2 from the `vertex` lines before `endloop` in order, counts them all and skips every other line |
| AsciiProperties.FilledLoop | stlloader.h:97-107 | the independent description of the loop's result used by `LoopFillsSlots` |
| AsciiProperties.LoopEndsAtOnce | stlloader.h:107 | a loop whose first line is `endloop` stops there with nothing filled |
| AsciiProperties.BlockTail | stlloader.h:97-107 | the first line of a block before its `endloop` has a token other than `endloop`, and the rest is again such a block |
| AsciiProperties.LoopFillsStep | stlloader.h:97-107 | one more line in front of a block keeps the loop's result equal to `FilledLoop` |
| AsciiProperties.FilledLoopTail | stlloader.h:97-107 | `FilledLoop` on the lines after a block's first line |
| AsciiProperties.FilledAfterLine | stlloader.h:100-104 | the facet and count after a block's first line and the rest of it equal those after the whole block |
| AsciiProperties.FilledEndAfterLine | stlloader.h:97-107 | the loop end reached from the facet and count after a block's first line equals `FilledLoop` of the whole block |
| AsciiProperties.FacetSuccessShape | stlloader.h:91-113 | a facet that parses starts with `outer loop`, has at most three `vertex` lines before its first `endloop`, has `endfacet` right after it, and parsing resumes after `endfacet` |
| AsciiProperties.FourthVertexRejected | stlloader.h:108-109 | a fourth `vertex` line before `endloop` is rejected as not a triangle; with no `endloop` at all the loop never ends |
| AsciiProperties.FacetOfBlock | stlloader.h:91-113 | without blank lines, a facet block is exactly: rejected for more than three vertices, rejected without `endfacet`, else the slots filled in order and the unfilled ones kept |
| AsciiProperties.SolidEndsAtEndsolid | stlloader.h:119-124 | a solid that parses ends at the end of the input or right after a line starting with `endsolid` |
| AsciiProperties.SolidRejectsStrayLines | stlloader.h:125-134 | inside a solid, a line starting with neither `endsolid` nor `facet` is rejected, and so is `facet` without `normal` |
| AsciiProperties.BlankLineRepeatsFacet | stlloader.h:117-128 | a blank line after a facet repeats `facet normal` and opens another facet whose normal stays zero |
| AsciiStructure.SolidAccumulator | stlloader.h:115-136 | parsing a solid onto facets already in the mesh has the same outcome, the same lines left and the same rejection reason as onto an empty mesh, with the old facets in front |
| AsciiStructure.SolidFacetStep | stlloader.h:125-132 | a `facet normal` line whose facet parses appends that facet and the solid goes on after it |
| AsciiStructure.FileAccumulator | stlloader.h:138-150 | parsing a file onto facets already in the mesh has the same outcome, name and rejection reason as onto an empty mesh, with the old facets in front |
| AsciiStructure.FileSolidStep | stlloader.h:141-146 | a top-level `solid` line whose solid parses sets the name from that line and the file goes on after the solid |
| AsciiStructure.BlockFacet | stlloader.h:91-113 | the facet a well-formed block describes is a triangle whose normal comes from its `facet normal` line |
| AsciiStructure.BlockFacets | stlloader.h:115-136 | the facets of n blocks are n triangles |
| AsciiStructure.EndloopIndexAppend | stlloader.h:106-107 | lines after a block's `endloop` do not change where the vertex loop stops |
| AsciiStructure.BlockParses | stlloader.h:91-113 | a well-formed facet block parses as its facet whatever follows it, and parsing resumes right after its `endfacet` |
| AsciiStructure.SolidOfBlocks | stlloader.h:115-136 | n well-formed facet blocks closed by `endsolid` append exactly the blocks' facets, in order, and parsing resumes after `endsolid` |
| AsciiStructure.TopLines | stlloader.h:141-146 | the top-level lines the file loop reads are no more than the input's lines, start with its first line, and each is blank or starts with `solid` |
| AsciiStructure.FileNameFromSolidLine | stlloader.h:141-146 | the name a parsed file leaves is the one `ss >> kind >> mesh.name` leaves after its top-level lines in turn |
| AsciiStructure.NameKept | stlloader.h:145 | top-level lines none of which has a second token leave the name as it was |
| AsciiStructure.LastNameWins | stlloader.h:145 | the name top-level lines leave is the second token of the last of them that has one |
| AsciiStructure.FileNameIsLastNamed | stlloader.h:141-146 | the name a parsed file leaves is the second token of its last top-level `solid` line that has one, and the old name only when none has one |
| AsciiStructure.LastSolidNames | stlloader.h:141-146 | a `solid N` line whose solid runs to the end of the input leaves the name N, whatever the name was before |
| AsciiProperties.FileRejectsNonSolidLine | stlloader.h:141-148 | at top level, a line whose first token is not `solid` is rejected |
| BinaryLayout.Uint32LE | stlloader.h:158-160 | a `uint32_t` read from four bytes is below 2^32 and its base-256 digits, least significant first, are the four bytes |
| BinaryLayout.DecodeRecord | stlloader.h:194-200 | a 50-byte record decodes to a facet of exactly three vertices |
| BinaryLayout.Records | stlloader.h:193-202 | count records decode to exactly count triangles |
| BinaryLayout.Count | stlloader.h:191 | the triangle count is a 32-bit value |
| BinaryLayout.BinaryFile | stlloader.h:184-203 | the only way a binary file fails is input too short for its header, count or records |
| BinaryParser.ReadUint16 | stlloader.h:154-156 | reads the next 2 bytes as an unsigned value, least significant first; with fewer left it fails |
| BinaryParser.ReadUint32 | stlloader.h:158-160 | reads the next 4 bytes as the count; with fewer left it fails |
| BinaryParser.ReadFloat | stlloader.h:162-164 | reads the next 4 bytes as one float; with fewer left it fails |
| BinaryParser.ReadTriple | stlloader.h:166-180 | reads x, y and z from the next 12 bytes, 4 each, in order |
| BinaryParser.ReadNormal | stlloader.h:166-172 | a normal is the next 12 bytes decoded as x, y, z |
| BinaryParser.ReadVertex | stlloader.h:174-180 | a vertex is the next 12 bytes decoded as x, y, z |
| BinaryParser.ReadVertices | stlloader.h:196-198 | the vertex loop fills slots 0, 1, 2 from three consecutive 12-byte groups and keeps the normal |
| BinaryParser.ReadRecord | stlloader.h:194-200 | one record is exactly the next 50 bytes decoded as normal, three vertices and a dropped 2-byte field |
| BinaryParser.AppendRecords | stlloader.h:193-202 | `count` records are appended in record order after the facets already there, consuming exactly 50 bytes each |
| BinaryParser.ParseBinaryFile | stlloader.h:184-203 | the header and appended facets are exactly those `BinaryFile` gives, and the stream ends up right after the last record |
| BinaryParser.CutAtNulTerminated | stlloader.h:186-189 | the extra NUL written after the 80 header bytes never changes the header string |
| BinaryParser.RecordDecoded | stlloader.h:194-198 | a facet assembled field by field from the head of the input is that record decoded |
| BinaryParser.RecordsSnoc | stlloader.h:193-202 | reading one more record extends the decoded records by the next one |
| BinaryProperties.BinaryAcceptance | stlloader.h:184-203 | a binary file is accepted exactly when it holds 84 + 50·count bytes; it then yields count facets and a header of at most 80 bytes with no NUL, cut at the first NUL |
| BinaryProperties.RecordFields | stlloader.h:193-200 | record i's normal is at bytes 84 + 50i, +4, +8, and its vertex j at 84 + 50i + 12 + 12j, +4, +8 |
| BinaryProperties.RecordAt | stlloader.h:193-201 | facet i is the record at bytes 84 + 50i to 84 + 50i + 50, decoded |
| BinaryProperties.NormalAt | stlloader.h:166-172 | the normal read at offset q has x, y, z from bytes q, q + 4, q + 8, four each |
| BinaryProperties.VertexAt | stlloader.h:174-180 | the vertex read at offset q has x, y, z from bytes q, q + 4, q + 8, four each |
| BinaryProperties.VertexKeepsBytes | stlloader.h:174-180 | a decoded vertex keeps all 12 bytes it was read from, in order |
| BinaryProperties.NormalKeepsBytes | stlloader.h:166-172 | a decoded normal keeps all 12 bytes it was read from, in order |
| BinaryProperties.RecordKeepsBytes | stlloader.h:194-200 | a decoded record keeps its first 48 bytes, in order, and only the 2-byte attribute field is dropped |
| BinaryProperties.VertexRoundTrip | stlloader.h:174-180 | writing a vertex's bytes back and decoding them gives the vertex |
| BinaryProperties.NormalRoundTrip | stlloader.h:166-172 | writing a normal's bytes back and decoding them gives the normal |
| BinaryProperties.RecordRoundTrip | stlloader.h:194-200 | a facet's 48 bytes followed by any 2-byte attribute field decode back to the facet |
| BinaryProperties.TrailingBytesIgnored | stlloader.h:193-202 | bytes after the last record change nothing in the result |
| BinaryProperties.NoRecords | stlloader.h:191-193 | a count of zero is accepted and appends no facet |
| BinaryProperties.AllZeroFile | stlloader.h:184-203 | 84 zero bytes give an empty header and no facets |
| Loader.ParseStream | stlloader.h:205-223 | the outcome is the chosen parser's: the ASCII parser when the 5 bytes read are `solid`, the binary parser otherwise, either one reading from offset 0 (nothing, after a short sniff read) |
| Loader.SniffsAscii | stlloader.h:208-215 | the sniff test passes exactly when the bytes read are `solid`; a shorter read never passes |
| Loader.AsciiParse | stlloader.h:218 | an ASCII parse that succeeds keeps the header and only appends triangles after the facets already there |
| Loader.BinaryParse | stlloader.h:221 | a binary parse that succeeds keeps the name and only appends triangles; it fails only on truncated input |
| Loader.Dispatch | stlloader.h:215-222 | either branch only appends triangles, and a rejection on the binary branch is always truncation |
| Loader.Parse | stlloader.h:205-223 | parsing a fresh stream only appends triangles, and input shorter than five bytes is rejected as truncated |
| Loader.ParseRoutes | stlloader.h:207-222 | input goes to the ASCII parser exactly when its first five bytes are `solid`, and to the binary parser otherwise, a stream shorter than 5 bytes included |
| Scenarios.TriangleFileRead | stlloader.h:84-89 | the one-triangle file splits into its nine lines and their tokens, and starts with `solid` |
| Scenarios.JoinedHasNoNewline | stlloader.h:84-89 | words joined with spaces form a single line |
| Scenarios.TriangleGrammar | stlloader.h:138-150 | the nine lines of the one-triangle file parse as that triangle and the name `t` |
| Scenarios.OneTriangle | stlloader.h:205-223 | the one-triangle ASCII file yields that triangle and the name `t` and leaves the header as it was |
| Scenarios.ZeroStream | stlloader.h:205-223 | 84 zero bytes are read as a binary file with an empty header and no triangles |

## Left out

- `print(Facet)` and `print(Mesh)` (console output with `printf` float formatting), `parse_file(const char*)` (it only opens a file), the `main` program and the writer. No writer is defined in the source, so no round trip through one is stated.
- Floating point: numbers are never decoded. Binary floats stay as their four bytes and ASCII numbers as their tokens, so no claim is made about numeric validity.
- Number tokens: each white-space-separated token is taken to be one number. A token such as `1.5x`, which `>> float` would split into a number and a failure, is not modelled.
- BinaryLayout.Uint32LE: integers are read least significant byte first. The source reads them in host byte order, so this assumes a little-endian host, as binary STL does.
- BinaryLayout.BinaryFile: input too short for its header, count or records is rejected as `Truncated`. The source never checks its reads and goes on with indeterminate values, so the model says nothing about what the source produces there.
- AsciiParser.VertexLoop: input that ends inside the vertex loop is reported as `Diverges`. The source's do-while never exits there.
- AsciiParser.ParseAsciiFacet, AsciiParser.ParseAsciiSolid, AsciiParser.ParseAsciiFile, BinaryParser.ParseBinaryFile, Loader.ParseStream: after a rejection, the contents of the mesh and the position of the stream are left unspecified. The source's bare `throw;` has no active exception and so ends the program through `std::terminate`.
- Loader.ParseStream: the stream is positioned at an arbitrary offset on entry and rewound to offset 0, as in the source. The ensures about the result of a freshly opened stream (`Parse`) covers the usual call.
- The `main.cpp` copy is modelled by the same members as `stlloader.h`. The two differ only in the sniffer's name and in line numbers.
