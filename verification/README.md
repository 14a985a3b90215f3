# LuaRT `c.Struct`, zip path helpers and the webview CDP proxy path, in Dafny

This project models three pieces of LuaRT.

- **`c.Struct`**: the C-structure binding of the `c` module, in
  `src/modules/c/src/Struct.c`. It covers:
  - the signature language: one tag character per field, plus optional `[n]` array extents;
  - how the constructor lays a signature out into field offsets and sizes;
  - the field accessors `__metaindex` and `setfield`;
  - the instance factory `__call`;
  - the release rule of `__gc`.
- **The path helpers of `compression.Zip`**, in `src/core/compression/Zip.c`: stripping a trailing
  separator, joining with `/`, creating the directory chain of a path, and the
  entry names used by the iterator, by `isdirectory`, by `extract` and by the
  recursive directory writer.
- **The path of a webview CDP proxy**, in `src/modules/webview/src/webview.cpp`: how
  indexing extends the dotted method name, how a call resets it, how an event
  name is formed, and the default of the print settings' `copies` field.

The platform is fixed to 64-bit Windows:

- pointers and `size_t` are 8 bytes;
- `wchar_t` is 2 bytes;
- `long` is 32 bits, so `strtol` clamps at `0x7FFFFFFF`.

Memory is a sequence of bytes (`Bytes.byte`), and integers are stored
little-endian (`Bytes.Encode` / `Bytes.Decode`). A definition and an instance
share one datatype, `Record.Struct`, as in the C code:

- `data` is `None` for a definition;
- `data` is `Some(buffer)` for an instance;
- `owned` keeps the C meaning, where *true* means the buffer is borrowed and `__gc` does not free it.

The layout rules are modelled as the code computes them, including its quirks.
The array counter is the *sum* of the extents. A field without extents is widened
to the size of the previous field without extents. Array fields are neither
widened nor counted as that previous field. The test meant to exempt nested
fields (Struct.c:102) is always true, so '.' and 'u' fields are widened too. The
last field's offset is `padding + padding % largest`. Each quirk is exhibited
by a lemma (see `LayoutExamples` and `RecordLaws`).

Modules:

| module | contents |
|---|---|
| `Wrappers` | `Option` / `Result` |
| `CStrings` | the NUL-terminated view of a string |
| `Bytes` | little-endian encoding, signed views, splicing |
| `Signature` | tags, `removeBrackets`, the `strtol` digit run |
| `Layout` | `get_offset` and the constructor's field loop, with the layout invariants |
| `LayoutExamples` | concrete signatures |
| `Record` | `setfield`, `get_field`, `__metaindex`, `__call`, `__gc` |
| `RecordLaws` | write/read round trips, isolation, ownership |
| `ZipPaths` | the `Zip.c` path helpers |
| `CdpPath` | the proxy path in `webview.cpp` |

## Model

| member | source | states |
|---|---|---|
| Signature.TagCharRoundTrip | src/modules/c/src/Struct.c:25-72 | the tag table used by get_bytes is a bijection between the twenty tag characters and the tags |
| Signature.ScalarWidth | src/modules/c/src/Struct.c:47-69 | a scalar tag's width is 1, 2, 4 or 8 bytes, and which tags have which width |
| Signature.RemoveBrackets | src/modules/c/src/Struct.c:135-149 | removing bracket groups never lengthens the signature |
| Signature.RemoveBracketsNoOpen | src/modules/c/src/Struct.c:135-149 | no '[' survives bracket removal |
| Signature.RemoveBracketsIdentity | src/modules/c/src/Struct.c:135-149 | a signature without '[' is left unchanged |
| Signature.RemoveBracketsIdempotent | src/modules/c/src/Struct.c:135-149 | removing brackets twice is the same as once |
| Signature.SkipGroupTo | src/modules/c/src/Struct.c:140-144 | skipping a group resumes just after the first ']' |
| Signature.DigitRun | src/modules/c/src/Struct.c:80 | the digit run strtol consumes is maximal and stays inside the string |
| Signature.StrtolDigits | src/modules/c/src/Struct.c:80 | the parsed extent is clamped to LONG_MAX |
| Layout.ExtentGroups | src/modules/c/src/Struct.c:78-101 | accepted extents are positive, the parse ends on a ']' that is not followed by '[', and every group it passed is one removeBrackets drops; zero or negative extents, a missing ']' and a non-number are the three errors |
| Layout.ExtentGroupsValues | src/modules/c/src/Struct.c:78-93 | the extents the loop collects are the numbers strtol reads inside the brackets, in signature order |
| Layout.ParseExtents | src/modules/c/src/Struct.c:78-101 | an array field's size is the element size times the product of its extents, and its element counter is their sum |
| Layout.ParseExtentsValues | src/modules/c/src/Struct.c:78-93 | a field's extents are exactly the bracketed numbers after its tag; its size is the base width times their product and its counter their sum |
| Layout.ParseFieldDims | src/modules/c/src/Struct.c:78-93 | a parsed field's dimensions are the bracketed numbers that follow its tag |
| Layout.GroupsVanish | src/modules/c/src/Struct.c:135-149 | the bracket groups get_offset consumes are exactly those removeBrackets deletes |
| Layout.ParseField | src/modules/c/src/Struct.c:74-114 | an unknown tag is an error; otherwise the field's tag is the signature character and one step follows the offset/widening/padding rule |
| Layout.FieldVanishes | src/modules/c/src/Struct.c:135-149 | one field and its extents leave exactly its tag character after bracket removal |
| Layout.Parse | src/modules/c/src/Struct.c:170-197 | the constructor yields a definition: no buffer, not borrowed, no children |
| Layout.ParseFieldsTags | src/modules/c/src/Struct.c:172-195 | the field loop produces one field per character left by removeBrackets, in order |
| Layout.ParseTags | src/modules/c/src/Struct.c:172-195 | a definition's tag string equals removeBrackets of its signature |
| Layout.ParseFieldsLayout | src/modules/c/src/Struct.c:102-113 | the field loop keeps the layout invariant across steps |
| Layout.ParseLayout | src/modules/c/src/Struct.c:102-113 | every definition is well laid out: fields follow one another, the last one is placed by the end adjustment, and the size is where the last field ends |
| Layout.SumSizesMonotone | src/modules/c/src/Struct.c:112-113 | running field sizes only grow |
| Layout.PackedEndsBeforeLast | src/modules/c/src/Struct.c:110-113 | each field ends where the next starts and no later than the last field's offset |
| Layout.EndsBeforeLast | src/modules/c/src/Struct.c:110-113 | the same for a definition |
| Layout.Containment | src/modules/c/src/Struct.c:110-113 | every field lies inside the record's size |
| Layout.Disjoint | src/modules/c/src/Struct.c:110-113 | any two fields of a definition are disjoint |
| LayoutExamples.IntDoubleCharArray | src/modules/c/src/Struct.c:74-114 | "idc[4]" lays out id at 0 (4 bytes), value at 4 (8 bytes), and tag at 16 (4 bytes, one extent); the total is 20 |
| LayoutExamples.CharWidened | src/modules/c/src/Struct.c:102-108 | in "ic" the char is widened to the int's 4 bytes |
| LayoutExamples.NestedFieldWidened | src/modules/c/src/Struct.c:102-108 | a '.' field without extents is widened to the previous non-array field's size, because the exemption test is always true |
| LayoutExamples.RecordWidened | src/modules/c/src/Struct.c:102-108 | in "i." a 2-byte record is widened to 4 bytes and the record is 8 bytes |
| LayoutExamples.EndAdjustmentIsNotRounding | src/modules/c/src/Struct.c:110-111 | in "ci" the int lands at 2 and the record is 6 bytes, not aligned to 4 |
| LayoutExamples.TwoDimensionalCounter | src/modules/c/src/Struct.c:85-91 | "i[4][4]" has 64 bytes but an element counter of 8, the sum of the extents |
| LayoutExamples.CommaIsUnknown | src/modules/c/src/Struct.c:71 | a comma is an unknown tag, so "i,d,c[4]" is rejected |
| LayoutExamples.ZeroExtent | src/modules/c/src/Struct.c:82-83 | "i[0]" is a bad array size |
| LayoutExamples.UnclosedExtent | src/modules/c/src/Struct.c:96-97 | "i[3" is a malformed array |
| LayoutExamples.NonNumericExtent | src/modules/c/src/Struct.c:98-99 | "i[x]" expects an array length |
| Record.Lookup | src/modules/c/src/Struct.c:206-211 | get_field finds the first field whose C name equals the key, and fails exactly when none does |
| Record.DefinitionValid | src/modules/c/src/Struct.c:170-197 | every definition the constructor yields satisfies the record invariant |
| Record.StoreWidths | src/modules/c/src/Struct.c:256-258 | a 'B' field is read as 4 bytes but written as 2; every other scalar tag is written with its width |
| Record.StoreArray | src/modules/c/src/Struct.c:218-239 | an array write changes only the field's bytes, and only a string or a non-NULL pointer is accepted; the first min(length, size) bytes of the field become the start of the wide string (for 'w'), the byte string (other tags) or the object's memory, and the rest of the field is kept |
| Record.WideBytesUnits | src/modules/c/src/Struct.c:220-224 | a wide string's bytes hold each UTF-16 unit low byte first, at twice its index |
| Record.ScalarBytes | src/modules/c/src/Struct.c:247-289 | the bytes a scalar write produces are as wide as the tag's store |
| Record.StoreScalar | src/modules/c/src/Struct.c:241-289 | a scalar or nested write changes only the bytes it stores, and only a 'W' field whose first byte is set frees something |
| Record.SetField | src/modules/c/src/Struct.c:213-293 | an unknown name and a write to a definition are errors; a write keeps the record invariant, buffer address and fields, and touches only the named field's bytes, except a nested copy from a record larger than the field, which also overwrites the bytes after it |
| Record.FindBinding | src/modules/c/src/Struct.c:369-370 | finds the child view bound to a nested field, if any |
| Record.ReadScalar | src/modules/c/src/Struct.c:368-398 | a scalar read gives a value within the tag's range |
| Record.ReadScalarFits | src/modules/c/src/Struct.c:368-398 | the raw field bytes fit the tag's width and signedness |
| Record.GetField | src/modules/c/src/Struct.c:347-401 | a read fails exactly on an unknown name; an array read is a view at the field's address whose elements fit the field |
| Record.ArrayOf | src/modules/c/src/Struct.c:354-367 | an array view's element size is the field size divided by its counter, so the elements fit in the field |
| Record.Bindings | src/modules/c/src/Struct.c:116-133 | a new instance binds one child view per nested field, at that field's address |
| Record.Instantiate | src/modules/c/src/Struct.c:157-169 | an instance over a buffer of the definition's size keeps the definition's fields and has one view per nested field |
| Record.ApplyEntries | src/modules/c/src/Struct.c:325-331 | table initialisation keeps the record invariant and the buffer address |
| Record.ApplyArgs | src/modules/c/src/Struct.c:340-343 | positional initialisation keeps the record invariant and the buffer address |
| Record.Call | src/modules/c/src/Struct.c:295-345 | only a definition can be called; the instance is borrowed exactly when it wraps a light pointer or a LuaRT object other than a Struct, and then its buffer is that memory; otherwise the buffer is the block allocated for it, zeroed when there are no arguments; child views are bound inside the allocated block unless a light pointer is given |
| Record.Make | src/modules/c/src/Struct.c:305-345 | building the instance of a definition: the same as Call without the definition check |
| Record.Fill | src/modules/c/src/Struct.c:325-343 | initialisation from a table or from positional values keeps the record invariant |
| Record.WideStrings | src/modules/c/src/Struct.c:411-416 | the pointers __gc frees for 'W' fields are exactly the non-NULL ones stored in them |
| Record.Gc | src/modules/c/src/Struct.c:409-425 | __gc frees the buffer exactly when the instance owns it, and frees every non-NULL 'W' pointer |
| RecordLaws.LoadSplice | src/modules/c/src/Struct.c:247-289 | reading back the bytes just stored gives them |
| RecordLaws.ScalarWrite | src/modules/c/src/Struct.c:213-293 | a write to a scalar field is the field's scalar store |
| RecordLaws.ScalarRead | src/modules/c/src/Struct.c:368-398 | a read of a scalar field is the field's scalar load |
| RecordLaws.IntegerStoreLoad | src/modules/c/src/Struct.c:259-265 | the bytes an integer store leaves load as the integer truncated to the width |
| RecordLaws.IntegerRoundTrip | src/modules/c/src/Struct.c:259-265 | writing an integer to an integer field reads back its truncation to the field's width and signedness |
| RecordLaws.IntegerReadingExact | src/modules/c/src/Struct.c:259-265 | the read-back equals the integer exactly when it fits the tag's range |
| RecordLaws.CharStoreLoad | src/modules/c/src/Struct.c:247-248 | a 'c' store keeps the low byte of an integer or the first byte of a string |
| RecordLaws.CharRoundTrip | src/modules/c/src/Struct.c:247-248 | writing to a 'c' field reads back the low byte of an integer or the first byte of a string, 0 for an empty string |
| RecordLaws.BooleanStoreLoad | src/modules/c/src/Struct.c:256-258 | a 'B' store zeroes the low half of the field and leaves the high half |
| RecordLaws.HalfStoreLoad | src/modules/c/src/Struct.c:256-258 | zeroing the low two bytes of four leaves their value as the high two bytes' value |
| RecordLaws.BooleanWriteIsLost | src/modules/c/src/Struct.c:256-258 | after writing any boolean, the read depends only on the field's untouched high bytes |
| RecordLaws.PointerStoreLoad | src/modules/c/src/Struct.c:274-283 | an 8-byte address store loads back as the address |
| RecordLaws.AddressStoreLoad | src/modules/c/src/Struct.c:273-283 | 'p' and 'Z' stores keep the object or string address |
| RecordLaws.PointerRoundTrip | src/modules/c/src/Struct.c:274-283 | writing an object to a 'p' field reads back its pointer |
| RecordLaws.CStringRoundTrip | src/modules/c/src/Struct.c:273 | writing a string to a 'Z' field reads back the string's address |
| RecordLaws.WideStoreLoad | src/modules/c/src/Struct.c:284-289 | a 'W' store frees the field's own address when its first byte is set |
| RecordLaws.WideStringWrite | src/modules/c/src/Struct.c:284-289 | writing to a 'W' field stores the new wide copy, and the free it does is the field's address inside the buffer, not the old string |
| RecordLaws.ArrayWriteTruncates | src/modules/c/src/Struct.c:218-239 | a string or a pointer-capable object written to an array field puts its first min(length, size) bytes at the field's offset and leaves the rest of the field; for a 'w' array the length counts the wide string's bytes |
| RecordLaws.WideArrayUnits | src/modules/c/src/Struct.c:220-224 | a 'w' array write stores every UTF-16 unit that fits, low byte first, at twice its index from the field's offset |
| RecordLaws.WriteIsolation | src/modules/c/src/Struct.c:213-293 | writing one field never changes what another scalar field reads, provided a nested copy fits its field |
| RecordLaws.NestedCopyOverruns | src/modules/c/src/Struct.c:241-246 | a nested write copies the whole source record at the field's offset, so a larger source also writes past the field |
| RecordLaws.ReadScalarFrame | src/modules/c/src/Struct.c:368-398 | a scalar read depends only on the field's bytes |
| RecordLaws.LookupOwnName | src/modules/c/src/Struct.c:206-211 | with distinct names, each field is found by its own name |
| RecordLaws.BorrowedNeverFreed | src/modules/c/src/Struct.c:409-425 | an instance over a light pointer sits at that address and __gc never frees it |
| RecordLaws.FreshBufferFreed | src/modules/c/src/Struct.c:409-425 | an instance made without arguments is zeroed and __gc frees exactly its buffer |
| RecordLaws.NoWideStringsWhenZeroed | src/modules/c/src/Struct.c:411-416 | a zeroed buffer holds no wide string to free |
| RecordLaws.ChildViewsBorrow | src/modules/c/src/Struct.c:116-133 | a child view lies inside the block __call allocated (or the light pointer's memory), which is the parent's buffer unless a non-Struct object was passed; the instance over it borrows, so its __gc never frees the borrowed memory |
| RecordLaws.ObjectArgumentStaleViews | src/modules/c/src/Struct.c:315-324 | with a non-Struct LuaRT object the buffer becomes the object, but the child views stay bound to the allocated block, and __gc frees neither |
| RecordLaws.IntegerCallStoresInt64 | src/modules/c/src/Struct.c:333-339 | calling a definition with an integer stores its 8 bytes at offset 0, so a 'j' field there reads it back |
| RecordLaws.MatrixElementSize | src/modules/c/src/Struct.c:354-367 | an "i[4][4]" view has 8-byte elements although 'i' is 4 bytes wide |
| ZipPaths.KeptLength | src/core/compression/Zip.c:130-135 | the kept prefix ends on a non-separator and only separators follow it |
| ZipPaths.StrippedPrefix | src/core/compression/Zip.c:130-135 | remove_trailing_sep leaves the longest prefix that does not end in a separator |
| ZipPaths.StripIdempotent | src/core/compression/Zip.c:130-135 | stripping twice is the same as once |
| ZipPaths.Snprintf | src/core/compression/Zip.c:538 | the bounded print always ends with NUL inside the buffer |
| ZipPaths.AppendPath | src/core/compression/Zip.c:137-142 | the joined buffer has room for both parts, the '/' and the NUL |
| ZipPaths.AppendPathJoins | src/core/compression/Zip.c:137-142 | append_path joins the C strings with one '/' and terminates the buffer |
| ZipPaths.MsSnprintf | src/core/compression/Zip.c:137-142 | the Windows bounded print fills the whole count |
| ZipPaths.DirQueryForm | src/core/compression/Zip.c:532-546 | isdirectory looks up the name with a '/' appended |
| ZipPaths.ExtractDirName | src/core/compression/Zip.c:337-340 | the directory name buffer is two longer than the entry name |
| ZipPaths.ExtractDirNameOfPlain | src/core/compression/Zip.c:337-340 | extract tries the entry name with '/' appended |
| ZipPaths.ExtractDirNameOfEmbedded | src/core/compression/Zip.c:337-340 | a name holding a NUL is cut at it and gets no '/' |
| ZipPaths.IterName | src/core/compression/Zip.c:572-586 | the iterator drops one trailing '/' from a directory entry and keeps other names |
| ZipPaths.IterNameOfDirForm | src/core/compression/Zip.c:572-586 | the name isdirectory looks up comes back from the iterator as the directory name |
| ZipPaths.NewDirs | src/core/compression/Zip.c:144-160 | the entries make_dir_path adds are new prefixes of the path ending in a separator, shortest first |
| ZipPaths.NewDirsComplete | src/core/compression/Zip.c:144-160 | every separator-terminated prefix is in the archive afterwards |
| ZipPaths.NewDirsShorter | src/core/compression/Zip.c:144-160 | a longer prefix is not yet added, so each prefix is added at most once |
| ZipPaths.MakeDirPath | src/core/compression/Zip.c:144-160 | the archive afterwards is the old entries followed by the missing directory prefixes |
| ZipPaths.SkippedNames | src/core/compression/Zip.c:180 | the filter skips ".", ".." and anything starting with "..", and keeps "", ".git" and "a.b" |
| ZipPaths.EntryAction | src/core/compression/Zip.c:180-190 | write_dir skips filtered names, recurses into directories with joined paths, and adds files under the joined or bare name, except the archive itself |
| ZipPaths.SearchPatternForm | src/core/compression/Zip.c:177 | the search pattern is the stripped directory followed by "/*" |
| CdpPath.Extend | src/modules/webview/src/webview.cpp:265-276 | a key either starts the path or is appended after a '.' |
| CdpPath.Index | src/modules/webview/src/webview.cpp:261-285 | indexing keeps the proxy, returns it, and extends its path with a NUL-free name |
| CdpPath.IndexAll | src/modules/webview/src/webview.cpp:261-285 | a chain of indexing keeps the proxy |
| CdpPath.IndexAllSetsPath | src/modules/webview/src/webview.cpp:261-285 | after at least one key the path is set and NUL-free |
| CdpPath.IndexAllFrom | src/modules/webview/src/webview.cpp:261-285 | indexing keys onto a path appends them dot-joined |
| CdpPath.IndexAllJoins | src/modules/webview/src/webview.cpp:261-285 | from an empty path, a chain of keys yields the keys joined by '.' |
| CdpPath.InterleavedProxiesSharePath | src/modules/webview/src/webview.cpp:287-301 | a proxy carrying the path another proxy left (the shared "path_mt" field) extends it, so a key indexed on one proxy and one on another form a single dotted path |
| CdpPath.JoinSnoc | src/modules/webview/src/webview.cpp:235-236 | appending a key to a chain appends '.' and the key to its joined name |
| CdpPath.Call | src/modules/webview/src/webview.cpp:178-206 | a call sends the path as the method name, with the JSON argument or "{}", and resets the path |
| CdpPath.SetEvent | src/modules/webview/src/webview.cpp:223-259 | a non-function handler is an error; with a live control a subscription is made, and without one nothing is |
| CdpPath.EventOfIndexedPath | src/modules/webview/src/webview.cpp:233-236 | assigning a handler to `proxy.a.b.key` subscribes to the event "a.b.key", the indexed keys and the assigned key joined by '.' |
| CdpPath.CallThenIndexStartsOver | src/modules/webview/src/webview.cpp:200-203 | after a call the next index starts a new path |
| CdpPath.ToInt32 | src/modules/webview/src/webview.cpp:359-362 | the conversion lands in INT32 range and keeps values that fit |
| CdpPath.Copies | src/modules/webview/src/webview.cpp:359-362 | a missing field is not set, 0 becomes 1, and other values in range are kept |
| CdpPath.CopiesZero | src/modules/webview/src/webview.cpp:359-362 | 0 copies reach the settings exactly for non-zero multiples of 2^32 |

## Left out

- The Lua stack, metatables and the registry are not modelled. Values arrive as the `Record.Value` datatype. The `luaL_ref`/`luaL_unref` bookkeeping of child views in `__gc` is left out, as is the push of `fields[1]` when a definition is indexed.
- Float conversions are left out: the writes of 'f', 'd', 'l', 'L' and '#' go through `lua_tonumber`. These writes are excluded by the precondition `WriteModelled`, and reads of these tags return the raw bytes.
- Lua's coercion of numeric strings to integers is not modelled. A string written to an integer field is excluded by `WriteModelledFor`. Nil, booleans, tables and objects store 0, as `lua_tointeger` gives.
- A 'Z' field is not written with a number (`CString => !v.Integer?` in `WriteModelledFor`): `luaL_checkstring` would convert it to a string (Struct.c:273).
- A 'W' field is written only with a string (`WString => v.Str?` in `WriteModelledFor`): `lua_towstring` also converts numbers.
- Strings are sequences of characters and `TextBytes` takes each character as one byte, reduced modulo 256. Multi-byte encodings are not modelled.
- A 'w' array write copies two bytes per wide code unit, up to the field size. This reads the length from `lua_tolwstring` as a byte count, which is an assumption about that foreign call.
- `lua_towstring` and `obj_topointer` are foreign calls. The wide copy's address and a table's object pointer are parameters (`alloc`, `towstring`, `Object.ptr`).
- `strtol`'s leading white space and sign are not modelled. An extent that does not start with a digit is the "expecting array length" error.
- `size_t` wrap-around of very large extent products is not modelled (sizes are unbounded).
- The 63-dimension limit of the extents buffer is not modelled.
- Reading a scalar field of a definition dereferences a NULL buffer in the C code. `ReadModelled` excludes it.
- Positional `__call` arguments beyond the number of fields index past the field array in the C code. `CallModelled` excludes them.
- The integer form of `__call` copies 8 bytes whatever the record size. `CallModelled` requires the record to hold at least 8 bytes.
- A nested field copied from a definition (a NULL buffer) is excluded by `WriteModelledFor`, and so is a nested copy that runs past the end of the buffer. A copy larger than the field but inside the buffer is modelled, and it overwrites the following fields (`RecordLaws.NestedCopyOverruns`).
- WriteIsolation: holds only when a nested copy fits its field, because the C code copies the source's whole size (Struct.c:241-246).
- ChildViewsBorrow: the views lie in the parent's buffer only when no non-Struct LuaRT object is passed. With such an object, `__call` binds the views to the allocated block before switching the buffer to the object (Struct.c:315-324). That block is then never freed (`RecordLaws.ObjectArgumentStaleViews`).
- The constructor's clone branch (a definition called with a definition) is modelled only through `Record.Instantiate`, which it shares with `__call`.
- miniz and the Win32 `FindFirstFile` loop are outside the model: the archive is a list of entry names, and a directory listing is the per-entry decision `ZipPaths.EntryAction`.
- `zip_entry_open`'s own name normalisation is left out, and lookups are exact matches.
- `make_dir_path`'s temporary NUL write into the path is modelled as taking a prefix.
- ZipPaths.RemoveTrailingSep, ZipPaths.StrippedPrefix and ZipPaths.SearchPatternForm require a path that holds a character other than a separator. On `""`, `"/"` or `"\\"` the C loop (Zip.c:131-133) reads before the start of the string, and `write_dir` can pass such a directory (Zip.c:177).
- `call_cdp` and `setevent_cdp` on a proxy that was never indexed pass a NULL path to the C library. Both require the path to exist when the browser is ready.
- The asynchronous `TaskCallback` completion of a CDP call, COM and the JSON result are left out. `luaL_checkstring`'s error on a non-string argument is left out too.
- `path_index` reads its key from a fixed stack slot. The model takes the key as a parameter.
- CdpPath.Proxy: the metatable "path_mt" is created once in the registry, so every proxy of every Webview reads and writes the same path. The model's `path` is that shared field (`CdpPath.InterleavedProxiesSharePath`). The metatable's "wv" is the Webview of the first `cdp` access, so later Webviews send their calls and events to the first one. The model does not track which Webview receives them: `ready` stands for the first Webview's control.
- `printsettingsFromTable` reads `copies` with `lua_tointeger`, which gives 0 for a non-integral number. Only integers are modelled.
- A signature written with separators, such as "i,d,c[4]", does not describe three fields, as C declaration syntax might suggest. The code treats ',' as an unknown tag, and the model follows the code (`LayoutExamples.CommaIsUnknown`).
- Record.WriteModelledFor: a 'w' scalar write of nil, a boolean, a table or an object is excluded (`WChar => v.Integer? || v.Str?`). The C code passes such a value to `lua_towstring` and reads the first unit of what it returns (Struct.c:252-253), which this model cannot describe.
- Record.EntriesModelled: a table passed to `__call` may not have integer keys (`!entries[j].0.Integer?`). The C code calls `luaL_checkstring` on the key while `lua_next` walks the table (Struct.c:328), which turns the key into a string in place and breaks the traversal.
- Record.CallModelled: a Struct argument of `__call` must have a buffer (`ptr != 0`) no larger than the new record. The C code copies `from->size` bytes from `from->data` whatever they are (Struct.c:320), so a definition or a larger record reads NULL or writes past the new buffer.
- ZipPaths.IterName: requires a non-empty entry name. The C code reads `str[len-1]` (Zip.c:578), which lies before the string when it is empty.
- Record.ReadScalar: a 'Z' or 'W' read gives the address stored in the field (`StringPointer`, `WideStringPointer`). The C code pushes the string found at that address (Struct.c:391, 396); the memory there is not modelled.
- Layout.ParseField: a nested field's record is the argument at the field's own position (`ArgAt(args, |acc|)`). The C constructor's `get_bytes` takes it from the stack slot at the signature position plus 3 (`i += 3`, Struct.c:27-30), so once an extent such as "[4]" precedes the nested field, the C code reads a different argument than the model does.
- Record.ReadScalar: an 'f' or 'd' read gives the stored bits rather than the Lua number. A 'J', 'L' or '#' read gives the exact unsigned value, which `lua_pushnumber` rounds to a double above 2^53.
- Record.Call: a type mismatch during initialisation is a `Result` error. In the C code it is a Lua error raised after the instance was pushed, and the partly written instance is discarded with it.
