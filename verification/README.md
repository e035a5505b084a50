# FPKGi package-metadata pipeline in Dafny

This project models the part of the FPKGi node server (`server.js`) that
turns a library of PlayStation 4 package files into the per-category JSON
catalogs the FPKGi client downloads. It covers:

- `readBytes`: a zero-filled fixed-size read;
- `parseSFO`: the PARAM.SFO key/value table decoder;
- the two 1 MiB block scans: one for the `\0PSF\1\1\0\0` table magic (`extractGameDetails`), one for the `PNG` cover marker (`extractGameImage`);
- `detectRegion`;
- the date format of `getFormattedDate`;
- `readPkgMetadata`: the title-id fallback that captures `CUSA<digits>` from the content id in the package header;
- `processPKG`: record assembly, cover URL, package URL, `||` defaults;
- `generateJSON`: read, upsert one key and write back;
- `scanPackages`: the category filter, the catalog reset, candidate selection (top-level `.pkg` files plus every entry one directory down) and `processedCount`.

Modules, in dependency order:

| file | module | what it holds |
|---|---|---|
| `wrappers.dfy` | `Wrappers` | `Option`, `Result` |
| `bytes.dfy` | `Bytes` | bytes, zero-filled reads, little-endian numbers, byte↔char decoding, NUL stripping, decimal text |
| `signature.dfy` | `Signature` | the block-wise signature scan and the two signatures |
| `sfo.dfy` | `Sfo` | `parseSFO` |
| `sfo_encode.dfy` | `SfoEncode` | an independent encoder of well-formed tables and the round trip `ParseSfo(SfoImage(ps)) == Ok(ParamMap(ps))` |
| `metadata.dfy` | `Metadata` | details and cover extraction, `detectRegion`, the `CUSA` fallback, dates |
| `catalog.dfy` | `Catalog` | catalog documents, cover files, the write log and its replay |
| `scan.dfy` | `Scan` | `processPKG` and `scanPackages` over an abstract directory tree |

A scan is described as the log of writes it performs: reset a catalog, write a cover file, upsert a record. Replaying the log on a store of documents and files gives the scan's effect. Because the log depends only on the library tree and never on the store, idempotence and the "rebuild" property follow from one fact: every upsert into a catalog comes after a reset of that catalog.

JavaScript behaviour is modelled explicitly:

- A table value is a string or a 32-bit number (`SfoValue`). `||` and `if (x)` use JavaScript truthiness: `""` and `0` are falsy.
- A number stays a number in `title_id`, `name` and `version`. In a template literal it becomes decimal text.
- Assigning to `gameInfo["__proto__"]` creates no property.
- An exception that nothing catches ends the scan. The scan's result is then `Aborted`, and the store holds the writes made so far.

Consequences of the code that are easy to miss:

- **A file whose parameter table is missing or unreadable aborts the whole scan.** `extractGameDetails` returns `null`, and `processPKG` reads `details.TITLE_ID` before testing `details` (server.js:544). The file is not skipped: the scan stops there.
- **Table entries that run past the window do not always just drop out.**
  - A number entry whose declared size fits but whose four bytes do not makes `readUInt32LE` throw.
  - The throw turns into `null` details, which then ends the scan as above.
  - `ShortNumberThrows` exhibits such a window, and `ShortNumberFileGivesNull` a file that reaches it.
- **A non-zero numeric `CONTENT_ID` makes `detectRegion` throw a `TypeError`.** `startsWith` is not a method of numbers, so the scan ends. This happens after the cover has been written.
- **Entries inside a subdirectory are not filtered by extension.** Every one of them is processed. A nested directory, or a nested file without the table magic, yields `null` details and aborts the scan. A nested file that holds the magic is parsed and published like a package, whatever its name.
- **`processedCount` counts only top-level `.pkg` files.** Nested candidates are processed but not counted.

## Model

| member | source | states |
|---|---|---|
| Bytes.ReadBytes | server.js:47-51 | the buffer has the requested length, holds the file's bytes where the file has them, and zeros past its end |
| Bytes.ToLittleEndian | server.js:55-57 | encoding a number below 256^width as little-endian bytes reads back as that number (partner of `readUInt32LE`/`readUInt16LE`) |
| Bytes.LittleEndianRoundTrip | server.js:66-69 | every byte run is the little-endian encoding of the value read from it, so reads of u16 and u32 fields lose nothing |
| Bytes.EncodeDecode | server.js:76 | byte-to-character decoding is a bijection on bytes: encoding the decoded text gives the bytes back |
| Bytes.StripNul | server.js:83 | the stripped text has no NUL, keeps every other character, and is unchanged when there was no NUL |
| Bytes.StripNulChar | server.js:83 | a single NUL is removed and any other single character is kept |
| Bytes.StripNulConcat | server.js:83 | stripping a concatenation is the concatenation of the stripped parts, so with the single-character case every non-NUL character is kept in order and as often as it occurs |
| Bytes.IndexOfByte | server.js:74-75 | `indexOf(0, keyOffset)` with the `-1` mapped to the table length: no NUL before the result, a NUL at it unless it is the end |
| Bytes.FirstIndexFrom | server.js:108 | `Buffer.indexOf` of a pattern: the result is an occurrence and no earlier one exists; none means no occurrence at all |
| Bytes.DecimalRoundTrip | server.js:555 | the decimal text of a size reads back as the size |
| Signature.ScanFrom | server.js:102-115 | a found offset lies in the first block, in file order, that contains the pattern, at the pattern's first position in that block; all earlier blocks miss |
| Signature.PlantedPatternFound | server.js:156-169 | a pattern first occurring at block k, position i, with no earlier block matching, is found at k·1048576+i |
| Signature.NoBlockMatchNotFound | server.js:156-174 | when no block contains the pattern, the scan reports nothing found |
| Signature.ZeroFreeMatchInsideFile | server.js:106-111 | a pattern with no zero byte is found only where the file really holds it, never in the zero padding of the last block |
| Signature.PaddedMagicMatch | server.js:162-165 | the table magic can match partly in the zero padding past the end of a short file: a 6-byte file holding its first six bytes is reported at offset 0 |
| Signature.BoundaryMiss | server.js:102-115 | blocks do not overlap: a `PNG` straddling the first block boundary is not found |
| Signature.FindPng | server.js:102-118 | the cover offset `p` lies in -1 .. size-4, the file holds `PNG` at `p+1 .. p+3`, and every block before the one holding it misses; no offset means no read block holds `PNG` |
| Sfo.EntryOutcomeCases | server.js:63-88 | an entry is skipped exactly when its record, key offset or value is out of range or its type is neither 0x0204 nor 0x0404; it throws exactly when an in-range number's four bytes run past the window |
| Sfo.EntryBindings | server.js:72-88 | a bound entry's key runs from its key offset to the next NUL or the key table's end; a string value is its bytes without NULs, a number value its four little-endian bytes |
| Sfo.SkippedEntryIrrelevant | server.js:62-91 | dropping a skipped entry changes neither whether the parse succeeds nor the parsed object |
| Sfo.FoldEntries | server.js:62-91 | the loop completes exactly when no entry throws; otherwise it fails at the first throwing entry |
| Sfo.FoldEntriesKeys | server.js:62-91 | the parsed object has exactly the keys some decoded entry assigns (never `__proto__`) |
| Sfo.FoldEntriesLastWins | server.js:90 | each key's value is that of an entry that no later entry overwrites |
| Sfo.ParseSfo | server.js:54-94 | a buffer shorter than the 20-byte header throws; otherwise the parse succeeds exactly when no entry's number read runs past the end, and a failure names the first such entry; the object never holds `__proto__` |
| Sfo.ShortNumberThrows | server.js:78-85 | a number entry whose size check passes but whose four bytes run past the window makes the parse fail |
| SfoEncode.RoundTrip | server.js:54-94 | parsing the 2048-byte image of a well-formed list of parameters gives back the key/value map of that list, last duplicate winning |
| SfoEncode.EntryAtImage | server.js:64-90 | each entry of an encoded image decodes to its own key and value |
| Metadata.ExtractDetails | server.js:151-184 | no table magic gives `null`; once the magic is found, the details are `null` exactly when some entry of the 2048-byte window throws, since the header always fits; the details never hold `__proto__` |
| Metadata.DetailsOfEmbeddedTable | server.js:151-179 | a package whose first table magic starts an encoded table yields that table's parameters as details |
| Metadata.ShortNumberGivesNull | server.js:176-183 | when the window read at the found offset is the throwing window of `ShortNumberThrows`, the parse failure is caught and the details are `null` |
| Metadata.ShortNumberFileGivesNull | server.js:151-183 | a 2048-byte file opening with the table magic and holding the throwing number entry is found at offset 0 and yields `null` details |
| Metadata.ExtractImage | server.js:97-127 | a cover is produced exactly when the `PNG` marker is found; it is 512 KiB long and holds the file's bytes from one before the marker (from 0 for a marker at offset 0), zeros past the end of the file |
| Metadata.CoverWindowAtMarker | server.js:117-127 | the cover window starts one byte before the marker, or at the marker when it is at offset 0 |
| Metadata.DetectRegion | server.js:136-142 | a falsy id gives no region; a non-zero number throws; a string gives USA, EUR or JAP exactly when it starts with UP, EP or JP, and UNK otherwise |
| Metadata.RegionFromTwoCharacters | server.js:136-142 | the region depends only on the first two characters |
| Metadata.CusaCapture | server.js:534-536 | `-(CUSA\d+)`: no result exactly when `-CUSA<digit>` occurs nowhere; otherwise the leftmost match's `CUSA` and its whole digit run |
| Metadata.CusaCaptureUnique | server.js:534-536 | any `CUSA<digits>` following the leftmost `-` match and ending where the digits end is the captured title id |
| Metadata.HeaderTitleId | server.js:525-537 | `null` exactly when the content-id field holds no `-CUSA<digit>`; otherwise `CUSA` followed by one to 27 digits |
| Metadata.HeaderTitleIdLocal | server.js:525-533 | only bytes 0x30..0x50 of the file matter: two files that agree there, zeros past the end of a short file, give the same id |
| Metadata.ContentIdOfHeader | server.js:525-532 | the content id is the header text at 0x30..0x50 with its NUL padding removed |
| Metadata.HeaderFallbackExample | server.js:525-536 | a header holding `UP1234-CUSA05678_00` yields `CUSA05678` |
| Metadata.ResolveTitleId | server.js:544-548 | a truthy `TITLE_ID`, or a falsy `CONTENT_ID`, leaves the title id as it is; a truthy id from the fallback is the `CUSA` capture of the header |
| Metadata.FallbackIsTruthy | server.js:544-550 | when the fallback runs, the resulting title id is truthy, so the package goes on to the cover and record, exactly when the header holds a `CUSA` id |
| Metadata.Pad2Value | server.js:147 | `("0" + n).slice(-2)` is two digits whose value is n modulo 100 |
| Metadata.FormattedDateReadsBack | server.js:145-148 | the date text is two digits reading back as the one-based month, a dash, two digits reading back as the day (both modulo 100), a dash, and the year's digits without leading zeros reading back as the year |
| Catalog.UpsertRecord | server.js:187-208 | `generateJSON` sets one key of one catalog, creating the catalog if absent, and leaves every other key, catalog and cover file alone |
| Catalog.Rebuild | server.js:502-518 | replaying a log in which every upsert follows a reset of its catalog leaves the catalogs it touches as they would be from an empty store, and everything else as it was |
| Catalog.ReplayIdempotent | server.js:502-518 | replaying such a log twice equals replaying it once |
| Catalog.ReplayForgetsPriorCatalogs | server.js:502-518 | the catalogs such a log ends with do not depend on the catalogs it started from, when it resets all of them |
| Scan.EntryCandidates | server.js:510-517 | a top-level file is a candidate exactly when it ends in `.pkg`; a subdirectory contributes one candidate per entry inside it, in listing order |
| Scan.Candidates | server.js:507-518 | the candidates of a category are exactly those of its entries |
| Scan.CandidatesConcat | server.js:507-518 | the candidates of a listing split in two are those of the first part followed by those of the second, so listing order is kept |
| Scan.CandidatesSingle | server.js:507-518 | a one-entry listing contributes exactly that entry's candidates, which with `CandidatesConcat` fixes the candidates' order and count |
| Scan.TopLevelCandidatesArePackageFiles | server.js:514-517 | the top-level candidates of a category are its top-level `.pkg` files, one for one |
| Scan.Categories | server.js:498-500 | the categories are exactly the top-level directories not named `covers` |
| Scan.CategoriesConcat | server.js:498-500 | the categories of a listing split in two are those of the first part followed by those of the second |
| Scan.CategoriesSingle | server.js:498-500 | one entry is a category exactly when it is a directory not named `covers`; with `CategoriesConcat` the categories are the listing filtered in `readdirSync` order |
| Scan.PackageUrl | server.js:551 | the package URL is `http://host:port/pkg` followed by the path below `data/`, character for character, with every backslash turned into a slash |
| Scan.AssembleRecord | server.js:551-555 | the record's name and version are the table's when truthy, else `Unknown` and `0.00`; `min_fw` is null; the size reads back as the file length; the cover URL is `/images/<title id>.png` |
| Scan.CoverWrites | server.js:117-127 | a cover file named `<title id>.png` is written exactly when the marker is found, and its contents are the extracted 512 KiB window |
| Scan.Emit | server.js:554-555 | the cover is written before the region is computed: a region error ends the call with that error, keeping the cover and writing nothing else |
| Scan.EmitRecord | server.js:550-555 | a record is upserted exactly when the region does not throw, and every upsert is keyed by the encoded package URL and carries the assembled fields |
| Scan.PublishRecord | server.js:549-555 | a record is upserted exactly when the title id is truthy and the region does not throw, under the encoded package URL, with the assembled fields |
| Scan.ProcessPkg | server.js:540-557 | `processPKG` throws the null-details error exactly for a directory or a file without a readable table, and then writes nothing; every upsert goes into its own category |
| Scan.SequenceStops | server.js:502-519 | the first exception ends a `forEach`: nothing after it runs |
| Scan.CandidatesComplete | server.js:507-518 | a category's pass completes exactly when no candidate throws, and then counts its top-level candidates |
| Scan.CrashStopsRun | server.js:507-518 | the first throwing candidate ends the pass with its exception |
| Scan.RunFolder | server.js:502-518 | a category's writes start with the reset of its catalog, and every upsert follows it |
| Scan.ScanLog | server.js:494-522 | every upsert of a scan follows a reset of its catalog |
| Scan.ScanLogCompletes | server.js:502-519 | the `forEach` over the categories completes exactly when no category's pass throws, and then counts the top-level `.pkg` files of every category |
| Scan.ScanPackages | server.js:494-522 | a scan completes exactly when no category's pass throws, and then reports the number of top-level `.pkg` files across the categories |
| Scan.ScanRebuilds | server.js:494-522 | a scan leaves the catalogs it touches as a scan of an empty store would, and keeps every other document and cover |
| Scan.ScanIdempotent | server.js:494-522 | scanning an unchanged library twice gives the same store and outcome as scanning once |
| Scan.ScanCompleted | server.js:494-522 | a completed scan reports the number of top-level `.pkg` files and has a catalog for every category |
| Scan.ScanAborts | server.js:502-519 | a scan ends with the first category's exception, having run only the categories up to it |

## Left out

- File-system I/O is not modelled: opening, `fstat`, read and write failures, the file descriptor leaked when a scan read throws, and `existsSync`. A package is its bytes, its birth date and its path. A directory is its listing, in `readdirSync` order.
- Logging (`console.log`, `console.error`) is left out.
- The Express routes, the HTML page, `loadConfig` and startup are left out.
- `encodeURI` is a parameter of the configuration. Its escaping rules are not modelled.
- Byte decoding maps each byte to the character with the same code. This agrees with UTF-8 on ASCII only. Multi-byte UTF-8 sequences and the replacement character for invalid bytes are not modelled.
- JSON serialisation and re-parsing of catalog documents is left out. A document on disk is its `DATA` map. A document that fails to parse, or that is not an object, is not modelled.
- `path.join` normalisation is left out. A path is its list of segments below `data/`, each written after a separator. `replace(BASE_DIR, "")` is taken to remove exactly the `data/` prefix.
- The local time zone and `Date` are not modelled. A birth time is given as its local month, day and year.
- The calendar is not modelled: month and day are any numbers, so the date text is stated for all of them, modulo 100 in the padded fields.
- Scan.ScanIdempotent: holds for the model, where cover files live in a store of their own, apart from the library tree. In the code a cover is written to `path.join(IMAGE_DIR, titleId + ".png")`, so a title id holding `../` could place it inside a category, and the next scan would pick it up as a nested entry. Title ids with path separators are not modelled.
- Scan.ScanRebuilds: rests on the same separation of cover files from the library tree, for the same reason.
- Timers and concurrent scans are not modelled, nor is the order of two scans racing on the same files.
