# navicore-music worker utilities in Dafny

This project models the helper code that the music library's Cloudflare worker
runs on uploads and on database rows. It proves properties of that model:

- **ZIP scanning** (`parseZipFile`, module `ZipScanner`). A cursor walks the
  uploaded archive. It reads a 32-bit little-endian word at each position.
  - At a local-file-header signature, it decodes the 30-byte header, records
    the member's name, compressed size, data offset and data length, and jumps
    past the member's data.
  - At a central-directory signature, it stops.
  - Anywhere else, it moves on one byte.
  - A header whose fields or name run past the end of the buffer makes the
    `DataView` or `Uint8Array` throw a `RangeError`.
- **Album sorting** (`extractMetadataFromFiles`, module `ZipClassifier`). Each
  member is classified by its lower-cased name as the album metadata file, the
  cover image, an audio file, or none of these. The last metadata file and the
  last cover are kept. The audio files are sorted by name.
- **Track names** (`parseTrackInfoFromFilename`, module `TrackInfo`). The
  extension is removed, a leading track number is read, and the rest is
  cleaned into a title. An empty title becomes "Untitled".
- **Tags** (`tag-utils.mjs`, module `Tags`):
  - Normalising a tag: lower case, trimmed, internal white space collapsed.
  - Parsing and writing the comma-separated tag column.
  - Suggesting tags from a year and a title.
  - Matching a search query against stored tags.
- **UUIDs** (`uuid-utils.mjs`, module `Uuid`):
  - Converting between the 36-character text form and the 16-byte blob stored
    in SQLite.
  - Validating the text form.
  - Converting the blob columns of a row.
  - Preparing a UUID for binding.

Modules `Bytes` and `Text` hold the parts of JavaScript the source relies on.
`Bytes` has `DataView` little-endian reads. `Text` has `toLowerCase`, `trim`,
`replace(/\s+/g, ' ')`, `split`, `join` and `includes`. `Wrappers` holds
`Option` and `Result`. A thrown error is a `Failure` value.

Where the source changes state step by step, the model is imperative:

- `ScanLocalHeaders`: the scan loop.
- `ExtractMetadataFromFiles`: the classification loop.
- `UuidToBlob`: fills a fresh byte array.
- `ConvertBlobUuidsToStrings`: rewrites a copy of the row field by field.

Each of these methods is proved against a specification function. That
function's properties are proved as lemmas.

## Model

| member | source | states |
|---|---|---|
| Bytes.U16LE | build/worker/zip-utils.mjs:19-20 | `getUint16(p, true)` is a 16-bit value read from two bytes, low byte first |
| Bytes.U32LE | build/worker/zip-utils.mjs:15 | `getUint32(p, true)` is a 32-bit value read from four bytes, low byte first |
| Bytes.U32LEBytes | build/worker/zip-utils.mjs:15-17 | a little-endian read equals a given word exactly when the four bytes under the cursor are that word's bytes, lowest first |
| ZipScanner.HeaderEntry | build/worker/zip-utils.mjs:19-36 | the record decoded from a complete local header starts its data after the 30-byte fixed part |
| ZipScanner.StepAt | build/worker/zip-utils.mjs:15-46 | one pass of the loop body; a record it pushes ends its data at least 30 bytes past the cursor |
| ZipScanner.StepsAdvance | build/worker/zip-utils.mjs:29-39 | every pushed record moves the cursor strictly forward, so the loop terminates |
| ZipScanner.ScanLocalHeaders | build/worker/zip-utils.mjs:4-50 | the loop, with a signature pair as a parameter, returns exactly the outcome of the recursive scan `ScanFrom` from offset 0, or the RangeError it throws |
| ZipScanner.ParseZipFile | build/worker/zip-utils.mjs:4-50 | `parseZipFile` with the source's signature constants; a buffer of 4 bytes or fewer gives no records |
| ZipScanner.ParseZipArchive | build/worker/zip-utils.mjs:4-50 | `parseZipFile` with the APPNOTE signature words (the corrected reading, see Findings); a buffer of 4 bytes or fewer gives no records |
| ZipScanner.WalkCursorBound | build/worker/zip-utils.mjs:14-46 | for any loop body whose records advance, the cursor positions strictly increase and there are at most `size - 4 - p` of them |
| ZipScanner.WalkFailsAtLast | build/worker/zip-utils.mjs:14-46 | for any such loop body, the walk fails exactly when its last step fails |
| ZipScanner.WalkRecords | build/worker/zip-utils.mjs:31-39 | a successful walk returns one record per record step, in order, each the entry of that step |
| ZipScanner.WalkHeadersPastData | build/worker/zip-utils.mjs:39 | each record step lies at or past the end of every earlier record's data |
| ZipScanner.WalkStops | build/worker/zip-utils.mjs:40-42 | a stop is the last step, the walk then succeeds, and every record step comes before it |
| ZipScanner.CursorBound | build/worker/zip-utils.mjs:14-46 | on a buffer, the loop body runs at strictly increasing offsets below `len - 4`, at most `len - 4` times |
| ZipScanner.ScanFailsIffTruncated | build/worker/zip-utils.mjs:17-26 | the parse fails exactly when the loop body last ran on a local-header signature whose fixed part or name runs past the end of the buffer |
| ZipScanner.EmitAt | build/worker/zip-utils.mjs:17-36 | a record is pushed only at a complete local header, and it holds that header's name bytes, compressed size, data offset and data length |
| ZipScanner.ScanEntriesAreHeaders | build/worker/zip-utils.mjs:17-39 | a successful parse returns one record per local header passed, in order; each describes its header, and each later header lies at or past the end of every earlier member's data |
| ZipScanner.StopsAtCentralDirectory | build/worker/zip-utils.mjs:40-42 | reaching a central-directory signature ends the scan successfully, and no record comes from that offset or beyond |
| ZipScanner.OversizedMemberEndsScan | build/worker/zip-utils.mjs:14-39 | a member whose declared data reaches past the buffer end is not an error; it is the last record |
| ZipScanner.SourceSignatureBytes | build/worker/zip-utils.mjs:9-17 | as written, the constants match the bytes `04 03 4B 50` and `02 01 4B 50` |
| ZipScanner.ApnoteSignatureBytes | build/worker/zip-utils.mjs:9-17 | the APPNOTE words match the bytes `50 4B 03 04` and `50 4B 01 02` |
| ZipScanner.SourceSkipsApnoteHeader | build/worker/zip-utils.mjs:9-46 | as written, a header laid out as the APPNOTE prescribes is stepped over one byte at a time and never recorded |
| ZipScanner.ApnoteReadsApnoteHeader | build/worker/zip-utils.mjs:17-36 | with the APPNOTE words, a complete local header under the cursor becomes the first record of the rest of the scan |
| ZipClassifier.LowerBytes | build/worker/zip-utils.mjs:62 | lower-casing keeps the length of the name |
| ZipClassifier.ClassifySpec | build/worker/zip-utils.mjs:61-85 | a member falls in the metadata, cover or audio bucket exactly when its lower-cased name is a metadata name, a cover name, or ends in an audio extension |
| ZipClassifier.NamedNotAudio | build/worker/zip-utils.mjs:65-83 | no metadata or cover name ends in an audio extension, so the order of the tests does not matter |
| ZipClassifier.SelectCounts | build/worker/zip-utils.mjs:81-85 | the audio list holds each member exactly as often as the input does if its name is an audio name, else never |
| ZipClassifier.LastInNone | build/worker/zip-utils.mjs:65-78 | no metadata (or cover) file is found exactly when no name falls in that bucket |
| ZipClassifier.LastInSome | build/worker/zip-utils.mjs:65-78 | the file kept is the one at the highest position whose name falls in the bucket |
| ZipClassifier.NameLeTotal | build/worker/zip-utils.mjs:89 | the name order compares any two names |
| ZipClassifier.NameLeTransitive | build/worker/zip-utils.mjs:89 | the name order is transitive |
| ZipClassifier.InsertByName | build/worker/zip-utils.mjs:89 | inserting into a sorted list keeps it sorted and adds exactly the one member |
| ZipClassifier.SortByName | build/worker/zip-utils.mjs:89 | the sort result is ordered by name and is a permutation of its input |
| ZipClassifier.ExtractMetadataFromFiles | build/worker/zip-utils.mjs:52-92 | the loop keeps the last metadata file and the last cover; each flag is set exactly when that file is found; the audio list is the audio members, sorted by name |
| ZipClassifier.AudioFilesSpec | build/worker/zip-utils.mjs:81-89 | the audio list is sorted by name and holds exactly the audio members, with their multiplicities |
| ZipClassifier.BucketsDisjoint | build/worker/zip-utils.mjs:64-85 | no member is both an audio file and the metadata file or cover |
| TrackInfo.TrailingRun | build/worker/zip-utils.mjs:96 | the trailing run of characters other than `.` and `/` is maximal |
| TrackInfo.StripExtension | build/worker/zip-utils.mjs:96 | removing the extension leaves a prefix of the name |
| TrackInfo.StripExtensionSpec | build/worker/zip-utils.mjs:96 | the extension is removed exactly when `\.[^/.]+$` matches, and the cut is where it matches |
| TrackInfo.LeadingDigits | build/worker/zip-utils.mjs:99 | the leading run of decimal digits is maximal |
| TrackInfo.LeadingSeparators | build/worker/zip-utils.mjs:104 | the leading run of `[\s\-_.]` is maximal |
| TrackInfo.DecimalString | build/worker/zip-utils.mjs:100 | the decimal rendering of a number is a non-empty run of digits |
| TrackInfo.DecimalRoundTrip | build/worker/zip-utils.mjs:100 | `parseInt` of a number's decimal rendering gives the number back |
| TrackInfo.DecimalLeadingZero | build/worker/zip-utils.mjs:100 | leading zeros do not change the parsed track number |
| TrackInfo.TrackNumberSpec | build/worker/zip-utils.mjs:99-100 | there is a track number exactly when `^(\d+)[\s\-_.]` matches, and it is the value of the captured digits |
| TrackInfo.DashesToSpaces | build/worker/zip-utils.mjs:105 | the length is kept, no `-` or `_` is left, every other character is kept in place, and a character changes only when it becomes a space |
| TrackInfo.DropTrackNumber | build/worker/zip-utils.mjs:104 | removing the number prefix leaves a suffix of the name: the whole name when it does not start with a digit, and otherwise the name less its leading digits and the whole run of `[\s\-_.]` separators after them |
| TrackInfo.CleanTitleSpec | build/worker/zip-utils.mjs:103-107 | the cleaned title is trimmed and single-spaced, has no `-` or `_`, and has no other characters than those of the name |
| TrackInfo.ParseTrackInfoSpec | build/worker/zip-utils.mjs:94-113 | the title is never empty, is clean, is "Untitled" exactly when nothing (or "Untitled") is left of the name, and is otherwise the cleaned name; the track number is present exactly when the pattern matches |
| TrackInfo.UntitledSpec | build/worker/zip-utils.mjs:111 | the fallback title is itself a clean title |
| Text.LowerChar | build/worker/tag-utils.mjs:11 | lower-casing a character leaves no upper-case letter, keeps white space, and changes only upper-case letters |
| Text.Lower | build/worker/tag-utils.mjs:11 | `toLowerCase` keeps the length |
| Text.LowerOfLower | build/worker/tag-utils.mjs:11 | lower-casing a string with no capitals changes nothing |
| Text.TrimStart | build/worker/tag-utils.mjs:12 | the removed prefix is all white space and what is left does not start with white space |
| Text.TrimStartSuffix | build/worker/tag-utils.mjs:12 | what `trimStart` leaves is a suffix of the string |
| Text.TrimEnd | build/worker/tag-utils.mjs:12 | the removed suffix is all white space, and what is left is a prefix that does not end with white space |
| Text.TrimSpec | build/worker/tag-utils.mjs:12 | `trim` leaves no white space at either end, adds no characters, and is the identity on trimmed strings |
| Text.SingleSpacedTrim | build/worker/tag-utils.mjs:12-13 | trimming keeps a string single-spaced |
| Text.CollapseSpaces | build/worker/tag-utils.mjs:13 | collapsing white space never lengthens a string |
| Text.TrimEndCons | build/worker/tag-utils.mjs:12 | `trimEnd` does not reach past a leading non-space character |
| Text.TrimEndSpace | build/worker/tag-utils.mjs:12 | `trimEnd` of a string after a space removes that space too when nothing else is left |
| Text.CollapseSpacesSpec | build/worker/tag-utils.mjs:13 | after `replace(/\s+/g, ' ')` all white space is single plain spaces; ends that were not white space stay so; no other character is introduced |
| Text.CollapseSingleSpaced | build/worker/tag-utils.mjs:13 | collapsing changes nothing in a single-spaced string |
| Text.Split | build/worker/tag-utils.mjs:27 | `split(',')` yields at least one piece, none holding a comma |
| Text.SplitJoin | build/worker/tag-utils.mjs:27-47 | splitting undoes joining when no piece holds the separator |
| Text.SplitWithout | build/worker/tag-utils.mjs:27 | a string without the separator splits into itself |
| Text.SplitAfter | build/worker/tag-utils.mjs:27 | splitting after a separator-free first piece gives that piece and the split of the rest |
| Text.Includes | build/worker/tag-utils.mjs:108 | `includes` is true exactly when the needle occurs at some position |
| Tags.NormalizeTagSpec | build/worker/tag-utils.mjs:9-14 | `normalizeTag` yields a lower-case, trimmed, single-spaced tag; it is idempotent; it introduces no characters but spaces |
| Tags.NormalizeNoComma | build/worker/tag-utils.mjs:9-14 | normalising never introduces a comma |
| Tags.NormalFixed | build/worker/tag-utils.mjs:9-14 | a tag already in normal form is unchanged |
| Tags.NormalizeLeadingSpace | build/worker/tag-utils.mjs:9-14 | the space `join(', ')` puts in front of a tag is removed again |
| Tags.IndexOf | build/worker/tag-utils.mjs:30 | `indexOf` is -1 exactly when the tag is absent, and is otherwise its first position |
| Tags.KeepFirstSpec | build/worker/tag-utils.mjs:30 | the first-occurrence filter yields a list without repeats holding the same tags |
| Tags.KeepFirstOrder | build/worker/tag-utils.mjs:30 | the first-occurrence filter lists the tags in the order of their first occurrence |
| Tags.DedupeSpec | build/worker/tag-utils.mjs:30-46 | removing duplicates leaves distinct tags, exactly those of the input, listed in the order of their first occurrence, and is the identity on a list without repeats |
| Tags.DedupeDistinct | build/worker/tag-utils.mjs:30 | on a list without repeats the filter keeps every prefix |
| Tags.NonEmptyOnly | build/worker/tag-utils.mjs:29-45 | the empty-tag filter keeps exactly the non-empty tags, and changes nothing when none is empty |
| Tags.NormalizeAll | build/worker/tag-utils.mjs:28-44 | mapping `normalizeTag` keeps the length |
| Tags.NormalizeAllSpec | build/worker/tag-utils.mjs:28-44 | the mapped tags are normal, and are exactly the normal forms of the inputs |
| Tags.CanonicalSpec | build/worker/tag-utils.mjs:26-46 | the shared pipeline yields distinct, non-empty, normal tags: exactly the non-empty normal forms of the inputs |
| Tags.CanonicalFixed | build/worker/tag-utils.mjs:26-30 | a list already distinct, non-empty and normal passes through unchanged |
| Tags.ParseTagsSpec | build/worker/tag-utils.mjs:21-31 | parsed tags are distinct, non-empty, normal and comma-free; they are exactly the non-empty normal forms of the comma-separated pieces, in the order in which each first occurs; an empty string gives none |
| Tags.CanonicalCommaFree | build/worker/tag-utils.mjs:26-30 | the pipeline keeps comma-free tags comma-free |
| Tags.JoinSpaced | build/worker/tag-utils.mjs:47 | joining with `", "` is joining with `","` after putting a space in front of every tag but the first |
| Tags.StringifyParseRoundTrip | build/worker/tag-utils.mjs:21-48 | parsing what `stringifyTags` wrote from comma-free tags gives their canonical list |
| Tags.ReadBackJoined | build/worker/tag-utils.mjs:21-47 | parsing the join of a canonical, comma-free list gives that list |
| Tags.NormalizeSpaced | build/worker/tag-utils.mjs:28-47 | normalising the pieces between the commas gives the tags back |
| Tags.ParseStringifyParse | build/worker/tag-utils.mjs:21-48 | parsing, writing and parsing again is parsing once |
| Tags.DecadeTagSpec | build/worker/tag-utils.mjs:58-68 | a year gets a decade tag exactly when it is 1950 or later; two such years share a tag exactly when they share a decade, or are both 2020 or later |
| Tags.PushSpec | build/worker/tag-utils.mjs:55-83 | a conditional push keeps the suggestions in rank order and adds the tag exactly when the test passed |
| Tags.SuggestionsMembers | build/worker/tag-utils.mjs:55-85 | the suggestions are in rank order and are exactly the decade tag and the keyword tags whose tests passed |
| Tags.SuggestionsSpec | build/worker/tag-utils.mjs:55-85 | each keyword tag is present exactly when its test passed, and the only decade-ranked tag is the decade tag |
| Tags.SuggestTagsSpec | build/worker/tag-utils.mjs:54-86 | decade, then live, remix, acoustic, each at most once; "live" exactly when the title has the word live, "remix" exactly when it has remix, mix or edit, "acoustic" exactly when it has acoustic; a decade tag exactly when the year has one |
| Tags.SplitOnSpace | build/worker/tag-utils.mjs:101 | `split(/\s+/)` yields at least one piece, and the pieces joined by single spaces give the string with each white-space run collapsed to one space, so the string is split exactly at its white-space runs |
| Tags.SplitOnSpacePieces | build/worker/tag-utils.mjs:101 | no piece of `split(/\s+/)` holds white space |
| Tags.WordsJoin | build/worker/tag-utils.mjs:101-102 | the non-empty pieces joined by single spaces give the collapsed string without white space at either end |
| Tags.RemoveLeadingSpaces | build/worker/tag-utils.mjs:101 | removing leading white space keeps the non-space characters of the query |
| Tags.ConcatSplitOnSpace | build/worker/tag-utils.mjs:101 | the pieces of `split(/\s+/)` hold exactly the non-space characters of the string, in order |
| Tags.ConcatNonEmpty | build/worker/tag-utils.mjs:102 | dropping empty pieces loses no characters |
| Tags.SearchTermsSpec | build/worker/tag-utils.mjs:99-102 | the search terms are non-empty and space-free; joined by single spaces they give the lower-cased query, trimmed and with each white-space run collapsed to one space; together they spell the lower-cased query without its white space |
| Tags.AnyTagIncludes | build/worker/tag-utils.mjs:108 | true exactly when some tag includes the term |
| Tags.AnyTermMatches | build/worker/tag-utils.mjs:107-109 | true exactly when some term occurs inside some tag |
| Tags.MatchTags | build/worker/tag-utils.mjs:94-110 | `matchTags` is true exactly when both strings are non-empty and some word of the query occurs inside some parsed tag |
| Tags.TagMatchesItself | build/worker/tag-utils.mjs:94-110 | searching for a stored one-word tag finds it |
| Tags.SplitOnSpaceNoSpace | build/worker/tag-utils.mjs:101 | a string without white space is its own only search term |
| Uuid.HexValue | build/worker/uuid-utils.mjs:19 | a hexadecimal digit's value is below 16 |
| Uuid.HexDigitChar | build/worker/uuid-utils.mjs:38 | the digit `toString(16)` writes is a lower-case hexadecimal digit with that value |
| Uuid.HexDigitRoundTrip | build/worker/uuid-utils.mjs:19-38 | writing back the value of a digit gives the digit in lower case |
| Uuid.LeadingHexDigits | build/worker/uuid-utils.mjs:19 | the leading run of hexadecimal digits is maximal |
| Uuid.ParseIntHexPair | build/worker/uuid-utils.mjs:19 | `parseInt` of two hexadecimal digits in base 16 is the byte they spell |
| Uuid.RemoveHyphens | build/worker/uuid-utils.mjs:10 | removing hyphens never lengthens a string |
| Uuid.RemoveHyphensAppend | build/worker/uuid-utils.mjs:10 | removing hyphens distributes over concatenation |
| Uuid.RemoveHyphensNone | build/worker/uuid-utils.mjs:10 | a hyphen-free string is unchanged |
| Uuid.PairByteOfDigits | build/worker/uuid-utils.mjs:19 | the stored byte of a pair of hexadecimal digits is the number they spell |
| Uuid.UuidBytes | build/worker/uuid-utils.mjs:8-23 | `uuidToBlob` fails with "Invalid UUID format" exactly when the string does not have 32 characters once its hyphens are removed; otherwise it yields 16 bytes |
| Uuid.UuidToBlob | build/worker/uuid-utils.mjs:8-23 | the loop fills a fresh 16-byte array with exactly the bytes `UuidBytes` describes, or fails as it does |
| Uuid.ByteHex | build/worker/uuid-utils.mjs:38 | a byte is written as two lower-case digits, high then low |
| Uuid.BlobHex | build/worker/uuid-utils.mjs:37-39 | a blob is written as twice as many lower-case hexadecimal digits, two per byte |
| Uuid.Hyphenate | build/worker/uuid-utils.mjs:42-48 | the hyphenated form has 36 characters |
| Uuid.BlobToUuid | build/worker/uuid-utils.mjs:30-49 | `blobToUuid` fails with "Invalid UUID blob size" exactly when the blob is not 16 bytes |
| Uuid.HyphenateAt | build/worker/uuid-utils.mjs:42-48 | each position of the hyphenated form holds a hyphen (at 8, 13, 18, 23) or the next digit |
| Uuid.HyphenateValid | build/worker/uuid-utils.mjs:73-76 | hyphenating 32 hexadecimal digits gives a string `isValidUuid` accepts |
| Uuid.RemoveHyphensHyphenate | build/worker/uuid-utils.mjs:10-48 | removing hyphens undoes hyphenation |
| Uuid.UuidDigitsAt | build/worker/uuid-utils.mjs:73-76 | the digits of a 36-character UUID are at the non-hyphen positions |
| Uuid.ValidIsHyphenated | build/worker/uuid-utils.mjs:73-76 | a valid UUID has 32 hexadecimal digits and is the hyphenation of them |
| Uuid.PairBytesOfBlobHex | build/worker/uuid-utils.mjs:19-39 | reading a blob's digits back two at a time gives its bytes |
| Uuid.BlobToUuidRoundTrip | build/worker/uuid-utils.mjs:8-49 | every 16-byte blob becomes a valid lower-case UUID, and `uuidToBlob` of it gives the blob back |
| Uuid.BytesOfValid | build/worker/uuid-utils.mjs:8-23 | a valid UUID is accepted, and each byte comes from its two digits |
| Uuid.PairDigits | build/worker/uuid-utils.mjs:19-38 | writing out a byte read from two digits gives those digits in lower case |
| Uuid.BlobHexOfPairs | build/worker/uuid-utils.mjs:19-39 | writing out bytes read from digit pairs gives the digits in lower case |
| Uuid.UuidBytesRoundTrip | build/worker/uuid-utils.mjs:8-49 | every valid UUID is accepted, and its blob turns back into the same UUID in lower case |
| Uuid.HyphenateLower | build/worker/uuid-utils.mjs:38-48 | hyphenating lower-cased digits is lower-casing the hyphenation |
| Uuid.ConvertBlobUuidsToStrings | build/worker/uuid-utils.mjs:84-96 | fails exactly when a listed field holds a blob that is not 16 bytes; otherwise it returns a row with the same columns, each listed blob column replaced by its UUID text and every other column unchanged |
| Uuid.PrepareUuidForBinding | build/worker/uuid-utils.mjs:104-107 | nothing for an absent or empty UUID, the same error as `uuidToBlob` for a malformed one, and otherwise a blob holding its bytes |

## Left out

- The worker code has no byte-range serving, so none is modelled.
- `generateUuidBlob` and `generateUuid` (`crypto.randomUUID`) are left out: they are randomness. `generateUuidBlob`'s random string passes through `uuidToBlob`, which is modelled; `generateUuid` returns it unchanged.
- ZipScanner.ZipEntry: the member name is kept as its raw bytes. `TextDecoder` UTF-8 decoding is not modelled, because it is a foreign call with replacement-character rules. `TextDecoder.decode` also strips a leading UTF-8 byte-order mark. So a member named EF BB BF followed by "cover.jpg" is the cover in the source, but the model classifies it as `Ignored`.
- ZipScanner.ParseZipFile: `async` and the `ArrayBuffer`/`DataView` objects become a byte sequence, and the thrown `RangeError` becomes a `Failure` value.
- ZipClassifier.NameLe: `localeCompare` is modelled as byte-wise lexicographic order of the names. Locale collation is foreign code; this order is total and transitive, which is all the sort relies on.
- ZipClassifier.SortByName: `Array.prototype.sort` works in place on the audio array. It is modelled as a stable insertion sort on a value, so the order of members with equal names follows that sort.
- ZipClassifier.ExtractMetadataFromFiles: the `metadata` object is returned as a datatype value built from the loop's local variables. Nothing else holds a reference to it during the loop.
- ZipClassifier.LowerBytes and Text.Lower: `toLowerCase` is modelled on ASCII letters only. Full Unicode case mapping is not modelled. The same goes for the `/i` flag of `isValidUuid` and of the `suggestTags` patterns.
- Text.IsSpace: `\s` and `trim` use ECMAScript's WhiteSpace and LineTerminator set. JavaScript strings are sequences of UTF-16 units, but a Dafny `char` is a Unicode scalar value. So a character outside the Basic Multilingual Plane is one `char` in the model and two units (a surrogate pair) in the source. None of those characters is white space, so the tag and search operations treat it the same way either way.
- TrackInfo.TrackNumber: `parseInt` of a long digit run is an exact integer, while the source rounds it to a floating-point number.
- Tags.SuggestTags: `metadata.year` is taken as the result of `parseInt`: `None` when it is falsy or parses to NaN. The leading-digit parsing of arbitrary values is not modelled.
- Tags.ParseTags and Tags.StringifyTags: `None` stands for any argument that is not a string (respectively not an array). An array holding non-strings is not modelled.
- Uuid.ConvertBlobUuidsToStrings: a row is a map from column names to cells. A cell is a blob (`ArrayBuffer` or `Uint8Array`), text, or another value. Other views are not modelled: `new Uint8Array(view)` copies a view's elements, not its bytes, so a `DataView` (no elements) or a multi-byte typed array such as `Uint16Array` converts or fails differently from its bytes. The truthiness test is folded into the blob test, and inherited properties of the row object are not modelled.
- Uuid.UuidToBlob: `substr` and the `hex.length` test are modelled on `char`s, like the other string operations. The source counts UTF-16 units instead. So 31 hexadecimal digits followed by one character outside the Basic Multilingual Plane have length 33 in the source, which throws. The model counts 32 `char`s and goes on to parse the pairs.

## Findings

| source | as written | input that shows it | evidently intended | confidence | as-written member | corrected member |
|---|---|---|---|---|---|---|
| build/worker/zip-utils.mjs:9-17 | the signatures `0x504B0304` and `0x504B0102` are compared with a little-endian read, so they match only the bytes `04 03 4B 50` and `02 01 4B 50` | any archive whose local header starts with the APPNOTE bytes `50 4B 03 04` ("PK\x03\x04"): the header is skipped and no member is recorded | the little-endian words `0x04034B50` and `0x02014B50` of section 4.3.7 and 4.3.12 of PKWARE's APPNOTE.TXT | high; not executed | ZipScanner.SourceSkipsApnoteHeader | ZipScanner.ApnoteReadsApnoteHeader |
