# multipart/form-data parser, modelled in Dafny

This project models the core of a PHP library that parses a raw
`multipart/form-data` request body into PHP's `$_POST`/`$_FILES`-style
arrays. It covers the classes `HttpHeaderLine` and `Parser`.

- The boundary is read from the `Content-Type` header.
- The body is cut at the delimiter lines (`preg_split`, dropping the
  preamble and the epilogue).
- Each part's header block is parsed into `HttpHeaderLine` objects, keyed by
  lower-cased name.
- Parts whose `Content-Disposition` is `form-data` are kept. A part with a
  truthy `filename` is an uploaded file. A part with a non-empty `name` is a
  form field.
- Fields and files are laid out as the nested arrays `parse_str` builds from
  `name=value` pairs. For files, the leaves are the uploaded-file objects,
  found again through their object ids.

Modules, one per file:

- `Wrappers` and `Errors`: `Option`/`Result` and the `ParserException` kinds, plus the `TypeError` of the finding below.
- `PhpString`: the PHP string built-ins the core relies on: `trim`, `explode`, `strtolower`, decimal integer keys.
- `HeaderLines` (`src/HttpHeaderLine.php`): a header line is a value after construction. It is a datatype. The constructor's loop is the method `NewHeaderLine`, proved equal to the function `Parse`.
- `Boundary`, `Segmenter`, `Parts`: `readBoundary`, the `preg_split` cut, `parseHeaders` (a method with its loop, proved against the fold `HeadersOf`), `isFormDataPart` and the decision on each part.
- `FormTree`: what `parse_str` makes of the bracket syntax of variable names (`a`, `a[k]`, `a[]`), and the substitution of file objects for ids (`array_walk_recursive`).
- `Decoder` (`src/Parser.php`):
  - The class `Parser` holds the fields the PHP class updates: `boundary`, `formFields`, `files`, `filesFlat`, plus a counter standing for fresh object ids.
  - Its `ReadBoundary`, `Parse`, `ParseUploadedFile` and `LayoutFilesAssocDeep` methods are proved against the pure fold `Process`/`Decode`.
  - The `static $file_index` of `parseUploadedFile` is the shared object `FileIndex`.
- `Encoding`: a writer of field-only forms, used to state the round trip from the form fields to a body and back through `Decode`.

Two details of the code are worth knowing:

- `trim($v, '"\'')` removes every leading and every trailing quote, not one matched pair (`QuotesStripped` needs the inner text to neither start nor end with a quote).
- Only a file part with no `name` at all takes the counter. A file part with `name=""` keeps the empty name, and `parse_str` then drops it.

An upload without a `name` is filed under the counter's value as a decimal key by `Decoder.AddFile`, `Decoder.Process`, `Decoder.Decode`, `Decoder.Parser.ParseUploadedFile` and `Decoder.NewParser`. This is the corrected behaviour. The code as written raises a `TypeError` at that point; see "## Findings".

PHP strings are byte strings. Here a `string` is a `seq<char>` in which one `char` stands for one byte, so `|body|` is `strlen($body)`, the size an uploaded file records.

## Model

| member | source | states |
|---|---|---|
| HeaderLines.Parse | src/HttpHeaderLine.php:12-45 | a line without `:` fails with headerLineError on that line; the other failure is headerLineNameError; on success the name has no `:`, is trimmed, and the raw line starts with name + `:`; all parameter keys are lower case |
| HeaderLines.NewHeaderLine | src/HttpHeaderLine.php:12-45 | the constructor with its foreach loop over the value pieces yields exactly `Parse(raw)` |
| HeaderLines.SplitsAtFirstColon | src/HttpHeaderLine.php:14-26 | the line splits at its first colon; it fails (with headerLineNameError) exactly when the name is not trimmed; otherwise the value is the first trimmed piece and the parameters come from all pieces |
| HeaderLines.PrimaryValue | src/HttpHeaderLine.php:28-31 | the value is the trimmed text before the first `;` |
| HeaderLines.ExplodeFirstPiece | src/HttpHeaderLine.php:28 | `explode(';', …)` begins with the text before the first `;` |
| HeaderLines.Pieces | src/HttpHeaderLine.php:28-29 | `explode` plus trimming yields at least one piece, so `current()` always has a value |
| HeaderLines.Param | src/HttpHeaderLine.php:34-43 | a piece stores a parameter exactly when it contains `=`; the key is lower case and trimmed |
| HeaderLines.ParamSplitsAtFirstEquals | src/HttpHeaderLine.php:34-43 | a piece splits at its first `=`: the key is `strtolower(trim(key))` and the value is trimmed, then stripped of quotes |
| HeaderLines.QuotedParam | src/HttpHeaderLine.php:42-43 | `key="text"` or `key='text'` stores `text` |
| HeaderLines.QuotedTrimmed | src/HttpHeaderLine.php:43 | a quoted value is left alone by the whitespace trim |
| HeaderLines.QuotesStripped | src/HttpHeaderLine.php:43 | stripping quotes from a quoted text gives back the text when it neither starts nor ends with a quote |
| HeaderLines.LowerKeepsTrimmed | src/HttpHeaderLine.php:42 | lower-casing a trimmed key keeps it trimmed |
| HeaderLines.StoreParams | src/HttpHeaderLine.php:33-44 | every stored key is lower case and trimmed |
| HeaderLines.StoreParamsSnoc | src/HttpHeaderLine.php:33-44 | each further piece's parameter, if it has one, overwrites that key in the map built so far |
| HeaderLines.NoEqualsNoParams | src/HttpHeaderLine.php:36-38 | pieces without `=` store nothing |
| HeaderLines.LastParamWins | src/HttpHeaderLine.php:43 | a key's value is the one from the last piece that stores that key |
| HeaderLines.OtherKeyKept | src/HttpHeaderLine.php:43 | a piece storing another key leaves this key's presence and value unchanged |
| HeaderLines.UnstoredKeyAbsent | src/HttpHeaderLine.php:33-44 | a key that no piece stores is absent |
| HeaderLines.LastStoring | src/HttpHeaderLine.php:33-44 | if some piece stores a key, there is a last piece that stores it |
| HeaderLines.KeyValueAbsent | src/HttpHeaderLine.php:57-60 | `getKeyValue` returns null exactly when no piece stores the key |
| Boundary.ReadBoundary | src/Parser.php:35-49 | the only failures are wrongContentType and missingBoundary |
| Boundary.WrongContentTypeIff | src/Parser.php:37-42 | fails with wrongContentType, carrying the trimmed media type, exactly when the trimmed first piece is not `multipart/form-data` |
| Boundary.NoParameters | src/Parser.php:44-46 | `multipart/form-data` with no second piece fails with missingBoundary |
| Boundary.SecondPieceDecides | src/Parser.php:44-48 | with the right media type, a second piece not starting with `boundary=` fails with missingBoundary; otherwise the boundary is the rest of that piece with `"` trimmed from both ends |
| Boundary.ExplodeFirst | src/Parser.php:37 | the first piece is the text before the first `;` |
| Boundary.SpacedPiece | src/Parser.php:38 | a piece after `; ` loses its leading space |
| Boundary.PrefixedSecondPiece | src/Parser.php:44-48 | `multipart/form-data; boundary=v` reads `v` with its quotes trimmed |
| Boundary.BoundaryRoundTrip | src/Parser.php:35-49 | a header written with an unquoted boundary `b` reads back as `b` |
| Boundary.QuotedBoundaryRoundTrip | src/Parser.php:48 | a header written with a quoted boundary `"b"` reads back as `b` |
| Boundary.StripClosingQuote | src/Parser.php:48 | trimming `"` removes the closing quote |
| Boundary.BoundaryShape | src/Parser.php:37-48 | a boundary that is read contains no `;` and neither starts nor ends with `"` |
| Segmenter.CrlfLen | src/Parser.php:55 | the optional trailing CRLF fits inside the text |
| Segmenter.MatchLen | src/Parser.php:55 | a match at the front never runs past the text |
| Segmenter.Split | src/Parser.php:56 | `preg_split` always returns at least one piece |
| Segmenter.FirstMatch | src/Parser.php:55-56 | finds the leftmost position where the pattern matches, with no match before it, or reports that none matches |
| Segmenter.SplitAtFirstMatch | src/Parser.php:55-56 | for any text: with no match it is the only piece; otherwise the first piece is the text before the leftmost match, no match starts inside it, and the other pieces are those of the text after that match |
| Segmenter.SplitNoMatch | src/Parser.php:56 | a text in which the pattern matches nowhere is one piece |
| Segmenter.SplitAtMatch | src/Parser.php:55-56 | the text before a leftmost match is a piece, and splitting resumes after the match |
| Segmenter.SplitMatchFront | src/Parser.php:55-56 | a match at the very front leaves an empty first piece |
| Segmenter.SplitCount | src/Parser.php:56 | for any text, there is one piece more than there are matches |
| Segmenter.SegmentCount | src/Parser.php:56-62 | a body with k >= 1 matches has k - 1 part segments once the first and last pieces are dropped; with no match it has none |
| Segmenter.SplitUnmatchedPrefix | src/Parser.php:56 | text where no match starts is glued onto the next piece |
| Segmenter.NoMatchNoSegments | src/Parser.php:56-62 | a body with no delimiter is one piece, and once the first and last pieces are dropped no parts remain |
| Segmenter.SplitAtDelimiter | src/Parser.php:55-56 | a delimiter, with its optional leading and trailing CRLF, ends a piece |
| Segmenter.NoMatchInside | src/Parser.php:55-56 | a part that does not contain the delimiter, followed by CRLF, has no match inside it |
| Segmenter.NoDelimiterAt | src/Parser.php:55 | no delimiter starts inside such a part |
| Segmenter.StartsWithShift | src/Parser.php:55 | prefix matching shifts past a known prefix |
| Segmenter.SplitClosing | src/Parser.php:55-56 | the closing `--` + CRLF is a single piece |
| Segmenter.NoShortMatch | src/Parser.php:55 | text shorter than a match that differs from the delimiter does not match |
| Segmenter.SplitFrame | src/Parser.php:56 | a framed body splits into the empty preamble, the parts and the closing piece |
| Segmenter.SplitFrameEmpty | src/Parser.php:56 | a frame with no parts splits into the preamble and the closing piece |
| Segmenter.ClosingNoCrlf | src/Parser.php:55 | the closing piece does not start with CRLF |
| Segmenter.SplitUnbrokenTail | src/Parser.php:56 | a delimiter followed by a piece without a match splits into two pieces |
| Segmenter.EncapsulateCons | src/Parser.php:55 | framing a list of parts is framing the first one and then the rest |
| Segmenter.SplitFrameCons | src/Parser.php:56 | splitting a frame with one more part gives that part in front |
| Segmenter.SplitFrameStep | src/Parser.php:56 | one CRLF-part-CRLF-delimiter step of the split |
| Segmenter.SplitAfterPart | src/Parser.php:56 | a part followed by CRLF and a delimiter is one piece |
| Segmenter.FrameSegments | src/Parser.php:55-62 | cutting a framed body gives back exactly the framed parts, whenever no part contains the delimiter |
| Parts.AddHeader | src/Parser.php:123-128 | the fold stays successful exactly while every line parses |
| Parts.AddParsed | src/Parser.php:124-127 | a parsed line is stored under its lower-cased name |
| Parts.HeadersStep | src/Parser.php:123-128 | each loop turn adds one line to the fold |
| Parts.ParseHeaders | src/Parser.php:118-131 | the loop over the CRLF-exploded lines computes exactly the fold `HeadersOf` |
| Parts.HeaderKeysLower | src/Parser.php:126-127 | every header key is lower case |
| Parts.FailureSticks | src/Parser.php:124 | once a line throws, later lines change nothing |
| Parts.HeadersAccepted | src/Parser.php:123-128 | the header block fails exactly when some line fails to parse |
| Parts.BadLineRejects | src/Parser.php:124 | one bad line makes the block fail |
| Parts.RejectedLine | src/Parser.php:124 | a failed block has a line that does not parse |
| Parts.FirstBadLine | src/Parser.php:123-128 | the block fails with the error of its first bad line |
| Parts.LastHeaderWins | src/Parser.php:126-127 | a header name is bound to the last line that carries it, compared case-insensitively |
| Parts.DropLastLine | src/Parser.php:126-127 | dropping a final line with another name keeps the conditions on earlier lines |
| Parts.OtherHeaderKept | src/Parser.php:127 | a line with another name leaves this header unchanged |
| Parts.HeadersLast | src/Parser.php:123-128 | the headers are those of all lines but the last, updated with the last line |
| Parts.UnnamedHeaderAbsent | src/Parser.php:126-127 | a name that no line carries is absent |
| Parts.Route | src/Parser.php:76-96 | a kept field has a non-empty name; a kept upload has a truthy file name; both carry the part's body |
| Parts.NotFormData | src/Parser.php:76-112 | a part without a `form-data` Content-Disposition is skipped |
| Parts.UploadIff | src/Parser.php:82-150 | a form-data part is an upload exactly when its `filename` is present and truthy; the upload holds its name, body, file name and content type |
| Parts.FieldIff | src/Parser.php:87-96 | without a truthy filename, a part is kept exactly when its `name` is present and non-empty, as that field |
| Parts.UploadContentType | src/Parser.php:147-150 | the upload's media type is the Content-Type value, or `text/plain` when that header is missing |
| Parts.NoBlankLine | src/Parser.php:65-71 | a part without a blank line is skipped |
| Parts.FirstBlankLine | src/Parser.php:65-78 | headers end at the first blank line; a header error propagates, otherwise the part is routed on its headers and body |
| FormTree.Set | src/Parser.php:100 | writing into the array leaves an array |
| FormTree.Mangle | src/Parser.php:100 | the mangled tail of an unterminated group has no `[` |
| FormTree.RootName | src/Parser.php:100 | the stored top-level name keeps the length and contains no space or dot; a name without either is kept as it is |
| FormTree.ParseName | src/Parser.php:100 | a kept name's path starts with a non-empty top-level key |
| FormTree.Groups | src/Parser.php:100 | bracket groups follow a non-empty top-level key |
| FormTree.ParseStr | src/Parser.php:99-100 | `parse_str` always yields an array |
| FormTree.DroppedNames | src/Parser.php:100 | a pair is dropped exactly when its name's root is empty once leading spaces are skipped |
| FormTree.LeadingSpaceSkipped | src/Parser.php:100 | leading spaces of a name do not matter |
| FormTree.PlainName | src/Parser.php:100 | a name without brackets is one top-level key, with spaces and dots turned into `_` |
| FormTree.PlainRoot | src/Parser.php:100 | a root without spaces or dots is kept as it is |
| FormTree.ParseRenderedName | src/Parser.php:100 | `root[k1][k2][]` reads back as the path root, k1, k2, append |
| FormTree.RenderedPlainName | src/Parser.php:100 | a plain root reads back as itself |
| FormTree.RootThenGroups | src/Parser.php:100 | a root followed by `[` continues with bracket groups |
| FormTree.IndexOfCharAt | src/Parser.php:100 | the first `[` or `]` is found where it is |
| FormTree.GroupsRendered | src/Parser.php:100 | rendered bracket groups read back as the same segments |
| FormTree.GroupsRenderedStep | src/Parser.php:100 | one group of that read-back |
| FormTree.RenderGroupsCons | src/Parser.php:100 | rendered groups start with `[` |
| FormTree.GroupStep | src/Parser.php:100 | a group ending in `]` is followed by another group or ends the name |
| FormTree.KeyGroup | src/Parser.php:100 | a key group runs to its `]` |
| FormTree.KeyedTail | src/Parser.php:100 | the tail of a keyed path is keyed |
| FormTree.SetKeyed | src/Parser.php:100 | after writing `v` at a key path, that path holds `v` |
| FormTree.AppendAt | src/Parser.php:100 | `a[]=v` stores `v` at the array's next free index and moves that index on by one |
| FormTree.AppendHere | src/Parser.php:100 | an append at the top level |
| FormTree.AppendBelow | src/Parser.php:100 | an append one level down |
| FormTree.GetThroughKey | src/Parser.php:100 | reading through a written key enters the written child |
| FormTree.NodeAtChild | src/Parser.php:100 | the array at a path is found through its first key |
| FormTree.LastWriteWins | src/Parser.php:99-100 | of several pairs for the same key path, the last one's value is kept |
| FormTree.Collect | src/Parser.php:99-100 | pairs all named `a[]` build the array `[v0, v1, …]` with next index equal to their count |
| FormTree.IndexedAt | src/Parser.php:100 | the i-th collected value sits at key `i` |
| FormTree.IndexedKey | src/Parser.php:100 | every key of a collected array is some index `i` |
| FormTree.GetSnoc | src/Parser.php:100 | reading one key further down |
| FormTree.CollectAt | src/Parser.php:99-100 | with pairs all named `a[]`, `a[i]` holds the i-th value |
| FormTree.SubstituteGet | src/Parser.php:178-180 | replacing every id leaf by its file keeps the array shape (keys and next index) and puts each id's file at that id's place |
| FormTree.RegisteredFromValues | src/Parser.php:178-180 | when every value names a registered file, every leaf does |
| FormTree.AppendIsFresh | src/Parser.php:100 | the next free index of an array is not yet a key |
| FormTree.SetWellIndexed | src/Parser.php:100 | writing keeps every integer key below the next free index |
| FormTree.ParseStrWellIndexed | src/Parser.php:99-100 | in every array `parse_str` builds, integer keys stay below the next free index |
| FormTree.SetLeaves | src/Parser.php:100 | writing adds only the written value as a leaf |
| FormTree.ParseStrLeaves | src/Parser.php:99-100 | every leaf is one of the pairs' values |
| FormTree.LeavesGrow | src/Parser.php:100 | leaf membership is preserved by a larger value set |
| Decoder.FileFormName | src/Parser.php:160-163 | corrected: an unnamed upload is filed under the counter in decimal, and the counter moves on |
| Decoder.UnnamedUploadAsWritten | src/Parser.php:160-166 | as written, an unnamed upload raises TypeError after bumping the counter; corrected, it is filed under the counter value, which reads back as that number |
| Decoder.NamedUploadsAgree | src/Parser.php:160-166 | as written and corrected agree on every upload with a name |
| Decoder.UnnamedUploadsDistinct | src/Parser.php:160-163 | unnamed uploads at different counter values get different names |
| Decoder.AddFileConsistent | src/Parser.php:152-167 | filing an upload takes an unused id, registers the file built from body, size, UPLOAD_ERR_OK, file name and content type under it, and keeps earlier files |
| Decoder.StepConsistent | src/Parser.php:64-97 | a loop turn keeps every file pair's id registered and never changes earlier files |
| Decoder.ProcessConsistent | src/Parser.php:64-97 | the whole loop keeps every file pair's id registered |
| Decoder.StepCounter | src/Parser.php:82-163 | a turn bumps the counter exactly for an upload without a name |
| Decoder.CounterGrows | src/Parser.php:145-163 | the counter never decreases |
| Decoder.FieldOfField | src/Parser.php:92-96 | a field part contributes its own name and body |
| Decoder.FieldsOfCons | src/Parser.php:64-97 | the fields of a list of parts are those of the first part, then those of the rest |
| Decoder.FieldsInOrder | src/Parser.php:64-97 | a loop without error gathers exactly the fields of the parts, in order |
| Decoder.PartWithoutHeaders | src/Parser.php:65-71 | a part without a blank line leaves the state unchanged |
| Decoder.StopsAtFirstError | src/Parser.php:64-97 | the loop stops at the first part whose headers fail, with that error, keeping what came before |
| Decoder.RunsToEnd | src/Parser.php:64-97 | the loop fails exactly when some part's headers fail |
| Decoder.FilesUntouched | src/Parser.php:64-97 | parts that are not uploads leave the file pairs, the registered files, the counter and the ids unchanged |
| Decoder.TextFormDecodes | src/Parser.php:24-103 | a body with no uploads decodes to its fields in order (as parse_str lays them out), no files, and an untouched counter |
| Decoder.StepRead | src/Parser.php:65-78 | a turn is the header fold on the block before the first blank line, then the routing of the body |
| Decoder.AddFileFields | src/Parser.php:137-168 | filing an upload does not touch the field pairs |
| Decoder.Unroll | src/Parser.php:64-97 | one turn of the loop unrolled |
| Decoder.FileIndex.constructor | src/Parser.php:145 | the shared counter starts at 0 |
| Decoder.Parser.constructor | src/Parser.php:24-30 | the parser holds the body and header it was given, and empty arrays |
| Decoder.Parser.ReadBoundary | src/Parser.php:35-49 | stores the boundary `ReadBoundary` reads, or returns its error and changes nothing |
| Decoder.Parser.ParseUploadedFile | src/Parser.php:137-168 | the file pairs and registry afterwards are exactly those of filing the upload, with the disposition's `name` and the content type from the headers |
| Decoder.Parser.LayoutFilesAssocDeep | src/Parser.php:173-181 | the files array is the parse_str tree of the file pairs with every id replaced by its file |
| Decoder.Parser.Parse | src/Parser.php:51-103 | the loop computes exactly `Process` on the segments: the error, the registered files, the counter; without error, the fields are parse_str of the field pairs and the files their layout |
| Decoder.NewParser | src/Parser.php:24-208 | constructing a parser yields, through its getters, exactly `Decode`'s boundary, fields and files, or `Decode`'s error; the counter ends at `Decode`'s value |
| Encoding.FieldParts | src/Parser.php:87-96 | one part per field, each the field's part |
| Encoding.TwoPieces | src/HttpHeaderLine.php:28 | a value with one `;` explodes into two pieces |
| Encoding.ParamPieces | src/HttpHeaderLine.php:28-29 | `first; key="name"` gives the trimmed first piece and the parameter piece |
| Encoding.OneParam | src/HttpHeaderLine.php:33-44 | one storing piece stores one parameter |
| Encoding.ParamLineParses | src/HttpHeaderLine.php:12-45 | `Name:first; key="name"` parses to that name, trimmed value and single parameter |
| Encoding.DispositionParses | src/HttpHeaderLine.php:12-45 | `Content-Disposition: form-data; name="n"` parses to value `form-data` and parameter name = n |
| Encoding.OneHeaderPart | src/Parser.php:65-78 | a part with one header line is routed on that header |
| Encoding.NamedField | src/Parser.php:87-96 | a form-data disposition with a non-empty name makes a field |
| Encoding.FieldPartDecodes | src/Parser.php:64-96 | a written field part is read back as that field |
| Encoding.FieldPartsClassify | src/Parser.php:64-96 | every written part is read back as its field |
| Encoding.FieldPartsDecode | src/Parser.php:64-97 | the fields gathered from the written parts are the original fields, in order |
| Encoding.FormRoundTrip | src/Parser.php:24-103 | a form of text fields, framed with a boundary and sent with the matching Content-Type, decodes to parse_str of those fields, with no files and an unchanged counter |
| PhpString.TrimLeftFacts | src/Parser.php:38 | `ltrim` removes exactly a prefix of listed characters |
| PhpString.TrimRightFacts | src/Parser.php:38 | `rtrim` removes exactly a suffix of listed characters |
| PhpString.TrimCharsSlice | src/HttpHeaderLine.php:43 | `trim` keeps a middle slice, and every character dropped is listed |
| PhpString.TrimCharsLeading | src/HttpHeaderLine.php:43 | a leading listed character is dropped |
| PhpString.TrimCharsUnchanged | src/HttpHeaderLine.php:22 | `trim` leaves a text alone exactly when it neither starts nor ends with a listed character |
| PhpString.TrimCharsAvoids | src/Parser.php:48 | `trim` never brings in a character the text did not have |
| PhpString.TrimCharsIdempotent | src/HttpHeaderLine.php:43 | trimming twice is trimming once |
| PhpString.FindFrom | src/Parser.php:65 | finds the first occurrence at or after a position, or reports none |
| PhpString.SplitFirst | src/Parser.php:65 | splits at the first occurrence: the text is head + separator + tail, and the head has no earlier occurrence; no split exactly when there is no occurrence |
| PhpString.Explode | src/Parser.php:120 | `explode` yields at least one piece |
| PhpString.ImplodeExplode | src/Parser.php:120 | joining the exploded pieces gives back the text |
| PhpString.ExplodePiecesFree | src/Parser.php:120 | no exploded piece contains the separator |
| PhpString.OccursAtChar | src/HttpHeaderLine.php:14 | a one-character occurrence is that character at that position |
| PhpString.SplitFirstChar | src/HttpHeaderLine.php:14-18 | a split at a character fails exactly when the character is absent; the head does not contain it |
| PhpString.SplitFirstCharAt | src/HttpHeaderLine.php:14 | splitting at the first occurrence of a character |
| PhpString.ExplodeNoSeparator | src/HttpHeaderLine.php:28 | a text without the separator is one piece |
| PhpString.ExplodeCons | src/HttpHeaderLine.php:28 | exploding splits off the first piece |
| PhpString.TrimmedPieces | src/Parser.php:37-38 | there is always a first piece, and no piece starts or ends with whitespace |
| PhpString.ToLower | src/Parser.php:126 | `strtolower` keeps the length |
| PhpString.ToLowerIdempotent | src/Parser.php:126 | lower-casing twice is lower-casing once |
| PhpString.IndexOfChar | src/Parser.php:100 | finds the first occurrence of a character |
| PhpString.NatToDecimal | src/Parser.php:166 | a decimal numeral is digits, with no leading zero |
| PhpString.DecimalValue | src/Parser.php:100 | a key is read as a non-negative integer key exactly when it is a canonical decimal numeral (no sign, no leading zero) |
| PhpString.DigitsValueOfDecimal | src/Parser.php:166 | a numeral's digits are worth the number |
| PhpString.DecimalRoundTrip | src/Parser.php:166 | a number written in decimal reads back as that number |
| PhpString.DecimalOfDigitsValue | src/Parser.php:100 | canonical digits are the numeral of their value |
| PhpString.DecimalCanonical | src/Parser.php:100 | an integer key is the numeral of its value |
| PhpString.NatToDecimalInjective | src/Parser.php:166 | different numbers have different numerals |

## Left out

- `decorateRequest` and `createFromRequest` (`src/Parser.php:210-229`) only copy values into and out of PSR-7 request objects. They are not modelled. `NewParser` takes the body and the `Content-Type` header directly.
- The `splitRegex` failure of `preg_split` (`src/Parser.php:57-59`) is not modelled. `preg_split` only fails on an engine error such as a backtrack limit, and the pattern's `preg_quote` escaping is treated as exact.
- The stream and uploaded-file factories are not modelled. An uploaded file is the value `UploadedFile(content, size, UPLOAD_ERR_OK, filename, media type)`.
- `spl_object_id` is modelled as a per-parser counter starting at 0. The model does not capture ids that the runtime reuses, or ids from other objects.
- `rawurlencode`, `implode('&', …)` and `parse_str`'s URL decoding are taken to cancel out, so the model hands the `name=value` pairs to the name-parsing step directly.
- PhpString.DecimalValue, FormTree.Bump: integer array keys are modelled as non-negative and unbounded. Negative keys such as `a[-3]` are not modelled; PHP treats them as integer keys, and since PHP 8.3 a following `[]` appends after them. The `PHP_INT_MAX` limit is not modelled either: PHP keeps larger numerals as string keys and stops `[]` appends once the next index saturates.
- `parse_str` limits are not modelled: `max_input_vars`, `max_input_nesting_level`, and NUL bytes in names.
- PHP array insertion order is not modelled: a `Tree` branch is a map.
- Exception message texts are not modelled, only the exception kind and its argument.
- Concurrent parsers sharing the `static $file_index` are not modelled. `FileIndex` is a single object that the caller passes in.
- Decoder.Parser.GetBoundary, GetFormFields and GetFiles have no contracts of their own. They read fields, and `NewParser`'s contract states their results.

## Findings

| source | as written | input that shows it | evidently intended | confidence | as-written member | corrected member |
|---|---|---|---|---|---|---|
| src/Parser.php:160-166 | an upload without a `name` gets `$form_name = $file_index++`, an `int`, which is then passed to `rawurlencode(string)` under `declare(strict_types=1)`, so a `TypeError` is raised after the counter has moved on | a part `Content-Disposition: form-data; filename="a.txt"` with no `name` parameter | the file is filed under the counter's value as a decimal key, with distinct keys for distinct uploads | not executed | Decoder.UnnamedUploadAsWritten | Decoder.FileFormName |
