# Verified model of the gateway core

This project models the parts of the gateway that hold state, parse or print bytes, or run
concurrently, and proves what each is for: the log calendar, the Server-Sent Events decoder, the
chunked-transfer codec with the streaming relay and the request reader, the two in-place text
rewriters, the module registry with routing, menu order and restart, the admission counters, the
upgrade lock, the ZIP and base64 codecs, and the failover cascade. `dafny verify dfyconfig.toml`
checks everything.

How the code's form is kept:

- Objects that the code updates in place are classes (`Decoder`, `Socket`, `Client`,
  `AdmissionController`, `ByteGuard`, `ModuleRegistry`, `UpgradeRegistry`); loops are methods. Each is
  proved against a function of its inputs or of the old state, and the laws are lemmas about that
  function.
- Where a function says what an operation computes, laws in plain text say what the function means:
  texts are written by a printer or put together from named parts, and the operation is shown to give
  them back (`SseLaws`, `ToolLaws`, `FailoverLaws`, `Origins`, `Unicode`, and lemmas beside the
  functions).
- A connection is the sequence of segments that future reads deliver, so every contract that speaks
  of the pending bytes alone holds for every way the network cuts the stream.
- A hash map is iterated in an order that is a parameter; a law that does not mention the order holds
  for every order. The round-robin counter and the clock are parameters too.
- The two lock-free or locked protocols are state machines. A run is any sequence of enabled steps of
  any number of threads.
- Text is a string of bytes (one `char` for each byte) and `trim` is modelled on UTF-8 sequences, with
  all of Unicode's white space. `Utf8.Valid` is the full well-formedness test. Integer widths are
  written out where they matter (`usize` overflow of a chunk size, saturating sums, `as u16`, `as u32`,
  `as i32`, wrapping `fetch_sub`).

## Where the code does less than its purpose suggests

The model follows the code. Each of these has a lemma with the inputs that show it and, where a
condition decides, the exact condition.

- A namespace written with a blank in front of its last slash (`/t /`) is stored with the blank but
  checked without it, and two modules can then own one namespace. `Guarded` is the exact condition
  (`GuardedExactly`; `BlankBehindNamespace`): a namespace is harmless in every history of guarded ones
  if and only if it is guarded itself.
- A namespace such as `/t/ /` makes hydration depend on the order of the stored modules. `Restorable`
  is the exact condition (`HydrationRestoresOwnership`, `RestorableExactly`; `BlankBehindNamespace`).
- The status stored for a module whose manifest writes its id with surrounding blanks is never looked
  up at a start: only the enablement map of the configuration file can disable it again
  (`BlankIdNeedsSavedStatus`, an equivalence; `BlankIdIsLost` has both outcomes for every such id, and
  `BlankIdExists` names one).
  With the map that the gateway saves itself the status does come back (`SavedStatusesReturn`).
- Two modules can share a prefix when one has an id of the TikTok or Facebook family, and the route
  then depends on the iteration order of the map. After any history whatsoever, routing is
  independent of the order if and only if no two modules share a prefix
  (`RoutingIsDeterministicExactly`); `AliasCanBeTaken` reaches a registry where it is not.
- A log whose stem ends like a year and month (`log2024-01.log`) is archived under a name in which a
  wrong date is found (`AddedDateIsFound`, an equivalence; `WrongDateIsFound`).
- `format_date` cuts years from 10000 on, and such a text does not parse (`ParseInvertsFormat`, exact
  for every instant; `YearTenThousandIsLost`).
- The retry delay is min(base * 2^attempt, max) exactly for attempts below 2^32; from there on
  `attempt as u32` drops the high bits (`DelayIsExact`, an equivalence; `DelayIsWrong`).
- The end record of a ZIP archive is never looked for in the first 22 bytes, so an empty archive is
  refused (`EmptyArchiveIsRejected`, `ShortestArchiveIsRejected`).
- A chunk size within two of `usize::MAX` wraps around when the line end is added (release build), and
  taking the data then panics, which ends the process. `PanicsExactly` and `RelayPanicsExactly` say
  for which streams, `LargestSizePanics` gives one; the request reader checks its sum and never panics
  (`RequestNeverPanics`).
- The chunk readers drop the two bytes behind a chunk unseen and leave the trailer section unread.
  They decode everything the grammar of section 7.1 of RFC 9112 accepts to the same body
  (`StrictImpliesLenient`), and more: `AcceptsExactly` says when the grammar agrees,
  `WrongEndIsSkipped` and `WrongEndIsAccepted` show a chunk without its line end.
- A relayed body of fixed length that ends early counts as complete: the relay succeeds, and delivers
  the announced length if and only if the upstream sent as much (`StreamResponse`, `AnnouncedLength`;
  `ShortBodyCompletes`).
- The base64 decoder takes `=` anywhere as a zero and ignores bits that belong to no byte. Which inputs
  are refused, and which of the others are encodings at all, is exact (`RejectsExactly`,
  `EncodingsExactly`; `PaddingInside`, `BitsBehind`).

For the prefix rewriter the condition under which its pages come out finished is exact as well
(`FinishedExactly`), and the two prefixes the gateway mounts under meet it (`MountedPrefixesAreFine`).

## Model

| member | source | states |
|---|---|---|
| Calendar.YearOfEraIsYear | src/runtime/logger/format.rs:14-25 | the constant-division formula finds the one year of the 400-year era whose days, by the leap-year rule, include the given day |
| Calendar.MarchDateIsCalendar | src/runtime/logger/format.rs:14-25 | month and day within a year from March are a calendar date, and the next day of the year is its calendar successor |
| Calendar.DatesFollowTheCalendar | src/runtime/logger/format.rs:14-25 | for every day count the date exists in the Gregorian calendar, and the date of the next day is its Gregorian successor |
| Calendar.EpochIsDayZero | src/runtime/logger/format.rs:14-25 | day 0 is 1 January 1970 |
| Calendar.DayOfDateOfDay | src/runtime/logger/format.rs:14-25 | the independent formula of the date parser (lines 65-71) gives back every day count |
| Calendar.EveryDateIsReached | src/runtime/logger/format.rs:57-73 | and the other way round: every Gregorian date from 1970 on is the date of the day computed for it |
| Calendar.DatesIncrease | src/runtime/logger/format.rs:14-25 | later days have later dates |
| Calendar.FourDigitYears | src/runtime/logger/format.rs:14-30 | the years have four digits exactly up to day 2932896 |
| LogNames.ParseInvertsFormat | src/runtime/logger/format.rs:4-73 | parsing the formatted date of any instant gives its day, and gives nothing exactly from year 10000 on |
| LogNames.YearTenThousandIsLost | src/runtime/logger/format.rs:4-8 | the first instant whose date does not parse |
| LogNames.DateTextsSortByDay | src/runtime/logger/format.rs:4-30 | below year 10000 date texts are in lexicographic order exactly as their days, whatever the times of day |
| LogNames.TimeIsPrinted | src/runtime/logger/format.rs:10-30 | behind the date stand the hours, minutes and seconds of the day, two digits each |
| LogNames.SignsAreRead | src/runtime/logger/format.rs:57-63 | the parts of a date may have a sign |
| LogNames.FindDate | src/runtime/logger/format.rs:33-50 | the scan returns the first position with a dddd-dd-dd pattern, and none exactly when there is no such position |
| LogNames.KeptDateIsFound | src/runtime/logger/archive.rs:79-102 | a date that the stem has is the one found in the archive's name, for every counter and extension |
| LogNames.AddedDateIsFound | src/runtime/logger/archive.rs:79-102 | a date added behind a stem without one is what is found exactly when the stem does not end in dddd-dd; otherwise the wrong date is given exactly |
| LogNames.WrongDateIsFound | src/runtime/logger/archive.rs:79-102 | a file name for which the date found is not the date of the rotation |
| LogNames.ArchiveNamesDiffer | src/runtime/logger/archive.rs:91-101 | different counters give different names |
| LogNames.ResolveArchivePath | src/runtime/logger/archive.rs:79-102 | ends with the first counter whose name is not taken; all lower ones are |
| LogNames.ArchiveExpiresOnTime | src/runtime/logger/archive.rs:160-199 | rotation against retention: the date test fires on an archive's name exactly from the day of its rotation plus the retention days |
| LogNames.OnlyArchivesExpire | src/runtime/logger/archive.rs:160-199 | nothing expires without a retention, and only logs and archives with a date do |
| LogNames.DatedArchiveExpiresByItsDate | src/runtime/logger/archive.rs:160-199 | an archive of a log with a date in its stem expires exactly from that date plus the retention days, and never if it is no date |
| SseDecoder.Decoder.constructor | src/codecs/sse.rs:42-51 | a new decoder has seen nothing |
| SseDecoder.Decoder.Feed | src/codecs/sse.rs:53-76 | a feed returns exactly the events by which the whole-stream decoding of all bytes since the last reset exceeds that of the bytes before, or its first error, after which the decoder is as new |
| SseDecoder.Decoder.FeedByte | src/codecs/sse.rs:54-74 | one byte takes the fields from the whole-stream decoding of a stream to that of the stream with the byte appended; the size bounds and the trailing newline of the data are kept |
| SseDecoder.Decoder.AcceptByte | src/codecs/sse.rs:60-74 | the same when no carriage return is pending |
| SseDecoder.Decoder.ProcessLine | src/codecs/sse.rs:89-120 | a complete line has the effect of the standard's line rules on the events, the data so far and the event's size, and an error leaves the decoder as new |
| SseDecoder.Decoder.CheckSize | src/codecs/sse.rs:122-130 | fails exactly above one mebibyte, and then resets everything |
| SseDecoder.Decoder.ResetCurrent | src/codecs/sse.rs:138-144 | the state afterwards is that of a new decoder |
| SseDecoder.Decoder.Finish | src/codecs/sse.rs:78-87 | returns what the ended stream adds, or its error, and leaves a fresh decoder in either case |
| SseDecoder.CutsDoNotMatter | src/codecs/sse.rs:53-76 | for every split into feeds the events together are those of one feed of all bytes, and some feed fails exactly when the one feed does, with the same error |
| SseLaws.PrintedIsDecoded | src/codecs/sse.rs:53-120 | a printer for events and the decoder as its inverse: values written as `data: v`, as `data:v` or as the bare `data`, between comments and other fields, with any of the line ends, come back as exactly the LF-joins of the blocks that have values; the stream fails if and only if some event is above the limit |
| SseLaws.DecodePrinted | src/codecs/sse.rs:53-87 | the decoder object gives these events however the printed stream is cut into chunks |
| SseLaws.DecodeStream | src/codecs/sse.rs:53-87 | feeding a fresh decoder chunk by chunk and finishing gives the events of the whole stream, or its error |
| SseLaws.BadTextIsRefused | src/codecs/sse.rs:103-106 | a line that is not UTF-8 fails the stream behind any events |
| SseLaws.UnfinishedLine | src/codecs/sse.rs:60-74 | an unfinished line is within the limit or too large, byte for byte, and gives no event |
| SseLaws.ValueIsRead | src/codecs/sse.rs:107-118 | exactly one blank behind the colon is removed |
| SseLaws.OtherIsIgnored | src/codecs/sse.rs:107-118 | a line whose text in front of the first colon is not `data` carries nothing |
| SseDecoder.LineEndsDoNotMatter | src/codecs/sse.rs:53-87 | LF, CR LF and CR forms of any lines decode to the same events or the same error once finished |
| SseDecoder.TerminatedSplits | src/codecs/sse.rs:53-87 | the lines of a finished stream are the lines it was written from, for each line end |
| SseDecoder.AccumulatedIsJoin | src/codecs/sse.rs:89-120 | the data buffer without its last newline is the LF-join of the event's data values |
| SseSpec.SplitOneMore | src/codecs/sse.rs:54-74 | the recursive definition of lines agrees with adding one byte at a time, also across a CR LF that is cut in the middle |
| SseSpec.MoreInput | src/codecs/sse.rs:53-76 | more input never undoes an error and only ever adds events at the end |
| ChunkCodec.HexRoundTrip | src/http/response.rs:157-158 | the size printed in hexadecimal is read back, for every size |
| ChunkCodec.FramesRoundTrip | src/http/response.rs:152-160 | what the chunk writer sends, closed by the terminator and followed by anything, is read by the grammar of section 7.1 of RFC 9112 as the concatenated bodies, with what follows untouched |
| ChunkCodec.StrictImpliesLenient | src/http/response.rs:162-179 | every stream that the grammar accepts, with chunk extensions and a trailer section, is decoded by the gateway's reader to the same body; exactly the trailer section and its empty line are left unread |
| ChunkCodec.AcceptsExactly | src/http/response.rs:162-179 | the grammar accepts a stream exactly when the reader decodes it and all size lines, chunk ends and the trailer section are as the grammar has them |
| ChunkCodec.WrongEndIsSkipped | src/http/response.rs:174-178 | any two bytes behind a chunk that are no line end are skipped, where the grammar refuses the stream |
| ChunkCodec.WrongEndIsAccepted | src/http/response.rs:174-178 | a whole stream that only the reader accepts |
| ChunkCodec.PanicsExactly | src/http/response.rs:170-178 | the reader panics exactly on streams with, behind some chunks, a size within two of the largest and the few bytes its wrapped sum asks for |
| ChunkCodec.LargestSizePanics | src/http/response.rs:170-178 | a size line of sixteen F and one byte are enough |
| ChunkCodec.SizeBeforeExtension | src/http/mod.rs:273-289 | the size of a line is that of its hexadecimal digits, whatever chunk extension of section 7.1.1 of RFC 9112 follows them |
| ChunkCodec.LooseSize | src/http/mod.rs:273-289 | what is read as a size: hexadecimal digits of a usize, perhaps behind a plus sign, with blanks around and anything behind a semicolon; nothing else |
| ChunkCodec.ReaderUndoesWriter | src/http/response.rs:152-179 | the gateway's reader applied to the writer's frames gives the concatenated bodies, empty ones included |
| ChunkCodec.SizeLineInPrefix | src/http/mod.rs:273-289 | the size read from a buffer does not depend on bytes that have not arrived |
| ChunkCodec.ReadMore | src/http/mod.rs:229-240 | appends one read and fails exactly at the end of the stream; no byte is lost |
| ChunkCodec.ParseChunkSize | src/http/mod.rs:273-289 | takes the size line off the buffer, or fails and leaves the buffer |
| ChunkCodec.ReadOneChunk | src/http/response.rs:162-179 | for every segmentation the outcome and the unread bytes are those of the first chunk of the whole stream, with the same error |
| RequestBody.ReadChunkedBody | src/http/mod.rs:186-227 | for every segmentation the result, error included, is what the whole stream stands for under limit and budget, only that a stream above 64 MiB may be refused for its size; counter and guard have grown by the same amount, on success by the body's length |
| RequestBody.AdmittedIsDecoded | src/http/mod.rs:186-227 | a stream is accepted exactly when it decodes to a body within limit and budget, and then as that body |
| RequestBody.OverLimitOrBudget | src/http/mod.rs:200-216 | a valid body above the limit is too large, one above the budget is refused |
| RequestBody.RequestNeverPanics | src/http/mod.rs:186-227 | no request body makes the reader panic |
| RequestBody.WrittenIsAdmitted | src/http/mod.rs:186-227 | the request reader gives back what the chunk writer framed, exactly when the budget has room, for encodings up to 64 MiB |
| RequestBody.ReadBody | src/http/mod.rs:69-104 | in either framing the result, error included, is what head and stream stand for; a success holds a guard whose amount is the body's length, a failure leaves nothing charged |
| RequestBody.LengthIsReceived | src/http/mod.rs:69-104 | a body with a length is received exactly if the length is single, valid, within limit and budget, and arrives; each failure has its own error |
| RequestBody.AdmissionController.AcquireBytes | src/runtime/admission.rs:78-83 | a guard for exactly what was reserved, or nothing changed |
| RequestBody.AdmissionController.AcquireMoreBytes | src/runtime/admission.rs:85-95 | counter and guard grow together or not at all, also through the roll-back; for a guard that counts in the counter it fails only for want of room |
| ToolNames.RewriteToolNames | src/rewrite.rs:56-105 | the cursor loops compute the successive passes of the eligible request names; termination included |
| ToolLaws.RenderedIsRespelled | src/rewrite.rs:56-105 | a body written as fields with a key, blanks, a colon, blanks and a quoted value gets every value in the spelling of the last name of the request, written the same way, that has an upper-case letter and is the value up to case; all other bytes stay, and so does everything behind a name that is no string |
| ToolLaws.RewriteRendered | src/rewrite.rs:56-105 | the same of the loops |
| ToolLaws.RequestIsRead | src/rewrite.rs:63-73 | the names read from a written request are its values with an upper-case letter, in order |
| ToolLaws.PassOverFields | src/rewrite.rs:75-102 | one name restored in a written body: exactly the values that are the name up to case change |
| ToolLaws.StopIsPassed | src/rewrite.rs:86-88 | the scan ends at a name whose value is no string |
| ToolNames.RestoreOne | src/rewrite.rs:75-102 | editing in place from left to right, with the lower-casing taken anew each time, equals overwriting all values found in the original lower-casing at once |
| ToolNames.RewrittenKeepsLower | src/rewrite.rs:56-105 | for every body and request only the case of ASCII letters changes, and no length |
| ToolNames.RewrittenIsIdempotent | src/rewrite.rs:56-105 | rewriting again with the same request changes nothing |
| ToolNames.LastNameWins | src/rewrite.rs:56-105 | of all request names with one lower-case form the last one decides every value visited for it |
| ToolNames.RestoreAt | src/rewrite.rs:56-105 | every byte of the result: the deciding name's byte inside a value the scan visits in the lower-cased text, and unchanged everywhere else |
| ToolNames.OverlappingMatchesCoincide | src/rewrite.rs:75-102 | two replaced values that share a byte are the same value for the same lower-case name, so passes for different names never interfere |
| ToolNames.MatchIsQuoted | src/rewrite.rs:75-102 | only whole quoted values are replaced |
| ToolNames.MatchesAreApart | src/rewrite.rs:75-102 | values are visited in increasing order without overlap |
| ToolNames.ValueAfterIgnoresCase | src/rewrite.rs:84-94 | the visited spans depend on the text only up to case |
| ToolNames.RequestNames | src/rewrite.rs:64-74 | only non-empty names with an upper-case letter are restored |
| Utf8.ValidIgnoresCase | src/rewrite.rs:57-62 | a rewritten body is as well formed as the original |
| Unicode.ValidExactly | src/rewrite.rs:57-62 | a byte string is well formed exactly if it encodes a sequence of Unicode scalar values |
| Unicode.TrimExactly | src/rewrite.rs:83-84 | trimming takes exactly the characters with the property White_Space off both ends |
| Unicode.OnlySpaces | src/rewrite.rs:83-84 | a text of white space only is trimmed to nothing |
| Unicode.SpaceExactly | src/rewrite.rs:83-84 | which characters are white space, and their bytes |
| Relay.WriteChunk | src/http/response.rs:152-160 | sends one frame of the rewritten body, and nothing for an empty one |
| Relay.AfterLastNewline | src/http/response.rs:96-110 | finds the position just behind the last newline |
| Relay.FlushRewriteWindow | src/http/response.rs:96-110 | the window sent and the text retained are the output; what is retained has no newline and, unless the window ended in one, at most one mebibyte |
| Relay.PumpChunked | src/http/response.rs:42-61 | one chunk of the upstream stream is added to the output, or the total limit is reported |
| Relay.PumpFixed | src/http/response.rs:63-94 | moves a non-empty part of the body into the output and leaves the rest of the body still to come |
| Relay.StreamResponse | src/http/response.rs:112-150 | for every segmentation the relay ends, error or panic included, as the whole upstream stream determines; on success the windows partition the body, each but the last ending in a newline or overlong, and the client gets the frames of the rewritten windows and the terminator, on failure the frames only; an announced length is delivered if and only if the upstream sends that much |
| Relay.RelayedIsBody | src/http/response.rs:42-150 | the relay completes exactly on bodies that decode and have at most 128 MiB, and then relays that body |
| Relay.RelayPanicsExactly | src/http/response.rs:42-61 | it panics exactly on an oversized chunk behind chunks that stay within the limit |
| Relay.AnnouncedLength | src/http/response.rs:63-94 | a body with an announced length is the front of the stream, of that length exactly if the upstream sends as much; without a length it is the whole stream |
| Relay.ShortBodyCompletes | src/http/response.rs:63-94 | three bytes of ten announced ones, and the relay completes |
| Relay.DeliversBody | src/http/response.rs:112-160 | read by RFC 9112 the client's bytes are one body of the upstream body's length, equal to it up to ASCII case |
| Relay.ShortLineIsOneWindow | src/http/response.rs:96-150 | a one-line body of at most one mebibyte is rewritten as a whole, however it arrived |
| PrefixRewrite.RewriteRootRelative | src/features/proxy/prefix_rewrite.rs:33-52 | the one-pass copy loop equals inserting the prefix behind every root-relative site |
| PrefixRewrite.SitesAre | src/features/proxy/prefix_rewrite.rs:33-67 | where the prefix goes, in the words of the page: behind a quote or `url(`, in front of a slash and a word character that are not under the prefix already |
| PrefixRewrite.MountedAtImage | src/features/proxy/prefix_rewrite.rs:33-67 | every byte of the page is kept in order, followed by the prefix exactly when it is a site |
| PrefixRewrite.ByteHasOrigin | src/features/proxy/prefix_rewrite.rs:33-67 | every byte of the result is a byte of the page or lies in an inserted prefix |
| PrefixRewrite.NoSiteLeft | src/features/proxy/prefix_rewrite.rs:33-67 | the result has no root-relative site left, unless the prefix reopens one |
| PrefixRewrite.MountedIsIdempotent | src/features/proxy/prefix_rewrite.rs:33-67 | rewriting a rewritten page changes nothing, under the same condition |
| PrefixRewrite.FinishedExactly | src/features/proxy/prefix_rewrite.rs:33-67 | all pages come out without a site, and rewriting is idempotent on all pages, if and only if the prefix has no quote or `url(` at its end or in front of a root-relative path |
| PrefixRewrite.MountedPrefixesAreFine | src/routes/modules.rs:21-28 | the two prefixes the gateway mounts under meet the condition |
| Namespaces.PrefixesCompare | src/modules/registry.rs:366-372 | two prefixes of one path are segment prefixes of each other, and equal if equally long |
| Namespaces.ConflictGoesUp | src/modules/validation.rs:76-113 | what clashes with a path clashes with every segment prefix of the path |
| Namespaces.CheckedIsPrefix | src/modules/validation.rs:68-69 | the text the checks see is the stored namespace without slashes and then blanks at its end |
| Namespaces.CheckProtectsStored | src/modules/validation.rs:63-115 | a check passed for the checked text holds for the stored namespace if what was cut off starts with a slash |
| Namespaces.UnsoundIsNotProtected | src/modules/validation.rs:63-115 | otherwise the check does not even see a module with the very same namespace |
| Namespaces.CleanAround | src/modules/registry.rs:112 | blanks around a namespace and slashes behind it are cut off |
| Namespaces.PathPrefixIs | src/modules/validation.rs:70-85 | the form of a namespace: a slash and more, no double slash, only plain characters |
| Registry.ModuleRegistry.constructor | src/modules/builtins/defaults.rs:22-125 | a new registry holds the three built-in modules under their namespaces |
| Registry.ModuleRegistry.RegisterPersonalModule | src/modules/registry.rs:105-160 | on success the module is enabled, behind the earlier ones in the menu, with the id, namespace and providers of its manifest, and nothing else changes; on failure nothing changes |
| Registry.ModuleRegistry.UpgradePersonalModule | src/modules/registry.rs:163-246 | order and enablement of the module and of providers it keeps survive; a failed upgrade changes nothing |
| Registry.ModuleRegistry.UnregisterPersonalModule | src/modules/registry.rs:248-267 | a personal module leaves both maps and is marked as uninstalled; built-in and unknown modules are refused and nothing changes |
| Registry.ModuleRegistry.SetModuleStatus | src/modules/registry.rs:282-295 | the status reaches all sub-providers |
| RegistryLaws.HistoryKeepsWf | src/modules/registry.rs:105-295 | after every history the built-in modules are untouched, the personal modules are those with a manifest, and each has the identity and namespace its manifest asks for |
| RegistryLaws.StepKeepsDisjoint | src/modules/registry.rs:105-267 | every operation, failed or not, keeps namespaces free of segment prefixes of each other, if its namespace is guarded |
| RegistryLaws.NamespacesStayDisjoint | src/modules/registry.rs:105-267 | so it is after every history of guarded namespaces: refused by the checks themselves, or seen by them up to a slash |
| RegistryLaws.UnguardedCanBeTakenTwice | src/modules/validation.rs:63-115 | every other namespace can be owned by two modules |
| RegistryLaws.GuardedExactly | src/modules/validation.rs:63-115 | the condition is exact: a namespace is harmless in all histories of guarded ones if and only if it is guarded |
| RegistryLaws.StepBrings | src/modules/registry.rs:105-267 | an operation brings in nothing but the manifest it carries, under that manifest's id |
| RegistryLaws.UnregisteredIsGone | src/modules/registry.rs:248-267 | after unregistering, a personal module is in neither map and marked as uninstalled, and nothing else has changed |
| RegistryLaws.GoneUntilRegistered | src/modules/registry.rs:105-267 | it stays away, whatever is done, until it is registered again |
| RegistryLaws.RefusedForTheFirstFault | src/modules/registry.rs:105-125 | the first check that fails gives the error: id, form of the namespace, reserved, taken, then protocol and group |
| Registry.SubpathsAre | src/modules/registry.rs:34-40 | stored subpaths have one slash in front and none behind; the id stands in for an empty one |
| Origins.LoopbackByName | src/http/response.rs:242-260 | an origin with a named host is on this machine exactly for localhost and 127.0.0.1, in any case, with any port, path and query |
| Origins.LoopbackInBrackets | src/http/response.rs:242-260 | the same of a host in brackets, where ::1 is accepted as well |
| Origins.UserIsRefused | src/http/response.rs:242-260 | an origin with a user in front of the host is refused |
| RegistryLaws.FreshDoesNotCollide | src/modules/validation.rs:63-115 | a namespace clear of the reserved and provider prefixes is clear of the built-in modules |
| Routing.MatchPathWithProvider | src/modules/registry.rs:331-394 | the nested loops with their running maximum return the route of the scan for the iteration order at hand |
| Routing.RouteIsLongest | src/modules/registry.rs:331-394 | the route goes to a module under a prefix that contains the trimmed path, prefix plus subpath is that path, no module has a longer one, the provider is the first whose subpath contains the rest, and nothing is found only if no module has any prefix |
| Routing.QueryIsIgnored | src/modules/registry.rs:339-340 | a path with slashes behind it, and a question mark and anything behind those, is routed like the path |
| Routing.ProviderIsFound | src/modules/registry.rs:380-386 | the provider found is the first whose subpath contains the rest of the path, and none is found exactly if there is none |
| Routing.ScanFindsLongest | src/modules/registry.rs:340-390 | the result is a matching claim that no other claim beats, and nothing only if nothing matches |
| Routing.OrderDoesNotMatter | src/modules/registry.rs:331-394 | without a shared prefix the route is the same for every iteration order of the map |
| Routing.PrefixesAreApart | src/modules/registry.rs:331-364 | with sound namespaces and clear aliases no prefix of a module, built-in aliases included, is a segment prefix of another module's |
| Routing.OwnershipExactly | src/modules/registry.rs:331-394 | after every history of guarded namespaces each path is owned by at most one module if and only if the aliases of the two families clash with no other module's prefix |
| Routing.HistoryWithoutAliases | src/modules/registry.rs:351-362 | histories without ids of the two families meet that condition |
| Routing.RoutingIsDeterministicExactly | src/modules/registry.rs:331-394 | after every history whatsoever, the route of every path is the same for all iteration orders of the map if and only if no two modules share a prefix |
| Routing.OneOwnerMeansOneAnswer | src/modules/registry.rs:331-394 | where paths have one owner they have one route |
| Routing.OwnerIsRouted | src/modules/registry.rs:331-394 | where paths have one owner, a path within a module's prefix is routed to that module |
| Routing.NamespaceReaches | src/modules/registry.rs:363-365 | a personal module is reached under its namespace |
| Routing.BuiltinIsRouted | src/modules/registry.rs:353-358 | every path within one of the seven built-in prefixes reaches its built-in module |
| Routing.FamilyReaches | src/modules/registry.rs:351-362 | the aliases of the two families reach their modules |
| Routing.GoneIsNotRouted | src/modules/registry.rs:331-394 | no path is routed to a module that is not installed |
| Routing.SharedPrefixShows | src/modules/registry.rs:340-390 | on the very path of a shared prefix two iteration orders route differently, in every reachable registry |
| Routing.AliasCanBeTaken | src/modules/registry.rs:351-362 | a history of two registrations after which `/tiktok` is routed to either module |
| Routing.FreeAvoidsAliases | src/modules/validation.rs:7-40 | the reserved and provider tables keep personal namespaces clear of all built-in aliases |
| Hydration.HydrateStoredModules | src/config/store.rs:323-342 | registers the stored modules in order, skipping those that fail, and sets their statuses |
| Hydration.HydrationRestoresOwnership | src/config/store.rs:323-342 | the manifests of any registry reached with restorable namespaces, in any order and with repetitions, all register into a fresh registry and give every id its namespace back |
| Hydration.HydrationOrderMatters | src/config/store.rs:323-342 | for every other free namespace there is a second module with which one order of hydration succeeds and the other fails |
| Hydration.RestorableExactly | src/config/store.rs:323-342 | the condition is exact: a namespace is harmless in all histories of restorable ones, for all orders of their manifests, if and only if it is restorable |
| Hydration.BlankBehindNamespace | src/modules/validation.rs:63-115 | namespaces of both kinds of failure exist |
| Registry.ModuleRegistry.ApplyEnablementMap | src/modules/registry.rs:430-446 | for every order of the map exactly the modules in it get their status, with their sub-providers |
| Restart.RegisterMissing | src/config/store.rs:349-360 | the manifests whose id as written is no module's are registered in order |
| Restart.ApplyStoredModuleStatuses | src/config/store.rs:309-321 | the loop sets the statuses in order |
| Restart.ApplyPersistentFallback | src/config/store.rs:344-366 | missing modules, enablement map and stored statuses, in this order |
| Restart.BuildModuleRegistry | src/config/store.rs:375-400 | the registry of a start, from stored modules, manifests on disk and the configuration |
| Restart.StatusAfterRestart | src/config/store.rs:344-400 | after every start with a configuration each module has the status stored under its own id, else the saved one, else enabled |
| Restart.AddingKeeps | src/config/store.rs:349-360 | adding missing modules leaves every other module as it is, unless a manifest writes its id with blanks |
| Restart.StoredComesFirst | src/config/store.rs:375-400 | what the database says about a module stays when disk and configuration are read |
| Restart.BlankIdNeedsSavedStatus | src/config/store.rs:334-340 | a stored module whose id is written with blanks has its stored status after a start exactly when the saved one, or enabled without one, agrees |
| Restart.BlankIdIsLost | src/config/store.rs:375-400 | for every such id both outcomes occur: enabled again without a saved map, disabled with it |
| Restart.SavedStatusesReturn | src/config/store.rs:214-236 | save and restart: every module that is back has the status it had |
| Restart.RestartRestoresOwnership | src/config/store.rs:375-400 | wherever the manifests of a registry are kept, database, disk or configuration, a start with or without a configuration gives every module its namespace back |
| Menu.ListModules | src/modules/registry.rs:397-405 | the listing is sorted by order and id and complete, from every iteration order of the map |
| Menu.ListingIsUnique | src/modules/registry.rs:397-405 | there is only one such listing |
| Menu.Normalize | src/modules/ui_config.rs:50-56 | numbers the listing 10, 20, 30 and so on without changing it |
| Menu.MoveModuleOrder | src/modules/ui_config.rs:41-96 | the new listing is the old one with the module and its neighbour swapped, unchanged at the ends or for a bad direction; orders are 10 to 10n; nothing but orders changes |
| Menu.WordsMove | src/modules/ui_config.rs:63-90 | up leads to the front and down to the back, in any case and between blanks; other words move nothing, and the other modules keep their places |
| Menu.SwapOrders | src/modules/ui_config.rs:80-90 | exchanging two orders exchanges the two modules in the listing |
| Menu.MoveThereAndBack | src/modules/ui_config.rs:41-96 | a move and the opposite one on the registry: the listing is the first one again exactly when the first move had somewhere to go, or neither has |
| Menu.ThereAndBack | src/modules/ui_config.rs:60-90 | the same of listings |
| Menu.MoveIsRenumbering | src/modules/ui_config.rs:41-96 | a move is one of the registry's histories' renumberings, so all their laws hold for it |
| Admission.StepConserves | src/runtime/admission.rs:18-114 | every step of any thread keeps counter = live guards + reservations without a guard, within the maximum |
| Admission.RunConserves | src/runtime/admission.rs:18-114 | so it is in every state of every interleaving, with stale loads and spuriously failing exchanges |
| Admission.ByteSafety | src/runtime/admission.rs:18-114 | in every interleaving the counter never exceeds the maximum, no drop wraps around, and the roll-back is never taken |
| Admission.RollBackImpossible | src/runtime/admission.rs:85-95 | the roll-back branch is unreachable for a guard of the same controller |
| Admission.IdleMeansEmpty | src/runtime/admission.rs:39-44 | nothing leaks: with no guard and no reservation left the counter is zero |
| Admission.ConnectionSafety | src/runtime/admission.rs:14-76 | the connection counter equals the live guards plus those about to be built, and never exceeds the maximum |
| Admission.TotalWithout | src/runtime/admission.rs:24-44 | the sum of the guards' amounts does not depend on the order of summation |
| UpgradeLock.UpgradeRegistry.InFlight | src/features/dashboard/modules/queue.rs:81-92 | prunes what has expired and lists the rest in ascending order |
| UpgradeLock.RunKeepsInv | src/features/dashboard/modules/queue.rs:19-68 | in every run every entry is owned, every young guard owns its entry, and acquisitions of one module are a lifetime apart |
| UpgradeLock.AtMostOneYoungGuard | src/features/dashboard/modules/queue.rs:36-68 | two live guards of one module are never both younger than five minutes |
| UpgradeLock.EntryHasOneOwner | src/features/dashboard/modules/queue.rs:19-68 | every entry belongs to exactly one live guard |
| UpgradeLock.DropTakesOnlyItsOwn | src/features/dashboard/modules/queue.rs:19-34 | dropping a guard, also an expired one after its lock was taken over, leaves every other owner its entry |
| UpgradeLock.AllDroppedMeansEmpty | src/features/dashboard/modules/queue.rs:19-68 | with all guards dropped the map is empty |
| UpgradeLock.RefusedExactlyWhenHeld | src/features/dashboard/modules/queue.rs:36-64 | an acquisition is refused exactly when a live guard of the module is younger than the lifetime |
| UpgradeLock.ListingIsExact | src/features/dashboard/modules/queue.rs:81-92 | the listing names exactly the modules with such a guard |
| Zip.FindEocd | src/gateway/archive.rs:251-267 | the backward loop finds the last end record in the searched range |
| Zip.ParseCentralDirectory | src/gateway/archive.rs:124-194 | the cursor loop returns the directory's entries in order, stops where none starts, and fails for a name beyond the file |
| Zip.CentralFields | src/gateway/archive.rs:124-194 | every field of a directory record by section 4.3.12 of APPNOTE is read back, and the cursor moves to the next record |
| Zip.CentralsAreRead | src/gateway/archive.rs:124-194 | so is a directory of any number of records |
| Zip.ShortDirectoryIsRead | src/gateway/archive.rs:144-151 | a directory that ends before its count is listed as far as it goes |
| Zip.NameBeyondEnd | src/gateway/archive.rs:173-177 | a name that goes beyond the file fails the listing |
| Zip.LocalIsRead | src/gateway/archive.rs:196-249 | the data is found behind any local header of section 4.3.7, whatever its own name and extra field |
| Zip.BadEntryIsRefused | src/gateway/archive.rs:196-220 | an entry without its local header, or whose data goes beyond the file, is refused |
| Zip.EntryIsOfFile | src/gateway/archive.rs:124-194 | the entry has the file's name, method, size and place, and is a directory exactly if the name ends with a slash or backslash |
| Zip.EocdIsRead | src/gateway/archive.rs:251-267 | the end record of section 4.3.16 is in the searched range for every comment, and its count and offset are read back |
| Zip.SearchedRange | src/gateway/archive.rs:251-267 | the record found is the last of the file, in its last 65557 bytes and behind its first 22 |
| Zip.ArchiveIsRead | src/gateway/archive.rs:124-267 | an archive of n entries by the standard whose comment hides no second end record is listed entry by entry; stored data reads as it is, deflated data inflated, both up to 64 MiB, other methods are refused by number |
| Zip.EmptyArchiveIsRejected | src/gateway/archive.rs:251-267 | an archive of no entries whose comment hides no second end record is refused |
| Zip.ShortestArchiveIsRejected | src/gateway/archive.rs:251-267 | the archive of twenty-two bytes is refused |
| Zip.CreateZipArchive | src/runtime/logger/archive.rs:10-77 | for every name and all data the writer's bytes are the records of the standard for one entry, truncated lengths included |
| Zip.LogArchiveRoundTrip | src/runtime/logger/archive.rs:10-77 | for every name below 2^16 bytes and data whose record ends below 2^32 the installer's reader finds exactly one entry with the name written and returns the data written, and refuses it exactly above the limit on one entry |
| Base64.ReadGroup | src/gateway/installer/ingest.rs:225-246 | reading a group character by character, stopping at the first bad one, gives what the group stands for, short by one byte for each padding character |
| Base64.DecodeBase64 | src/gateway/installer/ingest.rs:218-248 | filter, padding loop and group loop compute the decoding of the whole input |
| Base64.DecodeInvertsEncode | src/gateway/installer/ingest.rs:218-248 | every byte sequence encoded by section 4 of RFC 4648, padded or not and with white space anywhere, is decoded to itself |
| Base64.DecodeEncoded | src/gateway/installer/ingest.rs:218-248 | in particular the encoding as it is |
| Base64.InsertedBlank | src/gateway/installer/ingest.rs:220-224 | one inserted blank changes nothing |
| Base64.EncodeIsPadded | src/gateway/installer/ingest.rs:224-227 | the padding loop completes an unpadded encoding to the padded one and leaves a padded one alone |
| Base64.RejectsExactly | src/gateway/installer/ingest.rs:218-248 | an input is refused exactly when it has a character that is no blank, no padding and not in the alphabet |
| Base64.EncodingsExactly | src/gateway/installer/ingest.rs:218-248 | an input is the encoding of what it decodes to, blanks and missing padding aside, exactly when padding stands only at the end and the unused bits are zero |
| Base64.PaddingInside | src/gateway/installer/ingest.rs:228-246 | padding inside a group is accepted |
| Base64.BitsBehind | src/gateway/installer/ingest.rs:228-246 | so are bits that belong to no byte |
| Failover.PlanCandidates | src/gateway/candidates.rs:41-72 | the loop with its membership test computes the plan: distinct, never empty |
| Failover.PlanHasFallbacks | src/gateway/candidates.rs:41-72 | the plan starts with the model asked for, has every fallback and nothing else |
| Failover.RotatedAt | src/gateway/candidates.rs:54-61 | index arithmetic modulo the length visits the rotated fallbacks |
| FailoverLaws.ModelIsRead | src/rewrite.rs:20-26 | the model of a request is the quoted text behind its key |
| FailoverLaws.NoModelIsRead | src/rewrite.rs:20-26 | a body without quotes names no model |
| FailoverLaws.NameWithEffort | src/gateway/candidates.rs:7-37 | the effort suffix of the model asked for is carried over to the default, a known model is kept |
| FailoverLaws.NameWithoutEffort | src/gateway/candidates.rs:7-37 | without a suffix: the default, or the name if no default is configured and it is known |
| FailoverLaws.KnownIsLookedUp | src/gateway/capabilities.rs:50-55 | a model is known exactly if its trimmed lower-case name starts with one of the table's |
| FailoverLaws.FallbacksInRotation | src/gateway/candidates.rs:54-61 | without a model, distinct fallbacks are the plan, from the rotation on and around the end |
| FailoverLaws.DefaultIsPlanned | src/gateway/candidates.rs:62-70 | without model and fallbacks the default is the plan |
| Failover.EvaluateRoutingPolicy | src/gateway/policy.rs:13-79 | reshaping keeps the candidates distinct and loses none |
| FailoverLaws.PolicyTable | src/gateway/policy.rs:19-97 | the model put in front in each mode; the branch for models without tools is never taken |
| Failover.DelayIsBounded | src/omniroute.rs:23-39 | no delay is above the maximum, also with a Retry-After header |
| Failover.SaturationIsExact | src/omniroute.rs:35-38 | shifting and saturating in 64 bits gives the exact min(base * 2^attempt, max) below 2^32 attempts |
| Failover.DelayIsExact | src/omniroute.rs:23-39 | without a usable header the delay is exact if and only if the attempt is below 2^32, the base is zero or the truncated power already reaches the maximum |
| Failover.DelayIsWrong | src/omniroute.rs:35-38 | attempt 2^32 is delayed like attempt 0 |
| Failover.TryCandidate | src/features/proxy/service.rs:22-144 | settles the request with one response, or sleeps and sends nothing, exactly if the candidate fails over and is not the last |
| Failover.Forward | src/features/proxy/service.rs:195-249 | exactly one response, by the first candidate that does not fail over or else the last; candidates in order, once each; the tail only for no candidates |
| Failover.ForwardRequest | src/features/proxy/service.rs:150-249 | for every request body, configuration and upstream behaviour exactly one response, never from the tail, by distinct candidates, the plan with the policy's model in front; the sleeps are those due candidate by candidate, in plain numbers |
| Failover.SleepsAreExact | src/features/proxy/service.rs:285-313 | candidate by candidate the sleep is nothing after a failed connection, the seconds a usable Retry-After asks for, or else min(base * 2^index, max), each capped by the maximum |
| Failover.AskedIsRead | src/omniroute.rs:14-21 | a Retry-After is usable exactly if it is digits of a u64, perhaps behind a plus sign and between blanks |
| Failover.ResponseIs | src/features/proxy/service.rs:22-144 | the response by the deciding answer: its own status or page, 502 for none, 200 from muse |
| Failover.GivesWay | src/features/proxy/service.rs:22-144 | when a candidate gives way: muse only on failure, others also on eleven statuses |
| Failover.SleepsAreBounded | src/features/proxy/service.rs:285-313 | every sleep of a request is positive and within the configured maximum |

## Left out

- Menu.MoveModuleOrder: more than 214748364 modules, where `(i + 1) * 10` leaves `i32`, are not modelled.
- Menu.MoveModuleOrder: runs under the write lock, so both iteration orders are of one map; other setters of positions appear only as `Renumber`.
- UpgradeLock.RunKeepsInv: custom lifetimes and `clear_all_upgrade_locks` are not steps of the protocol.
- Zip.LogArchiveRoundTrip: assumes that inflating undoes deflating; deflate and the checksum are parameters.
- Zip.ParseCentralDirectory: names are raw bytes; the lossy decoding of names that are not UTF-8 is not modelled.
- Zip.ArchiveIsRead: a second end-record signature inside the archive comment is excluded; the code takes the last one it sees.
- RequestBody.ReadBody: one uninterrupted thread; what other threads do to the counter is in module `Admission`.
- RequestBody.ReadChunkedBody: for a stream above 64 MiB it is not stated when the buffer's size is what it is refused for; that depends on the segmentation.
- ChunkCodec.ReadOneChunk: the wrap-around of a release build; a debug build panics earlier.
- Hydration.HydrationRestoresOwnership: histories with namespaces that are not restorable, for which it can fail.
- RegistryLaws.NamespacesStayDisjoint: histories with namespaces that are not guarded, for which it can fail.
- Restart.BuildModuleRegistry: manifests on disk are a parameter, without those marked as uninstalled; saved positions and configurations change no namespace and no status.
- Menu.ListModules: the library's sort is modelled as insertion; the listing is unique, so the algorithm does not show.
- Relay.StreamResponse: writes to the client succeed; a panic is the outcome `Err(Panic)`, after which nothing runs.
- LogNames.ResolveArchivePath: the counter does not overflow `i32`, and the directory is a set of names.
- LogNames.ArchiveExpiresOnTime: the date test by name only; the test by modification time is not modelled.
- Failover.Forward: what a candidate answers is a parameter, with writes to the client succeeding; 304 and 204 answers, prefix rewriting of answers and shadow logging do not differ from relaying here.
- Failover.EvaluateRoutingPolicy: only the candidate list is modelled, not the reason and the shadow recommendation.
- Admission.ByteSafety: guards are extended only by the controller that made them; a guard of another controller is only in `AdmissionController.AcquireMoreBytes`.
- Request and response heads: parsing and printing of request lines and headers; `Framing`, `chunked` and `lengths` stand for their outcome.
- I/O errors other than the end of a stream, time-outs, logging, files, processes and SQLite.
- Icons, names, descriptions, schemas and configuration of modules, their files on disk, aliases of ids, per-provider statuses.
- Path sanitising, total size limit and file writing of the installer's extraction.
- `sanitize_log_message`, `escape_json_string`, `replace_model`, `rewrite_location_header`, `read_full_body`: each would add only members about one body.
- The account pool, the plain HTTP provider with the same cascade, the dashboard handlers and the protocol dispatch.
