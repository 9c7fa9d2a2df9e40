# IPTV source updater: a verified model of its channel pipeline

`scripts/update_sources.py` (class `IPTVUpdater`) collects IPTV playlists in
M3U format, reads them into channel records, de-duplicates them by stream
URL, drops test and placeholder entries, probes every stream, sorts the
reachable ones into five categories and writes each group back out as a
playlist. This project models the deterministic stages of that pipeline in
Dafny and proves what each stage promises:

- `text.dfy` (`Text`): the parts of Python's `str` the pipeline relies on:
  `strip()`, `startswith`, substring `in`, `lower()`, `splitlines()` and
  `str(n)`.
- `channels.dfy` (`Channels`): the channel record and the "ordered
  subsequence" relation kept by the filtering stages.
- `parser.dfy` (`M3uParser`): `parse_m3u`, the loop that pairs each
  `#EXTINF` line with the next stream URL line. It is proved against an
  independent description of which `#EXTINF` line is pending at each line.
- `dedup.dfy` (`Dedup`): the URL-keyed dictionary in `run` where the first
  record for a URL wins.
- `quality.dfy` (`QualityFilter`): `filter_quality_channels`.
- `categorizer.dfy` (`Categorizer`): `categorize_channel` and the loop of
  `run` that fills the five category lists.
- `probe.dfy` (`Probe`): the decision of `is_url_accessible`. The URL split
  and the HEAD request are inputs to it.
- `validator.dfy` (`Validator`): the collecting loop of
  `validate_channels_parallel`, as a sequential fold over an arbitrary
  completion order.
- `emitter.dfy` (`Emitter`): `generate_m3u_content`, and the round trip
  from emitted text back through `parse_m3u`.

Each loop of the modelled stages is a Dafny `method` with a loop. Its
`ensures` ties the result to a recursive specification function, and lemmas
prove the stage's properties about that function. The `any(...)` keyword
tests are not loops here: they are the predicate `Text.ContainsAny`, which
asks whether some keyword of the list occurs, using the recursive substring
test `Text.Contains`. `IPTVUpdater` gets no class: the
methods modelled here keep their state in local variables, and the only
fields they touch are the log and the loaded configuration, neither of
which is modelled.

Behaviour of the code worth knowing:

- The display name is the text after the FIRST comma of the `#EXTINF` line,
  not the last. The regular expression `,(?P<name>.*)$` is searched
  leftmost, and `.` matches everything in a line that has no newline.
- A display name can be empty: `#EXTINF:-1,` gives the name `""`
  (`M3uParser.EmptyNameAfterTrailingComma`). The `Unknown_<i>` placeholder
  appears only when the line has no comma at all.
- `requests` handles only `http://` and `https://` URLs, so a HEAD request to an `rtsp://` or `rtmp://` stream raises and lands in the catch-all exception branch: such streams are rejected unless the URL names a trusted site. The model leaves the outcome of the request open (`Probe.HeadResult`), so it also allows a status code for them.
- The trusted-site test looks for `youtube.com`, `youtu.be` or `twitch.tv`
  anywhere in the whole URL, not only in its host
  (`Probe.TrustedInQuery`).
- The good-keyword branch of `filter_quality_channels` keeps the record,
  exactly as falling through does. It is kept in
  `QualityFilter.FilterQualityChannels` as the no-op it is.
- Of the nine hongkong keywords, five can never decide a category
  (`Categorizer.HongkongReach`). `HOY`, `NOW` and `RTHK` are upper case and
  are tested against a lower-cased name. `凤凰` is matched first by the
  satellite list. `无线新闻` contains the local keyword `新闻`.

## Model

| member | source | states |
|---|---|---|
| Text.StripShape | scripts/update_sources.py:66 | `strip()` returns a contiguous slice of its argument with no white space (Python's `isspace` set) at either end, and everything it cuts off before and after that slice is white space |
| Text.StripIdempotent | scripts/update_sources.py:66 | stripping a stripped line changes nothing |
| Text.ToLower | scripts/update_sources.py:163 | `lower()` keeps the length, turns each ASCII capital into its small letter (32 code points up), keeps every other character, and leaves no ASCII capital |
| Text.LowerIdempotent | scripts/update_sources.py:163 | lower-casing a lower-cased name changes nothing |
| Text.LowerMissesUpper | scripts/update_sources.py:180-196 | a keyword holding an upper-case ASCII letter is never found in a lower-cased name |
| Text.IndexOfSpec | scripts/update_sources.py:72 | the position found holds the character and is its first occurrence; none is found exactly when the character is absent |
| Text.IndexOfAt | scripts/update_sources.py:72 | the first occurrence of a character is the position found |
| Text.NatToStringRoundTrip | scripts/update_sources.py:76 | `str(n)` is a non-empty run of digits without a leading zero (unless `n` is 0) that reads back as `n` |
| Text.SplitJoinLines | scripts/update_sources.py:63 | `splitlines()` of lines joined with newlines gives back those lines, when none holds a line boundary |
| Text.SplitLinesNoLineBreak | scripts/update_sources.py:63 | no line that `splitlines()` returns holds a line boundary |
| Text.ContainsSlice | scripts/update_sources.py:190-194 | a string that contains a keyword contains every piece of that keyword |
| Text.MissingHeadsNotContained | scripts/update_sources.py:183-195 | a string lacking the first character of each keyword contains none of them |
| Channels.Urls | scripts/update_sources.py:293-294 | the list of URLs has one entry per record, the k-th being the k-th record's URL |
| Channels.SubseqMembers | scripts/update_sources.py:161-177 | every element of an ordered subsequence is an element of the sequence |
| M3uParser.ParseM3u | scripts/update_sources.py:60-86 | the loop over `splitlines()` with its pending slot returns exactly `Parse(lines, source)` |
| M3uParser.OpenerPending | scripts/update_sources.py:70-83 | the pending `#EXTINF` line is an `#EXTINF` line with neither an `#EXTINF` line nor a URL line after it, so a second `#EXTINF` line replaces the first |
| M3uParser.OpenerClosed | scripts/update_sources.py:70-83 | with nothing pending, every earlier `#EXTINF` line has been closed by a later URL line |
| M3uParser.ClosingsSpec | scripts/update_sources.py:78-83 | the URL lines that close records are in input order and are exactly the URL lines reached with an `#EXTINF` line pending; a URL line with nothing pending closes nothing |
| M3uParser.ParsePairing | scripts/update_sources.py:65-83 | the k-th record pairs the k-th closing URL line with the `#EXTINF` line pending at it |
| M3uParser.ParseRecordShape | scripts/update_sources.py:66-82 | every record carries `source_url`, a stripped `#EXTINF` line, a stripped stream URL and the name derived from its `#EXTINF` line |
| M3uParser.ParseNoLineBreak | scripts/update_sources.py:63-66 | records read from lines without line boundaries hold none |
| M3uParser.NoExtinfNoRecords | scripts/update_sources.py:79 | a playlist without `#EXTINF` lines yields no record: orphaned URL lines are dropped |
| M3uParser.ParseUpToPrefix | scripts/update_sources.py:65-83 | lines appended later do not change the records of earlier lines |
| M3uParser.NameSpec | scripts/update_sources.py:72-76 | the name is the stripped text after the first comma; with no comma it is `Unknown_<i>`, and only then does it depend on the line index |
| M3uParser.LocatorNotExtinf | scripts/update_sources.py:70-78 | a stream URL line never starts with `#EXTINF` |
| M3uParser.LastLineSpec | scripts/update_sources.py:72 | the text a `$`-anchored match can reach holds no newline, and is the whole line when the line has none |
| M3uParser.EmptyNameAfterTrailingComma | scripts/update_sources.py:72-74 | a line whose only comma is its last character gets the empty name, not the placeholder |
| M3uParser.TrailingCommaExample | scripts/update_sources.py:72-74 | `#EXTINF:-1,` gets the empty name |
| Dedup.FirstIndex | scripts/update_sources.py:295 | the index found holds the URL and no earlier record has it |
| Dedup.DeduplicateChannels | scripts/update_sources.py:292-298 | the dictionary loop and `list(values())` return exactly `Dedup(all_channels)` |
| Dedup.DedupUrls | scripts/update_sources.py:292-298 | the survivors' URLs are pairwise distinct and are exactly the input's URLs |
| Dedup.DedupSubseq | scripts/update_sources.py:292-298 | the survivors keep the input order |
| Dedup.DedupFirstWins | scripts/update_sources.py:295-296 | each survivor is the first record of the input with its URL |
| Dedup.DedupFirstSeenOrder | scripts/update_sources.py:292-298 | the survivors come in the order in which their URLs first appear: survivor i before survivor j means the first input position of i's URL is smaller than that of j's |
| Dedup.DedupNoDuplicates | scripts/update_sources.py:292-298 | a list with distinct URLs passes through unchanged |
| Dedup.DedupIdempotent | scripts/update_sources.py:292-298 | de-duplicating twice changes nothing more |
| QualityFilter.FilterQualityChannels | scripts/update_sources.py:158-177 | the loop, good-keyword branch included, returns exactly `FilterQuality(channels)` |
| QualityFilter.FilterSubseq | scripts/update_sources.py:161-177 | the kept records are an ordered subsequence of the input |
| QualityFilter.FilterMembers | scripts/update_sources.py:163-175 | a record is kept exactly when its lower-cased name holds none of `test`, `example`, `demo`, `无效`, `测试` |
| QualityFilter.FilterCounts | scripts/update_sources.py:163-175 | every record that is not excluded occurs in the output exactly as many times as in the input, and an excluded one never does |
| QualityFilter.FilterKeepsClean | scripts/update_sources.py:165-175 | a list with no excluded record passes through whole |
| QualityFilter.FilterIdempotent | scripts/update_sources.py:158-177 | filtering twice removes nothing more |
| QualityFilter.FilterShrinks | scripts/update_sources.py:158-177 | the filter never grows the list |
| QualityFilter.DemoIsExcluded | scripts/update_sources.py:165-166 | a channel named "Demo Channel" is dropped |
| Categorizer.FirstMatchSpec | scripts/update_sources.py:179-198 | a first-match rule chain returns the label of the first list with a match and `other` only when no list matches |
| Categorizer.CategorizeIsFirstMatch | scripts/update_sources.py:179-198 | `categorize_channel` is that chain over cctv, satellite, local, hongkong in this order, on the lower-cased name |
| Categorizer.HongkongReach | scripts/update_sources.py:186-196 | a name is `hongkong` only through `tvb`, `viutv`, `翡翠` or `明珠` |
| Categorizer.PhoenixIsSatellite | scripts/update_sources.py:186-188 | a name with `凤凰` and no cctv keyword is `satellite` |
| Categorizer.CctvExamples | scripts/update_sources.py:182-185 | "CCTV-1 综合" and "CCTV卫视" are `cctv`: the cctv list is tried before the satellite list |
| Categorizer.SatelliteExample | scripts/update_sources.py:182-188 | "湖南卫视" is `satellite` |
| Categorizer.TvbIsHongkong | scripts/update_sources.py:182-196 | "TVB翡翠台" is `hongkong` |
| Categorizer.BucketChannels | scripts/update_sources.py:318-321 | the dictionary has the five category keys and maps each to the valid channels of that category, in order |
| Categorizer.BucketMembers | scripts/update_sources.py:319-321 | a channel is in a bucket exactly when it is valid and its name maps to that category |
| Categorizer.BucketSubseq | scripts/update_sources.py:319-321 | each bucket keeps the order of `valid_channels` |
| Categorizer.BucketsPartition | scripts/update_sources.py:318-321 | the buckets together hold each valid channel as often as the list does, so the category counts add up to `len(valid_channels)` |
| Probe.StatusMessageReadsBack | scripts/update_sources.py:102-105 | the status message is `状态码: ` followed by a decimal that reads back as the status code |
| Probe.MessageDistinguishes | scripts/update_sources.py:88-112 | two reasons with the same message are the same reason: the message tells the status code and the exception text apart |
| Probe.IsUrlAccessible | scripts/update_sources.py:88-112 | a URL is accepted exactly when it has a scheme and a host and either names a trusted streaming site or answers with 200, 301 or 302 |
| Probe.ReasonSpec | scripts/update_sources.py:88-112 | the reason each path reports: a `urlparse` error gives its exception, a missing scheme or host the invalid-format reason, a trusted site the streaming reason; once the request is sent, the status code, the timeout, the connection error or the other exception |
| Probe.NoRequestWhenDecided | scripts/update_sources.py:90-96 | a URL without scheme or host, or naming a trusted site, is decided without the request: the outcome of the request cannot change the verdict |
| Probe.RequestDecides | scripts/update_sources.py:98-112 | once the request is sent the verdict is the request's; timeouts, connection errors and other exceptions are all rejections |
| Probe.TrustedInQuery | scripts/update_sources.py:95-96 | a trusted domain in the query string of an ordinary host skips the request |
| Validator.EntryFor | scripts/update_sources.py:129-148 | an entry carries the channel's name and URL, is valid exactly when the probe returned an acceptance, carries the probe's own message when the probe returned, and the `验证异常` message when it raised |
| Validator.PermutationInRange | scripts/update_sources.py:126 | a completion order lists exactly n indices, all below n |
| Validator.CollectResults | scripts/update_sources.py:126-148 | the loop over the completed futures returns exactly `ValidChannels` and `Entries` of the completion order |
| Validator.EntriesShape | scripts/update_sources.py:126-148 | there is one entry per completed probe, exceptions included, the k-th about the channel completed k-th |
| Validator.ValidCount | scripts/update_sources.py:130-137 | `len(valid_channels)` equals the number of entries marked valid |
| Validator.ValidInCompletionOrder | scripts/update_sources.py:126-131 | `valid_channels` follows completion order |
| Validator.AcceptedOrderSpec | scripts/update_sources.py:126-131 | `AcceptedOrder` is a subsequence of the completion order that holds only indices whose probe returned an acceptance, and every such index |
| Validator.ValidIsAcceptedCompleted | scripts/update_sources.py:126-131 | `valid_channels` is exactly the channels at the accepted indices, taken in completion order, so duplicate channels are compared by position |
| Validator.ValidMembers | scripts/update_sources.py:129-131 | a channel is in `valid_channels` exactly when its probe returned an acceptance |
| Validator.EntriesConcat | scripts/update_sources.py:126-148 | collecting two runs of completions one after the other appends their results |
| Validator.OrderIndependent | scripts/update_sources.py:126-148 | two completion orders of the same futures give the same entries and the same valid channels, up to order |
| Validator.OneEntryPerChannel | scripts/update_sources.py:120-148 | whatever the completion order, the entries and the valid channels are, as multisets, those collected in input order |
| Validator.EntriesInInputOrder | scripts/update_sources.py:120-148 | in input order there is one entry per submitted channel, the k-th about the k-th channel |
| Validator.InputOrderValid | scripts/update_sources.py:129-131 | in input order the valid channels are exactly the channels whose probe accepted them |
| Emitter.HeaderLines | scripts/update_sources.py:201-209 | the header is eight lines, starting with `#EXTM3U`, the first seven each starting with `#`, the last one empty |
| Emitter.RecordLines | scripts/update_sources.py:211-212 | the body is each record's `#EXTINF` line followed by its URL line, in order |
| Emitter.GenerateM3uContent | scripts/update_sources.py:200-214 | the loop returns exactly the header followed by the record lines |
| Emitter.TotalChannelsReported | scripts/update_sources.py:206 | the sixth line reads `# Total Channels: ` and a decimal that reads back as the number of records, and the text has two lines per record after the header |
| Emitter.TextLines | scripts/update_sources.py:200-214 | the emitted text splits back into the header lines and the record lines |
| Emitter.HeaderHasNoUrl | scripts/update_sources.py:201-209 | no header line is a stream URL line |
| Emitter.ParsePairAppended | scripts/update_sources.py:70-83 | an `#EXTINF` line and a URL line appended to a playlist add exactly one record |
| Emitter.ReadBackAt | scripts/update_sources.py:70-83 | the k-th record read back keeps the k-th record's `#EXTINF` line and URL, takes the new source and the name of its `#EXTINF` line at line `offset + 2k` |
| Emitter.ParseRecordLines | scripts/update_sources.py:211-212 | the record lines after a header with no URL line read back as `ReadBack`: one record per emitted record, in order |
| Emitter.EmitParseRoundTrip | scripts/update_sources.py:200-214 | re-parsing emitted text gives back each record's `#EXTINF` line and URL in order, with the new source and the name derived from its line |
| Emitter.ParseEmitParse | scripts/update_sources.py:60-86 | parse, emit, parse again keeps `#EXTINF` lines, URLs and order, and the names of records whose `#EXTINF` line has a comma |

## Left out

- Fetching the playlists (`fetch_source`), and the HTTP session: network I/O. `parse_m3u` takes the text, and the model takes the lines of that text.
- The loop of `run` over primary and backup sources, and `load_sources`: configuration and network I/O around the modelled stages.
- The thread pool itself (`ThreadPoolExecutor`, `as_completed`): concurrency. The completion order is an input to `Validator.CollectResults`.
- `urlparse`: a library call. Its outcome, a scheme and host or the error it raised, is an input to `Probe.IsUrlAccessible`.
- `requests.head`: network I/O. Its outcome, a status code or one of the three exception kinds, is an input to `Probe.IsUrlAccessible`.
- All file writes (playlists, JSON details, stats, log), `update_readme` and logging: I/O with no effect on the modelled results, except as the next line says.
- The progress message every 20 probes (scripts/update_sources.py:139-140) is written inside the `try` of the collecting loop. The model assumes it never raises. If it did, the `except` branch would add a second entry for a channel that already has one, and may already be in `valid_channels`, which `Validator.CollectResults` and `Validator.OneEntryPerChannel` do not cover.
- The clock readings in the header, and the timings and `validity_ratio` in the stats: clocks and floating point. The two header timestamps are parameters of `Emitter.GenerateM3uContent`.
- Emitter.GenerateM3uContent: the header is built as a list of lines joined with newlines, which gives the same text as the literal multi-line string of the source.
- Text.ToLower: lower-cases ASCII letters only. Python's `lower()` also maps other cased letters (the Kelvin sign to `k`, for example), which the model leaves as they are. Chinese characters have no case, so the Chinese keywords are unaffected.
- Probe.Message: its own contract names only the status and exception messages; the other four are constants of its body, and `Probe.MessageDistinguishes` shows all six reasons have different messages.
