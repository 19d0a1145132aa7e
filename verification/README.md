# Shigoku: verified models of the hand-written core

Shigoku is a terminal anime client in C++. Around libcurl, SQLite and a JSON library it hand-writes
small algorithms and protocols whose contracts matter: calendar arithmetic, byte-level codecs, address
parsers, a resumable download, a failover latch, a list mirror. This project models those pieces and
proves what they promise, for all inputs, all runs and all interleavings.

Each file is one component. Code that loops or changes state in the original is a method (or a class)
proved against a function; the lemmas beside it say what that function means. `dafny verify
dfyconfig.toml` checks everything.

| file | component |
|---|---|
| `Calendar.dfy`, `Iso8601.dfy`, `Schedule.dfy` | civil calendar, timestamp parsing, airing schedule |
| `StripControls.dfy` | lenient UTF-8 control stripper |
| `Ipv4.dfy`, `Ipv6.dfy`, `Guard.dfy` | host literals, and the fetch guard's verdict on a host |
| `Whatwg.dfy`, `Rfc4291.dfy`, `Rfc3629.dfy` | the host literals and the text encoding of the standards, and exactly where the program differs |
| `Base64.dfy` | standard and URL base64 over a wrapping accumulator |
| `Download.dfy`, `MergeTree.dfy`, `LocalFiles.dfy` | resumable download, directory merge, naming and finding downloaded episodes |
| `Failover.dfy`, `Answers.dfy` | the catalog's timed latch under concurrent calls, and what each call makes of its answers |
| `Mirror.dfy` | guarded push to, and token-renewing pull from, MyAnimeList |
| `Labels.dfy`, `Episodes.dfy`, `Entities.dfy`, `Hls.dfy`, `IdMap.dfy` | label order, episode lists and dub bisection, HTML entities, HLS playlists, id bridge |
| `Numerals.dfy`, `Text.dfy`, `Sorting.dfy`, `Library.dfy` | digits, splitting and finding, stable sort, list status: shared by the above |

## What the proofs found

Where the code departs from its comments or from a standard, the model follows the code: a lemma gives
an input, and another says for all inputs when the promise is kept.

- `strip_controls` promises that no C0, DEL, C1, bidi, zero-width or BOM character is left. Its lenient
  decoder swallows bytes after a lead byte, and text it reads nothing banned in is returned as it was: C3 07,
  E3 C2 9B and F3 E2 80 AE come back unchanged with a control, a C1 control and a bidi override in them
  (`StripControls.SwallowedControlSurvives`, `SwallowedC1Survives`, `SwallowedBidiSurvives`). Hostile bytes
  are left exactly when they stood in the input and the decoder reads nothing banned in it
  (`StripControls.HostileSurvivesExactlyWhen`).
- The IPv4 parser reads leading zeros as decimal and refuses a bare 0x; the host parser of the WHATWG URL
  Standard (section 3.5) reads octal, and 0, and before that maps the percent-decoded host to ASCII, full-width
  digits included. The comment at `src/http.cpp:67-68` trusts the numeric backstop to catch this, but a host
  that parses, or that holds other bytes, passes it: 0177.0.0.1, 127.0x.0.1 and 127.0.0.1 with a full-width
  first digit, all 127.0.0.1 to the standard, are allowed (`Guard.OctalVerdictDiffers`, `BareVerdictDiffers`,
  `WideLoopbackAllowed`). For a host that is an address to either, the readings agree exactly when it is ASCII
  once percent-decoded and none of its labels is a bare 0x or a decimal one that begins with 0 and is anything
  but zeros and then at most one digit up to 7 (`Whatwg.HostAgreesExactlyWhen`). On those hosts, and no claim is
  made of others, the verdict is that of the standard's address (`Guard.VerdictIsTheAddress`).
- The IPv6 parser reads every text of section 2.2 of RFC 4291, and beyond them a double colon that stands
  for nothing, an IPv4 literal before the double colon, and one at the end that is not four plain decimal
  octets; nothing else (`Rfc4291.RfcTextsExactly`; `EightOnesAccepted`, `EarlyQuadExample`,
  `LooseQuadExample`).
- The names under localhost are blocked exactly when written without the root's dot, or beginning with 0x:
  `localhost.` is allowed (`Guard.RootDotAllowed`, `Guard.LocalBlockedExactlyWhen`).
- `serving_from_mal` promises that the next browse call goes to MAL. It stays true after the retry time has
  passed, when that call goes to AniList, and in MAL mode without a backend, when it goes nowhere
  (`Failover.ChipWrongAfterRetry`, `ChipWrongWithoutBackend`, `ChipTellsTruthExactlyWhen`).
- `pull_mirror` promises that every return carries the renewed token pair. A store error after a
  successful fetch does not, and the pair is lost (`Mirror.RenewedPairLost`,
  `Mirror.RenewedPairHandedBackExactlyWhen`).
- The mirror promises that a value changed on MAL since the last push is never overwritten. It is, by a race:
  progress 3 read, edited to completed 12, is written over with progress 4 (`Mirror.EditOverwritten`). And
  without one: a row is pushed without its score, rated 9 on MAL, later scored 5 in the library, and 5 is written
  over 9 (`Mirror.WithheldScoreOverwritten`). Over two runs, a later write replaces what had changed exactly when
  it changed between that run's read and write in what the mirror believes, or an entry appeared where the read
  saw none, or the score had been withheld (`Mirror.ChangeLostExactlyWhen`, `LostWithoutARaceExactlyWhen`).
- A row written on MAL whose reply is lost, or whose snapshot the store refuses, keeps its old snapshot. Every later
  run that finds row and entry as they were left skips it, exactly when the old snapshot believed something else
  than what was sent: the mirror takes its own write for someone else's (`Mirror.OwnWriteTakenForAnEdit`,
  `LostReplyTakenForAnEdit`, `UnmarkedRowSkippedExactlyWhen`).
- Decoded entities are meant to be UTF-8, but `&#xD800;` becomes bytes that section 3 of RFC 3629 does not
  allow (`Rfc3629.LoneSurrogateDecodes`). Well-formed text decodes to well-formed text exactly when no entity
  that is replaced names a surrogate (`Rfc3629.DecodesWellFormedExactlyWhen`).
- The height is looked for after the first `RESOLUTION=` anywhere in the tag: with
  `VIDEO="RESOLUTION=1x9",RESOLUTION=1280x720` it is 9 (`Hls.NineRead`). By the attribute lists of section 4.2
  of RFC 8216, the RESOLUTION attribute is the one found exactly when no attribute before it has the key in its
  value or a longer name ending in it (`Hls.AttributeFoundExactlyWhen`).
- `download_to_file` promises that what it publishes is the full body. It reads no entity tag, no date and no
  Content-Range: a part file [1] continued by a body that now is [2, 3] is published as [1, 3]
  (`Download.ChangedBodySpliced`), and a 206 that carries only [2] of the body [1, 2, 3], as section 15.3.7 of
  RFC 9110 allows, makes it [1, 2] (`Download.ShortRangePublished`). What a 206 publishes is the body exactly when
  the part file is a prefix of it and the range begins at the part's end and ends at the body's
  (`Download.PublishedIsBodyExactlyWhen`).
- `parse_iso8601_utc` takes day 31 of a short month and second 60. The seconds it gives split back into what
  was written exactly when the month has the day and the second is below 60 (`Iso8601.SplitsBackExactlyWhen`;
  `ImproperDayReadsOtherwise`, `LeapSecondReadsOtherwise`). Its era arithmetic, unlike `civil_from_days`, is
  not exact before March of year 0, which its own bounds exclude (`Calendar.DaysFromCivilExact`).
- `&nbsp;` becomes a plain space, where HTML has U+00A0; the five other names agree (`Entities.NoBreakSpaceDecodes`,
  `Entities.NamesAgreeExactlyWhen`).
- The IPv6 deny list has no multicast, and no addresses translated under 64:ff9b::/96, of what the IPv4 list
  denies (`Ipv6.MulticastAllowed`, `TranslatedAllowed`, `PrivateV6IsEighteenBlocks`).
- Two labels share a file exactly when they differ at most in slashes, backslashes and underscores, or each is
  empty, a dot, two dots or ep: a/b and a_b do (`LocalFiles.SlashSharesAFile`, `SameComponentExactlyWhen`).
- A direct link whose path ends in `.part` is downloaded under that extension, which the local scan refuses;
  https://h/v.part is one, and no other link is lost (`LocalFiles.PartDownloadLost`,
  `LocalFiles.DownloadFoundExactlyWhen`, `LocalFiles.PartExtensionExactlyWhen`).
- A variant height from 4294967290 to 4294967295 fits 32 bits but is refused: the overflow test is made
  before the last digit (`Hls.TallestRefused`, `Hls.PrintedHeight`).

## Model

| member | source | states |
|---|---|---|
| Calendar.CivilIsDate | src/domain.cpp:271-283 | every day number, negative ones included, becomes a date the Gregorian calendar has, and the one with that day number |
| Calendar.CivilFollowsCalendar | src/domain.cpp:271-283 | day 0 is 1970-01-01 and the day after any day is the calendar's next day: the formula is the calendar |
| Calendar.DayNumberMonotone | src/domain.cpp:271-283 | later dates have greater day numbers and conversely, so no two dates share one |
| Calendar.DaysFromCivilExact | src/mal_catalog.cpp:298-304 | the timestamp parser's truncating era arithmetic gives a date's day number exactly from March of year 0 on, and before that exactly in the leap-numbered March years |
| Calendar.FormulasInverse | src/mal_catalog.cpp:298-304 | the two independently written formulas are inverse both ways |
| Iso8601.ReadDigits | src/mal_catalog.cpp:280-290 | the digit loop reads a field and its range exactly as the specification does |
| Iso8601.ParseIso8601Utc | src/mal_catalog.cpp:279-315 | the parser computes the specification function on every string, failures included |
| Iso8601.ParsesWritten | src/mal_catalog.cpp:279-315 | every admitted timestamp, with Z or either offset sign, parses to its seconds less its offset |
| Iso8601.SplitsBackExactlyWhen | src/mal_catalog.cpp:295-312 | the seconds of an admitted timestamp split back into the written date, by the other formula, and the written time if and only if the month has the day and the second is below 60 |
| Iso8601.ImproperDayReadsOtherwise | src/mal_catalog.cpp:295-305 | 31 February 1970 reads as 3 March |
| Iso8601.LeapSecondReadsOtherwise | src/mal_catalog.cpp:295-312 | second 60 reads as the next minute |
| Iso8601.Monotone | src/mal_catalog.cpp:279-315 | parsing UTC timestamps is strictly monotone in the written date and time, both ways |
| Iso8601.ImproperDayRollsOver | src/mal_catalog.cpp:295-305 | a day the month does not have counts on from the month's first |
| Iso8601.OnlyWrittenParses | src/mal_catalog.cpp:291-314 | a string parses to something other than 0 only if it is a written timestamp |
| Schedule.WeekdayFollowsCalendar | src/domain.cpp:300-311 | the weekday advances by one each day from Thursday 1970-01-01, before the epoch too |
| Schedule.FillBuckets | src/domain.cpp:336-359 | the loop puts each listed show's entry in its day's bucket, in list order |
| Schedule.Emit | src/domain.cpp:360-374 | the non-empty buckets become the groups, sorted and dated |
| Schedule.Schedule | src/domain.cpp:331-375 | the whole operation computes the specified groups |
| Schedule.EntryReadsLocally | src/domain.cpp:345-354 | an entry's date and minute of day (0 to 1439) are the local wall clock of its airing, which lies ahead |
| Schedule.EveryAiringOnce | src/domain.cpp:331-375 | each eligible show has one entry in one group and nothing else has one; groups are non-empty, sorted, strictly ordered by day, `later` last |
| Schedule.GroupDateIsEntryDate | src/domain.cpp:345-371 | in groups 1 to 7 every entry has its group's date, for any offset reader |
| Schedule.StandsOnce | src/domain.cpp:331-354 | each show watched or planned with an airing ahead has one entry, which tells its date, weekday, minute of day, episode and seconds left, and nothing else has one |
| Schedule.StandsByDay | src/domain.cpp:355-358 | with d the day of the airing counted from today on the wall clock, an entry stands in the group of d when 0 <= d < 8, in today's when d < 0 and in `later` when d >= 8 |
| Schedule.GroupsTell | src/domain.cpp:360-374 | every group is non-empty, dated by its day, `later` exactly for day 8, sorted by airing time with ties in list order, and each day has one group at most |
| Schedule.UtcIsOneSort | src/domain.cpp:331-375 | read as UTC, the groups end to end are the stable sort of all eligible airings |
| Sorting.StableSortSorts | src/domain.cpp:363-366 | the sort orders by key, keeps every element and keeps ties in order |
| StripControls.DecodeUtf8 | src/domain.cpp:25-53 | the lenient decoder's code point and next index, on any bytes |
| StripControls.FindBanned | src/domain.cpp:101-109 | the fast path's scan finds a banned code point exactly when there is one |
| StripControls.Rebuild | src/domain.cpp:111-118 | the slow path builds the encoding of the allowed code points |
| StripControls.Strip | src/domain.cpp:101-119 | both paths together compute the specification |
| StripControls.StripRemovesExactlyBanned | src/domain.cpp:101-119 | the result decodes to exactly the input's code points without the banned ones, for every byte string |
| StripControls.StripIdempotent | src/domain.cpp:101-119 | the result holds nothing banned and stripping it again changes nothing |
| StripControls.StripWellFormed | src/domain.cpp:66-83 | on well-formed text the bytes are the encoding of the kept characters, on either path |
| StripControls.CharacterGoesExactlyWhen | src/domain.cpp:57-64 | a character alone is taken away exactly when it is C0, DEL, C1, 202A-202E, 2066-2069, 200B-200D or FEFF, and comes back byte for byte otherwise |
| StripControls.HarmlessUnchanged | src/domain.cpp:101-119 | any text of other characters comes back byte for byte |
| StripControls.PieceByPiece | src/domain.cpp:101-119 | a text is stripped piece by piece, in order, so the two lemmas above determine every well-formed text's result |
| StripControls.DecodesLeniently | src/domain.cpp:25-53 | by number ranges: which bytes stand for themselves, which take one, two or three after them, and six bits of each |
| StripControls.RoundTrip | src/domain.cpp:25-83 | decoding undoes encoding on every list of code points up to 0x1FFFFF |
| StripControls.SurvivesExactlyWhen | src/domain.cpp:101-119 | a hostile character's bytes are left in the result exactly when they stood in the input, at any offset, and the decoder reads nothing hostile in it |
| StripControls.HostileSurvivesExactlyWhen | src/domain.hpp:444-448 | the promise that no C0, DEL, C1, bidi, zero-width or BOM character is left holds exactly when none stood in the input or the decoder reads one |
| StripControls.SwallowedControlSurvives | src/domain.cpp:25-53 | a concrete input whose escape byte survives |
| StripControls.SwallowedC1Survives | src/domain.cpp:25-53 | an input whose C1 control survives |
| StripControls.SwallowedBidiSurvives | src/domain.cpp:25-53 | an input whose bidi override survives |
| Numerals.DigitsInOrder | src/http.cpp:31-36 | the digits' values, in either letter case |
| Numerals.PlaceValues | src/http.cpp:48-64 | a digit more makes ten or sixteen times the value, or eight in octal, and the digit more |
| Ipv4.ParseUint | src/http.cpp:48-64 | reads a numeral up to its ceiling; the 64-bit accumulator never wraps |
| Ipv4.ParseLabel | src/http.cpp:69-75 | reads a decimal or 0x label up to its ceiling |
| Ipv4.Assemble | src/http.cpp:145-162 | the word is put together exactly when every label is within its ceiling |
| Ipv4.ParseIpv4Any | src/http.cpp:117-168 | the caller's four bytes are the address when the host names one, and are untouched when not |
| Ipv4.ParsesExactlyItsNames | src/http.cpp:117-168 | a host parses to an address if and only if it is one to four labels spelling it, joined by dots, with at most one trailing dot |
| Ipv4.DecimalForms | src/http.cpp:66-75 | any leading zeros leave a decimal label's value alone |
| Ipv4.HexForms | src/http.cpp:69-75 | so they do after 0x or 0X |
| Ipv4.NumeralForms | src/http.cpp:69-75 | no other label is a number: digits only, or 0x or 0X and hexadecimal digits |
| Ipv4.LowerParsed | src/http.cpp:69-75 | nor does the letter case of any label |
| Whatwg.LabelAgreesExactlyWhen | src/http.cpp:66-75 | the program and the WHATWG URL Standard read a label alike if and only if it is not a bare 0x and, when decimal with a leading 0, is zeros and then at most one digit up to 7 |
| Whatwg.HostAgreesExactlyWhen | src/http.cpp:117-168 | a percent-decoded host that is an address to the program, or to the standard after domain to ASCII, is the same address to both if and only if it is ASCII and all its labels are such |
| Whatwg.OctalHostReadTwoWays | src/http.cpp:66-75 | 0177.0.0.1 is 177.0.0.1 to the program and 127.0.0.1 to the standard |
| Whatwg.BareHostReadTwoWays | src/http.cpp:66-75 | 127.0x.0.1 is no address to the program and 127.0.0.1 to the standard |
| Whatwg.WideFirstReadTwoWays | src/http.cpp:117-168 | an address both read alike is none to the program, and the same to the standard, once its first digit is full-width |
| Whatwg.WideHostReadTwoWays | src/http.cpp:117-168 | 127.0.0.1 with a full-width first digit is one such host |
| Ipv6.ParseGroup | src/http.cpp:222-247 | the loop over one half reads the same hextets as splitting first and reading after |
| Ipv6.ParseIpv6 | src/http.cpp:206-265 | exactly the eight slots are written on success, none on failure |
| Ipv6.ParsesExactlyItsTexts | src/http.cpp:206-265 | a text parses to eight hextets if and only if it writes them: in full, or with one run of zeros as ::, either half perhaps ending in an IPv4 literal |
| Rfc4291.RfcTextsExactly | src/http.cpp:206-265 | section 2.2 of RFC 4291 writes an address in exactly the texts that parse to it, have no dot before the double colon, whose double colon stands for something, and whose IPv4 literal is four plain decimal octets |
| Rfc4291.EmptyRunAccepted | src/http.cpp:253-261 | a double colon between eight written hextets is accepted, and is no text of the RFC |
| Rfc4291.EightOnesAccepted | src/http.cpp:253-261 | as in 1:1:1:1::1:1:1:1 |
| Rfc4291.EarlyQuadAccepted | src/http.cpp:231-239 | an IPv4 literal before the double colon is accepted as the first two hextets, and is no text of the RFC |
| Rfc4291.LooseQuadAccepted | src/http.cpp:231-239 | any spelling of an IPv4 address with a dot in it is accepted after ::, and is no text of the RFC unless it is four plain decimal octets |
| Ipv6.PrivateV4IsEightBlocks | src/http.cpp:97-115 | the IPv4 deny list is exactly eight address blocks |
| Ipv6.PrivateV6IsEighteenBlocks | src/http.cpp:170-204 | the IPv6 deny list is fe80::/10, fc00::/7, and the eight IPv4 blocks as compatible and as mapped addresses |
| Ipv6.MulticastAllowed | src/http.cpp:170-204 | no multicast address is on it |
| Ipv6.TranslatedAllowed | src/http.cpp:170-204 | nor any IPv4 address translated under 64:ff9b::/96 |
| Ipv6.EmbeddedSameVerdict | src/http.cpp:170-204 | mapped and compatible addresses are private exactly when the embedded IPv4 address is |
| Ipv6.LiteralSameVerdict | src/http.cpp:170-265 | ::q and ::ffff:q parse to the address q names and share its verdict |
| Guard.PercentDecode | src/http.cpp:79-95 | the decoding loop computes the specification, malformed escapes included |
| Guard.DecodeEncode | src/http.cpp:79-95 | decoding undoes every percent-escaping |
| Guard.DecodesExactlyWhen | src/http.cpp:79-95 | a host decodes to a text exactly when it is that text with some characters escaped as two hexadecimal digits |
| Guard.LooksNumeric | src/http.cpp:267-284 | the backstop's loop decides numeric spelling |
| Guard.CheckHost | src/http.cpp:346-375 | the guard's steps on an unbracketed host compute the specified verdict |
| Guard.EveryVerdict | src/http.cpp:346-375 | the verdict on every unbracketed host: malformed exactly when it escapes no text, nothing, or one with a colon; blocked exactly when it escapes an IPv4 address in the eight networks, or what is no address and is localhost or under it, begins with 0x, or is digits and dots with a digit, in any letter case; else allowed |
| Guard.EveryLiteralVerdict | src/http.cpp:330-341 | the verdict inside every pair of brackets: malformed exactly when it is no address's text, blocked exactly when it is one of a private address |
| Guard.SpelledVerdict | src/http.cpp:346-375 | whatever labels spell an IPv4 address in the program's reading, capitalised and percent-escaped as they may be, the host gets that address's verdict |
| Guard.VerdictIsTheAddress | src/http.cpp:346-375 | so does every text the WHATWG URL Standard reads as the address, provided it is ASCII once percent-decoded and its labels are ones both read alike |
| Guard.OctalVerdictDiffers | src/http.cpp:66-75 | 0177.0.0.1 is allowed although the standard's address is private |
| Guard.BareVerdictDiffers | src/http.cpp:66-75 | so is 127.0x.0.1 |
| Guard.NotAsciiVerdict | src/http.cpp:346-375 | a host with a byte outside ASCII is blocked exactly when it is under localhost or begins with 0x, and else allowed |
| Guard.WideVerdictDiffers | src/http.cpp:346-375 | every address with a full-width first digit is allowed, however percent-escaped, though the standard reads the address |
| Guard.WideLoopbackAllowed | src/http.cpp:346-375 | so 127.0.0.1 with a full-width first digit is allowed, and private to the standard |
| Guard.BracketedVerdictIsTheAddress | src/http.cpp:330-341 | inside brackets every text of a compatible or mapped address, in full, shortened or dotted, gets the embedded address's verdict |
| Guard.NumbersAllowedAreAddresses | src/http.cpp:357-375 | a numeric-looking host that is allowed is an address outside the deny list in the program's reading, and the same to the standard exactly when its labels are read alike |
| Guard.LocalBlockedExactlyWhen | src/http.cpp:367-374 | a name of the localhost family is blocked exactly when it has no root dot or begins with 0x, and is allowed otherwise |
| Guard.RootDotAllowed | src/http.cpp:367-374 | `localhost.` is allowed |
| Base64.Shift | src/crypto.cpp:129-134 | one digit through the wrapping accumulator emits what six more bits complete |
| Base64.Decode | src/crypto.cpp:113-139 | the loop decodes exactly the well-shaped texts whose digit count is not 1 modulo 4, to their bytes; for both alphabets |
| Base64.Encode | src/crypto.cpp:141-169 | the block loop and its two tails compute the encoding |
| Base64.RoundTrip | src/crypto.cpp:113-169 | decoding an encoding gives the bytes back although the accumulator wraps at 32 bits |
| Base64.FillerIgnored | src/crypto.cpp:120-126 | white space anywhere, and padding at the end, change nothing |
| Base64.UrlIsStandard | src/crypto.cpp:244-269 | the URL form is the standard one after rewriting its two symbols, which it refuses in their standard spelling |
| Base64.DigitsByTable | src/crypto.cpp:100-111 | the digits and their values are those of tables 1 and 2 of RFC 4648, and the encoder writes the first |
| Base64.RefusedExactlyWhen | src/crypto.cpp:113-139 | a text is refused exactly for a byte that is neither a digit, white space nor an equals sign, for a digit after an equals sign, or for a number of digits one above a multiple of four |
| Base64.DecodesBits | src/crypto.cpp:113-139 | the decoded bytes are the digits' bits in order, as many whole bytes as they fill |
| Base64.EncodesBits | src/crypto.cpp:141-169 | an encoding's digits are the bytes' bits in order, then zeros up to a whole digit |
| Base64.EncodingShape | src/crypto.cpp:141-169 | its length is a multiple of four, without white space, equals signs at the end only and as many as bytes lack to a group of three |
| Download.Downloader.WriteChunk | src/download.cpp:90-99 | the short-write loop appends, retries EINTR and stops at a failure as specified |
| Download.Downloader.Fetch | src/download.cpp:66-105 | the sink opens, truncates or appends, counts and reports as specified, over all chunks |
| Download.Downloader.DownloadToFile | src/download.cpp:39-151 | the whole attempt, with its order of error classification, reaches the specified files, log and outcome |
| Download.AttemptEnds | src/download.cpp:39-151 | for every world and environment: IoError when the sink fails to open or write; else Cancelled exactly when the flag is set; else FetchError exactly when the transfer did not finish or the status is not 2xx; else IoError exactly when a needed open, the sync or the rename fails or there is no part file; else Done; only Done touches the target |
| Download.AttemptLeaves | src/download.cpp:39-151 | the files left: the part file grown by exactly the bytes the write calls took, emptied for a good answer without a body, dropped after a 416, or moved to the target |
| Download.AttemptReports | src/download.cpp:76-99 | one progress report for each chunk stored whole, of the size reached and the size announced |
| Download.AttemptSafe | src/download.cpp:39-151 | whatever transport and disk do and whatever range a 206 carries, every state passed through has a prefix of the target for a part file, progress equals its size, and `dest` changes only on success and then is the target: the body, or the old part and the range carried |
| Download.TargetIsBodyExactlyWhen | src/download.hpp:107-113 | the target is the body exactly when the part file is a prefix of it and a 206 begins at the part's end and ends at the body's |
| Download.PrefixOfEveryBodyExactlyWhen | src/download.cpp:73-80 | a range appended to a prefix leaves a prefix of every body exactly when it begins at the offset, or is empty |
| Download.RunSafe | src/download.cpp:39-151 | over any run of attempts, finished, failed or killed at any event, whose 206 answers begin where they were asked to: the part file is absent or a prefix of the body and `dest` is untouched or what an answer reached |
| Download.RunPublishesBody | src/download.hpp:107-113 | and `dest` is untouched or the body if they also end where the body does |
| Download.RunPublishesBodyExactlyWhen | src/download.hpp:107-113 | an attempt of such a run that publishes, publishes the body only then |
| Download.TwoAttemptsSuffice | src/download.cpp:109-151 | from any state earlier attempts left, two fair attempts publish the body |
| Download.KeepsWhatItHas | src/download.cpp:73-123 | an attempt that does not publish gives up none of the bytes it set out from, unless a full answer or a 416 replaced them |
| Download.PublishedIsBodyExactlyWhen | src/download.hpp:107-113 | whatever part file was found, what is published is the present body exactly when the answer was full, or the part is a prefix of the body and the 206 begins at its end and ends at the body's |
| Download.ChangedBodySpliced | src/download.cpp:73-80 | a part file [1] continued by a body that now is [2, 3] is published as [1, 3] |
| Download.ShortRangePublished | src/download.cpp:122-149 | a part file [1] of the body [1, 2, 3], continued by a 206 that carries only [2], is published as [1, 2] |
| MergeTree.Disk.MergePath | src/download.cpp:622-643 | the recursion, renaming and removing on one disk, leaves the two places as specified and touches nothing else |
| MergeTree.Disk.MergeEntries | src/download.cpp:634-641 | so does the loop over entries, in any order |
| MergeTree.Disk.MoveShowDownloads | src/download.cpp:647-654 | the whole operation at depth 2, a missing old directory and equal ids included |
| MergeTree.DiskConserves | src/download.cpp:618-643 | on the disk a file of the old directory ends at its old or its new path, not both, with its content; files of the new directory and everything elsewhere stay as they were |
| MergeTree.MergeConserves | src/download.cpp:618-643 | for every path and any failures: an old file is afterwards under exactly one tree with its content, a new file never changes, and no file appears |
| MergeTree.MovesExactlyWhen | src/download.cpp:618-643 | whatever fails, a node moves exactly when its path reaches, within the depth, a free spot through directories both trees have, with no failure on the way |
| MergeTree.MovesWhole | src/download.cpp:618-643 | what moves does so with all that is in it; elsewhere the new tree keeps what it had and the old one gains nothing |
| MergeTree.GoesExactlyWhen | src/download.cpp:634-643 | a node is gone from the old tree exactly when it moved, or is a directory the merge went into, could remove and left nothing in |
| MergeTree.MergeOnceIsEnough | src/download.cpp:618-643 | without failures merging again moves nothing more |
| LocalFiles.ComponentIsOne | src/download.cpp:503-510 | a label's file name is always one path component: not empty, not . or .., without separators |
| LocalFiles.ComponentKeeps | src/download.cpp:503-510 | a label is its own component exactly when it is one already |
| LocalFiles.SameComponentExactlyWhen | src/download.cpp:503-510 | two labels share a component exactly when they differ at most in slashes, backslashes and underscores, or each is empty, a dot, two dots or ep |
| LocalFiles.SlashSharesAFile | src/download.cpp:503-510 | a/b and a_b |
| LocalFiles.ExtensionSane | src/download.cpp:533-558 | the extension is one to five lower-case letters or digits, for any link |
| LocalFiles.ExtensionExactly | src/download.cpp:533-558 | the extension is the one to five letters or digits after the last dot before the first ? or #, with no slash among them, in lower case; mp4 for a link that shows none or is HLS |
| LocalFiles.FoundExactlyFor | src/download.cpp:603-606 | a file answers a label exactly when it was written for that label's component and its extension is not part, dots in labels notwithstanding |
| LocalFiles.AnswersExactlyWhen | src/download.cpp:600-606 | an entry answers exactly when it is a regular file named by the stem, a dot and an extension without dots that is not part |
| LocalFiles.InFlightNeverFound | src/download.cpp:600-606 | a transfer in flight answers no label |
| LocalFiles.DownloadFoundExactlyWhen | src/download.cpp:562-612 | what a download wrote is found again, and for its own component only, exactly when its link is not a direct one ending in .part before its first ? or #, in any letter case |
| LocalFiles.PartExtensionExactlyWhen | src/download.cpp:533-558 | the extension is part exactly for such a link |
| LocalFiles.PartDownloadLost | src/download.cpp:550-557 | https://h/v.part, whose download no label finds |
| LocalFiles.FindLocalEpisode | src/download.cpp:588-614 | the loop answers with the smallest matching path |
| LocalFiles.OrderDoesNotMatter | src/download.cpp:597-611 | whatever order the directory is read in |
| LocalFiles.BeforeExactlyWhen | src/download.cpp:607-611 | smaller is by character code at the first difference, the shorter first |
| Failover.LatchIsLastReport | src/catalog.cpp:46-78 | under every interleaving the latch is determined by the last AniList report alone; MAL outcomes leave no trace |
| Failover.PlansBy | src/catalog.cpp:303-314 | a plan tries MAL first exactly when the last AniList report failed less than 600 s ago, in auto mode with a MAL backend |
| Failover.Catalog.Move | src/catalog.cpp:133-170 | one move of a call, made through the shared state's own operations, is the specified step |
| Failover.Catalog.MoveAll | src/catalog.cpp:303-320 | so is any interleaving of moves |
| Failover.ChipTellsTruthExactlyWhen | src/catalog.hpp:113-117 | in every reachable state the chip is on if and only if the next ordinary call is made to MAL, exactly unless the retry time has passed or MAL mode lacks its backend |
| Failover.ChipWrongAfterRetry | src/catalog.hpp:113-117 | a reachable latched state in which it is wrong |
| Failover.ChipWrongWithoutBackend | src/catalog.hpp:113-117 | MAL mode without a backend: the chip is on and nothing is called |
| Failover.AlwaysDisciplined | src/catalog.cpp:133-170 | in every reachable state each call has planned, called and reported exactly as its phase says, and ends in the result its reports call for |
| Failover.CallsBounded | src/catalog.cpp:133-170 | a call reaches at most two backends, the second only after the first failed; a negative id reaches MAL only |
| Failover.FailsOnlyAfterBoth | src/catalog.cpp:146-170 | in auto mode with a MAL backend an ordinary call fails only after both sources were called and failed, under every interleaving |
| Failover.AbsencesConfirmed | src/catalog.cpp:377-391 | an id is remembered absent only after AniList was asked, and then heals end without any call |
| Answers.ReportsWhatWasAnswered | src/catalog.cpp:133-170 | over every interleaving a call's acts are, for each answer a backend gave it, the call and then the report of that very answer |
| Answers.EndsAsAnswered | src/catalog.cpp:146-170 | a call ends with a source's data exactly when its last call, to that source, was answered well; after two failures it names the second source exactly when that did not say unsupported; a heal ends absent exactly when AniList's good answer was that there is nothing |
| Answers.EndsUnanswered | src/catalog.cpp:133-145 | the only ways to end without an answer: no MAL backend, unsupported, known to be absent |
| Answers.AbsentExactlyWhen | src/catalog.cpp:377-391 | an id is remembered absent exactly when a heal of it was given that answer and has noted it |
| Answers.EveryPlanIs | src/catalog.cpp:303-314 | every plan of every run, first source and second: MAL first exactly in MAL mode, or in auto mode with a backend less than 600 s after a last AniList report that failed |
| Mirror.PushMirror | src/mal_mirror.cpp:7-84 | the loop reaches the specified summary, store and log |
| Mirror.AllCountedIffFinished | src/mal_mirror.cpp:19-83 | pushed, failed and skipped add up to dirty exactly when the run was not stopped |
| Mirror.EndsExactlyWhen | src/mal_mirror.cpp:19-84 | a run ends Unauthorized exactly when the first row that stops it meets a 401, RateLimited exactly when a 429, on its read or, its snapshot agreeing, on its write; with a store error exactly when the store refuses to note one; else Finished |
| Mirror.CountsExactly | src/mal_mirror.cpp:19-84 | up to there each row accepted and noted is counted as pushed, each that met any other error as failed, each whose entry disagreed as skipped |
| Mirror.EveryWriteGuarded | src/mal_mirror.cpp:22-68 | each write follows a read of the same row that its snapshot does not contradict, touches that entry alone and leaves a withheld score |
| Mirror.ChangeLostExactlyWhen | src/mal_mirror.hpp:20-22 | over two runs: a write replaces what changed on MAL since the row was accepted exactly when it changed between read and write in what the mirror believes, or an entry appeared after an empty read, or the score had been withheld and differs from the one then shown and the one now sent |
| Mirror.LostWithoutARaceExactlyWhen | src/mal_mirror.hpp:20-22 | where the write finds what was read, exactly in the last case |
| Mirror.EditOverwritten | src/mal_mirror.cpp:20-68 | an edit that is overwritten and counted as pushed |
| Mirror.WithheldScoreOverwritten | src/mal_mirror.cpp:50-68 | a rating overwritten without any race and counted as pushed |
| Mirror.ColumnIsWhatWasSent | src/mal_mirror.cpp:62-71 | after any run the snapshot column holds what was sent for exactly the accepted rows and is untouched elsewhere |
| Mirror.AcceptedRowPassesNext | src/mal_mirror.cpp:33-72 | a row accepted in one run is clean and passes a later run's guard exactly when MAL still shows what was sent, or nothing |
| Mirror.UnmarkedRowSkippedExactlyWhen | src/mal_mirror.cpp:33-72 | a row written on MAL but not noted keeps its snapshot, and a later run that finds row and entry as they were left skips it and leaves it so exactly when the snapshot believed something else than what was sent |
| Mirror.OwnWriteTakenForAnEdit | src/mal_mirror.cpp:33-72 | a dirty row whose own write contradicts its snapshot |
| Mirror.LostReplyTakenForAnEdit | src/mal_mirror.cpp:33-72 | so it is when the reply of a write that took effect was lost |
| Mirror.PullMirror | src/mal_mirror.cpp:86-160 | the pull makes the specified requests and ends as specified |
| Mirror.RenewedAtMostOnce | src/mal_mirror.cpp:95-128 | the stored sign-in is renewed at most once, later fetches use the renewed token, a refused one is not retried |
| Mirror.PullEndsExactly | src/mal_mirror.cpp:86-160 | the pull's outcome, its failed flag and the pair handed back, each by when it is so |
| Mirror.PullAsksExactly | src/mal_mirror.cpp:86-160 | the requests made, in order |
| Mirror.RenewedPairHandedBackExactlyWhen | src/mal_mirror.cpp:115-160 | the renewed pair is returned exactly when the store does not refuse a fetched list |
| Mirror.RenewedPairLost | src/mal_mirror.cpp:155-156 | a concrete pull that loses it |
| Labels.LabelLess | src/animehub.cpp:393-412 | one label is less than another if and only if its rational value is, whatever their lengths |
| Labels.CompareFractions | src/animehub.cpp:406-411 | the digit loop compares the fractions' values |
| Labels.LexIsNumeric | src/animehub.cpp:404-405 | for equally long digit strings the string order is the numeric order |
| Labels.ValidLabel | src/animehub.cpp:376-391 | admits exactly the well-formed labels of at most 16 characters |
| Labels.WellFormedExactlyWhen | src/animehub.cpp:376-391 | a label is digits, or digits, a dot and digits |
| Labels.FractionIsQuotient | src/animehub.cpp:406-411 | its fraction is the numeral after the dot over that power of ten |
| Labels.PaddingIgnored | src/animehub.cpp:393-412 | leading zeros and zeros after the fraction change no label's value |
| Labels.WholeIsWhole | src/animehub.cpp:393-412 | neither does a fraction of zeros only |
| Episodes.ParseEpisodes | src/anidbapp.cpp:342-375 | the filter, sort and deduplication compute the specified list |
| Episodes.FirstListedWins | src/anidbapp.cpp:366-374 | numbers strictly increase, and the episode kept for a number is the first one listed |
| Episodes.ListedExactlyWhen | src/anidbapp.cpp:354-374 | on the rows: an episode is in the list exactly when its number is from 1 to 2^32 - 1 and the first row with that number and a positive id has its id |
| Episodes.ParsedListable | src/anidbapp.cpp:354-374 | numbers lie in 1 to 2^32 - 1 |
| Episodes.Resolve | src/anidbapp.cpp:640-663 | the digit loop and the scan compute the specified lookup without overflow |
| Episodes.ResolvesExactly | src/anidbapp.cpp:640-663 | a label resolves to an episode exactly when it spells the episode's number counted from the list's first |
| Episodes.RefusedExactlyWhen | src/anidbapp.cpp:640-663 | a label is refused exactly when it is no numeral, is worth 0, or counts past 2^32 - 1; any other is unknown exactly when no episode has the number it counts to |
| Episodes.LabelsResolve | src/anidbapp.cpp:610-633 | every listed label resolves to the episode it was listed for, in both tracks, and the first is 1 |
| Episodes.LabelCounts | src/anidbapp.cpp:610-633 | an episode's label is its number counted from the list's first |
| Episodes.DubPrefix | src/anidbapp.cpp:496-520 | for any answers: nothing exactly when the first is not dubbed, else a boundary; fails exactly on a failed question; at most 2 + ceil(log2 n) questions |
| Episodes.CeilLog2Is | src/anidbapp.cpp:508-518 | the bound's logarithm is the ceiling one |
| Episodes.PrefixHasOneBoundary | src/anidbapp.cpp:508-519 | when the dub is a prefix, the boundary is its last episode |
| Entities.EntityChar | src/anidbapp.cpp:55-88 | the entity's code point; the 32-bit accumulator never wraps |
| Entities.NamesAgreeExactlyWhen | src/anidbapp.cpp:56-61 | it knows HTML's names amp, lt, gt, quot, apos and nbsp and no others, each with HTML's code point exactly unless it is nbsp |
| Entities.NoBreakSpaceDecodes | src/anidbapp.cpp:56-61 | the no-break space becomes a plain one |
| Entities.DecodeEntities | src/anidbapp.cpp:255-280 | the loop computes the specified decoding |
| Entities.AnyEscapingDecodes | src/anidbapp.cpp:55-108 | every escaping of any text, by name, in decimal or in hexadecimal, decodes to the text |
| Entities.UndoesEscaping | src/anidbapp.cpp:255-280 | each entity is replaced once and its characters are not looked at again |
| Entities.OneLevelAtATime | src/anidbapp.cpp:255-280 | doubly escaped text comes back escaped once |
| Entities.NoAmpersandNoChange | src/anidbapp.cpp:259-263 | text without an ampersand is unchanged |
| Entities.NumericDecodesExactlyWhen | src/anidbapp.cpp:62-87 | a numeric entity decodes exactly up to nine characters and 0x10FFFF, else stays as written |
| Entities.OthersStay | src/anidbapp.cpp:55-88 | an entity that is neither one of the six names nor a number stays as written |
| Rfc3629.DecodesWellFormedExactlyWhen | src/anidbapp.cpp:90-108 | well-formed UTF-8 decodes to well-formed UTF-8 exactly when no entity that is replaced names a surrogate |
| Rfc3629.WellFormedExactlyWhen | src/anidbapp.cpp:90-108 | an encoding of code points is well formed exactly when none is a surrogate |
| Rfc3629.LoneSurrogateDecodes | src/anidbapp.cpp:55-108 | a well-formed text whose decoding is not |
| Hls.SelectVariant | src/hls.cpp:153-160 | picks the promised variant: best within the rung, else the lowest known, else the first; earliest of ties |
| Hls.ChosenOnce | src/hls.cpp:83-93 | that promise determines the variant |
| Hls.ChosenUnderRung | src/domain.hpp:101-110 | under 1080p, 720p or 480p: the highest height up to 1080, 720 or 480, the lowest when all are above it; the first listed of those that tie |
| Hls.ChosenWithoutRung | src/hls.cpp:83-93 | without a rung the highest height, for Worst the lowest |
| Hls.StreamInfHeight | src/hls.cpp:38-57 | reads the height as specified without overflow |
| Hls.PrintedHeight | src/hls.cpp:40-57 | a printed height comes back exactly up to 4294967289 |
| Hls.NoSizeNoHeight | src/hls.cpp:40-57 | no height without an x after the key, or without a digit after the x |
| Hls.AttributeFoundExactlyWhen | src/hls.cpp:38-48 | the height is read at the RESOLUTION attribute exactly when no attribute before it has the key in its value, quoted or not, or a longer name ending in it |
| Hls.AttributeHeight | src/hls.cpp:38-57 | and then it is the attribute's |
| Hls.QuotedHeightRead | src/hls.cpp:38-57 | a size quoted in an earlier attribute is read instead |
| Hls.NineRead | src/hls.cpp:38-57 | one such tag |
| Hls.TallestRefused | src/hls.cpp:40-57 | 4294967290, which fits 32 bits, does not |
| Hls.ParseMasterPlaylist | src/hls.cpp:97-120 | the line loop computes the specified list |
| Hls.PrintedReads | src/hls.cpp:59-115 | every text of a blank line, a comment, a tag with or without a height, or an address, with blanks and CR around it, is read as that line |
| Hls.ParsesPrinted | src/hls.cpp:97-120 | any text that prints a variant list is parsed to it in order, whatever blank lines, comments and stray lines are interleaved |
| Hls.RoundTrip | src/hls.cpp:97-120 | printing any list of addresses with heights up to 4294967289 or none and parsing the text gives the list |
| Hls.ReadsExactly | src/hls.cpp:97-120 | in the playlist's own words: a tag that prints any height and an address line give that variant, without a height above 4294967289 |
| Hls.TagLine | src/hls.cpp:59-67 | blanks and CR around a tag change nothing |
| Hls.AddressLine | src/hls.cpp:59-67 | nor around an address |
| Hls.TrimExactly | src/hls.cpp:59-67 | trimming takes away the spaces, tabs and CR around a text and nothing else |
| IdMap.ToAnilist | src/idmap.cpp:30-47 | the binary search is the linear scan over any sorted table |
| IdMap.ByAnilist | src/idmap.cpp:15-27 | the reverse index holds exactly the table's pairs, sorted |
| IdMap.ToMal | src/idmap.cpp:49-58 | the indexed lookup is the linear scan |
| IdMap.SearchesByPairs | src/idmap.cpp:30-58 | for any ids, one direction finds the paired id, the other the least paired id, and only those |
| IdMap.AskedForBy | src/catalog.cpp:190-194 | a show is asked for by the caller's id if it is positive, else its own if synthetic, else the least paired one |
| IdMap.ThereAndBack | src/catalog.cpp:190-194 | a stored id leads back to the show's own MyAnimeList id when synthetic, else to one paired with the same AniList id |
| IdMap.SyntheticIdsDistinct | src/idmap.cpp:64-67 | two shows share a stored id only when the table pairs both with it |

## Left out

- MergeTree.Disk.MergePath: changes by others between `lstat` and `rename`, and entries that are neither files nor directories, are not modelled.
- Download.RunSafe: assumes a body that does not change between attempts; Download.PublishedIsBodyExactlyWhen says what happens when it does. Loss of unsynced pages at a power cut, file modes and descriptor closing are not modelled. The identity content coding is assumed: the client offers others (`src/http.cpp:532`), and under one of them Content-Length and Range count encoded bytes while the part file holds decoded ones.
- Base64.Shift: shifts, masks and disjoint ors are written as products, quotients, remainders and sums, with the 32-bit truncation explicit; the same holds for the address words and the deny-list masks of Ipv4 and Ipv6.
- Failover.AlwaysDisciplined: backend answers, the clock and the scheduler are arbitrary choices; the error texts and the payloads are not modelled.
- Mirror.PushMirror: the client, the store and the refresher are arbitrary answers; the conversion of scores is not modelled.
- Episodes.ParseEpisodes: starts from rows already decoded from JSON; integers beyond 64 bits are not modelled.
- LocalFiles.ComponentIsOne: takes the label after `strip_controls`, which StripControls models on bytes; building the directory path is not modelled.
- Guard.CheckHost: takes the host after scheme, userinfo and port were cut off; that cutting, and what a URL parser does to the whole text before it, is not modelled. Of domain to ASCII, Whatwg.MapsTo has the ASCII letters, full-width digits and ideographic full stops; its answer on other hosts is arbitrary.
- Labels.LabelLess: the sort and the removal of adjacent duplicates that use it are not modelled.
- libcurl, TLS impersonation, OpenSSL, ffmpeg and mpv: outside the program's own logic.
- JSON and HTML scraping, SQLite, sync, settings files and the terminal interface.
- `merge_cards`, slug checks, schedule notices and aired-episode counts: single-branch claims that would only add easy members.
