# Gabriel, modelled in Dafny

Gabriel is an API workbench: a capturing proxy, a request runner and a command line
around them. This project models the algorithms underneath and proves what they are
for. `dafny verify dfyconfig.toml` checks everything.

How the model is laid out, hardest parts first:

- **Redirect engine.** `Redirects` has the request loop of `execute` twice: as a
  method over mutable jars, and as the list of states in which a run sends its
  requests; the method is proved to send exactly what the states say. The server is an
  arbitrary script of replies, and `join` and the date reader are arbitrary functions.
  `RedirectRuns` gives method, body and headers of every request in closed form,
  `RedirectCookies` says exactly which cookies each one carries, and `RedirectRules` reads
  the rules off the trace: which hops are taken, what goes on and how a run ends.
- **Cookies.** `Cookies` reads a `Set-Cookie` value and decides which requests it goes
  to, and `CookieAttributes` says what each attribute makes of it and who gets it;
  `Jar` shows that the list of cookies behaves as a map; `CookieOrder` and `CookieRuns`
  say where it departs from the standard's order, for one cookie set again and for whole
  runs; `Sessions` is the mutable store of jars by session name.
- **Capture log.** `CaptureLog` is the backward scan in chunks with its carried tail
  and early exit, proved equal to splitting the whole file and reversing it.
  `CaptureFilters` says which captures a query wants. `Store` is the class with its cached
  handle over a file that `clear` unlinks; `ImportedIds` has ids that hide others.
  `LineCodec` is a small line format that stands for the JSON of a line.
- **Calendar and instants.** `Calendar` has the closed era formulas against a count of
  years, months and leap days. `IsoTime` prints and parses instants; `IsoSpellings` covers
  the other zones, separators and fractions that the parser takes.
- **JSON diff and path.** `Diff` walks two documents, `Patch` applies the changes again,
  `DiffPaths` is about where they point and what they print, `JsonPath` is the parser and
  the lookup, `DiffSelect` and `PathRoundTrip` join the two languages, and `QuotedPaths`
  reads keys quoted between brackets.
- **Templates.** `Resolution` is the bounded resolver with its stack; `TemplateText` says
  what a template is made of and what each part becomes; `Substitution` is the unbounded
  meaning it agrees with. `Redaction` masks secrets, and `Masking` says which stretches.
- **Promotion.** `Promotion` turns a capture into a request file, `PromotionMeaning`
  resolves that file again, `PromotedUrl` says for which variable names its URL comes back,
  `ResolvedMaps` and `PromotedHeaders` do the same for headers and query, and
  `PromotionPrivacy` compares the files of two captures. `PromotedBodies` follows the body
  into the file and out again, `PromotedParts` origin, query and suggested names, and
  `SentAuth` what authentication adds.
- **Formats.** `Sse`, `SseEvents`, `SseStandard` and `SseStream` (event streams, the last
  from bytes to events), `Curl` and `CurlRequests` (printing, with a POSIX shell lexer and
  curl's options to read it back), `Utf8`, `Percent`, `PercentText`, `Forms` and `OAuth`
  (percent codecs), `Har` and `HarEntries` (export and import).
- **Shared.** `Text`, `Characters`, `Marks` (where one text stands in another),
  `Decimal`, `Hexadecimal`, `Sorting`, `OrderedMap` (`BTreeMap` as an ascending list),
  `FieldMaps`, `Captures`, `Json`.

A Rust `str` is a sequence of characters, which in Dafny as in Rust are Unicode scalar
values; where the source works on bytes, so does the model. Clocks are parameters. A
method whose contract equates its result with a function is proved against that
function, and the lemmas listed beside it say what the function means.

Where the code differs from what it says or cites:

- A cookie set again moves behind cookies of the same path length set since, where
  section 5.3 of RFC 6265 keeps the old creation time (`CookieOrder.SetTwiceHeader`;
  `CookieOrder.ReplacedOrderIff` says when the same cookies are sent in the same order, and
  `CookieRuns.RunOrderIff` does so for any run of arrivals).
- `get` documents a unique prefix, but for an ambiguous one it returns the newest
  capture whose id starts with it, even when an older capture has just that id, as ids of
  one archive do past 65536 entries (`ImportedIds.EarlierEntryIsMissed`,
  `ImportedIds.AmbiguousStartGivesNewest`; `Store.FirstMatchIff` says when a capture is
  found).
- A change of the whole document is reported at `$`, which the path language rejects
  (`DiffSelect.RootPathIsRejected`); `PathRoundTrip.ParseOfPrintIff` says which printed
  paths read back.
- Texts of instants on either side of the year 10000 need not sort by time
  (`IsoTime.FiveDigitYearsSortFirst`; `IsoTime.FormatOrderIff` says which pairs do), and a
  HAR export is in order of time exactly while they do (`Har.BuildSortsByTimeIff`).
- A GET request with a body is printed as a command that curl sends as POST
  (`CurlRequests.MethodKeptIff`).
- Decoding a query or a form fails where a `%` stands in front of certain characters of
  several bytes, as in `100%` and a euro sign (`PercentText.EuroFails`;
  `PercentText.DecodeFailsIff` says in front of which).
- A secret that is a part of the word "redacted" survives in the mask itself
  (`Redaction.MaskShowsItsWord`, `Redaction.RedactionCleanIff`).
- A promoted file that refers to its origin by a name that is not read whole, or that a
  generator answers, does not resolve to the captured URL, unless the name is made of
  references to a secret that spells the origin (`PromotedUrl.GeneratedNameFails`,
  `PromotedUrl.UrlSurvivesIff`).
- The event-stream parser departs from section 9.2.6 of the WHATWG HTML standard: it
  dispatches blocks without a data line, be it a name, an id or a retry time they set
  (`SseStandard.NameAloneIsDispatched`, `SseStandard.DispatchIff`); a CR alone ends no
  line and a byte order mark is kept (`SseStandard.CrAloneEndsNoLine`,
  `SseStandard.MarkStays`, `SseStandard.LinesAgreeIff`); a retry time may have a `+` in
  front but must fit 64 bits (`SseStandard.RetryAgreesIff`); and `finish` gives the event
  a stream broke off in, exactly when a field of it was set (`SseStream.FinishGivesIff`).
  `SseStream.FinishedStreamAgreesIff` puts these together.

## Model

| member | source | states |
|---|---|---|
| Redirects.Execute | crates/gabriel-engine/src/lib.rs:352-459 | for every script of replies, the requests sent, the ending, the hops recorded and the sessions left are those of the run's states |
| Redirects.CookieForHop | crates/gabriel-engine/src/lib.rs:497-517 | the header for one hop merges the inherited session's matching cookies with the chain's |
| Redirects.MergeHeaders | crates/gabriel-engine/src/lib.rs:151-171 | the loop over pairs keeps the fresher header whole and of the other the pairs whose name it lacks |
| Redirects.RecordReply | crates/gabriel-engine/src/lib.rs:394-414 | a reply's cookies go to the chain's jar always and to the session's only when recording is on |
| RedirectRuns.RequestsBounded | crates/gabriel-engine/src/lib.rs:416-420 | no run sends more than `max_redirects + 1` requests |
| RedirectRuns.HopsCount | crates/gabriel-engine/src/lib.rs:436-440 | request i has exactly i hops recorded behind it, and never more than the limit |
| RedirectRuns.RunCarries | crates/gabriel-engine/src/lib.rs:443-459 | request i has method, body and headers of the first, narrowed exactly so: GET without body and content type once a 301 to 303 turned another method, credentials only while every request stayed on one origin |
| RedirectRuns.RequestAt | crates/gabriel-engine/src/lib.rs:358-374 | the trace has one request for each state, in order |
| RedirectRules.RequestIs | crates/gabriel-engine/src/lib.rs:352-459 | request i has the first one's headers in their order, less the four credential headers once some request up to it left the first one's scheme, host or port, and less the content type once a 301, 302 or 303 turned another method into GET without body; then the hop's cookies |
| RedirectRules.CredentialsStayHome | crates/gabriel-engine/src/lib.rs:177-192 | a header named authorization, cookie, proxy-authorization or www-authenticate is in request i if and only if every request up to i went to the first one's scheme, host and port; otherwise none of the four is |
| RedirectRules.NextRequestIff | crates/gabriel-engine/src/lib.rs:416-440 | there is a next request if and only if the status is 301, 302, 303, 307 or 308, redirects are wanted and left, and the first location joins; it goes there, and the hop is recorded |
| RedirectRules.RunEndsAs | crates/gabriel-engine/src/lib.rs:371-434 | a run ends with the last reply's status, with a location that does not join, or with an error where no reply or no whole body came |
| RedirectRules.ReplySets | crates/gabriel-engine/src/lib.rs:381-392 | the cookies of a reply are the values of its `Set-Cookie` headers, in any case of the name and in order |
| RedirectRules.PairName | crates/gabriel-engine/src/lib.rs:156-160 | a pair of a `Cookie` header is for the trimmed text before its first `=` |
| RedirectRules.ReplyRecorded | crates/gabriel-engine/src/lib.rs:394-414 | a reply's cookies go to the chain's jar, and to the session's where that is wanted, as coming from the host and path asked |
| RedirectRules.HopCookiesIff | crates/gabriel-engine/src/lib.rs:497-517 | a request gets exactly the lasting cookies for its host, path and scheme of the chain's jar, and of the session named or the run's own if it asked for one |
| RedirectRules.SecureOnlyOverHttps | crates/gabriel-engine/src/lib.rs:497-517 | a cookie set with `Secure` is in no request to another scheme than https |
| RedirectCookies.ChainJar | crates/gabriel-engine/src/lib.rs:352-402 | the chain's jar at request i is what the replies before it set, in order |
| RedirectCookies.ChainCookieIff | crates/gabriel-engine/src/lib.rs:497-517 | request i carries a chain cookie if and only if some earlier `Set-Cookie` set it alive, none since had its name, domain and path, and it is unexpired and matches the URL |
| RedirectCookies.ChainCookiesStayInScope | crates/gabriel-engine/src/lib.rs:395-402 | every chain cookie was set by an earlier hop on the same host, or on a host of the same claimed dotted domain |
| RedirectCookies.MergeIsOverride | crates/gabriel-engine/src/lib.rs:151-171 | merging the printed headers is sending the fresher cookies and then those others whose name no fresher cookie has |
| RedirectCookies.HopCookieIsOverride | crates/gabriel-engine/src/lib.rs:497-517 | in every request of every run a session cookie is dropped exactly when a chain cookie has its name |
| RedirectCookies.SplitOfPairs | crates/gabriel-engine/src/lib.rs:151-171 | a printed `Cookie` header splits back into its pairs |
| Cookies.Parse | crates/gabriel-engine/src/session.rs:46-103 | the attribute loop computes the reading that the lemmas below are about |
| Cookies.ParsedIsScoped | crates/gabriel-engine/src/session.rs:46-103 | a cookie read is host-only for the request's host or has a dotted domain that host belongs to, and its name and value split back out of a header |
| CookieAttributes.ParsedIs | crates/gabriel-engine/src/session.rs:46-103 | for any name, value and attributes: a cookie is read unless the name is blank or a domain is foreign; the last `Max-Age` that is a number sets the expiry, otherwise the last `Expires`; the last absolute `Path` or the request's directory; the last `Domain` without leading dots or the host alone; `Secure` and `HttpOnly` exactly when named |
| CookieAttributes.NothingParsed | crates/gabriel-engine/src/session.rs:48-48 | without `=` before the first `;` no cookie is read |
| CookieAttributes.AttributeReads | crates/gabriel-engine/src/session.rs:68-71 | an attribute is a lower-cased name and a value around its first `=`, both trimmed |
| CookieAttributes.DotsDropped | crates/gabriel-engine/src/session.rs:74-74 | leading dots of a domain do not count |
| CookieAttributes.DirectoryOf | crates/gabriel-engine/src/session.rs:153-161 | the default path is all before the last slash, or the root |
| CookieAttributes.StoredIff | crates/gabriel-engine/src/session.rs:253-261 | of one name, domain and path a jar keeps the cookie stored last, while it lasts, and every other cookie stays |
| CookieAttributes.SentIff | crates/gabriel-engine/src/session.rs:105-121 | a request gets exactly the cookies that last, are for its host and path, and are not for https alone when it is not https |
| Cookies.DomainIsLabelSuffix | crates/gabriel-engine/src/session.rs:132-140 | a host matches a domain if and only if the domain's labels are the host's last labels |
| Cookies.PathIsSegmentPrefix | crates/gabriel-engine/src/session.rs:142-151 | a path matches if and only if it is the cookie's path or has its segments in front of further ones |
| Cookies.DefaultPathMatches | crates/gabriel-engine/src/session.rs:153-161 | a cookie without `Path` is eligible for the path that set it, exactly when that path is absolute |
| Jar.InsertUnique | crates/gabriel-engine/src/session.rs:253-261 | storing keeps at most one cookie per name, domain and path |
| Jar.InsertRefinesMap | crates/gabriel-engine/src/session.rs:253-261 | storing is writing a map: a live cookie replaces, an expired one deletes |
| Jar.RecordUnique | crates/gabriel-engine/src/session.rs:264-279 | any number of `Set-Cookie` values keeps one cookie per identity |
| Jar.RecordedIffSetLast | crates/gabriel-engine/src/session.rs:253-279 | a jar holds a cookie if and only if some arrival set it alive and no later one had its identity, or it was there before and none replaced it |
| Jar.MatchingIsStableOrder | crates/gabriel-engine/src/session.rs:282-307 | the header lists exactly the live matching cookies, longest path first, ties in the order of the jar |
| Jar.PruneChangesNoHeader | crates/gabriel-engine/src/session.rs:310-319 | dropping expired cookies changes no header from then on, whatever cookies are stored in between |
| CookieOrder.ReplacedCookieMovesLast | crates/gabriel-engine/src/session.rs:253-261 | a cookie set again goes behind cookies set since, where its old place is in front |
| CookieOrder.ReplacedOrderIff | crates/gabriel-engine/src/session.rs:253-300 | setting a live cookie again sends the same cookies in the same order as keeping its place if and only if it is not sent or no cookie sent from behind its old place has a path as long |
| CookieOrder.SetTwiceHeader | crates/gabriel-engine/src/session.rs:253-307 | a server that sets a, b and a again gets `b=2; a=3`, where keeping the place would send `a=3; b=2` |
| CookieRuns.RunOrderIff | crates/gabriel-engine/src/session.rs:253-300 | after any arrivals, what a request gets is what a jar that keeps places as RFC 6265 asks would send, in the same order, if and only if no two cookies sent with paths as long were first set in one order and last set in the other |
| CookieRuns.RunsOrdered | crates/gabriel-engine/src/session.rs:253-279 | after any arrivals both jars hold the same cookies, this one in the order they were last set, the other in the order they were first set since the jar last held no live one |
| Sessions.SessionStore.InsertOne | crates/gabriel-engine/src/session.rs:253-261 | one session's jar gets the cookie, the others and the invariant stay |
| Sessions.SessionStore.RecordSetCookies | crates/gabriel-engine/src/session.rs:264-279 | the loop stores every value that parses, in order, touches nothing when none does, and counts those that parse |
| Sessions.SessionStore.CookieHeader | crates/gabriel-engine/src/session.rs:282-307 | the header of a session's matching cookies, and none when nothing matches |
| Sessions.SessionStore.Prune | crates/gabriel-engine/src/session.rs:310-319 | every session keeps exactly its live cookies, and the number returned is that of the expired ones over all sessions |
| Sessions.RecordIntoKeeps | crates/gabriel-engine/src/session.rs:264-279 | recording into one session leaves every other session's jar alone and all jars unique |
| Sorting.SortStable | crates/gabriel-engine/src/session.rs:299-300 | elements that compare equal keep their order |
| Sorting.SortOrdered | crates/gabriel-engine/src/session.rs:299-300 | the result is ordered and a permutation |
| CaptureLog.ScanBackwards | crates/gabriel-proxy/src/store.rs:170-236 | for every content, chunk size and visitor, the backward scan visits what the reversed list of decodable lines gives, up to the first capture the visitor refuses |
| CaptureLog.VisitLines | crates/gabriel-proxy/src/store.rs:217-226 | the complete lines of a stretch are visited last line first |
| CaptureLog.VisitIsCut | crates/gabriel-proxy/src/store.rs:170-236 | a visit sees a prefix, the whole if never refused, and otherwise ends just at the first capture refused |
| CaptureLog.CarryOver | crates/gabriel-proxy/src/store.rs:202-215 | cutting a chunk at its first LF loses, repeats and splits no line |
| LineCodec.DecodeEncode | crates/gabriel-proxy/src/store.rs:100-108 | a line written reads back as the capture, has no LF and is not empty |
| Store.AppendKeeps | crates/gabriel-proxy/src/store.rs:100-123 | appending adds one capture to the linked file and writes to no other |
| Store.ClearKeeps | crates/gabriel-proxy/src/store.rs:238-251 | clearing empties the log and leaves every file's bytes |
| Store.HistoryRefinesLog | crates/gabriel-proxy/src/store.rs:100-251 | after any run of appends and clears the log holds the captures appended since the last clear, and a file not linked at any moment of the run keeps its bytes from then on and is never linked again |
| Store.CollectIsFilter | crates/gabriel-proxy/src/store.rs:126-141 | the collecting visitor gathers the first n matches |
| Store.SeekIsFirst | crates/gabriel-proxy/src/store.rs:143-153 | the seeking visitor finds the first match |
| Store.TallyCounts | crates/gabriel-proxy/src/store.rs:155-162 | the counting visitor counts every capture |
| Store.FirstMatchIff | crates/gabriel-proxy/src/store.rs:143-153 | the start of an id, or all of it, gives that capture if and only if no newer id starts so |
| ImportedIds.IdsNest | crates/gabriel-core/src/har.rs:427-430 | past 65536 entries of one archive an id is the start of another |
| ImportedIds.EarlierEntryIsMissed | crates/gabriel-proxy/src/store.rs:143-153 | with both in the log, asking for the earlier entry by its own id gives another capture |
| ImportedIds.AmbiguousStartGivesNewest | crates/gabriel-proxy/src/store.rs:143-153 | an ambiguous start of an id is not refused and gives the newer capture |
| Store.CaptureStore.Append | crates/gabriel-proxy/src/store.rs:100-123 | the handle is reopened when needed and the capture becomes the newest |
| Store.CaptureStore.Clear | crates/gabriel-proxy/src/store.rs:238-251 | the cached handle is dropped with the file, and the log is empty |
| Store.CaptureStore.List | crates/gabriel-proxy/src/store.rs:126-141 | the first `limit` matches, newest first; with room for all, exactly the captures whose URL's host, URL, method, session and status are what the filter asks |
| Store.CaptureStore.Get | crates/gabriel-proxy/src/store.rs:143-153 | the newest capture whose id starts with the one asked for |
| Store.CaptureStore.Count | crates/gabriel-proxy/src/store.rs:155-162 | the number of captures in the log |
| CaptureFilters.MatchesIff | crates/gabriel-proxy/src/store.rs:56-86 | a filter takes a capture if and only if its text stands within the URL's host, its other text within the URL, the method is the same up to case, the session is the same, and the status is there and within the bounds |
| CaptureFilters.PartsExist | crates/gabriel-core/src/capture.rs:235-243 | every URL has a host: what stands behind its first `://`, or at its start, up to a `/`, `?` or `#` |
| Calendar.CivilFromDaysInverts | crates/gabriel-core/src/lib.rs:83-94 | every day number gives a valid date, whose day number it is, negative eras included |
| Calendar.DaysFromCivilInverts | crates/gabriel-core/src/lib.rs:200-208 | every valid date comes back from its day number |
| Calendar.DaysFromCivilCounts | crates/gabriel-core/src/lib.rs:200-208 | the closed form equals a recursive count of years and months with leap years |
| Calendar.DaysFromCivilMonotone | crates/gabriel-core/src/lib.rs:200-208 | an earlier date has a smaller day number, and conversely |
| Calendar.QuotTruncates | crates/gabriel-core/src/lib.rs:83-94 | the division of the formulas truncates toward zero |
| Calendar.DatePartsAdds | crates/gabriel-core/src/lib.rs:77-80 | an offset in days moves the date by that many days, from the day an instant falls in |
| Characters.BlankIff | crates/gabriel-core/src/vars.rs:147-147 | the blanks that trimming takes off are those of the Unicode Standard |
| Characters.TrimIs | crates/gabriel-core/src/vars.rs:147-147 | blanks at both ends come off, and nothing between them |
| Characters.LoweredIs | crates/gabriel-engine/src/session.rs:54-54 | the letters A to Z become a to z, and nothing else changes |
| Decimal.NumbersRead | crates/gabriel-core/src/lib.rs:132-134 | digits with a sign or without are read while they fit 64 bits |
| Decimal.OthersRefused | crates/gabriel-core/src/lib.rs:132-134 | any other text is no number |
| IsoTime.ParseOfFormat | crates/gabriel-core/src/lib.rs:127-172 | every instant up to the largest 64-bit one is read back from its text |
| IsoSpellings.TextReads | crates/gabriel-core/src/lib.rs:127-170 | every date, clock with seconds and fraction, separator and zone reads as the instant it names if the fields are in their bounds and it is not before 1970, and is refused otherwise |
| IsoSpellings.PrintedReads | crates/gabriel-core/src/lib.rs:127-196 | a printed instant with another separator and an offset in place of the `Z` reads as that many minutes earlier |
| IsoSpellings.ZoneReads | crates/gabriel-core/src/lib.rs:174-196 | `Z`, `z`, no zone at all, and offsets as `+02:30`, `-0230` and `+02` give their minutes east of UTC |
| IsoSpellings.FractionReads | crates/gabriel-core/src/lib.rs:146-158 | a fraction of any length is cut or filled up to milliseconds |
| IsoSpellings.BlanksIgnored | crates/gabriel-core/src/lib.rs:128-128 | blanks around a text do not count |
| IsoSpellings.ClockReads | crates/gabriel-core/src/lib.rs:142-164 | a clock reads with seconds or without, and only within its bounds |
| IsoTime.FormatOrder | crates/gabriel-core/src/lib.rs:61-73 | before the year 10000, text order is time order |
| IsoTime.FormatOrderIff | crates/gabriel-core/src/lib.rs:61-73 | of any two instants the earlier one's text comes first if and only if their years have as many digits or the earlier year's digits come first as text |
| IsoTime.FiveDigitYearsSortFirst | crates/gabriel-core/src/lib.rs:61-73 | the first instant of the year 10000 sorts before the one a millisecond earlier |
| Diff.Differ.WalkInto | crates/gabriel-core/src/diff.rs:66-101 | the recursion that pushes onto one list appends exactly the walk of the two values |
| Diff.Differ.WalkFields | crates/gabriel-core/src/diff.rs:69-76 | the loop over the old object's fields appends their changes and removals |
| Diff.Differ.AddFields | crates/gabriel-core/src/diff.rs:77-81 | the loop over the new object's fields appends the ones added |
| Diff.Differ.WalkItems | crates/gabriel-core/src/diff.rs:83-90 | the loop over the old array appends changes and removals |
| Diff.Differ.AddItems | crates/gabriel-core/src/diff.rs:91-93 | the loop over the new array's end appends the items added |
| Patch.DiffIsPatch | crates/gabriel-core/src/diff.rs:60-101 | applying the diff of two documents to the first gives the second |
| Patch.DiffEmptyIffEqual | crates/gabriel-core/src/diff.rs:60-101 | the diff is empty if and only if the documents are equal |
| Patch.ApplyWalk | crates/gabriel-core/src/diff.rs:66-101 | at every place of a document, its share of the changes rebuilds what is there |
| DiffPaths.DiffPathsApart | crates/gabriel-core/src/diff.rs:66-101 | no two changes are at one place, and none is inside another |
| DiffPaths.WalkPoints | crates/gabriel-core/src/diff.rs:66-101 | following a change's steps in the two documents finds the reported values, or nothing on the missing side |
| DiffPaths.WalkPrints | crates/gabriel-core/src/diff.rs:103-109 | the printed path is the print of the steps |
| JsonPath.Parse | crates/gabriel-core/src/jsonpath.rs:40-91 | the character loop computes the recursive reading of a path |
| JsonPath.ReadBracket | crates/gabriel-core/src/jsonpath.rs:60-69 | the inner loop reads up to the next `]`, or reports that there is none |
| JsonPath.Select | crates/gabriel-core/src/jsonpath.rs:10-23 | the loop follows the parsed segments, missing ones giving nothing |
| DiffSelect.ParseOfPrint | crates/gabriel-core/src/jsonpath.rs:40-91 | a printed path of plain keys and indices reads back as its segments |
| DiffSelect.ChangePathSelects | crates/gabriel-core/src/jsonpath.rs:10-23 | selecting a change's printed path gives the reported value on either side, or nothing where it is missing |
| DiffSelect.RootPathIsRejected | crates/gabriel-core/src/jsonpath.rs:40-91 | the path `$`, which the diff reports for whole documents, is an error |
| PathRoundTrip.ParseOfPrintIff | crates/gabriel-core/src/jsonpath.rs:40-91 | a printed path reads back if and only if it is not empty, its keys are plain, it has no outer whitespace and does not start with `$` |
| QuotedPaths.QuotedPathReads | crates/gabriel-core/src/jsonpath.rs:60-82 | any path of indices and of keys quoted between brackets, whatever dots, blanks and opening brackets they hold, reads back |
| QuotedPaths.QuotedKeyIff | crates/gabriel-core/src/jsonpath.rs:72-78 | a quoted key reads back if and only if it is not empty, has no quote at its ends and is no number |
| QuotedPaths.BracketedIs | crates/gabriel-core/src/jsonpath.rs:72-78 | between brackets quotes do not count, a number is an index, any other text a key, and nothing an error |
| Resolution.Resolver.ResolveText | crates/gabriel-core/src/vars.rs:103-106 | resolving gives the result and records the secrets of the specification |
| Resolution.Resolver.ExpandText | crates/gabriel-core/src/vars.rs:125-154 | expansion terminates for every variable map with the stack as it was, on errors too |
| Resolution.Resolver.LookupName | crates/gabriel-core/src/vars.rs:156-199 | one name is looked up, pushed and popped, and a secret used is recorded |
| TemplateText.ScanParts | crates/gabriel-core/src/vars.rs:139-153 | every template is text alone, or text before a first `{{` without `}}` behind it, or text, a trimmed name up to the next `}}`, and the rest |
| TemplateText.ResolvePlain | crates/gabriel-core/src/vars.rs:134-137 | text without `{{` resolves to itself |
| TemplateText.ResolveOpen | crates/gabriel-core/src/vars.rs:144-146 | an open `{{` is an error that shows the template |
| TemplateText.ResolveParts | crates/gabriel-core/src/vars.rs:139-153 | text, a reference and a tail resolve to the text, what the name means up to 8 levels down, and what the tail resolves to, with the secrets of both; the first failure decides |
| TemplateText.SecretMeans | crates/gabriel-core/src/vars.rs:157-170 | `secret:` names a secret, recorded unless empty, or is an error |
| TemplateText.EnvMeans | crates/gabriel-core/src/vars.rs:172-180 | `env:` names a variable of the process where that is allowed |
| TemplateText.NameMeans | crates/gabriel-core/src/vars.rs:182-198 | any other name is a generator's, or a variable's, whose template is resolved one level down, never through itself and no deeper than 8 |
| Substitution.ResolveIsSubstitution | crates/gabriel-core/src/vars.rs:125-199 | an expansion succeeds if and only if substitution to that depth does, and then equals it with exactly the secrets it uses |
| Substitution.ExpandSound | crates/gabriel-core/src/vars.rs:125-154 | a result with a stack is the stackless substitution |
| Substitution.ExpandComplete | crates/gabriel-core/src/vars.rs:156-199 | the cycle check refuses nothing that substitution could finish |
| Substitution.RaisingTheLimit | crates/gabriel-core/src/vars.rs:38-38 | a template that resolves gives the same under any higher limit |
| Substitution.AcyclicResolves | crates/gabriel-core/src/vars.rs:125-199 | a template whose variables, as far as it reaches, are acyclic, defined, terminated and nested at most 8 deep always resolves |
| Substitution.ResolvesIffAcyclic | crates/gabriel-core/src/vars.rs:125-199 | a template resolves if and only if the variables it reaches can be ranked so |
| Substitution.CyclesNeverResolve | crates/gabriel-core/src/vars.rs:192-199 | a variable on a cycle fails under every limit |
| Substitution.SecretsAreTerminal | crates/gabriel-core/src/vars.rs:156-170 | secret text is put in verbatim and never expanded: other secret values give the same template with those values |
| Redaction.Redactor.constructor | crates/gabriel-core/src/vars.rs:219-224 | secrets shorter than 4 bytes are dropped, the rest kept in order |
| Redaction.Redactor.Apply | crates/gabriel-core/src/vars.rs:230-238 | the loop replaces every kept secret in turn |
| Redaction.ReplaceLeavesNone | crates/gabriel-core/src/vars.rs:230-238 | replacing removes the secret and never creates another one |
| Redaction.AppliedLeavesNone | crates/gabriel-core/src/vars.rs:230-238 | later replacements never bring an earlier secret back |
| Redaction.RedactionLeavesNothing | crates/gabriel-core/src/vars.rs:219-238 | no secret of 4 bytes or more without a bullet and outside the word "redacted" is left in any text |
| Redaction.RedactionCleanIff | crates/gabriel-core/src/vars.rs:219-238 | for bullet-free secrets the output is clean if and only if none occurred or none is part of "redacted" |
| Redaction.MaskShowsItsWord | crates/gabriel-core/src/vars.rs:230-238 | the secret "redacted" is still in the output of a text that holds it |
| Redaction.HeaderShowsNothing | crates/gabriel-core/src/vars.rs:397-425 | a displayed header shows no secret, and a credential header nothing of its value |
| Masking.OneSecretMasked | crates/gabriel-core/src/vars.rs:230-238 | a text is kept where the secret does not stand, and where it does it is the mask and nothing else that stands there |
| Masking.MaskedInOrder | crates/gabriel-core/src/vars.rs:230-238 | several secrets are masked one after another in their order |
| Masking.KeptIff | crates/gabriel-core/src/vars.rs:219-224 | secrets of four bytes or more count, in the order given |
| Curl.ToCurl | crates/gabriel-cli/src/codegen.rs:21-56 | the parts pushed are those of the specification, joined on one line or several |
| Curl.LexQuote | crates/gabriel-cli/src/codegen.rs:60-62 | a quoted value is one unchanged stretch of one word, whatever it contains |
| Curl.JoinedRead | crates/gabriel-cli/src/codegen.rs:51-56 | both joiners separate words and do nothing else |
| Curl.ShellReadsRequest | crates/gabriel-cli/src/codegen.rs:21-62 | under a lexer for sections 2.2.1 and 2.2.2 of the POSIX shell language, both forms give the redacted request's own argument list |
| CurlRequests.CommandAsks | crates/gabriel-cli/src/codegen.rs:21-56 | read as curl reads its options, the words ask for the method unless it is GET, the redacted URL, the header lines in order less those curl sets itself, and the body unless it is empty |
| CurlRequests.MethodKeptIff | crates/gabriel-cli/src/codegen.rs:25-27 | curl uses the request's method if and only if the request is not a GET with a body |
| CurlRequests.ShownIs | crates/gabriel-core/src/vars.rs:417-425 | a header is shown as it is where that was asked for, as the mask if it is one of ten credential headers, and otherwise with its secrets masked |
| CurlRequests.SpecialRefused | crates/gabriel-cli/src/codegen.rs:60-62 | outside quotes the lexer takes no character that means something else to the shell |
| CurlRequests.BlanksEnd | crates/gabriel-cli/src/codegen.rs:51-56 | blanks end a word and begin none |
| Sse.Parser.PushChunk | crates/gabriel-core/src/sse.rs:59-78 | the loop over complete lines computes the drain of buffer and chunk |
| Sse.Parser.Finish | crates/gabriel-core/src/sse.rs:83-89 | the line without LF is taken and an event under way is returned, leaving an empty buffer |
| Sse.Parser.TakeLine | crates/gabriel-core/src/sse.rs:91-134 | the fields after one line, and the event it dispatches |
| Sse.Parser.Dispatch | crates/gabriel-core/src/sse.rs:136-146 | the event is built of the fields, which are cleared but for the last id |
| Sse.DrainAppend | crates/gabriel-core/src/sse.rs:59-78 | draining, then pushing more, is pushing all at once |
| Sse.ChunksDoNotMatter | crates/gabriel-core/src/sse.rs:59-78 | every way of cutting a stream gives the same events and final state |
| Sse.PushFoldsLines | crates/gabriel-core/src/sse.rs:59-78 | a push is a fold of `line` over the complete lines, the rest staying in the buffer |
| SseEvents.LineKeepsIdle | crates/gabriel-core/src/sse.rs:91-146 | between events name, data and retry are empty, and dispatching keeps only the last id |
| SseEvents.FieldReads | crates/gabriel-core/src/sse.rs:102-106 | a line is a field and its value around the first colon, less one space |
| SseEvents.EventsAreBlocks | crates/gabriel-core/src/sse.rs:91-146 | the events are one for each block of lines between blank ones that sets a field, with the last name, all data, the last accepted id so far and the last valid retry |
| SseEvents.StreamEvents | crates/gabriel-core/src/sse.rs:59-146 | for every stream and every way of cutting it, the events are those of its blocks |
| SseStandard.DispatchIff | crates/gabriel-core/src/sse.rs:91-95 | the events are those of section 9.2.6 of the HTML standard if and only if every block that sets a field has a data line |
| SseStandard.NameAloneIsDispatched | crates/gabriel-core/src/sse.rs:91-95 | a block with a name alone gives an event here and none in the standard |
| SseStandard.ParserTexts | crates/gabriel-core/src/sse.rs:67-72 | the lines compared are those whose text the parser takes |
| SseStandard.LinesOfBytes | crates/gabriel-core/src/sse.rs:67-72 | lines end at byte 10, less one byte 13 before it |
| SseStandard.LinesAgreeIff | crates/gabriel-core/src/sse.rs:67-72 | the parser cuts a stream into the lines of the standard if and only if every CR is followed by LF and no byte order mark stands in front of a complete line |
| SseStandard.CrAloneEndsNoLine | crates/gabriel-core/src/sse.rs:63-72 | a stream whose lines end with CR alone has no line here |
| SseStandard.MarkStays | crates/gabriel-core/src/sse.rs:67-72 | a byte order mark stays in the first line |
| SseStandard.RetryAgreesIff | crates/gabriel-core/src/sse.rs:124-128 | a retry time counts as in the standard, unless it has a `+` in front or does not fit 64 bits |
| SseStream.StreamAgreesIff | crates/gabriel-core/src/sse.rs:59-146 | from the bytes, however they arrive, to the events: where every CR has an LF behind it, no byte order mark is in front and every retry time is plain, the events are the standard's if and only if every block that sets a field has a data line |
| SseStream.FinishGivesIff | crates/gabriel-core/src/sse.rs:79-89 | at the end of any stream `finish` gives an event if and only if a line behind the last blank one, the unfinished one included, set a field |
| SseStream.FinishedStreamAgreesIff | crates/gabriel-core/src/sse.rs:59-89 | with the event of `finish` the whole stream's events are the standard's if and only if, besides, nothing is set behind the last blank line |
| Utf8.DecodeOfEncode | crates/gabriel-core/src/capture.rs:365-365 | lossy reading of a string's own bytes gives the string |
| Utf8.BrokenOff | crates/gabriel-core/src/sse.rs:71-71 | lossy reading puts one replacement character for a character that breaks off and goes on behind it |
| Utf8.LoneByte | crates/gabriel-core/src/sse.rs:71-71 | and one for a byte that begins no character |
| Utf8.WellFormed | crates/gabriel-core/src/sse.rs:71-71 | which bytes begin a character and which come second are those of the Unicode Standard |
| Percent.Urlencode | crates/gabriel-engine/src/lib.rs:1178-1190 | the byte loop computes the encoding, with a space as `+` or as `%20` |
| Percent.PercentDecode | crates/gabriel-core/src/capture.rs:339-366 | the index loop computes the decoding, failing exactly where text would be cut inside a character |
| Percent.DecodeOfEncodeBytes | crates/gabriel-engine/src/oauth.rs:459-499 | decoding gives back the bytes encoded, every byte string and both spellings of a space |
| Percent.DecodedOfEncoded | crates/gabriel-engine/src/oauth.rs:459-499 | decoding gives back every string encoded, both spellings of a space |
| Percent.EncodedIsPlain | crates/gabriel-engine/src/lib.rs:1178-1190 | encoded text holds no separator |
| PercentText.ByteEncoded | crates/gabriel-engine/src/lib.rs:1178-1190 | a byte is itself if it is a letter, a digit or one of `-._~`, a plus sign if it is a space in a body, and otherwise a percent sign with two upper-case digits |
| PercentText.DigitsDecoded | crates/gabriel-core/src/capture.rs:345-348 | a percent sign with two digits in either case is the byte they write |
| PercentText.PlusDecoded | crates/gabriel-core/src/capture.rs:345-348 | a plus sign may stand for the first digit |
| PercentText.OtherDecoded | crates/gabriel-core/src/capture.rs:344-361 | any other byte is itself, a plus sign is a space, and a percent sign without two digits stays |
| PercentText.DecodeFailsIff | crates/gabriel-core/src/capture.rs:345-345 | decoding fails if and only if a `%` stands in front of a character of three bytes or more, or of one byte and then one of several |
| PercentText.EuroFails | crates/gabriel-core/src/capture.rs:345-345 | as it does for `100%` and a euro sign |
| Forms.BuildForm | crates/gabriel-engine/src/lib.rs:862-876 | the loop resolves and encodes field by field, up to the first failure, recording secrets |
| Forms.FormReadsBack | crates/gabriel-core/src/capture.rs:251-262 | a form written out reads back as the map of its pairs, whatever they hold |
| Forms.FormSurvives | crates/gabriel-core/src/capture.rs:246-262 | the form read from a capture, resolved and written again, decodes to the same fields when none holds a template |
| Forms.KeyValueReads | crates/gabriel-core/src/capture.rs:257-257 | a piece is a name and a value around its first `=`, or a name with an empty value |
| OAuth.BuildAuthorizeUrl | crates/gabriel-engine/src/oauth.rs:184-217 | the pushes make the URL, the right separator and the encoded parameters |
| OAuth.AuthorizeUrlReadsBack | crates/gabriel-engine/src/oauth.rs:434-443 | the query of the URL built parses to the parameters, added to what the configured URL asked already |
| OAuth.AuthorizeParamsRecovered | crates/gabriel-engine/src/oauth.rs:184-217 | each parameter sent is recovered with its value, and no other |
| OAuth.ConstantTimeEq | crates/gabriel-engine/src/oauth.rs:449-457 | the fold over all bytes is zero if and only if the two are equal |
| OrderedMap.PutAscending | crates/gabriel-core/src/model.rs:91-96 | keys stay in ascending order, each once |
| OrderedMap.GetOfPut | crates/gabriel-core/src/model.rs:125-127 | what is put is got, and other keys keep their values |
| OrderedMap.GetOfWithout | crates/gabriel-core/src/model.rs:145-155 | what is removed is gone, and other keys keep their values |
| OrderedMap.SameGetsSameMap | crates/gabriel-core/src/model.rs:91-91 | two maps that get the same for every key are the same |
| FieldMaps.FieldMap.Insert | crates/gabriel-core/src/model.rs:109-122 | a value goes behind those its key has |
| FieldMaps.FieldMap.Set | crates/gabriel-core/src/model.rs:125-127 | afterwards the key has the one value and every other key what it had |
| FieldMaps.FieldMap.Remove | crates/gabriel-core/src/model.rs:145-155 | afterwards no spelling of the name is found and every other key has what it had |
| FieldMaps.NoneFirst | crates/gabriel-core/src/model.rs:129-139 | a name is not found exactly when no key spells it in any case |
| FieldMaps.FirstIs | crates/gabriel-core/src/model.rs:129-139 | the value found is the first one of the first key that spells the name in any case, and empty if that key has none |
| FieldMaps.InsertedUnder | crates/gabriel-core/src/model.rs:109-122 | inserting appends to one key's values and changes no other key |
| FieldMaps.InsertAllUnder | crates/gabriel-core/src/model.rs:166-174 | a map made of pairs holds for each key its values in their order |
| FieldMaps.RebuiltFromPairs | crates/gabriel-core/src/model.rs:158-163 | inserting a map's own pairs rebuilds it |
| Promotion.Promote | crates/gabriel-core/src/capture.rs:154-228 | the loop over headers makes the file, the secrets, the variables and the session of the specification |
| Promotion.CutUrlJoins | crates/gabriel-core/src/capture.rs:277-295 | base, query and fragment make up the URL, each ending at the next one's mark |
| PromotedBodies.PromotedBodyIs | crates/gabriel-core/src/capture.rs:211-214 | a file has a body if and only if the capture has one: text is kept as it was, as JSON where the content type names JSON, or GraphQL and no form, as the fields of a form, or with its content type; other bodies leave an empty one |
| PromotedBodies.PromotedFrom | crates/gabriel-core/src/capture.rs:154-228 | method, capture, page, session and time are those of the capture and the clock |
| PromotedBodies.BuildBody | crates/gabriel-engine/src/lib.rs:837-876 | the branches of `build_body` for JSON, text and forms |
| PromotedBodies.BodySurvives | crates/gabriel-core/src/capture.rs:246-274 | a captured text body without templates is sent again as it was, or as a form of the same fields |
| PromotedBodies.TextSurvivesIff | crates/gabriel-core/src/vars.rs:125-154 | a text resolves to itself in every environment if and only if it has no `{{` |
| PromotedParts.OriginSplit | crates/gabriel-core/src/capture.rs:298-303 | scheme and host are split from the path |
| PromotedParts.QuerySplit | crates/gabriel-core/src/capture.rs:277-295 | the query stands between the first `?` and the next `#` |
| PromotedParts.OneParameter | crates/gabriel-core/src/capture.rs:286-289 | one more parameter, decoded, goes behind those of its name |
| PromotedParts.NamedAfter | crates/gabriel-core/src/capture.rs:305-317 | a request is named by its method and the last two segments of its path |
| PromotedParts.TokenNamed | crates/gabriel-core/src/capture.rs:319-337 | a token's name is the host in slug characters without underscores at its ends, and `_token` |
| PromotedParts.NamedWithoutOrigin | crates/gabriel-core/src/capture.rs:305-317 | a URL without an origin is a path up to its query |
| PromotedParts.TokenWithoutOrigin | crates/gabriel-core/src/capture.rs:319-337 | and makes the token's name as a whole |
| PromotedParts.SlugIs | crates/gabriel-core/src/capture.rs:326-335 | a slug character is a letter in lower case, a digit or an underscore |
| Promotion.ApplyAuth | crates/gabriel-engine/src/lib.rs:916-967 | every kind of authentication pushes its header or parameter with its templates resolved, or fails and records the secrets used |
| SentAuth.KeyPlaced | crates/gabriel-engine/src/lib.rs:946-959 | a key marked for the query reaches the query and no header, and the reverse |
| SentAuth.PasswordPlaced | crates/gabriel-engine/src/lib.rs:939-944 | user and password in this order with a colon between them, encoded in one header |
| SentAuth.TokenPlaced | crates/gabriel-engine/src/lib.rs:934-937 | a token goes into the `Authorization` header behind `Bearer` |
| SentAuth.NothingIsAdded | crates/gabriel-engine/src/lib.rs:923-932 | nothing is added without credentials or where a session's cookies do |
| SentAuth.FirstFailureDecides | crates/gabriel-engine/src/lib.rs:939-959 | of two templates the first that fails decides |
| PromotionMeaning.UrlSurvives | crates/gabriel-core/src/capture.rs:158-166 | the file's URL resolves to the captured URL less its query wherever the suggested variables have their values |
| PromotedUrl.UrlSurvivesIff | crates/gabriel-core/src/capture.rs:158-166 | whatever the generators give, the URL comes back under what was returned if and only if the variable's name is read whole and is none of a secret, of the environment or of a generator, or refers to the suggested secret alone and spells the origin once that secret is put in |
| PromotedUrl.ReadWholeIff | crates/gabriel-core/src/vars.rs:144-150 | a name between braces is read whole exactly when it is trimmed and closes nowhere before its end |
| PromotedUrl.GeneratedNameFails | crates/gabriel-core/src/vars.rs:182-184 | an origin behind `$uuid` resolves to a generated id |
| PromotionMeaning.BearerSurvives | crates/gabriel-core/src/capture.rs:185-197 | sending the file's request sends the captured token, trimmed, whatever the token contains |
| PromotionMeaning.ReturnedProvides | crates/gabriel-core/src/capture.rs:185-205 | with at most one Authorization header the returned secrets do not contradict each other |
| PromotionMeaning.PromotionKeepsMeaning | crates/gabriel-core/src/capture.rs:154-228 | by default, a promoted capture resolved under just what was returned asks for the captured URL with the captured token |
| PromotedHeaders.HeadersSurvive | crates/gabriel-core/src/capture.rs:172-209 | the promoted headers resolve to the captured ones, those left out aside, with every other credential put back |
| PromotedHeaders.QuerySurvives | crates/gabriel-core/src/capture.rs:277-295 | the promoted query resolves to the captured parameters, decoded, each key with its values in order |
| ResolvedMaps.ResolveMap | crates/gabriel-core/src/vars.rs:108-123 | the loop over keys and values resolves a whole map, up to the first failure, recording secrets |
| ResolvedMaps.MapResolvesBy | crates/gabriel-core/src/vars.rs:108-123 | a map whose texts all resolve keeps its keys and has each value resolved |
| PromotionMeaning.SecretNameIsSlug | crates/gabriel-core/src/capture.rs:319-337 | the suggested name is made of lower-case letters, digits and underscores |
| PromotionPrivacy.PromotionShowsNoCredential | crates/gabriel-core/src/capture.rs:172-209 | captures that differ only in cookies and in credentials promote to one and the same file, variables and secret names |
| PromotionPrivacy.CookiesLeaveOneMark | crates/gabriel-core/src/capture.rs:179-184 | any cookies, in any number, leave the one session reference |
| Har.Import | crates/gabriel-core/src/har.rs:417-435 | the loop numbers entries by position and counts those skipped |
| Har.ReadHeaders | crates/gabriel-core/src/har.rs:448-455 | the loop inserts every header that is not a pseudo-header |
| Har.CaptureSurvivesIff | crates/gabriel-core/src/har.rs:443-508 | one capture exported and imported is itself but for the id if and only if the format can carry it |
| Har.BuildSortsByTimeIff | crates/gabriel-core/src/har.rs:300-312 | sorting by the printed start is the stable sort by time if and only if every earlier capture's text comes first |
| Har.SameWidthOrderly | crates/gabriel-core/src/har.rs:300-312 | which is so when all years have as many digits, and before the year 10000 |
| Har.ImportOfExport | crates/gabriel-core/src/har.rs:300-435 | importing an export skips nothing and returns the captures, ids aside, stably sorted by time, repeated headers kept |
| Har.EntryIdsDiffer | crates/gabriel-core/src/har.rs:427-430 | no two entries of a file get the same id |
| Har.HeadersSurvive | crates/gabriel-core/src/har.rs:524-532 | headers written as pairs read back as the same map if and only if they are as insertion leaves them and none is a pseudo-header |
| HarEntries.EntryIs | crates/gabriel-core/src/har.rs:313-402 | an entry has the capture's start, duration, request and response, its page and session, the content types, the redirect's target and the encoding of a body that was not text |
| HarEntries.EntryReads | crates/gabriel-core/src/har.rs:443-522 | an entry from any program is skipped exactly when it has no URL or no method, and otherwise read field by field: text or joined parameters, encoded only where it says base64, at most a day long |
| HarEntries.HeaderRead | crates/gabriel-core/src/har.rs:448-455 | one more header is inserted, unless a colon is in front of its name |
| HarEntries.EntriesCounted | crates/gabriel-core/src/har.rs:417-435 | every entry is read or counted as skipped |
| HarEntries.EntryAccounted | crates/gabriel-core/src/har.rs:417-435 | an entry with a URL and a method is read under the id of its position, and any other is one of those skipped |
| HarEntries.EntryIdIs | crates/gabriel-core/src/har.rs:427-430 | an id is the prefix and the position in at least four lower-case digits of base sixteen |

## Left out

- Sockets, TLS, the proxy's tunnels and upgrades, certificates, the vault, base64, the command line, reports and tests: input, output and foreign code.
- Redirects.Execute: timing, assertions, variable captures and the response's body are not part of the outcome; `join` is an arbitrary function; reply header names are taken as the HTTP client gives them, in lower case.
- Cookies.Parse: the date of `Expires` is read by an arbitrary function, and `Max-Age` does not overflow.
- Store.CaptureStore.Append: input and output errors, half-written lines, permissions and a second store on the same file are not modelled.
- LineCodec.DecodeEncode: stands in for JSON; the scan only needs a line without LF that reads back.
- CaptureLog.ScanBackwards: reads the content as one value; seeking and read errors are not modelled.
- IsoSpellings.TextReads: numbers are unbounded once they are read, so the overflow of years or hours near 64 bits is not modelled.
- Resolution.Resolver.ResolveText: generated values and the process environment are maps given from outside; the order in which used secrets are listed is not modelled.
- Sse.Parser.PushChunk: reading bytes as text is an arbitrary function, so the theorems hold for any.
- Curl.ToCurl: full upper-casing of the method is an arbitrary function, so the theorems hold for any.
- Promotion.Promote: full upper-casing is an arbitrary function; the clock is a parameter; a decoding that would cut inside a character makes the whole promotion fail.
- Promotion.ApplyAuth: base64, the token an authorization server gives and the secrets used while asking for it are arbitrary; the templates of an OAuth configuration are not shown.
- Har.ImportOfExport: cookies, query pairs, sizes, timings and the file's comment are not written by the model, since the import reads none of them; durations are exact numbers.
- Forms.BuildForm: the other kinds of body are resolved text or files and are left out.
- OAuth.BuildAuthorizeUrl: the code exchange, the listener and the challenge's hash are foreign code.
- `diff_headers` and the comparison of whole responses: headers with several values are compared by their first only, so nothing reflexive holds.
- Slugs, path sanitising, byte counts, WebSocket messages and assertion comparison are not modelled.
