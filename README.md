# cwl-mount, modelled in Dafny

cwl-mount mounts AWS CloudWatch Logs as a read-only FUSE file system. The root
holds one directory per calendar year. Each year holds its months, each month
its days, and each day one file per minute, named `HH-MM`. Reading a minute
file fetches the events of every matching log group in that minute. The events
are sorted by timestamp and rendered one per line as `[log-stream-name]
message`. A small cache keeps these bytes for ranges that ended more than five
minutes ago.

The Dafny project models the core of that system:

- `fuse.dfy` (module `Fuse`) is the in-memory file tree.
  - It is a class with an append-only arena of nodes.
  - It keeps an inode counter and an inode-to-key map.
  - Each node holds a name-ordered child map.
- `children.dfy` (module `Children`) is the ordered child map, a `BTreeMap<String, FileKey>`.
- `time_tree.dfy` (module `TimeTree`) builds the year/month/day/minute tree for a time range.
- `calendar.dfy` (module `Calendar`) provides the proleptic Gregorian calendar the tree builder needs.
- `text.dfy` (module `Text`) provides decimal rendering, zero padding, byte-wise string order and UTF-8 byte length.
- `format_cwl_log_event.dfy` (module `FormatCwlLogEvent`) is the template formatter behind `--output-format`.
- `cwl_lib.dfy` (module `CwlLib`) covers:
  - event conversion;
  - the paging loops that list log groups and fetch events;
  - cacheability;
  - the stable timestamp sort;
  - the line join;
  - the bounded display cache;
  - `get_logs_to_display` and its message arm.
- `cli.dfy` (module `Cli`) holds the decisions of the FUSE callbacks `lookup`, `getattr`, `open`, `read` and `readdir`, and `is_valid_tps`.
- `regexes.dfy` (module `Regexes`) is the log-group-name validator.
- `wrappers.dfy` (module `Wrappers`) holds `Option` and `Result`.

Times are integers counting nanoseconds since the Unix epoch. Remote calls
are scripts of page responses: the n-th element is what the n-th request
returns. The clock is a parameter `now`.

## Model

| member | source | states |
|---|---|---|
| Fuse.FileTree.constructor | src/fuse/src/lib.rs:93-106 | a new tree holds only the root: inode 1, empty name, no parent, a directory; the next inode is 2 |
| Fuse.FileTree.CreateFileNode | src/fuse/src/lib.rs:183-209 | an existing name under the parent returns the existing key and changes nothing; otherwise a new node gets the current inode, the inode map gains it, the counter grows by one, the parent gains `name -> key`, and nothing else changes |
| Fuse.FileTree.CreateFile | src/fuse/src/lib.rs:108-115 | `_create_file` with a file carrying the given time bounds |
| Fuse.FileTree.CreateDirectory | src/fuse/src/lib.rs:117-123 | `_create_file` with a directory |
| Fuse.FileTree.GetRoot | src/fuse/src/lib.rs:125-127 | the root exists, has no parent and has inode 1 |
| Fuse.FileTree.GetFileByInode | src/fuse/src/lib.rs:159-163 | found exactly for the inodes handed out so far, and the node found carries that inode |
| Fuse.FileTree.GetChildForInode | src/fuse/src/lib.rs:147-157 | none exactly when the inode is unknown or has no child of that name; otherwise the child has that name and that parent |
| Fuse.FileTree.ListDirectory | src/fuse/src/lib.rs:133-135 | the children of the directory, each pointing back to it, in strictly ascending byte-wise name order |
| Fuse.FileTree.ListRoot | src/fuse/src/lib.rs:129-131 | the listing of the root |
| Fuse.FileTree.GetParentForLs | src/fuse/src/lib.rs:138-145 | the parent, which lists the node under its name; for the root, the root itself |
| Fuse.AddNodeWellFormed | src/fuse/src/lib.rs:196-208 | adding a node under a name its parent lacks keeps every node's shape: parents before children, ordered child maps that point back |
| Fuse.InodesUnique | src/fuse/src/lib.rs:196-203 | no two nodes share an inode, and every inode is below the counter |
| Fuse.IsRootIffUnlisted | src/fuse/src/lib.rs:67-69 | in a well-formed tree a node has no parent exactly when no directory lists it as a child |
| Fuse.ListingAgreesWithLookup | src/fuse/src/lib.rs:147-181 | a name is in the listing of a directory exactly when lookup under that directory finds it, and finds the same node |
| Children.Get | src/fuse/src/lib.rs:153 | the key stored under a name in an ordered child map, if any |
| Children.GetFindsEntry | src/fuse/src/lib.rs:153 | lookup finds exactly the entries present |
| Children.InsertSorted | src/fuse/src/lib.rs:206 | inserting a new name keeps the map strictly ordered |
| Children.InsertEntries | src/fuse/src/lib.rs:206 | inserting a new name adds exactly that entry |
| Children.GetAfterInsert | src/fuse/src/lib.rs:206 | after insertion the new name maps to its key and every other name is unchanged |
| Children.InsertAtEnd | src/fuse/src/lib.rs:206 | a name above all present names is appended last |
| Calendar.DaysInMonth | src/fuse/src/lib.rs:227-228 | 28 to 31 days, and February has 29 exactly in leap years |
| Calendar.YearLength | src/fuse/src/lib.rs:217-251 | consecutive years are `DaysInYear` days apart |
| Calendar.MonthsFillYear | src/fuse/src/lib.rs:222-227 | the twelve months together make up the year |
| Calendar.DaysBeforeMonthGrows | src/fuse/src/lib.rs:222 | later months start later in the year |
| Calendar.DateWithinYear | src/fuse/src/lib.rs:228 | every valid date falls within its year |
| Calendar.NextDateIsNextDay | src/fuse/src/lib.rs:227-228 | the next valid date is exactly one day later |
| Calendar.YearOf | src/fuse/src/lib.rs:216-217 | the year whose first and last instants bracket the given instant |
| TimeTree.MinuteBoundsAt | src/fuse/src/lib.rs:237-242 | a minute file's bounds span one minute less one nanosecond |
| TimeTree.MinuteNameOrdered | src/fuse/src/lib.rs:236 | `HH-MM` names are ordered as the minutes are |
| TimeTree.MinutesTile | src/fuse/src/lib.rs:234-243 | consecutive minute files of a day leave neither gap nor overlap |
| TimeTree.DaysTile | src/fuse/src/lib.rs:227-245 | a day's minute files span exactly that day, and the next date starts where it ends |
| TimeTree.CreateMinuteFile | src/fuse/src/lib.rs:236-243 | appends the next minute file under the day directory and keeps the day's prefix shape |
| TimeTree.PopulateDay | src/fuse/src/lib.rs:230-245 | a new day directory holding its 1440 minute files in minute order; other nodes are kept |
| TimeTree.PopulateMonth | src/fuse/src/lib.rs:223-249 | a new month directory holding one day directory per day of that month |
| TimeTree.PopulateYear | src/fuse/src/lib.rs:218-250 | a new year directory holding its twelve month directories |
| TimeTree.YearNotBuilt | src/fuse/src/lib.rs:217-218 | the year about to be built has no directory under the root yet |
| TimeTree.YearsBuiltGrows | src/fuse/src/lib.rs:217-252 | each turn of the year loop adds one complete year and keeps the earlier ones |
| TimeTree.ExpectedNumberOfFilesCounts | src/fuse/src/lib.rs:214 | the capacity hint is the range's whole minutes when that fits in 64 bits; zero for a range reversed by less than a minute; `2^64` minus the minutes for a range reversed by more |
| TimeTree.CreateFileTreeForTimeRange | src/fuse/src/lib.rs:212-254 | for a range whose capacity hint does not wrap, the root holds exactly one complete directory per year from the start's year to the end's year |
| FormatCwlLogEvent.NewFilteredLogEvent | src/format-cwl-log-event/src/lib.rs:34-52 | the fields are copied, and both instants carry their RFC 3339 renderings |
| FormatCwlLogEvent.TryFrom | src/format-cwl-log-event/src/lib.rs:65-79 | exactly the six variable names are accepted; any other fails naming itself |
| FormatCwlLogEvent.TryFromVariableName | src/format-cwl-log-event/src/lib.rs:68-78 | `TryFrom` and the variable names are inverse to each other |
| FormatCwlLogEvent.InstructionsSucceedIff | src/format-cwl-log-event/src/lib.rs:97-118 | compilation succeeds exactly when every variable is known; otherwise it reports the first unknown identifier |
| FormatCwlLogEvent.InstructionsFailureSticks | src/format-cwl-log-event/src/lib.rs:105 | the first failing pair decides the result, whatever follows |
| FormatCwlLogEvent.NewLogFormatter | src/format-cwl-log-event/src/lib.rs:94-119 | the push loop yields parse-then-compile: one instruction per pair, nothing for the end marker, the first unknown variable as error |
| FormatCwlLogEvent.Format | src/format-cwl-log-event/src/lib.rs:121-138 | the output is the in-order concatenation of the instructions' renderings |
| FormatCwlLogEvent.RenderAppend | src/format-cwl-log-event/src/lib.rs:123-136 | rendering distributes over concatenated instruction lists |
| FormatCwlLogEvent.RenderInstructions | src/format-cwl-log-event/src/lib.rs:94-138 | compiling then formatting reads the template once: each variable becomes its field verbatim |
| FormatCwlLogEvent.ErrorMessage | src/format-cwl-log-event/src/lib.rs:8-17 | an unknown variable's message quotes the identifier after its fixed opening; a parse error shows the parser's text; `Unknown` has its fixed text |
| FormatCwlLogEvent.ClapValidateOutputFormat | src/format-cwl-log-event/src/lib.rs:141-147 | accepted exactly when the template compiles; the error is a newline followed by the error's text |
| FormatCwlLogEvent.BracedSameAsBare | src/format-cwl-log-event/src/lib.rs:175-180 | `${id}` and `$id` followed by a non-identifier character yield the same variable |
| FormatCwlLogEvent.CompileTwoVariables | src/format-cwl-log-event/src/lib.rs:168-180 | a literal, a variable, a literal and a variable, braced or bare, compile to those four instructions and render as the fields between the literals |
| FormatCwlLogEvent.CompileBareVariables | src/format-cwl-log-event/src/lib.rs:182-187 | `$x sep $y` compiles to three instructions and renders as field, separator, field |
| FormatCwlLogEvent.DefaultFormatPasses | src/format-cwl-log-event/src/lib.rs:168-180 | the default template, with or without braces, compiles and formats the test event as `[log-stream-name] message` |
| FormatCwlLogEvent.TimestampFormatPasses | src/format-cwl-log-event/src/lib.rs:182-187 | `$timestamp - $message` formats the test event as `2014-07-08T09:10:10.789Z - message` |
| FormatCwlLogEvent.JustEscapedDelimiterPasses | src/format-cwl-log-event/src/lib.rs:189-194 | `$$` compiles to the escaped delimiter and formats as `$` |
| FormatCwlLogEvent.JustDelimiterFails | src/format-cwl-log-event/src/lib.rs:196-200 | a lone `$` fails to compile |
| CwlLib.NewEvent | src/cwl-lib/src/lib.rs:63-105 | succeeds exactly when all five fields are present; otherwise it names the first missing field; times are converted from milliseconds |
| CwlLib.GetLogGroupNames | src/cwl-lib/src/lib.rs:157-190 | the loop returns what the page-by-page specification returns |
| CwlLib.GroupNamesInPageOrder | src/cwl-lib/src/lib.rs:161-188 | the groups of every page up to the first one that ends the loop, in page order; a failed request fails the call |
| CwlLib.LimitOf | src/cwl-lib/src/lib.rs:203 | no limit means `usize::MAX`; a non-negative limit is itself; a negative `i32` becomes `2^64` plus itself, the same value modulo `2^64` |
| CwlLib.GetLogEvents | src/cwl-lib/src/lib.rs:193-236 | the nested loops return what the page-by-page specification returns |
| CwlLib.LogEventsInPageOrder | src/cwl-lib/src/lib.rs:223-233 | the result extends what was collected with conversions of the pages' events, in page order; it stops at the limit and not before: its length is the smaller of the limit and all events |
| CwlLib.GetLogEventsOrderAndLimit | src/cwl-lib/src/lib.rs:193-236 | the conversions of the pages' events in page order, exactly as many as the smaller of the limit and the number of events; with no limit, every event |
| CwlLib.ConversionBeforeLimit | src/cwl-lib/src/lib.rs:224-226 | with the limit reached, an event missing a field still fails the call |
| CwlLib.LimitReached | src/cwl-lib/src/lib.rs:225-227 | with the limit reached, the next convertible event ends the call with what was collected |
| CwlLib.CacheableStaysCacheable | src/cwl-lib/src/lib.rs:265-267 | a cacheable range stays cacheable as the clock moves on |
| CwlLib.CacheBoundary | src/cwl-lib/src/lib.rs:265-267 | exactly five minutes is not enough to cache; one nanosecond more is |
| CwlLib.SortByTimestamp | src/cwl-lib/src/lib.rs:320 | the sort keeps the number of events |
| CwlLib.SortByTimestampSpec | src/cwl-lib/src/lib.rs:320 | the sort yields ascending timestamps, a permutation of its input, and keeps the input order among equal timestamps |
| CwlLib.Lines | src/cwl-lib/src/lib.rs:322-325 | one `[stream] message` line per event, in order |
| CwlLib.JoinSnoc | src/cwl-lib/src/lib.rs:326-327 | joining one more line adds a newline separator and the line, with no trailing newline |
| CwlLib.DisplayCache.constructor | src/cwl-lib/src/lib.rs:375-378 | the cache starts empty |
| CwlLib.DisplayCache.Get | src/cwl-lib/src/lib.rs:286-291 | finds exactly the stored keys and returns their bytes |
| CwlLib.DisplayCache.Put | src/cwl-lib/src/lib.rs:329-337 | the key maps to the value and at most 60 entries remain; no other entry changes; nothing is dropped for an existing key or below capacity; a new key in a full cache displaces exactly one entry |
| CwlLib.MatchingNames | src/cwl-lib/src/lib.rs:292-297 | every name kept is accepted by the matcher, and every accepted name is kept |
| CwlLib.MatchingNamesAppend | src/cwl-lib/src/lib.rs:292-297 | filtering distributes over concatenation, so names stay in their order and keep their repetitions |
| CwlLib.MatchingNamesOne | src/cwl-lib/src/lib.rs:292-297 | a single name is kept exactly when the matcher accepts it |
| CwlLib.FetchMatching | src/cwl-lib/src/lib.rs:298-319 | each matching group's events, appended group after group |
| CwlLib.GetLogsToDisplay | src/cwl-lib/src/lib.rs:270-339 | a hit returns the stored bytes and changes nothing; a miss returns the sorted, joined display bytes of the matching groups; a failure or an uncacheable range leaves the cache alone; otherwise the bytes are stored as `Put` stores them, displacing at most one entry |
| CwlLib.LogsToDisplayPattern | src/cwl-lib/src/lib.rs:416-426 | the exact name anchored and unescaped, else the filter, else the invalid-message error |
| CwlLib.HandleGetLogsToDisplay | src/cwl-lib/src/lib.rs:409-432 | an invalid message gets its error and leaves the cache alone; otherwise the answer and the new cache are those of `get_logs_to_display` for the chosen pattern |
| Cli.Attr | src/cli/src/main.rs:103-136 | directories: size 0, blocks 0, nlink 2; files: size 2147483647, blocks 1, nlink 1; all: perm 0o777, blksize 512 |
| Cli.Lookup | src/cli/src/main.rs:94-139 | ENOENT unless the parent inode exists and has the child; otherwise the child's attributes with inode key + 1 |
| Cli.GetAttr | src/cli/src/main.rs:141-196 | ENOENT exactly for inodes not handed out; otherwise that node's attributes |
| Cli.LookupAgreesWithGetAttr | src/cli/src/main.rs:94-196 | what lookup reports for a name, getattr reports for the inode it gave |
| Cli.AccessOf | src/cli/src/main.rs:258-279 | EINVAL when no single access mode is given; EACCES for read-only with truncation; otherwise the read/write flags of the mode |
| Cli.Open | src/cli/src/main.rs:256-295 | opens exactly existing log files with a valid mode, with handle 10 and direct I/O; the mode error first, EACCES for directories and unknown inodes |
| Cli.OpenForWriteGranted | src/cli/src/main.rs:272-288 | write-only and read-write opens of a log file are granted |
| Cli.OffsetAsUsize | src/cli/src/main.rs:242 | `offset as usize`: the value equal to the offset modulo `2^64` below `2^64`; a non-negative offset is itself, and a negative one is `2^64` plus itself, at least `2^63` |
| Cli.ReadSizeAsWritten | src/cli/src/main.rs:242 | the size as written: at most `size` and below `2^32`; it agrees with the corrected size whenever what remains after the offset is below `2^32` |
| Cli.ReadSize | src/cli/src/main.rs:242 | at most `size`, at most what remains after the offset, and zero at or past the end or for a negative offset |
| Cli.ReadRange | src/cli/src/main.rs:242-251 | the returned bytes are the content starting at the offset, `ReadSize` of them |
| Cli.ReadsCompose | src/cli/src/main.rs:242-251 | a full read followed by the read at the next offset equals one read of both sizes |
| Cli.ReadWhole | src/cli/src/main.rs:242-251 | a read from offset 0 with room for everything returns the whole content |
| Cli.ReadExact | src/cli/src/main.rs:247-250 | the buffer holds the `n` bytes of the content starting at the offset |
| Cli.Read | src/cli/src/main.rs:198-254 | ENOENT for unknown inodes and directories; otherwise the requested range of the file's display bytes, sized by the corrected `ReadSize` of the finding below |
| Cli.DirEntries | src/cli/src/main.rs:305-321 | `.` and `..`, both with the inode of the parent for `ls`, then the children in listing order |
| Cli.PageContiguous | src/cli/src/main.rs:333-339 | the entries added are a contiguous run from the skip point, entry i with cookie i + 1, ending early only at an entry the reply reported full for |
| Cli.PageComplete | src/cli/src/main.rs:333-339 | a reply that never fills up gets every entry from the skip point |
| Cli.ReaddirResumes | src/cli/src/main.rs:333-339 | resuming at the last cookie continues the listing with no entry lost or repeated |
| Cli.AddEntries | src/cli/src/main.rs:333-339 | the skip-and-break loop adds what the page specification says |
| Cli.Readdir | src/cli/src/main.rs:297-341 | ENOENT for an unknown inode; otherwise the page of `.`, `..` and children from the offset |
| Cli.IsValidTps | src/cli/src/main.rs:345-356 | Ok exactly when the text parses as a `usize` and is not zero, with the source's two error messages |
| Cli.ParseUsizeRoundTrip | src/cli/src/main.rs:346 | a decimal rendering, with or without `+` and with any number of leading zeros, parses back to its value exactly when it fits |
| Cli.ParseUsizeSound | src/cli/src/main.rs:346 | every text that parses is an optional `+`, some zeros, then the decimal rendering of the parsed value |
| Cli.TpsAcceptsPositive | src/cli/src/main.rs:345-356 | exactly 1 through `usize::MAX`, written in decimal, are valid |
| Cli.TpsRejectsMinus | src/cli/src/main.rs:351-354 | a leading minus sign is rejected with the not-a-positive-integer message |
| Cli.ReadSizeTruncates | src/cli/src/main.rs:242 | a 4 GiB response read from its start with a one-byte request reads nothing as written, one byte as intended |
| Regexes.ValidCwlLogGroupName | src/regexes/src/lib.rs:11-34 | accepted exactly when the byte length is 1 to 512 and every character is a letter, digit, `_`, `/`, `.`, `#` or `-` |
| Regexes.TooLongRejected | src/regexes/src/lib.rs:15-17 | more than 512 characters is rejected whatever they are |
| Regexes.BadCharRejected | src/regexes/src/lib.rs:18-33 | one character outside the class rejects the name |
| Regexes.ClapValidateCwlLogGroupName | src/regexes/src/lib.rs:36-45 | Ok exactly for valid names; the error is the name followed by ` is not a valid CloudWatch Logs log group name` |
| Regexes.ValidNameMatches | src/regexes/src/lib.rs:52-59 | `Log-Group-03-/.#` is accepted |
| Regexes.PlusDoesNotMatch | src/regexes/src/lib.rs:62-69 | `log-group+` is rejected |
| Regexes.TooLongDoesNotMatch | src/regexes/src/lib.rs:72-75 | a run of 1000 `a`s is rejected |

## Left out

- The AWS SDK, its client setup and the rate limiter are network I/O. Each request's answer is taken from a script of pages.
  - The start and end times and the page tokens sent with a request are therefore not modelled.
  - Which page answers which request is fixed by its position in the script.
- Scripted loops require that the script contains a response that ends the loop; the source would otherwise keep asking the service.
- The tokio actor, its channels, `tokio::spawn`, `try_join_all` and the hand-off in `read` exist for concurrency. The per-group fetch is a sequential loop over the groups in their order.
- Panicking paths are preconditions, not behaviour:
  - a time range ending a minute or more before it starts, whose capacity hint wraps to nearly `2^64` and makes `FileTree::new` panic when it reserves that capacity (`TimeTree.CreateFileTreeForTimeRange` requires `CapacityFits`);
  - a log group without a name;
  - a failed per-group fetch (`unwrap` in `get_logs_to_display` and `read`);
  - `unwrap` on nodes that always exist.
- CwlLib.DisplayCache.Put: any entry may make room when a new key meets a full cache. The least-recently-used order of the cache crate, and the recency update on a hit, are not modelled.
- `LogGroupNameMatcher::is_match` is defined outside the modelled files, so whether a pattern matches a name is a parameter `isMatch`.
- The template grammar of the formatter is generated from a grammar file that is not part of this model.
  - `Parse` is a stand-in tokenizer.
  - Only what the unit tests of the formatter assert is claimed of it.
- The error text the generated parser gives for a template is a parameter.
- RFC 3339 rendering by the date library is a parameter `rfc3339`. The test that expects `2014-07-08T09:10:10.789Z` states it as a precondition on that parameter.
- Dates use the proleptic Gregorian calendar over unbounded years. The date library's limited year range and its `DateTime` type are not modelled.
- `get_first_event_time_for_log_group`, `prepare_file_tree`, mount and command-line wiring, logging, and the `ctrlc` handler are not part of this model.
- The `fuser` reply objects are return values. Whether the directory reply is full is a parameter `full`. As in `fuser`, the entry that reports full is not added.
- Cli.Read: the display bytes for a file's time bounds are a parameter `logsFor`. In the source they come from `get_logs_to_display` through the actor.
- Cli.Read: the read size is the corrected `ReadSize`. For 4 GiB or more left after the offset, it returns the requested bytes where the source returns the truncated count (see Findings).
- TimeTree.CreateFileTreeForTimeRange: requires `CapacityFits`. A range that ends a minute or more before it starts panics in the source and is not modelled.
- The capacity hint of `FileTree::new` only reserves memory. Reserving more than can be allocated for a very long forward range is not modelled.
- Regexes.ValidCwlLogGroupName: only ASCII digits are accepted, although `\d` in the source's pattern also matches other Unicode decimal digits. Names with such digits are rejected here and accepted by the source.
- `readdir` on a regular file lists `.` and `..` only, as the source does. The model does not single this case out.

## Findings

| source | as written | input that shows it | evidently intended | confidence | as-written member | corrected member |
|---|---|---|---|---|---|---|
| src/cli/src/main.rs:242 | the remaining length is cast to `u32` before the minimum with `size` is taken, keeping only its low 32 bits | a response of exactly 2^32 bytes read at offset 0 with size 1 returns no data | the minimum of `size` and the remaining length, taken before narrowing | low (needs a 4 GiB response); not executed | Cli.ReadSizeAsWritten | Cli.ReadSize |
