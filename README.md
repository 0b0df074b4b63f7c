# pyADB: a verified model of its decision rules

pyADB is a command-line orchestrator for Android devices reachable over
ADB-on-TCP. It scans a network with `masscan`, keeps the endpoints it finds
in a pickle cache, connects them to the local adb server, and then runs
commands, pushes and pulls files on every connected device. A small
registry daemon keeps a set of endpoints, and a test client talks to it.

This project models the logic of those commands with every external call
(adb, sockets, pickle, subprocess, the console) turned into a parameter.
It then proves what the commands do. The modules are:

- `Wrappers` (`wrappers.dfy`): `Option` and `Result`.
- `PyStr` (`pystr.dfy`): the Python string operations the program relies
  on, each with a contract. These are `split` and `join` on one character,
  `strip`, `replace`, `upper`, `rfind`, prefix slicing with negative
  bounds, `int()` on text and `str()` on integers.
- `Utils` (`utils.dfy`): the pickle cache as a file state machine
  (absent, or the list of objects dumped into it), and `CacheDir`, a class
  holding one file per cache name. It also covers `get_by_status`,
  `connected_devices`, and `UpdatableTextColumn` as the class `TextColumn`.
- `Masscan` (`masscan.dfy`): the IPv4 argument checks of `masscan`, and its
  `while readline` loop over the scanner's output. The loop is modelled as a
  pure line classifier, a fold over the stream, and the method
  `MonitorScan`, which updates two `TextColumn` objects in place.
- `Commands` (`commands.dfy`): `load`, `connect`, `broad-cmd`, `exec`,
  `pull`, the remote path of `push`, and `clear`.
- `RegistryDaemon` (`daemon.dfy`): the `Daemon` class and its device set,
  one request at a time and a run over many requests.
- `Client` (`client.dfy`): `stringify` and `reverse_stringify`.

What the code does, in the places where it is easiest to misread:

- `cache_save` appends a snapshot to an existing file and never replaces it.
  `cache_recall` reads only the first snapshot, so later saves are never
  seen (`Utils.LaterSavesInvisible`).
- Progress is read from the text before the *last* `%` of the second comma
  field. For a line such as `50.00%,,waiting: 3-secs,,` the second field is
  empty, so the progress text is empty; `float('')` raises ValueError, and
  the command ends just after the waiting column is set
  (`Masscan.EmptyProgressField`, `Masscan.EmptyProgressStops`).
- A `%` line with too few fields raises IndexError, and a progress text
  `float()` refuses raises ValueError; either ends the command
  (`Masscan.ClassifyMissingField`, `Masscan.MonitorCrashes`).
- The daemon's loop has no `stop` request: `stop` is ignored like any other
  payload without `[` (`RegistryDaemon.OthersIgnored`).
- `load` compares the port with the *string* `'5555'`. The scanner's JSON
  writes ports as numbers, so a numeric 5555 is not filtered out
  (`Commands.KeepsDefaultNumber`).

## Model

| member | source | states |
|---|---|---|
| PyStr.Split | src/main.py:83 | `line.split(',')` has one piece more than separators, and no piece holds the separator |
| PyStr.Join | src/test.py:10 | `sep.join(parts)` of a non-empty list starts with the first part and holds at least one separator per further part, exactly that many when no part holds the separator |
| PyStr.JoinSplit | src/test.py:8-14 | joining the pieces of a split gives back the text |
| PyStr.SplitJoin | src/test.py:8-14 | splitting a join of separator-free pieces gives back the pieces |
| PyStr.SplitLastIsSuffix | src/main.py:317 | the last piece of a split is a suffix of the text |
| PyStr.SplitLastAfterSep | src/main.py:317-318 | whatever precedes the last separator, the last piece is what follows it |
| PyStr.Strip | src/main.py:85 | `strip()` leaves no white space at either end and removes only white space around the kept text |
| PyStr.Replace | src/main.py:85 | `replace` leaves a text without the pattern unchanged |
| PyStr.ReplaceSkips | src/main.py:85 | a prefix that cannot start the pattern is copied unchanged by `replace` |
| PyStr.ReplaceAtMatch | src/main.py:85 | an occurrence of the pattern becomes the replacement, and scanning resumes after it |
| PyStr.ReplaceRemovesChar | src/main.py:87 | `replace('\n', '')` removes every newline |
| PyStr.Upper | src/main.py:87 | `upper()` keeps the length and maps each character through the upper-case mapping |
| PyStr.UpperKeepsOut | src/main.py:87 | `upper()` leaves no lower-case ASCII letter and brings in no character that was absent, other than capital letters |
| PyStr.RFind | src/main.py:88 | `rfind('%')` is -1 exactly when there is no `%`; otherwise it is the index of the last `%` |
| PyStr.SliceTo | src/main.py:88 | `s[:k]` is a prefix of `s`: of length `k` for `0 <= k <= len(s)`, all of `s` for a larger `k`, of length `len(s)+k` for `-len(s) <= k < 0`, and empty below `-len(s)` |
| PyStr.NatToDecimal | src/main.py:119 | `str(n)` is a non-empty run of digits without a leading zero |
| PyStr.DecimalRoundTrip | src/main.py:119 | reading back `str(n)` gives `n` |
| PyStr.ParseDigits | src/main.py:57 | a digit run parses exactly when it is non-empty and all digits |
| PyStr.ParseInt | src/main.py:57 | `int(text)` succeeds only on text that is not blank once stripped |
| PyStr.LStripSpaces | src/main.py:57 | `lstrip()` removes exactly the leading white space before a non-space character |
| PyStr.StripLeading | src/main.py:57 | `strip()` of white space followed by text with non-space ends is that text |
| PyStr.ParseIntDigits | src/main.py:57 | `int(d)` of a digit string is its decimal value |
| PyStr.ExponentAt | src/main.py:88 | the exponent marker `e`/`E` of a `float()` text is found exactly when the text holds one |
| PyStr.EmptyNotFloat | src/main.py:88 | `float('')` raises ValueError: the empty text is not a float literal |
| PyStr.DecimalMantissa | src/main.py:88 | digits, a point and digits form a decimal literal |
| PyStr.DecimalIsFloat | src/main.py:88 | `float()` accepts a progress text such as ` 50.00`: white space, digits, a point and digits |
| Masscan.RangeRejectsAsWritten | src/main.py:57 | the chained test `0 > v > 255` is false for every integer |
| Masscan.ComponentsCheck | src/main.py:55-58 | the component loop stops at the first component `int()` refuses, naming it (every earlier component parsed), or at a range rejection; as written it never reports a bad address |
| Masscan.ComponentsAsWritten | src/main.py:55-58 | the component loop as written accepts exactly when every component is an integer, and never reports a bad address |
| Masscan.AcceptedAllIntegers | src/main.py:55-58 | as written, accepted components are all integers |
| Masscan.AllIntegersAccepted | src/main.py:55-58 | as written, components that are all integers are accepted, whatever their values |
| Masscan.ComponentsStrict | src/main.py:55-58 | with the corrected range test, accepted components all lie in 0..255 |
| Masscan.CheckNet | src/main.py:46-61 | the checks report missing arguments exactly when `net` or `port` is empty; an IPv6 net is not inspected further; a bad address names the network part with other than four components |
| Masscan.CheckNetStrict | src/main.py:46-61 | the corrected checks report missing arguments exactly as the original ones, and an IPv6 net is not inspected further |
| Masscan.CheckNetAccepts | src/main.py:46-61 | accepted exactly when both arguments are given, there are four integer dot-components and a mask of at most two characters; a bad address exactly when the component count is not four |
| Masscan.CheckNetStrictOctets | src/main.py:46-61 | under the corrected test, an accepted IPv4 net has four components, each in 0..255 |
| Masscan.SplitDotted | src/main.py:51-55 | `a.b.c.d/m` splits into the network and the mask, and the network into its four components |
| Masscan.DigitComponents | src/main.py:56-57 | components that are digit strings all pass `int()` |
| Masscan.OutOfRangeAccepted | src/main.py:46-61 | every `a.b.c.d/m` of digit strings with a mask of at most two digits is accepted as written, whatever the values (e.g. `300.1.2.3/24`) |
| Masscan.OutOfRangeRejectedStrict | src/main.py:56-58 | the corrected checks reject such a net with a first component above 255 as a bad address |
| Masscan.ProgressText | src/main.py:88 | the progress text is the part of the field before its last `%`; without `%` the last character is dropped; an empty field gives an empty text |
| Masscan.ClassifyLine | src/main.py:78-88 | a line is forwarded or suppressed exactly when it has no `%`, and a forwarded line is printed verbatim |
| Masscan.ClassifyLineEvents | src/main.py:78-88 | a line without `%` is suppressed exactly when it starts with white space and forwarded verbatim otherwise; a `%` line is never forwarded; waiting and found updates have the fields they read and take the progress from field 1 |
| Masscan.ClassifyMissingField | src/main.py:83-87 | a `%` line raises IndexError exactly when it has fewer than two commas, or exactly two and its third field lacks `waiting` |
| Masscan.ClassifyFoundClean | src/main.py:87 | the found text holds no newline and no lower-case ASCII letter |
| Masscan.StatusFields | src/main.py:83-88 | for a `%` line of comma-free fields: when field 2 holds `waiting`, a waiting update with field 2 stripped and `-secs` made `s`; otherwise, with a fourth field, a found update with field 3 stripped, newlines removed and upper-cased; with exactly three fields, IndexError; the progress text always comes from field 1 |
| Masscan.EmptyProgressField | src/main.py:84-88 | a `p%,,waiting...` line is a waiting update with an empty progress text, and that line raises (`float('')` is refused) |
| Masscan.EmptyProgressStops | src/main.py:77-88 | the loop stops at such a line with an exception, after setting the waiting column and leaving the progress as it was |
| Masscan.ShortenSecs | src/main.py:85 | for every text `t`, `(t + "-secs").replace("-secs", "s")` is `t.replace("-secs", "s") + "s"`: the trailing occurrence becomes `s` |
| Masscan.HalfDone | src/main.py:88 | the progress text of ` 50.00% done` is ` 50.00` |
| Masscan.EofIndex | src/main.py:77 | the loop reads the lines before the first empty read, all of them non-empty |
| Masscan.Monitor | src/main.py:77-88 | the fold over the stream stops at the first empty read; a run that crashes read at least one line |
| Masscan.MonitorCrashes | src/main.py:77-88 | the loop ends with an exception exactly when some line before the end of the stream lacks a field it reads or has a progress text `float()` refuses |
| Masscan.LineBeforeEofShift | src/main.py:77 | past a first line without a property, a later line before the end has it exactly when some line of the rest of the stream does |
| Masscan.ApplyPrinted | src/main.py:78-81 | one line adds itself to the printed lines exactly when it has no `%` and no leading white space |
| Masscan.MonitorStep | src/main.py:77-88 | a line read before the end that does not crash leaves the rest of the stream to the next iteration |
| Masscan.ForwardedUntilEofPrefix | src/main.py:77 | the lines forwarded before the first empty read are those of the prefix the end of the stream delimits |
| Masscan.MonitorForwardsUntilEof | src/main.py:77-81 | a run that does not crash adds to the printed lines exactly the forwarded lines read before the first empty read |
| Masscan.MonitorForwards | src/main.py:77-81 | a run that does not crash prints exactly the lines without `%` that do not start with white space, in order |
| Masscan.MonitorScan | src/main.py:77-88 | the two column texts, the progress and the printed lines end as the fold over the stream says, stopping at the first empty read, IndexError or ValueError; the progress only takes texts `float()` accepts |
| Utils.SetOfSize | src/Utils.py:66 | `set(obj)` has no more elements than `obj` |
| Utils.SavedFile | src/Utils.py:36-44 | a save creates the file with one snapshot when it is absent, and otherwise appends one, keeping the earlier content |
| Utils.RecalledSet | src/Utils.py:59-66 | recall gives nothing exactly when the file is missing, and otherwise exactly the members of the first snapshot |
| Utils.SavedAll | src/Utils.py:39-44 | repeated saves keep the file well formed |
| Utils.SavedAllKeepsFirst | src/Utils.py:39-44 | later saves never change the first snapshot of an existing file |
| Utils.LaterSavesInvisible | src/Utils.py:27-66 | after the save that creates the file, any number of further saves leave recall at the set of the first snapshot |
| Utils.RecallNoLarger | src/Utils.py:63-66 | the recalled set collapses duplicates and is never larger than the first snapshot |
| Utils.ClearForgetsUntilSave | src/main.py:449-451 | after the cache directory is removed, a name has no file until something is saved under it |
| Utils.ClearForgetsUntilSaveFrom | src/Utils.py:59-61 | with no file for a name and no save to it, the file stays missing |
| Utils.CacheDir.File | src/Utils.py:40-44 | every existing cache file holds at least one snapshot |
| Utils.CacheDir.constructor | src/Utils.py:36-37 | the cache directory starts empty |
| Utils.CacheDir.Save | src/Utils.py:27-44 | `cache_save` creates or appends to the named file and leaves every other file as it was |
| Utils.CacheDir.Recall | src/Utils.py:48-66 | `cache_recall` exits exactly when the file is missing, and otherwise returns the set of its first snapshot |
| Utils.CacheDir.Clear | src/main.py:449-451 | clearing removes every cache file |
| Utils.Pulled | src/Utils.py:79 | exactly `count` tracker events are consumed, in order |
| Utils.KeepStatus | src/Utils.py:79-81 | the filter keeps no more events than it reads, and every kept event has the status |
| Utils.KeepStatusAppend | src/Utils.py:79-81 | the status filter distributes over concatenation, so order is kept |
| Utils.KeepStatusExact | src/Utils.py:79-82 | the filter keeps exactly the events with the status, and never more events than it read |
| Utils.GetByStatus | src/Utils.py:69-82 | `get_by_status` returns, in tracker order, exactly those of the first `len(device_list())` events whose status matches |
| Utils.ConnectedDevices | src/Utils.py:85-103 | one row `(serial, present, status)` per `device` event, in order |
| Utils.TextColumn.constructor | src/Utils.py:113-121 | the column holds the given text, style and justification |
| Utils.TextColumn.SetText | src/Utils.py:123-128 | `set_text` replaces only the text, and the next render shows it |
| Commands.KeptIndicesExact | src/main.py:116-119 | the kept indices are increasing and are exactly the records not skipped |
| Commands.Endpoints | src/main.py:115-119 | `load` yields at most one endpoint per record, or fails at a record whose `ports` list is empty |
| Commands.EndpointsOfKept | src/main.py:115-119 | without an empty `ports`, `load` yields `ip:port` for each kept record, in record order and without deduplication |
| Commands.EndpointsError | src/main.py:116-117 | `load` fails exactly when some record has no port, and it fails at the first such record |
| Commands.EndpointsErrorSticks | src/main.py:116-117 | records after a failing one do not change the failure |
| Commands.EndpointsMembers | src/main.py:115-119 | an endpoint is listed exactly when some kept record yields it |
| Commands.SkipsDefaultText | src/main.py:117-118 | a record whose port is the string `5555` is skipped |
| Commands.KeepsOtherText | src/main.py:119 | a record with port `5037` becomes `ip:5037` |
| Commands.KeepsDefaultNumber | src/main.py:117-119 | a record whose port is the number 5555 is kept, as `ip:5555` |
| Commands.Load | src/main.py:115-119 | the loop builds exactly the endpoints of the specification, or stops at the first record without a port |
| Commands.LoadCommand | src/main.py:115-121 | the endpoints are saved under `devices` unless a record fails, and then the cache is untouched |
| Commands.ConnectOutcome | src/main.py:136-166 | `connect` reports a missing cache exactly when it is run without a socket and the cache file is missing, an empty cache exactly when the recalled set is empty; a refusal only with a socket and a reply naming a failure |
| Commands.BatchIgnoresReplies | src/main.py:138-164 | in batch mode the replies are never read: only which addresses timed out decides, and the report is never a refusal |
| Commands.SingleSocket | src/main.py:151-162 | with a socket the cache is not consulted; the reply is refused exactly when it names `failed`, `unable` or `already` |
| Commands.Connect | src/main.py:136-166 | the report follows the recalled cache and the outcome of each attempt; every recalled address is tried once, and none when the cache is missing or empty |
| Commands.ConnectAfterClear | src/main.py:139-142 | after `clear`, batch `connect` finds no cache until `devices` is saved again |
| Commands.AnswerSets | src/main.py:220-236 | `Y`, `y`, `YES`, `yes` and the empty answer display; `N`, `n`, `NO`, `no` do not; anything else asks again |
| Commands.ClassifyAnswer | src/main.py:220-236 | an answer that decides has at most three characters and starts with `Y`/`y` (display, or is empty) or `N`/`n` (skip) |
| Commands.DecisionFirst | src/main.py:216-236 | the answers display the table exactly when the first one that is not rejected is a yes, skip it exactly when it is a no, and decide nothing exactly when every answer is rejected |
| Commands.AskToDisplay | src/main.py:216-236 | the prompt loop returns the decision of the first answer that is not rejected, every earlier answer asked again, and the loop ends only when an answer decides or the answers run out |
| Commands.CollectOutputs | src/main.py:200-206 | the output dict has one key per serial, no key twice, each with that serial's shell output; it is empty exactly when no device is listed |
| Commands.AnyOutput | src/main.py:210-214 | `check` is set exactly when some output is non-empty |
| Commands.NonEmptyOutputs | src/main.py:204-215 | the dict holds a non-empty output exactly when some device's output is non-empty |
| Commands.BuildTable | src/main.py:225-226 | the table has one row per dict key, in key order, with its output |
| Commands.CollectedTable | src/main.py:221-228 | the shown table has one row per serial, no serial twice, each with its own output |
| Commands.Broadcast | src/main.py:194-238 | no devices, then no command, are reported first; otherwise the report is "no output returned" exactly when devices are listed and every output is empty; when some output is non-empty the table is shown, skipped, or the input ends exactly as the first deciding answer says, and a shown table has one row per serial |
| Commands.ReportOutputs | src/main.py:200-238 | nothing is collected exactly when no device is listed; the prompt is reached exactly when some output is non-empty, and its outcome is that of the first deciding answer |
| Commands.SerialConnected | src/main.py:262-265 | `found` is set exactly when some listed device has the serial |
| Commands.ConnectedIffTracked | src/main.py:262-268 | the membership test over `get_by_status('device')` is the test over the tracker's `device` events |
| Commands.Execute | src/main.py:257-283 | `exec` reports no devices, not connected, no command, a shell error, no output, or the output, in that order of checks |
| Commands.Pull | src/main.py:365-386 | `pull` reports no devices, not connected, a non-absolute remote path, a transfer error, or success, in that order of checks |
| Commands.LastSegment | src/main.py:317 | the file name is a suffix of `local` and has no `/` |
| Commands.PushTarget | src/main.py:316-318 | the remote path is unchanged when it ends with `local`; otherwise it starts with `remote` and ends with the file name |
| Commands.PushKeepsName | src/main.py:316-318 | a joined remote path has the file name of `local` as its own last segment |
| Commands.PosixJoin | src/main.py:318 | `os.path.join(a, b)` ends with `b`, and starts with `a` unless `b` is absolute |
| Commands.IsAbsolute | src/main.py:313 | an absolute POSIX path is non-empty and starts with `/` |
| Commands.PushPlan | src/main.py:307-318 | the checks of `push` pass exactly when devices are listed, `local` is given and `remote` is absolute; a missing path is reported exactly when devices are listed and a path is empty |
| Commands.PushPlanAbsolute | src/main.py:307-318 | the checks of `push` pass exactly when devices are listed, `local` is given and `remote` is absolute; the target is then absolute and under `remote` |
| Commands.ClearCache | src/main.py:449-451 | `clear` leaves an empty cache directory |
| RegistryDaemon.ListReplies | src/daemon.py:29-30 | `list` is answered with every device, and the set is unchanged |
| RegistryDaemon.Handle | src/daemon.py:26-35 | a served request replies exactly when it is `list`; the handler crashes exactly when a payload other than `list` holds `[` and does not decode |
| RegistryDaemon.MergeAddsAll | src/daemon.py:31-34 | another payload containing `[` adds exactly the decoded elements and gets no reply |
| RegistryDaemon.OthersIgnored | src/daemon.py:27-35 | any other payload, `stop` included, changes nothing and gets no reply |
| RegistryDaemon.HandleGrows | src/daemon.py:24-35 | no request removes a device |
| RegistryDaemon.MergeIdempotent | src/daemon.py:31-34 | sending the same payload twice leaves the set as sending it once |
| RegistryDaemon.ServeAll | src/daemon.py:24-35 | at most one reply per request, and a crash needs at least one request |
| RegistryDaemon.ListAfterMerge | src/daemon.py:29-34 | a `list` after a merge names every merged element |
| RegistryDaemon.ServeAllGrows | src/daemon.py:24-35 | over any sequence of requests the set only grows, and each reply holds every device known at the start |
| RegistryDaemon.RepliesOnlyToList | src/daemon.py:28-30 | without a `list` request no reply is sent |
| RegistryDaemon.Daemon.constructor | src/daemon.py:10-14 | the device set starts empty |
| RegistryDaemon.Daemon.GetDevices | src/daemon.py:17-18 | `get_devices` returns the current set and changes nothing |
| RegistryDaemon.Daemon.AddDevices | src/daemon.py:20-22 | `add_devices` makes the set the old set together with every given device |
| RegistryDaemon.Daemon.HandleRequest | src/daemon.py:26-35 | one request changes the set and replies as the handler says, or crashes when decoding fails |
| RegistryDaemon.Daemon.Serve | src/daemon.py:24-35 | the run loop ends in the state, replies and crash flag of the fold over the requests, and the set only grows |
| Client.Stringify | src/test.py:8-10 | a one-element list is sent as that element |
| Client.ReverseStringify | src/test.py:13-14 | the result is never empty, has one piece more than spaces, and no piece holds a space |
| Client.ReverseStringifyLoop | src/test.py:13-20 | the cleaning loop changes nothing: the split is returned as is |
| Client.RoundTrip | src/test.py:8-20 | a non-empty list of space-free elements survives the round trip |
| Client.EmptyListRoundTrip | src/test.py:8-20 | the empty list comes back as `[""]` |
| Client.ReverseThenStringify | src/test.py:8-14 | joining a split gives back the text |
| Client.SpaceSplitsElement | src/test.py:8-14 | an element holding exactly one space comes back as its two halves |
| Client.NothingStripped | src/test.py:13-20 | quotes, commas and brackets are not removed: a space-free text comes back whole |

## Left out

- Process spawning, terminal output, spinners, tables and `time.sleep` are not modelled. Tables are kept as the rows they would show, and console input is a given sequence of answers.
- adbutils calls (`connect`, `shell`, `device_list`, `track_devices`, `sync.push`/`pull`, `install`, `disconnect`) are parameters: a function from address or serial to the outcome, or a count of listed devices.
- Python exceptions raised by those calls and not caught by the program (AdbError in batch `connect` and in `broad-cmd`) are not modelled.
- pickle, appdirs and the file system are the abstract cache state. The `os.path.exists`/`mkdir` calls only create the directory and are not modelled.
- JSON decoding is left out. `load` takes the decoded list of records, with missing `ip` or `ports` keys not modelled; the empty `ports` list is. A missing `devices.json` and `JSONDecodeError` are not modelled either.
- The daemon's JSON decoding is a parameter returning the decoded elements or a failure. Elements that `set()` cannot hash count as a failure. The reply is the set itself; its JSON encoding and element order are not modelled.
- Sockets are not modelled: accept, the 1024-byte `recv` truncation and `close` in daemon.py, and the client's connect, send and daemon restart in test.py. A request is the text already received.
- PyStr.IsFloatText: the `_` digit separators and non-ASCII digits that `float()` also accepts are not modelled; the model accepts ASCII decimal literals with an optional sign and exponent, `inf`, `infinity` and `nan` in any case, with surrounding white space. The progress keeps the accepted text rather than its numeric value, and the progress bar itself is not modelled.
- Masscan.MonitorScan: the loop is given the stream of `readline()` results as a sequence; the scanner process itself is not modelled.
- Commands.Broadcast: `len(adb.device_list())` is read twice in the program (the check and `get_by_status`); the model uses one count for both. A shell output depends only on the serial.
- The loops that push, install or disconnect on every device, `show`, `kill-server`, `scrcpy`, and the textual `Display`/`Device` widgets are UI or adb plumbing and are not modelled.
- src/server.py is a Pyro4 wrapper around a list and is not part of this model.
- PyStr.ParseInt: `int()` also accepts `_` separators and non-ASCII digits; the model accepts only ASCII digits with an optional sign and surrounding white space.
- PyStr.Upper: only ASCII letters are upper-cased; Python's full Unicode case mapping is not modelled.
- PyStr.Replace: requires a non-empty pattern; every use in the program has one.
- PyStr.IsSpace: stands for both `str.isspace()` and the `\s` of `re.match`, which agree on every character the program can meet here.
- Commands.IsAbsolute: `PurePath(...).is_absolute()` is modelled for POSIX paths only: a path is absolute when it starts with `/`.

## Findings

| source | as written | input that shows it | evidently intended | confidence | as-written member | corrected member |
|---|---|---|---|---|---|---|
| src/main.py:57 | `if 0 > int(component) > 255` is a chained comparison that no integer satisfies, so no component is ever rejected for its value | `300.1.2.3/24` is accepted | reject a component outside 0..255 (`not 0 <= c <= 255`) | high, not executed | Masscan.OutOfRangeAccepted | Masscan.OutOfRangeRejectedStrict |
