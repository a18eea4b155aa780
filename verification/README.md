# s4 core: client commands, peer registry and bucket store

A Dafny model of the three small services of a toy object-storage cluster:

- **Client** (`src/client.py`). The interactive command loop reads lines until an empty one. Each line is split on single spaces. The first word selects `exit`, `get`, `post` or `delete`. `get` lists a bucket when the path matches `BUCKET_REGEX` and fetches an object otherwise. `post` creates a bucket when the path is `/` and uploads a file otherwise. `delete` is a stub. The name of a downloaded file comes from the `Content-Disposition` header, or else is the current time in nanoseconds.
- **Name server** (`src/name_server.py`). A list of peers `{host, port}`. `POST /` validates the body against the `Registry` model and appends it, even when the same pair is already listed. `GET /` returns the list in registration order. The host must be a dotted-quad IPv4 address or a dotted host name. The port must be a strict JSON integer in 0..65535.
- **File server** (`src/file_server.py`). The storage root is abstracted as the set of names of its children. `POST /{bucket}` makes a directory unless the name already exists. `GET /` lists one entry per child. `is_accessible_path` compares a path with the root.

Modules:

- `Wrappers`: `Option` and `Result`.
- `Strings`: Python's `str.split`, `sep.join`, `startswith`, `strip` and `str(int)` on `seq<char>`.
- `Client`, `NameServer` and `FileServer`: one module per source file.

Nondeterministic or external inputs become parameters:

- the clock, as `nowNs`;
- the lines read from standard input, as a sequence;
- the API key, as an `Option`;
- file metadata, as a `stat` function;
- the absolute path of the root, as `rootAbs`;
- which requests make a client handler raise (a missing local file, an unreachable server, a listing that is not JSON), as the predicate `fails`.

An HTTP request is modelled as the value the client would send, not as I/O.

The code appends a duplicate `{host, port}` pair again; `NameServer.DuplicatesKept` states it.

The two regular expressions run on different engines. The host pattern is checked by pydantic's engine (Rust's `regex` crate), where `$` is the strict end of the text, so a host with a final newline is rejected. `BUCKET_REGEX` runs on Python's `re`, whose `$` also matches before one final newline. The model follows each engine.

## Model

| member | source | states |
|---|---|---|
| Strings.Split | src/client.py:34 | `str.split(sep)`: at least one piece, and joining the pieces with `sep` gives back the input |
| Strings.SplitPiecesFreeOf | src/client.py:34 | no piece of a split contains the separator; there is one piece iff the separator does not occur |
| Strings.SplitJoin | src/client.py:34 | splitting the join of separator-free pieces on a one-character separator gives back the pieces (round trip) |
| Strings.FirstOccurrenceIsFirst | src/client.py:34 | the occurrence found is the leftmost one; none is found iff the separator does not occur |
| Strings.Strip | src/client.py:137 | `strip('"')`: the result neither starts nor ends with the quote |
| Strings.StripSlice | src/client.py:137 | the stripped string is a contiguous slice of the input, and everything removed on either side is the stripped character |
| Strings.Decimal | src/client.py:133 | `str(n)`: a non-empty digit string whose value is `n`, with no leading zero unless it is `"0"` |
| Client.WordRunEnd | src/client.py:10 | the greedy `\w+` run from a position: every character in it is a word character, and the character after it is not (or the text ends) |
| Client.BucketRegexMeaning | src/client.py:10 | `BUCKET_REGEX.match` (`Client.BucketRegexMatches`) succeeds exactly on `/`, or `/` + word characters + optional `/`, each possibly followed by one final newline (Python's `$`) |
| Client.BucketRegexOnTypedPath | src/client.py:10 | on a path without a newline, the regex matches iff the path is a bucket path |
| Client.HandleGet | src/client.py:65-70 | a bucket listing iff the regex matches the path, an object fetch otherwise; the URL is `REST_URL` followed by the path |
| Client.HandlePost | src/client.py:73-79 | bucket creation with `dir_name` = the local path iff the server path is exactly `/`; an upload of the local path otherwise; same URL rule |
| Client.HandleDelete | src/client.py:104-105 | deleting sends no request |
| Client.VerifyInput | src/client.py:127-128 | true iff the command begins with `/` (false on the empty string) |
| Client.ParseCommand | src/client.py:34-62 | the first space-separated word selects the command: `exit` ends; `get` and `delete` take the second word, `post` the second and third; too few words iff "Not enough arguments"; any other first word iff "Command not recognized"; extra words are ignored |
| Client.CommandWord | src/client.py:34 | the command word is the text before the first space, or the whole line when it has no space |
| Client.LineWords | src/client.py:34 | a line made of space-free words joined by single spaces splits back into exactly those words |
| Client.GetLine | src/client.py:38-44 | a line of the words `get`, `p` and any further words yields a get of `p` |
| Client.DeleteLine | src/client.py:53-59 | a line of the words `delete`, `p` and any further words yields a delete of `p` |
| Client.PostLine | src/client.py:45-52 | a line of the words `post`, `p`, `l` and any further words yields a post of `p` with local path `l` |
| Client.MissingArgumentLines | src/client.py:39-51 | the lines `get`, `delete`, `post` and `post <p>` report "Not enough arguments" |
| Client.DoubleSpaceGivesEmptyArgument | src/client.py:40 | adjacent spaces are not collapsed: `get  p` asks for the empty path |
| Client.ExitLine | src/client.py:36-37 | `exit`, alone or followed by any words, ends the client |
| Client.ParsedGetShape | src/client.py:38-44 | conversely, a line parsed as a get of `p` is `get ` + `p` followed by the end or a space, and `p` has no space |
| Client.ParsedPostShape | src/client.py:45-52 | conversely, a line parsed as a post is `post ` + `p` + ` ` + `l` followed by the end or a space, and neither argument has a space |
| Client.UnknownWord | src/client.py:60-62 | any other first word is reported as not recognised |
| Client.Dispatch | src/client.py:35-62 | the events of one command: one request with the API key for get and post, none for delete, one message for a missing argument or an unknown command |
| Client.RunLoop | src/client.py:30-62 | every logged request carries the API key and is one whose handler returned; the log has no more events than there are lines; the input runs out iff no line is empty, `exit`, or a command whose handler raises; the client ends by a raised handler only if some line's handler raised |
| Client.FirstStopDecidesEnding | src/client.py:30-37 | the first stopping line decides the ending: an empty line iff a normal return with status 0; `exit` gives the exit command; any other stopping line is a command whose handler raised |
| Client.LogInLineOrder | src/client.py:30-62 | the whole log, printed messages included, is the concatenation, in typing order, of what each line before the first stopping line does: a `get` or `post` line sends its request, a `delete` line adds nothing, a short command prints "Not enough arguments", an unknown one prints "Command not recognized"; lines from the first stopping line on add nothing |
| Client.MessagesPrinted | src/client.py:39-62 | a session of non-empty lines that are all too-short or unknown commands prints one message per line, in order: "Not enough arguments" for a known command with too few words, "Command not recognized" otherwise, and then the input runs out |
| Client.SentInLineOrder | src/client.py:30-62 | the requests sent are, in typing order, exactly those the `get` and `post` lines before the first stopping line hand to their handlers |
| Client.RunClient | src/client.py:24-30 | a missing or empty API key prints the error and stops before reading any line; otherwise the session is the loop run with that key |
| Client.ExitStatus | src/client.py:26-37 | the exit status is 0 only after an empty line; `exit`, a missing key, the end of input and a handler's exception all give 1 |
| Client.InputAfterStopIgnored | src/client.py:30-37 | lines after an empty line, `exit` or a raising handler have no effect on the session |
| Client.FailingPostEnds | src/client.py:45-52 | a `post` whose handler raises, such as an upload of a local file that does not exist (line 91), ends the client at once with status 1 and nothing logged |
| Client.OneRequestPerGetOrPost | src/client.py:30-62 | the number of requests logged equals the number of `get` and `post` lines handled before the loop stops |
| Client.FirstFilenamePart | src/client.py:135-136 | the index of the first `"; "`-separated part starting with `filename=`; none iff no part does |
| Client.FilenameFieldShape | src/client.py:137 | `part.split("=")[1]` (`Client.FilenameField`) is the text between the first and the second `=` (or the end) |
| Client.FilenameFromHeader | src/client.py:134-139 | a found name has no `=` and no quote at either end; nothing is found iff no part starts with `filename=` |
| Client.FilenameFromContentDisposition | src/client.py:131-140 | a missing header, or one naming no file, gives the decimal timestamp; the result never has `=` or a quote at either end |
| Client.FirstFilenamePartWins | src/client.py:135-139 | the first part starting with `filename=` decides the name; later ones are ignored |
| Client.FieldBeforeSecondEquals | src/client.py:137 | the field of `filename=<q>=<b>` is `q` when `q` has no `=` |
| Client.StrippedNameShape | src/client.py:137 | the name kept from a `filename=` part has no `=` and no quote at either end |
| Client.NameCutAtEquals | src/client.py:137 | a quoted name containing `=` is cut at that `=`: `filename="a=b"` gives `a` for every `b` |
| NameServer.OctetPatternIsOctet | src/name_server.py:14 | the octet alternation of the host pattern accepts exactly 1–3 digits with value at most 255 |
| NameServer.DottedQuadMatchesPattern | src/name_server.py:14 | four `.`-separated octets iff the string is the concatenation `o.o.o.o` of the first alternative |
| NameServer.HostNameMatchesPattern | src/name_server.py:14 | the label-by-label check iff the string is the concatenation `(label.)+final` of the second alternative |
| NameServer.ValidHostMatchesPattern | src/name_server.py:11-16 | the host check `NameServer.IsValidHost` (`IsDottedQuad` or `IsHostName`) accepts exactly the strings either alternative matches in full |
| NameServer.SingleLabelRejected | src/name_server.py:14 | a host without a dot, such as `localhost`, is rejected |
| NameServer.TrailingDotRejected | src/name_server.py:14 | a host ending in `.` is rejected |
| NameServer.OctetOverflowRejected | src/name_server.py:14 | four short digit fields with one above 255 are rejected by both alternatives |
| NameServer.QuadOfOctets | src/name_server.py:14 | any four octets joined by dots form a valid host |
| NameServer.ExampleAddress | src/name_server.py:14 | `10.0.0.1` is accepted |
| NameServer.LeadingZerosAccepted | src/name_server.py:14 | a three-digit field with a leading zero is an octet |
| NameServer.ExampleOverflow | src/name_server.py:14 | `256.1.1.1` is rejected |
| NameServer.Validate | src/name_server.py:10-17 | success iff the host is a valid host string and the port is a strict integer in 0..65535; a failure names exactly the offending fields |
| NameServer.StrictPortRefused | src/name_server.py:17 | the port check `NameServer.IsValidPort` refuses any port that is not a JSON integer in 0..65535, such as `"80"`, `80.0`, `true` or `65536`, and the error names the port |
| NameServer.RegisterServer | src/name_server.py:25-27 | 200 appends exactly the validated entry at the end; 422 leaves the list unchanged; the list stays valid |
| NameServer.ReadServersInOrder | src/name_server.py:20-27 | after any run of registrations, `GET /` (`NameServer.ReadServers`) returns the earlier list followed by the accepted entries in order |
| NameServer.DuplicatesKept | src/name_server.py:25-27 | registering the same pair twice stores it twice |
| FileServer.CreateBucket | src/file_server.py:51-61 | a name with a NUL or of more than 255 UTF-8 bytes fails with status 500 and no change; otherwise an absent name is added with status `ok`, and an existing name, or `.` or `..`, gives `error` and no change; no other name changes |
| FileServer.LongNameRefused | src/file_server.py:51-61 | a name of more than 255 characters is refused with status 500 whatever the store holds |
| FileServer.CreateTwice | src/file_server.py:51-61 | a second create of the same name does not succeed and leaves the store as the first left it |
| FileServer.ReadRoot | src/file_server.py:64-80 | the listing has one entry per child, each child exactly once, nothing else, each with that child's size and creation time |
| FileServer.CreatedBucketListedOnce | src/file_server.py:51-80 | after a successful create, a listing of the store shows the new bucket exactly once and otherwise only old buckets |
| FileServer.PathLessMeaning | src/file_server.py:83-84 | `a < b` on paths (`FileServer.PathLess`) iff `a` is a proper prefix of `b` or sorts first at the first differing component |
| FileServer.RootNotAccessible | src/file_server.py:83-84 | the root itself is not accessible (`FileServer.IsAccessiblePath`) |
| FileServer.ExtensionAccessible | src/file_server.py:83-84 | every path that strictly extends the root's components is accessible |
| FileServer.SiblingAccepted | src/file_server.py:83-84 | `../rooz` is accepted by the comparison but does not lie inside the root |
| FileServer.ClimbOutAccepted | src/file_server.py:83-84 | `../root/../etc` is accepted by the comparison but resolves outside the root |
| FileServer.InsideRootForNames | src/file_server.py:83-84 | for names below the root, the corrected check `FileServer.IsInsideRoot` accepts iff at least one name is added |
| FileServer.InsideRootIsAccessible | src/file_server.py:83-84 | every path the corrected check accepts resolves to one the comparison as written accepts |

## Left out

- HTTP transport, JSON encoding and the printing of responses (`get_dir`, `get_obj`, `post_dir`, `post_obj` in `src/client.py`): the model stops at the request value each handler would send.
- Writing the downloaded file and reading the uploaded one: these are file-system I/O.
- `argparse` parsing: the API key is an `Option<string>` parameter.
- `EOFError` from `input()`: it ends the session as `EndOfInput`, the uncaught exception's non-zero status.
- Client.RunLoop: which requests make a handler raise is the parameter `fails`, a function of the request alone. A session where the same request succeeds on one line and raises on a later one (the server stops between the two) is therefore not represented. The kind of exception and its traceback are not modelled. A request whose handler raised is not logged, even when it reached the server before the handler failed.
- Client.OneRequestPerGetOrPost: counts only requests whose handler returned, for the same reason as `Client.RunLoop`.
- `time.time_ns()`: replaced by the parameter `nowNs`.
- `FILENAME_REGEX` and `BANNED_CHARS_REGEX`: they are declared but never used.
- `\w` is modelled as ASCII letters, digits and `_`. Python's Unicode word characters are not modelled, and `re.I` changes nothing for this pattern.
- RFC 6266 quoting and `filename*=` in `Content-Disposition`: the source does not handle them.
- `read_object` and `read_bucket` in `src/file_server.py`: these are a file download and a per-bucket listing, both outside the core.
- `datetime` formatting of creation times: the `stat` parameter supplies the formatted string.
- FileServer.CreateBucket: the message shows `rootAbs + "/" + name`. For the names `.` and `..`, the source prints the resolved path instead: the root itself or its parent. Symbolic links in `resolve()` are also not modelled. Of the errors `mkdir` raises besides FileExistsError, only the embedded NUL (ValueError) and a name over 255 bytes (ENAMETOOLONG) are modelled. Permission errors, a full disk, a read-only file system and a full path beyond the system's path limit depend on the machine and are not modelled; each would also give status 500.
- FileServer.Resolve: resolution is lexical only and does not follow symbolic links. Paths are component sequences, and absolute paths (whose anchor representation differs across Python versions) are not modelled.
- The registry is in memory and is lost on restart, as in the code.
- The code has no journal, replication, encryption or request authentication.
- The `src/rest_server.py` and `src/scripts/` start-up code: only process wiring.
- Top-level `file_server.py` (an older copy of the listing, all I/O), `build.py` (copies files into `out/`) and `test.py` (a manual smoke script): not part of this model.

## Findings

| source | as written | input that shows it | evidently intended | confidence | as-written member | corrected member |
|---|---|---|---|---|---|---|
| src/file_server.py:83-84 | `ROOT < path` compares paths lexicographically, component by component | `Path("../rooz")` and `Path("../root/../etc")` are both accepted | accept only paths that resolve strictly inside `../root` | not executed; high for the comparison semantics, although no handler calls the function | FileServer.SiblingAccepted | FileServer.InsideRootIsAccessible |

`FileServer.IsAccessiblePath` is the comparison as written. `FileServer.IsInsideRoot` is the corrected test: it resolves `.` and `..`, then requires a strict extension of the root. `FileServer.InsideRootForNames` states that, for plain names below the root, the corrected test accepts exactly the strict extensions. `FileServer.ClimbOutAccepted` is a second counterexample.
