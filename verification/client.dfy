/**
 * The command-line client: it reads lines of the form `get <path>`,
 * `post <path> <local>`, `delete <path>` or `exit`, turns them into HTTP
 * requests against the storage node, and names downloaded files after the
 * `Content-Disposition` header of the response.
 */
module Client {
  import opened Wrappers
  import opened Strings

  /** Base URL every request path is appended to. */
  const RestUrl := "http://127.0.0.1:8231"

  /** An HTTP request the client sends; `url` is `RestUrl` followed by the server-side path. */
  datatype Request =
    | ListBucket(url: string)                     // GET, response read as JSON
    | FetchObject(url: string)                    // GET, response body written to a local file
    | CreateBucket(url: string, dirName: string)  // POST with JSON body {"dir_name": dirName}
    | UploadObject(url: string, localPath: string) // POST with the local file as multipart "file"

  // ---------------------------------------------------------------------
  // BUCKET_REGEX = `/\w+\/?$|\/$`, applied with `re.match` (anchored at the start only)
  // ---------------------------------------------------------------------

  /** Python's `$`: the end of the string, or just before a newline that ends it. */
  predicate DollarAt(p: string, k: nat) {
    k == |p| || (k + 1 == |p| && p[k] == '\n')
  }

  /** End of the maximal run of word characters starting at `k` (greedy `\w*`). */
  function WordRunEnd(p: string, k: nat): (e: nat)
    requires k <= |p|
    ensures k <= e <= |p|
    ensures forall i :: k <= i < e ==> IsWordChar(p[i])
    ensures e == |p| || !IsWordChar(p[e])
    decreases |p| - k
  {
    if k < |p| && IsWordChar(p[k]) then WordRunEnd(p, k + 1) else k
  }

  /**
   * `BUCKET_REGEX.match(p)`, alternative by alternative. In the first one,
   * `\w+` takes the longest run of word characters; giving characters back
   * cannot help, since the next character would be a word character, which
   * neither `/` nor `$` accepts.
   */
  predicate BucketRegexMatches(p: string) {
    && |p| > 0 && p[0] == '/'
    && (|| (var e := WordRunEnd(p, 1);
            e > 1 && (DollarAt(p, e) || (e < |p| && p[e] == '/' && DollarAt(p, e + 1))))
        || DollarAt(p, 1))
  }

  /** `/`, or `/` followed by one or more word characters and an optional trailing `/`. */
  predicate IsBucketPath(p: string) {
    || p == "/"
    || (&& |p| >= 2 && p[0] == '/'
        && (forall i :: 1 <= i < |p| - 1 ==> IsWordChar(p[i]))
        && (IsWordChar(p[|p| - 1]) || (|p| >= 3 && p[|p| - 1] == '/')))
  }

  /**
   * The regex matches exactly the bucket paths, each possibly followed by one
   * final newline (the only place Python's `$` differs from end-of-string).
   */
  lemma BucketRegexMeaning(p: string)
    ensures BucketRegexMatches(p) <==>
      || IsBucketPath(p)
      || (|p| > 0 && p[|p| - 1] == '\n' && IsBucketPath(p[..|p| - 1]))
  {
    if |p| > 0 && p[0] == '/' {
      var e := WordRunEnd(p, 1);
      if |p| > 0 && p[|p| - 1] == '\n' && IsBucketPath(p[..|p| - 1]) {
        var q := p[..|p| - 1];
        if q != "/" {
          assert forall i :: 1 <= i < |q| - 1 ==> IsWordChar(p[i]);
          if IsWordChar(q[|q| - 1]) {
            assert e == |q|;
          } else {
            assert e == |q| - 1;
          }
        }
      }
      if IsBucketPath(p) && p != "/" {
        assert forall i :: 1 <= i < |p| - 1 ==> IsWordChar(p[i]);
        if IsWordChar(p[|p| - 1]) {
          assert e == |p|;
        } else {
          assert e == |p| - 1;
        }
      }
      if e > 1 && e < |p| && p[e] == '/' && DollarAt(p, e + 1) && e + 2 == |p| {
        assert p[..|p| - 1] == p[..e + 1];
      }
    }
  }

  /** Paths without a newline (every path typed at the prompt) match iff they are bucket paths. */
  lemma BucketRegexOnTypedPath(p: string)
    requires '\n' !in p
    ensures BucketRegexMatches(p) <==> IsBucketPath(p)
  {
    BucketRegexMeaning(p);
  }

  // ---------------------------------------------------------------------
  // Handlers
  // ---------------------------------------------------------------------

  /** `handle_get`: a bucket listing when the regex matches, an object fetch otherwise. */
  function HandleGet(serverPath: string): (r: Request)
    ensures r.ListBucket? || r.FetchObject?
    ensures r.url == RestUrl + serverPath
    ensures r.ListBucket? <==>
      || IsBucketPath(serverPath)
      || (|serverPath| > 0 && serverPath[|serverPath| - 1] == '\n'
          && IsBucketPath(serverPath[..|serverPath| - 1]))
  {
    BucketRegexMeaning(serverPath);
    if BucketRegexMatches(serverPath) then ListBucket(RestUrl + serverPath)
    else FetchObject(RestUrl + serverPath)
  }

  /** `handle_post`: bucket creation when the path is exactly `/`, an object upload otherwise. */
  function HandlePost(serverPath: string, localPath: string): (r: Request)
    ensures r.CreateBucket? || r.UploadObject?
    ensures r.url == RestUrl + serverPath
    ensures r.CreateBucket? <==> serverPath == "/"
    ensures r.CreateBucket? ==> r.dirName == localPath
    ensures r.UploadObject? ==> r.localPath == localPath
  {
    if serverPath == "/" then CreateBucket(RestUrl + serverPath, localPath)
    else UploadObject(RestUrl + serverPath, localPath)
  }

  /** `handle_del` is a stub: it sends no request. */
  function HandleDelete(serverPath: string): (r: Option<Request>)
    ensures r == None
  {
    None
  }

  /** `verify_input`: the path begins with `/`. */
  function VerifyInput(command: string): (r: bool)
    ensures r <==> |command| > 0 && command[0] == '/'
  {
    StartsWith(command, "/")
  }

  // ---------------------------------------------------------------------
  // Command lines
  // ---------------------------------------------------------------------

  /** What one non-empty input line asks for. */
  datatype Command =
    | Exit
    | Get(serverPath: string)
    | Post(serverPath: string, localPath: string)
    | Delete(serverPath: string)
    | NotEnoughArguments
    | NotRecognized

  /** Python `line.split(" ")`: never empty, and joining the words with spaces gives the line back. */
  function Words(line: string): (w: seq<string>)
    ensures |w| > 0 && Join(w, " ") == line
  {
    Split(line, " ")
  }

  /**
   * The command word selects the command; missing positional words are
   * reported, extra ones ignored, and an unknown command word is reported
   * whatever follows it.
   */
  function ParseCommand(line: string): (c: Command)
    ensures var w := Words(line);
      && (c.Exit? <==> w[0] == "exit")
      && (c.Get? <==> w[0] == "get" && |w| >= 2)
      && (c.Get? ==> c.serverPath == w[1])
      && (c.Post? <==> w[0] == "post" && |w| >= 3)
      && (c.Post? ==> c.serverPath == w[1] && c.localPath == w[2])
      && (c.Delete? <==> w[0] == "delete" && |w| >= 2)
      && (c.Delete? ==> c.serverPath == w[1])
      && (c.NotEnoughArguments? <==>
            || ((w[0] == "get" || w[0] == "delete") && |w| < 2)
            || (w[0] == "post" && |w| < 3))
      && (c.NotRecognized? <==> w[0] !in {"exit", "get", "post", "delete"})
  {
    var w := Words(line);
    if w[0] == "exit" then Exit
    else if w[0] == "get" then (if |w| < 2 then NotEnoughArguments else Get(w[1]))
    else if w[0] == "post" then (if |w| < 3 then NotEnoughArguments else Post(w[1], w[2]))
    else if w[0] == "delete" then (if |w| < 2 then NotEnoughArguments else Delete(w[1]))
    else NotRecognized
  }

  /** The command word is the text before the first space, or the whole line when there is none. */
  lemma CommandWord(line: string)
    ensures ' ' !in line ==> Words(line) == [line]
    ensures forall i :: 0 <= i < |line| && line[i] == ' ' && ' ' !in line[..i] ==>
              Words(line)[0] == line[..i]
  {
    ContainsChar(line, ' ');
    forall i | 0 <= i < |line| && line[i] == ' ' && ' ' !in line[..i]
      ensures Words(line)[0] == line[..i]
    {
      assert line == line[..i] + [' '] + line[i + 1..];
      SplitAtFirstChar(line[..i], ' ', line[i + 1..]);
    }
  }

  /** Words of `word + " " + rest` when `word` has no space. */
  lemma WordsCons(word: string, rest: string)
    requires ' ' !in word
    ensures Words(word + " " + rest) == [word] + Words(rest)
  {
    SplitAtFirstChar(word, ' ', rest);
  }

  /** Every word of the list is free of spaces. */
  predicate SpaceFree(ws: seq<string>) {
    forall i :: 0 <= i < |ws| ==> ' ' !in ws[i]
  }

  /** A line made of space-free words joined by single spaces splits back into those words. */
  lemma LineWords(ws: seq<string>)
    requires |ws| > 0 && SpaceFree(ws)
    ensures Words(Join(ws, " ")) == ws
  {
    SplitJoin(ws, ' ');
  }

  /** `get <p>` fetches or lists `p`; any further words are ignored. */
  lemma GetLine(p: string, more: seq<string>)
    requires ' ' !in p && SpaceFree(more)
    ensures ParseCommand(Join(["get", p] + more, " ")) == Get(p)
  {
    var ws := ["get", p] + more;
    assert ws[0] == "get" && ws[1] == p;
    LineWords(ws);
  }

  /** `delete <p>` names `p`; any further words are ignored. */
  lemma DeleteLine(p: string, more: seq<string>)
    requires ' ' !in p && SpaceFree(more)
    ensures ParseCommand(Join(["delete", p] + more, " ")) == Delete(p)
  {
    var ws := ["delete", p] + more;
    assert ws[0] == "delete" && ws[1] == p;
    LineWords(ws);
  }

  /** `post <p> <l>` names a server path and a local path; any further words are ignored. */
  lemma PostLine(p: string, l: string, more: seq<string>)
    requires ' ' !in p && ' ' !in l && SpaceFree(more)
    ensures ParseCommand(Join(["post", p, l] + more, " ")) == Post(p, l)
  {
    var ws := ["post", p, l] + more;
    assert ws[0] == "post" && ws[1] == p && ws[2] == l;
    LineWords(ws);
  }

  /** A command word without the arguments it needs is reported, not sent. */
  lemma MissingArgumentLines(ws: seq<string>)
    requires SpaceFree(ws)
    requires ws == ["get"] || ws == ["delete"] || ws == ["post"] || (|ws| == 2 && ws[0] == "post")
    ensures ParseCommand(Join(ws, " ")) == NotEnoughArguments
  {
    LineWords(ws);
  }

  /** `exit`, alone or followed by any words, ends the client. */
  lemma ExitLine(more: seq<string>)
    requires SpaceFree(more)
    ensures ParseCommand(Join(["exit"] + more, " ")) == Exit
  {
    var ws := ["exit"] + more;
    assert ws[0] == "exit";
    LineWords(ws);
  }

  /** Words are not collapsed: a doubled space yields an empty argument. */
  lemma DoubleSpaceGivesEmptyArgument(line: string, p: string)
    requires line == "get  " + p
    ensures ParseCommand(line) == Get("")
  {
    var g := "get";
    assert line == g + " " + ("" + " " + p);
    WordsCons(g, "" + " " + p);
    WordsCons("", p);
  }

  /**
   * Conversely, a line parsed as `get <p>` is `get `, then `p` (which has no
   * space), then the end of the line or a space.
   */
  lemma ParsedGetShape(line: string)
    requires ParseCommand(line).Get?
    ensures var p := ParseCommand(line).serverPath;
      && ' ' !in p
      && StartsWith(line, "get " + p)
      && (|line| == 4 + |p| || line[4 + |p|] == ' ')
  {
    var w := Words(line);
    var p := w[1];
    SplitPiecesFree(line, ' ');
    JoinFront(w, " ");
    JoinStartsWithFirst(w[1..], ' ');
    var j := Join(w[1..], " ");
    assert line == "get" + " " + j;
    assert line[..4 + |p|] == "get " + j[..|p|];
  }

  /**
   * A line parsed as `post <p> <l>` is `post `, `p`, a space, `l`, then the
   * end of the line or a space; neither argument has a space.
   */
  lemma ParsedPostShape(line: string)
    requires ParseCommand(line).Post?
    ensures var c := ParseCommand(line);
      && ' ' !in c.serverPath && ' ' !in c.localPath
      && StartsWith(line, "post " + c.serverPath + " " + c.localPath)
      && (|line| == 6 + |c.serverPath| + |c.localPath|
          || line[6 + |c.serverPath| + |c.localPath|] == ' ')
  {
    var w := Words(line);
    var p, l := w[1], w[2];
    SplitPiecesFree(line, ' ');
    JoinFront(w, " ");
    JoinFront(w[1..], " ");
    assert w[1..][1..] == w[2..];
    JoinStartsWithFirst(w[2..], ' ');
    var j := Join(w[2..], " ");
    assert line == "post" + " " + (p + " " + j);
    assert line[..6 + |p| + |l|] == "post " + p + " " + j[..|l|];
  }

  /** Any other command word is not recognised. */
  lemma UnknownWord(line: string)
    requires Words(line)[0] !in {"exit", "get", "post", "delete"}
    ensures ParseCommand(line) == NotRecognized
  {
  }

  // ---------------------------------------------------------------------
  // The interactive loop
  // ---------------------------------------------------------------------

  /** What handling one line produces. */
  datatype Event =
    | Sent(request: Request, authorization: string)  // handled without raising, with header Authorization: <api key>
    | Printed(message: string)

  /** Why the client stopped. */
  datatype Ending =
    | EmptyLine      // the loop condition: an empty line ends the loop
    | ExitCommand    // `exit` calls exit(1)
    | EndOfInput     // input() raises EOFError, which is not caught
    | HandlerRaised  // a handler raised and nothing catches it: the traceback ends the process
    | NoApiKey       // started without a (non-empty) --api_key

  datatype Session = Session(events: seq<Event>, ending: Ending)

  /**
   * Which requests make their handler raise instead of returning: an upload
   * whose local file cannot be opened, a server that cannot be reached, a URL
   * httpx refuses, a listing whose body is not JSON. That is decided by the
   * file system and the network, so the loop takes it as a parameter.
   */
  type Failures = Request -> bool

  const NotEnoughArgumentsMessage := "Not enough arguments"
  const NotRecognizedMessage := "Command not recognized"
  const MissingKeyMessage := "Error: API key is required."

  /** The request a command hands to its handler, if any; `delete` hands over none. */
  function RequestOf(c: Command): (r: Option<Request>) {
    match c
    case Get(p) => Some(HandleGet(p))
    case Post(p, l) => Some(HandlePost(p, l))
    case Delete(p) => HandleDelete(p)
    case _ => None
  }

  /** Events of one non-exit command whose handler returns, sent with the given API key. */
  function Dispatch(key: string, c: Command): (r: seq<Event>)
    requires !c.Exit?
    ensures |r| <= 1
    ensures c.Get? ==> r == [Sent(HandleGet(c.serverPath), key)]
    ensures c.Post? ==> r == [Sent(HandlePost(c.serverPath, c.localPath), key)]
    ensures c.Delete? ==> r == []
    ensures c.NotEnoughArguments? ==> r == [Printed(NotEnoughArgumentsMessage)]
    ensures c.NotRecognized? ==> r == [Printed(NotRecognizedMessage)]
    ensures forall i :: 0 <= i < |r| && r[i].Sent? ==> r[i].authorization == key && RequestOf(c) == Some(r[i].request)
  {
    match c
    case Get(p) => [Sent(HandleGet(p), key)]
    case Post(p, l) => [Sent(HandlePost(p, l), key)]
    case Delete(p) => assert HandleDelete(p).None?; []
    case NotEnoughArguments => [Printed(NotEnoughArgumentsMessage)]
    case NotRecognized => [Printed(NotRecognizedMessage)]
  }

  /** The handler called for `line` raises. */
  predicate HandlerFails(fails: Failures, line: string) {
    var r := RequestOf(ParseCommand(line));
    r.Some? && fails(r.value)
  }

  /** A line that stops the loop. */
  predicate Stops(fails: Failures, line: string) {
    line == "" || ParseCommand(line) == Exit || HandlerFails(fails, line)
  }

  /** How a stopping line ends the client. */
  function StopEnding(fails: Failures, line: string): (e: Ending)
    requires Stops(fails, line)
  {
    if line == "" then EmptyLine
    else if ParseCommand(line) == Exit then ExitCommand
    else HandlerRaised
  }

  /** Number of requests in a log. */
  function SentCount(events: seq<Event>): (n: nat)
    decreases |events|
  {
    if |events| == 0 then 0
    else (if events[0].Sent? then 1 else 0) + SentCount(events[1..])
  }

  lemma {:induction false} SentCountAppend(a: seq<Event>, b: seq<Event>)
    ensures SentCount(a + b) == SentCount(a) + SentCount(b)
    decreases |a|
  {
    if |a| > 0 {
      SentCountAppend(a[1..], b);
      assert (a + b)[0] == a[0];
      assert (a + b)[1..] == a[1..] + b;
    } else {
      assert a + b == b;
    }
  }

  /**
   * The `while user_input := input(...)` loop. Every request carries the API
   * key, at most one is sent per line read, every logged request is one whose
   * handler returned, and the client only ends by a raised handler when some
   * line's handler raised.
   */
  function RunLoop(key: string, fails: Failures, lines: seq<string>): (s: Session)
    ensures forall i :: 0 <= i < |s.events| && s.events[i].Sent? ==> s.events[i].authorization == key
    ensures forall i :: 0 <= i < |s.events| && s.events[i].Sent? ==> !fails(s.events[i].request)
    ensures |s.events| <= |lines|
    ensures s.ending != NoApiKey
    ensures s.ending == EndOfInput <==> forall i :: 0 <= i < |lines| ==> !Stops(fails, lines[i])
    ensures s.ending == HandlerRaised ==> exists i :: 0 <= i < |lines| && HandlerFails(fails, lines[i])
    decreases |lines|
  {
    if |lines| == 0 then Session([], EndOfInput)
    else if Stops(fails, lines[0]) then Session([], StopEnding(fails, lines[0]))
    else
      var d := Dispatch(key, ParseCommand(lines[0]));
      assert forall i :: 0 <= i < |d| && d[i].Sent? ==> d[i].authorization == key && !fails(d[i].request);
      var rest := RunLoop(key, fails, lines[1..]);
      assert forall i :: 1 <= i < |lines| ==> lines[i] == lines[1..][i - 1];
      Session(d + rest.events, rest.ending)
  }

  /** `main`: refuse to start without an API key, then run the loop. */
  function RunClient(apiKey: Option<string>, fails: Failures, lines: seq<string>): (s: Session)
    ensures apiKey.None? || apiKey.value == "" ==>
              s == Session([Printed(MissingKeyMessage)], NoApiKey)
    ensures apiKey.Some? && apiKey.value != "" ==>
              forall i :: 0 <= i < |s.events| && s.events[i].Sent? ==>
                s.events[i].authorization == apiKey.value
    ensures apiKey.Some? && apiKey.value != "" ==> s == RunLoop(apiKey.value, fails, lines)
  {
    if apiKey.None? || apiKey.value == "" then Session([Printed(MissingKeyMessage)], NoApiKey)
    else RunLoop(apiKey.value, fails, lines)
  }

  /**
   * Process exit status: 0 after an empty line; 1 for `exit`, a missing key,
   * and an uncaught exception (EOFError or one raised by a handler).
   */
  function ExitStatus(e: Ending): (code: int)
    ensures code == 0 <==> e == EmptyLine
    ensures e != EmptyLine ==> code == 1
  {
    if e == EmptyLine then 0 else 1
  }

  /** Once a stopping line has been read, nothing typed after it has any effect. */
  lemma InputAfterStopIgnored(key: string, fails: Failures, lines: seq<string>, more: seq<string>)
    requires exists i :: 0 <= i < |lines| && Stops(fails, lines[i])
    ensures RunLoop(key, fails, lines + more) == RunLoop(key, fails, lines)
  {
    var i :| 0 <= i < |lines| && Stops(fails, lines[i]);
    InputAfterStopAtIgnored(key, fails, lines, more, i);
  }

  /** The same, with the stopping line given by its index. */
  lemma {:induction false} InputAfterStopAtIgnored(key: string, fails: Failures, lines: seq<string>, more: seq<string>, i: nat)
    requires i < |lines| && Stops(fails, lines[i])
    ensures RunLoop(key, fails, lines + more) == RunLoop(key, fails, lines)
    decreases i
  {
    var all := lines + more;
    assert all[0] == lines[0];
    if i == 0 || Stops(fails, lines[0]) {
      RunLoopStop(key, fails, lines);
      RunLoopStop(key, fails, all);
    } else {
      assert lines[1..][i - 1] == lines[i];
      InputAfterStopAtIgnored(key, fails, lines[1..], more, i - 1);
      TailOfAppend(lines, more);
      RunLoopStep(key, fails, lines);
      RunLoopStep(key, fails, all);
    }
  }

  /** A stopping line ends the loop with no events. */
  lemma RunLoopStop(key: string, fails: Failures, lines: seq<string>)
    requires |lines| > 0 && Stops(fails, lines[0])
    ensures RunLoop(key, fails, lines) == Session([], StopEnding(fails, lines[0]))
  {
  }

  /** A line that does not stop the loop contributes its events, then the loop goes on. */
  lemma RunLoopStep(key: string, fails: Failures, lines: seq<string>)
    requires |lines| > 0 && !Stops(fails, lines[0])
    ensures var rest := RunLoop(key, fails, lines[1..]);
      RunLoop(key, fails, lines) == Session(Dispatch(key, ParseCommand(lines[0])) + rest.events, rest.ending)
  {
  }

  /** A `post` whose handler raises (for instance a local file that does not exist) ends the client with status 1. */
  lemma FailingPostEnds(key: string, fails: Failures, line: string, more: seq<string>)
    requires line != "" && ParseCommand(line).Post?
    requires fails(HandlePost(ParseCommand(line).serverPath, ParseCommand(line).localPath))
    ensures RunLoop(key, fails, [line] + more) == Session([], HandlerRaised)
    ensures ExitStatus(RunLoop(key, fails, [line] + more).ending) == 1
  {
    assert ([line] + more)[0] == line;
  }

  /** Number of `get` and `post` lines whose handler returned before the loop stops. */
  function SendingLines(fails: Failures, lines: seq<string>): (n: nat)
    decreases |lines|
  {
    if |lines| == 0 || Stops(fails, lines[0]) then 0
    else
      var c := ParseCommand(lines[0]);
      (if c.Get? || c.Post? then 1 else 0) + SendingLines(fails, lines[1..])
  }

  /** Exactly one request is logged per `get` or `post` line handled; every other line logs none. */
  lemma {:induction false} OneRequestPerGetOrPost(key: string, fails: Failures, lines: seq<string>)
    ensures SentCount(RunLoop(key, fails, lines).events) == SendingLines(fails, lines)
    decreases |lines|
  {
    if |lines| > 0 && !Stops(fails, lines[0]) {
      var c := ParseCommand(lines[0]);
      OneRequestPerGetOrPost(key, fails, lines[1..]);
      var rest := RunLoop(key, fails, lines[1..]);
      SentCountAppend(Dispatch(key, c), rest.events);
      var d := Dispatch(key, c);
      if |d| == 1 {
        assert d[1..] == [];
      }
    }
  }

  /** `i` is the first line that stops the loop. */
  predicate FirstStop(fails: Failures, lines: seq<string>, i: nat) {
    i < |lines| && HandledPrefix(fails, lines, i)
  }

  /** The loop handles exactly the first `n` lines: none of them stops it, and line `n`, if there is one, does. */
  predicate HandledPrefix(fails: Failures, lines: seq<string>, n: nat) {
    && n <= |lines|
    && (n < |lines| ==> Stops(fails, lines[n]))
    && forall j :: 0 <= j < n ==> !Stops(fails, lines[j])
  }

  /** After the first handled line, the loop handles the next `n - 1`. */
  lemma HandledPrefixTail(fails: Failures, lines: seq<string>, n: nat)
    requires n > 0 && HandledPrefix(fails, lines, n)
    ensures !Stops(fails, lines[0]) && HandledPrefix(fails, lines[1..], n - 1)
  {
    assert forall j :: 0 <= j < n - 1 ==> lines[1..][j] == lines[j + 1];
  }

  /**
   * The first stopping line decides how the client ends: an empty line
   * returns normally, `exit` exits, and any other stopping line is one
   * whose handler raised.
   */
  lemma {:induction false} FirstStopDecidesEnding(key: string, fails: Failures, lines: seq<string>, i: nat)
    requires FirstStop(fails, lines, i)
    ensures RunLoop(key, fails, lines).ending == EmptyLine <==> lines[i] == ""
    ensures lines[i] != "" && ParseCommand(lines[i]).Exit? ==>
              RunLoop(key, fails, lines).ending == ExitCommand
    ensures lines[i] != "" && !ParseCommand(lines[i]).Exit? ==>
              RunLoop(key, fails, lines).ending == HandlerRaised && HandlerFails(fails, lines[i])
    ensures ExitStatus(RunLoop(key, fails, lines).ending) == 0 <==> lines[i] == ""
    decreases i
  {
    if i == 0 {
      RunLoopStop(key, fails, lines);
    } else {
      HandledPrefixTail(fails, lines, i);
      FirstStopDecidesEnding(key, fails, lines[1..], i - 1);
      RunLoopStep(key, fails, lines);
    }
  }

  /** The requests in a log, in the order they were sent. */
  function SentRequests(events: seq<Event>): (rs: seq<Request>)
    ensures |rs| == SentCount(events)
    decreases |events|
  {
    if |events| == 0 then []
    else (if events[0].Sent? then [events[0].request] else []) + SentRequests(events[1..])
  }

  lemma {:induction false} SentRequestsAppend(a: seq<Event>, b: seq<Event>)
    ensures SentRequests(a + b) == SentRequests(a) + SentRequests(b)
    decreases |a|
  {
    if |a| > 0 {
      SentRequestsAppend(a[1..], b);
      assert (a + b)[0] == a[0];
      assert (a + b)[1..] == a[1..] + b;
    } else {
      assert a + b == b;
    }
  }

  /** The requests the given lines hand to their handlers, in order, whatever the handlers do. */
  function LineRequests(lines: seq<string>): (rs: seq<Request>)
    ensures |rs| <= |lines|
    decreases |lines|
  {
    if |lines| == 0 then []
    else
      var r := RequestOf(ParseCommand(lines[0]));
      (if r.Some? then [r.value] else []) + LineRequests(lines[1..])
  }

  /** The log of one handled command holds the request it hands its handler, if any. */
  lemma DispatchRequests(key: string, c: Command)
    requires !c.Exit?
    ensures SentRequests(Dispatch(key, c)) == (if RequestOf(c).Some? then [RequestOf(c).value] else [])
  {
    var d := Dispatch(key, c);
    if |d| == 1 {
      assert d[1..] == [];
    }
  }

  /**
   * The requests sent are exactly those of the `get` and `post` lines read
   * before the loop stops (the first `n` lines), in the order they were typed.
   */
  lemma {:induction false} SentInLineOrder(key: string, fails: Failures, lines: seq<string>, n: nat)
    requires HandledPrefix(fails, lines, n)
    ensures SentRequests(RunLoop(key, fails, lines).events) == LineRequests(lines[..n])
    decreases n
  {
    if n == 0 {
      if |lines| > 0 {
        RunLoopStop(key, fails, lines);
      }
    } else {
      HandledPrefixTail(fails, lines, n);
      var c := ParseCommand(lines[0]);
      SentInLineOrder(key, fails, lines[1..], n - 1);
      RunLoopStep(key, fails, lines);
      SentRequestsAppend(Dispatch(key, c), RunLoop(key, fails, lines[1..]).events);
      DispatchRequests(key, c);
      TakeThenTail(lines, n);
    }
  }

  /**
   * What the given lines log when each is handled: the events of its command,
   * in order; an `exit` line logs nothing.
   */
  function LineEvents(key: string, lines: seq<string>): (es: seq<Event>)
    ensures |es| <= |lines|
    decreases |lines|
  {
    if |lines| == 0 then []
    else
      var c := ParseCommand(lines[0]);
      (if c.Exit? then [] else Dispatch(key, c)) + LineEvents(key, lines[1..])
  }

  /** The log of the first `n` lines starts with the events of the first one. */
  lemma LineEventsFront(key: string, lines: seq<string>, n: nat)
    requires 0 < n <= |lines| && !ParseCommand(lines[0]).Exit?
    ensures LineEvents(key, lines[..n]) ==
              Dispatch(key, ParseCommand(lines[0])) + LineEvents(key, lines[1..][..n - 1])
  {
    TakeThenTail(lines, n);
  }

  /**
   * The whole log of a session, printed messages included, is the events of
   * the lines read before the loop stops (the first `n`), in the order typed.
   */
  lemma {:induction false} LogInLineOrder(key: string, fails: Failures, lines: seq<string>, n: nat)
    requires HandledPrefix(fails, lines, n)
    ensures RunLoop(key, fails, lines).events == LineEvents(key, lines[..n])
    decreases n
  {
    if n == 0 {
      if |lines| > 0 {
        RunLoopStop(key, fails, lines);
      }
    } else {
      HandledPrefixTail(fails, lines, n);
      LogInLineOrder(key, fails, lines[1..], n - 1);
      RunLoopStep(key, fails, lines);
      LineEventsFront(key, lines, n);
    }
  }

  /** Lines with a missing argument or an unknown command word each print their message, in order. */
  lemma MessagesPrinted(key: string, fails: Failures, lines: seq<string>)
    requires forall j :: 0 <= j < |lines| ==> lines[j] != ""
    requires forall j :: 0 <= j < |lines| ==>
               ParseCommand(lines[j]).NotEnoughArguments? || ParseCommand(lines[j]).NotRecognized?
    ensures var s := RunLoop(key, fails, lines);
      && s.ending == EndOfInput
      && |s.events| == |lines|
      && forall j :: 0 <= j < |lines| ==>
           s.events[j] == Printed(if ParseCommand(lines[j]).NotEnoughArguments?
                                  then NotEnoughArgumentsMessage else NotRecognizedMessage)
  {
    assert HandledPrefix(fails, lines, |lines|);
    LogInLineOrder(key, fails, lines, |lines|);
    assert lines[..|lines|] == lines;
    PrintedLines(key, lines);
  }

  lemma {:induction false} PrintedLines(key: string, lines: seq<string>)
    requires forall j :: 0 <= j < |lines| ==>
               ParseCommand(lines[j]).NotEnoughArguments? || ParseCommand(lines[j]).NotRecognized?
    ensures var es := LineEvents(key, lines);
      && |es| == |lines|
      && forall j :: 0 <= j < |lines| ==>
           es[j] == Printed(if ParseCommand(lines[j]).NotEnoughArguments?
                            then NotEnoughArgumentsMessage else NotRecognizedMessage)
    decreases |lines|
  {
    if |lines| > 0 {
      var c := ParseCommand(lines[0]);
      var m := if c.NotEnoughArguments? then NotEnoughArgumentsMessage else NotRecognizedMessage;
      assert Dispatch(key, c) == [Printed(m)];
      var es, tail := LineEvents(key, lines), LineEvents(key, lines[1..]);
      assert es == [Printed(m)] + tail;
      PrintedLines(key, lines[1..]);
      forall j | 0 < j < |lines|
        ensures es[j] == Printed(if ParseCommand(lines[j]).NotEnoughArguments?
                                 then NotEnoughArgumentsMessage else NotRecognizedMessage)
      {
        assert es[j] == tail[j - 1] && lines[j] == lines[1..][j - 1];
      }
    }
  }

  // ---------------------------------------------------------------------
  // Content-Disposition filename
  // ---------------------------------------------------------------------

  const FilenameKey := "filename="

  /** Index of the first part that starts with `filename=`. */
  function FirstFilenamePart(parts: seq<string>): (r: Option<nat>)
    ensures r.Some? ==> r.value < |parts| && StartsWith(parts[r.value], FilenameKey)
    ensures r.Some? ==> forall j :: 0 <= j < r.value ==> !StartsWith(parts[j], FilenameKey)
    ensures r.None? <==> forall j :: 0 <= j < |parts| ==> !StartsWith(parts[j], FilenameKey)
    decreases |parts|
  {
    if |parts| == 0 then None
    else if StartsWith(parts[0], FilenameKey) then Some(0)
    else
      match FirstFilenamePart(parts[1..])
      case None => None
      case Some(k) => Some(k + 1)
  }

  /** A part starting with `filename=` is `filename`, the first `=`, then the rest. */
  lemma KeyShape(part: string)
    requires StartsWith(part, FilenameKey)
    ensures part == "filename" + "=" + part[9..]
    ensures '=' !in "filename"
  {
    assert part[..9] == FilenameKey;
  }

  /** `part.split("=")[1]` for a part starting with `filename=`. */
  function FilenameField(part: string): (raw: string)
    requires StartsWith(part, FilenameKey)
  {
    KeyShape(part);
    SplitAtFirstChar("filename", '=', part[9..]);
    Split(part, "=")[1]
  }

  /**
   * The field is the text between the first and the second `=` of the part
   * (or the end of the part when there is no second `=`).
   */
  lemma FilenameFieldShape(part: string)
    requires StartsWith(part, FilenameKey)
    ensures var raw := FilenameField(part);
      && 9 + |raw| <= |part|
      && part[9..9 + |raw|] == raw
      && '=' !in raw
      && (9 + |raw| == |part| || part[9 + |raw|] == '=')
  {
    var rest := part[9..];
    KeyShape(part);
    SplitAtFirstChar("filename", '=', rest);
    FirstPiece(rest, '=');
    var raw := FilenameField(part);
    assert raw == Split(rest, "=")[0];
    assert part[9..9 + |raw|] == rest[..|raw|];
  }

  /** The name kept from a `filename=` part: no `=`, and no quote at either end. */
  lemma StrippedNameShape(part: string)
    requires StartsWith(part, FilenameKey)
    ensures var name := Strip(FilenameField(part), '"');
      && '=' !in name
      && (|name| == 0 || (name[0] != '"' && name[|name| - 1] != '"'))
  {
    FilenameFieldShape(part);
    StripKeepsOut(FilenameField(part), '"', '=');
  }

  /** The name from a header value, if some `"; "`-separated part starts with `filename=`. */
  function FilenameFromHeader(content: string): (r: Option<string>)
    ensures r.Some? ==> '=' !in r.value
    ensures r.Some? ==> |r.value| == 0 || (r.value[0] != '"' && r.value[|r.value| - 1] != '"')
    ensures r.None? <==>
      forall j :: 0 <= j < |Split(content, "; ")| ==> !StartsWith(Split(content, "; ")[j], FilenameKey)
  {
    var parts := Split(content, "; ");
    match FirstFilenamePart(parts)
    case None => None
    case Some(i) =>
      assert parts == Split(content, "; ");
      assert i < |parts| && StartsWith(parts[i], FilenameKey);
      StrippedNameShape(parts[i]);
      Some(Strip(FilenameField(parts[i]), '"'))
  }

  /**
   * `filename_from_content_disposition`: the found name, or the decimal
   * nanosecond timestamp `nowNs` when the header is missing or names no file.
   */
  function FilenameFromContentDisposition(content: Option<string>, nowNs: nat): (r: string)
    ensures content.None? ==> r == Decimal(nowNs)
    ensures content.Some? && FilenameFromHeader(content.value).None? ==> r == Decimal(nowNs)
    ensures '=' !in r
    ensures |r| == 0 || (r[0] != '"' && r[|r| - 1] != '"')
  {
    assert forall k :: 0 <= k < |Decimal(nowNs)| ==> IsDigit(Decimal(nowNs)[k]);
    match content
    case None => Decimal(nowNs)
    case Some(c) => FilenameFromHeader(c).GetOr(Decimal(nowNs))
  }

  /**
   * The first part starting with `filename=` decides the name; later
   * matching parts are ignored.
   */
  lemma FirstFilenamePartWins(content: string, nowNs: nat, i: nat)
    requires var parts := Split(content, "; ");
      && i < |parts|
      && StartsWith(parts[i], FilenameKey)
      && forall j :: 0 <= j < i ==> !StartsWith(parts[j], FilenameKey)
    ensures FilenameFromContentDisposition(Some(content), nowNs)
         == Strip(FilenameField(Split(content, "; ")[i]), '"')
  {
    var parts := Split(content, "; ");
    var k := FirstFilenamePart(parts).value;
    assert k == i;
  }

  /** The field of `filename=<q>=<b>` is `q` when `q` has no `=`. */
  lemma FieldBeforeSecondEquals(q: string, b: string)
    requires '=' !in q
    ensures FilenameField(FilenameKey + q + "=" + b) == q
  {
    var part := FilenameKey + q + "=" + b;
    assert part == "filename" + "=" + (q + "=" + b);
    SplitAtFirstChar("filename", '=', q + "=" + b);
    SplitAtFirstChar(q, '=', b);
  }

  /** A quoted name containing `=` is cut at that `=`: `filename="a=b"` gives `a`. */
  lemma NameCutAtEquals(a: string, b: string)
    requires '=' !in a && '"' !in a
    ensures Strip(FilenameField(FilenameKey + "\"" + a + "=" + b), '"') == a
  {
    var q := "\"" + a;
    assert FilenameKey + "\"" + a + "=" + b == FilenameKey + q + "=" + b;
    FieldBeforeSecondEquals(q, b);
    StripOpeningQuote(a);
  }

  lemma StripOpeningQuote(a: string)
    requires '"' !in a
    ensures Strip("\"" + a, '"') == a
  {
    var s := "\"" + a;
    assert s[0] == '"' && s[1..] == a;
    assert |a| == 0 || (a[0] != '"' && a[|a| - 1] != '"') by {
      if |a| > 0 { assert a[0] in a && a[|a| - 1] in a; }
    }
    TrimLeftKeeps(a, '"');
    TrimRightKeeps(a, '"');
    assert TrimLeft(s, '"') == a;
  }


}
