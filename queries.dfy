/** `references` and `definition` of lib/Functions.js: what one attempt
    makes of the language server's answer, and the whole call around
    `retryUntil`.

    Each attempt asks nvim to run `textDocument/references` or
    `textDocument/definition` (Language Server Protocol 3.17) through
    `vim.lsp.buf_request_sync` and print the JSON of the per-client answers.
    The model starts from that printed value, parsed: `None` for `null`,
    otherwise the array, `None` entries being clients without an answer. */
module Queries {
  import opened Js
  import opened Retry
  import opened Schemas

  datatype LspPosition = LspPosition(line: int, character: int)
  datatype LspRange = LspRange(start: LspPosition, end: LspPosition)

  /** A `Location`, what `textDocument/references` answers with. */
  datatype Location = Location(uri: string, range: LspRange)

  /** A `LocationLink`, what `textDocument/definition` answers with here. */
  datatype LocationLink = LocationLink(targetUri: string, targetRange: LspRange, targetSelectionRange: LspRange)

  /** One client's answer; `result` is `None` when it is null or absent. */
  datatype ClientResponse<T> = ClientResponse(result: Option<seq<T>>)

  /** What one `nvim_exec2` request gives: the message of the plain
      `Error` it rejects with (lib/Functions.js:61 and :337 reject with
      nothing else), or the parsed output. */
  type Reply<T> = Result<Option<seq<Option<ClientResponse<T>>>>, string>

  /** `{ file, line, character }` as both functions return it. */
  datatype FileLocation = FileLocation(file: string, line: int, character: int)

  const FileScheme := "file://"

  /** `'./' + relative(cwd, uri.replace('file://', ''))`. A path outside
      the project root is given back unchanged. */
  function ProjectPath(cwd: string, uri: string): (r: string)
    ensures StartsWith(r, "./")
  {
    var path := ReplaceFirst(uri, FileScheme, "");
    "./" + if StartsWith(path, cwd + "/") then PathRelative(cwd, path) else path
  }

  /** A URI of a file under the root gives the rest of its path after the
      root. */
  lemma ProjectPathUnderRoot(cwd: string, uri: string)
    requires StartsWith(uri, FileScheme + cwd + "/")
    ensures ProjectPath(cwd, uri) == "./" + uri[|FileScheme + cwd + "/"|..]
  {
    assert FileScheme + cwd + "/" == FileScheme + (cwd + "/");
    StartsWithAppend(uri, FileScheme, cwd + "/");
    ReplaceLeadingScheme(uri);
    var path := uri[|FileScheme|..];
    assert PathRelative(cwd, path) == path[|cwd| + 1..] == uri[|FileScheme + cwd + "/"|..];
  }

  /** `.filter(Boolean)`: the clients that answered, in order. */
  function Answered<T(!new)>(responses: seq<Option<ClientResponse<T>>>): (r: seq<ClientResponse<T>>)
    ensures |r| <= |responses|
    ensures forall x :: x in r <==> Some(x) in responses
    decreases |responses|
  {
    if |responses| == 0 then []
    else
      var rest := Answered(responses[1..]);
      assert forall x :: Some(x) in responses <==> Some(x) == responses[0] || Some(x) in responses[1..];
      match responses[0]
      case None => rest
      case Some(x) => [x] + rest
  }

  /** `.filter(Boolean)[0]`: the list is empty exactly when no client
      answered, and otherwise starts with the first answer. */
  lemma {:induction false} AnsweredFirst<T(!new)>(responses: seq<Option<ClientResponse<T>>>)
    ensures |Answered(responses)| > 0 <==> exists i :: 0 <= i < |responses| && responses[i].Some?
    ensures |Answered(responses)| > 0 ==> exists i ::
      && 0 <= i < |responses| && responses[i] == Some(Answered(responses)[0])
      && forall j :: 0 <= j < i ==> responses[j].None?
    decreases |responses|
  {
    if |responses| > 0 && responses[0].None? {
      var tail := responses[1..];
      AnsweredFirst(tail);
      assert Answered(responses) == Answered(tail);
      assert forall i :: 1 <= i < |responses| ==> responses[i] == tail[i - 1];
      if |Answered(tail)| > 0 {
        var i :| 0 <= i < |tail| && tail[i] == Some(Answered(tail)[0])
          && forall j :: 0 <= j < i ==> tail[j].None?;
        assert responses[i + 1] == Some(Answered(responses)[0]);
      }
    }
  }

  /** Where each element of `Answered(responses)` came from, as positions
      of `responses`. */
  function AnsweredAt<T>(responses: seq<Option<ClientResponse<T>>>): seq<nat>
    decreases |responses|
  {
    if |responses| == 0 then []
    else
      var rest := AnsweredAt(responses[1..]);
      var shifted := seq(|rest|, k requires 0 <= k < |rest| => rest[k] + 1);
      if responses[0].Some? then [0] + shifted else shifted
  }

  /** Each answer kept by `.filter(Boolean)` comes from the position
      `AnsweredAt` gives for it. */
  lemma {:induction false} AnsweredFrom<T(!new)>(responses: seq<Option<ClientResponse<T>>>)
    ensures |AnsweredAt(responses)| == |Answered(responses)|
    ensures forall k :: 0 <= k < |AnsweredAt(responses)| ==>
      AnsweredAt(responses)[k] < |responses| && responses[AnsweredAt(responses)[k]] == Some(Answered(responses)[k])
    decreases |responses|
  {
    if |responses| > 0 {
      var tail := responses[1..];
      AnsweredFrom(tail);
      var rest := AnsweredAt(tail);
      var idx := AnsweredAt(responses);
      var off := if responses[0].Some? then 1 else 0;
      var r := Answered(responses);
      assert r == if responses[0].Some? then [responses[0].value] + Answered(tail) else Answered(tail);
      forall k | 0 <= k < |idx|
        ensures idx[k] < |responses| && responses[idx[k]] == Some(r[k])
      {
        if k >= off {
          assert idx[k] == rest[k - off] + 1;
          assert r[k] == Answered(tail)[k - off];
          assert responses[idx[k]] == tail[rest[k - off]];
        }
      }
    }
  }

  /** `.filter(Boolean)` keeps the order of the clients. */
  lemma {:induction false} AnsweredAtIncreasing<T>(responses: seq<Option<ClientResponse<T>>>)
    ensures forall k, l :: 0 <= k < l < |AnsweredAt(responses)| ==> AnsweredAt(responses)[k] < AnsweredAt(responses)[l]
    decreases |responses|
  {
    if |responses| > 0 {
      AnsweredAtIncreasing(responses[1..]);
    }
  }

  /** Every client that answered is kept. */
  lemma {:induction false} AnsweredAtCovers<T>(responses: seq<Option<ClientResponse<T>>>)
    ensures forall i :: 0 <= i < |responses| && responses[i].Some? ==> i in AnsweredAt(responses)
    decreases |responses|
  {
    if |responses| > 0 {
      var tail := responses[1..];
      AnsweredAtCovers(tail);
      var rest := AnsweredAt(tail);
      var idx := AnsweredAt(responses);
      var off := if responses[0].Some? then 1 else 0;
      forall i | 0 <= i < |responses| && responses[i].Some?
        ensures i in idx
      {
        if i > 0 {
          assert tail[i - 1] == responses[i];
          var k :| 0 <= k < |rest| && rest[k] == i - 1;
          assert idx[k + off] == i;
        }
      }
    }
  }

  /** `JSON.stringify({ file, line, character })`, without the escaping of
      special characters in `file`. */
  function QueryText(file: string, line: int, character: int): string {
    "{\"file\":\"" + file + "\",\"line\":" + IntText(line) + ",\"character\":" + IntText(character) + "}"
  }

  /** What the engine throws for a property read on null or undefined. */
  const NullRead := TypeError("Cannot read properties of null")

  /** The location a reference maps to. */
  function ToFileLocation(cwd: string, l: Location): FileLocation {
    FileLocation(ProjectPath(cwd, l.uri), l.range.start.line, l.range.start.character)
  }

  /** `result.map(...)`. */
  function MapLocations(cwd: string, locations: seq<Location>): (r: seq<FileLocation>)
    ensures |r| == |locations|
    ensures forall i :: 0 <= i < |r| ==> r[i] == ToFileLocation(cwd, locations[i])
  {
    seq(|locations|, i requires 0 <= i < |locations| => ToFileLocation(cwd, locations[i]))
  }

  /** One call of the function `references` hands to retryUntil. */
  function ReferencesAttempt(cwd: string, file: string, line: int, character: int, reply: Reply<Location>): (r: Outcome<seq<FileLocation>>)
    // it returns exactly when the first client that answered found more
    // than one location, and then returns all of them, in its order
    ensures r.Returned? <==>
      && reply.Ok? && reply.value.Some? && |Answered(reply.value.value)| > 0
      && Answered(reply.value.value)[0].result.Some? && |Answered(reply.value.value)[0].result.value| > 1
    ensures r.Returned? ==> r.value == MapLocations(cwd, Answered(reply.value.value)[0].result.value)
    // a single location, or none, fails the assertion and is retried
    ensures
      (&& reply.Ok? && reply.value.Some? && |Answered(reply.value.value)| > 0
       && Answered(reply.value.value)[0].result.Some? && |Answered(reply.value.value)[0].result.value| <= 1)
      ==> IsAssertionFailure(r)
    // a rejected request throws its Error; a null output, no answer or a
    // null result makes the callback throw a TypeError
    ensures reply.Err? ==> r == Threw(Error(reply.error))
    ensures (reply.Ok? && (reply.value.None? || |Answered(reply.value.value)| == 0
                           || Answered(reply.value.value)[0].result.None?)) ==>
      r.Threw? && r.error.name == TypeErrorName
  {
    match reply
    case Err(m) => Threw(Error(m))
    case Ok(None) => Threw(NullRead)
    case Ok(Some(responses)) =>
      var answered := Answered(responses);
      if |answered| == 0 then Threw(TypeError("Cannot destructure 'undefined'"))
      else
        match answered[0].result
        case None => Threw(NullRead)
        case Some(locations) =>
          if |locations| > 1 then Returned(MapLocations(cwd, locations))
          else Threw(AssertionError("Failed to get references from lsp: " + QueryText(file, line, character)))
  }

  /** The acceptance test of `responses.find(...)` for an answer with a
      non-empty result: its first target is in another file, or on another
      line than the one asked about. */
  predicate Accepts(file: string, line: int, link: LocationLink) {
    !EndsWith(link.targetUri, file) || link.targetSelectionRange.start.line != line
  }

  /** `responses.find(...)`: the index of the first accepted answer. An
      answer whose result is null makes the callback throw. */
  function FindDefinition(responses: seq<ClientResponse<LocationLink>>, file: string, line: int): (r: Result<Option<nat>, Exception>)
    // the answers before the one found (or all of them) were looked at
    // and not accepted
    ensures r.Ok? && r.value.Some? ==>
      && r.value.value < |responses|
      && responses[r.value.value].result.Some?
      && |responses[r.value.value].result.value| > 0
      && Accepts(file, line, responses[r.value.value].result.value[0])
    ensures r.Ok? ==> forall j :: 0 <= j < |responses| && (r.value.None? || j < r.value.value) ==>
      && responses[j].result.Some?
      && (|responses[j].result.value| == 0 || !Accepts(file, line, responses[j].result.value[0]))
    // a throw comes from a null result, with no accepted answer before it
    ensures r.Err? ==> r.error == NullRead
    ensures r.Err? ==>
      exists j ::
        && 0 <= j < |responses|
        && responses[j].result.None?
        && forall i :: 0 <= i < j ==>
             && responses[i].result.Some?
             && (|responses[i].result.value| == 0 || !Accepts(file, line, responses[i].result.value[0]))
    decreases |responses|
  {
    if |responses| == 0 then Ok(None)
    else
      match responses[0].result
      case None => Err(NullRead)
      case Some(links) =>
        if |links| > 0 && Accepts(file, line, links[0]) then Ok(Some(0))
        else
          match FindDefinition(responses[1..], file, line)
          case Err(e) =>
            var j :| && 0 <= j < |responses[1..]| && responses[1..][j].result.None?
              && forall i :: 0 <= i < j ==>
                   && responses[1..][i].result.Some?
                   && (|responses[1..][i].result.value| == 0 || !Accepts(file, line, responses[1..][i].result.value[0]));
            assert responses[j + 1].result.None?;
            assert forall i :: 1 <= i < j + 1 ==> responses[i] == responses[1..][i - 1];
            assert forall i :: 0 <= i < j + 1 ==>
              && responses[i].result.Some?
              && (|responses[i].result.value| == 0 || !Accepts(file, line, responses[i].result.value[0]));
            Err(e)
          case Ok(None) => Ok(None)
          case Ok(Some(i)) => Ok(Some(i + 1))
  }

  /** One call of the function `definition` hands to retryUntil. */
  function DefinitionAttempt(cwd: string, file: string, line: int, character: int, reply: Reply<LocationLink>): Outcome<FileLocation>
  {
    match reply
    case Err(m) => Threw(Error(m))
    case Ok(None) => Threw(NullRead)
    case Ok(Some(responses)) =>
      var answered := Answered(responses);
      match FindDefinition(answered, file, line)
      case Err(e) => Threw(e)
      case Ok(None) => Threw(AssertionError("Failed to get definition from lsp: " + QueryText(file, line, character)))
      case Ok(Some(i)) => Returned(LinkLocation(cwd, answered[i].result.value[0]))
  }

  /** What `definition` returns is the first target of an answer that is
      somewhere else than the position asked about. */
  lemma DefinitionReturnsAccepted(cwd: string, file: string, line: int, character: int,
                                  responses: seq<Option<ClientResponse<LocationLink>>>)
    requires DefinitionAttempt(cwd, file, line, character, Ok(Some(responses))).Returned?
    ensures var rs := Answered(responses);
      var found := FindDefinition(rs, file, line);
      && found.Ok? && found.value.Some?
      && Accepts(file, line, rs[found.value.value].result.value[0])
      && DefinitionAttempt(cwd, file, line, character, Ok(Some(responses))).value
         == LinkLocation(cwd, rs[found.value.value].result.value[0])
  {
  }

  /** When every answer points back at the position asked about, the
      assertion fails and the request is retried. */
  lemma DefinitionRetriedWhenAllRejected(cwd: string, file: string, line: int, character: int,
                                         responses: seq<Option<ClientResponse<LocationLink>>>)
    requires forall a :: a in Answered(responses) ==>
      a.result.Some? && (|a.result.value| == 0 || !Accepts(file, line, a.result.value[0]))
    ensures IsAssertionFailure(DefinitionAttempt(cwd, file, line, character, Ok(Some(responses))))
  {
  }

  /** The location a definition target maps to. */
  function LinkLocation(cwd: string, link: LocationLink): FileLocation {
    FileLocation(ProjectPath(cwd, link.targetUri),
                 link.targetSelectionRange.start.line,
                 link.targetSelectionRange.start.character)
  }

  /** What happens before the retried part: validation, the file check and
      opening the file in nvim. `editReply` is the answer to `nvim_cmd`. */
  function Prepare(cwd: string, fileExists: string -> bool, name: string, p: QueryParams, editReply: Option<Exception>): (r: Option<Exception>)
    ensures r.None? ==> ValidQuery(p) && fileExists(PathJoin(cwd, p.file.value.s))
    // for the two query functions: the schema error, then the file check,
    // then the answer to opening the file
    ensures (name == "definition" || name == "references") ==>
      && (!ValidQuery(p) ==> r == Some(Error(InvalidParameters(name))))
      && (ValidQuery(p) && !fileExists(PathJoin(cwd, p.file.value.s)) ==>
            r == Some(AssertionError("File \"" + p.file.value.s + "\" does not exist.")))
      && (ValidQuery(p) && fileExists(PathJoin(cwd, p.file.value.s)) ==> r == editReply)
  {
    match ValidateSchema(name, Query(p))
    case Err(e) => Some(e)
    case Ok(_) =>
      var file := p.file.value.s;
      if !fileExists(PathJoin(cwd, file)) then Some(AssertionError("File \"" + file + "\" does not exist."))
      else editReply
  }

  /** The function `references` hands to retryUntil: its k-th call sees
      the k-th reply. */
  function ReferencesTries(cwd: string, file: string, line: int, character: int,
                           replies: nat -> Reply<Location>): nat -> Outcome<seq<FileLocation>>
  {
    (k: nat) => ReferencesAttempt(cwd, file, line, character, replies(k))
  }

  /** The function `definition` hands to retryUntil. */
  function DefinitionTries(cwd: string, file: string, line: int, character: int,
                           replies: nat -> Reply<LocationLink>): nat -> Outcome<FileLocation>
  {
    (k: nat) => DefinitionAttempt(cwd, file, line, character, replies(k))
  }

  /** `references({ file, line, character })`. `replies(k)` is the answer to
      the k-th retried request. */
  function References(cwd: string, timeout: int, fileExists: string -> bool, p: QueryParams,
                      editReply: Option<Exception>, replies: nat -> Reply<Location>): (r: Settlement<seq<FileLocation>>)
    requires RetryInterval(timeout) > 0 || timeout <= 0
    // a failed preparation rejects with its error and nothing is retried
    ensures Prepare(cwd, fileExists, "references", p, editReply).Some? ==>
      r == Rejected(Prepare(cwd, fileExists, "references", p, editReply).value)
    // otherwise the call settles as retryUntil does over the tries
    ensures Prepare(cwd, fileExists, "references", p, editReply).None? ==>
      r == RetryUntil(ReferencesTries(cwd, p.file.value.s, p.line.value.i, p.character.value.i, replies),
                      0, timeout, RetryInterval(timeout)).settlement
    // after a successful preparation, a first reply that yields a value
    // resolves the call with it
    ensures (Prepare(cwd, fileExists, "references", p, editReply).None?
      && ReferencesAttempt(cwd, p.file.value.s, p.line.value.i, p.character.value.i, replies(0)).Returned?) ==>
      r == Resolved(ReferencesAttempt(cwd, p.file.value.s, p.line.value.i, p.character.value.i, replies(0)).value)
    // a value comes from one of the retried requests, for valid arguments
    // naming an existing file
    ensures r.Resolved? ==>
      && ValidQuery(p) && fileExists(PathJoin(cwd, p.file.value.s))
      && exists k :: ReferencesAttempt(cwd, p.file.value.s, p.line.value.i, p.character.value.i, replies(k)) == Returned(r.value)
  {
    match Prepare(cwd, fileExists, "references", p, editReply)
    case Some(e) => Rejected(e)
    case None =>
      var file, line, character := p.file.value.s, p.line.value.i, p.character.value.i;
      var attempt := ReferencesTries(cwd, file, line, character, replies);
      ResolvedByACall(attempt, 0, timeout, RetryInterval(timeout));
      RetryUntil(attempt, 0, timeout, RetryInterval(timeout)).settlement
  }

  /** `definition({ file, line, character })`. */
  function Definition(cwd: string, timeout: int, fileExists: string -> bool, p: QueryParams,
                      editReply: Option<Exception>, replies: nat -> Reply<LocationLink>): (r: Settlement<FileLocation>)
    requires RetryInterval(timeout) > 0 || timeout <= 0
    // a failed preparation rejects with its error and nothing is retried
    ensures Prepare(cwd, fileExists, "definition", p, editReply).Some? ==>
      r == Rejected(Prepare(cwd, fileExists, "definition", p, editReply).value)
    // otherwise the call settles as retryUntil does over the tries
    ensures Prepare(cwd, fileExists, "definition", p, editReply).None? ==>
      r == RetryUntil(DefinitionTries(cwd, p.file.value.s, p.line.value.i, p.character.value.i, replies),
                      0, timeout, RetryInterval(timeout)).settlement
    // after a successful preparation, a first reply that yields a value
    // resolves the call with it
    ensures (Prepare(cwd, fileExists, "definition", p, editReply).None?
      && DefinitionAttempt(cwd, p.file.value.s, p.line.value.i, p.character.value.i, replies(0)).Returned?) ==>
      r == Resolved(DefinitionAttempt(cwd, p.file.value.s, p.line.value.i, p.character.value.i, replies(0)).value)
    // a value comes from one of the retried requests, for valid arguments
    // naming an existing file
    ensures r.Resolved? ==>
      && ValidQuery(p) && fileExists(PathJoin(cwd, p.file.value.s))
      && exists k :: DefinitionAttempt(cwd, p.file.value.s, p.line.value.i, p.character.value.i, replies(k)) == Returned(r.value)
  {
    match Prepare(cwd, fileExists, "definition", p, editReply)
    case Some(e) => Rejected(e)
    case None =>
      var file, line, character := p.file.value.s, p.line.value.i, p.character.value.i;
      var attempt := DefinitionTries(cwd, file, line, character, replies);
      ResolvedByACall(attempt, 0, timeout, RetryInterval(timeout));
      RetryUntil(attempt, 0, timeout, RetryInterval(timeout)).settlement
  }

  lemma ReplaceLeadingScheme(uri: string)
    requires StartsWith(uri, FileScheme)
    ensures ReplaceFirst(uri, FileScheme, "") == uri[|FileScheme|..]
  {
  }

  /** The file a location maps to names the location's file again: joined
      to the project root it gives back the URI the server sent. */
  lemma {:induction false} ProjectPathRoundTrip(cwd: string, uri: string)
    requires StartsWith(uri, FileScheme + cwd + "/")
    ensures "file://" + PathJoin(cwd, ProjectPath(cwd, uri)) == uri
  {
    var root := FileScheme + cwd + "/";
    var rest := uri[|root|..];
    calc {
      "file://" + PathJoin(cwd, ProjectPath(cwd, uri));
      { ProjectPathUnderRoot(cwd, uri); }
      "file://" + PathJoin(cwd, "./" + rest);
      { JoinDropsDotSlash(cwd, rest); }
      "file://" + (cwd + "/" + rest);
      root + rest;
      { PrefixAndRest(uri, root); }
      uri;
    }
  }

  /** The other way round: the URI of a file named relative to the
      project root maps back to that name, written with a leading "./". */
  lemma ProjectPathOfFileUri(cwd: string, name: string)
    ensures ProjectPath(cwd, "file://" + PathJoin(cwd, name))
         == "./" + (if StartsWith(name, "./") then name[2..] else name)
  {
    var path := PathJoin(cwd, name);
    var uri := "file://" + path;
    assert StartsWith(uri, FileScheme);
    ReplaceLeadingScheme(uri);
    assert uri[|FileScheme|..] == path;
    RelativeOfJoin(cwd, name);
  }

  /** A first answer with fewer than two references fails the assertion:
      a symbol referenced only at its declaration is never reported. The
      request is sent ceil(timeout / interval) + 1 times, at least twice,
      before the call rejects. */
  lemma {:induction false} SingleReferenceRetriedUntilRejected(cwd: string, timeout: int, fileExists: string -> bool,
                                          p: QueryParams, replies: nat -> Reply<Location>)
    requires timeout >= 5
    requires Prepare(cwd, fileExists, "references", p, None).None?
    requires forall k :: (replies(k).Ok? && replies(k).value.Some?
      && |Answered(replies(k).value.value)| > 0
      && Answered(replies(k).value.value)[0].result.Some?
      && |Answered(replies(k).value.value)[0].result.value| <= 1)
    ensures References(cwd, timeout, fileExists, p, None, replies).Rejected?
    ensures References(cwd, timeout, fileExists, p, None, replies).error.name == AssertionErrorName
    ensures var interval := RetryInterval(timeout);
      var run := RetryUntil(ReferencesTries(cwd, p.file.value.s, p.line.value.i, p.character.value.i, replies),
                            0, timeout, interval);
      && run.calls == RetryCalls(timeout, interval)
      && run.calls >= 2
  {
    var file, line, character := p.file.value.s, p.line.value.i, p.character.value.i;
    var attempt := ReferencesTries(cwd, file, line, character, replies);
    var interval := RetryInterval(timeout);
    SingleReferenceTriesFail(cwd, file, line, character, replies);
    PermanentFailureCalls(attempt, 0, timeout, interval);
    PermanentFailureCallsCeil(attempt, 0, timeout, interval);
    assert References(cwd, timeout, fileExists, p, None, replies) == RetryUntil(attempt, 0, timeout, interval).settlement;
  }

  lemma SingleReferenceTriesFail(cwd: string, file: string, line: int, character: int, replies: nat -> Reply<Location>)
    requires forall k :: (replies(k).Ok? && replies(k).value.Some?
      && |Answered(replies(k).value.value)| > 0
      && Answered(replies(k).value.value)[0].result.Some?
      && |Answered(replies(k).value.value)[0].result.value| <= 1)
    ensures forall k :: IsAssertionFailure(ReferencesTries(cwd, file, line, character, replies)(k))
  {
    forall k ensures IsAssertionFailure(ReferencesTries(cwd, file, line, character, replies)(k)) {
      assert ReferencesTries(cwd, file, line, character, replies)(k) == ReferencesAttempt(cwd, file, line, character, replies(k));
    }
  }

  /** After a successful preparation, a first try that fails its assertion
      is retried with the timeout less one interval, unless the timeout is
      already spent, when the call rejects with that AssertionError. */
  lemma ReferencesRetried(cwd: string, timeout: int, fileExists: string -> bool, p: QueryParams,
                          editReply: Option<Exception>, replies: nat -> Reply<Location>)
    requires RetryInterval(timeout) > 0 || timeout <= 0
    requires Prepare(cwd, fileExists, "references", p, editReply).None?
    requires IsAssertionFailure(ReferencesAttempt(cwd, p.file.value.s, p.line.value.i, p.character.value.i, replies(0)))
    ensures var tries := ReferencesTries(cwd, p.file.value.s, p.line.value.i, p.character.value.i, replies);
      var r := References(cwd, timeout, fileExists, p, editReply, replies);
      && (timeout <= 0 ==> r == Rejected(tries(0).error))
      && (timeout > 0 ==>
            r == RetryUntil(tries, 1, timeout - RetryInterval(timeout), RetryInterval(timeout)).settlement)
  {
    var tries := ReferencesTries(cwd, p.file.value.s, p.line.value.i, p.character.value.i, replies);
    var interval := RetryInterval(timeout);
    assert IsAssertionFailure(tries(0));
    assert References(cwd, timeout, fileExists, p, editReply, replies) == RetryUntil(tries, 0, timeout, interval).settlement;
    AssertionFailureSettles(tries, timeout, interval);
  }

  /** A rejected request, a null output, no answering client or a null
      result on the first try is not retried: the error is swallowed and
      the call resolves to `undefined`. */
  lemma ReferencesUndefined(cwd: string, timeout: int, fileExists: string -> bool, p: QueryParams,
                            editReply: Option<Exception>, replies: nat -> Reply<Location>)
    requires RetryInterval(timeout) > 0 || timeout <= 0
    requires Prepare(cwd, fileExists, "references", p, editReply).None?
    requires replies(0).Err? || replies(0).value.None? || |Answered(replies(0).value.value)| == 0
             || Answered(replies(0).value.value)[0].result.None?
    ensures References(cwd, timeout, fileExists, p, editReply, replies) == ResolvedUndefined
  {
    var tries := ReferencesTries(cwd, p.file.value.s, p.line.value.i, p.character.value.i, replies);
    OtherErrorsAreSwallowed(tries, 0, timeout, RetryInterval(timeout));
  }

  /** The same for `definition`: a rejected request, a null output or a
      null result met before an accepted answer resolves to `undefined`. */
  lemma DefinitionUndefined(cwd: string, timeout: int, fileExists: string -> bool, p: QueryParams,
                            editReply: Option<Exception>, replies: nat -> Reply<LocationLink>)
    requires RetryInterval(timeout) > 0 || timeout <= 0
    requires Prepare(cwd, fileExists, "definition", p, editReply).None?
    requires replies(0).Err? || replies(0).value.None?
             || FindDefinition(Answered(replies(0).value.value), p.file.value.s, p.line.value.i).Err?
    ensures Definition(cwd, timeout, fileExists, p, editReply, replies) == ResolvedUndefined
  {
    var tries := DefinitionTries(cwd, p.file.value.s, p.line.value.i, p.character.value.i, replies);
    assert tries(0).Threw? && tries(0).error.name != AssertionErrorName;
    OtherErrorsAreSwallowed(tries, 0, timeout, RetryInterval(timeout));
  }

  /** After a successful preparation, a first try of `definition` that
      fails its assertion is retried, as for `references`. */
  lemma DefinitionRetried(cwd: string, timeout: int, fileExists: string -> bool, p: QueryParams,
                          editReply: Option<Exception>, replies: nat -> Reply<LocationLink>)
    requires RetryInterval(timeout) > 0 || timeout <= 0
    requires Prepare(cwd, fileExists, "definition", p, editReply).None?
    requires IsAssertionFailure(DefinitionAttempt(cwd, p.file.value.s, p.line.value.i, p.character.value.i, replies(0)))
    ensures var tries := DefinitionTries(cwd, p.file.value.s, p.line.value.i, p.character.value.i, replies);
      var r := Definition(cwd, timeout, fileExists, p, editReply, replies);
      && (timeout <= 0 ==> r == Rejected(tries(0).error))
      && (timeout > 0 ==>
            r == RetryUntil(tries, 1, timeout - RetryInterval(timeout), RetryInterval(timeout)).settlement)
  {
    var tries := DefinitionTries(cwd, p.file.value.s, p.line.value.i, p.character.value.i, replies);
    var interval := RetryInterval(timeout);
    assert IsAssertionFailure(tries(0));
    assert Definition(cwd, timeout, fileExists, p, editReply, replies) == RetryUntil(tries, 0, timeout, interval).settlement;
    AssertionFailureSettles(tries, timeout, interval);
  }

  /** The references found keep the server's order and count, and each
      carries the start of its range and names the file the server sent. */
  lemma ReferencesFound(cwd: string, locations: seq<Location>)
    ensures var found := MapLocations(cwd, locations);
      && |found| == |locations|
      && forall i :: 0 <= i < |locations| ==>
           && found[i].line == locations[i].range.start.line
           && found[i].character == locations[i].range.start.character
           && (StartsWith(locations[i].uri, FileScheme + cwd + "/") ==>
                 "file://" + PathJoin(cwd, found[i].file) == locations[i].uri)
  {
    forall i | 0 <= i < |locations| && StartsWith(locations[i].uri, FileScheme + cwd + "/")
      ensures "file://" + PathJoin(cwd, ProjectPath(cwd, locations[i].uri)) == locations[i].uri
    {
      ProjectPathRoundTrip(cwd, locations[i].uri);
    }
  }

  /** An answer pointing back at the queried position (the declaration
      itself) is passed over for the next client's answer. */
  lemma DefinitionSkipsSelf(file: string, line: int, self: LocationLink, other: LocationLink)
    requires EndsWith(self.targetUri, file) && self.targetSelectionRange.start.line == line
    requires Accepts(file, line, other)
    ensures FindDefinition([ClientResponse(Some([self])), ClientResponse(Some([other]))], file, line) == Ok(Some(1))
  {
  }

  /** The example of the definition test: `Banana` in index.js resolves
      to the class in lib/banana.js. */
  lemma DefinitionExample(cwd: string)
    ensures var link := LocationLink("file://" + cwd + "/lib/banana.js",
                                     LspRange(LspPosition(2, 0), LspPosition(2, 30)),
                                     LspRange(LspPosition(2, 21), LspPosition(2, 27)));
      DefinitionAttempt(cwd, "index.js", 2, 21, Ok(Some([None, Some(ClientResponse(Some([link])))])))
        == Returned(FileLocation("./lib/banana.js", 2, 21))
  {
    var uri := "file://" + cwd + "/lib/banana.js";
    var link := LocationLink(uri, LspRange(LspPosition(2, 0), LspPosition(2, 30)),
                             LspRange(LspPosition(2, 21), LspPosition(2, 27)));
    var answer := ClientResponse(Some([link]));
    assert Answered([None, Some(answer)]) == [answer] by {
      assert [None, Some(answer)][1..] == [Some(answer)];
      assert Answered([Some(answer)]) == [answer] + Answered([Some(answer)][1..]);
    }
    assert Accepts("index.js", 2, link) by {
      assert uri[|uri| - 8..][0] == 'a' != "index.js"[0];
    }
    assert FindDefinition([answer], "index.js", 2) == Ok(Some(0));
    BananaPath(cwd);
  }

  /** A valid query on an existing file whose edit succeeds resolves with
      every location of the first answer, when that answer has two or more. */
  lemma ReferencesResolve(cwd: string, timeout: int, fileExists: string -> bool, p: QueryParams,
                          replies: nat -> Reply<Location>, responses: seq<Option<ClientResponse<Location>>>,
                          locations: seq<Location>)
    requires RetryInterval(timeout) > 0 || timeout <= 0
    requires ValidQuery(p) && fileExists(PathJoin(cwd, p.file.value.s))
    requires replies(0) == Ok(Some(responses))
    requires |Answered(responses)| > 0 && Answered(responses)[0].result == Some(locations) && |locations| >= 2
    ensures References(cwd, timeout, fileExists, p, None, replies) == Resolved(MapLocations(cwd, locations))
  {
    assert Prepare(cwd, fileExists, "references", p, None).None?;
  }

  /** The `Banana` example as a whole `definition` call: the file exists,
      opening it succeeds, and the first reply carries the answer. */
  lemma DefinitionCallExample(cwd: string, timeout: int, fileExists: string -> bool,
                              replies: nat -> Reply<LocationLink>)
    requires RetryInterval(timeout) > 0 || timeout <= 0
    requires fileExists(PathJoin(cwd, "index.js"))
    requires replies(0) == Ok(Some([None, Some(ClientResponse(Some([
      LocationLink("file://" + cwd + "/lib/banana.js",
                   LspRange(LspPosition(2, 0), LspPosition(2, 30)),
                   LspRange(LspPosition(2, 21), LspPosition(2, 27)))])))]))
    ensures Definition(cwd, timeout, fileExists, QueryParams(Some(Str("index.js")), Some(Int(2)), Some(Int(21))), None, replies)
      == Resolved(FileLocation("./lib/banana.js", 2, 21))
  {
    var p := QueryParams(Some(Str("index.js")), Some(Int(2)), Some(Int(21)));
    assert ValidQuery(p);
    assert Prepare(cwd, fileExists, "definition", p, None).None?;
    DefinitionExample(cwd);
  }

  /** The `references` test as a whole call: the three places `Banana` is
      used, reported in the server's order with the project's paths. */
  lemma ReferencesCallExample(cwd: string, timeout: int, fileExists: string -> bool,
                              replies: nat -> Reply<Location>)
    requires RetryInterval(timeout) > 0 || timeout <= 0
    requires fileExists(PathJoin(cwd, "lib/banana.js"))
    requires replies(0) == Ok(Some([Some(ClientResponse(Some([
      Location("file://" + cwd + "/lib/banana.js", LspRange(LspPosition(2, 21), LspPosition(2, 27))),
      Location("file://" + cwd + "/index.js", LspRange(LspPosition(0, 7), LspPosition(0, 13))),
      Location("file://" + cwd + "/index.js", LspRange(LspPosition(2, 19), LspPosition(2, 25)))])))]))
    ensures References(cwd, timeout, fileExists, QueryParams(Some(Str("lib/banana.js")), Some(Int(2)), Some(Int(21))), None, replies)
      == Resolved([FileLocation("./lib/banana.js", 2, 21), FileLocation("./index.js", 0, 7), FileLocation("./index.js", 2, 19)])
  {
    var p := QueryParams(Some(Str("lib/banana.js")), Some(Int(2)), Some(Int(21)));
    assert ValidQuery(p);
    var responses := replies(0).value.value;
    var locations := responses[0].value.result.value;
    assert Answered(responses) == [responses[0].value] by {
      assert responses[1..] == [];
    }
    ReferencesResolve(cwd, timeout, fileExists, p, replies, responses, locations);
    BananaPath(cwd);
    IndexPath(cwd);
    var r := MapLocations(cwd, locations);
    ThreeElements(r);
    assert r[0] == ToFileLocation(cwd, locations[0]);
    assert r[1] == ToFileLocation(cwd, locations[1]);
    assert r[2] == ToFileLocation(cwd, locations[2]);
  }

  lemma ThreeElements<T>(s: seq<T>)
    requires |s| == 3
    ensures s == [s[0], s[1], s[2]]
  {
  }

  /** The paths the tests' two files map to. */
  lemma BananaPath(cwd: string)
    ensures ProjectPath(cwd, "file://" + cwd + "/lib/banana.js") == "./lib/banana.js"
  {
    Prepended("/", "lib/banana.js", "/lib/banana.js");
    Prepended("./", "lib/banana.js", "./lib/banana.js");
    ProjectPathOfName(cwd, "lib/banana.js", "/lib/banana.js", "./lib/banana.js");
  }

  lemma IndexPath(cwd: string)
    ensures ProjectPath(cwd, "file://" + cwd + "/index.js") == "./index.js"
  {
    Prepended("/", "index.js", "/index.js");
    Prepended("./", "index.js", "./index.js");
    ProjectPathOfName(cwd, "index.js", "/index.js", "./index.js");
  }

  /** The URI of a project file named without a leading "./" maps to the
      name behind "./"; `slashed` and `dotted` are the name behind "/" and
      behind "./". */
  lemma ProjectPathOfName(cwd: string, name: string, slashed: string, dotted: string)
    requires |name| > 0 && name[0] != '.'
    requires slashed == "/" + name && dotted == "./" + name
    ensures ProjectPath(cwd, "file://" + cwd + slashed) == dotted
  {
    assert !StartsWith(name, "./");
    assert "file://" + PathJoin(cwd, name) == "file://" + cwd + slashed;
    ProjectPathOfFileUri(cwd, name);
  }

  /** `prefix + name` is `whole` when `whole` has the characters of both,
      in order. */
  lemma Prepended(prefix: string, name: string, whole: string)
    requires |whole| == |prefix| + |name|
    requires forall k :: 0 <= k < |whole| ==> whole[k] == if k < |prefix| then prefix[k] else name[k - |prefix|]
    ensures prefix + name == whole
  {
  }
}
