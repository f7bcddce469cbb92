/**
 * The request pipeline of the `/api/execute` endpoint of the shortcut hub's
 * server: the missing- and invalid-target checks, the allow-list validator,
 * the resolution of (type, executable, parameters, platform) into a program
 * and its arguments, the parameter split, the choice of working directory and
 * the mapping of the child's exit code to the JSON reply.
 *
 * The platform (`process.platform`) and the server's own working directory
 * (`process.cwd()`) are parameters; spawning the child and collecting its
 * output are not modelled, so the pipeline ends in a `Spawned` outcome that
 * names what would be spawned.
 */
module Execute {
  import opened Wrappers
  import opened Text
  import opened NodePath

  // ---------------------------------------------------------------------
  // isValidExecutable
  // ---------------------------------------------------------------------

  /** The extensions the validator accepts whatever the rest of the path looks like. */
  const ValidExtensions: seq<string> := [".exe", ".bat", ".cmd", ".ps1", ".sh", ".py", ".js", ".mjs", ".ts"]

  /** The lower-cased target ends with one of the allowed extensions. */
  predicate HasValidExtension(e: string) {
    exists i :: 0 <= i < |ValidExtensions| && EndsWith(Lower(e), ValidExtensions[i])
  }

  /** A bare command name: no extension and no `/` or `\` anywhere. */
  predicate IsSystemCommand(p: Platform, e: string) {
    Extname(p, e) == "" && '/' !in e && '\\' !in e
  }

  /** `isValidExecutable`: an allowed extension, a bare command name, or an absolute path. */
  predicate IsValidExecutable(p: Platform, e: string) {
    HasValidExtension(e) || IsSystemCommand(p, e) || IsAbsolute(p, e)
  }

  // ---------------------------------------------------------------------
  // Requests, commands and replies
  // ---------------------------------------------------------------------

  /** The JSON body of a request; any field may be missing. */
  datatype Request = Request(
    executable: Option<string>,
    parameters: Option<string>,
    kind: Option<string>,
    workingDirectory: Option<string>)

  /** A string field is truthy when it is present and not empty. */
  predicate Truthy(v: Option<string>) {
    v.Some? && v.value != ""
  }

  /** `v ? v : ''` for a string field. */
  function OrEmpty(v: Option<string>): string {
    if Truthy(v) then v.value else ""
  }

  /** What `spawn` is given: the program and its argument list. */
  datatype Command = Command(program: string, args: seq<string>)

  /** The `code` passed to the `close` handler: a number, or null when a signal ended the child. */
  datatype ExitCode = Code(n: int) | Null

  /** The fields of a JSON reply, with its HTTP status; a `None` field is absent. */
  datatype Reply = Reply(
    status: nat,
    success: bool,
    message: Option<string>,
    error: Option<string>,
    output: Option<string>,
    exitCode: Option<ExitCode>)

  /** The pipeline either answers at once or reaches the point where it spawns a child. */
  datatype Outcome =
    | Rejected(reply: Reply)
    | Spawned(command: Command, cwd: string, timeoutMs: nat)

  const MissingExecutable := "Executable path is required"
  const InvalidExecutable := "Invalid executable path"
  const SuccessMessage := "Command executed successfully"
  const FailurePrefix := "Command failed with exit code "

  /** The `timeout` spawn option, in milliseconds. */
  const SpawnTimeoutMs := 30000

  function BadRequest(error: string): Reply {
    Reply(400, false, None, Some(error), None, None)
  }

  // ---------------------------------------------------------------------
  // Resolution
  // ---------------------------------------------------------------------

  /** The program that opens a URL in the default browser. */
  function OpenProgram(p: Platform): string {
    if p == Win32 then "start" else if p == Darwin then "open" else "xdg-open"
  }

  /** The arguments before the URL: an empty window title for `start`, none otherwise. */
  function OpenPrefix(p: Platform): seq<string> {
    if p == Win32 then [""] else []
  }

  predicate IsUrlKind(kind: Option<string>) {
    kind == Some("url") || kind == Some("web-app")
  }

  /** The interpreter a script runs under, chosen by its lower-cased extension. */
  function ScriptCommand(ext: string, exe: string): Command {
    if ext == ".py" then Command("python", [exe])
    else if ext == ".js" || ext == ".mjs" then Command("node", [exe])
    else if ext == ".ps1" then Command("powershell", ["-ExecutionPolicy", "Bypass", "-File", exe])
    else if ext == ".sh" then Command("bash", [exe])
    else Command(exe, [])
  }

  /**
   * The `switch (type)`: the program and the arguments that come before the
   * parameter tokens. URL kinds get the target with the raw parameter text
   * glued on; scripts are chosen by extension; everything else, including a
   * missing or unknown type, runs the target itself.
   */
  function ResolveKind(kind: Option<string>, exe: string, params: string, p: Platform): Command {
    if IsUrlKind(kind) then Command(OpenProgram(p), OpenPrefix(p) + [exe + params])
    else if kind == Some("script") then ScriptCommand(Lower(Extname(p, exe)), exe)
    else Command(exe, [])
  }

  /** The pieces of a split that are not blank once trimmed, in order and untrimmed. */
  function KeepNonBlank(pieces: seq<string>): (kept: seq<string>)
    ensures forall k :: 0 <= k < |kept| ==> kept[k] in pieces && Trim(kept[k]) != ""
    ensures forall k :: 0 <= k < |pieces| && Trim(pieces[k]) != "" ==> pieces[k] in kept
    ensures |kept| <= |pieces|
  {
    if pieces == [] then []
    else if Trim(pieces[0]) != "" then [pieces[0]] + KeepNonBlank(pieces[1..])
    else KeepNonBlank(pieces[1..])
  }

  /** The filter keeps the order: filtering a concatenation filters each part. */
  lemma {:induction false} KeepNonBlankAppend(a: seq<string>, b: seq<string>)
    ensures KeepNonBlank(a + b) == KeepNonBlank(a) + KeepNonBlank(b)
  {
    if a != [] {
      assert (a + b)[1..] == a[1..] + b;
      KeepNonBlankAppend(a[1..], b);
    } else {
      assert a + b == b;
    }
  }

  /**
   * `parameters.split(' ').filter(p => p.trim())`: every token is non-empty,
   * has no space in it, and is not all whitespace.
   */
  function ParameterTokens(params: string): (tokens: seq<string>)
    ensures forall k :: 0 <= k < |tokens| ==>
      tokens[k] != "" && ' ' !in tokens[k] && !AllWhitespace(tokens[k])
  {
    var pieces := Split(params, ' ');
    var kept := KeepNonBlank(pieces);
    forall k | 0 <= k < |kept|
      ensures kept[k] != "" && ' ' !in kept[k] && !AllWhitespace(kept[k])
    {
      TrimEmptyIff(kept[k]);
    }
    kept
  }

  /** The whole resolution: the kind-specific command, then the parameter tokens when there is parameter text. */
  function Resolve(kind: Option<string>, exe: string, params: string, p: Platform): Command {
    var base := ResolveKind(kind, exe, params, p);
    if params != "" then Command(base.program, base.args + ParameterTokens(params)) else base
  }

  // ---------------------------------------------------------------------
  // The handler
  // ---------------------------------------------------------------------

  /**
   * The `/api/execute` handler up to `spawn`: a missing target and an invalid
   * target are answered with a 400 before anything is resolved; otherwise the
   * resolved command is spawned in the requested working directory, or the
   * server's own when none is given, with a 30-second timeout.
   */
  function Dispatch(req: Request, p: Platform, processCwd: string): (r: Outcome)
    ensures !Truthy(req.executable) ==> r == Rejected(BadRequest(MissingExecutable))
    ensures Truthy(req.executable) && !IsValidExecutable(p, req.executable.value) ==>
      r == Rejected(BadRequest(InvalidExecutable))
    ensures r.Spawned? <==> Truthy(req.executable) && IsValidExecutable(p, req.executable.value)
    ensures r.Spawned? ==> r.command == Resolve(req.kind, req.executable.value, OrEmpty(req.parameters), p)
    ensures r.Spawned? ==> r.timeoutMs == SpawnTimeoutMs
    ensures r.Spawned? ==> r.cwd == if Truthy(req.workingDirectory) then req.workingDirectory.value else processCwd
  {
    if !Truthy(req.executable) then Rejected(BadRequest(MissingExecutable))
    else if !IsValidExecutable(p, req.executable.value) then Rejected(BadRequest(InvalidExecutable))
    else
      var exe := req.executable.value;
      var command := Resolve(req.kind, exe, OrEmpty(req.parameters), p);
      var cwd := if Truthy(req.workingDirectory) then req.workingDirectory.value else processCwd;
      Spawned(command, cwd, SpawnTimeoutMs)
  }

  /** How the exit code reads in the error message: its digits, or `null`. */
  function CodeText(code: ExitCode): string {
    match code
    case Code(n) => IntText(n)
    case Null => "null"
  }

  /**
   * The `close` handler's reply: success exactly when the code is 0, with
   * stdout as output; otherwise an error naming the code, with stderr as
   * output unless stderr is empty. The code is reported either way.
   */
  function OnClose(code: ExitCode, stdout: string, stderr: string): (r: Reply)
    ensures r.status == 200 && r.exitCode == Some(code)
    ensures r.success <==> code == Code(0)
    ensures r.message.Some? <==> r.success
    ensures r.success ==> r.message == Some(SuccessMessage)
    ensures r.error.Some? <==> !r.success
    ensures r.success ==> r.output == Some(stdout)
    ensures !r.success ==> r.output == Some(if stderr != "" then stderr else stdout)
    ensures !r.success ==> r.error == Some(FailurePrefix + CodeText(code))
  {
    if code == Code(0) then Reply(200, true, Some(SuccessMessage), None, Some(stdout), Some(code))
    else Reply(200, false, None, Some(FailurePrefix + CodeText(code)), Some(if stderr != "" then stderr else stdout), Some(code))
  }

  // ---------------------------------------------------------------------
  // Properties of validation
  // ---------------------------------------------------------------------

  /** The validator ignores the case of letters, although only the extension rule folds case. */
  lemma ValidationIgnoresCase(p: Platform, e: string)
    ensures IsValidExecutable(p, Lower(e)) <==> IsValidExecutable(p, e)
  {
    LowerIdempotent(e);
    ExtnameLower(p, e);
    IsAbsoluteLower(p, e);
    LowerKeepsNonLetter(e, '/');
    LowerKeepsNonLetter(e, '\\');
    assert Extname(p, Lower(e)) == "" <==> Extname(p, e) == "" by {
      assert |Lower(Extname(p, e))| == |Extname(p, e)|;
    }
  }

  /** The lower-cased target ends with its lower-cased extension. */
  lemma LowerEndsWithExtname(p: Platform, e: string)
    requires e == [] || !IsSeparator(p, e[|e| - 1])
    ensures EndsWith(Lower(e), Lower(Extname(p, e)))
  {
    var x := Extname(p, e);
    ExtnameIsSuffix(p, e);
    var k := |e| - |x|;
    assert e[k..] == x;
    LowerSlice(e, k, |e|);
    assert e[k..|e|] == e[k..];
    assert Lower(e)[k..] == Lower(x);
  }

  /** A target whose extension, in any case, is on the allow-list passes, whatever its directory part. */
  lemma ListedExtensionPasses(p: Platform, e: string)
    requires e == [] || !IsSeparator(p, e[|e| - 1])
    requires Lower(Extname(p, e)) in ValidExtensions
    ensures IsValidExecutable(p, e)
  {
    LowerEndsWithExtname(p, e);
    var i :| 0 <= i < |ValidExtensions| && ValidExtensions[i] == Lower(Extname(p, e));
    assert HasValidExtension(e);
  }

  /** No allowed extension ends in a character other than `e t d 1 h y s`. */
  lemma NoListedExtensionEndsWith(e: string)
    requires e != []
    requires LowerChar(e[|e| - 1]) !in "etd1hys"
    ensures !HasValidExtension(e)
  {
    forall i | 0 <= i < |ValidExtensions|
      ensures !EndsWith(Lower(e), ValidExtensions[i])
    {
      var x := ValidExtensions[i];
      assert x[|x| - 1] in "etd1hys";
    }
  }

  /** `RUN.SH` passes: the extension rule folds case. */
  lemma UpperCaseScriptAccepted(p: Platform)
    ensures IsValidExecutable(p, "RUN.SH")
  {
    var e := "RUN.SH";
    assert Lower(e)[3..] == ".sh";
    assert EndsWith(Lower(e), ValidExtensions[4]);
  }

  /** `sub/dir/thing` fails all three rules: no listed extension, a `/`, not absolute. */
  lemma RelativeCommandRejected(p: Platform)
    ensures !IsValidExecutable(p, "sub/dir/thing")
  {
    var e := "sub/dir/thing";
    NoListedExtensionEndsWith(e);
    assert e[3] == '/';
  }

  /** `..` passes as a bare command name: it has no extension and no separator. */
  lemma DotDotAccepted(p: Platform)
    ensures IsValidExecutable(p, "..")
  {
    ExtnameDotDot(p);
  }

  /** There is no rule for URLs: a URL target is answered with `Invalid executable path` on every platform. */
  lemma UrlTargetRejected(p: Platform, params: Option<string>, kind: Option<string>, wd: Option<string>, cwd: string)
    ensures Dispatch(Request(Some("https://github.com"), params, kind, wd), p, cwd)
      == Rejected(BadRequest(InvalidExecutable))
  {
    var e := "https://github.com";
    NoListedExtensionEndsWith(e);
    assert e[6] == '/';
    assert e[1] == 't';
  }

  // ---------------------------------------------------------------------
  // Properties of the parameter split
  // ---------------------------------------------------------------------

  /** The only whitespace in `s` is the space. */
  predicate SpacesOnly(s: string) {
    forall i :: 0 <= i < |s| && IsWhitespace(s[i]) ==> s[i] == ' '
  }

  /** Splitting on spaces a string whose only whitespace is the space gives pieces that are empty or start with a non-blank. */
  lemma {:induction false} SplitPiecesStartNonBlank(s: string)
    requires SpacesOnly(s)
    ensures forall k :: 0 <= k < |Split(s, ' ')| ==>
      Split(s, ' ')[k] == [] || !IsWhitespace(Split(s, ' ')[k][0])
    decreases |s|
  {
    if s != [] {
      assert SpacesOnly(s[1..]) by {
        forall i | 0 <= i < |s[1..]| && IsWhitespace(s[1..][i])
          ensures s[1..][i] == ' '
        {
          assert s[1..][i] == s[i + 1];
        }
      }
      SplitPiecesStartNonBlank(s[1..]);
    }
  }

  /** Dropping blank pieces loses nothing when every piece is empty or starts with a non-blank. */
  lemma {:induction false} KeepNonBlankConcat(pieces: seq<string>)
    requires forall k :: 0 <= k < |pieces| ==> pieces[k] == [] || !IsWhitespace(pieces[k][0])
    ensures Concat(KeepNonBlank(pieces)) == Concat(pieces)
  {
    if pieces != [] {
      KeepNonBlankConcat(pieces[1..]);
      if pieces[0] != [] {
        TrimEmptyIff(pieces[0]);
        assert Trim(pieces[0]) != "";
      }
    }
  }

  /** When the space is the only whitespace, the tokens hold every other character of the parameter text, in order. */
  lemma TokensKeepText(params: string)
    requires SpacesOnly(params)
    ensures Concat(ParameterTokens(params)) == Without(params, ' ')
  {
    SplitPiecesStartNonBlank(params);
    KeepNonBlankConcat(Split(params, ' '));
    SplitKeepsOtherCharacters(params, ' ');
  }

  /** A word without whitespace is passed as a single token. */
  lemma SingleToken(w: string)
    requires w != [] && forall i :: 0 <= i < |w| ==> !IsWhitespace(w[i])
    ensures ParameterTokens(w) == [w]
  {
    SplitWithoutSeparator(w, ' ');
    TrimEmptyIff(w);
    assert !IsWhitespace(w[0]);
  }

  // ---------------------------------------------------------------------
  // Properties of resolution
  // ---------------------------------------------------------------------

  /** No parameter text, no tokens. */
  lemma NoTextNoTokens()
    ensures ParameterTokens("") == []
  {
    assert Split("", ' ') == [""];
    assert Trim("") == "";
  }

  /** Every kind gets the parameter tokens after its own arguments; the `if (parameters)` guard changes nothing. */
  lemma ResolveAppendsTokens(kind: Option<string>, exe: string, params: string, p: Platform)
    ensures Resolve(kind, exe, params, p).program == ResolveKind(kind, exe, params, p).program
    ensures Resolve(kind, exe, params, p).args == ResolveKind(kind, exe, params, p).args + ParameterTokens(params)
  {
    if params == "" {
      NoTextNoTokens();
      assert ResolveKind(kind, exe, params, p).args + [] == ResolveKind(kind, exe, params, p).args;
    }
  }

  /** A URL is opened with the raw parameter text glued to it, and the same text then follows again as tokens. */
  lemma UrlParametersTwice(kind: Option<string>, exe: string, params: string, p: Platform)
    requires IsUrlKind(kind)
    ensures Resolve(kind, exe, params, p)
      == Command(OpenProgram(p), OpenPrefix(p) + [exe + params] + ParameterTokens(params))
  {
    ResolveAppendsTokens(kind, exe, params, p);
  }

  /**
   * What resolution builds for a URL with a query string on win32: the query
   * is glued to the URL and then passed once more as a token. The handler
   * never gets this far with this target, since `https://example.com` fails
   * validation (see `UrlTargetRejected`); the example isolates `Resolve`.
   */
  lemma WindowsUrlExample()
    ensures Resolve(Some("url"), "https://example.com", "?x=1", Win32)
      == Command("start", ["", "https://example.com" + "?x=1", "?x=1"])
  {
    SingleToken("?x=1");
    UrlParametersTwice(Some("url"), "https://example.com", "?x=1", Win32);
  }

  /**
   * Outside the URL kinds the target is passed unchanged: either it is the
   * program, with no arguments of its own, or an interpreter runs it and it
   * is the last argument before the tokens. The target is never wrapped in
   * `cmd`.
   */
  lemma TargetPassedVerbatim(kind: Option<string>, exe: string, params: string, p: Platform)
    requires !IsUrlKind(kind)
    ensures var c := ResolveKind(kind, exe, params, p);
      (c.program == exe && c.args == []) ||
      (c.program in ["python", "node", "powershell", "bash"] && c.args != [] && c.args[|c.args| - 1] == exe)
  {
  }

  /** Batch files are run directly, on every platform, never through `cmd`. */
  lemma BatchFilesRunDirectly(exe: string, params: string, p: Platform)
    requires Lower(Extname(p, exe)) in [".bat", ".cmd"]
    ensures Resolve(Some("script"), exe, params, p) == Command(exe, ParameterTokens(params))
  {
    ResolveAppendsTokens(Some("script"), exe, params, p);
  }

  /** A target that is not empty resolves to a program that is not empty, whatever its kind. */
  lemma ResolvedProgramNonEmpty(kind: Option<string>, exe: string, params: string, p: Platform)
    requires exe != ""
    ensures Resolve(kind, exe, params, p).program != ""
  {
    ResolveAppendsTokens(kind, exe, params, p);
  }

  lemma ExtnameBuildScript()
    ensures Lower(Extname(Linux, "build.sh")) == ".sh"
  {
    var e := "build.sh";
    ExtnameAt(Linux, e, -1);
    assert e[0..] == e;
    SegmentExtensionAt(e, 5);
    assert e[5..] == ".sh";
  }

  /** `build.sh --fast` as a script on Linux runs under bash. */
  lemma BuildScriptExample()
    ensures Resolve(Some("script"), "build.sh", "--fast", Linux) == Command("bash", ["build.sh", "--fast"])
  {
    var e, w := "build.sh", "--fast";
    ExtnameBuildScript();
    assert ResolveKind(Some("script"), e, w, Linux) == Command("bash", [e]);
    SingleToken(w);
    ResolveAppendsTokens(Some("script"), e, w, Linux);
  }

  // ---------------------------------------------------------------------
  // Properties of the exit-code mapping
  // ---------------------------------------------------------------------

  /** Distinct exit codes give distinct texts. */
  lemma CodeTextInjective(a: ExitCode, b: ExitCode)
    requires CodeText(a) == CodeText(b)
    ensures a == b
  {
    if a.Code? && b.Code? {
      IntTextInjective(a.n, b.n);
    } else if a.Code? != b.Code? {
      IntTextFirst(if a.Code? then a.n else b.n);
      assert false;
    }
  }

  /** The error of a failed run identifies its exit code. */
  lemma FailureNamesCode(a: ExitCode, b: ExitCode, out1: string, err1: string, out2: string, err2: string)
    requires !OnClose(a, out1, err1).success && !OnClose(b, out2, err2).success
    requires OnClose(a, out1, err1).error == OnClose(b, out2, err2).error
    ensures a == b
  {
    var n := |FailurePrefix|;
    assert (FailurePrefix + CodeText(a))[n..] == CodeText(a);
    assert (FailurePrefix + CodeText(b))[n..] == CodeText(b);
    CodeTextInjective(a, b);
  }

  /** A failed run's output is empty only when both streams are. */
  lemma FailureOutputEmpty(code: ExitCode, stdout: string, stderr: string)
    requires code != Code(0)
    ensures OnClose(code, stdout, stderr).output == Some("") <==> stdout == "" && stderr == ""
  {
  }
}
