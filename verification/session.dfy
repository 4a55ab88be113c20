/**
 * The session layer of the WinRM client: `Response`, `Session.run_cmd`,
 * `Session.run_ps` and the chunked upload path `Session.run_ps_long`.
 *
 * The remote side is an oracle. Within one run, commands are issued in a
 * fixed order, so the reply to the `k`-th command issued in the shell
 * (counting from 0) is `reply(k)`: the triple `get_command_output` returns.
 * What the protocol does with the command lines is not modelled; the run is
 * recorded as the sequence of shell events the session asks for.
 */
module Session {
  import opened Wrappers
  import opened Bytes
  import opened Text
  import Base64
  import Utf16
  import opened Chunking
  import opened Diagnostics

  /** The result of one remote command: its output, its error stream and its exit status. */
  datatype Response = Response(stdOut: string, stdErr: string, statusCode: int)

  // ---------------------------------------------------------------------
  // Command lines
  // ---------------------------------------------------------------------

  /** `>` starts the temp file afresh, `>>` appends to it. */
  datatype Redirect = Overwrite | Append

  /** The command lines the session sends, by what they are for. */
  datatype Command =
    | Plain(line: string, args: seq<string>)           // a caller's command with its arguments
    | Powershell(script: string)                       // `make_ps_command(script)`
    | Echo(chunk: string, redirect: Redirect, file: string) // one chunk written to the temp file
    | RunScriptFile(file: string)                      // the uploaded script, run from its file

  const PsPrefix: string := "powershell -encodedcommand "

  /** The base64 of the script's UTF-16LE form, as PowerShell's `-EncodedCommand` expects it. */
  function EncodedCommand(script: string): string {
    Base64.Encode(Utf16.Encode(script))
  }

  /** The exact command line sent for `c`. */
  function Line(c: Command): string {
    match c
    case Plain(line, _) => line
    case Powershell(s) => PsPrefix + EncodedCommand(s)
    case Echo(chunk, redirect, file) =>
      "ECHO " + chunk + " " + (if redirect == Overwrite then ">" else ">>") + " \"" + file + "\" "
    case RunScriptFile(file) => "PowerShell.exe -ExecutionPolicy Bypass -Command \"& '" + file + "' \" "
  }

  /** The script that creates a temp file with a `.ps1` name and prints that name. */
  const CreateTempScript: string :=
    "$script_file = [IO.Path]::GetTempFileName() |  Rename-Item -NewName { $_ -replace 'tmp$', 'tmp.ps1' } -PassThru\n\"$script_file\""

  /** The script that turns the uploaded base64 text back into the script, in place. */
  function ConvertScript(file: string): string {
    "\n            # Convert it from b64 encoded\n            $b64 = get-content \"" + file
      + "\"\n            [System.Text.Encoding]::ASCII.GetString([System.Convert]::FromBase64String($b64)) |\n                out-file -Encoding Default \""
      + file + "\"\n        "
  }

  /** The script that deletes the temp file. */
  function RemoveScript(file: string): string {
    "remove-item '" + file + "' "
  }

  /** A PowerShell command line carries its script intact: the encoded part decodes back to it. */
  lemma PowershellLineCarriesScript(script: string)
    ensures IsPrefix(PsPrefix, Line(Powershell(script)))
    ensures var e := Line(Powershell(script))[|PsPrefix|..];
      && Base64.Decode(e) == Some(Utf16.Encode(script))
      && Utf16.Decode(Base64.Decode(e).value) == Some(script)
  {
    var e := EncodedCommand(script);
    assert Line(Powershell(script))[|PsPrefix|..] == e;
    Base64.DecodeEncode(Utf16.Encode(script));
    Utf16.DecodeEncode(script);
  }

  // ---------------------------------------------------------------------
  // Shell events
  // ---------------------------------------------------------------------

  /**
   * What the session asks of the protocol: `open_shell`, `run_command`
   * (followed by `get_command_output`), `cleanup_command`, `close_shell`.
   */
  datatype Event = OpenShell | RunCommand(cmd: Command) | CleanupCommand | CloseShell

  /** Each command is run, its output read, and then cleaned up. */
  function Issued(cmds: seq<Command>): (es: seq<Event>)
    ensures |es| == 2 * |cmds|
    ensures forall i :: 0 <= i < |es| ==> es[i].RunCommand? || es[i].CleanupCommand?
    decreases |cmds|
  {
    if |cmds| == 0 then [] else [RunCommand(cmds[0]), CleanupCommand] + Issued(cmds[1..])
  }

  /** The commands run, in order, read off a list of events. */
  function Commands(es: seq<Event>): seq<Command>
    decreases |es|
  {
    if |es| == 0 then [] else (if es[0].RunCommand? then [es[0].cmd] else []) + Commands(es[1..])
  }

  lemma {:induction false} CommandsAppend(a: seq<Event>, b: seq<Event>)
    ensures Commands(a + b) == Commands(a) + Commands(b)
    decreases |a|
  {
    if |a| > 0 {
      assert (a + b)[0] == a[0];
      assert (a + b)[1..] == a[1..] + b;
      CommandsAppend(a[1..], b);
      var head: seq<Command> := if a[0].RunCommand? then [a[0].cmd] else [];
      assert Commands(a + b) == head + Commands(a[1..] + b);
      assert Commands(a) == head + Commands(a[1..]);
      assert head + (Commands(a[1..]) + Commands(b)) == (head + Commands(a[1..])) + Commands(b);
    } else {
      assert a + b == b;
    }
  }

  /** Reading the commands back from the events of `Issued` gives the commands issued. */
  lemma {:induction false} CommandsIssued(cmds: seq<Command>)
    ensures Commands(Issued(cmds)) == cmds
    decreases |cmds|
  {
    if |cmds| > 0 {
      CommandsIssued(cmds[1..]);
      var es := Issued(cmds);
      CommandsAppend([RunCommand(cmds[0]), CleanupCommand], Issued(cmds[1..]));
      assert Commands([CleanupCommand]) == [] by {
        assert [CleanupCommand][1..] == [];
      }
      assert [RunCommand(cmds[0]), CleanupCommand][1..] == [CleanupCommand];
      assert cmds == [cmds[0]] + cmds[1..];
    }
  }

  /** The events of a shell session that runs `cmds`, closing the shell at the end when `close` holds. */
  function InShell(cmds: seq<Command>, close: bool): seq<Event> {
    [OpenShell] + Issued(cmds) + (if close then [CloseShell] else [])
  }

  /** A session opens its shell first and only once, and closes it at most once, at the very end. */
  lemma SessionShape(es: seq<Event>, cmds: seq<Command>, close: bool)
    requires es == InShell(cmds, close)
    ensures es[0] == OpenShell
    ensures multiset(es)[OpenShell] == 1
    ensures multiset(es)[CloseShell] == (if close then 1 else 0)
    ensures close ==> es[|es| - 1] == CloseShell
  {
    var mid := Issued(cmds);
    assert multiset(mid)[OpenShell] == 0 && multiset(mid)[CloseShell] == 0 by {
      assert OpenShell !in mid;
      assert CloseShell !in mid;
    }
    if close {
      assert multiset(es) == multiset([OpenShell]) + multiset(mid) + multiset([CloseShell]) by {
        assert es == [OpenShell] + mid + [CloseShell];
      }
    } else {
      assert multiset(es) == multiset([OpenShell]) + multiset(mid) by {
        assert es == [OpenShell] + mid;
      }
    }
  }

  /** The commands a session runs are exactly `cmds`, in order. */
  lemma SessionCommands(cmds: seq<Command>, close: bool)
    ensures Commands(InShell(cmds, close)) == cmds
  {
    var mid := Issued(cmds);
    var tail: seq<Event> := if close then [CloseShell] else [];
    CommandsAppend([OpenShell], mid);
    CommandsAppend([OpenShell] + mid, tail);
    CommandsIssued(cmds);
    assert Commands([OpenShell]) == [] by {
      assert [OpenShell][1..] == [];
    }
    assert Commands(tail) == [] by {
      if close {
        assert [CloseShell][1..] == [];
      }
    }
  }

  // ---------------------------------------------------------------------
  // Replies
  // ---------------------------------------------------------------------

  /**
   * A diagnostic normaliser. The session's own is `Cleaner(read)`:
   * `_clean_error_msg` with the XML parser `read`. The run functions take
   * the normaliser as a parameter, so what is proved about them holds for
   * that one in particular.
   */
  type Normaliser = string -> string

  function Cleaner(read: XmlReader): Normaliser {
    msg => CleanErrorMsg(msg, read)
  }

  /**
   * What `run_command` inside the long path makes of a reply: a non-empty
   * error stream is passed through the diagnostic normaliser.
   */
  function Received(raw: Response, clean: Normaliser): (rs: Response)
    ensures rs.stdOut == raw.stdOut && rs.statusCode == raw.statusCode
    ensures |raw.stdErr| == 0 ==> rs == raw
    ensures |raw.stdErr| > 0 ==> rs.stdErr == clean(raw.stdErr)
  {
    if |raw.stdErr| > 0 then raw.(stdErr := clean(raw.stdErr)) else raw
  }

  /** The test `run_and_check_ps` applies: any error text, or a non-zero exit status. */
  predicate Failed(rs: Response) {
    |rs.stdErr| > 0 || rs.statusCode != 0
  }

  /**
   * A stage whose error stream is a CLIXML document of blank text, and whose
   * status is 0, counts as passed: the check looks at the normalised text.
   */
  lemma BlankDiagnosticPasses(raw: Response, read: XmlReader, blank: string)
    requires raw.statusCode == 0
    requires IsPrefix(ClixmlMarker, raw.stdErr)
    requires read(StripNamespace(raw.stdErr[11..])) == Parsed([Some(blank)])
    requires |blank| > 0 && forall i :: 0 <= i < |blank| ==> IsSpace(blank[i])
    ensures Failed(raw)
    ensures !Failed(Received(raw, Cleaner(read)))
  {
    BlankDiagnosticVanishes(raw.stdErr, read, blank);
  }

  /** The checked stages of the long path, each with the message its failure carries. */
  datatype Stage = CreatingTempFile | WritingChunk(offset: nat) | Converting | Deleting

  function StageMessage(stage: Stage): string {
    match stage
    case CreatingTempFile => "Creating temp script file"
    case WritingChunk(offset) => "writing chunk " + NatToString(offset) + " to temp script file"
    case Converting => "Converting temp script file back from b64 encoding"
    case Deleting => "Deleting temp script file"
  }

  /** A checked command and the stage it belongs to. */
  datatype Step = Step(cmd: Command, stage: Stage)

  /** How a run ends: with a response, with the exception a failed stage raises, or with an encoding error. */
  datatype Outcome =
    | Returned(rs: Response)
    | Raised(stage: Stage, message: string)
    | EncodeError

  datatype Run = Run(events: seq<Event>, outcome: Outcome)

  /** The exception text of a failed stage: the stage's message, a newline, then the error text. */
  function AbortMessage(stage: Stage, rs: Response): string {
    StageMessage(stage) + "\n" + rs.stdErr
  }

  /** The reply to the `j`-th command passes the check once its error text is normalised. */
  predicate Passes(reply: nat -> Response, clean: Normaliser, j: nat) {
    !Failed(Received(reply(j), clean))
  }

  /**
   * The number of checked commands, of `count` issued from position `k` on,
   * that pass before the first one that fails.
   */
  function Passing(count: nat, reply: nat -> Response, clean: Normaliser, k: nat): (n: nat)
    ensures n <= count
    ensures forall j :: k <= j < k + n ==> Passes(reply, clean, j)
    ensures n < count ==> !Passes(reply, clean, k + n)
    decreases count
  {
    if count == 0 || !Passes(reply, clean, k) then 0
    else
      var rest := Passing(count - 1, reply, clean, k + 1);
      PassingStep(reply, clean, k, rest);
      1 + rest
  }

  /** A passing reply followed by `n` passing replies is a run of `n + 1` passing replies. */
  lemma PassingStep(reply: nat -> Response, clean: Normaliser, k: nat, n: nat)
    requires Passes(reply, clean, k)
    requires forall j :: k + 1 <= j < k + 1 + n ==> Passes(reply, clean, j)
    ensures forall j :: k <= j < k + 1 + n ==> Passes(reply, clean, j)
  {
  }

  // ---------------------------------------------------------------------
  // run_cmd
  // ---------------------------------------------------------------------

  /** `run_cmd(command, args)`: one command in a fresh shell; the reply is returned as it came. */
  function RunCmd(command: string, args: seq<string>, reply: nat -> Response): (r: Run)
    ensures r.events == InShell([Plain(command, args)], true)
    ensures r.outcome == Returned(reply(0))
  {
    Run([OpenShell, RunCommand(Plain(command, args)), CleanupCommand, CloseShell], Returned(reply(0)))
  }

  // ---------------------------------------------------------------------
  // run_ps_long
  // ---------------------------------------------------------------------

  /**
   * Python 2's implicit ASCII encoding of the script before `b64encode`;
   * `None` where a character outside ASCII raises `UnicodeEncodeError`.
   */
  function AsciiBytes(script: string): (r: Option<seq<byte>>)
    ensures r.Some? <==> forall i :: 0 <= i < |script| ==> script[i] as int < 128
    ensures r.Some? ==> |r.value| == |script| && forall i :: 0 <= i < |script| ==> r.value[i] == script[i] as int
  {
    if forall i :: 0 <= i < |script| ==> script[i] as int < 128 then
      Some(seq(|script|, i requires 0 <= i < |script| => script[i] as int))
    else None
  }

  /** `[System.Text.Encoding]::ASCII.GetString` on bytes below 128. */
  function AsciiText(bytes: seq<byte>): string
    requires forall i :: 0 <= i < |bytes| ==> bytes[i] < 128
  {
    seq(|bytes|, i requires 0 <= i < |bytes| => bytes[i] as char)
  }

  /** The remote side's ASCII decoding gives back the script the session encoded. */
  lemma AsciiRoundTrip(script: string)
    requires AsciiBytes(script).Some?
    ensures AsciiText(AsciiBytes(script).value) == script
  {
  }

  /** One `ECHO` step per chunk of the payload, at offsets `0, m, 2m, ...`. */
  function WriteSteps(payload: string, m: nat, file: string): (steps: seq<Step>)
    requires m > 0
    ensures |steps| == |Chunks(payload, m)|
  {
    var offs := Offsets(|payload|, m);
    var cs := Chunks(payload, m);
    seq(|offs|, i requires 0 <= i < |offs| =>
      Step(Echo(cs[i], if offs[i] == 0 then Overwrite else Append, file), WritingChunk(offs[i])))
  }

  function CommandsOf(steps: seq<Step>): (cmds: seq<Command>)
    ensures |cmds| == |steps|
  {
    seq(|steps|, i requires 0 <= i < |steps| => steps[i].cmd)
  }

  /** The checked steps that follow the creation of the temp file: every chunk, then the conversion. */
  function UploadSteps(m: nat, file: string, bytes: seq<byte>): (steps: seq<Step>)
    requires m > 0
    ensures |steps| == |Chunks(Base64.Encode(bytes), m)| + 1
  {
    WriteSteps(Base64.Encode(bytes), m, file) + [Step(Powershell(ConvertScript(file)), Converting)]
  }

  /** Every command the long path issues when no stage fails: the creation, the checked steps, the run, the deletion. */
  function PlanOf(file: string, steps: seq<Step>): (cmds: seq<Command>) {
    [Powershell(CreateTempScript)] + CommandsOf(steps) + [RunScriptFile(file), Powershell(RemoveScript(file))]
  }

  /** The plan of the long path for a script whose bytes are `bytes`. */
  function Plan(m: nat, file: string, bytes: seq<byte>): (cmds: seq<Command>)
    requires m > 0
  {
    PlanOf(file, UploadSteps(m, file, bytes))
  }

  /**
   * Everything after the temp file `file` exists and the script has been
   * encoded: the checked `steps` (answered by `reply` from position 1 on),
   * the unchecked run of the script, and the checked deletion.
   */
  function RunSteps(file: string, steps: seq<Step>, reply: nat -> Response, clean: Normaliser): (r: Run) {
    var n := Passing(|steps|, reply, clean, 1);
    if n < |steps| then
      Run(InShell([Powershell(CreateTempScript)] + CommandsOf(steps[..n + 1]), true),
          Raised(steps[n].stage, AbortMessage(steps[n].stage, Received(reply(1 + n), clean))))
    else
      var x := 1 + |steps|;
      var events := InShell(PlanOf(file, steps), true);
      if !Passes(reply, clean, x + 1) then
        Run(events, Raised(Deleting, AbortMessage(Deleting, Received(reply(x + 1), clean))))
      else Run(events, Returned(Received(reply(x), clean)))
  }

  /**
   * `run_ps_long(script)` with envelope size `m`: create a temp file, write
   * the base64 of the script to it chunk by chunk, convert it back, run it,
   * delete it. Every stage but the run of the script itself is checked.
   */
  function RunPsLong(m: nat, script: string, reply: nat -> Response, clean: Normaliser): (r: Run)
    requires m > 0
  {
    var create := Received(reply(0), clean);
    if !Passes(reply, clean, 0) then
      Run(InShell([Powershell(CreateTempScript)], true),
          Raised(CreatingTempFile, AbortMessage(CreatingTempFile, create)))
    else
      match AsciiBytes(script)
      case None => Run(InShell([Powershell(CreateTempScript)], false), EncodeError)
      case Some(bytes) =>
        var file := Strip(create.stdOut);
        RunSteps(file, UploadSteps(m, file, bytes), reply, clean)
  }

  // ---------------------------------------------------------------------
  // The upload plan
  // ---------------------------------------------------------------------

  /** Where each command sits in the plan: the creation, the checked steps, the run, the deletion. */
  lemma PlanLayout(file: string, steps: seq<Step>)
    ensures var plan := PlanOf(file, steps);
      && |plan| == |steps| + 3
      && plan[0] == Powershell(CreateTempScript)
      && (forall i :: 0 <= i < |steps| ==> plan[1 + i] == steps[i].cmd)
      && plan[|steps| + 1] == RunScriptFile(file)
      && plan[|steps| + 2] == Powershell(RemoveScript(file))
  {
  }

  /** A multiple of a positive step is 0 only for the first index. */
  lemma OffsetIsZero(i: nat, m: nat)
    requires m > 0
    ensures i * m == 0 <==> i == 0
  {
    if i > 0 {
      assert i * m >= m;
    }
  }

  /** Chunk `i` is written at offset `i * m`, with `>` for the first chunk and `>>` for every later one. */
  lemma WriteStepAt(payload: string, m: nat, file: string, i: nat)
    requires m > 0
    requires i < |Chunks(payload, m)|
    ensures WriteSteps(payload, m, file)[i]
      == Step(Echo(Chunks(payload, m)[i], if i == 0 then Overwrite else Append, file), WritingChunk(i * m))
  {
    var offs := Offsets(|payload|, m);
    assert offs[i] == i * m;
    OffsetIsZero(i, m);
  }

  /**
   * A stage is reported for the command that belongs to it; a chunk write
   * that is checked step `i` names the offset `i * m` of its chunk, and only
   * the first chunk starts the file afresh.
   */
  predicate StageOf(stage: Stage, cmd: Command, file: string, m: nat, i: int) {
    match stage
    case CreatingTempFile => cmd == Powershell(CreateTempScript)
    case WritingChunk(offset) =>
      cmd.Echo? && cmd.file == file && offset == i * m && (cmd.redirect == Overwrite <==> i == 0)
    case Converting => cmd == Powershell(ConvertScript(file))
    case Deleting => cmd == Powershell(RemoveScript(file))
  }

  /** The steps are each labelled with the stage their command belongs to. */
  predicate Staged(file: string, m: nat, steps: seq<Step>) {
    forall i :: 0 <= i < |steps| ==> StageOf(steps[i].stage, steps[i].cmd, file, m, i)
  }

  /** Every upload step carries the stage of its own command. */
  lemma UploadStepsStaged(m: nat, file: string, bytes: seq<byte>)
    requires m > 0
    ensures Staged(file, m, UploadSteps(m, file, bytes))
  {
    var payload := Base64.Encode(bytes);
    var writes := WriteSteps(payload, m, file);
    var steps := writes + [Step(Powershell(ConvertScript(file)), Converting)];
    assert UploadSteps(m, file, bytes) == steps;
    forall i | 0 <= i < |steps|
      ensures StageOf(steps[i].stage, steps[i].cmd, file, m, i)
    {
      if i < |writes| {
        WriteStepAt(payload, m, file, i);
      }
    }
  }

  /**
   * The chunk writes carry the payload, in order and in pieces of at most
   * `m` characters, at offsets `0, m, 2m, ...`, the first with `>` and every
   * later one with `>>`; there are `ceil(|payload| / m)` of them.
   */
  lemma WriteStepsCarryPayload(payload: string, m: nat, file: string)
    requires m > 0
    ensures var cs := Chunks(payload, m);
      var steps := WriteSteps(payload, m, file);
      && |steps| == |cs| == (|payload| + m - 1) / m
      && (forall i :: 0 <= i < |cs| ==>
            && steps[i].cmd.Echo?
            && steps[i].cmd.chunk == cs[i]
            && 0 < |cs[i]| <= m
            && (steps[i].cmd.redirect == Overwrite <==> i == 0)
            && steps[i].stage == WritingChunk(i * m))
      && Flatten(cs) == payload
  {
    var cs := Chunks(payload, m);
    var steps := WriteSteps(payload, m, file);
    OffsetsCount(|payload|, m);
    forall i | 0 <= i < |cs|
      ensures && steps[i].cmd.Echo?
              && steps[i].cmd.chunk == cs[i]
              && 0 < |cs[i]| <= m
              && (steps[i].cmd.redirect == Overwrite <==> i == 0)
              && steps[i].stage == WritingChunk(i * m)
    {
      WriteStepAt(payload, m, file, i);
      ChunkSizes(payload, m, i);
    }
    FlattenChunks(payload, m);
  }

  /**
   * What the chunks of the long path rebuild on the remote side: their
   * concatenation decodes to the script's bytes, whose ASCII reading is
   * the script.
   */
  lemma UploadCarriesScript(m: nat, script: string)
    requires m > 0
    requires AsciiBytes(script).Some?
    ensures var bytes := AsciiBytes(script).value;
      && Base64.Decode(Flatten(Chunks(Base64.Encode(bytes), m))) == Some(bytes)
      && AsciiText(bytes) == script
  {
    var bytes := AsciiBytes(script).value;
    FlattenChunks(Base64.Encode(bytes), m);
    Base64.DecodeEncode(bytes);
  }

  // ---------------------------------------------------------------------
  // Properties of the upload
  // ---------------------------------------------------------------------

  /** The upload runs a prefix of the plan, at least the creation and one more command, and closes the shell. */
  lemma {:induction false} RunStepsShape(file: string, steps: seq<Step>, reply: nat -> Response, clean: Normaliser)
    ensures var r := RunSteps(file, steps, reply, clean);
      && !r.outcome.EncodeError?
      && r.events == InShell(Commands(r.events), true)
      && |Commands(r.events)| >= 2
      && Commands(r.events) <= PlanOf(file, steps)
  {
    var n := Passing(|steps|, reply, clean, 1);
    var plan := PlanOf(file, steps);
    PlanLayout(file, steps);
    if n < |steps| {
      var cmds := [Powershell(CreateTempScript)] + CommandsOf(steps[..n + 1]);
      SessionCommands(cmds, true);
      assert cmds == plan[..n + 2];
    } else {
      SessionCommands(plan, true);
    }
  }

  /**
   * What a failed stage leaves behind: the command that failed is the last
   * one run, its reply is a failure, the exception carries the stage message
   * and the normalised error text, and every earlier checked command passed.
   */
  predicate AbortedAt(r: Run, file: string, m: nat, reply: nat -> Response, clean: Normaliser)
    requires r.outcome.Raised?
  {
    var cs := Commands(r.events);
    var k := |cs| - 1;
    && k >= 0
    && !Passes(reply, clean, k)
    && r.outcome.message == AbortMessage(r.outcome.stage, Received(reply(k), clean))
    && StageOf(r.outcome.stage, cs[k], file, m, k - 1)
    && (forall j :: 0 <= j < k && !cs[j].RunScriptFile? ==> Passes(reply, clean, j))
  }

  /** A checked step that fails stops the upload at that step. */
  lemma {:induction false} StepFailureAborts(file: string, m: nat, steps: seq<Step>, reply: nat -> Response, clean: Normaliser)
    requires Staged(file, m, steps)
    requires Passes(reply, clean, 0)
    requires Passing(|steps|, reply, clean, 1) < |steps|
    ensures RunSteps(file, steps, reply, clean).outcome.Raised?
    ensures AbortedAt(RunSteps(file, steps, reply, clean), file, m, reply, clean)
  {
    var n := Passing(|steps|, reply, clean, 1);
    var r := RunSteps(file, steps, reply, clean);
    RunStepsStopsAt(file, steps, reply, clean, n);
    var cmds := [Powershell(CreateTempScript)] + CommandsOf(steps[..n + 1]);
    assert Commands(r.events) == cmds by {
      SessionCommands(cmds, true);
    }
    assert StageOf(steps[n].stage, steps[n].cmd, file, m, n);
    StepAbortShape(r, file, m, steps, n, reply, clean);
  }

  /** A run that raised at checked step `n`, after the creation and every earlier step passed, is aborted there. */
  lemma StepAbortShape(r: Run, file: string, m: nat, steps: seq<Step>, n: nat, reply: nat -> Response, clean: Normaliser)
    requires n < |steps|
    requires Commands(r.events) == [Powershell(CreateTempScript)] + CommandsOf(steps[..n + 1])
    requires r.outcome == Raised(steps[n].stage, AbortMessage(steps[n].stage, Received(reply(1 + n), clean)))
    requires StageOf(steps[n].stage, steps[n].cmd, file, m, n)
    requires Passes(reply, clean, 0) && forall j :: 1 <= j < 1 + n ==> Passes(reply, clean, j)
    requires !Passes(reply, clean, 1 + n)
    ensures AbortedAt(r, file, m, reply, clean)
  {
    var cmds := [Powershell(CreateTempScript)] + CommandsOf(steps[..n + 1]);
    assert |cmds| == n + 2 && cmds[n + 1] == steps[n].cmd;
  }

  /** When every checked step passes but the deletion fails, the deletion is the stage reported. */
  lemma {:induction false} DeletionFailureAborts(file: string, m: nat, steps: seq<Step>, reply: nat -> Response, clean: Normaliser)
    requires Passes(reply, clean, 0)
    requires Passing(|steps|, reply, clean, 1) == |steps|
    requires !Passes(reply, clean, |steps| + 2)
    ensures RunSteps(file, steps, reply, clean).outcome.Raised?
    ensures RunSteps(file, steps, reply, clean).outcome.stage == Deleting
    ensures Commands(RunSteps(file, steps, reply, clean).events) == PlanOf(file, steps)
    ensures AbortedAt(RunSteps(file, steps, reply, clean), file, m, reply, clean)
  {
    var plan := PlanOf(file, steps);
    var r := RunSteps(file, steps, reply, clean);
    assert Commands(r.events) == plan by {
      SessionCommands(plan, true);
    }
    DeletionAbortShape(r, file, m, steps, reply, clean);
  }

  /** A run of the whole plan that raised at the deletion, after every checked step passed, is aborted there. */
  lemma DeletionAbortShape(r: Run, file: string, m: nat, steps: seq<Step>, reply: nat -> Response, clean: Normaliser)
    requires Commands(r.events) == PlanOf(file, steps)
    requires r.outcome == Raised(Deleting, AbortMessage(Deleting, Received(reply(|steps| + 2), clean)))
    requires Passes(reply, clean, 0) && forall j :: 1 <= j < 1 + |steps| ==> Passes(reply, clean, j)
    requires !Passes(reply, clean, |steps| + 2)
    ensures AbortedAt(r, file, m, reply, clean)
  {
    PlanLayout(file, steps);
  }

  /** A failed stage ends the upload at that stage (see `AbortedAt`). */
  lemma {:induction false} RunStepsAborts(file: string, m: nat, steps: seq<Step>, reply: nat -> Response, clean: Normaliser)
    requires Staged(file, m, steps)
    requires Passes(reply, clean, 0)
    ensures var r := RunSteps(file, steps, reply, clean);
      r.outcome.Raised? ==> AbortedAt(r, file, m, reply, clean)
  {
    if Passing(|steps|, reply, clean, 1) < |steps| {
      StepFailureAborts(file, m, steps, reply, clean);
    } else if !Passes(reply, clean, |steps| + 2) {
      DeletionFailureAborts(file, m, steps, reply, clean);
    }
  }

  /** Every reply numbered from `lo` up to `hi`, except number `x`, passes the status check once received. */
  predicate AllPassExcept(reply: nat -> Response, clean: Normaliser, lo: nat, hi: nat, x: int) {
    forall j :: lo <= j < hi && j != x ==> Passes(reply, clean, j)
  }

  /**
   * The upload returns a response exactly when every checked command of the
   * plan passes; the run of the script itself is not checked, and what it
   * returns is the response, with the deletion still run after it.
   */
  lemma {:induction false} RunStepsReturns(file: string, steps: seq<Step>, reply: nat -> Response, clean: Normaliser)
    ensures var r := RunSteps(file, steps, reply, clean);
      var plan := PlanOf(file, steps);
      var x := |plan| - 2;
      && (r.outcome.Returned? <==> AllPassExcept(reply, clean, 1, |plan|, x))
      && (r.outcome.Returned? ==> Commands(r.events) == plan && r.outcome.rs == Received(reply(x), clean))
  {
    var plan := PlanOf(file, steps);
    PlanLayout(file, steps);
    SessionCommands(plan, true);
  }

  // ---------------------------------------------------------------------
  // Properties of run_ps_long
  // ---------------------------------------------------------------------

  /** The temp file name: the creation command's output, stripped. */
  function TempFile(reply: nat -> Response): string {
    Strip(reply(0).stdOut)
  }

  /** A run whose events are one shell session, closed unless the run ended in an encoding error. */
  predicate InOneShell(r: Run) {
    r.events == InShell(Commands(r.events), !r.outcome.EncodeError?)
  }

  lemma InOneShellShape(r: Run)
    requires InOneShell(r)
    ensures var es := r.events;
      && |es| > 0
      && es[0] == OpenShell
      && multiset(es)[OpenShell] == 1
      && multiset(es)[CloseShell] == (if r.outcome.EncodeError? then 0 else 1)
      && (!r.outcome.EncodeError? ==> es[|es| - 1] == CloseShell)
  {
    SessionShape(r.events, Commands(r.events), !r.outcome.EncodeError?);
  }

  /** The plan runs one command more than the checked steps and the three fixed commands. */
  lemma PlanLength(m: nat, file: string, bytes: seq<byte>)
    requires m > 0
    ensures var plan := Plan(m, file, bytes);
      && |plan| == |Chunks(Base64.Encode(bytes), m)| + 4
      && plan[0] == Powershell(CreateTempScript)
  {
    PlanLayout(file, UploadSteps(m, file, bytes));
  }

  /** When the creation of the temp file fails, only that command is run, and the shell is closed. */
  lemma {:induction false} CreationFailure(m: nat, script: string, reply: nat -> Response, clean: Normaliser)
    requires m > 0
    requires !Passes(reply, clean, 0)
    ensures var r := RunPsLong(m, script, reply, clean);
      && InOneShell(r)
      && Commands(r.events) == [Powershell(CreateTempScript)]
      && r.outcome.Raised?
      && AbortedAt(r, TempFile(reply), m, reply, clean)
  {
    var r := RunPsLong(m, script, reply, clean);
    var create := Received(reply(0), clean);
    assert r == Run(InShell([Powershell(CreateTempScript)], true),
                    Raised(CreatingTempFile, AbortMessage(CreatingTempFile, create)));
    SessionCommands([Powershell(CreateTempScript)], true);
  }

  /** When the script is not plain ASCII, only the creation command is run, and the shell stays open. */
  lemma {:induction false} EncodingFailure(m: nat, script: string, reply: nat -> Response, clean: Normaliser)
    requires m > 0
    requires Passes(reply, clean, 0) && AsciiBytes(script).None?
    ensures var r := RunPsLong(m, script, reply, clean);
      && InOneShell(r)
      && Commands(r.events) == [Powershell(CreateTempScript)]
      && r.outcome.EncodeError?
  {
    var r := RunPsLong(m, script, reply, clean);
    assert r == Run(InShell([Powershell(CreateTempScript)], false), EncodeError);
    SessionCommands([Powershell(CreateTempScript)], false);
  }

  /** Once the temp file exists and the script is ASCII, the run is the upload of its steps. */
  lemma {:induction false} UploadRun(m: nat, script: string, reply: nat -> Response, clean: Normaliser)
    requires m > 0
    requires Passes(reply, clean, 0) && AsciiBytes(script).Some?
    ensures RunPsLong(m, script, reply, clean)
      == RunSteps(TempFile(reply), UploadSteps(m, TempFile(reply), AsciiBytes(script).value), reply, clean)
  {
  }

  /** The upload, seen from the long path: a prefix of the plan in one closed shell. */
  lemma {:induction false} UploadFollowsPlan(m: nat, script: string, reply: nat -> Response, clean: Normaliser)
    requires m > 0
    requires Passes(reply, clean, 0) && AsciiBytes(script).Some?
    ensures var r := RunPsLong(m, script, reply, clean);
      && InOneShell(r)
      && !r.outcome.EncodeError?
      && |Commands(r.events)| > 0
      && Commands(r.events) <= Plan(m, TempFile(reply), AsciiBytes(script).value)
      && (r.outcome.Raised? ==> AbortedAt(r, TempFile(reply), m, reply, clean))
  {
    UploadRun(m, script, reply, clean);
    var file := TempFile(reply);
    var steps := UploadSteps(m, file, AsciiBytes(script).value);
    RunStepsShape(file, steps, reply, clean);
    UploadStepsStaged(m, file, AsciiBytes(script).value);
    RunStepsAborts(file, m, steps, reply, clean);
  }

  /** Every way through the long path is one shell session, closed unless the script could not be encoded. */
  lemma {:induction false} RunPsLongInOneShell(m: nat, script: string, reply: nat -> Response, clean: Normaliser)
    requires m > 0
    ensures InOneShell(RunPsLong(m, script, reply, clean))
  {
    if !Passes(reply, clean, 0) {
      CreationFailure(m, script, reply, clean);
    } else if AsciiBytes(script).None? {
      EncodingFailure(m, script, reply, clean);
    } else {
      UploadFollowsPlan(m, script, reply, clean);
    }
  }

  /**
   * The shell is opened first and once, and closed once, as the very last
   * event, on every way out except the encoding error, which leaves it open.
   */
  lemma {:induction false} RunPsLongShell(m: nat, script: string, reply: nat -> Response, clean: Normaliser)
    requires m > 0
    ensures var r := RunPsLong(m, script, reply, clean);
      var es := r.events;
      && |es| > 0
      && es[0] == OpenShell
      && multiset(es)[OpenShell] == 1
      && multiset(es)[CloseShell] == (if r.outcome.EncodeError? then 0 else 1)
      && (!r.outcome.EncodeError? ==> es[|es| - 1] == CloseShell)
  {
    RunPsLongInOneShell(m, script, reply, clean);
    InOneShellShape(RunPsLong(m, script, reply, clean));
  }

  /** The long path always starts by creating the temp file. */
  lemma {:induction false} RunPsLongStartsWithCreation(m: nat, script: string, reply: nat -> Response, clean: Normaliser)
    requires m > 0
    ensures var cs := Commands(RunPsLong(m, script, reply, clean).events);
      |cs| > 0 && cs[0] == Powershell(CreateTempScript)
  {
    if !Passes(reply, clean, 0) {
      CreationFailure(m, script, reply, clean);
    } else if AsciiBytes(script).None? {
      EncodingFailure(m, script, reply, clean);
    } else {
      UploadFollowsPlan(m, script, reply, clean);
      PlanLength(m, TempFile(reply), AsciiBytes(script).value);
    }
  }

  /** A failed creation runs the first command of the plan and nothing else. */
  lemma {:induction false} CreationFailureFollowsPlan(m: nat, script: string, reply: nat -> Response, clean: Normaliser)
    requires m > 0
    requires !Passes(reply, clean, 0) && AsciiBytes(script).Some?
    ensures Commands(RunPsLong(m, script, reply, clean).events) <= Plan(m, TempFile(reply), AsciiBytes(script).value)
  {
    CreationFailure(m, script, reply, clean);
    PlanLength(m, TempFile(reply), AsciiBytes(script).value);
  }

  /**
   * For an ASCII script, the commands the long path runs are the commands of
   * its plan, in order, stopping early only on a failure.
   */
  lemma {:induction false} RunPsLongFollowsPlan(m: nat, script: string, reply: nat -> Response, clean: Normaliser)
    requires m > 0
    requires AsciiBytes(script).Some?
    ensures Commands(RunPsLong(m, script, reply, clean).events) <= Plan(m, TempFile(reply), AsciiBytes(script).value)
  {
    if !Passes(reply, clean, 0) {
      CreationFailureFollowsPlan(m, script, reply, clean);
    } else {
      UploadFollowsPlan(m, script, reply, clean);
    }
  }

  /** The encoding error happens exactly when the creation passes and the script is not plain ASCII. */
  lemma {:induction false} RunPsLongEncodeError(m: nat, script: string, reply: nat -> Response, clean: Normaliser)
    requires m > 0
    ensures RunPsLong(m, script, reply, clean).outcome.EncodeError?
      <==> Passes(reply, clean, 0) && AsciiBytes(script).None?
  {
    if !Passes(reply, clean, 0) {
      CreationFailure(m, script, reply, clean);
    } else if AsciiBytes(script).None? {
      EncodingFailure(m, script, reply, clean);
    } else {
      UploadFollowsPlan(m, script, reply, clean);
    }
  }

  /**
   * Whatever stage fails, the shell is closed, no further command is run,
   * and the exception names that stage and carries its normalised error text.
   */
  lemma {:induction false} RunPsLongAborts(m: nat, script: string, reply: nat -> Response, clean: Normaliser)
    requires m > 0
    ensures var r := RunPsLong(m, script, reply, clean);
      r.outcome.Raised? ==>
        && r.events == InShell(Commands(r.events), true)
        && AbortedAt(r, TempFile(reply), m, reply, clean)
  {
    if !Passes(reply, clean, 0) {
      CreationFailure(m, script, reply, clean);
    } else if AsciiBytes(script).Some? {
      UploadFollowsPlan(m, script, reply, clean);
    } else {
      EncodingFailure(m, script, reply, clean);
    }
  }

  /** The upload when checked step `n` is the first to fail. */
  lemma {:induction false} RunStepsStopsAt(file: string, steps: seq<Step>, reply: nat -> Response, clean: Normaliser, n: nat)
    requires n == Passing(|steps|, reply, clean, 1) < |steps|
    ensures RunSteps(file, steps, reply, clean).events
      == InShell([Powershell(CreateTempScript)] + CommandsOf(steps[..n + 1]), true)
    ensures RunSteps(file, steps, reply, clean).outcome
      == Raised(steps[n].stage, AbortMessage(steps[n].stage, Received(reply(1 + n), clean)))
  {
  }

  /** The upload when every checked step passes: the whole plan runs, and only the deletion can still raise. */
  lemma {:induction false} RunStepsPastSteps(file: string, steps: seq<Step>, reply: nat -> Response, clean: Normaliser)
    requires Passing(|steps|, reply, clean, 1) == |steps|
    ensures RunSteps(file, steps, reply, clean).events == InShell(PlanOf(file, steps), true)
    ensures RunSteps(file, steps, reply, clean).outcome.Raised? ==> RunSteps(file, steps, reply, clean).outcome.stage == Deleting
  {
  }

  /** A failed checked step is the last command run, and its stage is the one raised. */
  lemma {:induction false} FailedStepIsLast(file: string, steps: seq<Step>, reply: nat -> Response, clean: Normaliser)
    ensures var r := RunSteps(file, steps, reply, clean);
      var cs := Commands(r.events);
      r.outcome.Raised? && r.outcome.stage != Deleting ==>
        && 2 <= |cs| <= |steps| + 1
        && cs[|cs| - 1] == steps[|cs| - 2].cmd
        && r.outcome.stage == steps[|cs| - 2].stage
  {
    var n := Passing(|steps|, reply, clean, 1);
    if n < |steps| {
      RunStepsStopsAt(file, steps, reply, clean, n);
      var cmds := [Powershell(CreateTempScript)] + CommandsOf(steps[..n + 1]);
      SessionCommands(cmds, true);
      assert |cmds| == n + 2 && cmds[n + 1] == steps[n].cmd;
    } else {
      RunStepsPastSteps(file, steps, reply, clean);
    }
  }

  /** The upload step that reports a chunk write writes chunk number `i` at offset `i * m`. */
  lemma {:induction false} UploadStepAt(m: nat, file: string, bytes: seq<byte>, i: nat)
    requires m > 0
    requires i < |UploadSteps(m, file, bytes)| && UploadSteps(m, file, bytes)[i].stage.WritingChunk?
    ensures var chunks := Chunks(Base64.Encode(bytes), m);
      && i < |chunks|
      && UploadSteps(m, file, bytes)[i]
         == Step(Echo(chunks[i], if i == 0 then Overwrite else Append, file), WritingChunk(i * m))
  {
    var payload := Base64.Encode(bytes);
    var writes := WriteSteps(payload, m, file);
    var steps := writes + [Step(Powershell(ConvertScript(file)), Converting)];
    assert UploadSteps(m, file, bytes) == steps;
    if i < |writes| {
      WriteStepAt(payload, m, file, i);
    }
  }

  /**
   * What a failed chunk write leaves behind: it is the last command run, it
   * writes chunk number `i` of `chunks` to `file` (afresh only for the first),
   * and the offset the exception reports is `i * m`.
   */
  predicate WroteChunkLast(r: Run, chunks: seq<string>, file: string, m: nat) {
    var cs := Commands(r.events);
    r.outcome.Raised? && r.outcome.stage.WritingChunk? ==>
      && 2 <= |cs| <= |chunks| + 1
      && cs[|cs| - 1] == Echo(chunks[|cs| - 2], if |cs| == 2 then Overwrite else Append, file)
      && r.outcome.stage.offset == (|cs| - 2) * m
  }

  /** Step `i` of `steps`, when it reports a chunk write, writes chunk number `i` of `chunks` at offset `i * m`. */
  predicate WritesChunks(steps: seq<Step>, chunks: seq<string>, file: string, m: nat) {
    forall i :: 0 <= i < |steps| && steps[i].stage.WritingChunk? ==>
      && i < |chunks|
      && steps[i] == Step(Echo(chunks[i], if i == 0 then Overwrite else Append, file), WritingChunk(i * m))
  }

  /** Whatever the steps, a failed chunk write is the last step run. */
  lemma {:induction false} ChunkFailureIsLast(file: string, m: nat, steps: seq<Step>, chunks: seq<string>, reply: nat -> Response, clean: Normaliser)
    requires WritesChunks(steps, chunks, file, m)
    ensures WroteChunkLast(RunSteps(file, steps, reply, clean), chunks, file, m)
  {
    var r := RunSteps(file, steps, reply, clean);
    var cs := Commands(r.events);
    FailedStepIsLast(file, steps, reply, clean);
    if r.outcome.Raised? && r.outcome.stage.WritingChunk? {
      var i := |cs| - 2;
      assert steps[i] == Step(Echo(chunks[i], if i == 0 then Overwrite else Append, file), WritingChunk(i * m));
    }
  }

  /** In the upload, a failed chunk write is the last command run, and it reports the offset of its own chunk. */
  lemma {:induction false} UploadChunkFailure(m: nat, file: string, bytes: seq<byte>, reply: nat -> Response, clean: Normaliser)
    requires m > 0
    ensures WroteChunkLast(RunSteps(file, UploadSteps(m, file, bytes), reply, clean), Chunks(Base64.Encode(bytes), m), file, m)
  {
    var steps := UploadSteps(m, file, bytes);
    var chunks := Chunks(Base64.Encode(bytes), m);
    forall i | 0 <= i < |steps| && steps[i].stage.WritingChunk?
      ensures i < |chunks|
      ensures steps[i] == Step(Echo(chunks[i], if i == 0 then Overwrite else Append, file), WritingChunk(i * m))
    {
      UploadStepAt(m, file, bytes, i);
    }
    ChunkFailureIsLast(file, m, steps, chunks, reply, clean);
  }

  /** A failed chunk write, seen from the long path once the temp file exists and the script is ASCII. */
  lemma {:induction false} UploadChunkFailureInLong(m: nat, script: string, reply: nat -> Response, clean: Normaliser)
    requires m > 0
    requires Passes(reply, clean, 0) && AsciiBytes(script).Some?
    ensures WroteChunkLast(RunPsLong(m, script, reply, clean), Chunks(Base64.Encode(AsciiBytes(script).value), m), TempFile(reply), m)
  {
    UploadRun(m, script, reply, clean);
    UploadChunkFailure(m, TempFile(reply), AsciiBytes(script).value, reply, clean);
  }

  /**
   * When writing a chunk fails, the exception names the offset of the very
   * chunk whose write failed: the script was ASCII, and the failed write is
   * that of chunk number `i` of its base64 text, reported at offset `i * m`.
   */
  lemma {:induction false} RunPsLongChunkFailure(m: nat, script: string, reply: nat -> Response, clean: Normaliser)
    requires m > 0
    ensures var r := RunPsLong(m, script, reply, clean);
      r.outcome.Raised? && r.outcome.stage.WritingChunk? ==> AsciiBytes(script).Some?
    ensures AsciiBytes(script).Some? ==>
      WroteChunkLast(RunPsLong(m, script, reply, clean), Chunks(Base64.Encode(AsciiBytes(script).value), m), TempFile(reply), m)
  {
    if !Passes(reply, clean, 0) {
      CreationFailure(m, script, reply, clean);
    } else if AsciiBytes(script).None? {
      EncodingFailure(m, script, reply, clean);
    } else {
      UploadChunkFailureInLong(m, script, reply, clean);
    }
  }

  /** The success case of the upload, seen from the long path: when it returns. */
  lemma {:induction false} UploadReturnsWhen(m: nat, script: string, reply: nat -> Response, clean: Normaliser)
    requires m > 0
    requires Passes(reply, clean, 0) && AsciiBytes(script).Some?
    ensures var plan := Plan(m, TempFile(reply), AsciiBytes(script).value);
      RunPsLong(m, script, reply, clean).outcome.Returned? <==> AllPassExcept(reply, clean, 0, |plan|, |plan| - 2)
  {
    UploadRun(m, script, reply, clean);
    var file := TempFile(reply);
    var steps := UploadSteps(m, file, AsciiBytes(script).value);
    assert Plan(m, file, AsciiBytes(script).value) == PlanOf(file, steps);
    RunStepsReturns(file, steps, reply, clean);
    FirstReplyPasses(reply, clean, |PlanOf(file, steps)|, |PlanOf(file, steps)| - 2);
  }

  /** The success case of the upload, seen from the long path: what it has run and what it returns. */
  lemma {:induction false} UploadReturnsWhat(m: nat, script: string, reply: nat -> Response, clean: Normaliser)
    requires m > 0
    requires Passes(reply, clean, 0) && AsciiBytes(script).Some?
    ensures var r := RunPsLong(m, script, reply, clean);
      var plan := Plan(m, TempFile(reply), AsciiBytes(script).value);
      r.outcome.Returned? ==> Commands(r.events) == plan && r.outcome.rs == Received(reply(|plan| - 2), clean)
  {
    UploadRun(m, script, reply, clean);
    var file := TempFile(reply);
    var steps := UploadSteps(m, file, AsciiBytes(script).value);
    assert Plan(m, file, AsciiBytes(script).value) == PlanOf(file, steps);
    RunStepsReturns(file, steps, reply, clean);
  }

  /** Once the first reply passes, checking from the first reply is the same as checking from the second. */
  lemma FirstReplyPasses(reply: nat -> Response, clean: Normaliser, n: nat, x: int)
    requires Passes(reply, clean, 0)
    ensures AllPassExcept(reply, clean, 0, n, x) <==> AllPassExcept(reply, clean, 1, n, x)
  {
  }

  /** When the first reply fails, not every checked command of a plan of `n` commands passed. */
  lemma FirstFailureBlocks(n: nat, reply: nat -> Response, clean: Normaliser)
    requires n >= 3
    requires !Passes(reply, clean, 0)
    ensures !AllPassExcept(reply, clean, 0, n, n - 2)
  {
  }

  /** A failed creation returns nothing: the first checked command of the plan did not pass. */
  lemma {:induction false} CreationFailureNotReturned(m: nat, script: string, reply: nat -> Response, clean: Normaliser)
    requires m > 0
    requires !Passes(reply, clean, 0) && AsciiBytes(script).Some?
    ensures var plan := Plan(m, TempFile(reply), AsciiBytes(script).value);
      && !RunPsLong(m, script, reply, clean).outcome.Returned?
      && !AllPassExcept(reply, clean, 0, |plan|, |plan| - 2)
  {
    assert RunPsLong(m, script, reply, clean).outcome.Raised?;
    PlanLength(m, TempFile(reply), AsciiBytes(script).value);
    FirstFailureBlocks(|Plan(m, TempFile(reply), AsciiBytes(script).value)|, reply, clean);
  }

  /**
   * For an ASCII script, the long path returns a response exactly when every
   * checked command of the plan passes. The run of the script (the last but
   * one command) is not among them: its reply never makes the call raise.
   */
  lemma {:induction false} RunPsLongReturnsWhen(m: nat, script: string, reply: nat -> Response, clean: Normaliser)
    requires m > 0
    requires AsciiBytes(script).Some?
    ensures var plan := Plan(m, TempFile(reply), AsciiBytes(script).value);
      RunPsLong(m, script, reply, clean).outcome.Returned? <==> AllPassExcept(reply, clean, 0, |plan|, |plan| - 2)
  {
    if !Passes(reply, clean, 0) {
      CreationFailureNotReturned(m, script, reply, clean);
    } else {
      UploadReturnsWhen(m, script, reply, clean);
    }
  }

  /**
   * When the long path returns, it has run the whole plan in order, and the
   * response is the normalised reply to the run of the script, the last but
   * one command: the deletion still ran after it.
   */
  lemma {:induction false} RunPsLongReturnsWhat(m: nat, script: string, reply: nat -> Response, clean: Normaliser)
    requires m > 0
    requires AsciiBytes(script).Some?
    ensures var r := RunPsLong(m, script, reply, clean);
      var plan := Plan(m, TempFile(reply), AsciiBytes(script).value);
      r.outcome.Returned? ==> Commands(r.events) == plan && r.outcome.rs == Received(reply(|plan| - 2), clean)
  {
    if !Passes(reply, clean, 0) {
      CreationFailureNotReturned(m, script, reply, clean);
    } else {
      UploadReturnsWhat(m, script, reply, clean);
    }
  }

  // ---------------------------------------------------------------------
  // run_ps
  // ---------------------------------------------------------------------

  /**
   * `run_ps(script)`: scripts whose encoded form fits the envelope go out as
   * one `-encodedcommand` line through `run_cmd`; longer ones take the long path.
   */
  function RunPs(m: nat, script: string, reply: nat -> Response, clean: Normaliser): (r: Run)
    requires m > 0
  {
    var encoded := EncodedCommand(script);
    if |encoded| > m then RunPsLong(m, script, reply, clean)
    else
      var direct := RunCmd(PsPrefix + encoded, [], reply);
      Run(direct.events, Returned(Received(direct.outcome.rs, clean)))
  }

  /**
   * A script whose encoded form fits the envelope runs as one command in its
   * own closed shell. That command line is exactly the one the long path
   * would build for the script, it never raises, whatever the status, and
   * only a non-empty error text is normalised.
   */
  lemma {:induction false} RunPsDirect(m: nat, script: string, reply: nat -> Response, clean: Normaliser)
    requires m > 0
    requires |EncodedCommand(script)| <= m
    ensures var r := RunPs(m, script, reply, clean);
      && r.events == InShell([Plain(PsPrefix + EncodedCommand(script), [])], true)
      && Line(Plain(PsPrefix + EncodedCommand(script), [])) == Line(Powershell(script))
      && r.outcome == Returned(Received(reply(0), clean))
      && (|reply(0).stdErr| == 0 ==> r.outcome.rs == reply(0))
  {
  }

  /** A script whose encoded form exceeds the envelope takes the long path. */
  lemma {:induction false} RunPsLongPath(m: nat, script: string, reply: nat -> Response, clean: Normaliser)
    requires m > 0
    requires |EncodedCommand(script)| > m
    ensures RunPs(m, script, reply, clean) == RunPsLong(m, script, reply, clean)
    ensures var cs := Commands(RunPs(m, script, reply, clean).events);
      |cs| > 0 && cs[0] == Powershell(CreateTempScript)
  {
    RunPsLongStartsWithCreation(m, script, reply, clean);
  }

  /**
   * `run_ps` takes the long path exactly when the encoded script is longer
   * than the envelope: only then is the first command the creation of a
   * temp file, and only then can the call raise or fail to encode.
   */
  lemma {:induction false} RunPsPathChoice(m: nat, script: string, reply: nat -> Response, clean: Normaliser)
    requires m > 0
    ensures var cs := Commands(RunPs(m, script, reply, clean).events);
      |cs| > 0 && (cs[0] == Powershell(CreateTempScript) <==> |EncodedCommand(script)| > m)
    ensures |EncodedCommand(script)| <= m ==> RunPs(m, script, reply, clean).outcome.Returned?
  {
    if |EncodedCommand(script)| > m {
      RunPsLongPath(m, script, reply, clean);
    } else {
      RunPsDirect(m, script, reply, clean);
      SessionCommands([Plain(PsPrefix + EncodedCommand(script), [])], true);
    }
  }

  /**
   * Either way, `run_ps` opens exactly one shell, first, and closes it once,
   * last, unless the long path stopped on a script it could not encode.
   */
  lemma {:induction false} RunPsShell(m: nat, script: string, reply: nat -> Response, clean: Normaliser)
    requires m > 0
    ensures var r := RunPs(m, script, reply, clean);
      var es := r.events;
      && |es| > 0
      && es[0] == OpenShell
      && multiset(es)[OpenShell] == 1
      && multiset(es)[CloseShell] == (if r.outcome.EncodeError? then 0 else 1)
      && (!r.outcome.EncodeError? ==> es[|es| - 1] == CloseShell)
  {
    if |EncodedCommand(script)| > m {
      RunPsLongPath(m, script, reply, clean);
      RunPsLongShell(m, script, reply, clean);
    } else {
      RunPsDirect(m, script, reply, clean);
      SessionShape(RunPs(m, script, reply, clean).events, [Plain(PsPrefix + EncodedCommand(script), [])], true);
    }
  }
}
