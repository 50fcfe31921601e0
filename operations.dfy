/** What each of the plugin's device operations sends and returns, as pure
    functions of the device, the connection options and the trace before the
    call. Each function gives the operation's result and the trace after it;
    the methods of `Plugin.Cliconf` are proved to behave exactly so. */
module Operations {

  import opened Common
  import opened Strings
  import opened Commands
  import opened Channel

  /** The connection options the operations read: `commit_confirm_immediate`,
      `commit_confirm_timeout` (None when unset) and the connection's
      `persistent_command_timeout`, in seconds. */
  datatype Options = Options(commitConfirmImmediate: bool, commitConfirmTimeout: Option<int>,
                             persistentCommandTimeout: int)

  /** `commit_confirm_timeout` is set to a non-zero value. */
  predicate TimeoutSet(options: Options) {
    options.commitConfirmTimeout.Some? && options.commitConfirmTimeout.value != 0
  }

  /** A commit-confirm session is asked for: a timeout, or an immediate confirm. */
  predicate Guarded(options: Options) {
    TimeoutSet(options) || options.commitConfirmImmediate
  }

  /** The revert timer in minutes: the configured timeout, or 1 by default. */
  function CommitTimeout(options: Options): int {
    if TimeoutSet(options) then options.commitConfirmTimeout.value else 1
  }

  function RevertCommand(minutes: int): string {
    "configure terminal revert timer " + IntToString(minutes)
  }

  /** The device reads the timer back from the revert command unchanged. */
  lemma RevertCommandTimer(minutes: int)
    ensures |RevertCommand(minutes)| > 32
    ensures ParseInt(RevertCommand(minutes)[32..]) == minutes
  {
    var cmd := RevertCommand(minutes);
    assert cmd[32..] == IntToString(minutes);
    ParseIntToString(minutes);
  }

  /** The result of an operation whose reply is not returned. */
  function Discard(r: Run<string>): Run<()> {
    Run(if r.result.Success? then Success(()) else Failure(r.result.error), r.trace)
  }

  // ------------------------------------------------------------ configure

  /** `configure`: a plain `configure terminal`, or, when a commit-confirm
      session is asked for, the archive and rollback states are read first,
      then checked, and only then the session is entered with a revert timer. */
  function Configure(device: Device, options: Options, sent: seq<string>): Run<()> {
    if Guarded(options) then
      var timeout := CommitTimeout(options);
      var archive := Send(device, sent, "show archive");
      if archive.result.Failure? then Run(Failure(archive.result.error), archive.trace)
      else
        var rollback := Send(device, archive.trace, "show archive config rollback timer");
        if rollback.result.Failure? then Run(Failure(rollback.result.error), rollback.trace)
        else if options.persistentCommandTimeout > timeout * 60 then
          Run(Failure(CommandTimeoutTooLarge), rollback.trace)
        else if ArchiveDisabled(archive.result.value) then Run(Failure(ArchiveNotEnabled), rollback.trace)
        else if !RollbackClear(rollback.result.value) then Run(Failure(RollbackPending), rollback.trace)
        else Discard(Send(device, rollback.trace, RevertCommand(timeout)))
    else
      Discard(Send(device, sent, "configure terminal"))
  }

  const ArchiveQueries := ["show archive", "show archive config rollback timer"]

  /** Without commit-confirm options only `configure terminal` is sent. */
  lemma ConfigurePlain(device: Device, options: Options, sent: seq<string>)
    requires !Guarded(options)
    ensures var r := Configure(device, options, sent);
      r.trace == sent + ["configure terminal"]
      && (r.result.Success? <==> device(sent, "configure terminal").Output?)
  {
  }

  /** With commit-confirm options the session is entered only after both
      states were read and all three checks passed, and then with the
      configured timer; when a check fails, only the two queries were sent.
      Whenever the revert command went out (whether or not the device then
      answered it), all three checks had passed. */
  lemma ConfigureGuarded(device: Device, options: Options, sent: seq<string>)
    requires Guarded(options)
    ensures var r := Configure(device, options, sent);
      r.result.Success? ==>
        r.trace == sent + ArchiveQueries + [RevertCommand(CommitTimeout(options))]
        && options.persistentCommandTimeout <= CommitTimeout(options) * 60
        && device(sent, "show archive").Output?
        && !ArchiveDisabled(device(sent, "show archive").text)
        && device(sent + ["show archive"], "show archive config rollback timer").Output?
        && RollbackClear(device(sent + ["show archive"], "show archive config rollback timer").text)
    ensures var r := Configure(device, options, sent);
      r.result.Failure? && !r.result.error.Transport? ==> r.trace == sent + ArchiveQueries
    ensures var r := Configure(device, options, sent);
      |r.trace| > |sent| + 2 ==>
        r.trace == sent + ArchiveQueries + [RevertCommand(CommitTimeout(options))]
        && options.persistentCommandTimeout <= CommitTimeout(options) * 60
        && device(sent, "show archive").Output?
        && !ArchiveDisabled(device(sent, "show archive").text)
        && device(sent + ["show archive"], "show archive config rollback timer").Output?
        && RollbackClear(device(sent + ["show archive"], "show archive config rollback timer").text)
  {
  }

  /** The checks run in the order `configure` makes them: a command timeout longer than the
      revert window is refused whatever the device reports. */
  lemma ConfigureTimeoutFirst(device: Device, options: Options, sent: seq<string>)
    requires Guarded(options) && Reliable(device)
    requires options.persistentCommandTimeout > CommitTimeout(options) * 60
    ensures Configure(device, options, sent) == Run(Failure(CommandTimeoutTooLarge), sent + ArchiveQueries)
  {
    assert device(sent, "show archive").Output?;
    assert device(sent + ["show archive"], "show archive config rollback timer").Output?;
  }

  /** Conversely, on a device that answers, a session whose checks pass is
      entered. */
  lemma ConfigureGuardedSucceeds(device: Device, options: Options, sent: seq<string>)
    requires Guarded(options) && Reliable(device)
    requires options.persistentCommandTimeout <= CommitTimeout(options) * 60
    requires !ArchiveDisabled(device(sent, "show archive").text)
    requires RollbackClear(device(sent + ["show archive"], "show archive config rollback timer").text)
    ensures Configure(device, options, sent).result.Success?
  {
    assert device(sent, "show archive").Output?;
    assert device(sent + ["show archive"], "show archive config rollback timer").Output?;
    assert device(sent + ArchiveQueries, RevertCommand(CommitTimeout(options))).Output?;
  }

  // ---------------------------------------------------------- edit_config

  /** The candidate lines `edit_config` sends: all but `end` and comments. */
  predicate IsCommand(line: string) {
    line != "end" && (line == "" || line[0] != '!')
  }

  function Kept(lines: seq<string>): seq<string> {
    if lines == [] then []
    else if IsCommand(lines[0]) then [lines[0]] + Kept(lines[1..])
    else Kept(lines[1..])
  }

  /** `edit_config`'s loop over the candidate: `end` and lines starting with
      `!` are skipped, an empty line fails on its first character, every
      other line is sent and recorded with its response. */
  function ApplyLines(device: Device, sent: seq<string>, lines: seq<string>): Run<Exchange>
    decreases |lines|
  {
    if lines == [] then Run(Success(NoExchange), sent)
    else
      var cmd := lines[0];
      if cmd == "end" then ApplyLines(device, sent, lines[1..])
      else if cmd == "" then Run(Failure(EmptyCommand), sent)
      else if cmd[0] == '!' then ApplyLines(device, sent, lines[1..])
      else
        var s := Send(device, sent, cmd);
        if s.result.Failure? then Run(Failure(s.result.error), s.trace)
        else Extend(Exchange([cmd], [Some(s.result.value)]), ApplyLines(device, s.trace, lines[1..]))
  }

  lemma ApplyLinesFrom(device: Device, sent: seq<string>, lines: seq<string>, i: nat)
    requires i < |lines|
    ensures ApplyLines(device, sent, lines[i..])
            == var cmd := lines[i];
               if cmd == "end" then ApplyLines(device, sent, lines[i + 1..])
               else if cmd == "" then Run(Failure(EmptyCommand), sent)
               else if cmd[0] == '!' then ApplyLines(device, sent, lines[i + 1..])
               else
                 var s := Send(device, sent, cmd);
                 if s.result.Failure? then Run(Failure(s.result.error), s.trace)
                 else Extend(Exchange([cmd], [Some(s.result.value)]), ApplyLines(device, s.trace, lines[i + 1..]))
  {
    assert lines[i..][0] == lines[i];
    assert lines[i..][1..] == lines[i + 1..];
  }

  /** When the loop completes, the candidate had no empty line, exactly the
      kept lines were sent, in order, and each has its device response. */
  lemma {:induction false} ApplyLinesShape(device: Device, sent: seq<string>, lines: seq<string>)
    ensures var r := ApplyLines(device, sent, lines);
      r.result.Success? ==>
        (forall i :: 0 <= i < |lines| ==> lines[i] != "")
        && r.result.value.requests == Kept(lines)
        && r.trace == sent + Kept(lines)
        && |r.result.value.responses| == |Kept(lines)|
        && forall i :: 0 <= i < |r.result.value.responses| ==> r.result.value.responses[i].Some?
    decreases |lines|
  {
    if lines != [] {
      var cmd := lines[0];
      if cmd == "end" || (cmd != "" && cmd[0] == '!') {
        ApplyLinesShape(device, sent, lines[1..]);
        if ApplyLines(device, sent, lines[1..]).result.Success? {
          NoEmptyLine(lines);
        }
      } else if cmd != "" {
        var s := Send(device, sent, cmd);
        if s.result.Success? && ApplyLines(device, s.trace, lines[1..]).result.Success? {
          ApplyLinesShape(device, s.trace, lines[1..]);
          NoEmptyLine(lines);
          assert sent + Kept(lines) == s.trace + Kept(lines[1..]);
        }
      }
    }
  }

  /** Each kept line's response is the device's reply to it, given the
      session so far and the kept lines before it. */
  lemma {:induction false} ApplyLinesReplies(device: Device, sent: seq<string>, lines: seq<string>)
    ensures var r := ApplyLines(device, sent, lines);
      r.result.Success? ==>
        |r.result.value.responses| == |Kept(lines)|
        && forall i :: 0 <= i < |Kept(lines)| ==>
             device(sent + Kept(lines)[..i], Kept(lines)[i]).Output?
             && r.result.value.responses[i] == Some(device(sent + Kept(lines)[..i], Kept(lines)[i]).text)
    decreases |lines|
  {
    ApplyLinesShape(device, sent, lines);
    if lines != [] {
      var cmd := lines[0];
      if cmd == "end" || (cmd != "" && cmd[0] == '!') {
        ApplyLinesReplies(device, sent, lines[1..]);
      } else if cmd != "" {
        var s := Send(device, sent, cmd);
        if s.result.Success? && ApplyLines(device, s.trace, lines[1..]).result.Success? {
          ApplyLinesReplies(device, s.trace, lines[1..]);
          var kept := Kept(lines);
          var rest := Kept(lines[1..]);
          assert kept == [cmd] + rest;
          var r := ApplyLines(device, sent, lines);
          var tail := ApplyLines(device, s.trace, lines[1..]);
          assert r.result.value.responses == [Some(s.result.value)] + tail.result.value.responses;
          forall i | 0 <= i < |kept|
            ensures device(sent + kept[..i], kept[i]).Output?
            ensures r.result.value.responses[i] == Some(device(sent + kept[..i], kept[i]).text)
          {
            if i == 0 {
              assert sent + kept[..0] == sent;
            } else {
              assert kept[..i] == [cmd] + rest[..i - 1];
              assert sent + kept[..i] == s.trace + rest[..i - 1];
            }
          }
        }
      }
    }
  }

  lemma NoEmptyLine(lines: seq<string>)
    requires lines != [] && lines[0] != ""
    requires forall i :: 0 <= i < |lines[1..]| ==> lines[1..][i] != ""
    ensures forall i :: 0 <= i < |lines| ==> lines[i] != ""
  {
    forall i | 1 <= i < |lines| ensures lines[i] != "" {
      assert lines[i] == lines[1..][i - 1];
    }
  }

  /** On a device that answers, the loop completes exactly when the candidate
      has no empty line. */
  lemma {:induction false} ApplyLinesReliable(device: Device, sent: seq<string>, lines: seq<string>)
    requires Reliable(device)
    ensures ApplyLines(device, sent, lines).result.Success?
            <==> forall i :: 0 <= i < |lines| ==> lines[i] != ""
    decreases |lines|
  {
    ApplyLinesShape(device, sent, lines);
    if lines != [] && lines[0] != "" {
      var next := if lines[0] == "end" || lines[0][0] == '!' then sent else sent + [lines[0]];
      assert device(sent, lines[0]).Output?;
      ApplyLinesReliable(device, next, lines[1..]);
      if forall i :: 0 <= i < |lines| ==> lines[i] != "" {
        assert forall i :: 0 <= i < |lines[1..]| ==> lines[1..][i] != "" by {
          forall i | 0 <= i < |lines[1..]| ensures lines[1..][i] != "" {
            assert lines[1..][i] == lines[i + 1];
          }
        }
      }
    }
  }

  /** `edit_config`: refused outright in check mode; otherwise the
      configuration session is entered, the candidate applied, the session
      left with `end` and, with `commit_confirm_immediate`, confirmed. */
  function EditConfig(device: Device, options: Options, sent: seq<string>,
                      candidate: seq<string>, commit: bool): Run<Exchange>
  {
    if !commit then Run(Failure(CheckModeUnsupported), sent)
    else
      var entered := Configure(device, options, sent);
      if entered.result.Failure? then Run(Failure(entered.result.error), entered.trace)
      else
        var applied := ApplyLines(device, entered.trace, candidate);
        if applied.result.Failure? then applied
        else
          var end := Send(device, applied.trace, "end");
          if end.result.Failure? then Run(Failure(end.result.error), end.trace)
          else if !options.commitConfirmImmediate then Run(applied.result, end.trace)
          else
            var confirm := Send(device, end.trace, "configure confirm");
            if confirm.result.Failure? then Run(Failure(confirm.result.error), confirm.trace)
            else Run(applied.result, confirm.trace)
  }

  /** In check mode nothing is sent. A completed `edit_config` entered the
      session, sent exactly the kept candidate lines, reported them with the
      device's reply to each, sent `end`, and sent `configure confirm` exactly when
      `commit_confirm_immediate` is set. */
  lemma EditConfigShape(device: Device, options: Options, sent: seq<string>,
                        candidate: seq<string>, commit: bool)
    ensures !commit ==> EditConfig(device, options, sent, candidate, commit)
                        == Run(Failure(CheckModeUnsupported), sent)
    ensures var r := EditConfig(device, options, sent, candidate, commit);
      var entered := Configure(device, options, sent);
      r.result.Success? ==>
        entered.result.Success?
        && r.result.value.requests == Kept(candidate)
        && |r.result.value.responses| == |Kept(candidate)|
        && r.trace == entered.trace + Kept(candidate) + ["end"]
                      + (if options.commitConfirmImmediate then ["configure confirm"] else [])
        && forall i :: 0 <= i < |Kept(candidate)| ==>
             device(entered.trace + Kept(candidate)[..i], Kept(candidate)[i]).Output?
             && r.result.value.responses[i]
                == Some(device(entered.trace + Kept(candidate)[..i], Kept(candidate)[i]).text)
  {
    var entered := Configure(device, options, sent);
    if commit && entered.result.Success? {
      ApplyLinesShape(device, entered.trace, candidate);
      ApplyLinesReplies(device, entered.trace, candidate);
    }
  }

  /** An empty candidate line makes `edit_config` fail. */
  lemma EditConfigEmptyLine(device: Device, options: Options, sent: seq<string>,
                            candidate: seq<string>, k: nat)
    requires k < |candidate| && candidate[k] == ""
    ensures EditConfig(device, options, sent, candidate, true).result.Failure?
  {
    var entered := Configure(device, options, sent);
    if entered.result.Success? {
      ApplyLinesShape(device, entered.trace, candidate);
    }
  }

  // ----------------------------------------------------------- edit_macro

  /** The indented middle lines of a macro, built line by line. */
  function Indented(lines: seq<string>): string {
    if lines == [] then ""
    else Indented(lines[..|lines| - 1]) + " " + lines[|lines| - 1] + "\n"
  }

  /** The macro text `edit_macro` sends in one piece: the macro command, each
      body line indented by one blank, then the closing delimiter, each line
      ended by a newline. */
  function MacroPayload(first: string, body: seq<string>, delimiter: string): string {
    first + "\n" + Indented(body) + delimiter + "\n"
  }

  lemma {:induction false} IndentedCons(lines: seq<string>)
    requires lines != []
    ensures Indented(lines) == " " + lines[0] + "\n" + Indented(lines[1..])
    decreases |lines|
  {
    if |lines| > 1 {
      var init := lines[..|lines| - 1];
      IndentedCons(init);
      assert init[1..] == lines[1..][..|lines[1..]| - 1];
      assert lines[1..][|lines[1..]| - 1] == lines[|lines| - 1];
    } else {
      assert lines[..0] == [];
      assert lines[1..] == [];
    }
  }

  function IndentEach(lines: seq<string>): (r: seq<string>)
    ensures |r| == |lines|
  {
    seq(|lines|, i requires 0 <= i < |lines| => " " + lines[i])
  }

  lemma {:induction false} SplitIndented(lines: seq<string>, rest: string)
    requires forall i :: 0 <= i < |lines| ==> NoLineBreak(lines[i])
    ensures SplitLines(Indented(lines) + rest) == IndentEach(lines) + SplitLines(rest)
    decreases |lines|
  {
    if lines == [] {
      assert Indented(lines) + rest == rest;
    } else {
      var head := " " + lines[0];
      var after := Indented(lines[1..]) + rest;
      IndentedLine(lines, rest);
      IndentNoBreak(lines[0]);
      SplitLinesCons(head, after);
      SplitIndented(lines[1..], rest);
      IndentEachCons(lines);
      LinesConsAssoc(head, IndentEach(lines[1..]), SplitLines(rest));
    }
  }

  lemma LinesConsAssoc(x: string, a: seq<string>, b: seq<string>)
    ensures [x] + (a + b) == ([x] + a) + b
  {
  }

  lemma IndentEachCons(lines: seq<string>)
    requires lines != []
    ensures IndentEach(lines) == [" " + lines[0]] + IndentEach(lines[1..])
  {
  }

  lemma IndentedLine(lines: seq<string>, rest: string)
    requires lines != []
    ensures Indented(lines) + rest == " " + lines[0] + "\n" + (Indented(lines[1..]) + rest)
  {
    IndentedCons(lines);
  }

  lemma IndentNoBreak(line: string)
    requires NoLineBreak(line)
    ensures NoLineBreak(" " + line)
  {
    var head := " " + line;
    forall i | 0 <= i < |head| ensures !IsLineBreak(head[i]) {
      if i > 0 {
        assert head[i] == line[i - 1];
      }
    }
  }

  /** Read back line by line, the macro text gives the macro command, the
      body lines each indented by one blank, and the delimiter. */
  lemma MacroPayloadLines(first: string, body: seq<string>, delimiter: string)
    requires NoLineBreak(first) && NoLineBreak(delimiter)
    requires forall i :: 0 <= i < |body| ==> NoLineBreak(body[i])
    ensures SplitLines(MacroPayload(first, body, delimiter)) == [first] + IndentEach(body) + [delimiter]
  {
    var last := delimiter + "\n";
    var tail := Indented(body) + last;
    PayloadParts(first, body, delimiter);
    SplitLinesCons(first, tail);
    SplitIndented(body, last);
    SplitLinesLast(delimiter);
    LinesAppendAssoc([first], IndentEach(body), [delimiter]);
  }

  lemma PayloadParts(first: string, body: seq<string>, delimiter: string)
    ensures MacroPayload(first, body, delimiter) == first + "\n" + (Indented(body) + (delimiter + "\n"))
  {
  }

  lemma SplitLinesLast(line: string)
    requires NoLineBreak(line)
    ensures SplitLines(line + "\n") == [line]
  {
    assert line + "\n" == line + "\n" + "";
    SplitLinesCons(line, "");
  }

  lemma LinesAppendAssoc(a: seq<string>, b: seq<string>, c: seq<string>)
    ensures a + (b + c) == a + b + c
  {
  }

  function MacroSteps(payload: string): seq<Step> {
    [Step(payload, true, true), Step("end", true, false), Step("\n", false, true)]
  }

  /** `edit_macro`: with commit false nothing happens; otherwise the session
      is entered, the first candidate line is taken as the macro command and
      the last as its delimiter (fewer than two lines fail there), and the
      macro text is written, the session left and a newline sent. */
  function EditMacro(device: Device, sent: seq<string>, candidate: seq<string>, commit: bool): Run<Exchange> {
    if !commit then Run(Success(NoExchange), sent)
    else
      var entered := Send(device, sent, "config terminal");
      if entered.result.Failure? then Run(Failure(entered.result.error), entered.trace)
      else if |candidate| < 2 then Run(Failure(PopFromEmptyList), entered.trace)
      else
        var payload := MacroPayload(candidate[0], candidate[1..|candidate| - 1], candidate[|candidate| - 1]);
        Script(device, entered.trace, MacroSteps(payload))
  }

  /** With commit false nothing is sent and nothing reported. With fewer than
      two candidate lines nothing but `config terminal` is sent. A completed
      macro edit sent the session commands around the macro text and reports
      the text, with no response, and the newline. */
  lemma EditMacroShape(device: Device, sent: seq<string>, candidate: seq<string>, commit: bool)
    ensures !commit ==> EditMacro(device, sent, candidate, commit) == Run(Success(NoExchange), sent)
    ensures commit && |candidate| < 2
            ==> EditMacro(device, sent, candidate, commit).result.Failure?
                && EditMacro(device, sent, candidate, commit).trace == sent + ["config terminal"]
    ensures var r := EditMacro(device, sent, candidate, commit);
      commit && r.result.Success? ==>
        var payload := MacroPayload(candidate[0], candidate[1..|candidate| - 1], candidate[|candidate| - 1]);
        r.trace == sent + ["config terminal", payload, "end", "\n"]
        && r.result.value.requests == [payload, "\n"]
        && |r.result.value.responses| == 2
        && r.result.value.responses[0].None? && r.result.value.responses[1].Some?
  {
    if commit && |candidate| >= 2 {
      var entered := Send(device, sent, "config terminal");
      var payload := MacroPayload(candidate[0], candidate[1..|candidate| - 1], candidate[|candidate| - 1]);
      if entered.result.Success? {
        MacroStepsShape(device, entered.trace, payload);
      }
    }
  }

  /** The script after `config terminal`, for any macro text. */
  lemma MacroStepsShape(device: Device, sent: seq<string>, payload: string)
    ensures var r := Script(device, sent, MacroSteps(payload));
      r.result.Success? ==>
        r.trace == sent + [payload, "end", "\n"]
        && r.result.value.requests == [payload, "\n"]
        && |r.result.value.responses| == 2
        && r.result.value.responses[0].None? && r.result.value.responses[1].Some?
  {
    var steps := MacroSteps(payload);
    ScriptShape(device, sent, steps);
    ReportedFrom(steps, 0);
    StepCommandsFrom(steps, 0);
    ReportedFrom(steps, 1);
    StepCommandsFrom(steps, 1);
    ReportedFrom(steps, 2);
    StepCommandsFrom(steps, 2);
    assert steps[3..] == [];
    assert steps[0..] == steps;
    assert StepCommands(steps) == [payload, "end", "\n"];
    assert Reported(steps) == [steps[0], steps[2]];
  }

  // ---------------------------------------------------------- edit_banner

  /** What `edit_banner` sends for one banner: the session command, the
      banner keyword with the delimiter, the text, the delimiter, `end`, all
      without waiting, then a newline whose reply it keeps. */
  function BannerSteps(key: string, text: string, delimiter: string): seq<Step> {
    [Step("config terminal", true, false), Step(key + " " + delimiter, true, true),
     Step(text, true, true), Step(delimiter, true, true), Step("end", true, false),
     Step("\n", false, true)]
  }

  function BannerScript(banners: seq<(string, string)>, delimiter: string): seq<Step> {
    if banners == [] then []
    else BannerSteps(banners[0].0, banners[0].1, delimiter) + BannerScript(banners[1..], delimiter)
  }

  /** `edit_banner`: with commit false nothing happens; otherwise each banner
      in turn. */
  function EditBanner(device: Device, sent: seq<string>, banners: seq<(string, string)>,
                      delimiter: string, commit: bool): Run<Exchange> {
    if !commit then Run(Success(NoExchange), sent)
    else Script(device, sent, BannerScript(banners, delimiter))
  }

  /** The requests `edit_banner` reports: per banner, the keyword line, the
      text, the delimiter and the newline. */
  function BannerRequests(banners: seq<(string, string)>, delimiter: string): seq<string> {
    if banners == [] then []
    else [banners[0].0 + " " + delimiter, banners[0].1, delimiter, "\n"]
         + BannerRequests(banners[1..], delimiter)
  }

  /** Everything `edit_banner` sends: per banner, the session around the
      three banner lines and the newline. */
  function BannerCommands(banners: seq<(string, string)>, delimiter: string): seq<string> {
    if banners == [] then []
    else ["config terminal", banners[0].0 + " " + delimiter, banners[0].1, delimiter, "end", "\n"]
         + BannerCommands(banners[1..], delimiter)
  }

  lemma ReportedFrom(steps: seq<Step>, k: nat)
    requires k < |steps|
    ensures Reported(steps[k..])
            == (if steps[k].reported then [steps[k]] else []) + Reported(steps[k + 1..])
  {
    assert steps[k..][0] == steps[k];
    assert steps[k..][1..] == steps[k + 1..];
  }

  lemma CommandsAppend(a: seq<Step>, b: seq<Step>)
    ensures StepCommands(a + b) == StepCommands(a) + StepCommands(b)
  {
    if a != [] {
      assert (a + b)[1..] == a[1..] + b;
      CommandsAppend(a[1..], b);
    } else {
      assert a + b == b;
    }
  }

  lemma ReportedAppend(a: seq<Step>, b: seq<Step>)
    ensures Reported(a + b) == Reported(a) + Reported(b)
  {
    if a != [] {
      assert (a + b)[1..] == a[1..] + b;
      ReportedAppend(a[1..], b);
    } else {
      assert a + b == b;
    }
  }

  /** The steps of one banner that are reported. */
  function BannerReported(key: string, text: string, delimiter: string): seq<Step> {
    [Step(key + " " + delimiter, true, true), Step(text, true, true), Step(delimiter, true, true),
     Step("\n", false, true)]
  }

  lemma BannerStepsCommands(key: string, text: string, delimiter: string)
    ensures StepCommands(BannerSteps(key, text, delimiter))
            == ["config terminal", key + " " + delimiter, text, delimiter, "end", "\n"]
  {
    var s := BannerSteps(key, text, delimiter);
    StepCommandsFrom(s, 0);
    StepCommandsFrom(s, 1);
    StepCommandsFrom(s, 2);
    StepCommandsFrom(s, 3);
    StepCommandsFrom(s, 4);
    StepCommandsFrom(s, 5);
    assert s[6..] == [];
    assert s[0..] == s;
  }

  lemma BannerStepsReported(key: string, text: string, delimiter: string)
    ensures Reported(BannerSteps(key, text, delimiter)) == BannerReported(key, text, delimiter)
  {
    var s := BannerSteps(key, text, delimiter);
    ReportedFrom(s, 0);
    ReportedFrom(s, 1);
    ReportedFrom(s, 2);
    ReportedFrom(s, 3);
    ReportedFrom(s, 4);
    ReportedFrom(s, 5);
    assert s[6..] == [];
    assert s[0..] == s;
  }

  lemma BannerReportedCommands(key: string, text: string, delimiter: string)
    ensures StepCommands(BannerReported(key, text, delimiter)) == [key + " " + delimiter, text, delimiter, "\n"]
  {
    var s := BannerReported(key, text, delimiter);
    StepCommandsFrom(s, 0);
    StepCommandsFrom(s, 1);
    StepCommandsFrom(s, 2);
    StepCommandsFrom(s, 3);
    assert s[4..] == [];
    assert s[0..] == s;
  }

  lemma {:induction false} BannerScriptShape(banners: seq<(string, string)>, delimiter: string)
    ensures StepCommands(BannerScript(banners, delimiter)) == BannerCommands(banners, delimiter)
    ensures StepCommands(Reported(BannerScript(banners, delimiter))) == BannerRequests(banners, delimiter)
    ensures |Reported(BannerScript(banners, delimiter))| == 4 * |banners|
    ensures forall i :: 0 <= i < 4 * |banners| ==>
              (Reported(BannerScript(banners, delimiter))[i].sendonly <==> i % 4 != 3)
    decreases |banners|
  {
    if banners != [] {
      var first := BannerSteps(banners[0].0, banners[0].1, delimiter);
      var rest := BannerScript(banners[1..], delimiter);
      BannerScriptShape(banners[1..], delimiter);
      BannerStepsCommands(banners[0].0, banners[0].1, delimiter);
      BannerStepsReported(banners[0].0, banners[0].1, delimiter);
      BannerReportedCommands(banners[0].0, banners[0].1, delimiter);
      CommandsAppend(first, rest);
      ReportedAppend(first, rest);
      CommandsAppend(Reported(first), Reported(rest));
      var all := Reported(first) + Reported(rest);
      forall i | 4 <= i < 4 * |banners|
        ensures all[i].sendonly <==> i % 4 != 3
      {
        assert all[i] == Reported(rest)[i - 4];
        assert (i - 4) % 4 == i % 4;
      }
    }
  }

  lemma BannerScriptFrom(banners: seq<(string, string)>, delimiter: string, i: nat)
    requires i < |banners|
    ensures BannerScript(banners[i..], delimiter)
            == BannerSteps(banners[i].0, banners[i].1, delimiter) + BannerScript(banners[i + 1..], delimiter)
  {
    assert banners[i..][0] == banners[i];
    assert banners[i..][1..] == banners[i + 1..];
  }

  /** With commit false nothing is sent and nothing reported. A completed
      banner edit sent, per banner, the session around the keyword line, the
      text and the delimiter, then a newline; it reports four requests per
      banner, and only the newline has a response. */
  lemma EditBannerShape(device: Device, sent: seq<string>, banners: seq<(string, string)>,
                        delimiter: string, commit: bool)
    ensures !commit ==> EditBanner(device, sent, banners, delimiter, commit) == Run(Success(NoExchange), sent)
    ensures var r := EditBanner(device, sent, banners, delimiter, commit);
      commit && r.result.Success? ==>
        r.trace == sent + BannerCommands(banners, delimiter)
        && r.result.value.requests == BannerRequests(banners, delimiter)
        && |r.result.value.responses| == 4 * |banners|
        && forall i :: 0 <= i < 4 * |banners| ==> (r.result.value.responses[i].None? <==> i % 4 != 3)
  {
    if commit {
      ScriptShape(device, sent, BannerScript(banners, delimiter));
      BannerScriptShape(banners, delimiter);
    }
  }

  /** On a device that answers, every banner edit completes. */
  lemma EditBannerReliable(device: Device, sent: seq<string>, banners: seq<(string, string)>,
                           delimiter: string, commit: bool)
    requires Reliable(device)
    ensures EditBanner(device, sent, banners, delimiter, commit).result.Success?
  {
    if commit {
      ScriptReliable(device, sent, BannerScript(banners, delimiter));
    }
  }

  // --------------------------------------------------------- run_commands

  /** One entry of `run_commands`' list: the command and its `output` option. */
  datatype CommandRequest = CommandRequest(command: string, output: Option<string>)

  /** The text `run_commands` keeps for a reply: the output, or the error
      text of a connection failure. */
  function ReplyText(reply: Reply): string {
    match reply
    case Output(text) => text
    case ConnectionFailure(err) => err
  }

  /** `r`, with the responses gathered before it put in front of its own. */
  function PrependOutputs(outs: seq<string>, r: Run<seq<string>>): Run<seq<string>> {
    if r.result.Success? then Run(Success(outs + r.result.value), r.trace) else r
  }

  lemma PrependOutputsNothing(r: Run<seq<string>>)
    ensures PrependOutputs([], r) == r
  {
    if r.result.Success? {
      assert [] + r.result.value == r.result.value;
    }
  }

  lemma PrependOutputsTwice(a: seq<string>, b: seq<string>, r: Run<seq<string>>)
    ensures PrependOutputs(a, PrependOutputs(b, r)) == PrependOutputs(a + b, r)
  {
    if r.result.Success? {
      assert a + (b + r.result.value) == a + b + r.result.value;
    }
  }

  /** `run_commands`' loop: an `output` option is refused before its command
      is sent; a connection failure is raised when `check_rc` is set and its
      text kept as the response otherwise. */
  function RunEach(device: Device, sent: seq<string>, commands: seq<CommandRequest>, checkRc: bool)
    : Run<seq<string>>
    decreases |commands|
  {
    if commands == [] then Run(Success([]), sent)
    else
      var c := commands[0];
      if Truthy(c.output) then Run(Failure(OutputUnsupported(c.output.value)), sent)
      else
        var reply := device(sent, c.command);
        if reply.ConnectionFailure? && checkRc then Run(Failure(Transport(reply.err)), sent + [c.command])
        else PrependOutputs([ReplyText(reply)], RunEach(device, sent + [c.command], commands[1..], checkRc))
  }

  lemma RunEachFrom(device: Device, sent: seq<string>, commands: seq<CommandRequest>, checkRc: bool, i: nat)
    requires i < |commands|
    ensures RunEach(device, sent, commands[i..], checkRc)
            == var c := commands[i];
               if Truthy(c.output) then Run(Failure(OutputUnsupported(c.output.value)), sent)
               else
                 var reply := device(sent, c.command);
                 if reply.ConnectionFailure? && checkRc then Run(Failure(Transport(reply.err)), sent + [c.command])
                 else PrependOutputs([ReplyText(reply)], RunEach(device, sent + [c.command], commands[i + 1..], checkRc))
  {
    assert commands[i..][0] == commands[i];
    assert commands[i..][1..] == commands[i + 1..];
  }

  function RunCommands(device: Device, sent: seq<string>, commands: Option<seq<CommandRequest>>,
                       checkRc: bool): Run<seq<string>> {
    if commands.None? then Run(Failure(CommandsRequired), sent)
    else RunEach(device, sent, commands.value, checkRc)
  }

  function CommandLines(commands: seq<CommandRequest>): (r: seq<string>)
    ensures |r| == |commands|
  {
    seq(|commands|, i requires 0 <= i < |commands| => commands[i].command)
  }

  /** A completed `run_commands` sent every command in order and returns one
      response per command: the device's reply to it, given everything sent
      before. With `check_rc` set, every one of those replies was an output. */
  lemma {:induction false} RunEachShape(device: Device, sent: seq<string>, commands: seq<CommandRequest>,
                                        checkRc: bool)
    ensures var r := RunEach(device, sent, commands, checkRc);
      r.result.Success? ==>
        r.trace == sent + CommandLines(commands)
        && |r.result.value| == |commands|
        && forall i :: 0 <= i < |commands| ==>
             r.result.value[i] == ReplyText(device(sent + CommandLines(commands)[..i], commands[i].command))
             && (checkRc ==> device(sent + CommandLines(commands)[..i], commands[i].command).Output?)
    decreases |commands|
  {
    if commands != [] {
      var c := commands[0];
      var next := sent + [c.command];
      RunEachShape(device, next, commands[1..], checkRc);
      var lines := CommandLines(commands);
      var rest := CommandLines(commands[1..]);
      assert lines == [c.command] + rest;
      var r := RunEach(device, sent, commands, checkRc);
      if r.result.Success? {
        var tail := RunEach(device, next, commands[1..], checkRc);
        assert tail.result.Success? && r.trace == tail.trace;
        assert r.result.value == [ReplyText(device(sent, c.command))] + tail.result.value;
        forall i | 0 <= i < |commands|
          ensures r.result.value[i] == ReplyText(device(sent + lines[..i], commands[i].command))
          ensures checkRc ==> device(sent + lines[..i], commands[i].command).Output?
        {
          if i == 0 {
            assert sent + lines[..0] == sent;
          } else {
            assert lines[..i] == [c.command] + rest[..i - 1];
            assert sent + lines[..i] == next + rest[..i - 1];
            assert commands[i] == commands[1..][i - 1];
          }
        }
      }
    }
  }

  /** With `check_rc` set, the first connection failure is raised: the run
      stops right after the failing command and reports that reply's error. */
  lemma {:induction false} RunEachRaises(device: Device, sent: seq<string>, commands: seq<CommandRequest>, k: nat)
    requires k < |commands|
    requires forall i :: 0 <= i <= k ==> !Truthy(commands[i].output)
    requires forall i :: 0 <= i < k ==> device(sent + CommandLines(commands)[..i], commands[i].command).Output?
    requires device(sent + CommandLines(commands)[..k], commands[k].command).ConnectionFailure?
    ensures RunEach(device, sent, commands, true)
      == Run(Failure(Transport(device(sent + CommandLines(commands)[..k], commands[k].command).err)),
             sent + CommandLines(commands)[..k + 1])
    decreases k
  {
    var c := commands[0];
    var next := sent + [c.command];
    var lines := CommandLines(commands);
    var rest := CommandLines(commands[1..]);
    assert lines == [c.command] + rest;
    if k == 0 {
      assert sent + lines[..0] == sent;
      assert sent + lines[..1] == next;
    } else {
      assert sent + lines[..0] == sent;
      forall i | 0 <= i <= k - 1 ensures !Truthy(commands[1..][i].output) {
        assert commands[1..][i] == commands[i + 1];
      }
      forall i | 0 <= i <= k - 1
        ensures sent + lines[..i + 1] == next + rest[..i]
      {
        assert lines[..i + 1] == [c.command] + rest[..i];
      }
      forall i | 0 <= i < k - 1
        ensures device(next + rest[..i], commands[1..][i].command).Output?
      {
        assert commands[1..][i] == commands[i + 1];
        assert sent + lines[..i + 1] == next + rest[..i];
      }
      assert commands[1..][k - 1] == commands[k];
      RunEachRaises(device, next, commands[1..], k - 1);
      assert lines[..k + 1] == [c.command] + rest[..k];
    }
  }

  /** `run_commands` refuses a missing command list. */
  lemma RunCommandsRequired(device: Device, sent: seq<string>, checkRc: bool)
    ensures RunCommands(device, sent, None, checkRc) == Run(Failure(CommandsRequired), sent)
  {
  }

  /** Without `check_rc`, `run_commands` completes exactly when it is given a
      list and no entry carries an `output` option. */
  lemma {:induction false} RunCommandsUnchecked(device: Device, sent: seq<string>,
                                                commands: Option<seq<CommandRequest>>)
    ensures RunCommands(device, sent, commands, false).result.Success?
            <==> commands.Some? && forall i :: 0 <= i < |commands.value| ==> !Truthy(commands.value[i].output)
  {
    if commands.Some? {
      RunEachUnchecked(device, sent, commands.value);
    }
  }

  lemma {:induction false} RunEachUnchecked(device: Device, sent: seq<string>, commands: seq<CommandRequest>)
    ensures RunEach(device, sent, commands, false).result.Success?
            <==> forall i :: 0 <= i < |commands| ==> !Truthy(commands[i].output)
    decreases |commands|
  {
    if commands != [] {
      RunEachUnchecked(device, sent + [commands[0].command], commands[1..]);
      if forall i :: 0 <= i < |commands| ==> !Truthy(commands[i].output) {
        forall i | 0 <= i < |commands[1..]| ensures !Truthy(commands[1..][i].output) {
          assert commands[1..][i] == commands[i + 1];
        }
      } else if !Truthy(commands[0].output) {
        var i :| 0 <= i < |commands| && Truthy(commands[i].output);
        assert commands[1..][i - 1] == commands[i];
      }
    }
  }

  // ---------------------------------------------------- get_config, restore

  function GetConfig(device: Device, sent: seq<string>, source: string, flags: seq<string>,
                     format: Option<string>): Run<string> {
    var cmd := GetConfigCommand(source, flags, format);
    if cmd.Failure? then Run(Failure(cmd.error), sent) else Send(device, sent, cmd.value)
  }

  function Restore(device: Device, sent: seq<string>, filename: Option<string>, path: string): Run<string> {
    var cmd := RestoreCommand(filename, path);
    if cmd.Failure? then Run(Failure(cmd.error), sent) else Send(device, sent, cmd.value)
  }

  /** `get_defaults_flag`: asks the device for the running-config options and
      reads the flag from its help text. */
  function GetDefaultsFlag(device: Device, sent: seq<string>): Run<string> {
    var s := Send(device, sent, "show running-config ?");
    if s.result.Failure? then Run(Failure(s.result.error), s.trace)
    else Run(Success(DefaultsFlag(s.result.value)), s.trace)
  }
}
