/** The cliconf plugin object for IOS: a connection to one device, with the
    trace of every command written to it so far. Its methods send their
    commands one at a time, as the plugin does, and each is proved to leave
    exactly the result and trace its specification in `Operations` gives. */
module Plugin {

  import opened Common
  import opened Strings
  import opened Commands
  import opened Channel
  import Operations

  class Cliconf {
    /** The device at the other end of the connection. */
    const device: Device
    /** The plugin and connection options the operations read. */
    const options: Operations.Options
    /** Every command written to the device, oldest first. */
    var sent: seq<string>

    constructor (device: Device, options: Operations.Options)
      ensures this.device == device && this.options == options && sent == []
    {
      this.device := device;
      this.options := options;
      sent := [];
    }

    /** `send_command`: write the command and return the device's reply. */
    method SendCommand(command: string) returns (r: Result<string>)
      modifies this
      ensures Run(r, sent) == Send(device, old(sent), command)
    {
      var reply := device(sent, command);
      sent := sent + [command];
      match reply
      case Output(text) => r := Success(text);
      case ConnectionFailure(err) => r := Failure(Transport(err));
    }

    /** `get_config`. */
    method GetConfig(source: string, flags: seq<string>, format: Option<string>) returns (r: Result<string>)
      modifies this
      ensures Run(r, sent) == Operations.GetConfig(device, old(sent), source, flags, format)
    {
      var cmd := GetConfigCommand(source, flags, format);
      if cmd.Failure? {
        return Failure(cmd.error);
      }
      r := SendCommand(cmd.value);
    }

    /** `restore`. */
    method Restore(filename: Option<string>, path: string) returns (r: Result<string>)
      modifies this
      ensures Run(r, sent) == Operations.Restore(device, old(sent), filename, path)
    {
      var cmd := RestoreCommand(filename, path);
      if cmd.Failure? {
        return Failure(cmd.error);
      }
      r := SendCommand(cmd.value);
    }

    /** `configure`. */
    method Configure() returns (r: Result<()>)
      modifies this
      ensures Run(r, sent) == Operations.Configure(device, options, old(sent))
    {
      var entered: Result<string>;
      if Operations.Guarded(options) {
        var timeout := Operations.CommitTimeout(options);
        var archive := SendCommand("show archive");
        if archive.Failure? {
          return Failure(archive.error);
        }
        var rollback := SendCommand("show archive config rollback timer");
        if rollback.Failure? {
          return Failure(rollback.error);
        }
        if options.persistentCommandTimeout > timeout * 60 {
          return Failure(CommandTimeoutTooLarge);
        }
        if ArchiveDisabled(archive.value) {
          return Failure(ArchiveNotEnabled);
        }
        if !RollbackClear(rollback.value) {
          return Failure(RollbackPending);
        }
        entered := SendCommand(Operations.RevertCommand(timeout));
      } else {
        entered := SendCommand("configure terminal");
      }
      r := if entered.Success? then Success(()) else Failure(entered.error);
    }

    /** `edit_config`. */
    method EditConfig(candidate: seq<string>, commit: bool) returns (r: Result<Exchange>)
      modifies this
      ensures Run(r, sent) == Operations.EditConfig(device, options, old(sent), candidate, commit)
    {
      var commitConfirm := options.commitConfirmImmediate;
      if !commit {
        return Failure(CheckModeUnsupported);
      }
      var entered := Configure();
      if entered.Failure? {
        return Failure(entered.error);
      }
      ghost var start := sent;
      var requests: seq<string> := [];
      var results: seq<Option<string>> := [];
      assert candidate[0..] == candidate;
      ExtendNothing(Operations.ApplyLines(device, sent, candidate));
      for i := 0 to |candidate|
        invariant Operations.ApplyLines(device, start, candidate)
                  == Extend(Exchange(requests, results), Operations.ApplyLines(device, sent, candidate[i..]))
      {
        Operations.ApplyLinesFrom(device, sent, candidate, i);
        var cmd := candidate[i];
        if cmd != "end" {
          if cmd == "" {
            return Failure(EmptyCommand);
          }
          if cmd[0] != '!' {
            var out := SendCommand(cmd);
            if out.Failure? {
              return Failure(out.error);
            }
            ExtendTwice(Exchange(requests, results), Exchange([cmd], [Some(out.value)]),
                        Operations.ApplyLines(device, sent, candidate[i + 1..]));
            results := results + [Some(out.value)];
            requests := requests + [cmd];
          }
        }
      }
      ExtendDone(Exchange(requests, results), sent);
      var end := SendCommand("end");
      if end.Failure? {
        return Failure(end.error);
      }
      if commitConfirm {
        var confirm := SendCommand("configure confirm");
        if confirm.Failure? {
          return Failure(confirm.error);
        }
      }
      r := Success(Exchange(requests, results));
    }

    /** `edit_macro`. */
    method EditMacro(candidate: seq<string>, commit: bool) returns (r: Result<Exchange>)
      modifies this
      ensures Run(r, sent) == Operations.EditMacro(device, old(sent), candidate, commit)
    {
      if !commit {
        return Success(NoExchange);
      }
      var entered := SendCommand("config terminal");
      if entered.Failure? {
        return Failure(entered.error);
      }
      if |candidate| == 0 {
        return Failure(PopFromEmptyList);
      }
      var commands := candidate[0] + "\n";
      var remaining := candidate[1..];
      if |remaining| == 0 {
        return Failure(PopFromEmptyList);
      }
      var delimiter := remaining[|remaining| - 1];
      var body := remaining[..|remaining| - 1];
      for k := 0 to |body|
        invariant commands == candidate[0] + "\n" + Operations.Indented(body[..k])
      {
        assert body[..k + 1][..k] == body[..k];
        commands := commands + " " + body[k] + "\n";
      }
      assert body[..|body|] == body;
      assert body == candidate[1..|candidate| - 1];
      commands := commands + delimiter + "\n";
      r := MacroSend(commands);
    }

    /** The last part of `edit_macro`: the macro text written without waiting,
        the session left, and a newline whose reply is kept. */
    method MacroSend(payload: string) returns (r: Result<Exchange>)
      modifies this
      ensures Run(r, sent) == Script(device, old(sent), Operations.MacroSteps(payload))
    {
      ghost var steps := Operations.MacroSteps(payload);
      assert steps[0..] == steps;
      ScriptFrom(device, sent, steps, 0);
      var written := SendCommand(payload);
      if written.Failure? {
        return Failure(written.error);
      }
      ScriptFrom(device, sent, steps, 1);
      var ended := SendCommand("end");
      if ended.Failure? {
        return Failure(ended.error);
      }
      ScriptFrom(device, sent, steps, 2);
      var newline := SendCommand("\n");
      if newline.Failure? {
        return Failure(newline.error);
      }
      assert steps[3..] == [];
      ExtendDone(Exchange(["\n"], [Some(newline.value)]), sent);
      assert [payload] + ["\n"] == [payload, "\n"];
      assert [None] + [Some(newline.value)] == [None, Some(newline.value)];
      r := Success(Exchange([payload, "\n"], [None, Some(newline.value)]));
    }

    /** `edit_banner`. */
    method EditBanner(banners: seq<(string, string)>, delimiter: string, commit: bool) returns (r: Result<Exchange>)
      modifies this
      ensures Run(r, sent) == Operations.EditBanner(device, old(sent), banners, delimiter, commit)
    {
      var requests: seq<string> := [];
      var results: seq<Option<string>> := [];
      if !commit {
        return Success(Exchange(requests, results));
      }
      ghost var start := sent;
      assert banners[0..] == banners;
      ExtendNothing(Script(device, sent, Operations.BannerScript(banners, delimiter)));
      for i := 0 to |banners|
        invariant Script(device, start, Operations.BannerScript(banners, delimiter))
                  == Extend(Exchange(requests, results),
                            Script(device, sent, Operations.BannerScript(banners[i..], delimiter)))
      {
        Operations.BannerScriptFrom(banners, delimiter, i);
        ScriptAppend(device, sent, Operations.BannerSteps(banners[i].0, banners[i].1, delimiter),
                     Operations.BannerScript(banners[i + 1..], delimiter));
        var one := SendBanner(banners[i].0, banners[i].1, delimiter);
        if one.Failure? {
          return Failure(one.error);
        }
        ExtendTwice(Exchange(requests, results), one.value,
                    Script(device, sent, Operations.BannerScript(banners[i + 1..], delimiter)));
        requests := requests + one.value.requests;
        results := results + one.value.responses;
      }
      assert banners[|banners|..] == [];
      ExtendDone(Exchange(requests, results), sent);
      r := Success(Exchange(requests, results));
    }

    /** One banner of `edit_banner`: the session entered, the keyword line,
        the text and the delimiter written without waiting, the session left,
        and a newline whose reply is kept. */
    method SendBanner(key: string, text: string, delimiter: string) returns (r: Result<Exchange>)
      modifies this
      ensures Run(r, sent) == Script(device, old(sent), Operations.BannerSteps(key, text, delimiter))
    {
      ghost var steps := Operations.BannerSteps(key, text, delimiter);
      assert steps[0..] == steps;
      ScriptFrom(device, sent, steps, 0);
      var entered := SendCommand("config terminal");
      if entered.Failure? {
        return Failure(entered.error);
      }
      var requests: seq<string> := [];
      var results: seq<Option<string>> := [];
      ExtendNothing(Script(device, sent, steps[1..]));
      var lines := [key + " " + delimiter, text, delimiter];
      for k := 0 to |lines|
        invariant Script(device, old(sent), steps)
                  == Extend(Exchange(requests, results), Script(device, sent, steps[k + 1..]))
      {
        ScriptFrom(device, sent, steps, k + 1);
        var out := SendCommand(lines[k]);
        if out.Failure? {
          return Failure(out.error);
        }
        ExtendTwice(Exchange(requests, results), Exchange([lines[k]], [None]),
                    Script(device, sent, steps[k + 2..]));
        results := results + [None];
        requests := requests + [lines[k]];
      }
      ScriptFrom(device, sent, steps, 4);
      var ended := SendCommand("end");
      if ended.Failure? {
        return Failure(ended.error);
      }
      ScriptFrom(device, sent, steps, 5);
      var newline := SendCommand("\n");
      if newline.Failure? {
        return Failure(newline.error);
      }
      assert steps[6..] == [];
      ExtendDone(Exchange(["\n"], [Some(newline.value)]), sent);
      ExtendTwice(Exchange(requests, results), Exchange(["\n"], [Some(newline.value)]),
                  Run(Success(NoExchange), sent));
      results := results + [Some(newline.value)];
      requests := requests + ["\n"];
      ExtendDone(Exchange(requests, results), sent);
      r := Success(Exchange(requests, results));
    }

    /** `run_commands`. */
    method RunCommands(commands: Option<seq<Operations.CommandRequest>>, checkRc: bool)
      returns (r: Result<seq<string>>)
      modifies this
      ensures Run(r, sent) == Operations.RunCommands(device, old(sent), commands, checkRc)
    {
      if commands.None? {
        return Failure(CommandsRequired);
      }
      var cs := commands.value;
      var responses: seq<string> := [];
      ghost var start := sent;
      assert cs[0..] == cs;
      Operations.PrependOutputsNothing(Operations.RunEach(device, sent, cs, checkRc));
      for i := 0 to |cs|
        invariant Operations.RunEach(device, start, cs, checkRc)
                  == Operations.PrependOutputs(responses, Operations.RunEach(device, sent, cs[i..], checkRc))
      {
        Operations.RunEachFrom(device, sent, cs, checkRc, i);
        var cmd := cs[i];
        if Truthy(cmd.output) {
          return Failure(OutputUnsupported(cmd.output.value));
        }
        var out := SendCommand(cmd.command);
        var text: string;
        if out.Failure? {
          if checkRc {
            return Failure(out.error);
          }
          text := out.error.err;
        } else {
          text := out.value;
        }
        Operations.PrependOutputsTwice(responses, [text], Operations.RunEach(device, sent, cs[i + 1..], checkRc));
        responses := responses + [text];
      }
      assert cs[|cs|..] == [];
      assert responses + [] == responses;
      r := Success(responses);
    }

    /** `get_defaults_flag`. */
    method GetDefaultsFlag() returns (r: Result<string>)
      modifies this
      ensures Run(r, sent) == Operations.GetDefaultsFlag(device, old(sent))
    {
      var out := SendCommand("show running-config ?");
      if out.Failure? {
        return Failure(out.error);
      }
      var flag := ChooseFlag(out.value);
      r := Success(flag);
    }
  }

  /** The choice in `get_defaults_flag`: the first words of the help text's
      lines are gathered in a set, and `all` is chosen when it is among them. */
  method ChooseFlag(help: string) returns (flag: string)
    ensures flag == DefaultsFlag(help)
  {
    var lines := SplitLines(help);
    var commands: set<string> := {};
    for i := 0 to |lines|
      invariant commands == Collect(FirstWord, lines[..i])
    {
      CollectNext(FirstWord, lines, i);
      var word := FirstWord(lines[i]);
      if word.Some? {
        commands := commands + {word.value};
      }
    }
    assert lines[..|lines|] == lines;
    flag := if "all" in commands then "all" else "full";
  }
}
