/** The plugin's connection to the device as the model sees it. Every command
    `send_command` writes is appended to a trace; the device's answer to a
    command may depend on the command and on everything sent before it. */
module Channel {

  import opened Common

  /** What the device returns for one command: its output, or a connection
      failure carrying the error text. */
  datatype Reply = Output(text: string) | ConnectionFailure(err: string)

  /** The device: its reply to a command, given the commands sent before it. */
  type Device = (seq<string>, string) -> Reply

  /** A device that never drops the connection. */
  ghost predicate Reliable(device: Device) {
    forall sent, command :: device(sent, command).Output?
  }

  /** The outcome of an operation together with the trace of commands sent
      once it has ended. */
  datatype Run<T> = Run(result: Result<T>, trace: seq<string>)

  /** `send_command`: the command joins the trace whether or not the device
      answers; a connection failure is raised as a transport error. */
  function Send(device: Device, sent: seq<string>, command: string): Run<string> {
    match device(sent, command)
    case Output(text) => Run(Success(text), sent + [command])
    case ConnectionFailure(err) => Run(Failure(Transport(err)), sent + [command])
  }

  /** The `request` and `response` lists the configuration operations return.
      A command sent without waiting for the device has no response (`None`). */
  datatype Exchange = Exchange(requests: seq<string>, responses: seq<Option<string>>)

  const NoExchange := Exchange([], [])

  /** `r`, with the requests and responses gathered before it put in front of
      its own. */
  function Extend(gathered: Exchange, r: Run<Exchange>): Run<Exchange> {
    if r.result.Success? then
      var e := r.result.value;
      Run(Success(Exchange(gathered.requests + e.requests, gathered.responses + e.responses)), r.trace)
    else r
  }

  lemma ExtendNothing(r: Run<Exchange>)
    ensures Extend(NoExchange, r) == r
  {
    if r.result.Success? {
      var e := r.result.value;
      assert [] + e.requests == e.requests;
      assert [] + e.responses == e.responses;
    }
  }

  lemma ExtendTwice(a: Exchange, b: Exchange, r: Run<Exchange>)
    ensures Extend(a, Extend(b, r))
            == Extend(Exchange(a.requests + b.requests, a.responses + b.responses), r)
  {
    if r.result.Success? {
      var e := r.result.value;
      assert a.requests + (b.requests + e.requests) == a.requests + b.requests + e.requests;
      assert a.responses + (b.responses + e.responses) == a.responses + b.responses + e.responses;
    }
  }

  lemma ExtendDone(gathered: Exchange, trace: seq<string>)
    ensures Extend(gathered, Run(Success(NoExchange), trace)) == Run(Success(gathered), trace)
  {
    assert gathered.requests + [] == gathered.requests;
    assert gathered.responses + [] == gathered.responses;
  }

  // ------------------------------------------------------------- scripts

  /** One command of a fixed sequence: written without waiting for the reply
      (`sendonly`) or not, and reported among the requests or not. */
  datatype Step = Step(command: string, sendonly: bool, reported: bool)

  /** Sending the steps in order; the first connection failure ends the
      script and is raised. */
  function Script(device: Device, sent: seq<string>, steps: seq<Step>): Run<Exchange>
    decreases |steps|
  {
    if steps == [] then Run(Success(NoExchange), sent)
    else
      var s := Send(device, sent, steps[0].command);
      if s.result.Failure? then Run(Failure(s.result.error), s.trace)
      else
        var response := if steps[0].sendonly then None else Some(s.result.value);
        var rest := Script(device, s.trace, steps[1..]);
        if steps[0].reported then Extend(Exchange([steps[0].command], [response]), rest) else rest
  }

  function StepCommands(steps: seq<Step>): (r: seq<string>)
    ensures |r| == |steps|
  {
    if steps == [] then [] else [steps[0].command] + StepCommands(steps[1..])
  }

  function Reported(steps: seq<Step>): seq<Step> {
    if steps == [] then []
    else if steps[0].reported then [steps[0]] + Reported(steps[1..])
    else Reported(steps[1..])
  }

  lemma StepCommandsFrom(steps: seq<Step>, k: nat)
    requires k < |steps|
    ensures StepCommands(steps[k..]) == [steps[k].command] + StepCommands(steps[k + 1..])
  {
    assert steps[k..][0] == steps[k];
    assert steps[k..][1..] == steps[k + 1..];
  }

  /** A script that completes has sent every step's command in order, reports
      the commands of the reported steps, and has a response for each of them,
      missing exactly for those sent without waiting. */
  lemma {:induction false} ScriptShape(device: Device, sent: seq<string>, steps: seq<Step>)
    ensures var r := Script(device, sent, steps);
      r.result.Success? ==>
        r.trace == sent + StepCommands(steps)
        && r.result.value.requests == StepCommands(Reported(steps))
        && |r.result.value.responses| == |Reported(steps)|
        && forall i :: 0 <= i < |Reported(steps)| ==>
             (r.result.value.responses[i].None? <==> Reported(steps)[i].sendonly)
    decreases |steps|
  {
    if steps != [] {
      var s := Send(device, sent, steps[0].command);
      if s.result.Success? {
        ScriptShape(device, s.trace, steps[1..]);
        assert sent + StepCommands(steps) == s.trace + StepCommands(steps[1..]);
      }
    }
  }

  /** Whatever the outcome, the trace is the one before the script followed
      by a prefix of the script's commands. */
  lemma {:induction false} ScriptTrace(device: Device, sent: seq<string>, steps: seq<Step>)
    ensures var r := Script(device, sent, steps);
      sent <= r.trace && r.trace <= sent + StepCommands(steps)
    decreases |steps|
  {
    if steps != [] {
      var s := Send(device, sent, steps[0].command);
      if s.result.Success? {
        ScriptTrace(device, s.trace, steps[1..]);
        assert sent + StepCommands(steps) == s.trace + StepCommands(steps[1..]);
      }
    }
  }

  /** On a device that never drops the connection every script completes. */
  lemma {:induction false} ScriptReliable(device: Device, sent: seq<string>, steps: seq<Step>)
    requires Reliable(device)
    ensures Script(device, sent, steps).result.Success?
    decreases |steps|
  {
    if steps != [] {
      assert device(sent, steps[0].command).Output?;
      ScriptReliable(device, sent + [steps[0].command], steps[1..]);
    }
  }

  /** Running two scripts one after the other is running their concatenation. */
  lemma {:induction false} ScriptAppend(device: Device, sent: seq<string>, first: seq<Step>, second: seq<Step>)
    ensures Script(device, sent, first + second)
            == var r := Script(device, sent, first);
               if r.result.Failure? then r
               else Extend(r.result.value, Script(device, r.trace, second))
    decreases |first|
  {
    if first == [] {
      assert first + second == second;
      ExtendNothing(Script(device, sent, second));
    } else {
      assert (first + second)[0] == first[0];
      assert (first + second)[1..] == first[1..] + second;
      var s := Send(device, sent, first[0].command);
      if s.result.Success? {
        ScriptAppend(device, s.trace, first[1..], second);
        var rest := Script(device, s.trace, first[1..]);
        if first[0].reported && rest.result.Success? {
          var response := if first[0].sendonly then None else Some(s.result.value);
          ExtendTwice(Exchange([first[0].command], [response]), rest.result.value,
                      Script(device, rest.trace, second));
        }
      }
    }
  }

  /** Unfolding the script that starts at step `k`. */
  lemma ScriptFrom(device: Device, sent: seq<string>, steps: seq<Step>, k: nat)
    requires k < |steps|
    ensures Script(device, sent, steps[k..])
            == var s := Send(device, sent, steps[k].command);
               if s.result.Failure? then Run(Failure(s.result.error), s.trace)
               else
                 var response := if steps[k].sendonly then None else Some(s.result.value);
                 var rest := Script(device, s.trace, steps[k + 1..]);
                 if steps[k].reported then Extend(Exchange([steps[k].command], [response]), rest) else rest
  {
    assert steps[k..][0] == steps[k];
    assert steps[k..][1..] == steps[k + 1..];
  }
}
