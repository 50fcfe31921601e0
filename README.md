# IOS cliconf plugin, modelled in Dafny

This project models the cliconf plugin for Cisco IOS (`plugins/cliconf/ios.py`).
The plugin is the layer an automation controller uses to talk to an IOS device
over a command-line session. It builds the commands that fetch or restore a
configuration. It enters configuration mode, with or without a commit-confirm
revert timer, and pushes candidate lines, macros and banners. It runs ad-hoc
commands and works out which running-config flag shows default values. It also
computes the difference between a candidate and a running configuration, banners
included.

The model is organised like this:

- `common.dfy`: `Option`, `Result`, and one `Error` constructor per exception the plugin raises.
- `strings.dfy`: the Python string operations the plugin relies on (`strip`, `split`,
  `splitlines`, `join`, `replace`, `str(int)`), with their basic laws.
- `banners.dfy`: `_extract_banners` and `_diff_banners`. The regular expressions
  are written out as explicit first-occurrence searches.
- `config_diff.dfy`: `get_diff`. This covers argument validation, the split of the
  candidate into top-level sections, the "exact" branch, and the general branch.
  The configuration library the plugin calls is a `ConfigLibrary` parameter made
  of functions.
- `commands.dfy`: the commands `get_config` and `restore` build, the first-word
  scan of `get_defaults_flag`, and the two text tests of `configure`.
- `channel.dfy`: the connection.
  - A `Device` is a function giving the reply to a command, given every command
    sent before it. The reply is an output, or a connection failure.
  - `Send` appends the command to the trace whatever the reply.
  - A `Script` is a fixed sequence of sends.
- `operations.dfy`: every device operation as a pure function. The function
  gives the operation's result and the trace after it, from the device, the
  options and the trace before the call. The lemmas about these functions carry
  the plugin's promises.
- `plugin.dfy`: `class Cliconf`, with the device, the options and the trace
  `sent` as fields. Its methods send one command at a time, as the plugin does.
  Each method is proved to end with exactly the result and trace its function in
  `Operations` gives. The trace is an ordinary field because the device's replies
  depend on it.

Three behaviours of the code are kept as written:

- `configure` sends both show commands before it checks the timeout. A refused
  timeout therefore still leaves both queries in the trace.
- The exact branch of `get_diff` de-duplicates parent lines by a substring test
  on the text written so far, not by comparing lines. A parent that merely occurs
  inside an earlier line is not written again.
- An empty candidate line in `edit_config` fails on its first character
  (`EmptyCommand`) rather than being skipped.

## Model

| member | source | states |
|---|---|---|
| Commands.GetConfigCommand | plugins/cliconf/ios.py:164-181 | The command is built exactly when the store is `running` or `startup` and no format is asked for. Any other store is refused first, then a format. |
| Commands.GetConfigCommandWords | plugins/cliconf/ios.py:171-179 | With word flags, the command reads as `show`, `<store>-config`, then exactly the flags in order, whatever their number. |
| Commands.RestoreCommand | plugins/cliconf/ios.py:184-187 | The command is built exactly when a non-empty file name is given; otherwise the file name is reported missing. |
| Commands.RestoreCommandWords | plugins/cliconf/ios.py:187 | The command reads as `configure replace <path><file> force`, with the path and file as one word. |
| Commands.FirstWordOfSplit | plugins/cliconf/ios.py:625-626 | The scanned first word exists exactly when the stripped line is non-empty, and it is the first word of `line.strip().split()`. |
| Commands.CollectMember | plugins/cliconf/ios.py:623-626 | A word is in the gathered set exactly when it was picked from some line. |
| Commands.DefaultsFlag | plugins/cliconf/ios.py:628-631 | The flag is `all` or `full`. |
| Commands.DefaultsFlagAll | plugins/cliconf/ios.py:623-631 | The flag is `all` exactly when some line of the help text begins with the word `all`, blanks allowed before it. |
| Commands.DefaultsFlagFirstLine | plugins/cliconf/ios.py:623-631 | A first line offering `all` decides `all`; any other first line leaves the choice to the rest of the text. |
| Commands.ArchiveDisabledOneLine | plugins/cliconf/ios.py:368 | The `Archive.*not.enabled` match never spans a line break: when it holds for two lines joined, it holds for one of them. |
| Channel.ScriptShape | plugins/cliconf/ios.py:443-451 | A completed send sequence sent every command in order. It reports exactly the reported steps' commands, with one response each, missing exactly for the commands sent without waiting. |
| Channel.ScriptTrace | plugins/cliconf/ios.py:443-451 | Whatever the outcome, the trace grows by a prefix of the sequence's commands. |
| Channel.ScriptReliable | plugins/cliconf/ios.py:443-451 | On a device that never drops the connection, every send sequence completes. |
| Channel.ScriptAppend | plugins/cliconf/ios.py:572-583 | Running two send sequences one after the other is running their concatenation. |
| Operations.RevertCommandTimer | plugins/cliconf/ios.py:351-382 | The revert command carries the timer: the number after the command text reads back as the timeout. |
| Operations.ConfigurePlain | plugins/cliconf/ios.py:383-384 | Without commit-confirm options only `configure terminal` is sent. It succeeds exactly when the device answers it. |
| Operations.ConfigureGuarded | plugins/cliconf/ios.py:350-382 | A commit-confirm session is entered only after both states were read and all three checks passed, and then with the configured timer or 1. When a check fails, only the two queries were sent and never the revert command. Whenever the revert command was sent, whether or not the device then answered it, all three checks had passed. |
| Operations.ConfigureTimeoutFirst | plugins/cliconf/ios.py:359-366 | A command timeout longer than the revert window is refused whatever the device reports, after both queries. |
| Operations.ConfigureGuardedSucceeds | plugins/cliconf/ios.py:350-382 | On a device that answers, a session whose three checks pass is entered. |
| Operations.ApplyLinesShape | plugins/cliconf/ios.py:398-405 | A completed candidate loop met no empty line. It sent and reported exactly the lines that are neither `end` nor comments, in order, each with a response. |
| Operations.ApplyLinesReliable | plugins/cliconf/ios.py:398-405 | On a device that answers, the loop completes exactly when no candidate line is empty. |
| Operations.EditConfigShape | plugins/cliconf/ios.py:387-416 | Check mode is refused with nothing sent. A completed edit entered the session, sent the kept lines and then `end`, and sent `configure confirm` exactly when immediate confirmation is set. It reports one response per request, and each is the device's reply to that line given everything sent before it. |
| Operations.ApplyLinesReplies | plugins/cliconf/ios.py:398-405 | When the candidate's lines all went through, there is one response per kept line, the device's output for that line given everything sent before it. |
| Operations.EditConfigEmptyLine | plugins/cliconf/ios.py:402-403 | An empty candidate line makes `edit_config` fail. |
| Operations.MacroPayloadLines | plugins/cliconf/ios.py:438-442 | The macro text splits back into the macro command, each body line indented by one blank, and the delimiter. |
| Operations.EditMacroShape | plugins/cliconf/ios.py:418-455 | With commit false nothing is sent and nothing reported. Fewer than two lines fail after `config terminal`. A completed edit sent `config terminal`, the macro text, `end` and a newline, and reports the text with no response and then the newline with one. |
| Operations.BannerScriptShape | plugins/cliconf/ios.py:571-583 | Per banner, the sends are the session around the keyword line, the text and the delimiter, then a newline. The reported requests are those four, and only every fourth has a response. |
| Operations.EditBannerShape | plugins/cliconf/ios.py:555-588 | With commit false nothing is sent and nothing reported. A completed edit sent and reported per banner as above, four requests per banner, and only the newline has a response. |
| Operations.EditBannerReliable | plugins/cliconf/ios.py:555-588 | On a device that answers, every banner edit completes. |
| Operations.RunEachShape | plugins/cliconf/ios.py:594-612 | A completed run sent every command in order and returns one response per command. The response is the device's reply to that command given everything before it, with a failure's error text in its slot. With `check_rc` every reply was an output. |
| Operations.RunEachRaises | plugins/cliconf/ios.py:603-608 | With `check_rc` set, when the first connection failure comes at command k, the run fails with that reply's error as a transport failure and the trace ends with command k. |
| Operations.RunCommandsRequired | plugins/cliconf/ios.py:591-592 | A missing command list is refused with nothing sent. |
| Operations.RunCommandsUnchecked | plugins/cliconf/ios.py:590-612 | Without `check_rc` the run completes exactly when a list is given and no entry carries an `output` option. |
| Plugin.Cliconf.constructor | plugins/cliconf/ios.py:159-161 | A new plugin has sent nothing. |
| Plugin.Cliconf.SendCommand | plugins/cliconf/ios.py:181 | The command joins the trace; a connection failure is raised as a transport error. |
| Plugin.Cliconf.GetConfig | plugins/cliconf/ios.py:164-181 | Result and trace are those of `Operations.GetConfig`: argument errors send nothing, otherwise the built command is sent. |
| Plugin.Cliconf.Restore | plugins/cliconf/ios.py:184-188 | Result and trace are those of `Operations.Restore`. |
| Plugin.Cliconf.Configure | plugins/cliconf/ios.py:344-384 | Result and trace are those of `Operations.Configure`. |
| Plugin.Cliconf.EditConfig | plugins/cliconf/ios.py:387-416 | Result and trace are those of `Operations.EditConfig`; the loop keeps the gathered requests and responses as a prefix of the specification's. |
| Plugin.Cliconf.EditMacro | plugins/cliconf/ios.py:418-442 | Result and trace are those of `Operations.EditMacro`; the payload loop builds exactly the macro text. |
| Plugin.Cliconf.MacroSend | plugins/cliconf/ios.py:443-451 | The three sends after the payload is built are the macro send sequence. |
| Plugin.Cliconf.EditBanner | plugins/cliconf/ios.py:555-588 | Result and trace are those of `Operations.EditBanner`. |
| Plugin.Cliconf.SendBanner | plugins/cliconf/ios.py:572-583 | The sends for one banner are that banner's send sequence. |
| Plugin.Cliconf.RunCommands | plugins/cliconf/ios.py:590-612 | Result and trace are those of `Operations.RunCommands`. |
| Plugin.Cliconf.GetDefaultsFlag | plugins/cliconf/ios.py:614-631 | Result and trace are those of `Operations.GetDefaultsFlag`. |
| Plugin.ChooseFlag | plugins/cliconf/ios.py:623-631 | The set built line by line gives the flag `DefaultsFlag` specifies. |
| Banners.WordRun | plugins/cliconf/ios.py:653 | The greedy `\w*` run stops exactly at the first non-word character. |
| Banners.BannerNameAt | plugins/cliconf/ios.py:653 | A captured name is a word declared by `banner ` at the start of a line. |
| Banners.BannerNameMatches | plugins/cliconf/ios.py:653 | `^banner (\w+)` matches at a position exactly when a line starts there with `banner ` and a word character, and it captures the whole run of word characters. |
| Banners.BannerNamesAll | plugins/cliconf/ios.py:653 | The `findall` scan, which resumes after each match, returns the declaration at every position of the text, in order: no declaration is skipped. |
| Banners.BannerNamesComplete | plugins/cliconf/ios.py:653 | A name is among the declared names exactly when some line declares it. |
| Banners.BodyOf | plugins/cliconf/ios.py:655-656 | A found banner body is non-empty (`.+?`). |
| Banners.BodyOfAt | plugins/cliconf/ios.py:655-656 | The body is the text between the first `banner NAME ^C` and the first `^C` at least one character after it. |
| Banners.BodyOfFound | plugins/cliconf/ios.py:655-656 | A body is found exactly when some `banner NAME ^C` is followed, at least one character later, by `^C`. |
| Banners.CollectBannersKeys | plugins/cliconf/ios.py:654-659 | The banner map holds exactly one key `banner NAME` per declared name whose body was found. |
| Banners.CollectBannersValues | plugins/cliconf/ios.py:654-659 | Each found banner is stored with its stripped body, whatever the order of the names. |
| Banners.ExtractBanners | plugins/cliconf/ios.py:651-668 | The loops build exactly the banner map and the cleaned text the two specification functions give. |
| Banners.CollectLoop | plugins/cliconf/ios.py:654-659 | The first loop builds exactly the banner map of `CollectBanners`, whose keys and values the lemmas above describe. |
| Banners.RemoveLoop | plugins/cliconf/ios.py:661-665 | The second loop removes, name by name, each body found in the text as it stands at that point. |
| Banners.ExtractWithoutBanners | plugins/cliconf/ios.py:651-668 | A configuration that never mentions `banner ` comes back unchanged, with no banners. |
| Banners.ExtractSingleBanner | plugins/cliconf/ios.py:651-668 | One well-formed banner between text that never mentions `banner ` yields that banner, and nothing else, under its key with its stripped body. The text comes back with the declaration collapsed to the placeholder and nothing else changed. |
| Banners.DiffBanners | plugins/cliconf/ios.py:670-675 | Exactly the wanted banners that are missing from, or differ in, the current map are returned, each with its wanted text. |
| Banners.ChangedBannersOfSelf | plugins/cliconf/ios.py:670-675 | Comparing a banner map with itself finds nothing. |
| Banners.ChangedBannersAgainstNone | plugins/cliconf/ios.py:670-675 | Against no current banners every wanted banner is reported. |
| Banners.ChangedBannersConverge | plugins/cliconf/ios.py:670-675 | Once the reported banners are applied, comparing again finds nothing. |
| ConfigDiff.CheckDiffArgs | plugins/cliconf/ios.py:236-249 | No error exactly when a candidate is given and both modes are valid. The errors come in source order: missing candidate, bad match mode, bad replace mode. |
| ConfigDiff.SectionsCoverCandidate | plugins/cliconf/ios.py:251-254 | When every line opens with a word character or whitespace and the first line opens with a word character, the sections tile the candidate. |
| ConfigDiff.SectionParents | plugins/cliconf/ios.py:251-254 | Each section opens with a word character. |
| ConfigDiff.ContextCovers | plugins/cliconf/ios.py:284-288 | Every parent ends up present: in the text already, recorded as negated, or written now. |
| ConfigDiff.NegationMentionsText | plugins/cliconf/ios.py:293-296 | A negation mentions the text of the line it negates. |
| ConfigDiff.NegatedParentsContained | plugins/cliconf/ios.py:287-291 | Every recorded negated parent is already contained in the negation text. |
| ConfigDiff.NegationEntry | plugins/cliconf/ios.py:282-296 | Each running line missing from the candidate is negated, with `no ` unless it already is a `no` command. Each of its parents is present in the text before that negation. |
| ConfigDiff.AdditionEntry | plugins/cliconf/ios.py:300-304 | Each candidate line missing from the running block is added verbatim after its parents. |
| ConfigDiff.NegationsEmpty | plugins/cliconf/ios.py:282-296 | No negation is written exactly when every running line is among the candidate lines. |
| ConfigDiff.AdditionsEmpty | plugins/cliconf/ios.py:300-304 | No addition is written exactly when every candidate line is among the running lines. |
| ConfigDiff.SectionOfItself | plugins/cliconf/ios.py:280-306 | A section whose running block holds the same lines yields nothing. |
| ConfigDiff.ChainAppend | plugins/cliconf/ios.py:262-306 | The sections of a longer candidate are diffed one after another, in candidate order. |
| ConfigDiff.ExactBranchStripped | plugins/cliconf/ios.py:308 | The exact branch never leaves trailing whitespace. |
| ConfigDiff.NegateLines | plugins/cliconf/ios.py:280-296 | The negation loop writes exactly the negation text specified. |
| ConfigDiff.AddLines | plugins/cliconf/ios.py:300-304 | The addition loop writes exactly the addition text specified. |
| ConfigDiff.DiffSection | plugins/cliconf/ios.py:263-306 | One section's diff is its negations followed by its additions; a block the library cannot find is an error. |
| ConfigDiff.ExactDiff | plugins/cliconf/ios.py:261-308 | The loop over the sections gives exactly the exact branch. |
| ConfigDiff.GetDiff | plugins/cliconf/ios.py:190-341 | The method returns or raises exactly what `get_diff` specifies. |
| ConfigDiff.GetDiffArgumentErrors | plugins/cliconf/ios.py:236-249 | `get_diff` raises the argument errors in the order of its checks. |
| ConfigDiff.GetDiffBlockErrors | plugins/cliconf/ios.py:261-278 | With good arguments, the only error left is a missing section block, and only in the exact branch. |
| ConfigDiff.ExactBranchHasNoBanners | plugins/cliconf/ios.py:256-308 | The exact branch never reports banner differences. |
| ConfigDiff.NothingToCompare | plugins/cliconf/ios.py:312-339 | Without a running configuration, or with matching off, outside the exact branch, the diff is every candidate line and every candidate banner. |

## Left out

- The configuration library (`NetworkConfig`, `dumps` and the `difference` of
  the general branch) is not part of this model. It is the `ConfigLibrary`
  parameter of `ConfigDiff`, whose functions are left uninterpreted.
- The transport is a `Device` function from the trace and the command to a reply.
  Prompts, answers, `check_all`, newline handling, `get_prompt` and
  `set_cli_prompt_context` are not modelled.
- `send_command`'s mapping form, with `prompt`, `answer` and `sendonly`, is
  reduced to the command text. A command sent without waiting still gets a
  connection-failure verdict from the device, and its `None` result is recorded.
- The `time.sleep` pacing in `edit_macro` and `edit_banner` has no logical
  effect and is left out.
- `get`, `get_device_info`, `check_device_type`, `get_capabilities`,
  `get_device_operations` and `get_option_values` are not operations of this
  model. Their constants appear where they are used: the match and replace
  modes, and `supports_generate_diff`.
- The `@enable_mode` decorator and `check_edit_config_capability` belong to the
  base class and are not modelled, so an empty candidate still enters
  configuration mode (EditMacro sends `config terminal` and then fails with
  `PopFromEmptyList`) and the `replace` and `comment` arguments are dropped.
- EditBannerShape: states which response slots are filled (the newline's) but
  not their contents, the device's reply to that newline.
- Python's `\w` is taken over the ASCII letters, digits and `_` only. `\s` and
  `str.isspace` use the full Unicode whitespace set.
- ExtractSingleBanner: the removal of bodies and the placeholder rewrite are
  proved for one banner amid text that never mentions `banner `. For a
  document with several banners, the names (BannerNamesAll), each body
  (BodyOfAt) and the banner map (CollectBannersKeys, CollectBannersValues) are
  proved, but not the cleaned text.
- `edit_banner` takes its banners as a sequence of name and text pairs in
  dictionary order, instead of the JSON text that `json.loads` decodes.
- `edit_macro` with no candidate at all (`None`) is not modelled; the candidate is
  always a list. `pop` also shortens the caller's list, which the model does not
  capture.
- `get_config` takes `flags` as a list of words. A single string flag, which
  `to_list` wraps, is the one-element list.
