/** The command lines the plugin builds for `get_config`, `restore` and
    `get_defaults_flag`, and the readings it takes of device output before
    entering a commit-confirm configuration session. */
module Commands {

  import opened Common
  import opened Strings

  /** The command `get_config` sends: `show running-config` or
      `show startup-config` followed by the flags, surrounding blanks stripped.
      Any other source, or a non-empty format, is refused. */
  function GetConfigCommand(source: string, flags: seq<string>, format: Option<string>): (r: Result<string>)
    ensures r.Success? <==> (source == "running" || source == "startup") && !Truthy(format)
    ensures source != "running" && source != "startup" ==> r == Failure(UnsupportedSource(source))
    ensures (source == "running" || source == "startup") && Truthy(format)
            ==> r == Failure(UnsupportedFormat(format.value))
  {
    if source != "running" && source != "startup" then Failure(UnsupportedSource(source))
    else if Truthy(format) then Failure(UnsupportedFormat(format.value))
    else
      var prefix := if source == "running" then "show running-config " else "show startup-config ";
      Success(Strip(prefix + Join(" ", flags)))
  }

  /** The device reads the `get_config` command as `show`, the store's
      `-config` keyword and then exactly the flags, whatever their number. */
  lemma {:induction false} GetConfigCommandWords(source: string, flags: seq<string>, format: Option<string>)
    requires source == "running" || source == "startup"
    requires !Truthy(format)
    requires forall i :: 0 <= i < |flags| ==> IsToken(flags[i])
    ensures GetConfigCommand(source, flags, format).Success?
    ensures Split(GetConfigCommand(source, flags, format).value)
            == ["show", source + "-config"] + flags
  {
    var prefix := if source == "running" then "show running-config " else "show startup-config ";
    SplitStrip(prefix + Join(" ", flags));
    ShowPrefix(source);
    StoreWord(source);
    SplitTwoWordsThen("show", source + "-config", prefix, flags);
  }

  lemma ShowPrefix(source: string)
    requires source == "running" || source == "startup"
    ensures (if source == "running" then "show running-config " else "show startup-config ")
            == "show" + " " + (source + "-config") + " "
  {
  }

  lemma StoreWord(source: string)
    requires source == "running" || source == "startup"
    ensures IsToken("show") && IsToken(source + "-config")
  {
  }

  lemma SplitTwoWordsThen(w1: string, w2: string, prefix: string, words: seq<string>)
    requires IsToken(w1) && IsToken(w2) && prefix == w1 + " " + w2 + " "
    requires forall i :: 0 <= i < |words| ==> IsToken(words[i])
    ensures Split(prefix + Join(" ", words)) == [w1, w2] + words
  {
    var joined := Join(" ", words);
    var rest := w2 + " " + joined;
    SplitJoin(words);
    SplitAfterWord(w2, joined);
    SplitAfterWord(w1, rest);
    PrefixThen(w1, w2, prefix, joined);
  }

  lemma PrefixThen(w1: string, w2: string, prefix: string, s: string)
    requires prefix == w1 + " " + w2 + " "
    ensures prefix + s == w1 + " " + (w2 + " " + s)
  {
  }

  /** The command `restore` sends: `configure replace <path><filename> force`;
      a missing or empty file name is refused. */
  function RestoreCommand(filename: Option<string>, path: string): (r: Result<string>)
    ensures r.Success? <==> Truthy(filename)
    ensures !Truthy(filename) ==> r == Failure(FileNameRequired)
  {
    if !Truthy(filename) then Failure(FileNameRequired)
    else Success("configure replace " + path + filename.value + " force")
  }

  /** When the path and the file name together form one word, the device reads
      the `restore` command as `configure replace <target> force` with that
      word as the target. */
  lemma {:induction false} RestoreCommandWords(filename: Option<string>, path: string)
    requires Truthy(filename)
    requires IsToken(path + filename.value)
    ensures Split(RestoreCommand(filename, path).value)
            == ["configure", "replace", path + filename.value, "force"]
  {
    var target := path + filename.value;
    var words := ["configure", "replace", target, "force"];
    assert RestoreCommand(filename, path).value == "configure replace " + target + " force";
    RestoreJoined(target);
    RestoreWords();
    assert forall i :: 0 <= i < |words| ==> IsToken(words[i]);
    SplitJoin(words);
  }

  lemma RestoreJoined(target: string)
    ensures "configure replace " + target + " force" == Join(" ", ["configure", "replace", target, "force"])
  {
    JoinFour("configure", "replace", target, "force");
  }

  lemma RestoreWords()
    ensures IsToken("configure") && IsToken("replace") && IsToken("force")
  {
  }

  lemma JoinFour(a: string, b: string, c: string, d: string)
    ensures Join(" ", [a, b, c, d]) == a + " " + b + " " + c + " " + d
  {
    assert Join(" ", [d]) == d;
    assert Join(" ", [c, d]) == c + " " + d;
    assert Join(" ", [b, c, d]) == b + " " + (c + " " + d);
    assert Join(" ", [a, b, c, d]) == a + " " + (b + " " + (c + " " + d));
  }

  // ------------------------------------------------------- get_defaults_flag

  /** The first word of a line that is not blank; blank lines have none. */
  function FirstWord(line: string): Option<string>
    decreases |line|
  {
    if line == [] then None
    else if IsSpace(line[0]) then FirstWord(line[1..])
    else Some(line[..WordLen(line)])
  }

  /** `FirstWord` is the plugin's `line.strip().split()[0]`: a line has a first
      word exactly when, stripped, it is not empty, and the word is the first
      one its split gives. */
  lemma FirstWordOfSplit(line: string)
    ensures FirstWord(line).Some? <==> Strip(line) != ""
    ensures FirstWord(line).Some? ==> FirstWord(line).value == Split(Strip(line))[0]
  {
    SplitStrip(line);
    FirstWordSplit(line);
  }

  lemma {:induction false} FirstWordSplit(line: string)
    ensures FirstWord(line).Some? <==> Split(line) != []
    ensures FirstWord(line).Some? ==> FirstWord(line).value == Split(line)[0]
    decreases |line|
  {
    if line != [] && IsSpace(line[0]) {
      FirstWordSplit(line[1..]);
    }
  }

  /** The set of words `pick` finds in the given lines, collected line by line. */
  function Collect(pick: string -> Option<string>, lines: seq<string>): set<string> {
    if lines == [] then {}
    else
      var w := pick(lines[|lines| - 1]);
      Collect(pick, lines[..|lines| - 1]) + (if w.Some? then {w.value} else {})
  }

  /** Collecting one line further. */
  lemma CollectNext(pick: string -> Option<string>, lines: seq<string>, i: nat)
    requires i < |lines|
    ensures Collect(pick, lines[..i + 1])
            == Collect(pick, lines[..i]) + (if pick(lines[i]).Some? then {pick(lines[i]).value} else {})
  {
    assert lines[..i + 1][..i] == lines[..i];
  }

  /** A word is collected exactly when it is picked from some line. */
  lemma {:induction false} CollectMember(pick: string -> Option<string>, lines: seq<string>, word: string)
    ensures word in Collect(pick, lines)
            <==> exists i :: 0 <= i < |lines| && pick(lines[i]) == Some(word)
    decreases |lines|
  {
    if lines != [] {
      var init := lines[..|lines| - 1];
      CollectMember(pick, init, word);
      if word in Collect(pick, init) {
        var i :| 0 <= i < |init| && pick(init[i]) == Some(word);
        assert lines[i] == init[i];
      }
      if exists i :: 0 <= i < |lines| && pick(lines[i]) == Some(word) {
        var i :| 0 <= i < |lines| && pick(lines[i]) == Some(word);
        if i < |init| {
          assert init[i] == lines[i];
        }
      }
    }
  }

  /** `get_defaults_flag`'s choice from the reply to `show running-config ?`:
      `all` when some line of the reply begins with the word `all`, `full`
      otherwise. */
  function DefaultsFlag(help: string): (r: string)
    ensures r == "all" || r == "full"
  {
    if "all" in Collect(FirstWord, SplitLines(help)) then "all" else "full"
  }

  /** The flag is `all` exactly when some line of the help text starts with
      the word `all`, blanks before it allowed. */
  lemma DefaultsFlagAll(help: string)
    ensures DefaultsFlag(help) == "all"
            <==> exists i :: 0 <= i < |SplitLines(help)| && FirstWord(SplitLines(help)[i]) == Some("all")
  {
    var lines := SplitLines(help);
    assert "full" != "all";
    assert DefaultsFlag(help) == "all" <==> "all" in Collect(FirstWord, lines);
    CollectAll(lines);
  }

  lemma CollectAll(lines: seq<string>)
    ensures "all" in Collect(FirstWord, lines)
            <==> exists i :: 0 <= i < |lines| && FirstWord(lines[i]) == Some("all")
  {
    CollectMember(FirstWord, lines, "all");
  }

  /** Lines are read one by one: a help text whose first line offers `all`
      selects `all` whatever follows it, and a first line that does not offer
      it leaves the choice to the remaining lines. */
  lemma {:induction false} DefaultsFlagFirstLine(line: string, rest: string)
    requires NoLineBreak(line)
    ensures FirstWord(line) == Some("all") ==> DefaultsFlag(line + "\n" + rest) == "all"
    ensures FirstWord(line) != Some("all")
            ==> DefaultsFlag(line + "\n" + rest) == DefaultsFlag(rest)
  {
    SplitLinesCons(line, rest);
    var lines := SplitLines(line + "\n" + rest);
    CollectMember(FirstWord, lines, "all");
    CollectMember(FirstWord, SplitLines(rest), "all");
    assert lines[0] == line;
    forall i | 0 <= i < |SplitLines(rest)|
      ensures lines[i + 1] == SplitLines(rest)[i]
    {
    }
    if FirstWord(line) != Some("all") && "all" in Collect(FirstWord, lines) {
      var i :| 0 <= i < |lines| && FirstWord(lines[i]) == Some("all");
      assert i > 0;
      assert SplitLines(rest)[i - 1] == lines[i];
    }
  }

  // --------------------------------------------- commit confirm preconditions

  /** `re.search(r"Archive.*not.enabled", state)`: `Archive`, then any run of
      characters other than a newline, then `not`, one character other than a
      newline, and `enabled`. */
  predicate ArchiveDisabled(state: string) {
    exists i, j | 0 <= i && i + 7 <= j && j + 11 <= |state| ::
      OccursAt(state, "Archive", i) && OccursAt(state, "not", j)
      && OccursAt(state, "enabled", j + 4) && state[j + 3] != '\n'
      && forall k :: i + 7 <= k < j ==> state[k] != '\n'
  }

  /** The words of the message are matched within one line: a match in a
      text made of two lines is a match in one of them. */
  lemma ArchiveDisabledOneLine(a: string, b: string)
    requires ArchiveDisabled(a + "\n" + b)
    ensures ArchiveDisabled(a) || ArchiveDisabled(b)
  {
    var s := a + "\n" + b;
    var i, j :| 0 <= i && i + 7 <= j && j + 11 <= |s|
      && OccursAt(s, "Archive", i) && OccursAt(s, "not", j)
      && OccursAt(s, "enabled", j + 4) && s[j + 3] != '\n'
      && forall k :: i + 7 <= k < j ==> s[k] != '\n';
    if j + 11 <= |a| {
      ArchiveDisabledFirstLine(a, b, i, j);
    } else {
      assert s[|a|] == '\n';
      MatchAvoidsBreak(s, i, j, |a|);
      ArchiveDisabledSecondLine(a, b, i, j);
    }
  }

  lemma ArchiveDisabledFirstLine(a: string, b: string, i: nat, j: nat)
    requires var s := a + "\n" + b;
      i + 7 <= j && j + 11 <= |a|
      && OccursAt(s, "Archive", i) && OccursAt(s, "not", j)
      && OccursAt(s, "enabled", j + 4) && s[j + 3] != '\n'
      && forall k :: i + 7 <= k < j ==> s[k] != '\n'
    ensures ArchiveDisabled(a)
  {
    var s := a + "\n" + b;
    assert s[..|a|] == a;
    OccursInPrefix(s, "Archive", |a|, i);
    OccursInPrefix(s, "not", |a|, j);
    OccursInPrefix(s, "enabled", |a|, j + 4);
    assert a[j + 3] == s[j + 3];
    forall k | i + 7 <= k < j ensures a[k] != '\n' {
      assert a[k] == s[k];
    }
  }

  lemma ArchiveDisabledSecondLine(a: string, b: string, i: nat, j: nat)
    requires var s := a + "\n" + b;
      |a| < i && i + 7 <= j && j + 11 <= |s|
      && OccursAt(s, "Archive", i) && OccursAt(s, "not", j)
      && OccursAt(s, "enabled", j + 4) && s[j + 3] != '\n'
      && forall k :: i + 7 <= k < j ==> s[k] != '\n'
    ensures ArchiveDisabled(b)
  {
    var s := a + "\n" + b;
    var d := |a| + 1;
    assert s[d..] == b;
    OccursInSuffix2(s, "Archive", d, i);
    OccursInSuffix2(s, "not", d, j);
    OccursInSuffix2(s, "enabled", d, j + 4);
    assert b[j - d + 3] == s[j + 3];
    forall k | i - d + 7 <= k < j - d ensures b[k] != '\n' {
      assert b[k] == s[k + d];
    }
  }

  lemma OccursInPrefix(s: string, t: string, n: nat, p: nat)
    requires OccursAt(s, t, p) && p + |t| <= n <= |s|
    ensures OccursAt(s[..n], t, p)
  {
    assert s[..n][p..p + |t|] == s[p..p + |t|];
  }

  lemma OccursInSuffix2(s: string, t: string, d: nat, p: nat)
    requires OccursAt(s, t, p) && d <= p
    ensures OccursAt(s[d..], t, p - d)
  {
    assert s[d..][p - d..p - d + |t|] == s[p..p + |t|];
  }

  /** No character of a match is a newline, so a newline before the end of a
      match lies before its start. */
  lemma MatchAvoidsBreak(s: string, i: nat, j: nat, n: nat)
    requires i + 7 <= j && j + 11 <= |s|
    requires OccursAt(s, "Archive", i) && OccursAt(s, "not", j)
    requires OccursAt(s, "enabled", j + 4) && s[j + 3] != '\n'
    requires forall k :: i + 7 <= k < j ==> s[k] != '\n'
    requires n < j + 11 && s[n] == '\n'
    ensures n < i
  {
  }

  /** The rollback timer state `configure` accepts: the device reports that
      no confirmed change is pending. */
  predicate RollbackClear(state: string) {
    Contains(state, "%No Rollback Confirmed Change pending")
  }
}
