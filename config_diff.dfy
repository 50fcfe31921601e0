/** `get_diff` of the IOS cliconf plugin: argument validation, the split of a
    candidate configuration into top-level sections, the "exact" branch that
    writes negations and additions section by section, and the general branch
    that hands the work to the configuration library. */
module ConfigDiff {

  import opened Common
  import opened Strings
  import opened Banners

  // ------------------------------------------------------------ configuration lines

  /** A parsed configuration line as the configuration library hands it out:
      the raw text, the text without surrounding whitespace, the texts of its
      ancestors, outermost first, and whether any line is nested under it. */
  datatype Line = Line(raw: string, text: string, parents: seq<string>, hasChildren: bool)

  /** The library derives `text` from `raw` by stripping it. */
  predicate WellFormed(l: Line) {
    l.text == Strip(l.raw)
  }

  /** Lines compare equal when their ancestors and own text, joined by single
      spaces, are equal; raw indentation does not take part. */
  function Key(l: Line): string {
    Join(" ", l.parents + [l.text])
  }

  /** The keys of `ls`, in order. */
  function Keys(ls: seq<Line>): (r: seq<string>)
    ensures |r| == |ls|
    ensures forall i | 0 <= i < |ls| :: r[i] == Key(ls[i])
  {
    seq(|ls|, i requires 0 <= i < |ls| => Key(ls[i]))
  }

  /** `l in ls` under that equality. */
  predicate Among(l: Line, ls: seq<Line>) {
    Key(l) in Keys(ls)
  }

  /** The configuration library the plugin calls into, as functions:
      `block(contents, ignoreLines, path)` is the block under `path` of a
      configuration loaded from `contents` (None when it raises);
      `items(text)` the lines of a loaded configuration; `difference(want,
      have, ignoreLines, path, match, replace)` the lines of `want` missing from
      `have`; `dumps(lines)` their rendering as commands. */
  datatype ConfigLibrary = ConfigLibrary(
    block: (Option<string>, Option<seq<string>>, seq<string>) -> Option<seq<Line>>,
    items: string -> seq<Line>,
    difference: (string, string, Option<seq<string>>, Option<seq<string>>, string, string) -> seq<Line>,
    dumps: seq<Line> -> string)

  /** What `get_diff` returns. */
  datatype Diff = Diff(configDiff: string, bannerDiff: map<string, string>)

  // ------------------------------------------------------------------ validation

  const MatchModes: seq<string> := ["line", "strict", "exact", "none"]
  const ReplaceModes: seq<string> := ["line", "block"]

  /** The plugin always reports that it generates diffs itself. */
  const SupportsGenerateDiff: bool := true

  /** The first argument error `get_diff` raises, if any. */
  function CheckDiffArgs(candidate: Option<string>, diffMatch: string, diffReplace: string): (r: Option<Error>)
    ensures r.None? <==> candidate.Some? && diffMatch in MatchModes && diffReplace in ReplaceModes
    ensures candidate.None? ==> r == Some(CandidateRequired)
    ensures candidate.Some? && diffMatch !in MatchModes ==> r == Some(InvalidMatch(diffMatch))
    ensures candidate.Some? && diffMatch in MatchModes && diffReplace !in ReplaceModes ==>
      r == Some(InvalidReplace(diffReplace))
  {
    if candidate.None? && SupportsGenerateDiff then Some(CandidateRequired)
    else if diffMatch !in MatchModes then Some(InvalidMatch(diffMatch))
    else if diffReplace !in ReplaceModes then Some(InvalidReplace(diffReplace))
    else None
  }

  // -------------------------------------------------------------------- sections

  /** A top-level section found in the candidate: its first line and the
      indented lines that follow it. */
  datatype Section = Section(parent: string, child: string)

  function Text(sec: Section): string {
    sec.parent + sec.child
  }

  function Joined(secs: seq<Section>): string
    decreases |secs|
  {
    if secs == [] then "" else Text(secs[0]) + Joined(secs[1..])
  }

  /** Where a greedy `.*` starting at `p` stops: the next newline, or the end. */
  function LineEnd(s: string, p: nat): (e: nat)
    requires p <= |s|
    ensures p <= e <= |s| && (e == |s| || s[e] == '\n')
    ensures forall k :: p <= k < e ==> s[k] != '\n'
    decreases |s| - p
  {
    if p == |s| || s[p] == '\n' then p else LineEnd(s, p + 1)
  }

  /** Past `.*\n?` started at `p`. */
  function NextLine(s: string, p: nat): (e: nat)
    requires p <= |s|
    ensures p <= e <= |s|
    ensures p < |s| ==> p < e
    ensures e == |s| || LineStart(s, e)
  {
    var e := LineEnd(s, p);
    if e < |s| then e + 1 else e
  }

  /** Past a greedy `\s*` started at `p`. */
  function SpaceEnd(s: string, p: nat): (e: nat)
    requires p <= |s|
    ensures p <= e <= |s| && (e == |s| || !IsSpace(s[e]))
    decreases |s| - p
  {
    if p < |s| && IsSpace(s[p]) then SpaceEnd(s, p + 1) else p
  }

  /** Past the child group `(?:\s+.*\n?)*` started at `p`: each round takes a
      run of whitespace (newlines included), then the rest of that line. */
  function ChildEnd(s: string, p: nat): (e: nat)
    requires p <= |s|
    ensures p <= e <= |s| && (e == |s| || !IsSpace(s[e]))
    ensures e == p || e == |s| || LineStart(s, e)
    decreases |s| - p
  {
    if p < |s| && IsSpace(s[p]) then ChildEnd(s, NextLine(s, SpaceEnd(s, p))) else p
  }

  /** `re.findall(r"(?P<parent>^\w.*\n?)(?P<child>(?:\s+.*\n?)*)", s[p:], re.M)`. */
  function SectionsFrom(s: string, p: nat): seq<Section>
    requires p <= |s|
    decreases |s| - p
  {
    if p == |s| then []
    else if LineStart(s, p) && IsWordChar(s[p]) then
      var pe := NextLine(s, p);
      var ce := ChildEnd(s, pe);
      [Section(s[p..pe], s[pe..ce])] + SectionsFrom(s, ce)
    else SectionsFrom(s, p + 1)
  }

  function Sections(s: string): seq<Section> {
    SectionsFrom(s, 0)
  }

  /** Every line of `s` opens with a word character or with whitespace. */
  predicate LinesOpenWell(s: string) {
    forall p {:trigger LineStart(s, p)} | 0 <= p < |s| && LineStart(s, p) :: IsWordChar(s[p]) || IsSpace(s[p])
  }

  /** When every line opens with a word character or whitespace and the text
      starts with a word character, the sections cut the text into consecutive
      pieces with nothing skipped. */
  lemma {:induction false} SectionsTile(s: string, p: nat)
    requires p <= |s| && LinesOpenWell(s)
    requires p == |s| || (LineStart(s, p) && IsWordChar(s[p]))
    ensures Joined(SectionsFrom(s, p)) == s[p..]
    decreases |s| - p
  {
    if p < |s| {
      var pe := NextLine(s, p);
      var ce := ChildEnd(s, pe);
      NextSectionStart(s, pe, ce);
      SectionsTile(s, ce);
      var secs := SectionsFrom(s, p);
      assert secs == [Section(s[p..pe], s[pe..ce])] + SectionsFrom(s, ce);
      assert secs[1..] == SectionsFrom(s, ce);
      assert Joined(secs) == s[p..pe] + s[pe..ce] + Joined(secs[1..]);
      SliceThree(s, p, pe, ce);
    }
  }

  lemma SliceThree(s: string, a: nat, b: nat, c: nat)
    requires a <= b <= c <= |s|
    ensures s[a..] == s[a..b] + s[b..c] + s[c..]
  {
  }

  /** Where a section ends, the next one starts, unless the text is over. */
  lemma NextSectionStart(s: string, pe: nat, ce: nat)
    requires pe <= |s| && LinesOpenWell(s) && (pe == |s| || LineStart(s, pe))
    requires ce == ChildEnd(s, pe)
    ensures ce == |s| || (LineStart(s, ce) && IsWordChar(s[ce]))
  {
    if ce < |s| {
      assert LineStart(s, ce);
      assert !IsSpace(s[ce]);
    }
  }

  /** A candidate whose lines all open with a word character or whitespace is
      exactly the concatenation of its sections, in order. */
  lemma SectionsCoverCandidate(s: string)
    requires LinesOpenWell(s) && (s == [] || IsWordChar(s[0]))
    ensures Joined(Sections(s)) == s
  {
    SectionsTile(s, 0);
  }

  /** Each section's parent line is non-empty and opens with a word character. */
  lemma {:induction false} SectionParents(s: string, p: nat, k: nat)
    requires p <= |s| && k < |SectionsFrom(s, p)|
    ensures var sec := SectionsFrom(s, p)[k]; sec.parent != [] && IsWordChar(sec.parent[0])
    decreases |s| - p
  {
    if p < |s| {
      if LineStart(s, p) && IsWordChar(s[p]) {
        var ce := ChildEnd(s, NextLine(s, p));
        if k > 0 { SectionParents(s, ce, k - 1); }
      } else {
        SectionParents(s, p + 1, k);
      }
    }
  }

  // ----------------------------------------------------------- the exact branch

  /** The lines of `parents` not yet present: a parent is written (with its
      newline) unless the text so far contains it or it is a recorded
      negated parent; the test uses the text as it was before this line. */
  function ContextLines(parents: seq<string>, text: string, negated: seq<string>): string
    decreases |parents|
  {
    if parents == [] then ""
    else
      var p := parents[0];
      (if !Contains(text, p) && p !in negated then p + "\n" else "")
        + ContextLines(parents[1..], text, negated)
  }

  /** Every parent ends up present: already in the text, recorded as
      negated, or written by `ContextLines`. */
  lemma {:induction false} ContextCovers(parents: seq<string>, text: string, negated: seq<string>, p: string)
    requires p in parents
    ensures Contains(text, p) || p in negated || Contains(ContextLines(parents, text, negated), p)
    decreases |parents|
  {
    var head := if !Contains(text, parents[0]) && parents[0] !in negated then parents[0] + "\n" else "";
    var tail := ContextLines(parents[1..], text, negated);
    assert ContextLines(parents, text, negated) == head + tail;
    if p == parents[0] {
      if head != "" {
        assert OccursAt(head + tail, p, 0);
      }
    } else {
      ContextCovers(parents[1..], text, negated, p);
      if Contains(tail, p) {
        ContainsExtended(head, tail, "", p);
        assert head + tail + "" == head + tail;
      }
    }
  }

  /** The command that removes a running line: the line prefixed with `no `,
      or the line itself when it already is a `no` command. */
  function NegationOf(l: Line): string {
    if "no " <= Strip(l.text) then l.raw + "\n" else "no " + l.raw + "\n"
  }

  /** The state of the negation loop: the text so far and the texts of the
      negated lines that had children. */
  datatype Negated = Negated(text: string, negatedParents: seq<string>)

  /** One round of the negation loop, for the running line `l`. */
  function NegateStep(st: Negated, l: Line, want: seq<Line>): (r: Negated)
    ensures st.text <= r.text
  {
    if Among(l, want) then st
    else
      var context := ContextLines(l.parents, st.text, st.negatedParents);
      Negated(st.text + context + NegationOf(l),
              if l.hasChildren then st.negatedParents + [l.text] else st.negatedParents)
  }

  /** The negation loop over the running lines `have`. */
  function Negations(have: seq<Line>, want: seq<Line>): Negated
    decreases |have|
  {
    if have == [] then Negated("", [])
    else NegateStep(Negations(have[..|have| - 1], want), have[|have| - 1], want)
  }

  /** One round of the addition loop, for the candidate line `l`. */
  function AddStep(text: string, l: Line, have: seq<Line>): (r: string)
    ensures text <= r
  {
    if Among(l, have) then text
    else text + ContextLines(l.parents, text, []) + l.raw + "\n"
  }

  /** The addition loop over the candidate lines `want`. */
  function Additions(want: seq<Line>, have: seq<Line>): string
    decreases |want|
  {
    if want == [] then "" else AddStep(Additions(want[..|want| - 1], have), want[|want| - 1], have)
  }

  lemma {:induction false} NegationsGrow(have: seq<Line>, want: seq<Line>, i: nat)
    requires i <= |have|
    ensures Negations(have[..i], want).text <= Negations(have, want).text
    decreases |have| - i
  {
    if i < |have| {
      var init := have[..|have| - 1];
      assert init[..i] == have[..i];
      NegationsGrow(init, want, i);
      var a := Negations(have[..i], want).text;
      var b := Negations(init, want).text;
      var c := Negations(have, want).text;
      assert c == NegateStep(Negations(init, want), have[|have| - 1], want).text;
      assert a <= b <= c;
      assert a == c[..|a|];
    } else {
      assert have[..i] == have;
    }
  }

  lemma {:induction false} AdditionsGrow(want: seq<Line>, have: seq<Line>, i: nat)
    requires i <= |want|
    ensures Additions(want[..i], have) <= Additions(want, have)
    decreases |want| - i
  {
    if i < |want| {
      var init := want[..|want| - 1];
      assert init[..i] == want[..i];
      AdditionsGrow(init, have, i);
      var a := Additions(want[..i], have);
      var b := Additions(init, have);
      var c := Additions(want, have);
      assert c == AddStep(b, want[|want| - 1], have);
      assert a <= b <= c;
      assert a == c[..|a|];
    } else {
      assert want[..i] == want;
    }
  }

  /** Every recorded negated parent is contained in the negation text. */
  predicate ParentsRecorded(st: Negated) {
    forall t | t in st.negatedParents :: Contains(st.text, t)
  }

  /** A negation mentions the text of the line it negates. */
  lemma NegationMentionsText(l: Line)
    requires WellFormed(l)
    ensures Contains(NegationOf(l), l.text)
  {
    StripContained(l.raw);
    var pre := if "no " <= Strip(l.text) then "" else "no ";
    assert NegationOf(l) == pre + l.raw + "\n";
    ContainsExtended(pre, l.raw, "\n", l.text);
  }

  /** One round of the negation loop: the negation follows the context lines,
      every parent of the line is present before it, and the recorded
      negated parents stay contained in the text. */
  lemma NegateStepFacts(st: Negated, l: Line, want: seq<Line>)
    requires WellFormed(l) && !Among(l, want) && ParentsRecorded(st)
    ensures var before := st.text + ContextLines(l.parents, st.text, st.negatedParents);
      && NegateStep(st, l, want).text == before + NegationOf(l)
      && (forall p | p in l.parents :: Contains(before, p))
      && ParentsRecorded(NegateStep(st, l, want))
  {
    var context := ContextLines(l.parents, st.text, st.negatedParents);
    var before := st.text + context;
    var next := NegateStep(st, l, want);
    assert next.text == before + NegationOf(l);
    assert st.text <= before;
    assert before <= next.text;
    forall p | p in l.parents ensures Contains(before, p) {
      ContextCovers(l.parents, st.text, st.negatedParents, p);
      if Contains(st.text, p) {
        ContainsInLonger(st.text, before, p);
      } else if p in st.negatedParents {
        ContainsInLonger(st.text, before, p);
      } else {
        ContainsAfter(st.text, context, p);
      }
    }
    forall t | t in next.negatedParents ensures Contains(next.text, t) {
      if t in st.negatedParents {
        ContainsInLonger(st.text, next.text, t);
      } else {
        assert t == l.text;
        NegationMentionsText(l);
        ContainsAfter(before, NegationOf(l), t);
      }
    }
  }

  /** The negated-parents list never matters: each of its entries is already
      contained in the negation text, so the text test alone decides. */
  lemma {:induction false} NegatedParentsContained(have: seq<Line>, want: seq<Line>)
    requires forall l | l in have :: WellFormed(l)
    ensures ParentsRecorded(Negations(have, want))
    decreases |have|
  {
    if have != [] {
      var init := have[..|have| - 1];
      var l := have[|have| - 1];
      assert l in have;
      forall m | m in init ensures WellFormed(m) { assert m in have; }
      NegatedParentsContained(init, want);
      if !Among(l, want) {
        NegateStepFacts(Negations(init, want), l, want);
      }
    }
  }

  /** Each running line missing from the candidate is negated (`no <line>`, or
      the line itself when it is already a `no` command), and every one of its
      parents is present in the text before that negation. */
  lemma NegationEntry(have: seq<Line>, want: seq<Line>, i: nat)
    requires forall l | l in have :: WellFormed(l)
    requires i < |have| && !Among(have[i], want)
    ensures var st := Negations(have[..i], want);
      var before := st.text + ContextLines(have[i].parents, st.text, st.negatedParents);
      && before + NegationOf(have[i]) <= Negations(have, want).text
      && forall p | p in have[i].parents :: Contains(before, p)
  {
    var st := Negations(have[..i], want);
    assert have[..i + 1][..i] == have[..i];
    assert Negations(have[..i + 1], want) == NegateStep(st, have[i], want);
    forall m | m in have[..i] ensures WellFormed(m) { assert m in have; }
    NegatedParentsContained(have[..i], want);
    NegateStepFacts(st, have[i], want);
    NegationsGrow(have, want, i + 1);
  }

  /** Each candidate line missing from the running block is added verbatim,
      and every one of its parents is present in the text before it. */
  lemma AdditionEntry(want: seq<Line>, have: seq<Line>, i: nat)
    requires i < |want| && !Among(want[i], have)
    ensures var text := Additions(want[..i], have);
      var before := text + ContextLines(want[i].parents, text, []);
      && before + want[i].raw + "\n" <= Additions(want, have)
      && forall p | p in want[i].parents :: Contains(before, p)
  {
    var text := Additions(want[..i], have);
    var l := want[i];
    var context := ContextLines(l.parents, text, []);
    assert want[..i + 1][..i] == want[..i];
    assert Additions(want[..i + 1], have) == text + context + l.raw + "\n";
    AdditionsGrow(want, have, i + 1);
    assert text <= text + context;
    forall p | p in l.parents ensures Contains(text + context, p) {
      ContextCovers(l.parents, text, [], p);
      if Contains(text, p) {
        ContainsInLonger(text, text + context, p);
      } else {
        ContainsAfter(text, context, p);
      }
    }
  }

  /** No negation is written exactly when every running line is among the
      candidate lines. */
  lemma {:induction false} NegationsEmpty(have: seq<Line>, want: seq<Line>)
    requires forall l | l in have :: WellFormed(l)
    ensures Negations(have, want).text == "" <==> forall l | l in have :: Among(l, want)
    decreases |have|
  {
    if forall l | l in have :: Among(l, want) {
      NegationsNone(have, want);
    } else {
      var i :| 0 <= i < |have| && !Among(have[i], want);
      NegationEntry(have, want, i);
    }
  }

  lemma {:induction false} NegationsNone(have: seq<Line>, want: seq<Line>)
    requires forall l | l in have :: Among(l, want)
    ensures Negations(have, want) == Negated("", [])
    decreases |have|
  {
    if have != [] {
      var init := have[..|have| - 1];
      forall l | l in init ensures Among(l, want) { assert l in have; }
      NegationsNone(init, want);
      assert have[|have| - 1] in have;
    }
  }

  /** No addition is written exactly when every candidate line is among the
      running lines. */
  lemma {:induction false} AdditionsEmpty(want: seq<Line>, have: seq<Line>)
    ensures Additions(want, have) == "" <==> forall l | l in want :: Among(l, have)
    decreases |want|
  {
    if forall l | l in want :: Among(l, have) {
      AdditionsNone(want, have);
    } else {
      var i :| 0 <= i < |want| && !Among(want[i], have);
      AdditionEntry(want, have, i);
    }
  }

  lemma {:induction false} AdditionsNone(want: seq<Line>, have: seq<Line>)
    requires forall l | l in want :: Among(l, have)
    ensures Additions(want, have) == ""
    decreases |want|
  {
    if want != [] {
      var init := want[..|want| - 1];
      forall l | l in init ensures Among(l, have) { assert l in want; }
      AdditionsNone(init, have);
      assert want[|want| - 1] in want;
    }
  }

  /** A section whose running block holds the same lines yields nothing. */
  lemma SectionOfItself(ls: seq<Line>)
    requires forall l | l in ls :: WellFormed(l)
    ensures Negations(ls, ls).text + Additions(ls, ls) == ""
  {
    forall l | l in ls ensures Among(l, ls) {
      var i :| 0 <= i < |ls| && ls[i] == l;
    }
    NegationsEmpty(ls, ls);
    AdditionsEmpty(ls, ls);
  }

  /** The negations then the additions for one candidate section. The running
      block is empty when the library cannot find it; the candidate block
      must be found. */
  function SectionDiff(lib: ConfigLibrary, sec: Section, running: Option<string>,
                       ignoreLines: Option<seq<string>>): Result<string>
  {
    var path := [Strip(sec.parent)];
    var found := lib.block(running, ignoreLines, path);
    var have := if found.Some? then found.value else [];
    match lib.block(Some(Text(sec)), None, path)
    case None => Failure(BlockNotFound(path))
    case Some(want) => Success(Negations(have, want).text + Additions(want, have))
  }

  function Prepend(prefix: string, r: Result<string>): Result<string> {
    if r.Success? then Success(prefix + r.value) else r
  }

  /** The diffs `diff` gives for each section, concatenated in order and
      stopping at the first failure. */
  function Chain(diff: Section -> Result<string>, secs: seq<Section>): Result<string>
    decreases |secs|
  {
    if secs == [] then Success("")
    else
      var r := diff(secs[0]);
      if r.Failure? then r else Prepend(r.value, Chain(diff, secs[1..]))
  }

  /** The sections of a longer candidate are diffed one after another: the
      diff of `a + b` is the diff of `a` followed by the diff of `b`. */
  lemma {:induction false} ChainAppend(diff: Section -> Result<string>, a: seq<Section>, b: seq<Section>)
    ensures var ra := Chain(diff, a);
      Chain(diff, a + b) == if ra.Success? then Prepend(ra.value, Chain(diff, b)) else ra
    decreases |a|
  {
    if a != [] {
      assert (a + b)[0] == a[0];
      assert (a + b)[1..] == a[1..] + b;
      ChainAppend(diff, a[1..], b);
      var r := diff(a[0]);
      if r.Success? {
        var rest := Chain(diff, a[1..]);
        if rest.Success? {
          PrependTwice(r.value, rest.value, Chain(diff, b));
        }
      }
    } else {
      assert a + b == b;
      PrependNothing(Chain(diff, b));
    }
  }

  /** Chaining from section `i` on: that section's diff, then the rest. */
  lemma ChainFrom(diff: Section -> Result<string>, secs: seq<Section>, i: nat)
    requires i < |secs|
    ensures var r := diff(secs[i]);
      Chain(diff, secs[i..]) == if r.Failure? then r else Prepend(r.value, Chain(diff, secs[i + 1..]))
  {
    assert secs[i..][0] == secs[i] && secs[i..][1..] == secs[i + 1..];
  }

  /** A failing section ends the chain with its failure. */
  lemma ChainStops(diff: Section -> Result<string>, secs: seq<Section>, i: nat, done: string)
    requires i < |secs| && diff(secs[i]).Failure?
    requires Chain(diff, secs) == Prepend(done, Chain(diff, secs[i..]))
    ensures Chain(diff, secs) == diff(secs[i])
  {
    ChainFrom(diff, secs, i);
  }

  /** Once every section is done, the chain is what was accumulated. */
  lemma ChainDone(diff: Section -> Result<string>, secs: seq<Section>, done: string)
    requires Chain(diff, secs) == Prepend(done, Chain(diff, secs[|secs|..]))
    ensures Chain(diff, secs) == Success(done)
  {
    assert secs[|secs|..] == [];
    assert done + "" == done;
  }

  lemma PrependNothing(r: Result<string>)
    ensures Prepend("", r) == r
  {
    if r.Success? {
      assert "" + r.value == r.value;
    }
  }

  lemma PrependTwice(x: string, y: string, r: Result<string>)
    ensures Prepend(x, Prepend(y, r)) == Prepend(x + y, r)
  {
    if r.Success? {
      assert x + (y + r.value) == (x + y) + r.value;
    }
  }

  function SectionDiffer(lib: ConfigLibrary, running: Option<string>, ignoreLines: Option<seq<string>>)
    : Section -> Result<string>
  {
    sec => SectionDiff(lib, sec, running, ignoreLines)
  }

  /** One section's diff in terms of the two blocks the library returns. */
  lemma SectionDiffOf(lib: ConfigLibrary, sec: Section, running: Option<string>,
                      ignoreLines: Option<seq<string>>, have: seq<Line>, wanted: Option<seq<Line>>)
    requires var found := lib.block(running, ignoreLines, [Strip(sec.parent)]);
      have == if found.Some? then found.value else []
    requires wanted == lib.block(Some(Text(sec)), None, [Strip(sec.parent)])
    ensures SectionDiffer(lib, running, ignoreLines)(sec) ==
      if wanted.None? then Failure(BlockNotFound([Strip(sec.parent)]))
      else Success(Negations(have, wanted.value).text + Additions(wanted.value, have))
  {
  }

  /** The section diffs in candidate order, stopping at the first failure. */
  function ExactSections(lib: ConfigLibrary, secs: seq<Section>, running: Option<string>,
                         ignoreLines: Option<seq<string>>): Result<string>
  {
    Chain(SectionDiffer(lib, running, ignoreLines), secs)
  }

  /** The exact branch: every section diffed, then trailing whitespace removed. */
  function ExactBranch(lib: ConfigLibrary, secs: seq<Section>, running: Option<string>,
                       ignoreLines: Option<seq<string>>): Result<string>
  {
    match ExactSections(lib, secs, running, ignoreLines)
    case Failure(e) => Failure(e)
    case Success(d) => Success(RStrip(d))
  }

  lemma ExactBranchOf(lib: ConfigLibrary, secs: seq<Section>, running: Option<string>,
                      ignoreLines: Option<seq<string>>, d: string)
    requires Chain(SectionDiffer(lib, running, ignoreLines), secs) == Success(d)
    ensures ExactBranch(lib, secs, running, ignoreLines) == Success(RStrip(d))
  {
  }

  /** The exact branch never leaves trailing whitespace in its diff. */
  lemma ExactBranchStripped(lib: ConfigLibrary, secs: seq<Section>, running: Option<string>,
                            ignoreLines: Option<seq<string>>)
    requires ExactBranch(lib, secs, running, ignoreLines).Success?
    ensures var d := ExactBranch(lib, secs, running, ignoreLines).value;
      d == [] || !IsSpace(d[|d| - 1])
  {
    var all := ExactSections(lib, secs, running, ignoreLines);
    assert all.Success?;
    var d := RStrip(all.value);
    assert ExactBranch(lib, secs, running, ignoreLines).value == d;
  }

  /** The negation loop. */
  method NegateLines(have: seq<Line>, want: seq<Line>) returns (negates: string)
    ensures negates == Negations(have, want).text
  {
    negates := "";
    var negatedParents: seq<string> := [];
    for i := 0 to |have|
      invariant Negated(negates, negatedParents) == Negations(have[..i], want)
    {
      var line := have[i];
      assert have[..i + 1][..i] == have[..i];
      if !Among(line, want) {
        negates := negates + ContextLines(line.parents, negates, negatedParents);
        if line.hasChildren {
          negatedParents := negatedParents + [line.text];
        }
        negates := negates + NegationOf(line);
      }
    }
    assert have[..|have|] == have;
  }

  /** The addition loop. */
  method AddLines(want: seq<Line>, have: seq<Line>) returns (wants: string)
    ensures wants == Additions(want, have)
  {
    wants := "";
    for i := 0 to |want|
      invariant wants == Additions(want[..i], have)
    {
      var line := want[i];
      assert want[..i + 1][..i] == want[..i];
      if !Among(line, have) {
        wants := wants + ContextLines(line.parents, wants, []);
        wants := wants + line.raw + "\n";
      }
    }
    assert want[..|want|] == want;
  }

  /** One round of the loop of the exact branch: the negations, then the
      additions, for one candidate section. */
  method DiffSection(lib: ConfigLibrary, sec: Section, running: Option<string>,
                     ignoreLines: Option<seq<string>>) returns (r: Result<string>)
    ensures r == SectionDiffer(lib, running, ignoreLines)(sec)
  {
    var path := [Strip(sec.parent)];
    var found := lib.block(running, ignoreLines, path);
    var have := if found.Some? then found.value else [];
    var wanted := lib.block(Some(Text(sec)), None, path);
    SectionDiffOf(lib, sec, running, ignoreLines, have, wanted);
    if wanted.None? {
      return Failure(BlockNotFound(path));
    }
    var negates := NegateLines(have, wanted.value);
    var wants := AddLines(wanted.value, have);
    r := Success(negates + wants);
  }

  /** The loop of the exact branch over the candidate sections. */
  method ExactDiff(lib: ConfigLibrary, secs: seq<Section>, running: Option<string>,
                   ignoreLines: Option<seq<string>>) returns (r: Result<string>)
    ensures r == ExactBranch(lib, secs, running, ignoreLines)
  {
    ghost var diff := SectionDiffer(lib, running, ignoreLines);
    var configDiff := "";
    var i := 0;
    assert secs[i..] == secs;
    PrependNothing(Chain(diff, secs));
    while i < |secs|
      invariant 0 <= i <= |secs|
      invariant Chain(diff, secs) == Prepend(configDiff, Chain(diff, secs[i..]))
    {
      ChainFrom(diff, secs, i);
      var d := DiffSection(lib, secs[i], running, ignoreLines);
      if d.Failure? {
        ChainStops(diff, secs, i, configDiff);
        return d;
      }
      PrependTwice(configDiff, d.value, Chain(diff, secs[i + 1..]));
      configDiff := configDiff + d.value;
      i := i + 1;
    }
    ChainDone(diff, secs, configDiff);
    var stripped := RStrip(configDiff);
    ExactBranchOf(lib, secs, running, ignoreLines, configDiff);
    r := Success(stripped);
  }

  // ------------------------------------------------------------------ get_diff

  /** Whether `path` is falsy: absent or empty. */
  predicate NoPath(path: Option<seq<string>>) {
    path.None? || path.value == []
  }

  /** `_extract_banners`: the configuration without banner bodies, and the banners. */
  function Extracted(config: string): (string, map<string, string>) {
    var names := BannerNames(config);
    (ReplaceEmptyBanners(RemoveBodies(config, names)), CollectBanners(config, names))
  }

  /** Whether `get_diff` takes the exact branch for this candidate (with doubled newlines collapsed). */
  predicate TakesExactBranch(candidate: string, diffMatch: string, path: Option<seq<string>>) {
    Sections(candidate) != [] && NoPath(path) && diffMatch == "exact"
  }

  /** The general branch: the library's difference against the running
      configuration when there is one and matching is on, otherwise every
      candidate line; banners compared separately. */
  function GeneralBranch(lib: ConfigLibrary, candidate: string, running: Option<string>, diffMatch: string,
                         ignoreLines: Option<seq<string>>, path: Option<seq<string>>, diffReplace: string): Diff
  {
    var (wantSrc, wantBanners) := Extracted(candidate);
    var compare := Truthy(running) && diffMatch != "none";
    var (haveSrc, haveBanners) := if compare then Extracted(running.value) else ("", map[]);
    var lines := if compare then lib.difference(wantSrc, haveSrc, ignoreLines, path, diffMatch, diffReplace)
                 else lib.items(wantSrc);
    Diff(if lines == [] then "" else lib.dumps(lines), ChangedBanners(wantBanners, haveBanners))
  }

  /** What `get_diff` returns or raises. */
  function GetDiffSpec(lib: ConfigLibrary, candidate: Option<string>, running: Option<string>, diffMatch: string,
                       ignoreLines: Option<seq<string>>, path: Option<seq<string>>, diffReplace: string): Result<Diff>
  {
    match CheckDiffArgs(candidate, diffMatch, diffReplace)
    case Some(e) => Failure(e)
    case None =>
      var cand := ReplaceAll(candidate.value, "\n\n", "\n");
      if TakesExactBranch(cand, diffMatch, path) then
        match ExactBranch(lib, Sections(cand), running, ignoreLines)
        case Failure(e) => Failure(e)
        case Success(d) => Success(Diff(d, map[]))
      else Success(GeneralBranch(lib, cand, running, diffMatch, ignoreLines, path, diffReplace))
  }

  /** `get_diff`. */
  method GetDiff(lib: ConfigLibrary, candidate: Option<string>, running: Option<string>, diffMatch: string,
                 ignoreLines: Option<seq<string>>, path: Option<seq<string>>, diffReplace: string)
    returns (r: Result<Diff>)
    ensures r == GetDiffSpec(lib, candidate, running, diffMatch, ignoreLines, path, diffReplace)
  {
    var err := CheckDiffArgs(candidate, diffMatch, diffReplace);
    if err.Some? {
      return Failure(err.value);
    }
    var cand := ReplaceAll(candidate.value, "\n\n", "\n");
    var secs := Sections(cand);
    if secs != [] && NoPath(path) && diffMatch == "exact" {
      var d := ExactDiff(lib, secs, running, ignoreLines);
      if d.Failure? {
        return Failure(d.error);
      }
      return Success(Diff(d.value, map[]));
    }
    var wantSrc, wantBanners := ExtractBanners(cand);
    var lines: seq<Line>;
    var haveBanners: map<string, string>;
    if Truthy(running) && diffMatch != "none" {
      var haveSrc;
      haveSrc, haveBanners := ExtractBanners(running.value);
      lines := lib.difference(wantSrc, haveSrc, ignoreLines, path, diffMatch, diffReplace);
    } else {
      lines := lib.items(wantSrc);
      haveBanners := map[];
    }
    var configDiff := if lines == [] then "" else lib.dumps(lines);
    var banners := DiffBanners(wantBanners, haveBanners);
    r := Success(Diff(configDiff, banners));
  }

  /** `get_diff` raises the argument errors in the order of its checks: a
      missing candidate first, then a bad match mode, then a bad replace mode. */
  lemma GetDiffArgumentErrors(lib: ConfigLibrary, candidate: Option<string>, running: Option<string>,
                              diffMatch: string, ignoreLines: Option<seq<string>>, path: Option<seq<string>>,
                              diffReplace: string)
    ensures var r := GetDiffSpec(lib, candidate, running, diffMatch, ignoreLines, path, diffReplace);
      && (candidate.None? ==> r == Failure(CandidateRequired))
      && (candidate.Some? && diffMatch !in MatchModes ==> r == Failure(InvalidMatch(diffMatch)))
      && (candidate.Some? && diffMatch in MatchModes && diffReplace !in ReplaceModes ==>
            r == Failure(InvalidReplace(diffReplace)))
  {
  }

  /** A failing chain fails with the failure of one of its sections. */
  lemma {:induction false} ChainFailure(diff: Section -> Result<string>, secs: seq<Section>)
    requires Chain(diff, secs).Failure?
    ensures exists i | 0 <= i < |secs| :: diff(secs[i]) == Chain(diff, secs)
    decreases |secs|
  {
    if diff(secs[0]).Success? {
      ChainFailure(diff, secs[1..]);
      var i :| 0 <= i < |secs[1..]| && diff(secs[1..][i]) == Chain(diff, secs[1..]);
      assert diff(secs[i + 1]) == Chain(diff, secs);
    } else {
      assert diff(secs[0]) == Chain(diff, secs);
    }
  }

  /** With good arguments the only error left is a candidate section whose
      block the library cannot find, and only in the exact branch. */
  lemma GetDiffBlockErrors(lib: ConfigLibrary, candidate: string, running: Option<string>, diffMatch: string,
                           ignoreLines: Option<seq<string>>, path: Option<seq<string>>, diffReplace: string)
    requires diffMatch in MatchModes && diffReplace in ReplaceModes
    requires GetDiffSpec(lib, Some(candidate), running, diffMatch, ignoreLines, path, diffReplace).Failure?
    ensures diffMatch == "exact" && NoPath(path)
    ensures GetDiffSpec(lib, Some(candidate), running, diffMatch, ignoreLines, path, diffReplace).error.BlockNotFound?
  {
    var cand := ReplaceAll(candidate, "\n\n", "\n");
    var diff := SectionDiffer(lib, running, ignoreLines);
    ChainFailure(diff, Sections(cand));
  }

  /** The exact branch never reports banner differences. */
  lemma ExactBranchHasNoBanners(lib: ConfigLibrary, candidate: string, running: Option<string>,
                                ignoreLines: Option<seq<string>>, path: Option<seq<string>>, diffReplace: string)
    requires diffReplace in ReplaceModes
    requires TakesExactBranch(ReplaceAll(candidate, "\n\n", "\n"), "exact", path)
    requires GetDiffSpec(lib, Some(candidate), running, "exact", ignoreLines, path, diffReplace).Success?
    ensures GetDiffSpec(lib, Some(candidate), running, "exact", ignoreLines, path, diffReplace).value.bannerDiff == map[]
  {
  }

  /** Without a running configuration (or with matching off) outside the exact
      branch, the diff is every candidate line and every candidate banner. */
  lemma NothingToCompare(lib: ConfigLibrary, candidate: string, running: Option<string>, diffMatch: string,
                         ignoreLines: Option<seq<string>>, path: Option<seq<string>>, diffReplace: string)
    requires diffMatch in MatchModes && diffReplace in ReplaceModes
    requires !Truthy(running) || diffMatch == "none"
    requires !TakesExactBranch(ReplaceAll(candidate, "\n\n", "\n"), diffMatch, path)
    ensures var cand := ReplaceAll(candidate, "\n\n", "\n");
      var lines := lib.items(Extracted(cand).0);
      GetDiffSpec(lib, Some(candidate), running, diffMatch, ignoreLines, path, diffReplace)
        == Success(Diff(if lines == [] then "" else lib.dumps(lines), Extracted(cand).1))
  {
    var cand := ReplaceAll(candidate, "\n\n", "\n");
    ChangedBannersAgainstNone(Extracted(cand).1);
  }
}
