/** Banner handling of the IOS cliconf plugin: pulling `banner NAME ^C ... ^C`
    blocks out of configuration text (`_extract_banners`) and comparing two
    banner maps (`_diff_banners`). The regular expressions `_extract_banners`
    uses are written out as explicit first-occurrence searches. */
module Banners {

  import opened Common
  import opened Strings

  /** The delimiter IOS prints around a banner body in its configuration. */
  const Delimiter: string := "^C"

  /** What each emptied banner declaration is rewritten to. */
  const Placeholder: string := "!! banner removed"

  /** The key a banner is stored under. */
  function BannerKey(name: string): string {
    "banner " + name
  }

  /** The text that opens a banner body. */
  function BannerHeader(name: string): string {
    "banner " + name + " " + Delimiter
  }

  /** Length of the longest prefix of word characters (a greedy `\w*`). */
  function WordRun(s: string): (n: nat)
    ensures n <= |s|
    ensures forall i :: 0 <= i < n ==> IsWordChar(s[i])
    ensures n == |s| || !IsWordChar(s[n])
  {
    if s != [] && IsWordChar(s[0]) then 1 + WordRun(s[1..]) else 0
  }

  /** The name captured by `^banner (\w+)` when it matches at `p`. */
  function BannerNameAt(s: string, p: nat): (r: Option<string>)
    ensures r.Some? ==> IsWord(r.value) && LineStart(s, p) && OccursAt(s, BannerKey(r.value), p)
  {
    if LineStart(s, p) && OccursAt(s, "banner ", p) && WordRun(s[p + 7..]) > 0 then
      var rest := s[p + 7..];
      var name := rest[..WordRun(rest)];
      assert IsWord(name);
      assert s[p..p + 7 + |name|] == s[p..p + 7] + name;
      Some(name)
    else None
  }

  /** The pattern matches exactly where a line starts with `banner ` and a
      word character, and captures the whole run of word characters there. */
  lemma BannerNameMatches(s: string, p: nat)
    ensures BannerNameAt(s, p).Some? <==>
      LineStart(s, p) && OccursAt(s, "banner ", p) && p + 7 < |s| && IsWordChar(s[p + 7])
    ensures BannerNameAt(s, p).Some? ==>
      var e := p + 7 + |BannerNameAt(s, p).value|; e == |s| || !IsWordChar(s[e])
  {
    if OccursAt(s, "banner ", p) {
      var rest := s[p + 7..];
      assert WordRun(rest) > 0 <==> p + 7 < |s| && IsWordChar(s[p + 7]);
      if BannerNameAt(s, p).Some? {
        assert p + 7 + WordRun(rest) == |s| || s[p + 7 + WordRun(rest)] == rest[WordRun(rest)];
      }
    }
  }

  /** `re.findall(r"^banner (\w+)", s[p:], re.M)`: the declared banner names, in order. */
  function BannerNamesFrom(s: string, p: nat): (r: seq<string>)
    decreases |s| - p
    ensures forall i :: 0 <= i < |r| ==> IsWord(r[i])
  {
    if p >= |s| then []
    else match BannerNameAt(s, p)
      case Some(name) => [name] + BannerNamesFrom(s, p + 7 + |name|)
      case None => BannerNamesFrom(s, p + 1)
  }

  function BannerNames(s: string): seq<string> {
    BannerNamesFrom(s, 0)
  }

  /** The declarations at every position from `p` on, in position order: the
      reference the `findall` scan, which resumes after each match, is
      compared with. */
  function DeclaredFrom(s: string, p: nat): seq<string>
    decreases |s| - p
  {
    if p >= |s| then []
    else if BannerNameAt(s, p).Some? then [BannerNameAt(s, p).value] + DeclaredFrom(s, p + 1)
    else DeclaredFrom(s, p + 1)
  }

  /** `re.search(r"banner NAME \^C(.+?)(?=\^C)", config, re.S)`: the text after
      the first `banner NAME ^C` up to the next `^C` at least one character
      later. Occurrences of the header cannot overlap, so when the first one has
      no closing delimiter no later one has either. */
  function BodyOf(config: string, name: string): (r: Option<string>)
    ensures r.Some? ==> |r.value| > 0
  {
    match FindFrom(config, BannerHeader(name), 0)
    case None => None
    case Some(q) =>
      var h := q + |BannerHeader(name)|;
      match FindFrom(config, Delimiter, h + 1)
      case None => None
      case Some(j) => Some(config[h..j])
  }

  /** The map built by the first loop of `_extract_banners` over `names`. */
  function CollectBanners(config: string, names: seq<string>): map<string, string>
    decreases |names|
  {
    if names == [] then map[]
    else
      var m := CollectBanners(config, names[..|names| - 1]);
      var n := names[|names| - 1];
      var b := BodyOf(config, n);
      if b.Some? then m[BannerKey(n) := Strip(b.value)] else m
  }

  lemma BannerKeyInjective(a: string, b: string)
    requires BannerKey(a) == BannerKey(b)
    ensures a == b
  {
    assert a == BannerKey(a)[7..];
  }

  /** The banner map holds exactly one key per declared name whose body was found. */
  lemma {:induction false} CollectBannersKeys(config: string, names: seq<string>, k: string)
    ensures k in CollectBanners(config, names) <==>
      exists n :: n in names && k == BannerKey(n) && BodyOf(config, n).Some?
    decreases |names|
  {
    if names != [] {
      var prefix := names[..|names| - 1];
      var last := names[|names| - 1];
      assert names == prefix + [last];
      CollectBannersKeys(config, prefix, k);
      var m := CollectBanners(config, prefix);
      if k in CollectBanners(config, names) {
        if k in m {
          var n :| n in prefix && k == BannerKey(n) && BodyOf(config, n).Some?;
          assert n in names;
        } else {
          assert last in names && k == BannerKey(last) && BodyOf(config, last).Some?;
        }
      }
      if exists n :: n in names && k == BannerKey(n) && BodyOf(config, n).Some? {
        var n :| n in names && k == BannerKey(n) && BodyOf(config, n).Some?;
        if n != last {
          assert n in prefix;
          assert k in m;
        }
      }
    }
  }

  /** Each found banner is stored with its stripped body, whatever the order of the names. */
  lemma {:induction false} CollectBannersValues(config: string, names: seq<string>, n: string)
    requires n in names && BodyOf(config, n).Some?
    ensures var r := CollectBanners(config, names);
      BannerKey(n) in r && r[BannerKey(n)] == Strip(BodyOf(config, n).value)
    decreases |names|
  {
    var prefix := names[..|names| - 1];
    var last := names[|names| - 1];
    assert names == prefix + [last];
    var m := CollectBanners(config, prefix);
    var b := BodyOf(config, last);
    assert CollectBanners(config, names) == if b.Some? then m[BannerKey(last) := Strip(b.value)] else m;
    if n != last {
      assert n in prefix;
      CollectBannersValues(config, prefix, n);
      if BannerKey(n) == BannerKey(last) {
        BannerKeyInjective(n, last);
      }
    }
  }

  /** The second loop of `_extract_banners`: each body found in the text as it
      stands is removed everywhere it occurs. */
  function RemoveBodies(config: string, names: seq<string>): string
    decreases |names|
  {
    if names == [] then config
    else
      var next := match BodyOf(config, names[0])
        case Some(b) => ReplaceAll(config, b, "")
        case None => config;
      RemoveBodies(next, names[1..])
  }

  /** Length of a match of `banner \w+ \^C\^C` at the start of `s`. */
  function EmptyBannerAt(s: string): (r: Option<nat>)
    ensures r.Some? ==> 0 < r.value <= |s|
  {
    if OccursAt(s, "banner ", 0) then
      var w := WordRun(s[7..]);
      if w > 0 && OccursAt(s, " " + Delimiter + Delimiter, 7 + w) then Some(7 + w + 5) else None
    else None
  }

  /** `re.sub(r"banner \w+ \^C\^C", "!! banner removed", s)`. */
  function ReplaceEmptyBanners(s: string): string
    decreases |s|
  {
    if s == [] then []
    else match EmptyBannerAt(s)
      case Some(n) => Placeholder + ReplaceEmptyBanners(s[n..])
      case None => [s[0]] + ReplaceEmptyBanners(s[1..])
  }

  /** `_extract_banners(config)`: the configuration with banner bodies taken out,
      and the banners found, keyed by `banner NAME`, with stripped bodies. */
  method ExtractBanners(config: string) returns (rest: string, banners: map<string, string>)
    ensures banners == CollectBanners(config, BannerNames(config))
    ensures rest == ReplaceEmptyBanners(RemoveBodies(config, BannerNames(config)))
  {
    var names := BannerNames(config);
    banners := CollectLoop(config, names);
    rest := RemoveLoop(config, names);
    rest := ReplaceEmptyBanners(rest);
  }

  /** The first loop of `_extract_banners`. */
  method CollectLoop(config: string, names: seq<string>) returns (banners: map<string, string>)
    ensures banners == CollectBanners(config, names)
  {
    banners := map[];
    var i := 0;
    while i < |names|
      invariant 0 <= i <= |names|
      invariant banners == CollectBanners(config, names[..i])
    {
      assert names[..i + 1][..i] == names[..i];
      match BodyOf(config, names[i]) {
        case Some(body) => banners := banners[BannerKey(names[i]) := Strip(body)];
        case None =>
      }
      i := i + 1;
    }
    assert names[..i] == names;
  }

  /** The second loop of `_extract_banners`. */
  method RemoveLoop(config: string, names: seq<string>) returns (rest: string)
    ensures rest == RemoveBodies(config, names)
  {
    rest := config;
    var i := 0;
    while i < |names|
      invariant 0 <= i <= |names|
      invariant RemoveBodies(config, names) == RemoveBodies(rest, names[i..])
    {
      assert names[i..][1..] == names[i + 1..];
      match BodyOf(rest, names[i]) {
        case Some(body) => rest := ReplaceAll(rest, body, "");
        case None =>
      }
      i := i + 1;
    }
  }

  // --------------------------------------------------------------- lemmas

  lemma {:induction false} NoNamesWithoutKeyword(s: string, p: nat)
    requires !Contains(s, "banner ")
    ensures BannerNamesFrom(s, p) == []
    decreases |s| - p
  {
    if p < |s| {
      if OccursAt(s, "banner ", p) {
        ContainsAt(s, "banner ", p);
      }
      NoNamesWithoutKeyword(s, p + 1);
    }
  }

  lemma {:induction false} NoEmptyBannersWithoutKeyword(s: string)
    requires !Contains(s, "banner ")
    ensures ReplaceEmptyBanners(s) == s
    decreases |s|
  {
    if s != [] {
      if OccursAt(s, "banner ", 0) {
        ContainsAt(s, "banner ", 0);
      }
      if Contains(s[1..], "banner ") {
        var i :| 0 <= i <= |s[1..]| && OccursAt(s[1..], "banner ", i);
        OccursInSuffix(s, "banner ", 1, i);
        ContainsAt(s, "banner ", 1 + i);
      }
      NoEmptyBannersWithoutKeyword(s[1..]);
    }
  }

  /** A configuration that never mentions `banner ` comes back unchanged with no banners. */
  lemma {:induction false} ExtractWithoutBanners(config: string)
    requires !Contains(config, "banner ")
    ensures BannerNames(config) == []
    ensures CollectBanners(config, BannerNames(config)) == map[]
    ensures ReplaceEmptyBanners(RemoveBodies(config, BannerNames(config))) == config
  {
    NoNamesWithoutKeyword(config, 0);
    NoEmptyBannersWithoutKeyword(config);
  }

  lemma {:induction false} WordRunOfName(name: string, rest: string)
    requires IsWord(name)
    requires rest == [] || !IsWordChar(rest[0])
    ensures WordRun(name + rest) == |name|
    decreases |name|
  {
    if |name| > 1 {
      assert (name + rest)[1..] == name[1..] + rest;
      WordRunOfName(name[1..], rest);
    } else {
      assert (name + rest)[1..] == rest;
    }
  }

  /** No declaration starts inside another one: the text a match covers holds
      no line break. */
  lemma NoDeclarationInsideMatch(s: string, p: nat, q: nat)
    requires BannerNameAt(s, p).Some?
    requires p < q < p + 7 + |BannerNameAt(s, p).value|
    ensures BannerNameAt(s, q).None?
  {
    var key := BannerKey(BannerNameAt(s, p).value);
    assert s[q - 1] == s[p..p + |key|][q - 1 - p] == key[q - 1 - p];
    assert !LineStart(s, q);
  }

  lemma {:induction false} DeclaredSkip(s: string, a: nat, b: nat)
    requires a <= b <= |s|
    requires forall q :: a <= q < b ==> BannerNameAt(s, q).None?
    ensures DeclaredFrom(s, a) == DeclaredFrom(s, b)
    decreases b - a
  {
    if a < b {
      assert BannerNameAt(s, a).None?;
      DeclaredSkip(s, a + 1, b);
    }
  }

  /** The `findall` scan loses nothing by resuming after each match: it
      returns every declaration, in the order of the text. */
  lemma {:induction false} BannerNamesAll(s: string, p: nat)
    ensures BannerNamesFrom(s, p) == DeclaredFrom(s, p)
    decreases |s| - p
  {
    if p < |s| {
      match BannerNameAt(s, p) {
        case Some(n) =>
          var e := p + 7 + |n|;
          forall q | p + 1 <= q < e ensures BannerNameAt(s, q).None? {
            NoDeclarationInsideMatch(s, p, q);
          }
          DeclaredSkip(s, p + 1, e);
          BannerNamesAll(s, e);
        case None =>
          BannerNamesAll(s, p + 1);
      }
    }
  }

  lemma DeclaredStep(s: string, p: nat)
    requires p < |s|
    ensures DeclaredFrom(s, p) ==
      (if BannerNameAt(s, p).Some? then [BannerNameAt(s, p).value] else []) + DeclaredFrom(s, p + 1)
  {
  }

  lemma {:induction false} DeclaredComplete(s: string, p: nat, q: nat, n: string)
    requires p <= q < |s| && BannerNameAt(s, q) == Some(n)
    ensures n in DeclaredFrom(s, p)
    decreases q - p
  {
    DeclaredStep(s, p);
    if p < q {
      DeclaredComplete(s, p + 1, q, n);
    }
  }

  lemma {:induction false} DeclaredSound(s: string, p: nat, n: string)
    requires n in DeclaredFrom(s, p)
    ensures exists q :: p <= q < |s| && BannerNameAt(s, q) == Some(n)
    decreases |s| - p
  {
    DeclaredStep(s, p);
    if BannerNameAt(s, p) != Some(n) {
      DeclaredSound(s, p + 1, n);
    }
  }

  /** A name is among the declared names exactly when some line declares it. */
  lemma BannerNamesComplete(s: string, n: string)
    ensures n in BannerNames(s) <==> exists q :: 0 <= q < |s| && BannerNameAt(s, q) == Some(n)
  {
    BannerNamesAll(s, 0);
    if n in BannerNames(s) {
      DeclaredSound(s, 0, n);
    }
    if exists q :: 0 <= q < |s| && BannerNameAt(s, q) == Some(n) {
      var q :| 0 <= q < |s| && BannerNameAt(s, q) == Some(n);
      DeclaredComplete(s, 0, q, n);
    }
  }

  /** The body is the text between the first `banner NAME ^C` and the first
      delimiter at least one character after it. */
  lemma BodyOfAt(config: string, name: string, q: nat, j: nat)
    requires OccursAt(config, BannerHeader(name), q)
    requires forall k :: 0 <= k < q ==> !OccursAt(config, BannerHeader(name), k)
    requires q + |BannerHeader(name)| + 1 <= j && OccursAt(config, Delimiter, j)
    requires forall k :: q + |BannerHeader(name)| + 1 <= k < j ==> !OccursAt(config, Delimiter, k)
    ensures BodyOf(config, name) == Some(config[q + |BannerHeader(name)|..j])
  {
    FindFromAt(config, BannerHeader(name), 0, q);
    FindFromAt(config, Delimiter, q + |BannerHeader(name)| + 1, j);
  }

  /** A body is found exactly when some header is followed, at least one
      character after it, by a delimiter. */
  lemma BodyOfFound(config: string, name: string)
    ensures BodyOf(config, name).Some? <==>
      exists q, j :: 0 <= q && q + |BannerHeader(name)| + 1 <= j
        && OccursAt(config, BannerHeader(name), q) && OccursAt(config, Delimiter, j)
  {
    var header := BannerHeader(name);
    FindFromFirst(config, header, 0);
    match FindFrom(config, header, 0) {
      case None =>
      case Some(q0) =>
        FindFromFirst(config, Delimiter, q0 + |header| + 1);
        match FindFrom(config, Delimiter, q0 + |header| + 1) {
          case Some(j0) =>
            assert OccursAt(config, header, q0) && OccursAt(config, Delimiter, j0);
          case None =>
            forall q, j | 0 <= q && q + |header| + 1 <= j && OccursAt(config, header, q)
              ensures !OccursAt(config, Delimiter, j)
            {
              assert q0 <= q;
            }
        }
    }
  }

  /** A document holding one banner, with the text `pre` before it and `post`
      after it. */
  function WithBanner(pre: string, name: string, body: string, post: string): string {
    pre + BannerHeader(name) + body + Delimiter + post
  }

  /** Text before a banner that ends a line and does not mention `banner `. */
  predicate QuietBefore(pre: string) {
    (pre == [] || pre[|pre| - 1] == '\n') && !Contains(pre, "banner ")
  }

  /** The document read as its consecutive pieces. */
  lemma WithBannerLayout(pre: string, name: string, body: string, post: string)
    ensures var config := WithBanner(pre, name, body, post);
      var start := |pre| + |BannerHeader(name)|;
      && config[..|pre|] == pre
      && config[|pre|..|pre| + 7] == "banner "
      && config[|pre| + 7..] == name + BannerTail(body, post)
      && config[|pre|..start] == BannerHeader(name)
      && config[start..start + |body|] == body
      && config[start + |body|..] == Delimiter + post
      && config[start + |body|..start + |body| + 2] == Delimiter
  {
    var header := BannerHeader(name);
    var config := WithBanner(pre, name, body, post);
    assert config == pre + (header + (body + (Delimiter + post)));
    assert header == "banner " + name + (" " + Delimiter);
  }

  /** What follows the name in a banner document. */
  function BannerTail(body: string, post: string): string {
    " " + Delimiter + (body + Delimiter + post)
  }

  lemma TailQuiet(body: string, post: string)
    requires !Contains(body, "banner ") && !Contains(post, "banner ")
    ensures !Contains(BannerTail(body, post), "banner ")
  {
    NoOccurrenceAcross(body, Delimiter, post, "banner ");
    NoOccurrenceAcross(" ", Delimiter, body + Delimiter + post, "banner ");
  }

  /** No declaration starts inside a quiet prefix. */
  lemma NoDeclarationBefore(config: string, pre: string, q: nat)
    requires QuietBefore(pre) && |pre| <= |config| && config[..|pre|] == pre
    requires q < |pre|
    ensures BannerNameAt(config, q).None?
  {
    assert config == pre + config[|pre|..];
    NoOccurrenceFromLine(pre, config[|pre|..], "banner ", q);
  }

  /** No declaration starts inside a suffix that never mentions `banner `. */
  lemma NoDeclarationAfter(config: string, d: nat, q: nat)
    requires d <= q < |config| && !Contains(config[d..], "banner ")
    ensures BannerNameAt(config, q).None?
  {
    if q + 7 <= |config| {
      assert config[q..q + 7] == config[d..][q - d..q - d + 7];
      assert !OccursAt(config[d..], "banner ", q - d);
    }
  }

  /** A line starting with `banner NAME` followed by a non-word character
      declares `NAME`. */
  lemma DeclarationAt(config: string, p: nat, name: string, tail: string)
    requires LineStart(config, p) && IsWord(name) && (tail == [] || !IsWordChar(tail[0]))
    requires p + 7 <= |config| && config[p..p + 7] == "banner " && config[p + 7..] == name + tail
    ensures BannerNameAt(config, p) == Some(name)
  {
    WordRunOfName(name, tail);
    assert config[p + 7..][..|name|] == name;
  }

  /** A document whose only declaration follows a quiet prefix declares that
      name and nothing else. */
  lemma OneDeclaration(config: string, pre: string, name: string, tail: string)
    requires IsWord(name) && QuietBefore(pre) && !Contains(tail, "banner ")
    requires tail == [] || !IsWordChar(tail[0])
    requires |pre| + 7 <= |config| && config[..|pre|] == pre
    requires config[|pre|..|pre| + 7] == "banner " && config[|pre| + 7..] == name + tail
    ensures BannerNames(config) == [name]
  {
    var d := |pre| + 7 + |name|;
    forall q | 0 <= q < |pre| ensures BannerNameAt(config, q).None? {
      NoDeclarationBefore(config, pre, q);
    }
    assert LineStart(config, |pre|) by {
      if pre != [] { assert config[|pre| - 1] == config[..|pre|][|pre| - 1]; }
    }
    DeclarationAt(config, |pre|, name, tail);
    forall q | |pre| + 1 <= q < d ensures BannerNameAt(config, q).None? {
      NoDeclarationInsideMatch(config, |pre|, q);
    }
    assert config[d..] == config[|pre| + 7..][|name|..] == tail;
    forall q | d <= q < |config| ensures BannerNameAt(config, q).None? {
      NoDeclarationAfter(config, d, q);
    }
    BannerNamesAll(config, 0);
    DeclaredSkip(config, 0, |pre|);
    DeclaredSkip(config, |pre| + 1, d);
    DeclaredSkip(config, d, |config|);
  }

  /** No header starts inside a quiet prefix. */
  lemma NoHeaderBefore(config: string, pre: string, name: string, k: nat)
    requires QuietBefore(pre) && |pre| <= |config| && config[..|pre|] == pre
    requires k < |pre|
    ensures !OccursAt(config, BannerHeader(name), k)
  {
    assert config == pre + config[|pre|..];
    NoOccurrenceFromLine(pre, config[|pre|..], "banner ", k);
    assert BannerHeader(name) == "banner " + (name + " " + Delimiter);
    OccursPrefixOf(config, "banner ", name + " " + Delimiter, k);
  }

  /** Between a body free of delimiters and the delimiter after it, no
      delimiter starts. */
  lemma NoDelimiterInBody(config: string, start: nat, body: string, k: nat)
    requires start + |body| + 2 <= |config|
    requires config[start..start + |body|] == body && config[start + |body|..start + |body| + 2] == Delimiter
    requires !Contains(body, Delimiter)
    requires start <= k < start + |body|
    ensures !OccursAt(config, Delimiter, k)
  {
    var end := start + |body|;
    if k + 2 <= end {
      assert config[k..k + 2] == body[k - start..k - start + 2];
      assert !OccursAt(body, Delimiter, k - start);
    } else {
      assert config[end] == config[end..end + 2][0] == '^';
      assert config[k..k + 2][1] == config[end];
    }
  }

  /** A header after a quiet prefix, a body free of delimiters and a
      delimiter: the body is found where it stands. */
  lemma BodyAfterQuiet(config: string, pre: string, name: string, body: string)
    requires QuietBefore(pre) && |body| > 0 && !Contains(body, Delimiter)
    requires |pre| + |BannerHeader(name)| + |body| + 2 <= |config|
    requires config[..|pre|] == pre
    requires config[|pre|..|pre| + |BannerHeader(name)|] == BannerHeader(name)
    requires var start := |pre| + |BannerHeader(name)|;
      config[start..start + |body|] == body && config[start + |body|..start + |body| + 2] == Delimiter
    ensures BodyOf(config, name) == Some(body)
  {
    var start := |pre| + |BannerHeader(name)|;
    var end := start + |body|;
    forall k | 0 <= k < |pre| ensures !OccursAt(config, BannerHeader(name), k) {
      NoHeaderBefore(config, pre, name, k);
    }
    forall k | start + 1 <= k < end ensures !OccursAt(config, Delimiter, k) {
      NoDelimiterInBody(config, start, body, k);
    }
    BodyOfAt(config, name, |pre|, end);
  }

  /** Text that ends a line and never mentions `banner ` passes through the
      placeholder rewrite unchanged, whatever follows it. */
  lemma {:induction false} ReplaceEmptyAfterQuiet(pre: string, rest: string)
    requires QuietBefore(pre)
    ensures ReplaceEmptyBanners(pre + rest) == pre + ReplaceEmptyBanners(rest)
    decreases |pre|
  {
    if pre != [] {
      var s := pre + rest;
      NoOccurrenceFromLine(pre, rest, "banner ", 0);
      assert ReplaceEmptyBanners(s) == [pre[0]] + ReplaceEmptyBanners(s[1..]);
      QuietTail(pre);
      assert s[1..] == pre[1..] + rest;
      ReplaceEmptyAfterQuiet(pre[1..], rest);
      StringConsAssoc(pre, ReplaceEmptyBanners(rest));
    } else {
      assert pre + rest == rest;
      assert pre + ReplaceEmptyBanners(rest) == ReplaceEmptyBanners(rest);
    }
  }

  lemma QuietTail(pre: string)
    requires pre != [] && QuietBefore(pre)
    ensures QuietBefore(pre[1..])
  {
    forall i | 0 <= i <= |pre| - 1 ensures !OccursAt(pre[1..], "banner ", i) {
      if i + 7 <= |pre| - 1 {
        assert pre[1..][i..i + 7] == pre[1 + i..1 + i + 7];
        assert !OccursAt(pre, "banner ", 1 + i);
      }
    }
    assert pre[1..] == [] || pre[1..][|pre[1..]| - 1] == pre[|pre| - 1];
  }

  lemma StringConsAssoc(a: string, b: string)
    requires a != []
    ensures [a[0]] + (a[1..] + b) == a + b
  {
  }

  /** An emptied declaration collapses to the placeholder. */
  lemma EmptyDeclarationCollapses(name: string, post: string)
    requires IsWord(name) && !Contains(post, "banner ")
    ensures ReplaceEmptyBanners(BannerHeader(name) + Delimiter + post) == Placeholder + post
  {
    var emptied := BannerHeader(name) + Delimiter;
    var s := emptied + post;
    assert s[7..] == name + (" " + Delimiter + Delimiter + post);
    WordRunOfName(name, " " + Delimiter + Delimiter + post);
    assert s[7 + |name|..|emptied|] == " " + Delimiter + Delimiter;
    assert EmptyBannerAt(s) == Some(|emptied|);
    assert s[|emptied|..] == post;
    NoEmptyBannersWithoutKeyword(post);
  }

  /** One well-formed banner amid text that never mentions `banner ` (the text
      before it ending a line): the banner is found under its key with its
      stripped body, and the document comes back with the declaration
      collapsed to the placeholder and nothing else changed. `body` must not contain the delimiter or another declaration,
      and must occur in the document only where it stands, since
      `_extract_banners` removes every occurrence of the body text. */
  lemma ExtractSingleBanner(pre: string, name: string, body: string, post: string)
    requires IsWord(name) && |body| > 0
    requires !Contains(body, Delimiter) && !Contains(body, "banner ")
    requires QuietBefore(pre) && !Contains(post, "banner ")
    requires forall i :: 0 <= i && OccursAt(WithBanner(pre, name, body, post), body, i) ==>
      i == |pre| + |BannerHeader(name)|
    ensures var config := WithBanner(pre, name, body, post);
      BannerNames(config) == [name]
      && CollectBanners(config, BannerNames(config)) == map[BannerKey(name) := Strip(body)]
      && ReplaceEmptyBanners(RemoveBodies(config, BannerNames(config))) == pre + Placeholder + post
  {
    var config := WithBanner(pre, name, body, post);
    WithBannerNames(pre, name, body, post);
    WithBannerBody(pre, name, body, post);
    CollectOne(config, name, body);
    WithBannerRemoved(pre, name, body, post);
    EmptiedCollapses(pre, name, post);
  }

  lemma WithBannerNames(pre: string, name: string, body: string, post: string)
    requires IsWord(name) && QuietBefore(pre)
    requires !Contains(body, "banner ") && !Contains(post, "banner ")
    ensures BannerNames(WithBanner(pre, name, body, post)) == [name]
  {
    WithBannerLayout(pre, name, body, post);
    TailQuiet(body, post);
    OneDeclaration(WithBanner(pre, name, body, post), pre, name, BannerTail(body, post));
  }

  lemma WithBannerBody(pre: string, name: string, body: string, post: string)
    requires QuietBefore(pre) && |body| > 0 && !Contains(body, Delimiter)
    ensures BodyOf(WithBanner(pre, name, body, post), name) == Some(body)
  {
    WithBannerLayout(pre, name, body, post);
    BodyAfterQuiet(WithBanner(pre, name, body, post), pre, name, body);
  }

  lemma WithBannerRemoved(pre: string, name: string, body: string, post: string)
    requires |body| > 0 && BodyOf(WithBanner(pre, name, body, post), name) == Some(body)
    requires forall i :: 0 <= i && OccursAt(WithBanner(pre, name, body, post), body, i) ==>
      i == |pre| + |BannerHeader(name)|
    ensures RemoveBodies(WithBanner(pre, name, body, post), [name])
      == pre + (BannerHeader(name) + (Delimiter + post))
  {
    var config := WithBanner(pre, name, body, post);
    var start := |pre| + |BannerHeader(name)|;
    WithBannerBodyAt(pre, name, body, post);
    RemoveOneBody(config, name, body, start);
    WithBannerEmptied(pre, name, body, post);
  }

  lemma WithBannerBodyAt(pre: string, name: string, body: string, post: string)
    ensures var start := |pre| + |BannerHeader(name)|;
      WithBanner(pre, name, body, post)[start..start + |body|] == body
  {
    WithBannerLayout(pre, name, body, post);
  }

  /** Cutting the body out of the document leaves the emptied declaration. */
  lemma WithBannerEmptied(pre: string, name: string, body: string, post: string)
    ensures var config := WithBanner(pre, name, body, post);
      var start := |pre| + |BannerHeader(name)|;
      config[..start] + "" + config[start + |body|..] == pre + (BannerHeader(name) + (Delimiter + post))
  {
    var start := |pre| + |BannerHeader(name)|;
    WithBannerLayout(pre, name, body, post);
    EmptiedParts(WithBanner(pre, name, body, post), pre, BannerHeader(name), start + |body|, Delimiter + post);
  }

  lemma CollectOne(config: string, name: string, body: string)
    requires BannerNames(config) == [name] && BodyOf(config, name) == Some(body)
    ensures CollectBanners(config, BannerNames(config)) == map[BannerKey(name) := Strip(body)]
  {
    assert [name][..0] == [];
  }

  /** A body found once is cut out of the text where it stands. */
  lemma RemoveOneBody(config: string, name: string, body: string, start: nat)
    requires |body| > 0 && BodyOf(config, name) == Some(body)
    requires start + |body| <= |config| && config[start..start + |body|] == body
    requires forall i :: 0 <= i && OccursAt(config, body, i) ==> i == start
    ensures RemoveBodies(config, [name]) == config[..start] + "" + config[start + |body|..]
  {
    ReplaceAllUnique(config, body, "", start);
    assert [name][1..] == [];
  }

  lemma EmptiedParts(config: string, pre: string, header: string, k: nat, rest: string)
    requires |pre| + |header| <= k <= |config|
    requires config[..|pre|] == pre && config[|pre|..|pre| + |header|] == header && config[k..] == rest
    ensures config[..|pre| + |header|] + "" + config[k..] == pre + (header + rest)
  {
    assert config[..|pre| + |header|] == pre + header;
  }

  /** After a quiet prefix, the emptied declaration collapses to the
      placeholder and the rest is left alone. */
  lemma EmptiedCollapses(pre: string, name: string, post: string)
    requires IsWord(name) && QuietBefore(pre) && !Contains(post, "banner ")
    ensures ReplaceEmptyBanners(pre + (BannerHeader(name) + (Delimiter + post))) == pre + Placeholder + post
  {
    var emptied := BannerHeader(name) + Delimiter + post;
    assert BannerHeader(name) + (Delimiter + post) == emptied;
    ReplaceEmptyAfterQuiet(pre, emptied);
    EmptyDeclarationCollapses(name, post);
    assert pre + (Placeholder + post) == pre + Placeholder + post;
  }

  // ------------------------------------------------------------ diffing

  /** The banners of `want` whose body differs from `have`'s (a banner missing
      from `have` counts as differing), with `want`'s body. */
  function ChangedBanners(want: map<string, string>, have: map<string, string>): map<string, string> {
    map k | k in want && (k !in have || have[k] != want[k]) :: want[k]
  }

  /** `_diff_banners(want, have)`. */
  method DiffBanners(want: map<string, string>, have: map<string, string>) returns (candidate: map<string, string>)
    ensures forall k :: k in candidate <==> k in want && (k !in have || have[k] != want[k])
    ensures forall k :: k in candidate ==> candidate[k] == want[k]
    ensures candidate == ChangedBanners(want, have)
  {
    candidate := map[];
    var keys := want.Keys;
    while keys != {}
      invariant keys <= want.Keys
      invariant forall k :: k in candidate <==> k in want && k !in keys && (k !in have || have[k] != want[k])
      invariant forall k :: k in candidate ==> candidate[k] == want[k]
      decreases keys
    {
      var k :| k in keys;
      if k !in have || want[k] != have[k] {
        candidate := candidate[k := want[k]];
      }
      keys := keys - {k};
    }
  }

  /** Comparing a banner map with itself finds nothing to change. */
  lemma ChangedBannersOfSelf(banners: map<string, string>)
    ensures ChangedBanners(banners, banners) == map[]
  {
    assert ChangedBanners(banners, banners).Keys == {};
  }

  /** Against no current banners every wanted banner is reported. */
  lemma ChangedBannersAgainstNone(want: map<string, string>)
    ensures ChangedBanners(want, map[]) == want
  {
  }

  /** Once the reported banners are applied, comparing again finds nothing. */
  lemma ChangedBannersConverge(want: map<string, string>, have: map<string, string>)
    ensures ChangedBanners(want, have + ChangedBanners(want, have)) == map[]
  {
    var applied := have + ChangedBanners(want, have);
    forall k | k in want ensures k in applied && applied[k] == want[k] {
    }
    assert ChangedBanners(want, applied).Keys == {};
  }
}
