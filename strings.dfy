/** The Python string operations the plugin relies on (`in`, `startswith`,
    `strip`, `rstrip`, `split`, `splitlines`, `replace`, `join`, integer
    formatting), written out over `seq<char>` with the properties the rest of
    the model uses. */
module Strings {

  import opened Common

  /** Python's `str.isspace` for a single character (also the `\s` class of `re`). */
  predicate IsSpace(c: char) {
    c == ' ' || ('\t' <= c <= '\r') || ('\U{1c}' <= c <= '\U{1f}')
    || c == '\U{85}' || c == '\U{a0}' || c == '\U{1680}'
    || ('\U{2000}' <= c <= '\U{200a}') || c == '\U{2028}' || c == '\U{2029}'
    || c == '\U{202f}' || c == '\U{205f}' || c == '\U{3000}'
  }

  /** The line boundaries of Python's `str.splitlines`. */
  predicate IsLineBreak(c: char) {
    ('\n' <= c <= '\r') || ('\U{1c}' <= c <= '\U{1e}')
    || c == '\U{85}' || c == '\U{2028}' || c == '\U{2029}'
  }

  /** The `\w` class of `re`, restricted to ASCII. */
  predicate IsWordChar(c: char) {
    ('a' <= c <= 'z') || ('A' <= c <= 'Z') || ('0' <= c <= '9') || c == '_'
  }

  predicate NoLineBreak(s: string) {
    forall i :: 0 <= i < |s| ==> !IsLineBreak(s[i])
  }

  predicate IsToken(s: string) {
    s != [] && forall i :: 0 <= i < |s| ==> !IsSpace(s[i])
  }

  predicate IsWord(s: string) {
    s != [] && forall i :: 0 <= i < |s| ==> IsWordChar(s[i])
  }

  // ---------------------------------------------------------------- search

  /** `t` occurs in `s` starting at index `i`. */
  predicate OccursAt(s: string, t: string, i: int) {
    0 <= i && i + |t| <= |s| && s[i..i + |t|] == t
  }

  /** Python's `t in s` for strings. */
  predicate Contains(s: string, t: string) {
    exists i | 0 <= i <= |s| :: OccursAt(s, t, i)
  }

  /** Python's `s.find(t, from)`: the first occurrence of `t` at or after `from`. */
  function FindFrom(s: string, t: string, from: nat): (r: Option<nat>)
    decreases |s| - from
    ensures r.Some? ==> from <= r.value && OccursAt(s, t, r.value)
  {
    if from + |t| > |s| then None
    else if s[from..from + |t|] == t then Some(from)
    else FindFrom(s, t, from + 1)
  }

  /** `FindFrom` returns the first occurrence at or after `from`, and none exactly
      when there is none. */
  lemma {:induction false} FindFromFirst(s: string, t: string, from: nat)
    ensures var r := FindFrom(s, t, from);
      && (r.Some? ==> forall j :: from <= j < r.value ==> !OccursAt(s, t, j))
      && (r.None? ==> forall j :: from <= j ==> !OccursAt(s, t, j))
    decreases |s| - from
  {
    if from + |t| <= |s| && s[from..from + |t|] != t {
      FindFromFirst(s, t, from + 1);
    }
  }

  /** The first occurrence at or after `from` is the one `FindFrom` reports. */
  lemma FindFromAt(s: string, t: string, from: nat, k: nat)
    requires from <= k && OccursAt(s, t, k)
    requires forall j :: from <= j < k ==> !OccursAt(s, t, j)
    ensures FindFrom(s, t, from) == Some(k)
  {
    FindFromFirst(s, t, from);
  }

  /** An occurrence in a suffix is an occurrence in the whole string. */
  lemma OccursInSuffix(s: string, t: string, d: nat, i: int)
    requires d <= |s| && OccursAt(s[d..], t, i)
    ensures OccursAt(s, t, d + i)
  {
    assert s[d..][i..i + |t|] == s[d + i..d + i + |t|];
  }

  lemma ContainsAt(s: string, t: string, i: int)
    requires OccursAt(s, t, i)
    ensures Contains(s, t)
  {
  }

  /** Text found in a string is still found once more text is added on either side. */
  lemma ContainsExtended(a: string, s: string, b: string, t: string)
    requires Contains(s, t)
    ensures Contains(a + s + b, t)
  {
    var i :| 0 <= i <= |s| && OccursAt(s, t, i);
    assert (a + s + b)[|a| + i..|a| + i + |t|] == s[i..i + |t|];
    assert OccursAt(a + s + b, t, |a| + i);
  }

  /** Text found in a string is found in every extension of it. */
  lemma ContainsInLonger(s: string, longer: string, t: string)
    requires Contains(s, t) && s <= longer
    ensures Contains(longer, t)
  {
    var i :| 0 <= i <= |s| && OccursAt(s, t, i);
    assert longer[i..i + |t|] == s[i..i + |t|];
    assert OccursAt(longer, t, i);
  }

  /** Text found in a string is found after anything is put in front of it. */
  lemma ContainsAfter(a: string, s: string, t: string)
    requires Contains(s, t)
    ensures Contains(a + s, t)
  {
    var i :| 0 <= i <= |s| && OccursAt(s, t, i);
    assert (a + s)[|a| + i..|a| + i + |t|] == s[i..i + |t|];
    assert OccursAt(a + s, t, |a| + i);
  }

  /** Containment is transitive. */
  lemma ContainsTrans(s: string, m: string, t: string)
    requires Contains(s, m) && Contains(m, t)
    ensures Contains(s, t)
  {
    var i :| 0 <= i <= |s| && OccursAt(s, m, i);
    var j :| 0 <= j <= |m| && OccursAt(m, t, j);
    forall k | 0 <= k < |t| ensures s[i + j + k] == t[k] {
      assert s[i + j + k] == s[i..i + |m|][j + k] == m[j + k];
      assert m[j + k] == m[j..j + |t|][k];
    }
    assert OccursAt(s, t, i + j);
  }

  /** Every string contains itself. */
  lemma ContainsSelf(s: string)
    ensures Contains(s, s)
  {
    assert OccursAt(s, s, 0);
  }

  /** Where `u + v` occurs, `u` occurs. */
  lemma OccursPrefixOf(s: string, u: string, v: string, k: int)
    ensures OccursAt(s, u + v, k) ==> OccursAt(s, u, k)
  {
    if OccursAt(s, u + v, k) {
      assert s[k..k + |u|] == s[k..k + |u + v|][..|u|];
    }
  }

  /** `t` cannot straddle a separator none of whose characters it uses: it is
      found in `a + sep + b` only if it is found in `a` or in `b`. */
  lemma NoOccurrenceAcross(a: string, sep: string, b: string, t: string)
    requires sep != [] && t != []
    requires !Contains(a, t) && !Contains(b, t)
    requires forall i, j :: 0 <= i < |sep| && 0 <= j < |t| ==> sep[i] != t[j]
    ensures !Contains(a + sep + b, t)
  {
    var s := a + sep + b;
    forall i | 0 <= i <= |s| ensures !OccursAt(s, t, i) {
      if i + |t| > |s| {
      } else if i + |t| <= |a| {
        assert s[i..i + |t|] == a[i..i + |t|];
        assert !OccursAt(a, t, i);
      } else if i >= |a| + |sep| {
        var d := i - |a| - |sep|;
        assert s[i..i + |t|] == b[d..d + |t|];
        assert !OccursAt(b, t, d);
      } else {
        var m := if i >= |a| then i else |a|;
        assert s[m] == sep[m - |a|];
        assert s[i..i + |t|][m - i] != t[m - i];
      }
    }
  }

  /** In a text whose first part ends a line and does not contain `t`, no
      occurrence of a line-break-free `t` starts inside that first part. */
  lemma NoOccurrenceFromLine(pre: string, rest: string, t: string, i: int)
    requires (pre == [] || pre[|pre| - 1] == '\n') && !Contains(pre, t)
    requires forall k :: 0 <= k < |t| ==> t[k] != '\n'
    requires 0 <= i < |pre|
    ensures !OccursAt(pre + rest, t, i)
  {
    var s := pre + rest;
    if i + |t| > |s| {
    } else if i + |t| <= |pre| {
      assert s[i..i + |t|] == pre[i..i + |t|];
      assert !OccursAt(pre, t, i);
    } else {
      assert s[|pre| - 1] == '\n';
      assert s[i..i + |t|][|pre| - 1 - i] != t[|pre| - 1 - i];
    }
  }

  /** Where `^` matches in multi-line mode. */
  predicate LineStart(s: string, p: int) {
    p == 0 || (0 < p <= |s| && s[p - 1] == '\n')
  }

  // ------------------------------------------------------------- stripping

  /** Number of leading whitespace characters. */
  function LeadingSpaces(s: string): (n: nat)
    ensures n <= |s|
    ensures forall i :: 0 <= i < n ==> IsSpace(s[i])
    ensures n == |s| || !IsSpace(s[n])
  {
    if s != [] && IsSpace(s[0]) then 1 + LeadingSpaces(s[1..]) else 0
  }

  /** Index where the trailing whitespace of `s` begins. */
  function TrailingStart(s: string): (m: nat)
    ensures m <= |s|
    ensures forall i :: m <= i < |s| ==> IsSpace(s[i])
    ensures m == 0 || !IsSpace(s[m - 1])
  {
    if s != [] && IsSpace(s[|s| - 1]) then TrailingStart(s[..|s| - 1]) else |s|
  }

  /** Python's `s.lstrip()`. */
  function LStrip(s: string): (r: string)
    ensures |r| <= |s| && r == s[|s| - |r|..]
    ensures forall i :: 0 <= i < |s| - |r| ==> IsSpace(s[i])
    ensures r == [] || !IsSpace(r[0])
  {
    s[LeadingSpaces(s)..]
  }

  /** Python's `s.rstrip()`. */
  function RStrip(s: string): (r: string)
    ensures |r| <= |s| && r == s[..|r|]
    ensures forall i :: |r| <= i < |s| ==> IsSpace(s[i])
    ensures r == [] || !IsSpace(r[|r| - 1])
  {
    s[..TrailingStart(s)]
  }

  /** Python's `s.strip()`: the result is a piece of `s` with no whitespace at either end. */
  function Strip(s: string): (r: string)
    ensures r == [] || (!IsSpace(r[0]) && !IsSpace(r[|r| - 1]))
  {
    RStrip(LStrip(s))
  }

  /** What `strip` returns is a piece of its argument. */
  lemma StripContained(s: string)
    ensures Contains(s, Strip(s))
  {
    var l := LStrip(s);
    var r := RStrip(l);
    assert OccursAt(s, r, |s| - |l|) by {
      assert s[|s| - |l|..][..|r|] == s[|s| - |l|..|s| - |l| + |r|];
    }
  }

  lemma {:induction false} StripOfStripped(s: string)
    requires s == [] || (!IsSpace(s[0]) && !IsSpace(s[|s| - 1]))
    ensures Strip(s) == s
  {
  }

  // ------------------------------------------------------------- replacing

  /** Python's `s.replace(pat, rep)` for a non-empty `pat`: every non-overlapping
      occurrence, scanning left to right. */
  function ReplaceAll(s: string, pat: string, rep: string): string
    requires |pat| > 0
    decreases |s|
  {
    if |s| < |pat| then s
    else if s[..|pat|] == pat then rep + ReplaceAll(s[|pat|..], pat, rep)
    else [s[0]] + ReplaceAll(s[1..], pat, rep)
  }

  /** Without an occurrence of `pat`, replacing changes nothing. */
  lemma {:induction false} ReplaceAllAbsent(s: string, pat: string, rep: string)
    requires |pat| > 0
    requires forall i :: 0 <= i ==> !OccursAt(s, pat, i)
    ensures ReplaceAll(s, pat, rep) == s
    decreases |s|
  {
    if |s| >= |pat| {
      assert !OccursAt(s, pat, 0);
      forall i | 0 <= i ensures !OccursAt(s[1..], pat, i) {
        if OccursAt(s[1..], pat, i) {
          OccursInSuffix(s, pat, 1, i);
        }
      }
      ReplaceAllAbsent(s[1..], pat, rep);
    }
  }

  /** When `pat` occurs in `s` exactly once, at `k`, replacing cuts out that occurrence. */
  lemma {:induction false} ReplaceAllUnique(s: string, pat: string, rep: string, k: nat)
    requires |pat| > 0
    requires OccursAt(s, pat, k)
    requires forall i :: 0 <= i && OccursAt(s, pat, i) ==> i == k
    ensures ReplaceAll(s, pat, rep) == s[..k] + rep + s[k + |pat|..]
    decreases k
  {
    if k == 0 {
      ReplaceAllUniqueHere(s, pat, rep);
    } else {
      var rest := s[1..];
      UniqueInTail(s, pat, k);
      ReplaceAllUnique(rest, pat, rep, k - 1);
      assert !OccursAt(s, pat, 0);
      ReplaceAllSkip(s, pat, rep);
      assert s[..k] == [s[0]] + rest[..k - 1];
      assert s[k + |pat|..] == rest[k - 1 + |pat|..];
    }
  }

  lemma ReplaceAllSkip(s: string, pat: string, rep: string)
    requires |pat| > 0 && |pat| <= |s| && !OccursAt(s, pat, 0)
    ensures ReplaceAll(s, pat, rep) == [s[0]] + ReplaceAll(s[1..], pat, rep)
  {
  }

  lemma ReplaceAllUniqueHere(s: string, pat: string, rep: string)
    requires |pat| > 0
    requires OccursAt(s, pat, 0)
    requires forall i :: 0 <= i && OccursAt(s, pat, i) ==> i == 0
    ensures ReplaceAll(s, pat, rep) == rep + s[|pat|..]
  {
    var rest := s[|pat|..];
    forall i | 0 <= i ensures !OccursAt(rest, pat, i) {
      if OccursAt(rest, pat, i) {
        OccursInSuffix(s, pat, |pat|, i);
      }
    }
    ReplaceAllAbsent(rest, pat, rep);
  }

  lemma UniqueInTail(s: string, pat: string, k: nat)
    requires |pat| > 0 && k > 0
    requires OccursAt(s, pat, k)
    requires forall i :: 0 <= i && OccursAt(s, pat, i) ==> i == k
    ensures OccursAt(s[1..], pat, k - 1)
    ensures forall i :: 0 <= i && OccursAt(s[1..], pat, i) ==> i == k - 1
  {
    forall i | 0 <= i && OccursAt(s[1..], pat, i)
      ensures i == k - 1
    {
      OccursInSuffix(s, pat, 1, i);
    }
    assert s[1..][k - 1..k - 1 + |pat|] == s[k..k + |pat|];
  }

  // ------------------------------------------------------ joining, splitting

  /** Python's `sep.join(parts)`. */
  function Join(sep: string, parts: seq<string>): string
    decreases |parts|
  {
    if parts == [] then ""
    else if |parts| == 1 then parts[0]
    else parts[0] + sep + Join(sep, parts[1..])
  }

  /** Length of the longest prefix of `s` without whitespace. */
  function WordLen(s: string): (n: nat)
    ensures n <= |s|
    ensures forall i :: 0 <= i < n ==> !IsSpace(s[i])
    ensures n == |s| || IsSpace(s[n])
  {
    if s != [] && !IsSpace(s[0]) then 1 + WordLen(s[1..]) else 0
  }

  /** Python's `s.split()`: the maximal runs of non-whitespace, in order. */
  function Split(s: string): (r: seq<string>)
    decreases |s|
    ensures forall i :: 0 <= i < |r| ==> IsToken(r[i])
  {
    if s == [] then []
    else if IsSpace(s[0]) then Split(s[1..])
    else
      var w := WordLen(s);
      [s[..w]] + Split(s[w..])
  }

  lemma {:induction false} WordLenBeforeSpace(a: string, c: char, b: string)
    requires IsSpace(c)
    ensures WordLen(a + [c] + b) == WordLen(a)
  {
    if a != [] {
      assert (a + [c] + b)[1..] == a[1..] + [c] + b;
      WordLenBeforeSpace(a[1..], c, b);
    }
  }

  /** A whitespace character separates the tokens on its two sides. */
  lemma {:induction false} SplitAtSpace(a: string, c: char, b: string)
    requires IsSpace(c)
    ensures Split(a + [c] + b) == Split(a) + Split(b)
    decreases |a|, 1
  {
    var s := a + [c] + b;
    if a == [] {
      assert s[1..] == b;
    } else if IsSpace(a[0]) {
      assert s[1..] == a[1..] + [c] + b;
      SplitAtSpace(a[1..], c, b);
    } else {
      SplitAtSpaceAfterWord(a, c, b);
    }
  }

  lemma {:induction false} SplitAtSpaceAfterWord(a: string, c: char, b: string)
    requires IsSpace(c) && a != [] && !IsSpace(a[0])
    ensures Split(a + [c] + b) == Split(a) + Split(b)
    decreases |a|, 0
  {
    var s := a + [c] + b;
    WordLenBeforeSpace(a, c, b);
    var w := WordLen(a);
    assert s[..w] == a[..w];
    assert s[w..] == a[w..] + [c] + b;
    SplitAtSpace(a[w..], c, b);
    var head := [a[..w]];
    assert Split(s) == head + Split(s[w..]);
    assert Split(a) == head + Split(a[w..]);
    assert head + (Split(a[w..]) + Split(b)) == (head + Split(a[w..])) + Split(b);
  }

  lemma {:induction false} WordLenOfToken(t: string)
    requires forall i :: 0 <= i < |t| ==> !IsSpace(t[i])
    ensures WordLen(t) == |t|
    decreases |t|
  {
    if t != [] {
      WordLenOfToken(t[1..]);
    }
  }

  lemma {:induction false} SplitToken(t: string)
    requires IsToken(t)
    ensures Split(t) == [t]
  {
    WordLenOfToken(t);
    assert t[..|t|] == t;
    assert t[|t|..] == [];
  }

  lemma {:induction false} SplitAllSpace(s: string)
    requires forall i :: 0 <= i < |s| ==> IsSpace(s[i])
    ensures Split(s) == []
    decreases |s|
  {
    if s != [] {
      SplitAllSpace(s[1..]);
    }
  }

  lemma {:induction false} SplitLeadingSpace(s: string, n: nat)
    requires n <= |s|
    requires forall i :: 0 <= i < n ==> IsSpace(s[i])
    ensures Split(s) == Split(s[n..])
    decreases n
  {
    if n > 0 {
      assert s[1..][n - 1..] == s[n..];
      SplitLeadingSpace(s[1..], n - 1);
    }
  }

  lemma {:induction false} SplitTrailingSpace(s: string, m: nat)
    requires m <= |s|
    requires forall i :: m <= i < |s| ==> IsSpace(s[i])
    ensures Split(s) == Split(s[..m])
  {
    if m < |s| {
      var tail := s[m + 1..];
      assert s == s[..m] + [s[m]] + tail;
      SplitAtSpace(s[..m], s[m], tail);
      SplitAllSpace(tail);
      assert Split(s) == Split(s[..m]) + [];
    } else {
      assert s[..m] == s;
    }
  }

  /** Stripping never changes the tokens. */
  lemma {:induction false} SplitStrip(s: string)
    ensures Split(Strip(s)) == Split(s)
  {
    var l := LStrip(s);
    SplitLeadingSpace(s, |s| - |l|);
    var r := RStrip(l);
    SplitTrailingSpace(l, |r|);
  }

  /** A word followed by a blank splits off as the first word. */
  lemma SplitAfterWord(w: string, s: string)
    requires IsToken(w)
    ensures Split(w + " " + s) == [w] + Split(s)
  {
    assert w + " " + s == w + [' '] + s;
    SplitAtSpace(w, ' ', s);
    SplitToken(w);
  }

  /** Joining tokens with single spaces and splitting again gives the tokens back. */
  lemma {:induction false} SplitJoin(tokens: seq<string>)
    requires forall i :: 0 <= i < |tokens| ==> IsToken(tokens[i])
    ensures Split(Join(" ", tokens)) == tokens
    decreases |tokens|
  {
    if |tokens| == 1 {
      SplitToken(tokens[0]);
    } else if |tokens| > 1 {
      assert Join(" ", tokens) == tokens[0] + [' '] + Join(" ", tokens[1..]);
      SplitAtSpace(tokens[0], ' ', Join(" ", tokens[1..]));
      SplitToken(tokens[0]);
      SplitJoin(tokens[1..]);
    }
  }

  /** Length of the longest prefix of `s` without a line boundary. */
  function LineLen(s: string): (n: nat)
    ensures n <= |s|
    ensures forall i :: 0 <= i < n ==> !IsLineBreak(s[i])
    ensures n == |s| || IsLineBreak(s[n])
  {
    if s != [] && !IsLineBreak(s[0]) then 1 + LineLen(s[1..]) else 0
  }

  /** Python's `s.splitlines()`: `\r\n` counts as one boundary and a final
      boundary does not start an empty last line. */
  function SplitLines(s: string): (r: seq<string>)
    decreases |s|
    ensures forall i :: 0 <= i < |r| ==> NoLineBreak(r[i])
  {
    if s == [] then []
    else
      var i := LineLen(s);
      if i == |s| then [s]
      else
        var next := if s[i] == '\r' && i + 1 < |s| && s[i + 1] == '\n' then i + 2 else i + 1;
        [s[..i]] + SplitLines(s[next..])
  }

  lemma {:induction false} LineLenBeforeBreak(a: string, b: string)
    requires NoLineBreak(a)
    ensures LineLen(a + "\n" + b) == |a|
    decreases |a|
  {
    if a != [] {
      assert (a + "\n" + b)[1..] == a[1..] + "\n" + b;
      LineLenBeforeBreak(a[1..], b);
    }
  }

  /** A line followed by a newline is the first line, whatever follows. */
  lemma {:induction false} SplitLinesCons(a: string, b: string)
    requires NoLineBreak(a)
    ensures SplitLines(a + "\n" + b) == [a] + SplitLines(b)
  {
    var s := a + "\n" + b;
    LineLenBeforeBreak(a, b);
    assert s[..|a|] == a;
    assert s[|a|] == '\n';
    assert s[|a| + 1..] == b;
  }

  // ------------------------------------------------------ integer formatting

  function DigitChar(d: nat): (c: char)
    requires d < 10
    ensures '0' <= c <= '9'
  {
    (48 + d) as char
  }

  /** Python's `str(n)` for a natural number. */
  function NatToString(n: nat): (r: string)
    decreases n
    ensures r != []
    ensures forall i :: 0 <= i < |r| ==> '0' <= r[i] <= '9'
  {
    if n < 10 then [DigitChar(n)] else NatToString(n / 10) + [DigitChar(n % 10)]
  }

  /** Python's `str(i)` for any integer. */
  function IntToString(i: int): string {
    if i < 0 then "-" + NatToString(-i) else NatToString(i)
  }

  /** Decimal value of a string of digits. */
  function ParseDigits(s: string): nat
    requires forall i :: 0 <= i < |s| ==> '0' <= s[i] <= '9'
    decreases |s|
  {
    if s == [] then 0 else ParseDigits(s[..|s| - 1]) * 10 + (s[|s| - 1] as int - 48)
  }

  /** Python's `int(s)` on what `str` produces. */
  function ParseInt(s: string): int {
    if s != [] && s[0] == '-' && (forall i :: 1 <= i < |s| ==> '0' <= s[i] <= '9') then 0 - ParseDigits(s[1..]) as int
    else if forall i :: 0 <= i < |s| ==> '0' <= s[i] <= '9' then ParseDigits(s)
    else 0
  }

  lemma {:induction false} ParseNatToString(n: nat)
    ensures ParseDigits(NatToString(n)) == n
    decreases n
  {
    if n >= 10 {
      var r := NatToString(n);
      assert r[..|r| - 1] == NatToString(n / 10);
      ParseNatToString(n / 10);
    }
  }

  /** Formatting an integer and reading it back gives the same integer. */
  lemma {:induction false} ParseIntToString(i: int)
    ensures ParseInt(IntToString(i)) == i
  {
    if i < 0 {
      ParseNegative(-i);
    } else {
      ParseNonNegative(i);
    }
  }

  lemma ParseNonNegative(n: nat)
    ensures ParseInt(NatToString(n)) == n
  {
    var d := NatToString(n);
    assert d[0] != '-';
    ParseNatToString(n);
  }

  lemma ParseNegative(n: nat)
    ensures ParseInt("-" + NatToString(n)) == -(n as int)
  {
    var d := NatToString(n);
    var s := "-" + d;
    assert s[1..] == d;
    assert forall i :: 1 <= i < |s| ==> s[i] == d[i - 1];
    ParseNatToString(n);
  }
}
