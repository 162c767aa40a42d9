/**
 What the normalizer makes of a line, pattern by pattern. Between two plain parts, a special character of a pattern can
 only be found in the middle part, so that it is enough to try the few places where the middle part has it.
 */
module NormalForms {
  import opened Rewriting
  import opened EmailParser

  // What is written for what: the pattern and the symbol that takes its place.
  const PATTERNS: seq<(string, string)> := [
    ("_at_the_rate_", "@"), ("-at-the-rate-", "@"), (" at the rate ", "@"), ("attherate", "@"), ("(attherate)", "@"),
    ("(at)", "@"), ("[at]", "@"), (" at ", "@"), ("(@)", "@"),
    ("_dot_", "."), (" dot ", "."), ("(dot)", "."), ("[dot]", "."), (" period ", "."), ("period ", "."),
    ("(period)", "."),
    (" underscore ", "_"), ("underscore", "_"),
    (" gml ", " gmail "), (" gmai ", " gmail "), (" google mail ", " gmail "), (" gm ", " gmail "), ("gm ", "gmail"),
    (" @ ", "@"), (" . ", "."), (" .com", ".com")]

  // ---------- Plain text ----------

  // The characters by which patterns are recognised.
  predicate IsSpecial(c: char) {
    c == ' ' || c == '_' || c == '-' || c == '(' || c == ')' || c == '[' || c == ']' || c == '.'
  }

  ghost predicate NoSpecial(u: string) {
    forall c :: c in u ==> !IsSpecial(c)
  }

  // No special character, no capital letter, and none of the words that count without special characters around them.
  ghost predicate Plain(u: string) {
    && NoSpecial(u) && (forall c :: c in u ==> !IsUpper(c))
    && !Contains(u, "attherate") && !Contains(u, "underscore") && !Contains(u, "period") && !Contains(u, "gm")
  }

  // ---------- A pattern against a middle part between two plain parts ----------

  // With the pattern at an offset from the middle part, its kth character meets a different one there, or is a special
  // one outside.
  predicate Differs(m: string, pat: string, off: int, k: int)
    requires 0 <= k < |pat|
  {
    if 0 <= off + k < |m| then m[off + k] != pat[k] else IsSpecial(pat[k])
  }

  // One of its two first or two last characters does.
  predicate Clash(m: string, pat: string, off: int) {
    |pat| > 1 && (Differs(m, pat, off, 0) || Differs(m, pat, off, 1) || Differs(m, pat, off, |pat| - 2)
                  || Differs(m, pat, off, |pat| - 1))
  }

  // What the pattern has before the middle part is a word that a plain part does not contain.
  predicate Blocked(pat: string, off: int) {
    (off == -6 && pat == "period ") || (off == -2 && pat == "gm ")
  }

  // The special characters of the middle part are at its ends and at one place inside.
  predicate SpecialsAt(m: string, inner: nat) {
    forall k :: 0 <= k < |m| && IsSpecial(m[k]) ==> k == 0 || k == inner || k == |m| - 1
  }

  function Inner(m: string): nat {
    if |m| == 13 then 7 else 1
  }

  // Put with its special character, at place f, on place e of the middle part, the pattern does not fit.
  predicate MissesAt(m: string, pat: string, f: nat, e: int)
    requires f < |pat|
  {
    0 <= e < |m| ==> m[e] != pat[f] || Clash(m, pat, e - f) || Blocked(pat, e - f)
  }

  // A pattern with a special character at place f does not occur between plain parts with this middle part.
  predicate Misses(m: string, pat: string, f: nat) {
    && f < |pat| && IsSpecial(pat[f])
    && (pat[f] !in m || (SpecialsAt(m, Inner(m)) && MissesAt(m, pat, f, 0) && MissesAt(m, pat, f, Inner(m))
                         && MissesAt(m, pat, f, |m| - 1)))
  }

  // It occurs there, and first at the beginning of the middle part.
  predicate Meets(m: string, pat: string, f: nat) {
    f < |pat| <= |m| && IsSpecial(pat[f]) && m[..|pat|] == pat && forall e :: 0 <= e < f ==> m[e] != pat[f]
  }

  // A word without special characters meets a different character at every offset in [lo, hi) at which it touches the
  // middle part.
  predicate WordMissesAt(m: string, word: string, lo: int, hi: int)
    decreases hi - lo
  {
    lo >= hi || ((lo >= |m| || lo + |word| <= 0 || Clash(m, word, lo)) && WordMissesAt(m, word, lo + 1, hi))
  }

  lemma CharacterOf(u: string, m: string, t: string, k: int)
    requires 0 <= |u| + k < |u + m + t|
    ensures (u + m + t)[|u| + k] == if k < 0 then u[|u| + k] else if k < |m| then m[k] else t[k - |m|]
  {
  }

  lemma OutsideIsPlain(u: string, m: string, t: string, k: int)
    requires NoSpecial(u) && NoSpecial(t) && 0 <= |u| + k < |u + m + t| && (k < 0 || k >= |m|)
    ensures !IsSpecial((u + m + t)[|u| + k])
  {
    CharacterOf(u, m, t, k);
    if k < 0 {
      assert u[|u| + k] in u;
    } else {
      assert t[k - |m|] in t;
    }
  }

  lemma OccurrenceMatches(x: string, pat: string, j: int, f: nat)
    requires OccursAt(x, pat, j) && f < |pat|
    ensures x[j + f] == pat[f]
  {
    assert x[j..j + |pat|][f] == x[j + f];
  }

  lemma DiffersMeans(u: string, m: string, t: string, pat: string, off: int, k: int)
    requires NoSpecial(u) && NoSpecial(t) && 0 <= k < |pat| && Differs(m, pat, off, k)
    ensures !OccursAt(u + m + t, pat, |u| + off)
  {
    if OccursAt(u + m + t, pat, |u| + off) {
      OccurrenceMatches(u + m + t, pat, |u| + off, k);
      if 0 <= off + k < |m| {
        CharacterOf(u, m, t, off + k);
      } else {
        OutsideIsPlain(u, m, t, off + k);
      }
    }
  }

  lemma ClashMeans(u: string, m: string, t: string, pat: string, off: int)
    requires NoSpecial(u) && NoSpecial(t) && Clash(m, pat, off)
    ensures !OccursAt(u + m + t, pat, |u| + off)
  {
    var k :| 0 <= k < |pat| && Differs(m, pat, off, k);
    DiffersMeans(u, m, t, pat, off, k);
  }

  lemma BlockedMeans(u: string, m: string, t: string, pat: string, off: int)
    requires Plain(u) && Blocked(pat, off)
    ensures !OccursAt(u + m + t, pat, |u| + off)
  {
    var x, j, word := u + m + t, |u| + off, if off == -6 then "period" else "gm";
    if OccursAt(x, pat, j) {
      forall k | 0 <= k < |word|
        ensures u[j..j + |word|][k] == word[k]
      {
        OccurrenceMatches(x, pat, j, k);
        CharacterOf(u, m, t, off + k);
      }
      assert OccursAt(u, word, j);
      assert Contains(u, word);
    }
  }

  lemma MissesAtMeans(u: string, m: string, t: string, pat: string, f: nat, e: nat)
    requires Plain(u) && Plain(t) && f < |pat| && MissesAt(m, pat, f, e) && e < |m| && m[e] == pat[f]
    ensures !OccursAt(u + m + t, pat, |u| + e - f)
  {
    if Blocked(pat, e - f) {
      BlockedMeans(u, m, t, pat, e - f);
    } else {
      ClashMeans(u, m, t, pat, e - f);
    }
  }

  // Where an occurrence has its special character.
  lemma SpecialIsInMiddle(u: string, m: string, t: string, pat: string, f: nat, j: int)
    requires Plain(u) && Plain(t) && f < |pat| && IsSpecial(pat[f]) && OccursAt(u + m + t, pat, j)
    ensures 0 <= j + f - |u| < |m| && m[j + f - |u|] == pat[f]
  {
    OccurrenceMatches(u + m + t, pat, j, f);
    var k := j + f - |u|;
    CharacterOf(u, m, t, k);
    if k < 0 || k >= |m| {
      OutsideIsPlain(u, m, t, k);
    }
  }

  // ---------- Patterns that do not occur ----------

  lemma MissesMeansNone(u: string, m: string, t: string, pat: string, f: nat)
    requires Plain(u) && Plain(t) && Misses(m, pat, f)
    ensures !Contains(u + m + t, pat)
  {
    forall j
      ensures !OccursAt(u + m + t, pat, j)
    {
      if OccursAt(u + m + t, pat, j) {
        SpecialIsInMiddle(u, m, t, pat, f, j);
        MissesAtMeans(u, m, t, pat, f, j + f - |u|);
      }
    }
  }

  lemma OccursInFirst(u: string, rest: string, pat: string, j: int)
    requires j + |pat| <= |u|
    ensures OccursAt(u + rest, pat, j) ==> OccursAt(u, pat, j)
  {
    if 0 <= j {
      assert (u + rest)[j..j + |pat|] == u[j..j + |pat|];
    }
  }

  lemma OccursInLast(rest: string, t: string, pat: string, j: int)
    requires j >= |rest|
    ensures OccursAt(rest + t, pat, j) ==> OccursAt(t, pat, j - |rest|)
  {
    if j + |pat| <= |rest + t| {
      assert (rest + t)[j..j + |pat|] == t[j - |rest|..j - |rest| + |pat|];
    }
  }

  // An occurrence that does not touch the middle part is one in an outer part.
  lemma NotOutside(u: string, m: string, t: string, pat: string, j: int)
    requires !Contains(u, pat) && !Contains(t, pat)
    requires j + |pat| <= |u| || j >= |u| + |m|
    ensures !OccursAt(u + m + t, pat, j)
  {
    if j + |pat| <= |u| {
      assert u + m + t == u + (m + t);
      OccursInFirst(u, m + t, pat, j);
    } else {
      OccursInLast(u + m, t, pat, j);
    }
  }

  predicate IsWord(word: string) {
    word == "attherate" || word == "underscore"
  }

  // The outer characters of the middle part are not in the word, and some character of the word is not in the middle.
  lemma WordIsNowhere(u: string, m: string, t: string, word: string, c: char)
    requires !Contains(u, word) && !Contains(t, word)
    requires m != "" && m[0] !in word && m[|m| - 1] !in word && c in word && c !in m
    ensures !Contains(u + m + t, word)
  {
    var f :| 0 <= f < |word| && word[f] == c;
    forall j
      ensures !OccursAt(u + m + t, word, j)
    {
      var off := j - |u|;
      if off + |word| <= 0 || off >= |m| {
        NotOutside(u, m, t, word, j);
      } else if OccursAt(u + m + t, word, j) {
        TouchingWord(u, m, t, word, off, f);
      }
    }
  }

  // A word that touches the middle part has its first or its last character there, or lies inside.
  lemma TouchingWord(u: string, m: string, t: string, word: string, off: int, f: nat)
    requires m != "" && OccursAt(u + m + t, word, |u| + off) && -|word| < off < |m| && f < |word|
    ensures m[0] in word || m[|m| - 1] in word || word[f] in m
  {
    if off <= 0 {
      OccurrenceMatches(u + m + t, word, |u| + off, -off);
      CharacterOf(u, m, t, 0);
    } else if off + |word| >= |m| {
      OccurrenceMatches(u + m + t, word, |u| + off, |m| - 1 - off);
      CharacterOf(u, m, t, |m| - 1);
    } else {
      OccurrenceMatches(u + m + t, word, |u| + off, f);
      CharacterOf(u, m, t, off + f);
    }
  }

  lemma {:induction false} WordMissesAtMeans(u: string, m: string, t: string, word: string, lo: int, hi: int, k: int)
    requires Plain(u) && Plain(t) && WordMissesAt(m, word, lo, hi) && lo <= k < hi && -|word| < k < |m|
    ensures !OccursAt(u + m + t, word, |u| + k)
    decreases hi - lo
  {
    if lo < k {
      WordMissesAtMeans(u, m, t, word, lo + 1, hi, k);
    } else {
      ClashMeans(u, m, t, word, k);
    }
  }

  // A word that clashes with the middle part wherever it touches it.
  lemma WordIsClear(u: string, m: string, t: string, word: string)
    requires Plain(u) && Plain(t) && IsWord(word) && |m| <= 10
    requires WordMissesAt(m, word, -9, -3) && WordMissesAt(m, word, -3, 3) && WordMissesAt(m, word, 3, 10)
    ensures !Contains(u + m + t, word)
  {
    forall j
      ensures !OccursAt(u + m + t, word, j)
    {
      var off := j - |u|;
      if off + |word| <= 0 || off >= |m| {
        NotOutside(u, m, t, word, j);
      } else if off < -3 {
        WordMissesAtMeans(u, m, t, word, -9, -3, off);
      } else if off < 3 {
        WordMissesAtMeans(u, m, t, word, -3, 3, off);
      } else {
        WordMissesAtMeans(u, m, t, word, 3, 10, off);
      }
    }
  }

  // ---------- Patterns that occur ----------

  lemma MeetsMeansFirst(u: string, m: string, t: string, pat: string, f: nat)
    requires Plain(u) && Plain(t) && Meets(m, pat, f)
    ensures IsFirst(u + m + t, pat, |u|)
  {
    assert (u + m + t)[|u|..|u| + |pat|] == m[..|pat|];
    forall j | j < |u|
      ensures !OccursAt(u + m + t, pat, j)
    {
      if OccursAt(u + m + t, pat, j) {
        SpecialIsInMiddle(u, m, t, pat, f, j);
      }
    }
  }

  // A word that is part of the middle part, at place 0 or 1, and does not touch it before.
  lemma WordIsFirst(u: string, m: string, t: string, word: string, at: nat)
    requires Plain(u) && Plain(t) && IsWord(word) && at <= 1 && at + |word| <= |m| && m[at..at + |word|] == word
    requires WordMissesAt(m, word, -9, -4) && WordMissesAt(m, word, -4, at)
    ensures IsFirst(u + m + t, word, |u| + at)
  {
    assert (u + m + t)[|u| + at..|u| + at + |word|] == m[at..at + |word|];
    forall j | j < |u| + at
      ensures !OccursAt(u + m + t, word, j)
    {
      var off := j - |u|;
      if off + |word| <= 0 {
        NotOutside(u, m, t, word, j);
      } else if off < -4 {
        WordMissesAtMeans(u, m, t, word, -9, -4, off);
      } else {
        WordMissesAtMeans(u, m, t, word, -4, at, off);
      }
    }
  }

  lemma ReplacedInMiddle(u: string, m: string, t: string, pat: string, updated: string, at: nat)
    requires at + |pat| <= |m| && OccursAt(u + m + t, pat, |u| + at)
    ensures ReplaceAt(u + m + t, |u| + at, pat, updated) == u + (m[..at] + updated + m[at + |pat|..]) + t
  {
    var x, i := u + m + t, |u| + at;
    assert x[..i] == u + m[..at];
    assert x[i + |pat|..] == m[at + |pat|..] + t;
  }

  // ---------- A group of rules on a line ----------

  // Rules lo up to hi do not match the line.
  ghost predicate Quiet(x: string, rules: seq<Rule>, lo: nat, hi: nat)
    requires hi <= |rules|
  {
    forall k :: lo <= k < hi ==> !Contains(x, rules[k].old_)
  }

  lemma {:induction false} QuietRules(s: string, x: string, rules: seq<Rule>, lo: nat, hi: nat)
    requires AllEnd(rules) && lo <= hi <= |rules| && Applied(s, rules, lo) == x && Quiet(x, rules, lo, hi)
    ensures Applied(s, rules, hi) == x
    decreases hi - lo
  {
    if lo < hi {
      QuietRules(s, x, rules, lo, hi - 1);
      assert rules[hi - 1].Ends();
      ReplacedAllDone(x, rules[hi - 1].old_, rules[hi - 1].updated);
    }
  }

  lemma QuietGroup(x: string, rules: seq<Rule>)
    requires AllEnd(rules) && Quiet(x, rules, 0, |rules|)
    ensures Rewritten(x, rules) == x
  {
    QuietRules(x, x, rules, 0, |rules|);
  }

  lemma OneReplacement(x: string, y: string, old_: string, updated: string, i: int)
    requires Ends(old_, updated) && IsFirst(x, old_, i) && ReplaceAt(x, i, old_, updated) == y && !Contains(y, old_)
    ensures ReplacedAll(x, old_, updated) == y
  {
    ReplacedAllStep(x, i, old_, updated);
    ReplacedAllDone(y, old_, updated);
  }

  // Of a group only rule k matches, once.
  lemma FiringGroup(x: string, y: string, rules: seq<Rule>, k: nat, i: int)
    requires AllEnd(rules) && k < |rules| && Quiet(x, rules, 0, k) && Quiet(y, rules, k, |rules|)
    requires IsFirst(x, rules[k].old_, i) && ReplaceAt(x, i, rules[k].old_, rules[k].updated) == y
    ensures Rewritten(x, rules) == y
  {
    QuietRules(x, x, rules, 0, k);
    assert rules[k].Ends();
    OneReplacement(x, y, rules[k].old_, rules[k].updated, i);
    QuietRules(x, y, rules, k + 1, |rules|);
  }

  // One replacement between two outer parts.
  lemma OneInMiddle(u: string, m: string, t: string, pat: string, updated: string, at: nat, after: string)
    requires Ends(pat, updated) && at + |pat| <= |m| && IsFirst(u + m + t, pat, |u| + at)
    requires after == m[..at] + updated + m[at + |pat|..] && !Contains(u + after + t, pat)
    ensures ReplacedAll(u + m + t, pat, updated) == u + after + t
  {
    ReplacedInMiddle(u, m, t, pat, updated, at);
    OneReplacement(u + m + t, u + after + t, pat, updated, |u| + at);
  }

  // The same between plain parts, for a pattern at the beginning of the middle part.
  lemma FiringInMiddle(u: string, m: string, t: string, rules: seq<Rule>, k: nat, at: nat, after: string)
    requires AllEnd(rules) && k < |rules| && Quiet(u + m + t, rules, 0, k) && Quiet(u + after + t, rules, k, |rules|)
    requires at + |rules[k].old_| <= |m| && IsFirst(u + m + t, rules[k].old_, |u| + at)
    requires after == m[..at] + rules[k].updated + m[at + |rules[k].old_|..]
    ensures Rewritten(u + m + t, rules) == u + after + t
  {
    ReplacedInMiddle(u, m, t, rules[k].old_, rules[k].updated, at);
    FiringGroup(u + m + t, u + after + t, rules, k, |u| + at);
  }

  // ---------- The five groups ----------

  predicate MissesAtRules(m: string, hi: nat) {
    && (hi <= 0 || Misses(m, "_at_the_rate_", 0)) && (hi <= 1 || Misses(m, "-at-the-rate-", 0))
    && (hi <= 2 || Misses(m, " at the rate ", 0)) && (hi <= 4 || Misses(m, "(attherate)", 0))
    && (hi <= 5 || Misses(m, "(at)", 0)) && (hi <= 6 || Misses(m, "[at]", 0)) && (hi <= 7 || Misses(m, " at ", 0))
    && (hi <= 8 || Misses(m, "(@)", 0))
  }

  predicate MissesDotRules(m: string, hi: nat) {
    && (hi <= 0 || Misses(m, "_dot_", 0)) && (hi <= 1 || Misses(m, " dot ", 0)) && (hi <= 2 || Misses(m, "(dot)", 0))
    && (hi <= 3 || Misses(m, "[dot]", 0)) && (hi <= 4 || Misses(m, " period ", 0))
    && (hi <= 5 || Misses(m, "period ", 6)) && (hi <= 6 || Misses(m, "(period)", 0))
  }

  predicate MissesGmailRules(m: string, hi: nat) {
    && (hi <= 0 || Misses(m, " gml ", 0)) && (hi <= 1 || Misses(m, " gmai ", 0))
    && (hi <= 2 || Misses(m, " google mail ", 0)) && (hi <= 3 || Misses(m, " gm ", 0))
    && (hi <= 4 || Misses(m, "gm ", 2))
  }

  predicate MissesCleanupRules(m: string, hi: nat) {
    && (hi <= 0 || Misses(m, " @ ", 0)) && (hi <= 1 || Misses(m, " . ", 0)) && (hi <= 2 || Misses(m, " .com", 0))
  }

  lemma AtRulesQuiet(u: string, m: string, t: string, hi: nat)
    requires Plain(u) && Plain(t) && hi <= 9 && MissesAtRules(m, hi)
    requires hi > 3 ==> !Contains(u + m + t, "attherate")
    ensures Quiet(u + m + t, AT_RULES, 0, hi)
  {
    forall k | 0 <= k < hi
      ensures !Contains(u + m + t, AT_RULES[k].old_)
    {
      if k != 3 {
        MissesMeansNone(u, m, t, AT_RULES[k].old_, 0);
      }
    }
  }

  lemma DotRulesQuiet(u: string, m: string, t: string, hi: nat)
    requires Plain(u) && Plain(t) && hi <= 7 && MissesDotRules(m, hi)
    ensures Quiet(u + m + t, DOT_RULES, 0, hi)
  {
    forall k | 0 <= k < hi
      ensures !Contains(u + m + t, DOT_RULES[k].old_)
    {
      MissesMeansNone(u, m, t, DOT_RULES[k].old_, if k == 5 then 6 else 0);
    }
  }

  lemma UnderscoreRulesQuiet(u: string, m: string, t: string)
    requires Plain(u) && Plain(t) && Misses(m, " underscore ", 0) && !Contains(u + m + t, "underscore")
    ensures Quiet(u + m + t, UNDERSCORE_RULES, 0, 2)
  {
    MissesMeansNone(u, m, t, " underscore ", 0);
  }

  lemma GmailRulesQuiet(u: string, m: string, t: string, hi: nat)
    requires Plain(u) && Plain(t) && hi <= 5 && MissesGmailRules(m, hi)
    ensures Quiet(u + m + t, GMAIL_RULES, 0, hi)
  {
    forall k | 0 <= k < hi
      ensures !Contains(u + m + t, GMAIL_RULES[k].old_)
    {
      MissesMeansNone(u, m, t, GMAIL_RULES[k].old_, if k == 4 then 2 else 0);
    }
  }

  lemma CleanupRulesQuiet(u: string, m: string, t: string, hi: nat)
    requires Plain(u) && Plain(t) && hi <= 3 && MissesCleanupRules(m, hi)
    ensures Quiet(u + m + t, CLEANUP_RULES, 0, hi)
  {
    forall k | 0 <= k < hi
      ensures !Contains(u + m + t, CLEANUP_RULES[k].old_)
    {
      MissesMeansNone(u, m, t, CLEANUP_RULES[k].old_, 0);
    }
  }

  lemma EveryRuleEnds()
    ensures AllEnd(AT_RULES) && AllEnd(DOT_RULES) && AllEnd(UNDERSCORE_RULES) && AllEnd(GMAIL_RULES)
    ensures AllEnd(CLEANUP_RULES)
  {
    ShrinkingRulesEnd();
    GmailRulesEnd();
  }

  // ---------- Letters of either case ----------

  // The line is the text, with any of its letters in capitals.
  ghost predicate IsVariant(line: string, text: string) {
    |line| == |text| && forall i :: 0 <= i < |line| ==> SameLetter(line[i], text[i])
  }

  ghost predicate SameLetter(c: char, d: char) {
    c == d || exists k :: 0 <= k < 26 && IsCapital(c, d, k)
  }

  predicate IsCapital(c: char, d: char, k: nat)
    requires k < 26
  {
    c == "ABCDEFGHIJKLMNOPQRSTUVWXYZ"[k] && d == "abcdefghijklmnopqrstuvwxyz"[k]
  }

  lemma CapitalIsLowered(c: char, d: char, k: nat)
    requires k < 26 && IsCapital(c, d, k)
    ensures LowerChar(c) == d
  {
    if k < 7 {
      assert k == 0 || k == 1 || k == 2 || k == 3 || k == 4 || k == 5 || k == 6;
    } else if k < 14 {
      assert k == 7 || k == 8 || k == 9 || k == 10 || k == 11 || k == 12 || k == 13;
    } else if k < 20 {
      assert k == 14 || k == 15 || k == 16 || k == 17 || k == 18 || k == 19;
    } else {
      assert k == 20 || k == 21 || k == 22 || k == 23 || k == 24 || k == 25;
    }
  }

  lemma VariantIsLowered(line: string, text: string)
    requires IsVariant(line, text) && forall c :: c in text ==> !IsUpper(c)
    ensures Lowered(line) == text
  {
    forall i | 0 <= i < |line|
      ensures LowerChar(line[i]) == text[i]
    {
      assert SameLetter(line[i], text[i]) && text[i] in text;
      if line[i] != text[i] {
        var k :| 0 <= k < 26 && IsCapital(line[i], text[i], k);
        CapitalIsLowered(line[i], text[i], k);
      }
    }
  }

  // ---------- The last groups, from a symbol on ----------

  // What the rules from the second, third, fourth and fifth group on make of a line.
  ghost function FromCleanup(x: string): string {
    EveryRuleEnds();
    Rewritten(x, CLEANUP_RULES)
  }

  ghost function FromGmail(x: string): string {
    EveryRuleEnds();
    FromCleanup(Rewritten(x, GMAIL_RULES))
  }

  ghost function FromUnderscore(x: string): string {
    EveryRuleEnds();
    FromGmail(Rewritten(x, UNDERSCORE_RULES))
  }

  ghost function FromDot(x: string): string {
    EveryRuleEnds();
    FromUnderscore(Rewritten(x, DOT_RULES))
  }

  ghost function FromAt(x: string): string {
    EveryRuleEnds();
    FromDot(Rewritten(x, AT_RULES))
  }

  lemma NormalizedIs(line: string, text: string)
    requires IsVariant(line, text) && forall c :: c in text ==> !IsUpper(c)
    ensures Normalized(line) == FromAt(text)
  {
    VariantIsLowered(line, text);
  }

  lemma CleanupStays(u: string, m: string, t: string)
    requires Plain(u) && Plain(t) && MissesCleanupRules(m, 3)
    ensures FromCleanup(u + m + t) == u + m + t
  {
    EveryRuleEnds();
    CleanupRulesQuiet(u, m, t, 3);
    QuietGroup(u + m + t, CLEANUP_RULES);
  }

  lemma GmailStays(u: string, m: string, t: string)
    requires Plain(u) && Plain(t) && MissesGmailRules(m, 5)
    ensures FromGmail(u + m + t) == FromCleanup(u + m + t)
  {
    EveryRuleEnds();
    GmailRulesQuiet(u, m, t, 5);
    QuietGroup(u + m + t, GMAIL_RULES);
  }

  lemma UnderscoreStays(u: string, m: string, t: string)
    requires Plain(u) && Plain(t) && Misses(m, " underscore ", 0) && !Contains(u + m + t, "underscore")
    ensures FromUnderscore(u + m + t) == FromGmail(u + m + t)
  {
    EveryRuleEnds();
    UnderscoreRulesQuiet(u, m, t);
    QuietGroup(u + m + t, UNDERSCORE_RULES);
  }

  lemma DotStays(u: string, m: string, t: string)
    requires Plain(u) && Plain(t) && MissesDotRules(m, 7)
    ensures FromDot(u + m + t) == FromUnderscore(u + m + t)
  {
    EveryRuleEnds();
    DotRulesQuiet(u, m, t, 7);
    QuietGroup(u + m + t, DOT_RULES);
  }

  lemma AtStays(u: string, m: string, t: string)
    requires Plain(u) && Plain(t) && MissesAtRules(m, 9) && !Contains(u + m + t, "attherate")
    ensures FromAt(u + m + t) == FromDot(u + m + t)
  {
    EveryRuleEnds();
    AtRulesQuiet(u, m, t, 9);
    QuietGroup(u + m + t, AT_RULES);
  }

  // ---------- The symbols that are written ----------

  lemma AtSignIsMissed()
    ensures MissesAtRules("@", 9) && MissesDotRules("@", 7) && Misses("@", " underscore ", 0)
    ensures MissesGmailRules("@", 5) && MissesCleanupRules("@", 3)
  {
  }

  lemma DotSignIsMissed()
    ensures MissesDotRules(".", 7) && Misses(".", " underscore ", 0)
    ensures MissesGmailRules(".", 5) && MissesCleanupRules(".", 3)
  {
  }

  // Once written, a symbol stays.
  lemma AtSignStays(u: string, t: string)
    requires Plain(u) && Plain(t)
    ensures FromDot(u + "@" + t) == u + "@" + t
  {
    AtSignIsMissed();
    WordIsNowhere(u, "@", t, "underscore", 'u');
    DotStays(u, "@", t);
    UnderscoreStays(u, "@", t);
    GmailStays(u, "@", t);
    CleanupStays(u, "@", t);
  }

  lemma DotSignStays(u: string, t: string)
    requires Plain(u) && Plain(t)
    ensures FromUnderscore(u + "." + t) == u + "." + t
  {
    DotSignIsMissed();
    WordIsNowhere(u, ".", t, "underscore", 'u');
    UnderscoreStays(u, ".", t);
    GmailStays(u, ".", t);
    CleanupStays(u, ".", t);
  }

  lemma UnderscoreSignStays(u: string, t: string)
    requires Plain(u) && Plain(t)
    ensures FromGmail(u + "_" + t) == u + "_" + t
  {
    GmailStays(u, "_", t);
    CleanupStays(u, "_", t);
  }

  // ---------- One pattern in a line ----------

  // What makes a pattern the one that a rule of its group finds first, and lets it pass the groups before.

  // A word without special characters cannot touch the middle part.
  predicate Avoids(m: string, word: string, c: char) {
    m != "" && m[0] !in word && m[|m| - 1] !in word && c in word && c !in m
  }

  predicate AtFits(p: string, k: nat) {
    MissesAtRules(p, k) && (k <= 3 || Avoids(p, "attherate", 'h')) && Meets(p, p, 0)
  }

  predicate PassesAt(p: string) {
    MissesAtRules(p, 9) && Avoids(p, "attherate", 'h')
  }

  predicate DotFits(p: string, k: nat, f: nat) {
    MissesDotRules(p, k) && Meets(p, p, f)
  }

  predicate PassesSymbols(p: string) {
    MissesDotRules(p, 7) && Misses(p, " underscore ", 0) && Avoids(p, "underscore", 'u')
  }

  // The same for a middle part with no special characters other than spaces and dots.
  predicate SpacedPassesAt(p: string) {
    && '_' !in p && '-' !in p && '(' !in p && '[' !in p
    && Misses(p, " at the rate ", 0) && Misses(p, " at ", 0) && Avoids(p, "attherate", 'h')
  }

  predicate SpacedPassesSymbols(p: string) {
    && Misses(p, " dot ", 0) && Misses(p, " period ", 0) && Misses(p, "period ", 6)
    && Misses(p, " underscore ", 0) && Avoids(p, "underscore", 'u')
  }

  lemma SpacedPasses(p: string)
    requires SpacedPassesAt(p) && SpacedPassesSymbols(p)
    ensures PassesAt(p) && PassesSymbols(p)
  {
  }

  predicate GmailFits(p: string, k: nat, f: nat, q: string) {
    MissesGmailRules(p, k) && Meets(p, p, f) && MissesGmailRules(q, 5) && MissesCleanupRules(q, 3)
  }

  predicate CleanupFits(p: string, k: nat, q: string) {
    MissesGmailRules(p, 5) && MissesCleanupRules(p, k) && Meets(p, p, 0) && MissesCleanupRules(q, 3)
  }

  lemma AtFires(u: string, p: string, t: string, k: nat)
    requires Plain(u) && Plain(t) && k < 9 && p == AT_RULES[k].old_ && AT_RULES[k].updated == "@" && AllEnd(AT_RULES)
    requires Quiet(u + p + t, AT_RULES, 0, k) && IsFirst(u + p + t, p, |u|)
    ensures Rewritten(u + p + t, AT_RULES) == u + "@" + t
  {
    AtSignIsMissed();
    WordIsNowhere(u, "@", t, "attherate", 'h');
    AtRulesQuiet(u, "@", t, 9);
    FiringInMiddle(u, p, t, AT_RULES, k, 0, "@");
  }

  lemma AtPattern(u: string, p: string, t: string, k: nat)
    requires Plain(u) && Plain(t) && k < 9 && p == AT_RULES[k].old_ && AT_RULES[k].updated == "@" && AtFits(p, k)
    ensures FromAt(u + p + t) == u + "@" + t
  {
    EveryRuleEnds();
    if k > 3 {
      WordIsNowhere(u, p, t, "attherate", 'h');
    }
    AtRulesQuiet(u, p, t, k);
    MeetsMeansFirst(u, p, t, p, 0);
    AtFires(u, p, t, k);
    AtSignStays(u, t);
  }

  lemma AtPasses(u: string, p: string, t: string)
    requires Plain(u) && Plain(t) && PassesAt(p)
    ensures FromAt(u + p + t) == FromDot(u + p + t)
  {
    WordIsNowhere(u, p, t, "attherate", 'h');
    AtStays(u, p, t);
  }

  lemma DotFires(u: string, p: string, t: string, k: nat)
    requires Plain(u) && Plain(t) && k < 7 && p == DOT_RULES[k].old_ && DOT_RULES[k].updated == "." && AllEnd(DOT_RULES)
    requires Quiet(u + p + t, DOT_RULES, 0, k) && IsFirst(u + p + t, p, |u|)
    ensures Rewritten(u + p + t, DOT_RULES) == u + "." + t
  {
    DotSignIsMissed();
    DotRulesQuiet(u, ".", t, 7);
    FiringInMiddle(u, p, t, DOT_RULES, k, 0, ".");
  }

  lemma DotPattern(u: string, p: string, t: string, k: nat, f: nat)
    requires Plain(u) && Plain(t) && k < 7 && p == DOT_RULES[k].old_ && DOT_RULES[k].updated == "."
    requires PassesAt(p) && DotFits(p, k, f)
    ensures FromAt(u + p + t) == u + "." + t
  {
    EveryRuleEnds();
    AtPasses(u, p, t);
    DotRulesQuiet(u, p, t, k);
    MeetsMeansFirst(u, p, t, p, f);
    DotFires(u, p, t, k);
    DotSignStays(u, t);
  }

  lemma UnderscoreFires(u: string, p: string, t: string, k: nat)
    requires Plain(u) && Plain(t) && k < 2 && p == UNDERSCORE_RULES[k].old_ && UNDERSCORE_RULES[k].updated == "_"
    requires AllEnd(UNDERSCORE_RULES) && (k > 0 ==> Misses(p, " underscore ", 0)) && IsFirst(u + p + t, p, |u|)
    ensures Rewritten(u + p + t, UNDERSCORE_RULES) == u + "_" + t
  {
    WordIsNowhere(u, "_", t, "underscore", 'u');
    UnderscoreRulesQuiet(u, "_", t);
    if k > 0 {
      MissesMeansNone(u, p, t, " underscore ", 0);
    }
    FiringInMiddle(u, p, t, UNDERSCORE_RULES, k, 0, "_");
  }

  lemma UnderscorePattern(u: string, p: string, t: string, k: nat)
    requires Plain(u) && Plain(t) && k < 2 && p == UNDERSCORE_RULES[k].old_ && UNDERSCORE_RULES[k].updated == "_"
    requires MissesDotRules(p, 7) && (k > 0 ==> Misses(p, " underscore ", 0)) && IsFirst(u + p + t, p, |u|)
    ensures FromDot(u + p + t) == u + "_" + t
  {
    EveryRuleEnds();
    DotStays(u, p, t);
    UnderscoreFires(u, p, t, k);
    UnderscoreSignStays(u, t);
  }

  lemma SymbolsPass(u: string, p: string, t: string)
    requires Plain(u) && Plain(t) && PassesSymbols(p)
    ensures FromDot(u + p + t) == FromGmail(u + p + t)
  {
    WordIsNowhere(u, p, t, "underscore", 'u');
    DotStays(u, p, t);
    UnderscoreStays(u, p, t);
  }

  lemma GmailFires(u: string, p: string, t: string, k: nat, f: nat, q: string)
    requires Plain(u) && Plain(t) && k < 5 && p == GMAIL_RULES[k].old_ && GMAIL_RULES[k].updated == q
    requires AllEnd(GMAIL_RULES) && MissesGmailRules(p, k) && Meets(p, p, f) && MissesGmailRules(q, 5)
    ensures Rewritten(u + p + t, GMAIL_RULES) == u + q + t
  {
    GmailRulesQuiet(u, p, t, k);
    GmailRulesQuiet(u, q, t, 5);
    MeetsMeansFirst(u, p, t, p, f);
    FiringInMiddle(u, p, t, GMAIL_RULES, k, 0, q);
  }

  lemma GmailPattern(u: string, p: string, t: string, k: nat, f: nat, q: string)
    requires Plain(u) && Plain(t) && k < 5 && p == GMAIL_RULES[k].old_ && GMAIL_RULES[k].updated == q
    requires GmailFits(p, k, f, q)
    ensures FromGmail(u + p + t) == u + q + t
  {
    EveryRuleEnds();
    GmailFires(u, p, t, k, f, q);
    CleanupStays(u, q, t);
  }

  lemma CleanupFires(u: string, p: string, t: string, k: nat, q: string)
    requires Plain(u) && Plain(t) && k < 3 && p == CLEANUP_RULES[k].old_ && CLEANUP_RULES[k].updated == q
    requires AllEnd(CLEANUP_RULES) && MissesCleanupRules(p, k) && Meets(p, p, 0) && MissesCleanupRules(q, 3)
    ensures Rewritten(u + p + t, CLEANUP_RULES) == u + q + t
  {
    CleanupRulesQuiet(u, p, t, k);
    CleanupRulesQuiet(u, q, t, 3);
    MeetsMeansFirst(u, p, t, p, 0);
    FiringInMiddle(u, p, t, CLEANUP_RULES, k, 0, q);
  }

  lemma CleanupPattern(u: string, p: string, t: string, k: nat, q: string)
    requires Plain(u) && Plain(t) && k < 3 && p == CLEANUP_RULES[k].old_ && CLEANUP_RULES[k].updated == q
    requires CleanupFits(p, k, q)
    ensures FromGmail(u + p + t) == u + q + t
  {
    EveryRuleEnds();
    GmailStays(u, p, t);
    CleanupFires(u, p, t, k, q);
  }

  // ---------- The twenty-six patterns, one by one ----------

  lemma RateWithUnderscores()
    ensures AtFits("_at_the_rate_", 0)
  {
  }

  lemma RateWithHyphens()
    ensures AtFits("-at-the-rate-", 1)
  {
  }

  lemma RateWithSpaces()
    ensures AtFits(" at the rate ", 2)
  {
  }

  lemma AtInBrackets()
    ensures AtFits("(at)", 5)
  {
  }

  lemma AtInSquareBrackets()
    ensures AtFits("[at]", 6)
  {
  }

  lemma AtAsWord()
    ensures AtFits(" at ", 7)
  {
  }

  lemma SignInBrackets()
    ensures AtFits("(@)", 8)
  {
  }

  lemma DotWithUnderscores()
    ensures PassesAt("_dot_") && DotFits("_dot_", 0, 0)
  {
  }

  lemma DotAsWord()
    ensures PassesAt(" dot ") && DotFits(" dot ", 1, 0)
  {
  }

  lemma DotInBrackets()
    ensures PassesAt("(dot)") && DotFits("(dot)", 2, 0)
  {
  }

  lemma DotInSquareBrackets()
    ensures PassesAt("[dot]") && DotFits("[dot]", 3, 0)
  {
  }

  lemma SpacedPeriodPasses()
    ensures PassesAt(" period ")
  {
  }

  lemma SpacedPeriod()
    ensures DotFits(" period ", 4, 0)
  {
  }

  lemma EndingInPeriodPasses()
    ensures PassesAt("period ")
  {
  }

  lemma EndingInPeriod()
    ensures DotFits("period ", 5, 6)
  {
  }

  lemma PeriodInBracketsPasses()
    ensures PassesAt("(period)")
  {
  }

  lemma PeriodInBrackets()
    ensures DotFits("(period)", 6, 0)
  {
  }

  lemma ShortGmlPasses()
    ensures SpacedPassesAt(" gml ") && SpacedPassesSymbols(" gml ")
  {
  }

  lemma ShortGml()
    ensures GmailFits(" gml ", 0, 0, " gmail ")
  {
  }

  lemma ShortGmaiPasses()
    ensures SpacedPassesAt(" gmai ") && SpacedPassesSymbols(" gmai ")
  {
  }

  lemma ShortGmai()
    ensures GmailFits(" gmai ", 1, 0, " gmail ")
  {
  }

  lemma GoogleMailPassesAt()
    ensures SpacedPassesAt(" google mail ")
  {
  }

  lemma GoogleMailPassesSymbols()
    ensures SpacedPassesSymbols(" google mail ")
  {
  }

  lemma GoogleMail()
    ensures GmailFits(" google mail ", 2, 0, " gmail ")
  {
  }

  lemma ShortGmPasses()
    ensures SpacedPassesAt(" gm ") && SpacedPassesSymbols(" gm ")
  {
  }

  lemma ShortGm()
    ensures GmailFits(" gm ", 3, 0, " gmail ")
  {
  }

  lemma EndingInGmPasses()
    ensures SpacedPassesAt("gm ") && SpacedPassesSymbols("gm ")
  {
  }

  lemma EndingInGm()
    ensures GmailFits("gm ", 4, 2, "gmail")
  {
  }

  lemma SpacedAtSignPasses()
    ensures SpacedPassesAt(" @ ") && SpacedPassesSymbols(" @ ")
  {
  }

  lemma SpacedAtSign()
    ensures CleanupFits(" @ ", 0, "@")
  {
  }

  lemma SpacedDotSignPasses()
    ensures SpacedPassesAt(" . ") && SpacedPassesSymbols(" . ")
  {
  }

  lemma SpacedDotSign()
    ensures CleanupFits(" . ", 1, ".")
  {
  }

  lemma SpacedDotComPasses()
    ensures SpacedPassesAt(" .com") && SpacedPassesSymbols(" .com")
  {
  }

  lemma SpacedDotCom()
    ensures CleanupFits(" .com", 2, ".com")
  {
  }

  lemma SpacedUnderscore()
    ensures MissesDotRules(" underscore ", 7) && Meets(" underscore ", " underscore ", 0)
  {
  }

  lemma SpacedUnderscorePasses()
    ensures PassesAt(" underscore ")
  {
  }

  lemma UnderscoreAsWord()
    ensures MissesAtRules("underscore", 9) && MissesDotRules("underscore", 7) && Misses("underscore", " underscore ", 0)
  {
  }

  lemma WordsClash()
    ensures WordMissesAt("underscore", "attherate", -9, -3) && WordMissesAt("underscore", "attherate", -3, 3)
    ensures WordMissesAt("underscore", "attherate", 3, 10)
    ensures WordMissesAt("underscore", "underscore", -9, -4) && WordMissesAt("underscore", "underscore", -4, 0)
  {
  }

  lemma RateClashes()
    ensures WordMissesAt("attherate", "attherate", -9, -4) && WordMissesAt("attherate", "attherate", -4, 0)
    ensures WordMissesAt("(attherate)", "attherate", -9, -4) && WordMissesAt("(attherate)", "attherate", -4, 1)
  {
  }

  lemma RateInBrackets()
    ensures MissesAtRules("(attherate)", 3) && "(attherate)"[1..10] == "attherate" && Avoids("(@)", "attherate", 'h')
    ensures "(@)" == "(attherate)"[..1] + "@" + "(attherate)"[10..]
  {
  }

  lemma SignAsMiddle()
    ensures BracketsFit("(@)")
  {
  }

  // ---------- Group by group ----------

  lemma AtRuleFits(n: nat)
    requires n < 9 && n != 3 && n != 4
    ensures AtFits(AT_RULES[n].old_, n)
  {
    match n
    case 0 => RateWithUnderscores();
    case 1 => RateWithHyphens();
    case 2 => RateWithSpaces();
    case 5 => AtInBrackets();
    case 6 => AtInSquareBrackets();
    case 7 => AtAsWord();
    case 8 => SignInBrackets();
  }

  lemma DotRuleFits(n: nat)
    requires n < 4
    ensures PassesAt(DOT_RULES[n].old_) && DotFits(DOT_RULES[n].old_, n, 0)
  {
    match n
    case 0 => DotWithUnderscores();
    case 1 => DotAsWord();
    case 2 => DotInBrackets();
    case 3 => DotInSquareBrackets();
  }

  lemma PeriodRuleFits(n: nat)
    requires 4 <= n < 7
    ensures PassesAt(DOT_RULES[n].old_) && DotFits(DOT_RULES[n].old_, n, if n == 5 then 6 else 0)
  {
    match n
    case 4 => SpacedPeriodPasses(); SpacedPeriod();
    case 5 => EndingInPeriodPasses(); EndingInPeriod();
    case 6 => PeriodInBracketsPasses(); PeriodInBrackets();
  }

  lemma GmailRuleFits(n: nat)
    requires n < 5
    ensures SpacedPassesAt(GMAIL_RULES[n].old_) && SpacedPassesSymbols(GMAIL_RULES[n].old_)
    ensures GmailFits(GMAIL_RULES[n].old_, n, if n == 4 then 2 else 0, GMAIL_RULES[n].updated)
  {
    match n
    case 0 => ShortGmlPasses(); ShortGml();
    case 1 => ShortGmaiPasses(); ShortGmai();
    case 2 => GoogleMailPassesAt(); GoogleMailPassesSymbols(); GoogleMail();
    case 3 => ShortGmPasses(); ShortGm();
    case 4 => EndingInGmPasses(); EndingInGm();
  }

  lemma CleanupRuleFits(n: nat)
    requires n < 3
    ensures SpacedPassesAt(CLEANUP_RULES[n].old_) && SpacedPassesSymbols(CLEANUP_RULES[n].old_)
    ensures CleanupFits(CLEANUP_RULES[n].old_, n, CLEANUP_RULES[n].updated)
  {
    match n
    case 0 => SpacedAtSignPasses(); SpacedAtSign();
    case 1 => SpacedDotSignPasses(); SpacedDotSign();
    case 2 => SpacedDotComPasses(); SpacedDotCom();
  }

  lemma AtRulesWriteAtSigns(n: nat)
    requires n < 9
    ensures AT_RULES[n].updated == "@"
  {
  }

  lemma DotRulesWriteDots(n: nat)
    requires n < 7
    ensures DOT_RULES[n].updated == "."
  {
  }

  // The word, as a pattern of its own.
  lemma RatePattern(u: string, p: string, t: string)
    requires Plain(u) && Plain(t) && p == AT_RULES[3].old_ && IsWord(p) && MissesAtRules(p, 3)
    requires WordMissesAt(p, p, -9, -4) && WordMissesAt(p, p, -4, 0)
    ensures FromAt(u + p + t) == u + "@" + t
  {
    EveryRuleEnds();
    AtRulesWriteAtSigns(3);
    AtRulesQuiet(u, p, t, 3);
    WordIsFirst(u, p, t, p, 0);
    AtFires(u, p, t, 3);
    AtSignStays(u, t);
  }

  // Two rules for the word in brackets: the word goes first, and then the brackets around the at sign.
  lemma WordGoes(u: string, p: string, w: string, b: string, t: string)
    requires Plain(u) && Plain(t) && AllEnd(AT_RULES)
    requires w == AT_RULES[3].old_ && IsWord(w) && AT_RULES[3].updated == "@"
    requires MissesAtRules(p, 3) && |p| == 1 + |w| + 1 && p[1..1 + |w|] == w && b == p[..1] + "@" + p[1 + |w|..]
    requires WordMissesAt(p, w, -9, -4) && WordMissesAt(p, w, -4, 1) && Avoids(b, w, 'h')
    ensures Applied(u + p + t, AT_RULES, 4) == u + b + t
  {
    AtRulesQuiet(u, p, t, 3);
    QuietRules(u + p + t, u + p + t, AT_RULES, 0, 3);
    WordIsFirst(u, p, t, w, 1);
    WordIsNowhere(u, b, t, w, 'h');
    OneInMiddle(u, p, t, w, "@", 1, b);
  }

  lemma BracketsGo(u: string, b: string, t: string, sign: string)
    requires Plain(u) && Plain(t) && Ends(b, sign) && Meets(b, b, 0) && Misses(sign, b, 0)
    ensures ReplacedAll(u + b + t, b, sign) == u + sign + t
  {
    MeetsMeansFirst(u, b, t, b, 0);
    MissesMeansNone(u, sign, t, b, 0);
    OneInMiddle(u, b, t, b, sign, 0, sign);
  }

  ghost predicate RateFits(p: string, w: string, b: string) {
    && IsWord(w) && MissesAtRules(p, 3) && |p| == 1 + |w| + 1 && p[1..1 + |w|] == w && b == p[..1] + "@" + p[1 + |w|..]
    && WordMissesAt(p, w, -9, -4) && WordMissesAt(p, w, -4, 1) && Avoids(b, w, 'h')
  }

  ghost predicate BracketsFit(b: string) {
    MissesAtRules(b, 8) && Meets(b, b, 0) && Misses("@", b, 0)
  }

  lemma BracketsAreQuiet(u: string, b: string, w: string, t: string)
    requires Plain(u) && Plain(t) && w == "attherate" && Avoids(b, w, 'h') && MissesAtRules(b, 8)
    ensures Quiet(u + b + t, AT_RULES, 0, 8)
  {
    WordIsNowhere(u, b, t, w, 'h');
    AtRulesQuiet(u, b, t, 8);
  }

  lemma LastRuleRemains(x: string, y: string, z: string)
    requires AllEnd(AT_RULES) && Applied(x, AT_RULES, 4) == y && Quiet(y, AT_RULES, 0, 8) && AT_RULES[8].Ends()
    requires ReplacedAll(y, AT_RULES[8].old_, AT_RULES[8].updated) == z
    ensures Rewritten(x, AT_RULES) == z
  {
    QuietRules(x, y, AT_RULES, 4, 8);
  }

  lemma BracketsRemain(u: string, b: string, t: string, x: string)
    requires Plain(u) && Plain(t) && AllEnd(AT_RULES) && b == AT_RULES[8].old_ && AT_RULES[8].updated == "@"
    requires Applied(x, AT_RULES, 4) == u + b + t && Quiet(u + b + t, AT_RULES, 0, 8)
    requires Meets(b, b, 0) && Misses("@", b, 0)
    ensures Rewritten(x, AT_RULES) == u + "@" + t
  {
    assert AT_RULES[8].Ends();
    BracketsGo(u, b, t, AT_RULES[8].updated);
    LastRuleRemains(x, u + b + t, u + "@" + t);
  }

  lemma BracketPattern(u: string, p: string, w: string, b: string, t: string)
    requires Plain(u) && Plain(t) && w == AT_RULES[3].old_ && AT_RULES[3].updated == "@"
    requires b == AT_RULES[8].old_ && AT_RULES[8].updated == "@" && RateFits(p, w, b) && BracketsFit(b)
    ensures FromAt(u + p + t) == u + "@" + t
  {
    EveryRuleEnds();
    WordGoes(u, p, w, b, t);
    BracketsAreQuiet(u, b, w, t);
    BracketsRemain(u, b, t, u + p + t);
    AtSignStays(u, t);
  }

  lemma AtRuleRewrites(u: string, t: string, n: nat)
    requires Plain(u) && Plain(t) && n < 9
    ensures FromAt(u + AT_RULES[n].old_ + t) == u + "@" + t
  {
    AtRulesWriteAtSigns(n);
    if n == 3 {
      RateFitsAsWord();
      RatePattern(u, AT_RULES[3].old_, t);
    } else if n == 4 {
      RateFitsInBrackets();
      SignFitsInBrackets();
      AtRulesWriteAtSigns(3);
      AtRulesWriteAtSigns(8);
      BracketPattern(u, AT_RULES[4].old_, AT_RULES[3].old_, AT_RULES[8].old_, t);
    } else {
      AtRuleFits(n);
      AtPattern(u, AT_RULES[n].old_, t, n);
    }
  }

  lemma RateFitsAsWord()
    ensures var w := AT_RULES[3].old_;
            IsWord(w) && MissesAtRules(w, 3) && WordMissesAt(w, w, -9, -4) && WordMissesAt(w, w, -4, 0)
  {
    RateClashes();
  }

  lemma RateFitsInBrackets()
    ensures RateFits(AT_RULES[4].old_, AT_RULES[3].old_, AT_RULES[8].old_)
  {
    RateClashes();
    RateInBrackets();
  }

  lemma SignFitsInBrackets()
    ensures BracketsFit(AT_RULES[8].old_)
  {
    SignAsMiddle();
  }

  lemma DotRuleRewrites(u: string, t: string, n: nat)
    requires Plain(u) && Plain(t) && n < 7
    ensures FromAt(u + DOT_RULES[n].old_ + t) == u + "." + t
  {
    DotRulesWriteDots(n);
    if n < 4 {
      DotRuleFits(n);
    } else {
      PeriodRuleFits(n);
    }
    DotPattern(u, DOT_RULES[n].old_, t, n, if n == 5 then 6 else 0);
  }

  lemma SpacedUnderscorePattern(u: string, p: string, t: string)
    requires Plain(u) && Plain(t) && p == UNDERSCORE_RULES[0].old_ && UNDERSCORE_RULES[0].updated == "_"
    requires PassesAt(p) && MissesDotRules(p, 7) && Meets(p, p, 0)
    ensures FromAt(u + p + t) == u + "_" + t
  {
    AtPasses(u, p, t);
    MeetsMeansFirst(u, p, t, p, 0);
    UnderscorePattern(u, p, t, 0);
  }

  lemma UnderscoreWordPattern(u: string, p: string, t: string)
    requires Plain(u) && Plain(t) && p == UNDERSCORE_RULES[1].old_ && UNDERSCORE_RULES[1].updated == "_"
    requires MissesAtRules(p, 9) && MissesDotRules(p, 7) && Misses(p, " underscore ", 0)
    requires !Contains(u + p + t, "attherate") && IsFirst(u + p + t, p, |u|)
    ensures FromAt(u + p + t) == u + "_" + t
  {
    AtStays(u, p, t);
    UnderscorePattern(u, p, t, 1);
  }

  lemma UnderscoreWordIsFirst(u: string, t: string)
    requires Plain(u) && Plain(t)
    ensures !Contains(u + "underscore" + t, "attherate") && IsFirst(u + "underscore" + t, "underscore", |u|)
  {
    WordsClash();
    WordIsClear(u, "underscore", t, "attherate");
    WordIsFirst(u, "underscore", t, "underscore", 0);
  }

  lemma UnderscoreRulesFit()
    ensures UNDERSCORE_RULES[0].updated == "_" && UNDERSCORE_RULES[1] == Rule("underscore", "_")
    ensures var p := UNDERSCORE_RULES[0].old_; PassesAt(p) && MissesDotRules(p, 7) && Meets(p, p, 0)
    ensures var p := UNDERSCORE_RULES[1].old_;
            MissesAtRules(p, 9) && MissesDotRules(p, 7) && Misses(p, " underscore ", 0)
  {
    SpacedUnderscorePasses();
    SpacedUnderscore();
    UnderscoreAsWord();
  }

  lemma UnderscoreRuleRewrites(u: string, t: string, n: nat)
    requires Plain(u) && Plain(t) && n < 2
    ensures FromAt(u + UNDERSCORE_RULES[n].old_ + t) == u + "_" + t
  {
    UnderscoreRulesFit();
    if n == 0 {
      SpacedUnderscorePattern(u, UNDERSCORE_RULES[0].old_, t);
    } else {
      UnderscoreWordIsFirst(u, t);
      UnderscoreWordPattern(u, UNDERSCORE_RULES[1].old_, t);
    }
  }

  lemma GmailRuleRewrites(u: string, t: string, n: nat)
    requires Plain(u) && Plain(t) && n < 5
    ensures FromAt(u + GMAIL_RULES[n].old_ + t) == u + GMAIL_RULES[n].updated + t
  {
    var p := GMAIL_RULES[n].old_;
    GmailRuleFits(n);
    SpacedPasses(p);
    AtPasses(u, p, t);
    SymbolsPass(u, p, t);
    GmailPattern(u, p, t, n, if n == 4 then 2 else 0, GMAIL_RULES[n].updated);
  }

  lemma CleanupRuleRewrites(u: string, t: string, n: nat)
    requires Plain(u) && Plain(t) && n < 3
    ensures FromAt(u + CLEANUP_RULES[n].old_ + t) == u + CLEANUP_RULES[n].updated + t
  {
    var p := CLEANUP_RULES[n].old_;
    CleanupRuleFits(n);
    SpacedPasses(p);
    AtPasses(u, p, t);
    SymbolsPass(u, p, t);
    CleanupPattern(u, p, t, n, CLEANUP_RULES[n].updated);
  }

  // ---------- Every pattern ----------

  lemma PatternsOfSymbols(n: nat)
    requires n < 18
    ensures n < 9 ==> PATTERNS[n] == (AT_RULES[n].old_, "@")
    ensures 9 <= n < 16 ==> PATTERNS[n] == (DOT_RULES[n - 9].old_, ".")
    ensures 16 <= n ==> PATTERNS[n] == (UNDERSCORE_RULES[n - 16].old_, "_")
  {
  }

  lemma OtherPatterns(n: nat)
    requires 18 <= n < 26
    ensures n < 23 ==> PATTERNS[n] == (GMAIL_RULES[n - 18].old_, GMAIL_RULES[n - 18].updated)
    ensures 23 <= n ==> PATTERNS[n] == (CLEANUP_RULES[n - 23].old_, CLEANUP_RULES[n - 23].updated)
  {
  }

  lemma PatternsAreLowered(n: nat, c: char)
    requires n < 26 && c in PATTERNS[n].0
    ensures !IsUpper(c)
  {
  }

  lemma PatternIsRewritten(u: string, t: string, n: nat)
    requires Plain(u) && Plain(t) && n < 26
    ensures FromAt(u + PATTERNS[n].0 + t) == u + PATTERNS[n].1 + t
  {
    if n < 18 {
      PatternsOfSymbols(n);
      if n < 9 {
        AtRuleRewrites(u, t, n);
      } else if n < 16 {
        DotRuleRewrites(u, t, n - 9);
      } else {
        UnderscoreRuleRewrites(u, t, n - 16);
      }
    } else {
      OtherPatterns(n);
      if n < 23 {
        GmailRuleRewrites(u, t, n - 18);
      } else {
        CleanupRuleRewrites(u, t, n - 23);
      }
    }
  }

  // A line with one of the patterns between two plain parts, its letters in any case, has the symbol in its place.
  lemma EveryPatternIsRewritten(line: string, u: string, t: string, n: nat)
    requires Plain(u) && Plain(t) && n < 26 && IsVariant(line, u + PATTERNS[n].0 + t)
    ensures Normalized(line) == u + PATTERNS[n].1 + t
  {
    forall c | c in u + PATTERNS[n].0 + t
      ensures !IsUpper(c)
    {
      if c in PATTERNS[n].0 {
        PatternsAreLowered(n, c);
      }
    }
    NormalizedIs(line, u + PATTERNS[n].0 + t);
    PatternIsRewritten(u, t, n);
  }

  lemma NothingIsMissed()
    ensures MissesAtRules("", 9) && MissesDotRules("", 7) && Misses("", " underscore ", 0)
    ensures MissesGmailRules("", 5) && MissesCleanupRules("", 3) && Plain("")
  {
  }

  // A plain line stays as it is, in small letters.
  lemma PlainLineStays(line: string, u: string)
    requires Plain(u) && IsVariant(line, u)
    ensures Normalized(line) == u
  {
    NormalizedIs(line, u);
    assert u + "" + "" == u;
    NothingIsMissed();
    AtStays(u, "", "");
    DotStays(u, "", "");
    UnderscoreStays(u, "", "");
    GmailStays(u, "", "");
    CleanupStays(u, "", "");
  }

  // ---------- A mail address in words ----------

  function Words(u: string, h: string, t: string): string {
    u + " at " + h + " dot " + t
  }

  lemma PartIsPlain(left: string, part: string, right: string, i: int)
    requires NoSpecial(part)
    ensures |left| <= i < |left| + |part| ==> !IsSpecial((left + part + right)[i])
  {
    if |left| <= i < |left| + |part| {
      assert (left + part + right)[i] == part[i - |left|];
    }
  }

  lemma PartsArePlain(u: string, h: string, t: string, i: int)
    requires NoSpecial(u) && NoSpecial(h) && NoSpecial(t)
    ensures var x := Words(u, h, t);
            0 <= i < |u| || |u| + 4 <= i < |u| + 4 + |h| || |u| + 9 + |h| <= i < |x| ==> !IsSpecial(x[i])
  {
    var x := Words(u, h, t);
    assert x == "" + u + (" at " + h + " dot " + t);
    PartIsPlain("", u, " at " + h + " dot " + t, i);
    assert x == u + " at " + h + (" dot " + t);
    PartIsPlain(u + " at ", h, " dot " + t, i);
    assert x == u + " at " + h + " dot " + t + "";
    PartIsPlain(u + " at " + h + " dot ", t, "", i);
  }

  lemma SpacesOfWords(u: string, h: string, t: string, i: int)
    requires NoSpecial(u) && NoSpecial(h) && NoSpecial(t) && 0 <= i < |Words(u, h, t)|
    requires IsSpecial(Words(u, h, t)[i])
    ensures Words(u, h, t)[i] == ' '
    ensures i == |u| || i == |u| + 3 || i == |u| + 4 + |h| || i == |u| + 8 + |h|
  {
    PartsArePlain(u, h, t, i);
  }

  lemma SpaceBetween(u: string, h: string, t: string)
    ensures var x := Words(u, h, t);
            x[|u|] == ' ' && x[|u| + 3] == ' ' && x[|u| + 4 + |h|] == ' ' && x[|u| + 8 + |h|] == ' '
  {
    assert Words(u, h, t) == (u + " at ") + h + (" dot " + t);
  }

  // A pattern with a special character other than the space does not occur.
  lemma ForeignIsNowhere(u: string, h: string, t: string, pat: string)
    requires NoSpecial(u) && NoSpecial(h) && NoSpecial(t) && pat != "" && IsSpecial(pat[0]) && pat[0] != ' '
    ensures !Contains(Words(u, h, t), pat)
  {
    forall j
      ensures !OccursAt(Words(u, h, t), pat, j)
    {
      if OccursAt(Words(u, h, t), pat, j) {
        OccurrenceMatches(Words(u, h, t), pat, j, 0);
        SpacesOfWords(u, h, t, j);
      }
    }
  }

  // The spaces of this pattern are not as far apart as those of the words.
  lemma RateIsNowhere(u: string, h: string, t: string, pat: string)
    requires NoSpecial(u) && NoSpecial(h) && NoSpecial(t)
    requires |pat| == 13 && pat[0] == ' ' && pat[3] == ' ' && pat[7] == ' ' && pat[12] == ' '
    ensures !Contains(Words(u, h, t), pat)
  {
    var x := Words(u, h, t);
    forall j
      ensures !OccursAt(x, pat, j)
    {
      if OccursAt(x, pat, j) {
        OccurrenceMatches(x, pat, j, 0);
        SpacesOfWords(u, h, t, j);
        OccurrenceMatches(x, pat, j, 3);
        SpacesOfWords(u, h, t, j + 3);
        OccurrenceMatches(x, pat, j, 7);
        SpacesOfWords(u, h, t, j + 7);
        OccurrenceMatches(x, pat, j, 12);
        SpacesOfWords(u, h, t, j + 12);
      }
    }
  }

  // A word longer than three letters lies in one of the plain parts.
  lemma WordIsInPart(u: string, h: string, t: string, word: string, j: int)
    requires OccursAt(Words(u, h, t), word, j) && |word| > 3 && ' ' !in word
    ensures Contains(u, word) || Contains(h, word) || Contains(t, word)
  {
    var x, first := Words(u, h, t), u + " at ";
    SpaceBetween(u, h, t);
    WordSkips(x, word, j, |u|);
    WordSkips(x, word, j, |u| + 3);
    WordSkips(x, word, j, |u| + 4 + |h|);
    WordSkips(x, word, j, |u| + 8 + |h|);
    if j + |word| <= |u| {
      assert x == u + (" at " + h + " dot " + t);
      OccursInFirst(u, " at " + h + " dot " + t, word, j);
    } else if j >= |u| + 9 + |h| {
      OccursInLast(first + h + " dot ", t, word, j);
    } else {
      assert x == (first + h) + (" dot " + t);
      OccursInFirst(first + h, " dot " + t, word, j);
      OccursInLast(first, h, word, j);
    }
  }

  lemma WordSkips(x: string, word: string, j: int, i: int)
    requires OccursAt(x, word, j) && 0 <= i < |x|
    ensures x[i] !in word ==> i < j || i >= j + |word|
  {
    if j <= i < j + |word| {
      OccurrenceCovers(x, word, j, i);
    }
  }

  lemma SpokenRulesQuiet(u: string, h: string, t: string)
    requires Plain(u) && Plain(h) && Plain(t)
    ensures Quiet(Words(u, h, t), AT_RULES, 0, 7)
  {
    forall k | 0 <= k < 7
      ensures !Contains(Words(u, h, t), AT_RULES[k].old_)
    {
      if k == 2 {
        RateIsNowhere(u, h, t, AT_RULES[2].old_);
      } else if k == 3 {
        if j :| OccursAt(Words(u, h, t), AT_RULES[3].old_, j) {
          WordIsInPart(u, h, t, AT_RULES[3].old_, j);
        }
      } else {
        ForeignIsNowhere(u, h, t, AT_RULES[k].old_);
      }
    }
  }

  lemma PlainAroundAtSign(u: string, h: string)
    requires Plain(u) && Plain(h)
    ensures Plain(u + "@" + h)
  {
    WordIsNowhere(u, "@", h, "attherate", 'h');
    WordIsNowhere(u, "@", h, "underscore", 'u');
    WordIsNowhere(u, "@", h, "period", 'p');
    WordIsNowhere(u, "@", h, "gm", 'g');
  }

  lemma SpokenAtIsFirst(u: string, h: string, t: string, at: string)
    requires NoSpecial(u) && NoSpecial(h) && NoSpecial(t) && at == " at "
    ensures IsFirst(Words(u, h, t), at, |u|)
    ensures ReplaceAt(Words(u, h, t), |u|, at, "@") == u + "@" + h + " dot " + t
  {
    var x := Words(u, h, t);
    assert x == u + at + (h + " dot " + t);
    assert x[|u|..|u| + 4] == at;
    forall j | j < |u|
      ensures !OccursAt(x, at, j)
    {
      if OccursAt(x, at, j) {
        OccurrenceMatches(x, at, j, 0);
        SpacesOfWords(u, h, t, j);
      }
    }
  }

  lemma SpokenAtIsWritten(u: string, h: string, t: string)
    requires Plain(u) && Plain(h) && Plain(t) && Plain(u + "@" + h)
    ensures FromAt(Words(u, h, t)) == FromAt(u + "@" + h + " dot " + t)
  {
    EveryRuleEnds();
    SpokenRulesQuiet(u, h, t);
    SpokenAtIsFirst(u, h, t, AT_RULES[7].old_);
    DotRuleFits(1);
    var p := DOT_RULES[1].old_;
    WordIsNowhere(u + "@" + h, p, t, "attherate", 'h');
    AtRulesQuiet(u + "@" + h, p, t, 9);
    FiringGroup(Words(u, h, t), u + "@" + h + p + t, AT_RULES, 7, |u|);
    QuietGroup(u + "@" + h + p + t, AT_RULES);
  }

  // A mail address in words, its letters in any case, becomes the mail address.
  lemma SpokenAddressIsWritten(line: string, u: string, h: string, t: string)
    requires Plain(u) && Plain(h) && Plain(t) && IsVariant(line, u + " at " + h + " dot " + t)
    ensures Normalized(line) == u + "@" + h + "." + t
  {
    forall c | c in Words(u, h, t)
      ensures !IsUpper(c)
    {
    }
    NormalizedIs(line, Words(u, h, t));
    PlainAroundAtSign(u, h);
    SpokenAtIsWritten(u, h, t);
    DotRuleRewrites(u + "@" + h, t, 1);
  }
}
