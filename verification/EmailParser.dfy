/**
 The rules engine that turns a line of text into e-mail format, over a line of unbounded length.
 */
module EmailParser {
  import opened Rewriting

  datatype Rule = Rule(old_: string, updated: string) {
    ghost predicate Ends() {
      Rewriting.Ends(old_, updated)
    }
  }

  // The rules in their order, in the groups that the program text puts them in.
  const AT_RULES: seq<Rule> := [
    Rule("_at_the_rate_", "@"), Rule("-at-the-rate-", "@"), Rule(" at the rate ", "@"), Rule("attherate", "@"),
    Rule("(attherate)", "@"), Rule("(at)", "@"), Rule("[at]", "@"), Rule(" at ", "@"), Rule("(@)", "@")]

  const DOT_RULES: seq<Rule> := [
    Rule("_dot_", "."), Rule(" dot ", "."), Rule("(dot)", "."), Rule("[dot]", "."), Rule(" period ", "."),
    Rule("period ", "."), Rule("(period)", ".")]

  const UNDERSCORE_RULES: seq<Rule> := [Rule(" underscore ", "_"), Rule("underscore", "_")]

  const GMAIL_RULES: seq<Rule> := [
    Rule(" gml ", " gmail "), Rule(" gmai ", " gmail "), Rule(" google mail ", " gmail "), Rule(" gm ", " gmail "),
    Rule("gm ", "gmail")]

  const CLEANUP_RULES: seq<Rule> := [Rule(" @ ", "@"), Rule(" . ", "."), Rule(" .com", ".com")]

  ghost predicate AllEnd(rules: seq<Rule>) {
    forall k :: 0 <= k < |rules| ==> rules[k].Ends()
  }

  // ---------- Every rule ends ----------

  lemma ShrinkingRulesEnd()
    ensures AllEnd(AT_RULES) && AllEnd(DOT_RULES) && AllEnd(UNDERSCORE_RULES) && AllEnd(CLEANUP_RULES)
  {
  }

  // The four growing rules all insert letters that the old string does not have.
  lemma GrowingRulesEnd()
    ensures Ends(" gml ", " gmail ") && Ends(" gmai ", " gmail ")
  {
    assert InsertsForeign(" gml ", " gmail ", 3, 2);
    assert InsertsForeign(" gmai ", " gmail ", 5, 1);
  }

  lemma OtherGrowingRulesEnd()
    ensures Ends(" gm ", " gmail ") && Ends("gm ", "gmail")
  {
    assert InsertsForeign(" gm ", " gmail ", 3, 1);
    assert InsertsForeign("gm ", "gmail", 2, 0);
  }

  lemma GmailRulesEnd()
    ensures AllEnd(GMAIL_RULES)
  {
    GrowingRulesEnd();
    OtherGrowingRulesEnd();
  }

  // ---------- What normalize computes ----------

  function LowerChar(c: char): char {
    if 'A' <= c <= 'Z' then (c as int - 'A' as int + 'a' as int) as char else c
  }

  function Lowered(s: string): string {
    seq(|s|, k requires 0 <= k < |s| => LowerChar(s[k]))
  }

  ghost function Applied(s: string, rules: seq<Rule>, k: nat): string
    requires AllEnd(rules) && k <= |rules|
    decreases k, s
  {
    if k == 0 then s else ReplacedAll(Applied(s, rules, k - 1), rules[k - 1].old_, rules[k - 1].updated)
  }

  ghost function Rewritten(s: string, rules: seq<Rule>): string
    requires AllEnd(rules)
  {
    Applied(s, rules, |rules|)
  }

  ghost function Normalized(s: string): string {
    ShrinkingRulesEnd();
    GmailRulesEnd();
    var at := Rewritten(Lowered(s), AT_RULES);
    var dots := Rewritten(at, DOT_RULES);
    var underscores := Rewritten(dots, UNDERSCORE_RULES);
    Rewritten(Rewritten(underscores, GMAIL_RULES), CLEANUP_RULES)
  }

  // ---------- What the normal form is free of ----------

  predicate IsUpper(c: char) {
    'A' <= c <= 'Z'
  }

  lemma LoweredHasNoUpper(s: string, c: char)
    requires IsUpper(c)
    ensures c !in Lowered(s)
  {
  }

  ghost predicate WriteNo(rules: seq<Rule>, c: char) {
    forall k :: 0 <= k < |rules| ==> c !in rules[k].updated
  }

  lemma {:induction false} AppliedKeepsAway(s: string, rules: seq<Rule>, k: nat, c: char)
    requires AllEnd(rules) && k <= |rules| && c !in s && WriteNo(rules, c)
    ensures c !in Applied(s, rules, k)
    decreases k
  {
    if k > 0 {
      AppliedKeepsAway(s, rules, k - 1, c);
      CharactersKept(Applied(s, rules, k - 1), rules[k - 1].old_, rules[k - 1].updated, c);
    }
  }

  lemma SymbolRulesWriteNoUpper(c: char)
    requires IsUpper(c)
    ensures WriteNo(AT_RULES, c) && WriteNo(DOT_RULES, c) && WriteNo(UNDERSCORE_RULES, c)
  {
  }

  lemma LetterRulesWriteNoUpper(c: char)
    requires IsUpper(c)
    ensures WriteNo(GMAIL_RULES, c) && WriteNo(CLEANUP_RULES, c)
  {
  }

  // No ASCII upper-case letter is left.
  lemma NormalizedHasNoUpper(s: string, c: char)
    requires IsUpper(c)
    ensures c !in Normalized(s)
  {
    ShrinkingRulesEnd();
    GmailRulesEnd();
    SymbolRulesWriteNoUpper(c);
    LetterRulesWriteNoUpper(c);
    LoweredHasNoUpper(s, c);
    var at := Rewritten(Lowered(s), AT_RULES);
    AppliedKeepsAway(Lowered(s), AT_RULES, |AT_RULES|, c);
    var dots := Rewritten(at, DOT_RULES);
    AppliedKeepsAway(at, DOT_RULES, |DOT_RULES|, c);
    var underscores := Rewritten(dots, UNDERSCORE_RULES);
    AppliedKeepsAway(dots, UNDERSCORE_RULES, |UNDERSCORE_RULES|, c);
    var gmail := Rewritten(underscores, GMAIL_RULES);
    AppliedKeepsAway(underscores, GMAIL_RULES, |GMAIL_RULES|, c);
    AppliedKeepsAway(gmail, CLEANUP_RULES, |CLEANUP_RULES|, c);
  }

  lemma CleanupCreatesNothing()
    ensures CannotCreate(".", " @ ", 0) && CannotCreate(".com", " @ ", 0) && CannotCreate(".com", " . ", 1)
  {
  }

  // Each cleanup rule removes its own string, and the later ones do not bring it back.
  lemma CleanupIsClean(s: string)
    requires AllEnd(CLEANUP_RULES)
    ensures var r := Rewritten(s, CLEANUP_RULES);
            !Contains(r, " @ ") && !Contains(r, " . ") && !Contains(r, " .com")
  {
    var s1 := ReplacedAll(s, " @ ", "@");
    var s2 := ReplacedAll(s1, " . ", ".");
    assert Applied(s, CLEANUP_RULES, 1) == s1 && Applied(s, CLEANUP_RULES, 2) == s2;
    assert Rewritten(s, CLEANUP_RULES) == ReplacedAll(s2, " .com", ".com");
    NoneLeft(s, " @ ", "@");
    NoneLeft(s1, " . ", ".");
    NoneLeft(s2, " .com", ".com");
    CleanupCreatesNothing();
    NotCreated(s1, " . ", ".", " @ ", 0);
    NotCreated(s2, " .com", ".com", " @ ", 0);
    NotCreated(s2, " .com", ".com", " . ", 1);
  }

  lemma NormalizedIsClean(s: string)
    ensures !Contains(Normalized(s), " @ ") && !Contains(Normalized(s), " . ") && !Contains(Normalized(s), " .com")
  {
    ShrinkingRulesEnd();
    GmailRulesEnd();
    var dots := Rewritten(Rewritten(Lowered(s), AT_RULES), DOT_RULES);
    CleanupIsClean(Rewritten(Rewritten(dots, UNDERSCORE_RULES), GMAIL_RULES));
  }

  lemma ContainsPart(s: string, p: string, i: nat, n: nat)
    requires i + n <= |p| && Contains(s, p)
    ensures Contains(s, p[i..i + n])
  {
    var j :| OccursAt(s, p, j);
    var found, part := s[i + j..i + j + n], p[i..i + n];
    forall k | 0 <= k < n
      ensures found[k] == part[k]
    {
      assert s[j + (i + k)] == s[j..j + |p|][i + k];
    }
    assert OccursAt(s, p[i..i + n], i + j);
  }

  // The fifth rule does nothing: the fourth has already taken out what stands between its parentheses.
  lemma FifthRuleDoesNothing(s: string)
    requires AllEnd(AT_RULES)
    ensures AT_RULES[4].old_ == "(attherate)" && Applied(s, AT_RULES, 5) == Applied(s, AT_RULES, 4)
  {
    var before := Applied(s, AT_RULES, 4);
    assert before == ReplacedAll(Applied(s, AT_RULES, 3), "attherate", "@");
    NoneLeft(Applied(s, AT_RULES, 3), "attherate", "@");
    assert "(attherate)"[1..10] == "attherate";
    if Contains(before, "(attherate)") {
      ContainsPart(before, "(attherate)", 1, 9);
    }
    ReplacedAllDone(before, "(attherate)", "@");
  }

  // ---------- The line that the program rewrites in place ----------

  class Line {
    var text: string

    constructor (content: string)
      ensures text == content
    {
      text := content;
    }

    method ConvertToLowercase()
      modifies this
      ensures text == Lowered(old(text))
    {
      var i := 0;
      while i < |text|
        invariant i <= |text| == |old(text)|
        invariant forall k :: 0 <= k < |text| ==> text[k] == if k < i then LowerChar(old(text)[k]) else old(text)[k]
      {
        text := text[i := LowerChar(text[i])];
        i := i + 1;
      }
    }

    // Ends for every line, by the measure of the rule, with no occurrence left.
    method ReplaceAll(old_: string, updated: string)
      requires Ends(old_, updated)
      modifies this
      ensures text == ReplacedAll(old(text), old_, updated)
      ensures !Contains(text, old_)
    {
      NoneLeft(text, old_, updated);
      var i := Find(text, old_);
      while i != -1
        invariant ReplacedAll(text, old_, updated) == ReplacedAll(old(text), old_, updated)
        invariant if i == -1 then !Contains(text, old_) else IsFirst(text, old_, i)
        decreases Measure(text, old_, updated)
      {
        ReplacementDecreases(text, i, old_, updated);
        ReplacedAllStep(text, i, old_, updated);
        text := text[..i] + updated + text[i + |old_|..];
        i := Find(text, old_);
      }
      ReplacedAllDone(text, old_, updated);
    }

    method RewriteAt()
      modifies this
      ensures AllEnd(AT_RULES) && text == Rewritten(old(text), AT_RULES)
    {
      ghost var start := text;
      ShrinkingRulesEnd();
      ReplaceAll("_at_the_rate_", "@");
      assert text == Applied(start, AT_RULES, 1);
      ReplaceAll("-at-the-rate-", "@");
      assert text == Applied(start, AT_RULES, 2);
      ReplaceAll(" at the rate ", "@");
      assert text == Applied(start, AT_RULES, 3);
      ReplaceAll("attherate", "@");
      assert text == Applied(start, AT_RULES, 4);
      ReplaceAll("(attherate)", "@");
      assert text == Applied(start, AT_RULES, 5);
      ReplaceAll("(at)", "@");
      assert text == Applied(start, AT_RULES, 6);
      ReplaceAll("[at]", "@");
      assert text == Applied(start, AT_RULES, 7);
      ReplaceAll(" at ", "@");
      assert text == Applied(start, AT_RULES, 8);
      ReplaceAll("(@)", "@");
      assert text == Applied(start, AT_RULES, 9);
    }

    method RewriteDot()
      modifies this
      ensures AllEnd(DOT_RULES) && text == Rewritten(old(text), DOT_RULES)
    {
      ghost var start := text;
      ShrinkingRulesEnd();
      ReplaceAll("_dot_", ".");
      assert text == Applied(start, DOT_RULES, 1);
      ReplaceAll(" dot ", ".");
      assert text == Applied(start, DOT_RULES, 2);
      ReplaceAll("(dot)", ".");
      assert text == Applied(start, DOT_RULES, 3);
      ReplaceAll("[dot]", ".");
      assert text == Applied(start, DOT_RULES, 4);
      ReplaceAll(" period ", ".");
      assert text == Applied(start, DOT_RULES, 5);
      ReplaceAll("period ", ".");
      assert text == Applied(start, DOT_RULES, 6);
      ReplaceAll("(period)", ".");
      assert text == Applied(start, DOT_RULES, 7);
    }

    method RewriteUnderscore()
      modifies this
      ensures AllEnd(UNDERSCORE_RULES) && text == Rewritten(old(text), UNDERSCORE_RULES)
    {
      ghost var start := text;
      ShrinkingRulesEnd();
      ReplaceAll(" underscore ", "_");
      assert text == Applied(start, UNDERSCORE_RULES, 1);
      ReplaceAll("underscore", "_");
      assert text == Applied(start, UNDERSCORE_RULES, 2);
    }

    method RewriteGmail()
      modifies this
      ensures AllEnd(GMAIL_RULES) && text == Rewritten(old(text), GMAIL_RULES)
    {
      ghost var start := text;
      GmailRulesEnd();
      GrowingRulesEnd();
      OtherGrowingRulesEnd();
      ReplaceAll(" gml ", " gmail ");
      assert text == Applied(start, GMAIL_RULES, 1);
      ReplaceAll(" gmai ", " gmail ");
      assert text == Applied(start, GMAIL_RULES, 2);
      ReplaceAll(" google mail ", " gmail ");
      assert text == Applied(start, GMAIL_RULES, 3);
      ReplaceAll(" gm ", " gmail ");
      assert text == Applied(start, GMAIL_RULES, 4);
      ReplaceAll("gm ", "gmail");
      assert text == Applied(start, GMAIL_RULES, 5);
    }

    method CleanUp()
      modifies this
      ensures AllEnd(CLEANUP_RULES) && text == Rewritten(old(text), CLEANUP_RULES)
    {
      ghost var start := text;
      ShrinkingRulesEnd();
      ReplaceAll(" @ ", "@");
      assert text == Applied(start, CLEANUP_RULES, 1);
      ReplaceAll(" . ", ".");
      assert text == Applied(start, CLEANUP_RULES, 2);
      ReplaceAll(" .com", ".com");
      assert text == Applied(start, CLEANUP_RULES, 3);
    }

    method Normalize()
      modifies this
      ensures text == Normalized(old(text))
      ensures !Contains(text, " @ ") && !Contains(text, " . ") && !Contains(text, " .com")
      ensures forall c :: c in text ==> !IsUpper(c)
    {
      NormalizedIsClean(text);
      forall c | IsUpper(c)
        ensures c !in Normalized(text)
      {
        NormalizedHasNoUpper(text, c);
      }
      ConvertToLowercase();
      RewriteAt();
      RewriteDot();
      RewriteUnderscore();
      RewriteGmail();
      CleanUp();
    }
  }
}
