/**
 Cutting a line into its words: the maximal runs of characters other than the delimiter.
 */
module Tokenizer {
  import opened Wrappers

  // ---------- The runs, by definition ----------

  predicate FreeOf(s: string, delim: char, a: int, b: int)
    requires 0 <= a <= b <= |s|
  {
    forall k :: a <= k < b ==> s[k] != delim
  }

  predicate Ends(s: string, delim: char, i: int) {
    i == |s| || (0 <= i < |s| && s[i] == delim)
  }

  predicate Begins(s: string, delim: char, i: int) {
    i == 0 || (0 < i <= |s| && s[i - 1] == delim)
  }

  predicate IsRun(s: string, delim: char, a: int, b: int) {
    0 <= a < b <= |s| && Begins(s, delim, a) && Ends(s, delim, b) && FreeOf(s, delim, a, b)
  }

  // ---------- The runs, by one scan ----------

  // The place after the last delimiter among the first i characters.
  function Start(s: string, delim: char, i: nat): (a: nat)
    requires i <= |s|
    ensures a <= i && FreeOf(s, delim, a, i) && Begins(s, delim, a)
    decreases i
  {
    if i == 0 || s[i - 1] == delim then i else Start(s, delim, i - 1)
  }

  // The runs that end before place i; the end of the string counts as a delimiter.
  function Ended(s: string, delim: char, i: nat): (spans: seq<(nat, nat)>)
    requires i <= |s| + 1
    ensures forall k :: 0 <= k < |spans| ==> spans[k].0 < spans[k].1 <= |s| && spans[k].1 < i
    decreases i, s
  {
    if i == 0 then []
    else
      var before, a := Ended(s, delim, i - 1), Start(s, delim, i - 1);
      if Ends(s, delim, i - 1) && a < i - 1 then before + [(a, i - 1)] else before
  }

  function Spans(s: string, delim: char): seq<(nat, nat)> {
    Ended(s, delim, |s| + 1)
  }

  lemma RunIsFromStart(s: string, delim: char, a: nat, b: nat)
    requires b <= |s|
    ensures IsRun(s, delim, a, b) <==> Ends(s, delim, b) && a == Start(s, delim, b) < b
  {
  }

  // The scan finds exactly the runs.
  lemma {:induction false} EndedAreRuns(s: string, delim: char, i: nat, a: nat, b: nat)
    requires i <= |s| + 1
    ensures (a, b) in Ended(s, delim, i) <==> IsRun(s, delim, a, b) && b < i
    decreases i
  {
    if i > 0 {
      EndedAreRuns(s, delim, i - 1, a, b);
      if b == i - 1 {
        RunIsFromStart(s, delim, a, b);
      }
    }
  }

  ghost predicate LeftToRight(spans: seq<(nat, nat)>) {
    forall j, k :: 0 <= j < k < |spans| ==> spans[j].1 < spans[k].0
  }

  // It finds them from left to right.
  lemma {:induction false} EndedLeftToRight(s: string, delim: char, i: nat)
    requires i <= |s| + 1
    ensures LeftToRight(Ended(s, delim, i))
    decreases i
  {
    if i > 0 {
      EndedLeftToRight(s, delim, i - 1);
      var before := Ended(s, delim, i - 1);
      forall k | 0 <= k < |before|
        ensures before[k].1 < Start(s, delim, i - 1)
      {
        EndedAreRuns(s, delim, i - 1, before[k].0, before[k].1);
      }
    }
  }

  // The spans are all the runs and nothing else, in their order.
  lemma SpansAreRuns(s: string, delim: char)
    ensures forall a: nat, b: nat :: (a, b) in Spans(s, delim) <==> IsRun(s, delim, a, b)
    ensures LeftToRight(Spans(s, delim))
  {
    forall a: nat, b: nat
      ensures (a, b) in Spans(s, delim) <==> IsRun(s, delim, a, b)
    {
      EndedAreRuns(s, delim, |s| + 1, a, b);
    }
    EndedLeftToRight(s, delim, |s| + 1);
  }

  // ---------- Words ----------

  function Texts(s: string, spans: seq<(nat, nat)>): (texts: seq<string>)
    requires forall k :: 0 <= k < |spans| ==> spans[k].0 < spans[k].1 <= |s|
    ensures |texts| == |spans|
  {
    seq(|spans|, k requires 0 <= k < |spans| => s[spans[k].0..spans[k].1])
  }

  // The words of a line, in order.
  function Words(s: string, delim: char): seq<string> {
    Texts(s, Spans(s, delim))
  }

  // ---------- Joining words ----------

  predicate IsWord(w: string, delim: char) {
    w != "" && FreeOf(w, delim, 0, |w|)
  }

  function Join(words: seq<string>, delim: char): string {
    if words == [] then ""
    else if |words| == 1 then words[0]
    else Join(words[..|words| - 1], delim) + [delim] + words[|words| - 1]
  }

  lemma {:induction false} StartOfPrefix(s: string, t: string, delim: char, i: nat)
    requires i <= |s| <= |t| && t[..|s|] == s
    ensures Start(s, delim, i) == Start(t, delim, i)
    decreases i
  {
    if i > 0 {
      assert t[..|s|][i - 1] == s[i - 1];
      StartOfPrefix(s, t, delim, i - 1);
    }
  }

  // A delimiter behind a string ends the same run as the end of the string.
  lemma {:induction false} EndedOfPrefix(s: string, t: string, delim: char, i: nat)
    requires i <= |s| + 1 <= |t| && t[..|s|] == s && t[|s|] == delim
    ensures Ended(s, delim, i) == Ended(t, delim, i)
    decreases i
  {
    if i > 0 {
      EndedOfPrefix(s, t, delim, i - 1);
      StartOfPrefix(s, t, delim, i - 1);
      if i - 1 < |s| {
        assert t[..|s|][i - 1] == s[i - 1];
      }
    }
  }

  // Nothing ends inside a word.
  lemma {:induction false} EndedInsideWord(t: string, delim: char, a: nat, i: nat)
    requires a <= i <= |t| && Begins(t, delim, a) && FreeOf(t, delim, a, |t|)
    ensures Start(t, delim, i) == a && Ended(t, delim, i) == Ended(t, delim, a)
    decreases i
  {
    if i > a {
      EndedInsideWord(t, delim, a, i - 1);
    }
  }

  lemma SpansOfAppended(s: string, delim: char, w: string)
    requires IsWord(w, delim)
    ensures Spans(s + [delim] + w, delim) == Spans(s, delim) + [(|s| + 1, |s| + 1 + |w|)]
  {
    var t, a := s + [delim] + w, |s| + 1;
    assert t[..|s|] == s;
    EndedOfPrefix(s, t, delim, a);
    assert FreeOf(t, delim, a, |t|) by {
      forall k | a <= k < |t|
        ensures t[k] != delim
      {
        assert t[k] == w[k - a];
      }
    }
    EndedInsideWord(t, delim, a, |t|);
  }

  lemma TextsOfAppended(s: string, more: string, spans: seq<(nat, nat)>, last: (nat, nat))
    requires forall k :: 0 <= k < |spans| ==> spans[k].0 < spans[k].1 <= |s|
    requires last.0 < last.1 <= |s + more|
    ensures Texts(s + more, spans + [last]) == Texts(s, spans) + [(s + more)[last.0..last.1]]
  {
    forall k | 0 <= k < |spans|
      ensures Texts(s + more, spans + [last])[k] == Texts(s, spans)[k]
    {
      assert (s + more)[spans[k].0..spans[k].1] == s[spans[k].0..spans[k].1];
    }
  }

  lemma WordsOfAppended(s: string, delim: char, w: string)
    requires IsWord(w, delim)
    ensures Words(s + [delim] + w, delim) == Words(s, delim) + [w]
  {
    var t, a := s + [delim] + w, |s| + 1;
    SpansOfAppended(s, delim, w);
    TextsOfAppended(s, [delim] + w, Spans(s, delim), (a, |t|));
    assert t == s + ([delim] + w) && t[a..|t|] == w;
  }

  lemma WordsOfWord(w: string, delim: char)
    requires IsWord(w, delim)
    ensures Words(w, delim) == [w]
  {
    EndedInsideWord(w, delim, 0, |w|);
    assert Spans(w, delim) == [(0, |w|)];
    assert w[0..|w|] == w;
  }

  // Joining words and cutting the result again returns the words.
  lemma {:induction false} JoinRoundTrip(words: seq<string>, delim: char)
    requires forall w :: w in words ==> IsWord(w, delim)
    ensures Words(Join(words, delim), delim) == words
  {
    if words == [] {
      assert Ended("", delim, 0) == [];
    } else if |words| == 1 {
      WordsOfWord(words[0], delim);
    } else {
      var init, last := words[..|words| - 1], words[|words| - 1];
      JoinRoundTrip(init, delim);
      WordsOfAppended(Join(init, delim), delim, last);
      assert init + [last] == words;
    }
  }

  // The words of a line are words, so joining them changes nothing but the delimiters.
  lemma WordsAreWords(s: string, delim: char)
    ensures forall w :: w in Words(s, delim) ==> IsWord(w, delim)
  {
    forall k | 0 <= k < |Words(s, delim)|
      ensures IsWord(Words(s, delim)[k], delim)
    {
      var span := Spans(s, delim)[k];
      EndedAreRuns(s, delim, |s| + 1, span.0, span.1);
    }
  }

  // ---------- The scan that copies the words into one buffer ----------

  // The string that begins at a place of a buffer and ends before the first zero character.
  function TextAt(chars: seq<char>, at: nat): string
    decreases |chars| - at
  {
    if at >= |chars| || chars[at] == '\0' then "" else [chars[at]] + TextAt(chars, at + 1)
  }

  lemma {:induction false} TextAtIs(chars: seq<char>, at: nat, text: string)
    requires at + |text| < |chars|
    requires forall k :: 0 <= k < |text| ==> chars[at + k] == text[k] != '\0'
    requires chars[at + |text|] == '\0'
    ensures TextAt(chars, at) == text
    decreases |text|
  {
    if text != "" {
      assert chars[at + 0] == text[0];
      forall k | 0 <= k < |text[1..]|
        ensures chars[at + 1 + k] == text[1..][k] != '\0'
      {
        assert chars[at + (k + 1)] == text[k + 1];
      }
      TextAtIs(chars, at + 1, text[1..]);
    }
  }

  // A text with its terminating zero, inside the first limit characters of a buffer.
  predicate Stored(chars: seq<char>, limit: nat, at: nat, text: string) {
    at + |text| < limit <= |chars| && chars[at + |text|] == '\0'
    && forall k :: 0 <= k < |text| ==> chars[at + k] == text[k]
  }

  // Texts that lie in a buffer at the given places, all of them inside its first limit characters.
  ghost predicate AllStored(chars: seq<char>, limit: nat, places: seq<nat>, texts: seq<string>) {
    |places| <= |texts| && forall k :: 0 <= k < |places| ==> Stored(chars, limit, places[k], texts[k])
  }

  // Writing a text behind the stored ones keeps them.
  lemma AllStoredStep(before: seq<char>, after: seq<char>, limit: nat, places: seq<nat>, texts: seq<string>,
                      text: string)
    requires AllStored(before, limit, places, texts) && |places| == |texts|
    requires limit <= |after| && |before| == |after| && forall k :: 0 <= k < limit ==> after[k] == before[k]
    requires Stored(after, limit + |text| + 1, limit, text)
    ensures AllStored(after, limit + |text| + 1, places + [limit], texts + [text])
  {
    forall k | 0 <= k < |places|
      ensures Stored(after, limit + |text| + 1, places[k], texts[k])
    {
      assert Stored(before, limit, places[k], texts[k]);
    }
  }

  // The first maxTokens words that end before place i.
  function FirstWords(s: string, delim: char, maxTokens: nat, i: nat): (words: seq<string>)
    requires i <= |s| + 1
    ensures |words| <= maxTokens
  {
    var words := Texts(s, Ended(s, delim, i));
    words[..Min(maxTokens, |words|)]
  }

  // What a place of the string adds to them.
  function Added(s: string, delim: char, maxTokens: nat, i: nat, start: nat, count: nat): seq<string>
    requires start <= i <= |s|
  {
    if Ends(s, delim, i) && start < i && count < maxTokens then [s[start..i]] else []
  }

  // How far the scan has come: the place after the last delimiter, and the words kept.
  ghost predicate Scanned(s: string, delim: char, maxTokens: nat, i: nat, start: nat, words: seq<string>) {
    && i <= |s| + 1
    && start == (if i <= |s| then Start(s, delim, i) else i)
    && words == FirstWords(s, delim, maxTokens, i)
  }

  lemma ScannedStep(s: string, delim: char, maxTokens: nat, i: nat, start: nat, words: seq<string>)
    requires i <= |s| && Scanned(s, delim, maxTokens, i, start, words)
    ensures start <= i
    ensures Scanned(s, delim, maxTokens, i + 1, if Ends(s, delim, i) then i + 1 else start,
                    words + Added(s, delim, maxTokens, i, start, |words|))
  {
    var before, after := Texts(s, Ended(s, delim, i)), Texts(s, Ended(s, delim, i + 1));
    assert after == before + if Ends(s, delim, i) && start < i then [s[start..i]] else [];
  }

  // Copies a word to a place in the buffer, terminates it, and records the place in tokens.
  method AddWord(buffer: array<char>, at: nat, tokens: array<nat>, count: nat, word: string, ghost words: seq<string>)
    requires at + |word| < buffer.Length && count < tokens.Length && count == |words|
    requires AllStored(buffer[..], at, tokens[..count], words)
    modifies buffer, tokens
    ensures AllStored(buffer[..], at + |word| + 1, tokens[..count + 1], words + [word])
  {
    ghost var before, places := buffer[..], tokens[..count];
    forall k | 0 <= k < |word| {
      buffer[at + k] := word[k];
    }
    buffer[at + |word|] := '\0';
    tokens[count] := at;
    AllStoredStep(before, buffer[..], at, places, words, word);
    assert tokens[..count + 1] == places + [at];
  }

  /**
   Copies the first maxTokens words of a line, each with a terminating zero, into one new buffer that is a
   character longer than the line, and puts the place of each into tokens.
   */
  method TokenizeBySpace(str: string, delim: char, tokens: array<nat>, maxTokens: nat)
    returns (count: nat, buffer: array<char>)
    requires '\0' !in str && maxTokens <= tokens.Length
    modifies tokens
    ensures fresh(buffer) && buffer.Length == |str| + 1
    ensures count == Min(maxTokens, |Words(str, delim)|)
    ensures forall k :: 0 <= k < count ==> TextAt(buffer[..], tokens[k]) == Words(str, delim)[k]
  {
    count := 0;
    var start, bufferIndex, i := 0, 0, 0;
    buffer := new char[|str| + 1];
    ghost var words := [];
    while i <= |str|
      invariant i <= |str| + 1 && buffer.Length == |str| + 1 && fresh(buffer)
      invariant Scanned(str, delim, maxTokens, i, start, words)
      invariant bufferIndex <= start && count == |words| <= maxTokens
      invariant AllStored(buffer[..], bufferIndex, tokens[..count], words)
    {
      ScannedStep(str, delim, maxTokens, i, start, words);
      ghost var next := words + Added(str, delim, maxTokens, i, start, count);
      if i == |str| || str[i] == delim {
        var tokLen := i - start;
        if tokLen > 0 && count < maxTokens {
          AddWord(buffer, bufferIndex, tokens, count, str[start..i], words);
          bufferIndex := bufferIndex + tokLen + 1;
          count := count + 1;
        }
        start := i + 1;
      }
      words := next;
      i := i + 1;
    }
    FirstTextsRead(str, delim, buffer[..], bufferIndex, tokens[..count]);
  }

  // The stored words are what a reader of the buffer finds at their places.
  lemma FirstTextsRead(str: string, delim: char, chars: seq<char>, limit: nat, places: seq<nat>)
    requires '\0' !in str && |places| <= |Words(str, delim)|
    requires AllStored(chars, limit, places, Words(str, delim)[..|places|])
    ensures forall k :: 0 <= k < |places| ==> TextAt(chars, places[k]) == Words(str, delim)[k]
  {
    forall k | 0 <= k < |places|
      ensures TextAt(chars, places[k]) == Words(str, delim)[k]
    {
      var span := Spans(str, delim)[k];
      assert Stored(chars, limit, places[k], Words(str, delim)[..|places|][k]);
      forall c | c in str[span.0..span.1]
        ensures c in str
      {
      }
      TextAtIs(chars, places[k], Words(str, delim)[k]);
    }
  }
}
