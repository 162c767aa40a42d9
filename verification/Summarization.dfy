/**
 The summary of a document: the lines that contain one of its rarest words.
 */
module Summarization {
  import opened Rewriting
  import opened Tokenizer
  import opened WordTable
  import opened Wrappers

  const MAX_TOKEN_LIMIT := 1000
  const TOP := 5

  // ---------- The order of the entries ----------

  predicate IsText(s: string) {
    '\0' !in s
  }

  // The character a string comparison reads first: the terminating zero when the string is over.
  function Head(s: string): int {
    if s == "" then 0 else s[0] as int
  }

  // strcmp: the difference of the first characters that differ.
  function StrCmp(a: string, b: string): int {
    if a == "" || b == "" || a[0] != b[0] then Head(a) - Head(b) else StrCmp(a[1..], b[1..])
  }

  function CompareWordCount(a: WordCount, b: WordCount): int {
    if a.count != b.count then a.count - b.count else StrCmp(a.word, b.word)
  }

  lemma {:induction false} StrCmpIsAntisymmetric(a: string, b: string)
    requires IsText(a) && IsText(b)
    ensures StrCmp(a, b) == -StrCmp(b, a)
    ensures StrCmp(a, b) == 0 <==> a == b
  {
    if a != "" && b != "" && a[0] == b[0] {
      StrCmpIsAntisymmetric(a[1..], b[1..]);
      assert a == [a[0]] + a[1..] && b == [b[0]] + b[1..];
    }
  }

  lemma {:induction false} StrCmpIsTransitive(a: string, b: string, c: string)
    requires IsText(a) && IsText(b) && IsText(c)
    requires StrCmp(a, b) < 0 && StrCmp(b, c) < 0
    ensures StrCmp(a, c) < 0
  {
    if a != "" && b != "" && c != "" && a[0] == b[0] == c[0] {
      StrCmpIsTransitive(a[1..], b[1..], c[1..]);
    }
  }

  ghost predicate DifferAt(a: string, b: string, k: int) {
    0 <= k < |a| && k < |b| && a[..k] == b[..k] && a[k] != b[k]
  }

  // Alphabetical order: a proper prefix comes first, and otherwise the first characters that differ decide.
  ghost predicate LexLess(a: string, b: string) {
    || (|a| < |b| && a == b[..|a|])
    || exists k :: DifferAt(a, b, k) && a[k] < b[k]
  }

  lemma PrefixesHaveSameHead(a: string, b: string, n: int)
    ensures 0 < n <= |a| && n <= |b| && a[..n] == b[..n] ==> a[0] == b[0]
  {
    if 0 < n <= |a| && n <= |b| && a[..n] == b[..n] {
      assert a[0] == a[..n][0] && b[0] == b[..n][0];
    }
  }

  lemma PrefixIsSlice(a: string, b: string)
    ensures |a| <= |b| && a == b[..|a|] ==> a[..|a|] == b[..|a|]
  {
  }

  lemma DifferAtHeads(a: string, b: string)
    requires a == "" || b == "" || a[0] != b[0]
    ensures LexLess(a, b) <==> if a == "" || b == "" then |a| < |b| else a[0] < b[0]
  {
    PrefixIsSlice(a, b);
    PrefixesHaveSameHead(a, b, |a|);
    forall k
      ensures DifferAt(a, b, k) ==> k == 0
    {
      PrefixesHaveSameHead(a, b, k);
    }
    if a != "" && b != "" {
      assert DifferAt(a, b, 0);
    }
  }

  lemma DifferAtTails(a: string, b: string, k: int)
    requires a != "" && b != "" && a[0] == b[0] && k >= 0
    ensures DifferAt(a[1..], b[1..], k) <==> DifferAt(a, b, k + 1)
  {
    if k < |a[1..]| && k < |b[1..]| {
      assert a[..k + 1] == [a[0]] + a[1..][..k] && b[..k + 1] == [b[0]] + b[1..][..k];
    }
  }

  lemma LexLessOfTails(a: string, b: string)
    requires a != "" && b != "" && a[0] == b[0]
    ensures LexLess(a, b) <==> LexLess(a[1..], b[1..])
  {
    var s, t := a[1..], b[1..];
    assert a == [a[0]] + s;
    if |a| < |b| {
      assert b[..|a|] == [b[0]] + t[..|s|];
    }
    if k :| DifferAt(a, b, k) && a[k] < b[k] {
      DifferAtTails(a, b, k - 1);
      assert DifferAt(s, t, k - 1) && s[k - 1] < t[k - 1];
    }
    if k :| DifferAt(s, t, k) && s[k] < t[k] {
      DifferAtTails(a, b, k);
      assert DifferAt(a, b, k + 1) && a[k + 1] < b[k + 1];
    }
  }

  // strcmp is negative exactly for strings in alphabetical order.
  lemma {:induction false} StrCmpIsAlphabetical(a: string, b: string)
    requires IsText(a) && IsText(b)
    ensures StrCmp(a, b) < 0 <==> LexLess(a, b)
  {
    if a == "" || b == "" || a[0] != b[0] {
      DifferAtHeads(a, b);
      TextsStartAboveZero(a);
      TextsStartAboveZero(b);
    } else {
      StrCmpIsAlphabetical(a[1..], b[1..]);
      LexLessOfTails(a, b);
    }
  }

  lemma TextsStartAboveZero(a: string)
    requires IsText(a)
    ensures a != "" ==> Head(a) > 0
  {
    if a != "" {
      assert a[0] in a;
    }
  }

  // Comes before: fewer occurrences, or as many and the smaller word.
  ghost predicate Precedes(e: WordCount, f: WordCount) {
    e.count < f.count || (e.count == f.count && LexLess(e.word, f.word))
  }

  lemma CompareIsPrecedes(e: WordCount, f: WordCount)
    requires IsText(e.word) && IsText(f.word)
    ensures CompareWordCount(e, f) < 0 <==> Precedes(e, f)
  {
    StrCmpIsAlphabetical(e.word, f.word);
  }

  // The comparison is a strict total order on entries: fewer occurrences first, then the alphabet.
  lemma CompareIsStrictTotalOrder(a: WordCount, b: WordCount, c: WordCount)
    requires IsText(a.word) && IsText(b.word) && IsText(c.word)
    ensures CompareWordCount(a, b) < 0 <==> Precedes(a, b)
    ensures CompareWordCount(a, b) == -CompareWordCount(b, a)
    ensures CompareWordCount(a, b) == 0 <==> a == b
    ensures CompareWordCount(a, b) < 0 && CompareWordCount(b, c) < 0 ==> CompareWordCount(a, c) < 0
  {
    CompareIsPrecedes(a, b);
    StrCmpIsAntisymmetric(a.word, b.word);
    if CompareWordCount(a, b) < 0 && CompareWordCount(b, c) < 0 && a.count == b.count == c.count {
      StrCmpIsTransitive(a.word, b.word, c.word);
    }
  }

  // ---------- Sorting ----------

  ghost predicate AllTexts(table: seq<WordCount>) {
    forall e :: e in table ==> IsText(e.word)
  }

  ghost predicate Sorted(table: seq<WordCount>) {
    forall j, k :: 0 <= j < k < |table| ==> CompareWordCount(table[j], table[k]) <= 0
  }

  // What a correct sort may return.
  ghost predicate SortOf(sorted: seq<WordCount>, table: seq<WordCount>) {
    Sorted(sorted) && multiset(sorted) == multiset(table)
  }

  ghost predicate AllAtMost(table: seq<WordCount>, e: WordCount) {
    forall d :: d in table ==> CompareWordCount(d, e) <= 0
  }

  lemma SortedWithLast(sorted: seq<WordCount>, e: WordCount)
    requires Sorted(sorted) && AllAtMost(sorted, e)
    ensures Sorted(sorted + [e])
  {
  }

  lemma LastIsLargest(sorted: seq<WordCount>, e: WordCount)
    requires AllTexts(sorted) && IsText(e.word) && Sorted(sorted) && sorted != []
    requires CompareWordCount(sorted[|sorted| - 1], e) <= 0
    ensures AllAtMost(sorted, e)
  {
    var last := sorted[|sorted| - 1];
    forall j | 0 <= j < |sorted|
      ensures CompareWordCount(sorted[j], e) <= 0
    {
      CompareIsStrictTotalOrder(sorted[j], last, e);
      CompareIsStrictTotalOrder(last, e, e);
    }
  }

  lemma {:induction false} Inserted(sorted: seq<WordCount>, e: WordCount) returns (longer: seq<WordCount>)
    requires AllTexts(sorted) && IsText(e.word) && Sorted(sorted)
    ensures SortOf(longer, sorted + [e])
  {
    if sorted == [] {
      longer := [e];
    } else if CompareWordCount(sorted[|sorted| - 1], e) <= 0 {
      longer := sorted + [e];
      LastIsLargest(sorted, e);
      SortedWithLast(sorted, e);
    } else {
      var init, last := sorted[..|sorted| - 1], sorted[|sorted| - 1];
      var before := Inserted(init, e);
      longer := before + [last];
      assert sorted == init + [last];
      LastIsAbove(init, e, last, before);
      SortedWithLast(before, last);
    }
  }

  lemma LastIsAbove(init: seq<WordCount>, e: WordCount, last: WordCount, before: seq<WordCount>)
    requires Sorted(init + [last]) && IsText(e.word) && IsText(last.word) && CompareWordCount(last, e) > 0
    requires multiset(before) == multiset(init + [e])
    ensures AllAtMost(before, last)
  {
    CompareIsStrictTotalOrder(last, e, last);
    forall d | d in before
      ensures CompareWordCount(d, last) <= 0
    {
      assert d in multiset(init + [e]);
      if d in init {
        var j :| 0 <= j < |init| && init[j] == d;
        assert (init + [last])[j] == d && (init + [last])[|init|] == last;
      }
    }
  }

  // A correct sort exists.
  lemma {:induction false} SortExists(table: seq<WordCount>) returns (sorted: seq<WordCount>)
    requires AllTexts(table)
    ensures SortOf(sorted, table)
  {
    if table == [] {
      sorted := [];
    } else {
      var init := SortExists(table[..|table| - 1]);
      forall e | e in init
        ensures IsText(e.word)
      {
        assert e in multiset(table[..|table| - 1]);
      }
      sorted := Inserted(init, table[|table| - 1]);
      assert table == table[..|table| - 1] + [table[|table| - 1]];
    }
  }

  lemma SortedHeadsAgree(s: seq<WordCount>, t: seq<WordCount>)
    requires s != [] && t != [] && AllTexts(s) && Sorted(s) && Sorted(t) && multiset(s) == multiset(t)
    ensures s[0] == t[0]
  {
    assert s[0] in multiset(t) && t[0] in multiset(s);
    var j :| 0 <= j < |t| && t[j] == s[0];
    var k :| 0 <= k < |s| && s[k] == t[0];
    CompareIsStrictTotalOrder(s[0], t[0], s[0]);
  }

  // Every correct sort returns the same sequence.
  lemma {:induction false} SortIsUnique(s: seq<WordCount>, t: seq<WordCount>)
    requires AllTexts(s) && Sorted(s) && Sorted(t) && multiset(s) == multiset(t)
    ensures s == t
  {
    assert |s| == |multiset(s)| == |multiset(t)| == |t|;
    if s != [] {
      SortedHeadsAgree(s, t);
      assert s == [s[0]] + s[1..] && t == [t[0]] + t[1..];
      assert multiset(s[1..]) == multiset(s) - multiset{s[0]};
      assert multiset(t[1..]) == multiset(t) - multiset{t[0]};
      SortIsUnique(s[1..], t[1..]);
    }
  }

  // ---------- The rarest words ----------

  function Rarest(sorted: seq<WordCount>): (top: seq<WordCount>)
    ensures |top| == if |sorted| < 5 then |sorted| else 5
    ensures top <= sorted
  {
    sorted[..Min(|sorted|, TOP)]
  }

  lemma OutsideIsLater(sorted: seq<WordCount>, e: WordCount, f: WordCount)
    requires AllTexts(sorted) && Sorted(sorted)
    requires e in Rarest(sorted) && f in sorted && f !in Rarest(sorted)
    ensures CompareWordCount(e, f) < 0
  {
    var j :| 0 <= j < |Rarest(sorted)| && Rarest(sorted)[j] == e;
    var k :| 0 <= k < |sorted| && sorted[k] == f;
    CompareIsStrictTotalOrder(e, f, e);
  }

  lemma SameMembers(sorted: seq<WordCount>, table: seq<WordCount>, e: WordCount)
    requires multiset(sorted) == multiset(table)
    ensures e in sorted <==> e in table
  {
    assert e in sorted <==> e in multiset(sorted);
    assert e in table <==> e in multiset(table);
  }

  // The selection does not depend on how the sort works, and every entry in it comes before every entry outside: with
  // fewer occurrences, or with as many and the alphabetically smaller word.
  lemma RarestAreRarest(table: seq<WordCount>, sorted: seq<WordCount>, other: seq<WordCount>)
    requires AllTexts(table) && SortOf(sorted, table) && SortOf(other, table)
    ensures Rarest(sorted) == Rarest(other)
    ensures forall e, f :: e in Rarest(sorted) && f in table && f !in Rarest(sorted) ==> Precedes(e, f)
  {
    forall e | e in sorted
      ensures IsText(e.word)
    {
      SameMembers(sorted, table, e);
    }
    SortIsUnique(sorted, other);
    forall e, f | e in Rarest(sorted) && f in table && f !in Rarest(sorted)
      ensures Precedes(e, f)
    {
      SameMembers(sorted, table, f);
      OutsideIsLater(sorted, e, f);
      CompareIsPrecedes(e, f);
    }
  }

  // ---------- The words of a document ----------

  // The words that are counted of one line.
  function LineWords(line: string): (words: seq<string>)
    ensures |words| <= MAX_TOKEN_LIMIT
  {
    Words(line, ' ')[..Min(MAX_TOKEN_LIMIT, |Words(line, ' ')|)]
  }

  function DocumentWords(lines: seq<string>): seq<string> {
    if lines == [] then [] else DocumentWords(lines[..|lines| - 1]) + LineWords(lines[|lines| - 1])
  }

  // They are the first at most 1000 maximal runs without a blank, in their order.
  lemma LineWordsAreRuns(line: string) returns (spans: seq<(nat, nat)>)
    ensures forall a: nat, b: nat :: (a, b) in spans <==> IsRun(line, ' ', a, b)
    ensures LeftToRight(spans)
    ensures |LineWords(line)| == if |spans| < 1000 then |spans| else 1000
    ensures forall k :: 0 <= k < |LineWords(line)| ==>
              spans[k].0 <= spans[k].1 <= |line| && LineWords(line)[k] == line[spans[k].0..spans[k].1]
  {
    spans := Spans(line, ' ');
    SpansAreRuns(line, ' ');
  }

  // The words of a document are those of its lines, one line after the other.
  lemma DocumentWordsOfLine(line: string)
    ensures DocumentWords([line]) == LineWords(line)
  {
    assert [line][..0] == [];
  }

  lemma {:induction false} DocumentWordsOfAppended(lines: seq<string>, more: seq<string>)
    ensures DocumentWords(lines + more) == DocumentWords(lines) + DocumentWords(more)
    decreases |more|
  {
    if more == [] {
      assert lines + more == lines;
    } else {
      var init := more[..|more| - 1];
      DocumentWordsOfAppended(lines, init);
      NextLineAppends(lines, init, more);
    }
  }

  lemma NextLineAppends(lines: seq<string>, init: seq<string>, more: seq<string>)
    requires more != [] && init == more[..|more| - 1]
    requires DocumentWords(lines + init) == DocumentWords(lines) + DocumentWords(init)
    ensures DocumentWords(lines + more) == DocumentWords(lines) + DocumentWords(more)
  {
    var last := LineWords(more[|more| - 1]);
    DocumentWordsOfNext(more, init, last);
    assert (lines + more)[..|lines + more| - 1] == lines + init;
    DocumentWordsOfNext(lines + more, lines + init, last);
    Associates(DocumentWords(lines), DocumentWords(init), last);
  }

  lemma DocumentWordsOfNext(lines: seq<string>, init: seq<string>, last: seq<string>)
    requires lines != [] && init == lines[..|lines| - 1] && last == LineWords(lines[|lines| - 1])
    ensures DocumentWords(lines) == DocumentWords(init) + last
  {
  }

  lemma Associates(a: seq<string>, b: seq<string>, c: seq<string>)
    ensures (a + b) + c == a + (b + c)
  {
  }

  // A counted word is a part of its line.
  lemma LineWordIsPartOfLine(line: string, w: string)
    requires w in LineWords(line)
    ensures exists i :: OccursAt(line, w, i)
    ensures IsText(line) ==> IsText(w)
  {
    var k :| 0 <= k < |LineWords(line)| && LineWords(line)[k] == w;
    var span := Spans(line, ' ')[k];
    assert w == line[span.0..span.1];
    assert OccursAt(line, w, span.0);
  }

  // A counted word occurs in a line of the document.
  lemma {:induction false} WordOccurs(lines: seq<string>, w: string)
    requires w in DocumentWords(lines)
    ensures exists n :: 0 <= n < |lines| && Contains(lines[n], w)
  {
    var init, last := lines[..|lines| - 1], lines[|lines| - 1];
    if w in DocumentWords(init) {
      WordOccurs(init, w);
      var n :| 0 <= n < |init| && Contains(init[n], w);
      assert Contains(lines[n], w);
    } else {
      LineWordIsPartOfLine(last, w);
      assert Contains(lines[|lines| - 1], w);
    }
  }

  lemma {:induction false} DocumentWordsAreTexts(lines: seq<string>, w: string)
    requires forall line :: line in lines ==> IsText(line)
    requires w in DocumentWords(lines)
    ensures IsText(w)
  {
    var init, last := lines[..|lines| - 1], lines[|lines| - 1];
    if w in DocumentWords(init) {
      DocumentWordsAreTexts(init, w);
    } else {
      LineWordIsPartOfLine(last, w);
    }
  }

  // ---------- The lines to print ----------

  datatype Sentence = Sentence(number: nat, text: string)

  ghost predicate ContainsAny(line: string, words: seq<WordCount>) {
    exists k :: 0 <= k < |words| && Contains(line, words[k].word)
  }

  ghost predicate InOrder(printed: seq<Sentence>) {
    forall j, k :: 0 <= j < k < |printed| ==> printed[j].number < printed[k].number
  }

  // The sentences printed are the lines that contain one of the words, numbered from one.
  ghost predicate Extracted(lines: seq<string>, words: seq<WordCount>, printed: seq<Sentence>) {
    && InOrder(printed)
    && forall n: nat, text ::
         Sentence(n, text) in printed <==> 1 <= n <= |lines| && lines[n - 1] == text && ContainsAny(text, words)
  }

  method ContainsRare(line: string, words: seq<WordCount>) returns (rare: bool)
    ensures rare <==> ContainsAny(line, words)
  {
    for i := 0 to |words|
      invariant forall k :: 0 <= k < i ==> !Contains(line, words[k].word)
    {
      var place := Find(line, words[i].word);
      if place != -1 {
        return true;
      }
    }
    return false;
  }

  method Extract(lines: seq<string>, words: seq<WordCount>) returns (printed: seq<Sentence>)
    ensures Extracted(lines, words, printed)
  {
    printed := [];
    var sentenceNumber := 1;
    for i := 0 to |lines|
      invariant sentenceNumber == i + 1
      invariant InOrder(printed) && forall s :: s in printed ==> s.number <= i
      invariant Extracted(lines[..i], words, printed)
    {
      var rare := ContainsRare(lines[i], words);
      ghost var before := printed;
      if rare {
        printed := printed + [Sentence(sentenceNumber, lines[i])];
      }
      sentenceNumber := sentenceNumber + 1;
      forall n: nat, text
        ensures Sentence(n, text) in printed <==>
                1 <= n <= i + 1 && lines[..i + 1][n - 1] == text && ContainsAny(text, words)
      {
        assert 1 <= n <= i ==> lines[..i][n - 1] == lines[..i + 1][n - 1];
      }
    }
    assert lines[..|lines|] == lines;
  }

  // ---------- The whole program ----------

  // A sorting procedure that is correct on every table of texts.
  ghost predicate Sorts(qsort: seq<WordCount> -> seq<WordCount>) {
    forall table :: AllTexts(table) ==> SortOf(qsort(table), table)
  }

  // The words of one line, as the tokenizer leaves them in its buffer.
  method ReadTokens(line: string) returns (words: seq<string>)
    requires IsText(line)
    ensures words == LineWords(line)
  {
    var tokens := new nat[MAX_TOKEN_LIMIT];
    var count, buffer := TokenizeBySpace(line, ' ', tokens, MAX_TOKEN_LIMIT);
    words := [];
    for i := 0 to count
      invariant words == LineWords(line)[..i]
    {
      words := words + [TextAt(buffer[..], tokens[i])];
    }
  }

  method Summarize(lines: seq<string>, qsort: seq<WordCount> -> seq<WordCount>)
    returns (table: seq<WordCount>, selected: seq<WordCount>, printed: seq<Sentence>)
    requires forall line :: line in lines ==> IsText(line)
    requires Sorts(qsort)
    ensures table == Tabulated(DocumentWords(lines))
    ensures exists sorted :: SortOf(sorted, table) && selected == Rarest(sorted)
    ensures |selected| == (if |table| < 5 then |table| else 5) && forall e :: e in selected ==> e in table
    ensures forall e, f :: e in selected && f in table && f !in selected ==> Precedes(e, f)
    ensures forall j, k :: 0 <= j < k < |selected| ==> !Precedes(selected[k], selected[j])
    ensures Extracted(lines, selected, printed)
    ensures forall e :: e in selected ==> exists s :: s in printed && Contains(s.text, e.word)
  {
    var uniqueWords := new Table();
    for i := 0 to |lines|
      invariant uniqueWords.Valid() && fresh(uniqueWords) && fresh(uniqueWords.entries)
      invariant uniqueWords.processed == DocumentWords(lines[..i])
    {
      var words := ReadTokens(lines[i]);
      uniqueWords.FillUpUniqueWords(words);
      assert lines[..i + 1] == lines[..i] + [lines[i]];
    }
    assert lines[..|lines|] == lines;
    table := uniqueWords.Contents();
    TableHoldsTexts(lines);
    var sorted := qsort(table);
    selected := Rarest(sorted);
    SelectionIsRight(table, sorted);
    printed := Extract(lines, selected);
    SelectedWordsArePrinted(lines, sorted, printed);
  }

  lemma SelectionIsRight(table: seq<WordCount>, sorted: seq<WordCount>)
    requires AllTexts(table) && SortOf(sorted, table)
    ensures |sorted| == |table| && forall e :: e in Rarest(sorted) ==> e in table
    ensures forall e, f :: e in Rarest(sorted) && f in table && f !in Rarest(sorted) ==> Precedes(e, f)
    ensures forall j, k :: 0 <= j < k < |Rarest(sorted)| ==> !Precedes(Rarest(sorted)[k], Rarest(sorted)[j])
  {
    assert |sorted| == |multiset(sorted)| == |multiset(table)| == |table|;
    RarestAreRarest(table, sorted, sorted);
    forall e | e in sorted
      ensures e in table
    {
      SameMembers(sorted, table, e);
    }
    forall j, k | 0 <= j < k < |Rarest(sorted)|
      ensures !Precedes(Rarest(sorted)[k], Rarest(sorted)[j])
    {
      CompareIsStrictTotalOrder(sorted[k], sorted[j], sorted[k]);
    }
  }

  lemma TableHoldsTexts(lines: seq<string>)
    requires forall line :: line in lines ==> IsText(line)
    ensures AllTexts(Tabulated(DocumentWords(lines)))
  {
    var words := DocumentWords(lines);
    DistinctListsFirstAppearances(words);
    forall e | e in Tabulated(words)
      ensures IsText(e.word)
    {
      assert e.word in Distinct(words);
      DocumentWordsAreTexts(lines, e.word);
    }
  }

  // Every selected word occurs in a printed line.
  lemma SelectedWordsArePrinted(lines: seq<string>, sorted: seq<WordCount>, printed: seq<Sentence>)
    requires SortOf(sorted, Tabulated(DocumentWords(lines))) && Extracted(lines, Rarest(sorted), printed)
    ensures forall e :: e in Rarest(sorted) ==> exists s :: s in printed && Contains(s.text, e.word)
  {
    var words := DocumentWords(lines);
    DistinctListsFirstAppearances(words);
    forall e | e in Rarest(sorted)
      ensures exists s :: s in printed && Contains(s.text, e.word)
    {
      assert e in sorted && e in multiset(Tabulated(words));
      assert e.word in Distinct(words);
      WordOccurs(lines, e.word);
      var n :| 0 <= n < |lines| && Contains(lines[n], e.word);
      assert ContainsAny(lines[n], Rarest(sorted));
      assert Sentence(n + 1, lines[n]) in printed;
    }
  }
}
