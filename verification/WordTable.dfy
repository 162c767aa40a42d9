/**
 The bounded table of distinct words with their numbers of occurrences.
 */
module WordTable {
  import opened Wrappers

  const MAX_UNIQUE_WORDS := 1000

  datatype WordCount = WordCount(word: string, count: nat)

  // ---------- The table a list of words should have ----------

  // The distinct words, in order of first appearance.
  function Distinct(words: seq<string>): seq<string> {
    if words == [] then []
    else
      var before, last := Distinct(words[..|words| - 1]), words[|words| - 1];
      if last in before then before else before + [last]
  }

  // The words that obtain an entry.
  function Admitted(words: seq<string>): (admitted: seq<string>)
    ensures |admitted| == Min(|Distinct(words)|, MAX_UNIQUE_WORDS)
  {
    var distinct := Distinct(words);
    distinct[..Min(|distinct|, MAX_UNIQUE_WORDS)]
  }

  // Each word of a list with its number of occurrences among the words.
  function Tally(words: seq<string>, list: seq<string>): (table: seq<WordCount>)
    ensures |table| == |list|
  {
    seq(|list|, k requires 0 <= k < |list| => WordCount(list[k], multiset(words)[list[k]]))
  }

  function Tabulated(words: seq<string>): (table: seq<WordCount>)
    ensures |table| == |Admitted(words)|
  {
    Tally(words, Admitted(words))
  }

  ghost predicate NoRepeats(words: seq<string>) {
    forall j, k :: 0 <= j < k < |words| ==> words[j] != words[k]
  }

  // Place i is where a word appears for the first time.
  ghost predicate FirstSeenAt(words: seq<string>, w: string, i: nat) {
    i < |words| && words[i] == w && w !in words[..i]
  }

  ghost predicate InOrderOfFirstAppearance(words: seq<string>, listed: seq<string>) {
    forall j, k, p, q :: 0 <= j < k < |listed| && FirstSeenAt(words, listed[j], p) && FirstSeenAt(words, listed[k], q)
      ==> p < q
  }

  // What Distinct lists, said without its recursion.
  lemma {:induction false} DistinctListsFirstAppearances(words: seq<string>)
    ensures NoRepeats(Distinct(words))
    ensures forall w :: w in Distinct(words) <==> w in words
    ensures InOrderOfFirstAppearance(words, Distinct(words))
  {
    if words != [] {
      var init, last := words[..|words| - 1], words[|words| - 1];
      DistinctListsFirstAppearances(init);
      assert words == init + [last];
      var listed := Distinct(words);
      forall j, k, p, q | 0 <= j < k < |listed| && FirstSeenAt(words, listed[j], p) && FirstSeenAt(words, listed[k], q)
        ensures p < q
      {
        FirstSeenInPrefix(init, last, listed[j], p);
        FirstSeenInPrefix(init, last, listed[k], q);
      }
    }
  }

  lemma FirstSeenInPrefix(init: seq<string>, last: string, w: string, i: nat)
    requires FirstSeenAt(init + [last], w, i)
    ensures if w in init then FirstSeenAt(init, w, i) else i == |init| && w == last
  {
    if i < |init| {
      assert (init + [last])[..i] == init[..i];
    } else {
      assert (init + [last])[..i] == init;
    }
  }

  // The table holds the first at most 1000 distinct words, each with its number of occurrences.
  lemma TableHoldsFirstWords(words: seq<string>)
    ensures |Tabulated(words)| == if |Distinct(words)| < 1000 then |Distinct(words)| else 1000
    ensures forall k :: 0 <= k < |Tabulated(words)| ==>
              Tabulated(words)[k] == WordCount(Distinct(words)[k], multiset(words)[Distinct(words)[k]])
  {
  }

  // ---------- What one more word does to the table ----------

  predicate Holds(table: seq<WordCount>, w: string, j: nat) {
    j < |table| && table[j].word == w
  }

  lemma CountOfExtended(words: seq<string>, w: string, v: string)
    ensures multiset(words + [w])[v] == multiset(words)[v] + if v == w then 1 else 0
  {
    assert multiset(words + [w]) == multiset(words) + multiset{w};
  }

  lemma DistinctOfExtended(words: seq<string>, w: string)
    ensures Distinct(words + [w]) == if w in words then Distinct(words) else Distinct(words) + [w]
  {
    DistinctListsFirstAppearances(words);
    assert (words + [w])[..|words|] == words;
  }

  // A word with an entry is counted there.
  lemma CountedAgain(words: seq<string>, w: string, j: nat)
    requires Holds(Tabulated(words), w, j)
    ensures Tabulated(words + [w]) == Tabulated(words)[j := WordCount(w, Tabulated(words)[j].count + 1)]
  {
    DistinctListsFirstAppearances(words);
    assert w == Admitted(words)[j] == Distinct(words)[j];
    DistinctOfExtended(words, w);
    forall k | 0 <= k < |Tabulated(words)|
      ensures Tabulated(words + [w])[k] == Tabulated(words)[j := WordCount(w, Tabulated(words)[j].count + 1)][k]
    {
      CountOfExtended(words, w, Admitted(words)[k]);
      assert Admitted(words)[k] == Distinct(words)[k];
    }
  }

  // A word without an entry is new while there is room, and it obtains the next entry.
  lemma AdmittedNext(words: seq<string>, w: string)
    requires forall j :: !Holds(Tabulated(words), w, j)
    requires |Tabulated(words)| < MAX_UNIQUE_WORDS
    ensures Tabulated(words + [w]) == Tabulated(words) + [WordCount(w, 1)]
  {
    DistinctListsFirstAppearances(words);
    assert Admitted(words) == Distinct(words);
    assert w !in Distinct(words) by {
      if w in Distinct(words) {
        var j :| 0 <= j < |Distinct(words)| && Distinct(words)[j] == w;
        assert Holds(Tabulated(words), w, j);
      }
    }
    DistinctOfExtended(words, w);
    assert Admitted(words + [w]) == Admitted(words) + [w];
    CountOfExtended(words, w, w);
    forall k | 0 <= k < |Tabulated(words)|
      ensures Tabulated(words + [w])[k] == Tabulated(words)[k]
    {
      CountOfExtended(words, w, Admitted(words)[k]);
    }
  }

  // When there is no room it leaves no trace.
  lemma TurnedAway(words: seq<string>, w: string)
    requires forall j :: !Holds(Tabulated(words), w, j)
    requires |Tabulated(words)| == MAX_UNIQUE_WORDS
    ensures Tabulated(words + [w]) == Tabulated(words)
  {
    DistinctOfExtended(words, w);
    assert Admitted(words + [w]) == Admitted(words);
    forall k | 0 <= k < |Tabulated(words)|
      ensures Tabulated(words + [w])[k] == Tabulated(words)[k]
    {
      assert !Holds(Tabulated(words), w, k);
      CountOfExtended(words, w, Admitted(words)[k]);
    }
  }

  // ---------- The table in place ----------

  class Table {
    const entries: array<WordCount>
    var numUnique: nat
    ghost var processed: seq<string>

    ghost predicate Valid()
      reads this, entries
    {
      && entries.Length == MAX_UNIQUE_WORDS
      && numUnique <= MAX_UNIQUE_WORDS
      && Contents() == Tabulated(processed)
    }

    function Contents(): seq<WordCount>
      requires numUnique <= entries.Length
      reads this, entries
    {
      entries[..numUnique]
    }

    constructor ()
      ensures Valid() && processed == [] && fresh(entries)
    {
      entries := new WordCount[MAX_UNIQUE_WORDS](_ => WordCount("", 0));
      numUnique := 0;
      processed := [];
    }

    /** Counts each word of a line in its entry, or gives it the next entry while there is room. */
    method FillUpUniqueWords(words: seq<string>)
      requires Valid()
      modifies this, entries
      ensures Valid() && processed == old(processed) + words
    {
      for i := 0 to |words|
        invariant Valid() && processed == old(processed) + words[..i]
      {
        CountWord(words[i]);
        assert words[..i + 1] == words[..i] + [words[i]];
      }
      assert words[..|words|] == words;
    }

    method CountWord(word: string)
      requires Valid()
      modifies this, entries
      ensures Valid() && processed == old(processed) + [word]
    {
      var found := false;
      var j := 0;
      while j < numUnique
        invariant j <= numUnique && !found
        invariant forall k :: 0 <= k < j ==> entries[k].word != word
        invariant Valid() && processed == old(processed) && entries[..] == old(entries[..])
      {
        if entries[j].word == word {
          CountedAgain(processed, word, j);
          entries[j] := entries[j].(count := entries[j].count + 1);
          found := true;
          break;
        }
        j := j + 1;
      }
      if !found {
        if numUnique < MAX_UNIQUE_WORDS {
          AdmittedNext(processed, word);
          entries[numUnique] := WordCount(word, 1);
          numUnique := numUnique + 1;
        } else {
          TurnedAway(processed, word);
        }
      }
      processed := processed + [word];
    }
  }

  // ---------- Conservation ----------

  function Total(table: seq<WordCount>): nat {
    if table == [] then 0 else Total(table[..|table| - 1]) + table[|table| - 1].count
  }

  // The number of words, repetitions included, that are in a list.
  function CountIn(words: seq<string>, list: seq<string>): nat {
    if words == [] then 0
    else CountIn(words[..|words| - 1], list) + if words[|words| - 1] in list then 1 else 0
  }

  // One more word raises the total by one exactly when it is in the list.
  lemma {:induction false} TallyOfExtended(words: seq<string>, w: string, list: seq<string>)
    requires NoRepeats(list)
    ensures Total(Tally(words + [w], list)) == Total(Tally(words, list)) + if w in list then 1 else 0
  {
    if list != [] {
      var init, last := list[..|list| - 1], list[|list| - 1];
      TallyOfExtended(words, w, init);
      CountOfExtended(words, w, last);
      assert Tally(words, list)[..|init|] == Tally(words, init);
      assert Tally(words + [w], list)[..|init|] == Tally(words + [w], init);
      assert list == init + [last];
    }
  }

  lemma {:induction false} TallyTotal(words: seq<string>, list: seq<string>)
    requires NoRepeats(list)
    ensures Total(Tally(words, list)) == CountIn(words, list)
    decreases |words|
  {
    if words == [] {
      TallyOfNothing(list);
    } else {
      var init, last := words[..|words| - 1], words[|words| - 1];
      TallyTotal(init, list);
      TallyOfExtended(init, last, list);
      assert words == init + [last];
    }
  }

  lemma {:induction false} TallyOfNothing(list: seq<string>)
    ensures Total(Tally([], list)) == 0
  {
    if list != [] {
      TallyOfNothing(list[..|list| - 1]);
      assert Tally([], list)[..|list| - 1] == Tally([], list[..|list| - 1]);
    }
  }

  lemma {:induction false} CountInAtMost(words: seq<string>, list: seq<string>)
    ensures CountIn(words, list) <= |words|
    ensures CountIn(words, list) == |words| <==> forall w :: w in words ==> w in list
  {
    if words != [] {
      var init, last := words[..|words| - 1], words[|words| - 1];
      CountInAtMost(init, list);
      assert words == init + [last];
    }
  }

  /**
   The counts add up to the number of words exactly when the distinct words fit into the table; otherwise they
   fall short by the words that never obtained an entry.
   */
  lemma CountsAddUp(words: seq<string>)
    ensures Total(Tabulated(words)) == CountIn(words, Admitted(words))
    ensures Total(Tabulated(words)) == |words| <==> |Distinct(words)| <= 1000
  {
    DistinctListsFirstAppearances(words);
    TallyTotal(words, Admitted(words));
    CountInAtMost(words, Admitted(words));
    if |Distinct(words)| <= MAX_UNIQUE_WORDS {
      assert Admitted(words) == Distinct(words);
    } else {
      var left := Distinct(words)[MAX_UNIQUE_WORDS];
      assert left in words && left !in Admitted(words);
    }
  }
}
