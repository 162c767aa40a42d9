/**
 Repeated replacement of the first occurrence of one string by another: when it ends, and what it leaves.
 */
module Rewriting {

  // ---------- Occurrences ----------

  predicate OccursAt(s: string, p: string, i: int) {
    0 <= i <= |s| - |p| && s[i..i + |p|] == p
  }

  ghost predicate Contains(s: string, p: string) {
    exists i :: OccursAt(s, p, i)
  }

  // strstr: the first occurrence, or -1.
  method Find(s: string, p: string) returns (i: int)
    ensures i == -1 ==> !Contains(s, p)
    ensures i != -1 ==> OccursAt(s, p, i) && forall j :: j < i ==> !OccursAt(s, p, j)
  {
    i := 0;
    while i + |p| <= |s|
      invariant 0 <= i && forall j :: j < i ==> !OccursAt(s, p, j)
    {
      if s[i..i + |p|] == p {
        return;
      }
      i := i + 1;
    }
    i := -1;
  }

  // The occurrences that start in [lo, hi).
  function Count(s: string, p: string, lo: int, hi: int): nat
    decreases hi - lo
  {
    if lo >= hi then 0 else (if OccursAt(s, p, lo) then 1 else 0) + Count(s, p, lo + 1, hi)
  }

  function Occurrences(s: string, p: string): nat {
    Count(s, p, 0, |s| + 1)
  }

  lemma {:induction false} CountSplit(s: string, p: string, lo: int, mid: int, hi: int)
    requires lo <= mid <= hi
    ensures Count(s, p, lo, hi) == Count(s, p, lo, mid) + Count(s, p, mid, hi)
    decreases mid - lo
  {
    if lo < mid {
      CountSplit(s, p, lo + 1, mid, hi);
    }
  }

  lemma {:induction false} CountNone(s: string, p: string, lo: int, hi: int)
    requires forall j :: lo <= j < hi ==> !OccursAt(s, p, j)
    ensures Count(s, p, lo, hi) == 0
    decreases hi - lo
  {
    if lo < hi {
      CountNone(s, p, lo + 1, hi);
    }
  }

  lemma {:induction false} CountShift(s: string, t: string, p: string, lo: int, hi: int, shift: int)
    requires forall j :: lo <= j < hi ==> (OccursAt(s, p, j) <==> OccursAt(t, p, j + shift))
    ensures Count(s, p, lo, hi) == Count(t, p, lo + shift, hi + shift)
    decreases hi - lo
  {
    if lo < hi {
      CountShift(s, t, p, lo + 1, hi, shift);
    }
  }

  // ---------- Replacement ----------

  function ReplaceAt(s: string, i: int, old_: string, updated: string): string
    requires OccursAt(s, old_, i)
  {
    s[..i] + updated + s[i + |old_|..]
  }

  // `updated` keeps the first a and the last b characters of `old_` and has something between them that is made of
  // characters foreign to `old_`.
  predicate InsertsForeign(old_: string, updated: string, a: nat, b: nat) {
    && a < |old_| && b < |old_| && a + b <= |old_| && a + b < |updated|
    && updated[..a] == old_[..a] && updated[|updated| - b..] == old_[|old_| - b..]
    && forall k :: a <= k < |updated| - b ==> updated[k] !in old_
  }

  // The rules for which repeated replacement is known to end.
  ghost predicate Ends(old_: string, updated: string) {
    |updated| < |old_| || exists a, b :: InsertsForeign(old_, updated, a, b)
  }

  // The new string, between the part of s that ends a characters into the occurrence and the part that begins b
  // characters before its end.
  lemma ReplaceAtParts(s: string, i: int, old_: string, updated: string, a: nat, b: nat)
    requires OccursAt(s, old_, i) && InsertsForeign(old_, updated, a, b)
    ensures ReplaceAt(s, i, old_, updated) == s[..i + a] + updated[a..|updated| - b] + s[i + |old_| - b..]
  {
    var t := ReplaceAt(s, i, old_, updated);
    assert s[..i] + old_[..a] == s[..i + a];
    assert old_[|old_| - b..] + s[i + |old_|..] == s[i + |old_| - b..];
    assert updated == updated[..a] + updated[a..|updated| - b] + updated[|updated| - b..];
  }

  lemma OccurrenceCovers(t: string, p: string, j: int, k: int)
    requires OccursAt(t, p, j) && j <= k < j + |p|
    ensures t[k] in p
  {
    assert t[k] == t[j..j + |p|][k - j];
  }

  // An occurrence in left + middle + right lies in one of the outer parts if the middle is foreign to it.
  lemma OccursInParts(left: string, middle: string, right: string, p: string, j: int)
    requires middle != "" && p != "" && forall c :: c in middle ==> c !in p
    ensures j <= |left| - |p| ==> (OccursAt(left + middle + right, p, j) <==> OccursAt(left, p, j))
    ensures |left| - |p| < j < |left| + |middle| ==> !OccursAt(left + middle + right, p, j)
    ensures j >= |left| + |middle| ==>
              (OccursAt(left + middle + right, p, j) <==> OccursAt(right, p, j - |left| - |middle|))
  {
    var t := left + middle + right;
    if 0 <= j <= |left| - |p| {
      assert t[j..j + |p|] == left[j..j + |p|];
    } else if j >= |left| + |middle| && j <= |t| - |p| {
      var k := j - |left| - |middle|;
      assert t[j..j + |p|] == right[k..k + |p|];
    } else if |left| - |p| < j < |left| + |middle| {
      var k := if j >= |left| then j else |left|;
      assert t[k] in middle;
      if OccursAt(t, p, j) {
        OccurrenceCovers(t, p, j, k);
      }
    }
  }

  // The same for left + gap + right, as far as the outer parts go.
  lemma OccursOutsideGap(left: string, gap: string, right: string, p: string, j: int)
    requires p != ""
    ensures j <= |left| - |p| ==> (OccursAt(left + gap + right, p, j) <==> OccursAt(left, p, j))
    ensures j >= |left| + |gap| ==>
              (OccursAt(left + gap + right, p, j) <==> OccursAt(right, p, j - |left| - |gap|))
  {
    var t := left + gap + right;
    if 0 <= j <= |left| - |p| {
      assert t[j..j + |p|] == left[j..j + |p|];
    } else if j >= |left| + |gap| && j <= |t| - |p| {
      var k := j - |left| - |gap|;
      assert t[j..j + |p|] == right[k..k + |p|];
    }
  }

  // How the occurrences of t compare with those of s at j, if t comes from s by a change in the middle that
  // leaves no occurrence there.
  ghost predicate SameAt(s: string, t: string, p: string, cut: int, end: int, shift: int, j: int) {
    && (j < cut ==> (OccursAt(s, p, j) <==> OccursAt(t, p, j)))
    && (cut <= j < end + shift ==> !OccursAt(t, p, j))
    && (j >= end ==> (OccursAt(s, p, j) <==> OccursAt(t, p, j + shift)))
  }

  ghost predicate SameOutside(s: string, t: string, p: string, cut: int, end: int, shift: int) {
    forall j :: SameAt(s, t, p, cut, end, shift, j)
  }

  lemma CountInThree(s: string, p: string, cut: int, end: int, hi: int)
    requires 0 <= cut <= end <= hi
    ensures Count(s, p, 0, hi) == Count(s, p, 0, cut) + Count(s, p, cut, end) + Count(s, p, end, hi)
  {
    CountSplit(s, p, 0, cut, hi);
    CountSplit(s, p, cut, end, hi);
  }

  lemma CountOuterParts(s: string, t: string, p: string, cut: int, end: int, shift: int)
    requires SameOutside(s, t, p, cut, end, shift) && |t| == |s| + shift
    ensures Count(s, p, 0, cut) == Count(t, p, 0, cut)
    ensures Count(t, p, cut, end + shift) == 0
    ensures Count(s, p, end, |s| + 1) == Count(t, p, end + shift, |t| + 1)
  {
    forall j: int
      ensures 0 <= j < cut ==> (OccursAt(s, p, j) <==> OccursAt(t, p, j + 0))
      ensures cut <= j < end + shift ==> !OccursAt(t, p, j)
      ensures end <= j <= |s| ==> (OccursAt(s, p, j) <==> OccursAt(t, p, j + shift))
    {
      assert SameAt(s, t, p, cut, end, shift, j);
    }
    CountShift(s, t, p, 0, cut, 0);
    CountNone(t, p, cut, end + shift);
    CountShift(s, t, p, end, |s| + 1, shift);
  }

  lemma CountSameOutside(s: string, t: string, p: string, cut: int, end: int, shift: int)
    requires SameOutside(s, t, p, cut, end, shift) && |t| == |s| + shift
    requires 0 <= cut <= end <= |s| + 1 && cut <= end + shift
    ensures Occurrences(s, p) == Occurrences(t, p) + Count(s, p, cut, end)
  {
    CountInThree(s, p, cut, end, |s| + 1);
    CountInThree(t, p, cut, end + shift, |t| + 1);
    CountOuterParts(s, t, p, cut, end, shift);
  }

  lemma SameAroundGap(left: string, gap: string, middle: string, right: string, p: string, cut: int, j: int)
    requires middle != "" && p != "" && forall c :: c in middle ==> c !in p
    requires cut == if |p| <= |left| then |left| - |p| + 1 else 0
    ensures SameAt(left + gap + right, left + middle + right, p, cut, |left| + |gap|, |middle| - |gap|, j)
  {
    OccursOutsideGap(left, gap, right, p, j);
    OccursInParts(left, middle, right, p, j);
    if j >= |left| + |gap| {
      OccursInParts(left, middle, right, p, j + (|middle| - |gap|));
    }
  }

  // With a foreign middle in place of the gap, exactly the occurrences that touch the gap are gone.
  lemma CountOutsideGap(left: string, gap: string, middle: string, right: string, p: string,
                        s: string, t: string, cut: int)
    requires middle != "" && p != "" && forall c :: c in middle ==> c !in p
    requires s == left + gap + right && t == left + middle + right
    requires cut == if |p| <= |left| then |left| - |p| + 1 else 0
    ensures Occurrences(s, p) == Occurrences(t, p) + Count(s, p, cut, |left| + |gap|)
  {
    var end, shift := |left| + |gap|, |middle| - |gap|;
    forall j
      ensures SameAt(s, t, p, cut, end, shift, j)
    {
      SameAroundGap(left, gap, middle, right, p, cut, j);
    }
    CountSameOutside(s, t, p, cut, end, shift);
  }

  lemma CountOne(s: string, p: string, lo: int, i: int, hi: int)
    requires lo <= i < hi && OccursAt(s, p, i)
    ensures Count(s, p, lo, hi) > 0
  {
    CountSplit(s, p, lo, i, hi);
  }

  // A growing rule loses an occurrence with every replacement, even where occurrences overlap.
  lemma ReplacementLosesOccurrence(s: string, i: int, old_: string, updated: string, a: nat, b: nat)
    requires OccursAt(s, old_, i) && InsertsForeign(old_, updated, a, b)
    ensures Occurrences(ReplaceAt(s, i, old_, updated), old_) < Occurrences(s, old_)
  {
    var left, gap, right := s[..i + a], s[i + a..i + |old_| - b], s[i + |old_| - b..];
    var middle := updated[a..|updated| - b];
    ReplaceAtParts(s, i, old_, updated, a, b);
    assert s == left + gap + right;
    var cut := if |old_| <= |left| then |left| - |old_| + 1 else 0;
    CountOutsideGap(left, gap, middle, right, old_, s, ReplaceAt(s, i, old_, updated), cut);
    CountOne(s, old_, cut, i, |left| + |gap|);
  }

  // What a replacement makes smaller.
  ghost function Measure(s: string, old_: string, updated: string): nat {
    if |updated| < |old_| then |s| else Occurrences(s, old_)
  }

  lemma ReplacementDecreases(s: string, i: int, old_: string, updated: string)
    requires OccursAt(s, old_, i) && Ends(old_, updated)
    ensures Measure(ReplaceAt(s, i, old_, updated), old_, updated) < Measure(s, old_, updated)
  {
    if |updated| >= |old_| {
      var a, b :| InsertsForeign(old_, updated, a, b);
      ReplacementLosesOccurrence(s, i, old_, updated, a, b);
    }
  }

  // A rule that puts the old string back never ends: there is always an occurrence left.
  lemma RestoringRuleNeverEnds(s: string, i: int, old_: string, updated: string, j: int)
    requires OccursAt(s, old_, i) && OccursAt(updated, old_, j)
    ensures Contains(ReplaceAt(s, i, old_, updated), old_)
  {
    var t := ReplaceAt(s, i, old_, updated);
    assert t[i + j..i + j + |old_|] == updated[j..j + |old_|];
    assert OccursAt(t, old_, i + j);
  }

  // ---------- Repeated replacement ----------

  ghost predicate IsFirst(s: string, p: string, i: int) {
    OccursAt(s, p, i) && forall j :: j < i ==> !OccursAt(s, p, j)
  }

  lemma FirstExists(s: string, p: string, i: int) returns (j: int)
    requires OccursAt(s, p, i)
    ensures IsFirst(s, p, j)
  {
    j := 0;
    while !OccursAt(s, p, j)
      invariant 0 <= j <= i && forall k :: k < j ==> !OccursAt(s, p, k)
      decreases i - j
    {
      j := j + 1;
    }
  }

  // The string after replacing first occurrences until there are none.
  ghost function ReplacedAll(s: string, old_: string, updated: string): string
    requires Ends(old_, updated)
    decreases Measure(s, old_, updated)
  {
    if i :| IsFirst(s, old_, i) then
      ReplacementDecreases(s, i, old_, updated);
      ReplacedAll(ReplaceAt(s, i, old_, updated), old_, updated)
    else s
  }

  lemma ReplacedAllStep(s: string, i: int, old_: string, updated: string)
    requires Ends(old_, updated) && IsFirst(s, old_, i)
    ensures ReplacedAll(s, old_, updated) == ReplacedAll(ReplaceAt(s, i, old_, updated), old_, updated)
  {
    var j: int :| && IsFirst(s, old_, j)
                  && ReplacedAll(s, old_, updated) == ReplacedAll(ReplaceAt(s, j, old_, updated), old_, updated);
  }

  lemma ReplacedAllDone(s: string, old_: string, updated: string)
    requires Ends(old_, updated) && !Contains(s, old_)
    ensures ReplacedAll(s, old_, updated) == s
  {
  }

  // No occurrence is left.
  lemma {:induction false} NoneLeft(s: string, old_: string, updated: string)
    requires Ends(old_, updated)
    ensures !Contains(ReplacedAll(s, old_, updated), old_)
    decreases Measure(s, old_, updated)
  {
    if i :| OccursAt(s, old_, i) {
      var j := FirstExists(s, old_, i);
      ReplacementDecreases(s, j, old_, updated);
      NoneLeft(ReplaceAt(s, j, old_, updated), old_, updated);
      ReplacedAllStep(s, j, old_, updated);
    } else {
      ReplacedAllDone(s, old_, updated);
    }
  }

  // Only characters of the string and of the replacement remain.
  lemma {:induction false} CharactersKept(s: string, old_: string, updated: string, c: char)
    requires Ends(old_, updated) && c !in s && c !in updated
    ensures c !in ReplacedAll(s, old_, updated)
    decreases Measure(s, old_, updated)
  {
    if i :| OccursAt(s, old_, i) {
      var j := FirstExists(s, old_, i);
      ReplacementDecreases(s, j, old_, updated);
      CharactersKept(ReplaceAt(s, j, old_, updated), old_, updated, c);
      ReplacedAllStep(s, j, old_, updated);
    } else {
      ReplacedAllDone(s, old_, updated);
    }
  }

  // From its kth character on, `updated` is foreign to p, and p does not end with one of the characters before.
  predicate CannotCreate(updated: string, p: string, k: nat) {
    && k < |updated| && p != "" && p[|p| - 1] !in updated[..k]
    && forall c :: c in updated[k..] ==> c !in p
  }

  lemma ReplacementCreatesNone(s: string, i: int, old_: string, updated: string, p: string, k: nat)
    requires OccursAt(s, old_, i) && CannotCreate(updated, p, k) && !Contains(s, p)
    ensures !Contains(ReplaceAt(s, i, old_, updated), p)
  {
    var left, middle, right := s[..i] + updated[..k], updated[k..], s[i + |old_|..];
    var t := ReplaceAt(s, i, old_, updated);
    assert t == left + middle + right;
    forall j
      ensures !OccursAt(t, p, j)
    {
      OccursInParts(left, middle, right, p, j);
      if OccursAt(left, p, j) {
        OccursLeft(s, i, updated[..k], p, j);
      }
      if OccursAt(right, p, j - |left| - |middle|) {
        OccursRight(s, i + |old_|, p, j - |left| - |middle|);
      }
    }
  }

  lemma LastCharacter(t: string, p: string, j: int)
    requires OccursAt(t, p, j) && p != ""
    ensures t[j + |p| - 1] == p[|p| - 1]
  {
    assert t[j + |p| - 1] == t[j..j + |p|][|p| - 1];
  }

  lemma OccursLeft(s: string, i: nat, u: string, p: string, j: int)
    requires i <= |s| && p != "" && p[|p| - 1] !in u && OccursAt(s[..i] + u, p, j)
    ensures OccursAt(s, p, j)
  {
    LastCharacter(s[..i] + u, p, j);
    assert j + |p| <= i;
    assert (s[..i] + u)[j..j + |p|] == s[j..j + |p|];
  }

  lemma OccursRight(s: string, i: nat, p: string, j: int)
    requires i <= |s| && OccursAt(s[i..], p, j)
    ensures OccursAt(s, p, i + j)
  {
    assert s[i..][j..j + |p|] == s[i + j..i + j + |p|];
  }

  // A string that cannot be created, and is not there before, is not there after.
  lemma {:induction false} NotCreated(s: string, old_: string, updated: string, p: string, k: nat)
    requires Ends(old_, updated) && CannotCreate(updated, p, k) && !Contains(s, p)
    ensures !Contains(ReplacedAll(s, old_, updated), p)
    decreases Measure(s, old_, updated)
  {
    if i :| OccursAt(s, old_, i) {
      var j := FirstExists(s, old_, i);
      ReplacementDecreases(s, j, old_, updated);
      ReplacementCreatesNone(s, j, old_, updated, p, k);
      NotCreated(ReplaceAt(s, j, old_, updated), old_, updated, p, k);
      ReplacedAllStep(s, j, old_, updated);
    } else {
      ReplacedAllDone(s, old_, updated);
    }
  }
}
