/** Choice of the dictionary matches that are masked: longest first, no two overlapping. */
module Overlaps {
  import opened Folding

  /** One detector result; `fragment` is the matched part of the scanned text. */
  datatype Match = Match(start: nat, end: nat, fragment: string)

  predicate Clash(r: Match, k: Match) {
    r.start < k.end && r.end > k.start
  }

  function Length(r: Match): int {
    r.end - r.start
  }

  /** Order of the candidates: longest first, then leftmost, then furthest end. */
  predicate Before(a: Match, b: Match) {
    if Length(a) != Length(b) then Length(a) > Length(b)
    else if a.start != b.start then a.start < b.start
    else a.end >= b.end
  }

  predicate SortedBy(less: (Match, Match) -> bool, s: seq<Match>) {
    forall i, j :: 0 <= i < j < |s| ==> less(s[i], s[j])
  }

  function Insert(less: (Match, Match) -> bool, x: Match, s: seq<Match>): (r: seq<Match>)
    ensures multiset(r) == multiset{x} + multiset(s)
  {
    if s == [] then [x]
    else if less(x, s[0]) then [x] + s
    else
      assert s == [s[0]] + s[1..];
      [s[0]] + Insert(less, x, s[1..])
  }

  function Sort(less: (Match, Match) -> bool, s: seq<Match>): (r: seq<Match>)
    ensures multiset(r) == multiset(s)
  {
    if s == [] then []
    else
      assert s == [s[0]] + s[1..];
      Insert(less, s[0], Sort(less, s[1..]))
  }

  ghost predicate TotalPreorder(less: (Match, Match) -> bool) {
    (forall a, b :: less(a, b) || less(b, a)) &&
    (forall a, b, c :: less(a, b) && less(b, c) ==> less(a, c))
  }

  lemma {:induction false} InsertSorted(less: (Match, Match) -> bool, x: Match, s: seq<Match>)
    requires TotalPreorder(less) && SortedBy(less, s)
    ensures SortedBy(less, Insert(less, x, s))
  {
    if s != [] && !less(x, s[0]) {
      InsertSorted(less, x, s[1..]);
      var r := Insert(less, x, s[1..]);
      forall j | 0 <= j < |r| ensures less(s[0], r[j]) {
        assert r[j] in multiset(r);
        assert r[j] == x || r[j] in s[1..];
      }
    }
  }

  lemma {:induction false} SortSorted(less: (Match, Match) -> bool, s: seq<Match>)
    requires TotalPreorder(less)
    ensures SortedBy(less, Sort(less, s))
  {
    if s != [] {
      SortSorted(less, s[1..]);
      InsertSorted(less, s[0], Sort(less, s[1..]));
    }
  }

  predicate PairwiseApart(s: seq<Match>) {
    forall i, j :: 0 <= i < j < |s| ==> !Clash(s[j], s[i])
  }

  /** `r` overlaps `k`, which is longer, or equally long and no further right. */
  predicate GivesWay(r: Match, k: Match) {
    r.start < k.end && k.start < r.end &&
    (k.end - k.start > r.end - r.start || (k.end - k.start == r.end - r.start && k.start <= r.start))
  }

  /** `r` was kept, or gave way to a kept match. */
  predicate Accounted(r: Match, kept: seq<Match>) {
    r in kept || exists k :: k in kept && GivesWay(r, k)
  }

  /** What is kept of the results: matches that are apart, to which every other one gives way. */
  predicate Chosen(results: seq<Match>, kept: seq<Match>) {
    (forall k :: k in kept ==> k in results) &&
    (forall i, j :: 0 <= i < j < |kept| ==> kept[i].end <= kept[j].start || kept[j].end <= kept[i].start) &&
    forall r :: r in results ==> Accounted(r, kept)
  }

  /** This leaves no choice, where equal places carry equal text: the same matches are kept. */
  lemma ChosenOnce(results: seq<Match>, a: seq<Match>, b: seq<Match>)
    requires Chosen(results, a) && Chosen(results, b)
    requires forall r, s :: r in results && s in results && r.start == s.start && r.end == s.end ==> r == s
    ensures forall k :: k in a <==> k in b
  {
    var longest := LongestOf(results);
    forall k | k in a ensures k in b {
      KeptInBoth(results, a, b, k, longest);
    }
    forall k | k in b ensures k in a {
      KeptInBoth(results, b, a, k, longest);
    }
  }

  lemma LongestOf(results: seq<Match>) returns (n: int)
    ensures forall r :: r in results ==> r.end - r.start <= n
  {
    n := 0;
    for i := 0 to |results|
      invariant forall j :: 0 <= j < i ==> results[j].end - results[j].start <= n
    {
      n := if results[i].end - results[i].start > n then results[i].end - results[i].start else n;
    }
  }

  /** A match kept in one list only would give way to a better one kept in the other list only. */
  lemma {:induction false} KeptInBoth(results: seq<Match>, a: seq<Match>, b: seq<Match>, r: Match, longest: int)
    requires Chosen(results, a) && Chosen(results, b) && r in a
    requires forall s :: s in results ==> s.end - s.start <= longest
    requires forall r, s :: r in results && s in results && r.start == s.start && r.end == s.end ==> r == s
    ensures r in b
    decreases longest - (r.end - r.start), r.start
  {
    KeptApart(results, a);
    if r !in b {
      assert Accounted(r, b);
      var k :| k in b && GivesWay(r, k);
      KeptInBoth(results, b, a, k, longest);
    }
  }

  lemma KeptApart(results: seq<Match>, kept: seq<Match>)
    requires Chosen(results, kept)
    ensures forall r, s :: r in kept && s in kept && r != s ==> !GivesWay(r, s)
  {
    forall r, s | r in kept && s in kept && r != s ensures r.end <= s.start || s.end <= r.start {
      var i :| 0 <= i < |kept| && kept[i] == r;
      var j :| 0 <= j < |kept| && kept[j] == s;
      assert i < j || j < i;
    }
  }

  /** Invariant of the selection after the candidates `seen`. */
  predicate Selected(seen: seq<Match>, kept: seq<Match>) {
    PairwiseApart(kept) && SortedBy(Before, kept) &&
    (forall k :: k in kept ==> k in seen) &&
    (forall r :: r in seen ==> Accounted(r, kept))
  }

  /** `Selected` after the first `n` candidates in sorted order, kept folded. */
  ghost predicate SelectedTo(sorted: seq<Match>, n: nat, kept: seq<Match>) {
    forall k :: Unfold(k) ==> n <= |sorted| && SortedBy(Before, sorted) && Selected(sorted[..n], kept)
  }

  /** `r` overlaps one of the first `i` kept matches. */
  predicate ClashesTo(r: Match, kept: seq<Match>, i: nat)
    requires i <= |kept|
  {
    exists j :: 0 <= j < i && Clash(r, kept[j])
  }

  /** Longest first; a match that overlaps a kept one is dropped. */
  method ResolveOverlaps(results: seq<Match>) returns (kept: seq<Match>)
    ensures Selected(results, kept) && Chosen(results, kept)
  {
    kept := [];
    var sorted := Sort(Before, results);
    SortSorted(Before, results);
    var n := 0;
    while n < |sorted|
      invariant 0 <= n <= |sorted| && SelectedTo(sorted, n, kept)
    {
      var r := sorted[n];
      var overlap := false;
      var i := 0;
      while i < |kept| && !overlap
        invariant 0 <= i <= |kept| && overlap == ClashesTo(r, kept, i)
      {
        if Clash(r, kept[i]) {
          overlap := true;
        }
        i := i + 1;
      }
      SelectNext(sorted, n, kept, i, overlap);
      if !overlap {
        kept := kept + [r];
      }
      n := n + 1;
    }
    SelectedAll(results, sorted, kept);
  }

  lemma SelectedAll(results: seq<Match>, sorted: seq<Match>, kept: seq<Match>)
    requires SelectedTo(sorted, |sorted|, kept) && multiset(sorted) == multiset(results)
    ensures Selected(results, kept) && Chosen(results, kept)
  {
    assert Unfold(0);
    assert sorted[..|sorted|] == sorted;
    forall r ensures r in results <==> r in sorted {
      assert r in results <==> r in multiset(results);
      assert r in sorted <==> r in multiset(sorted);
    }
  }

  lemma SelectNext(sorted: seq<Match>, n: nat, kept: seq<Match>, i: nat, overlap: bool)
    requires n < |sorted| && SelectedTo(sorted, n, kept)
    requires i <= |kept| && overlap == ClashesTo(sorted[n], kept, i) && (overlap || i == |kept|)
    ensures SelectedTo(sorted, n + 1, if overlap then kept else kept + [sorted[n]])
  {
    assert Unfold(0);
    assert overlap <==> exists k :: k in kept && Clash(sorted[n], k);
    SelectOne(sorted, n, kept, overlap);
  }

  lemma StaysSorted(sorted: seq<Match>, n: nat, kept: seq<Match>)
    requires n < |sorted| && SortedBy(Before, sorted) && SortedBy(Before, kept)
    requires forall k :: k in kept ==> k in sorted[..n]
    ensures SortedBy(Before, kept + [sorted[n]])
  {
    forall j | 0 <= j < |kept| ensures Before(kept[j], sorted[n]) {
      assert kept[j] in kept;
      var i :| 0 <= i < n && sorted[..n][i] == kept[j];
      assert Before(sorted[i], sorted[n]);
    }
  }

  lemma SelectOne(sorted: seq<Match>, n: nat, kept: seq<Match>, overlap: bool)
    requires n < |sorted| && SortedBy(Before, sorted) && Selected(sorted[..n], kept)
    requires overlap <==> exists k :: k in kept && Clash(sorted[n], k)
    ensures Selected(sorted[..n + 1], if overlap then kept else kept + [sorted[n]])
  {
    var r, seen := sorted[n], sorted[..n];
    var kept' := if overlap then kept else kept + [r];
    assert sorted[..n + 1] == seen + [r];
    StaysSorted(sorted, n, kept);
    forall q | q in seen + [r] ensures Accounted(q, kept') {
      if q == r && overlap {
        var k :| k in kept && Clash(r, k);
        var i :| 0 <= i < n && seen[i] == k;
        assert Before(sorted[i], sorted[n]) && GivesWay(r, k);
      } else if q in seen && q !in kept {
        var k :| k in kept && GivesWay(q, k);
        assert k in kept';
      }
    }
  }

  // ---------- order in which the kept matches are spliced ----------

  predicate RightFirst(a: Match, b: Match) {
    a.start >= b.start
  }

  /** `m` marks a part of `text` and carries that part. */
  predicate InText(text: string, m: Match) {
    m.start <= m.end <= |text| && m.fragment == text[m.start..m.end]
  }

  /** Every match ends where the previously spliced one starts, or before. */
  predicate Descending(text: string, ms: seq<Match>) {
    (forall i :: 0 <= i < |ms| ==> InText(text, ms[i])) &&
    (forall i, j :: 0 <= i < j < |ms| ==> ms[j].end <= ms[i].start)
  }

  /** Matches as the splice loop takes them, kept folded. */
  ghost predicate Spliceable(text: string, ms: seq<Match>) {
    forall k :: Unfold(k) ==>
      PairwiseApart(ms) && SortedBy(RightFirst, ms) && forall i :: 0 <= i < |ms| ==> InText(text, ms[i])
  }

  lemma MatchIn(text: string, ms: seq<Match>, j: nat)
    requires Spliceable(text, ms) && j < |ms|
    ensures InText(text, ms[j]) && (j > 0 ==> ms[j].start <= ms[j - 1].start)
  {
    assert Unfold(0);
    assert j > 0 ==> RightFirst(ms[j - 1], ms[j]);
  }

  lemma {:induction false} InsertApart(less: (Match, Match) -> bool, x: Match, s: seq<Match>)
    requires PairwiseApart(s) && forall k :: k in s ==> !Clash(k, x)
    ensures PairwiseApart(Insert(less, x, s))
  {
    if s != [] && !less(x, s[0]) {
      InsertApart(less, x, s[1..]);
      var r := Insert(less, x, s[1..]);
      assert s[0] in s;
      forall j | 0 <= j < |r| ensures !Clash(r[j], s[0]) {
        assert r[j] in multiset(r);
        if r[j] != x {
          var i :| 0 <= i < |s[1..]| && s[1..][i] == r[j];
          assert !Clash(s[i + 1], s[0]);
        }
      }
    }
  }

  lemma {:induction false} SortApart(less: (Match, Match) -> bool, s: seq<Match>)
    requires PairwiseApart(s)
    ensures PairwiseApart(Sort(less, s))
  {
    if s != [] {
      var r := Sort(less, s[1..]);
      SortApart(less, s[1..]);
      forall k | k in r ensures !Clash(k, s[0]) {
        assert k in multiset(r);
        assert k in s[1..];
      }
      InsertApart(less, s[0], r);
    }
  }

  /** An empty match that comes before a non-empty one with the same start. */
  predicate EmptyFirst(a: Match, b: Match) {
    a.start == a.end == b.start < b.end
  }

  /** Matches apart from each other and in right-to-left order never reach into an earlier splice,
      if and only if no empty match comes before a non-empty one with the same start. */
  lemma DescendingExact(text: string, ms: seq<Match>)
    requires PairwiseApart(ms) && SortedBy(RightFirst, ms) && forall m :: m in ms ==> InText(text, m)
    ensures Descending(text, ms) <==> forall i, j :: 0 <= i < j < |ms| ==> !EmptyFirst(ms[i], ms[j])
  {
    forall i, j | 0 <= i < j < |ms| ensures ms[j].end <= ms[i].start <==> !EmptyFirst(ms[i], ms[j]) {
      assert RightFirst(ms[i], ms[j]) && !Clash(ms[j], ms[i]);
      assert InText(text, ms[i]) && InText(text, ms[j]);
    }
  }

  /** By start, furthest right first; at equal starts in the order of the candidates. */
  predicate RightThenBefore(a: Match, b: Match) {
    a.start > b.start || (a.start == b.start && Before(a, b))
  }

  lemma {:induction false} InsertStable(x: Match, s: seq<Match>)
    requires SortedBy(RightThenBefore, s) && forall k :: k in s ==> Before(x, k)
    ensures SortedBy(RightThenBefore, Insert(RightFirst, x, s))
  {
    if s != [] && !RightFirst(x, s[0]) {
      InsertStable(x, s[1..]);
      var r := Insert(RightFirst, x, s[1..]);
      forall j | 0 <= j < |r| ensures RightThenBefore(s[0], r[j]) {
        assert r[j] in multiset(r);
        assert r[j] == x || r[j] in s[1..];
      }
    } else if s != [] {
      assert s[0] in s;
      forall j | 0 <= j < |s| ensures RightThenBefore(x, s[j]) {
        assert s[j] in s && (j > 0 ==> RightThenBefore(s[0], s[j]));
      }
    }
  }

  lemma {:induction false} SortStable(s: seq<Match>)
    requires SortedBy(Before, s)
    ensures SortedBy(RightThenBefore, Sort(RightFirst, s))
  {
    if s != [] {
      SortStable(s[1..]);
      var r := Sort(RightFirst, s[1..]);
      forall k | k in r ensures Before(s[0], k) {
        assert k in multiset(r);
        var i :| 0 <= i < |s[1..]| && s[1..][i] == k;
        assert Before(s[0], s[i + 1]);
      }
      InsertStable(s[0], r);
    }
  }

  /** The kept matches come out longest first. A sort that leaves equal starts in that order never
      puts an empty match before a longer one, so that even empty matches are in position. */
  lemma StableSortDescends(text: string, results: seq<Match>, kept: seq<Match>)
    requires Selected(results, kept) && forall k :: k in kept ==> InText(text, k)
    ensures Spliceable(text, Sort(RightFirst, kept)) && Descending(text, Sort(RightFirst, kept))
  {
    var ms := Sort(RightFirst, kept);
    SortSorted(RightFirst, kept);
    SortApart(RightFirst, kept);
    SortStable(kept);
    forall m | m in ms ensures m in kept {
      assert m in multiset(ms);
    }
    forall i, j | 0 <= i < j < |ms| ensures !EmptyFirst(ms[i], ms[j]) {
      assert RightThenBefore(ms[i], ms[j]);
    }
    DescendingExact(text, ms);
  }

  /** Non-empty kept matches, spliced right to left, never reach into an earlier splice. */
  lemma KeptDescending(text: string, kept: seq<Match>)
    requires PairwiseApart(kept)
    requires forall k :: k in kept ==> InText(text, k) && k.start < k.end
    ensures Descending(text, Sort(RightFirst, kept))
  {
    var ms := Sort(RightFirst, kept);
    SortSorted(RightFirst, kept);
    SortApart(RightFirst, kept);
    forall m | m in ms ensures m in kept {
      assert m in multiset(ms);
    }
    DescendingExact(text, ms);
  }
}
