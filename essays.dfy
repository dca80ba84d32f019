/**
 * app/essays/EssaysClient.tsx: the essay list page.  The search box filters the essays,
 * the sort menu orders a copy of the filtered list, each essay gets a score badge, and
 * the header counts the essays.
 *
 * `uploadedAt` is kept as the millisecond timestamp `new Date(uploadedAt).getTime()`
 * yields; the title order of `localeCompare` enters as a collation rank supplied by the
 * caller.
 */
module EssaysList {
  import opened Wrappers
  import opened Text

  datatype Essay = Essay(
    id: string,
    title: string,
    assignmentName: Option<string>,
    uploadedAt: int,
    thesisClarity: Option<real>,
    argumentDepth: Option<real>,
    structureBalance: Option<real>)

  // ---------------------------------------------------------------------------------
  // Search

  /** One essay passes the search when its title or assignment name contains the query, ignoring letter case. */
  predicate Matches(e: Essay, query: string) {
    Contains(ToLower(e.title), ToLower(query))
    || (e.assignmentName.Some? && Contains(ToLower(e.assignmentName.value), ToLower(query)))
  }

  /** `filteredEssays`: the essays that pass the search, in list order. */
  function FilterEssays(essays: seq<Essay>, query: string): (r: seq<Essay>)
    ensures |r| <= |essays|
    ensures forall e :: e in r <==> e in essays && Matches(e, query)
  {
    if essays == [] then []
    else (if Matches(essays[0], query) then [essays[0]] else []) + FilterEssays(essays[1..], query)
  }

  lemma {:induction false} FilterKeepsOrder(essays: seq<Essay>, query: string)
    ensures IsSubsequence(FilterEssays(essays, query), essays)
    decreases |essays|
  {
    if essays != [] {
      FilterKeepsOrder(essays[1..], query);
      var rest := FilterEssays(essays[1..], query);
      var r := FilterEssays(essays, query);
      if Matches(essays[0], query) {
        assert r == [essays[0]] + rest;
        assert r[0] == essays[0] && r[1..] == rest;
      } else {
        assert r == rest;
      }
      assert IsSubsequence(r, essays);
    }
  }

  /** Every string includes the empty string. */
  lemma ContainsEmpty(s: string)
    ensures Contains(s, "")
  {
    assert StartsWith(s, "");
  }

  /** An empty search keeps every essay. */
  lemma {:induction false} EmptyQueryKeepsAll(essays: seq<Essay>)
    ensures FilterEssays(essays, "") == essays
    decreases |essays|
  {
    if essays != [] {
      ContainsEmpty(ToLower(essays[0].title));
      EmptyQueryKeepsAll(essays[1..]);
    }
  }

  // ---------------------------------------------------------------------------------
  // Sort

  /** The sort menu: `date-desc`, `date-asc`, `title`, `score`, or any other value. */
  datatype SortMode = DateDesc | DateAsc | Title | Score | Other(name: string)

  /** The sum of the three scores the `score` mode compares. */
  function TotalScore(e: Essay): real {
    OrZero(e.thesisClarity) + OrZero(e.argumentDepth) + OrZero(e.structureBalance)
  }

  /**
   * The key whose ascending order each comparator describes: `comparator(a, b)` is
   * negative, zero or positive exactly as `SortKey(a) - SortKey(b)` is.
   */
  function SortKey(e: Essay, mode: SortMode, collate: string -> int): real {
    match mode
    case DateDesc => -(e.uploadedAt as real)
    case DateAsc => e.uploadedAt as real
    case Title => collate(e.title) as real
    case Score => -TotalScore(e)
    case Other(_) => 0.0
  }

  /** Inserts `x` after every element whose key is not larger, which keeps equal keys in arrival order. */
  function Insert(x: Essay, s: seq<Essay>, key: Essay -> real): (r: seq<Essay>)
    ensures multiset(r) == multiset(s) + multiset{x}
    ensures |r| == |s| + 1
  {
    if s == [] then [x]
    else if key(s[0]) > key(x) then [x] + s
    else
      var t := Insert(x, s[1..], key);
      assert s == [s[0]] + s[1..];
      [s[0]] + t
  }

  /** `Array.prototype.sort` with a comparator: a stable sort by ascending key. */
  function SortByKey(xs: seq<Essay>, key: Essay -> real): (r: seq<Essay>)
    ensures multiset(r) == multiset(xs)
  {
    if xs == [] then []
    else
      var n := |xs| - 1;
      assert xs == xs[..n] + [xs[n]];
      Insert(xs[n], SortByKey(xs[..n], key), key)
  }

  predicate SortedBy(s: seq<Essay>, key: Essay -> real) {
    forall i, j :: 0 <= i < j < |s| ==> key(s[i]) <= key(s[j])
  }

  /** Every element of an insertion is the inserted essay or one of the list. */
  lemma {:induction false} InsertElements(x: Essay, s: seq<Essay>, key: Essay -> real)
    ensures forall k :: 0 <= k < |Insert(x, s, key)| ==> Insert(x, s, key)[k] == x || Insert(x, s, key)[k] in s
    decreases |s|
  {
    if s != [] && key(s[0]) <= key(x) {
      InsertElements(x, s[1..], key);
      var t := Insert(x, s[1..], key);
      assert Insert(x, s, key) == [s[0]] + t;
      assert forall y :: y in s[1..] ==> y in s;
    }
  }

  /** A sorted list stays sorted when an element no larger than all of it is put in front. */
  lemma SortedCons(a: Essay, t: seq<Essay>, key: Essay -> real)
    requires SortedBy(t, key) && forall k :: 0 <= k < |t| ==> key(a) <= key(t[k])
    ensures SortedBy([a] + t, key)
  {
    var r := [a] + t;
    forall i, j | 0 <= i < j < |r|
      ensures key(r[i]) <= key(r[j])
    {
      assert r[j] == t[j - 1];
      assert i > 0 ==> r[i] == t[i - 1];
    }
  }

  lemma {:induction false} InsertSorted(x: Essay, s: seq<Essay>, key: Essay -> real)
    requires SortedBy(s, key)
    ensures SortedBy(Insert(x, s, key), key)
    decreases |s|
  {
    if s != [] && key(s[0]) <= key(x) {
      var tail := s[1..];
      InsertSorted(x, tail, key);
      InsertElements(x, tail, key);
      InsertHead(x, s, key);
    } else if s != [] {
      assert forall k :: 0 <= k < |s| ==> key(s[0]) <= key(s[k]);
      SortedCons(x, s, key);
    }
  }

  /** The step of `InsertSorted` where `x` goes after the head. */
  lemma InsertHead(x: Essay, s: seq<Essay>, key: Essay -> real)
    requires SortedBy(s, key) && s != [] && key(s[0]) <= key(x)
    requires SortedBy(Insert(x, s[1..], key), key)
    requires forall k :: 0 <= k < |Insert(x, s[1..], key)| ==> Insert(x, s[1..], key)[k] == x || Insert(x, s[1..], key)[k] in s[1..]
    ensures SortedBy(Insert(x, s, key), key)
  {
    var tail := s[1..];
    var t := Insert(x, tail, key);
    forall k | 0 <= k < |t|
      ensures key(s[0]) <= key(t[k])
    {
      if t[k] != x {
        var m :| 0 <= m < |tail| && tail[m] == t[k];
        assert s[m + 1] == t[k];
      }
    }
    SortedCons(s[0], t, key);
  }

  /** The sorted list is in ascending key order. */
  lemma {:induction false} SortByKeySorted(xs: seq<Essay>, key: Essay -> real)
    ensures SortedBy(SortByKey(xs, key), key)
    decreases |xs|
  {
    if xs != [] {
      var n := |xs| - 1;
      SortByKeySorted(xs[..n], key);
      InsertSorted(xs[n], SortByKey(xs[..n], key), key);
    }
  }

  /** When every key is the same, inserting appends. */
  lemma {:induction false} InsertLast(x: Essay, s: seq<Essay>, key: Essay -> real)
    requires forall i :: 0 <= i < |s| ==> key(s[i]) == key(x)
    ensures Insert(x, s, key) == s + [x]
    decreases |s|
  {
    if s != [] {
      InsertLast(x, s[1..], key);
      assert s == [s[0]] + s[1..];
    }
  }

  /** With a comparator that always answers 0 the order is kept (the sort is stable). */
  lemma {:induction false} SortByConstantKey(xs: seq<Essay>, key: Essay -> real, c: real)
    requires forall e :: key(e) == c
    ensures SortByKey(xs, key) == xs
    decreases |xs|
  {
    if xs != [] {
      var n := |xs| - 1;
      SortByConstantKey(xs[..n], key, c);
      InsertLast(xs[n], xs[..n], key);
      assert xs[..n] + [xs[n]] == xs;
    }
  }

  /** `[x]` when `x` has the key `k`, otherwise nothing. */
  function Tie(x: Essay, key: Essay -> real, k: real): seq<Essay> {
    if key(x) == k then [x] else []
  }

  /** The essays of `s` whose key is `k`, in the order of `s`. */
  function WithKey(s: seq<Essay>, key: Essay -> real, k: real): seq<Essay> {
    if s == [] then [] else Tie(s[0], key, k) + WithKey(s[1..], key, k)
  }

  lemma {:induction false} WithKeyAppend(a: seq<Essay>, b: seq<Essay>, key: Essay -> real, k: real)
    ensures WithKey(a + b, key, k) == WithKey(a, key, k) + WithKey(b, key, k)
    decreases |a|
  {
    if a == [] {
      assert a + b == b;
    } else {
      var h, t := a[0], a[1..];
      WithKeyAppend(t, b, key, k);
      assert (a + b)[0] == h && (a + b)[1..] == t + b;
      var x, y, z := Tie(h, key, k), WithKey(t, key, k), WithKey(b, key, k);
      assert x + (y + z) == (x + y) + z;
    }
  }

  lemma {:induction false} WithKeyAbsent(s: seq<Essay>, key: Essay -> real, k: real)
    requires forall i :: 0 <= i < |s| ==> key(s[i]) != k
    ensures WithKey(s, key, k) == []
    decreases |s|
  {
    if s != [] {
      WithKeyAbsent(s[1..], key, k);
    }
  }

  /** Inserting into a sorted list puts `x` after every essay with the same key. */
  lemma {:induction false} InsertWithKey(x: Essay, s: seq<Essay>, key: Essay -> real, k: real)
    requires SortedBy(s, key)
    ensures WithKey(Insert(x, s, key), key, k) == WithKey(s, key, k) + Tie(x, key, k)
    decreases |s|
  {
    if s == [] {
    } else if key(s[0]) > key(x) {
      InsertFrontWithKey(x, s, key, k);
    } else {
      var head, tail := s[0], s[1..];
      assert SortedBy(tail, key);
      InsertWithKey(x, tail, key, k);
      InsertAfterHead(x, s, key);
      ConsWithKey(head, Insert(x, tail, key), tail, x, key, k);
      assert [head] + tail == s;
    }
  }

  /** `x` goes in front of a sorted list whose keys are all larger: no essay of its key precedes it. */
  lemma InsertFrontWithKey(x: Essay, s: seq<Essay>, key: Essay -> real, k: real)
    requires s != [] && key(s[0]) > key(x) && SortedBy(s, key)
    ensures WithKey(Insert(x, s, key), key, k) == WithKey(s, key, k) + Tie(x, key, k)
  {
    InsertInFront(x, s, key);
    WithKeyCons(x, s, key, k);
    if key(x) == k {
      assert forall i :: 0 <= i < |s| ==> key(s[i]) != k by {
        assert forall i :: 0 <= i < |s| ==> key(s[0]) <= key(s[i]);
      }
      WithKeyAbsent(s, key, k);
    }
  }

  /** Putting the same essay in front of two lists keeps the relation between their key classes. */
  lemma ConsWithKey(h: Essay, t: seq<Essay>, tail: seq<Essay>, x: Essay, key: Essay -> real, k: real)
    requires WithKey(t, key, k) == WithKey(tail, key, k) + Tie(x, key, k)
    ensures WithKey([h] + t, key, k) == WithKey([h] + tail, key, k) + Tie(x, key, k)
  {
    WithKeyCons(h, t, key, k);
    WithKeyCons(h, tail, key, k);
  }

  lemma InsertInFront(x: Essay, s: seq<Essay>, key: Essay -> real)
    requires s != [] && key(s[0]) > key(x)
    ensures Insert(x, s, key) == [x] + s
  {
  }

  lemma InsertAfterHead(x: Essay, s: seq<Essay>, key: Essay -> real)
    requires s != [] && key(s[0]) <= key(x)
    ensures Insert(x, s, key) == [s[0]] + Insert(x, s[1..], key)
  {
  }

  lemma WithKeyCons(h: Essay, t: seq<Essay>, key: Essay -> real, k: real)
    ensures WithKey([h] + t, key, k) == Tie(h, key, k) + WithKey(t, key, k)
  {
    assert ([h] + t)[1..] == t;
  }

  /**
   * The sort is stable: the essays that share a key come out in the order they went in, for
   * every key, whatever the other keys are.
   */
  lemma {:induction false} SortByKeyStable(xs: seq<Essay>, key: Essay -> real, k: real)
    ensures WithKey(SortByKey(xs, key), key, k) == WithKey(xs, key, k)
    decreases |xs|
  {
    if xs != [] {
      var n := |xs| - 1;
      var front, last := xs[..n], xs[n];
      var sorted := SortByKey(front, key);
      SortByKeyUnfold(xs, key);
      SortByKeyStable(front, key, k);
      SortByKeySorted(front, key);
      StableStep(xs, sorted, key, k);
    }
  }

  lemma SortByKeyUnfold(xs: seq<Essay>, key: Essay -> real)
    requires xs != []
    ensures SortByKey(xs, key) == Insert(xs[|xs| - 1], SortByKey(xs[..|xs| - 1], key), key)
  {
  }

  /** One insertion step of the sort keeps every key class in input order. */
  lemma StableStep(xs: seq<Essay>, sorted: seq<Essay>, key: Essay -> real, k: real)
    requires xs != [] && SortedBy(sorted, key) && WithKey(sorted, key, k) == WithKey(xs[..|xs| - 1], key, k)
    ensures WithKey(Insert(xs[|xs| - 1], sorted, key), key, k) == WithKey(xs, key, k)
  {
    var front, last := xs[..|xs| - 1], xs[|xs| - 1];
    assert front + [last] == xs;
    InsertWithKey(last, sorted, key, k);
    WithKeyAppend(front, [last], key, k);
    assert [last] + [] == [last];
    WithKeyCons(last, [], key, k);
  }

  /** `sortedEssays`: the filtered essays, sorted on a copy by the chosen mode. */
  function SortedEssays(filtered: seq<Essay>, mode: SortMode, collate: string -> int): (r: seq<Essay>)
    ensures multiset(r) == multiset(filtered)
  {
    SortByKey(filtered, e => SortKey(e, mode, collate))
  }

  /** Essays the chosen mode ranks equal stay in the order of the filtered list. */
  lemma SortedEssaysStable(filtered: seq<Essay>, mode: SortMode, collate: string -> int, k: real)
    ensures var key := e => SortKey(e, mode, collate);
      WithKey(SortedEssays(filtered, mode, collate), key, k) == WithKey(filtered, key, k)
  {
    SortByKeyStable(filtered, e => SortKey(e, mode, collate), k);
  }

  /** `date-desc` puts the newest first. */
  lemma NewestFirst(filtered: seq<Essay>, collate: string -> int)
    ensures var r := SortedEssays(filtered, DateDesc, collate);
      forall i, j :: 0 <= i < j < |r| ==> r[i].uploadedAt >= r[j].uploadedAt
  {
    SortByKeySorted(filtered, e => SortKey(e, DateDesc, collate));
  }

  /** `date-asc` puts the oldest first. */
  lemma OldestFirst(filtered: seq<Essay>, collate: string -> int)
    ensures var r := SortedEssays(filtered, DateAsc, collate);
      forall i, j :: 0 <= i < j < |r| ==> r[i].uploadedAt <= r[j].uploadedAt
  {
    SortByKeySorted(filtered, e => SortKey(e, DateAsc, collate));
  }

  /** `title` follows the collation order of the titles. */
  lemma TitleOrder(filtered: seq<Essay>, collate: string -> int)
    ensures var r := SortedEssays(filtered, Title, collate);
      forall i, j :: 0 <= i < j < |r| ==> collate(r[i].title) <= collate(r[j].title)
  {
    SortByKeySorted(filtered, e => SortKey(e, Title, collate));
  }

  /** `score` puts the highest total first, a missing score counting as 0. */
  lemma HighestScoreFirst(filtered: seq<Essay>, collate: string -> int)
    ensures var r := SortedEssays(filtered, Score, collate);
      forall i, j :: 0 <= i < j < |r| ==> TotalScore(r[i]) >= TotalScore(r[j])
  {
    SortByKeySorted(filtered, e => SortKey(e, Score, collate));
  }

  /** Any other mode leaves the filtered order as it is. */
  lemma UnknownModeKeepsOrder(filtered: seq<Essay>, name: string, collate: string -> int)
    ensures SortedEssays(filtered, Other(name), collate) == filtered
  {
    SortByConstantKey(filtered, e => SortKey(e, Other(name), collate), 0.0);
  }

  // ---------------------------------------------------------------------------------
  // Badges and labels

  datatype Variant = Default | Secondary | Destructive

  datatype Badge = Badge(variant: Variant, text: string)

  /** `getScoreBadge`: the rounded percentage, banded at 85 and 70. */
  function ScoreBadge(score: real): (b: Badge)
    ensures b.variant == Default <==> Round(score * 100.0) >= 85
    ensures b.variant == Secondary <==> 70 <= Round(score * 100.0) < 85
    ensures b.variant == Destructive <==> Round(score * 100.0) < 70
    ensures b.text == IntToString(Round(score * 100.0)) + "%"
  {
    var pct := Round(score * 100.0);
    if pct >= 85 then Badge(Default, IntToString(pct) + "%")
    else if pct >= 70 then Badge(Secondary, IntToString(pct) + "%")
    else Badge(Destructive, IntToString(pct) + "%")
  }

  /** How good a band is: destructive, secondary, default. */
  function Rank(v: Variant): nat {
    match v
    case Destructive => 0
    case Secondary => 1
    case Default => 2
  }

  /** A higher score never gets a worse badge. */
  lemma ScoreBadgeMonotonic(x: real, y: real)
    requires x <= y
    ensures Rank(ScoreBadge(x).variant) <= Rank(ScoreBadge(y).variant)
  {
    RoundMonotonic(x * 100.0, y * 100.0);
  }

  /**
   * The badge of an essay: the mean of its three scores, missing ones counting as 0; an
   * essay that has not been scored at all shows a destructive "0%".
   */
  function EssayBadge(e: Essay): (b: Badge)
    ensures b.variant == Default <==> Round(TotalScore(e) / 3.0 * 100.0) >= 85
    ensures b.variant == Secondary <==> 70 <= Round(TotalScore(e) / 3.0 * 100.0) < 85
    ensures b.variant == Destructive <==> Round(TotalScore(e) / 3.0 * 100.0) < 70
    ensures b.text == IntToString(Round(TotalScore(e) / 3.0 * 100.0)) + "%"
    ensures e.thesisClarity.None? && e.argumentDepth.None? && e.structureBalance.None? ==>
      b == Badge(Destructive, "0%")
  {
    assert NatToString(0) == "0";
    ScoreBadge(TotalScore(e) / 3.0)
  }

  /** `${n} essay${n !== 1 ? 's' : ''} analyzed` */
  function CountLabel(n: nat): (r: string)
    ensures StartsWith(r, NatToString(n) + " ")
    ensures n == 1 <==> EndsWith(r, " essay analyzed")
    ensures n != 1 <==> EndsWith(r, " essays analyzed")
  {
    var digits := NatToString(n);
    if n != 1 then
      LabelShape(digits, " essays analyzed", " essay analyzed");
      digits + " essays analyzed"
    else
      LabelShape(digits, " essay analyzed", " essays analyzed");
      digits + " essay analyzed"
  }

  /**
   * A count followed by a tail that opens with a space starts with the count and a space, ends
   * with its tail, and does not end with an other tail one character longer or shorter.
   */
  lemma LabelShape(digits: string, tail: string, other: string)
    requires |digits| >= 1 && IsDigits(digits)
    requires |tail| >= 2 && tail[0] == ' ' && |other| >= 1 && other[0] == ' '
    requires |other| == |tail| + 1 || (|other| + 1 == |tail| && tail[1] != ' ')
    ensures StartsWith(digits + tail, digits + " ")
    ensures EndsWith(digits + tail, tail)
    ensures !EndsWith(digits + tail, other)
  {
    var r := digits + tail;
    assert r[..|digits| + 1] == digits + " ";
    ConcatEnds(digits, tail);
    var k := |r| - |other|;
    assert k == |digits| - 1 ==> r[k] == digits[|digits| - 1];
    assert k == |digits| + 1 ==> r[k] == tail[1];
    assert r[k..][0] == r[k];
  }

  /** A concatenation starts with its first part and ends with its second. */
  lemma ConcatEnds(a: string, b: string)
    ensures StartsWith(a + b, a) && EndsWith(a + b, b)
  {
    assert (a + b)[..|a|] == a;
    assert (a + b)[|a|..] == b;
  }

  /** Different counts give different labels: the number can be read back from the label. */
  lemma CountLabelInjective(m: nat, n: nat)
    requires CountLabel(m) == CountLabel(n)
    ensures m == n
  {
    var r := CountLabel(m);
    var a, b := NatToString(m), NatToString(n);
    assert ' ' !in a && ' ' !in b by {
      assert forall i :: 0 <= i < |a| ==> '0' <= a[i] <= '9';
      assert forall i :: 0 <= i < |b| ==> '0' <= b[i] <= '9';
    }
    assert r[..|a|] == a && r[|a|] == ' ' by { assert r[..|a| + 1] == a + " "; }
    assert r[..|b|] == b && r[|b|] == ' ' by { assert r[..|b| + 1] == b + " "; }
    IndexOfAt(r, ' ', |a|);
    IndexOfAt(r, ' ', |b|);
    NatToStringInjective(m, n);
  }
}
