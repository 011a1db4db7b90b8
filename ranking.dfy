/** `top_titles` (scripts/sync_okrs.py:257-260): a stable sort of the issues
    on `updatedAt`, newest first, then the titles of the first `n`. */
module Ranking {
  import opened PyText
  import opened Linear

  /** The sort key `x.get("updatedAt", "")`. */
  function Key(it: Issue): string {
    match it.updatedAt
    case None => ""
    case Some(s) => s
  }

  /** Non-increasing keys from left to right. */
  predicate SortedDesc(s: seq<Issue>) {
    forall i, j | 0 <= i < j < |s| :: !LexLess(Key(s[i]), Key(s[j]))
  }

  /** The issues of `s` whose key is `k`, in their order in `s`. */
  function WithKey(s: seq<Issue>, k: string): (r: seq<Issue>)
    ensures |r| <= |s|
  {
    if s == [] then []
    else (if Key(s[0]) == k then [s[0]] else []) + WithKey(s[1..], k)
  }

  /** Place `x` in front of the first element whose key is not greater. */
  function Insert(x: Issue, t: seq<Issue>): (r: seq<Issue>)
    ensures |r| == |t| + 1
  {
    if t == [] || !LexLess(Key(x), Key(t[0])) then [x] + t
    else [t[0]] + Insert(x, t[1..])
  }

  /** `sorted(issues, key=..., reverse=True)`: Python's sort is stable, and
      stays stable when reversed. */
  function SortByUpdatedDesc(s: seq<Issue>): (r: seq<Issue>)
    ensures |r| == |s|
  {
    if s == [] then [] else Insert(s[0], SortByUpdatedDesc(s[1..]))
  }

  function Titles(s: seq<Issue>): (r: seq<string>)
    ensures |r| == |s| && forall i | 0 <= i < |s| :: r[i] == s[i].title
  {
    if s == [] then [] else [s[0].title] + Titles(s[1..])
  }

  /** `top_titles(issues, n)`. */
  function TopTitles(issues: seq<Issue>, n: int): seq<string> {
    Titles(SliceTo(SortByUpdatedDesc(issues), n))
  }

  // ---------------------------------------------------------------------
  // The sort is a permutation, ordered, and stable

  lemma {:induction false} InsertPermutes(x: Issue, t: seq<Issue>)
    ensures multiset(Insert(x, t)) == multiset(t) + multiset{x}
  {
    if t != [] && LexLess(Key(x), Key(t[0])) {
      InsertPermutes(x, t[1..]);
      assert t == [t[0]] + t[1..];
    }
  }

  /** The sorted issues are the input issues, each as often as in the input. */
  lemma {:induction false} SortPermutes(s: seq<Issue>)
    ensures multiset(SortByUpdatedDesc(s)) == multiset(s)
  {
    if s != [] {
      SortPermutes(s[1..]);
      InsertPermutes(s[0], SortByUpdatedDesc(s[1..]));
      assert s == [s[0]] + s[1..];
    }
  }

  /** Every element of `Insert(x, t)` is `x` or an element of `t`. */
  lemma {:induction false} InsertElements(x: Issue, t: seq<Issue>)
    ensures forall y | y in Insert(x, t) :: y == x || y in t
  {
    if t != [] && LexLess(Key(x), Key(t[0])) {
      InsertElements(x, t[1..]);
    }
  }

  lemma {:induction false} InsertSorted(x: Issue, t: seq<Issue>)
    requires SortedDesc(t)
    ensures SortedDesc(Insert(x, t))
  {
    if t != [] && LexLess(Key(x), Key(t[0])) {
      var u := Insert(x, t[1..]);
      assert SortedDesc(t[1..]) by {
        forall i, j | 0 <= i < j < |t[1..]| ensures !LexLess(Key(t[1..][i]), Key(t[1..][j])) {
          assert t[1..][i] == t[i + 1] && t[1..][j] == t[j + 1];
        }
      }
      InsertSorted(x, t[1..]);
      InsertElements(x, t[1..]);
      var r := Insert(x, t);
      assert r == [t[0]] + u;
      forall i, j | 0 <= i < j < |r| ensures !LexLess(Key(r[i]), Key(r[j])) {
        var y := u[j - 1];
        assert r[j] == y && y in u;
        if i > 0 {
          assert r[i] == u[i - 1];
        } else if y == x {
          LexLessAsym(Key(x), Key(t[0]));
        } else {
          assert y in t[1..];
          var m :| 0 <= m < |t[1..]| && t[1..][m] == y;
          assert t[m + 1] == y;
        }
      }
    } else if t != [] {
      var r := Insert(x, t);
      assert r == [x] + t;
      forall i, j | 0 <= i < j < |r| ensures !LexLess(Key(r[i]), Key(r[j])) {
        if i == 0 {
          if j > 1 {
            NotLessTransitive(Key(x), Key(t[0]), Key(t[j - 1]));
          }
        } else {
          assert r[i] == t[i - 1] && r[j] == t[j - 1];
        }
      }
    }
  }

  lemma LexLessAsym(a: string, b: string)
    requires LexLess(a, b)
    ensures !LexLess(b, a)
  {
    if LexLess(b, a) {
      LexLessTransitive(a, b, a);
      LexLessIrreflexive(a);
    }
  }

  /** "Not less than" is transitive, because the order is total. */
  lemma NotLessTransitive(a: string, b: string, c: string)
    requires !LexLess(a, b) && !LexLess(b, c)
    ensures !LexLess(a, c)
  {
    if LexLess(a, c) {
      if a == b {
      } else if b == c {
      } else {
        LexLessTotal(a, b);
        LexLessTotal(b, c);
        LexLessTransitive(c, b, a);
        LexLessAsym(a, c);
      }
    }
  }

  /** The sorted issues run from the newest `updatedAt` to the oldest. */
  lemma {:induction false} SortSorted(s: seq<Issue>)
    ensures SortedDesc(SortByUpdatedDesc(s))
  {
    if s != [] {
      SortSorted(s[1..]);
      InsertSorted(s[0], SortByUpdatedDesc(s[1..]));
    }
  }

  lemma WithKeyCons(y: Issue, s: seq<Issue>, k: string)
    ensures WithKey([y] + s, k) == (if Key(y) == k then [y] else []) + WithKey(s, k)
  {
    assert ([y] + s)[1..] == s;
  }

  lemma {:induction false} InsertWithKey(x: Issue, t: seq<Issue>, k: string)
    ensures WithKey(Insert(x, t), k) == (if Key(x) == k then [x] else []) + WithKey(t, k)
  {
    if t != [] && LexLess(Key(x), Key(t[0])) {
      var u := Insert(x, t[1..]);
      InsertWithKey(x, t[1..], k);
      LexLessIrreflexive(Key(x));
      assert Insert(x, t) == [t[0]] + u;
      WithKeyCons(t[0], u, k);
      assert t == [t[0]] + t[1..];
      WithKeyCons(t[0], t[1..], k);
      var front := if Key(t[0]) == k then [t[0]] else [];
      var rest := WithKey(t[1..], k);
      if Key(x) == k {
        assert front == [];
        assert WithKey(Insert(x, t), k) == [x] + rest;
      } else {
        assert WithKey(Insert(x, t), k) == front + rest;
      }
    } else {
      WithKeyCons(x, t, k);
    }
  }

  /** Stability: issues with equal `updatedAt` keep their input order. */
  lemma {:induction false} SortStable(s: seq<Issue>, k: string)
    ensures WithKey(SortByUpdatedDesc(s), k) == WithKey(s, k)
  {
    if s != [] {
      SortStable(s[1..], k);
      InsertWithKey(s[0], SortByUpdatedDesc(s[1..]), k);
    }
  }

  // ---------------------------------------------------------------------
  // What top_titles returns

  /** `top_titles(issues, n)` has `min(n, |issues|)` titles for `n >= 0`
      (Python's negative slice bound drops `-n` from the end), and the i-th
      title is that of the i-th issue in newest-first stable order. */
  lemma TopTitlesShape(issues: seq<Issue>, n: int)
    ensures var r := TopTitles(issues, n);
      |r| == (if n >= 0 then Min(n, |issues|) else Max(0, |issues| + n)) &&
      forall i | 0 <= i < |r| :: r[i] == SortByUpdatedDesc(issues)[i].title
  {
  }

  /** Every title returned is the title of some input issue. */
  lemma TopTitlesFromInput(issues: seq<Issue>, n: int)
    ensures forall t | t in TopTitles(issues, n) ::
      exists it | it in issues :: it.title == t
  {
    var sorted := SortByUpdatedDesc(issues);
    SortPermutes(issues);
    var r := TopTitles(issues, n);
    forall t | t in r ensures exists it | it in issues :: it.title == t {
      var i :| 0 <= i < |r| && r[i] == t;
      assert sorted[i] in multiset(issues);
    }
  }

  /** The top titles come from issues ordered newest first; with the same
      `updatedAt` they are taken in input order. */
  lemma TopTitlesOrder(issues: seq<Issue>, n: int)
    ensures var sel := SliceTo(SortByUpdatedDesc(issues), n);
      TopTitles(issues, n) == Titles(sel) && SortedDesc(sel) &&
      forall k :: WithKey(sel, k) <= WithKey(issues, k)
  {
    var sorted := SortByUpdatedDesc(issues);
    var sel := SliceTo(sorted, n);
    SortSorted(issues);
    assert SortedDesc(sel) by {
      forall i, j | 0 <= i < j < |sel| ensures !LexLess(Key(sel[i]), Key(sel[j])) {
        assert sel[i] == sorted[i] && sel[j] == sorted[j];
      }
    }
    forall k ensures WithKey(sel, k) <= WithKey(issues, k) {
      SortStable(issues, k);
      WithKeyPrefix(sorted, |sel|, k);
    }
  }

  /** Filtering a prefix gives a prefix of the filtered sequence. */
  lemma {:induction false} WithKeyPrefix(s: seq<Issue>, m: nat, k: string)
    requires m <= |s|
    ensures WithKey(s[..m], k) <= WithKey(s, k)
  {
    if m > 0 {
      assert s[..m][1..] == s[1..][..m - 1];
      WithKeyPrefix(s[1..], m - 1, k);
    }
  }

  /** Nothing is returned exactly when nothing could be. */
  lemma TopTitlesEmptyIff(issues: seq<Issue>, n: nat)
    ensures TopTitles(issues, n) == [] <==> n == 0 || issues == []
  {
  }
}
