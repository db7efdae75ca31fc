/** The final ordering and renumbering of scripts/generate_achievements.py: `sort_key`,
    the stable `sorted(...)` over the merged records, and the `achievement-NNN` keys. */
module Sorting {
  import opened Seqs
  import opened PyStr
  import opened Decimal
  import opened Achievements

  /** What `sort_key` computes for a record, with the year as a number. Python compares
      `(-year, publisher, author)`, so a larger year sorts first. */
  datatype SortKey = SortKey(year: nat, publisher: string, author: string)

  /** `sort_key` of one record: the year read as an integer (0 when it is not one), the
      publisher, and the first author ("" when there are no authors). */
  function KeyOf(v: Record): SortKey {
    SortKey(YearValue(v.year), v.publisher, if |v.authors| > 0 then v.authors[0] else "")
  }

  /** Python's tuple order on `(-year, publisher, author)`. */
  predicate KeyLess(a: SortKey, b: SortKey) {
    || a.year > b.year
    || (a.year == b.year && Less(a.publisher, b.publisher))
    || (a.year == b.year && a.publisher == b.publisher && Less(a.author, b.author))
  }

  lemma KeyLessIrreflexive(a: SortKey)
    ensures !KeyLess(a, a)
  {
    LessIrreflexive(a.publisher);
    LessIrreflexive(a.author);
  }

  lemma KeyLessTransitive(a: SortKey, b: SortKey, c: SortKey)
    requires KeyLess(a, b) && KeyLess(b, c)
    ensures KeyLess(a, c)
  {
    if a.year == b.year == c.year {
      if Less(a.publisher, b.publisher) && Less(b.publisher, c.publisher) {
        LessTransitive(a.publisher, b.publisher, c.publisher);
      }
      if a.publisher == b.publisher == c.publisher {
        LessIrreflexive(a.publisher);
        LessTransitive(a.author, b.author, c.author);
      }
    }
  }

  /** Two keys neither of which sorts before the other are the same key. */
  lemma KeyLessTotal(a: SortKey, b: SortKey)
    ensures a == b || KeyLess(a, b) || KeyLess(b, a)
  {
    LessTotal(a.publisher, b.publisher);
    LessTotal(a.author, b.author);
  }

  /** `a` does not sort after `b`. */
  predicate KeyLe(a: SortKey, b: SortKey) { !KeyLess(b, a) }

  lemma KeyLessLe(a: SortKey, b: SortKey, c: SortKey)
    requires KeyLess(a, b) && KeyLe(b, c)
    ensures KeyLess(a, c)
  {
    KeyLessTotal(b, c);
    if KeyLess(b, c) {
      KeyLessTransitive(a, b, c);
    }
  }

  /** Ascending by `sort_key`: no record sorts before one that precedes it. */
  predicate Sorted(s: seq<Record>) {
    forall i, j :: 0 <= i < j < |s| ==> KeyLe(KeyOf(s[i]), KeyOf(s[j]))
  }

  /** Inserting one record into a sorted list: it goes after every record with a key not
      greater than its own, which is what keeps the sort stable. */
  function Insert(x: Record, s: seq<Record>): (r: seq<Record>)
    ensures |r| == |s| + 1
    ensures multiset(r) == multiset(s) + multiset{x}
  {
    if |s| == 0 then [x]
    else if KeyLess(KeyOf(x), KeyOf(s[0])) then [x] + s
    else
      assert s == [s[0]] + s[1..];
      [s[0]] + Insert(x, s[1..])
  }

  lemma {:induction false} InsertSorted(x: Record, s: seq<Record>)
    requires Sorted(s)
    ensures Sorted(Insert(x, s))
  {
    if |s| > 0 {
      if KeyLess(KeyOf(x), KeyOf(s[0])) {
        SortedPrepend(x, s);
      } else {
        InsertSorted(x, s[1..]);
        InsertedAfterHead(x, s);
      }
    }
  }

  /** No record of `s` sorts before key `m`. */
  predicate AllAtLeast(m: SortKey, s: seq<Record>) {
    forall j :: 0 <= j < |s| ==> KeyLe(m, KeyOf(s[j]))
  }

  /** A sorted list stays sorted behind a record no later than any of its own. */
  lemma SortedCons(h: Record, t: seq<Record>)
    requires Sorted(t) && AllAtLeast(KeyOf(h), t)
    ensures Sorted([h] + t)
  {
    var r := [h] + t;
    forall i, j | 0 <= i < j < |r| ensures KeyLe(KeyOf(r[i]), KeyOf(r[j])) {
      assert r[j] == t[j - 1];
      if i > 0 {
        assert r[i] == t[i - 1];
      }
    }
  }

  /** A record that sorts before the head of a sorted list may go in front of it. */
  lemma SortedPrepend(x: Record, s: seq<Record>)
    requires Sorted(s) && |s| > 0 && KeyLess(KeyOf(x), KeyOf(s[0]))
    ensures Sorted([x] + s)
  {
    forall j | 0 <= j < |s| ensures KeyLe(KeyOf(x), KeyOf(s[j])) {
      if j > 0 {
        KeyLessLe(KeyOf(x), KeyOf(s[0]), KeyOf(s[j]));
      }
      KeyLessIrreflexive(KeyOf(x));
      if KeyLess(KeyOf(s[j]), KeyOf(x)) {
        KeyLessTransitive(KeyOf(x), KeyOf(s[j]), KeyOf(x));
      }
    }
    SortedCons(x, s);
  }

  lemma {:induction false} InsertAtLeast(m: SortKey, x: Record, s: seq<Record>)
    requires AllAtLeast(m, s) && KeyLe(m, KeyOf(x))
    ensures AllAtLeast(m, Insert(x, s))
  {
    if |s| > 0 && !KeyLess(KeyOf(x), KeyOf(s[0])) {
      InsertAtLeast(m, x, s[1..]);
      var r := Insert(x, s);
      forall j | 0 <= j < |r| ensures KeyLe(m, KeyOf(r[j])) {
        if j > 0 {
          assert r[j] == Insert(x, s[1..])[j - 1];
        }
      }
    }
  }

  /** The tail of a sorted list holds no record that sorts before its head. */
  lemma SortedTail(s: seq<Record>)
    requires Sorted(s) && |s| > 0
    ensures AllAtLeast(KeyOf(s[0]), s[1..])
  {
    forall j | 0 <= j < |s[1..]| ensures KeyLe(KeyOf(s[0]), KeyOf(s[1..][j])) {
      assert s[1..][j] == s[j + 1];
    }
  }

  /** When the head of a sorted list stays in front, it precedes the sorted insertion into
      the rest. */
  lemma InsertedAfterHead(x: Record, s: seq<Record>)
    requires Sorted(s) && |s| > 0 && !KeyLess(KeyOf(x), KeyOf(s[0]))
    requires Sorted(Insert(x, s[1..]))
    ensures Sorted([s[0]] + Insert(x, s[1..]))
  {
    SortedTail(s);
    InsertAtLeast(KeyOf(s[0]), x, s[1..]);
    SortedCons(s[0], Insert(x, s[1..]));
  }

  /** The stable sort `sorted(merged.items(), key=sort_key)`, as an insertion sort that
      inserts the records in their original order. */
  function Sort(s: seq<Record>): (r: seq<Record>)
    ensures multiset(r) == multiset(s)
    ensures Sorted(r)
  {
    if |s| == 0 then []
    else
      var init, x := s[..|s| - 1], s[|s| - 1];
      assert s == init + [x];
      assert multiset(s) == multiset(init) + multiset{x};
      var sorted := Sort(init);
      InsertSorted(x, sorted);
      Insert(x, sorted)
  }

  /** The records of `s` whose sort key is `k`, in order. */
  function WithKey(s: seq<Record>, k: SortKey): seq<Record> {
    if |s| == 0 then []
    else (if KeyOf(s[0]) == k then [s[0]] else []) + WithKey(s[1..], k)
  }

  lemma {:induction false} WithKeyAppend(a: seq<Record>, b: seq<Record>, k: SortKey)
    ensures WithKey(a + b, k) == WithKey(a, k) + WithKey(b, k)
  {
    if |a| == 0 {
      assert a + b == b;
    } else {
      assert a + b == [a[0]] + (a[1..] + b);
      WithKeyCons(a[0], a[1..] + b, k);
      WithKeyAppend(a[1..], b, k);
    }
  }

  lemma {:induction false} WithKeyAbsent(s: seq<Record>, k: SortKey)
    requires forall j :: 0 <= j < |s| ==> KeyOf(s[j]) != k
    ensures WithKey(s, k) == []
  {
    if |s| > 0 {
      WithKeyAbsent(s[1..], k);
    }
  }

  lemma WithKeySingle(x: Record, k: SortKey)
    ensures WithKey([x], k) == if KeyOf(x) == k then [x] else []
  {
    assert WithKey([x], k) == (if KeyOf(x) == k then [x] else []) + WithKey([], k);
  }

  lemma WithKeyCons(h: Record, t: seq<Record>, k: SortKey)
    ensures WithKey([h] + t, k) == (if KeyOf(h) == k then [h] else []) + WithKey(t, k)
  {
    assert ([h] + t)[1..] == t;
  }

  /** Inserting `x` into a sorted list places it after every record that has its key. */
  lemma {:induction false} InsertWithKey(x: Record, s: seq<Record>, k: SortKey)
    requires Sorted(s)
    ensures WithKey(Insert(x, s), k) == WithKey(s, k) + (if KeyOf(x) == k then [x] else [])
  {
    if |s| == 0 {
      WithKeySingle(x, k);
    } else if KeyLess(KeyOf(x), KeyOf(s[0])) {
      InsertFrontWithKey(x, s, k);
    } else {
      var tail := Insert(x, s[1..]);
      SortedTail(s);
      InsertWithKey(x, s[1..], k);
      WithKeyCons(s[0], tail, k);
      assert Insert(x, s) == [s[0]] + tail;
    }
  }

  /** A record that sorts before every record of `s` has none of their keys. */
  lemma InsertFrontWithKey(x: Record, s: seq<Record>, k: SortKey)
    requires Sorted(s) && |s| > 0 && KeyLess(KeyOf(x), KeyOf(s[0]))
    ensures WithKey([x] + s, k) == WithKey(s, k) + (if KeyOf(x) == k then [x] else [])
  {
    WithKeyCons(x, s, k);
    if KeyOf(x) == k {
      forall j | 0 <= j < |s| ensures KeyOf(s[j]) != k {
        if j > 0 {
          KeyLessLe(KeyOf(x), KeyOf(s[0]), KeyOf(s[j]));
        }
        KeyLessIrreflexive(k);
      }
      WithKeyAbsent(s, k);
    }
  }

  /** Stability: the records that share a sort key keep their relative order. */
  lemma {:induction false} SortStable(s: seq<Record>, k: SortKey)
    ensures WithKey(Sort(s), k) == WithKey(s, k)
  {
    if |s| > 0 {
      var init := s[..|s| - 1];
      var x := s[|s| - 1];
      var sorted := Sort(init);
      assert s == init + [x];
      calc {
        WithKey(Sort(s), k);
        WithKey(Insert(x, sorted), k);
        { InsertWithKey(x, sorted, k); }
        WithKey(sorted, k) + (if KeyOf(x) == k then [x] else []);
        { SortStable(init, k); WithKeySingle(x, k); }
        WithKey(init, k) + WithKey([x], k);
        { WithKeyAppend(init, [x], k); }
        WithKey(s, k);
      }
    }
  }

  /** `k` is `achievement-` followed by at least three digits that read back as `n`:
      exactly three below 1000, and no leading zero from 100 on. */
  predicate KeyNumbered(k: string, n: nat) {
    && |k| >= 15 && k[..12] == "achievement-" && AllDigits(k[12..]) && Value(k[12..]) == n
    && (n < 1000 ==> |k| == 15)
    && (n >= 100 ==> k[12..] == Show(n))
  }

  /** `f'achievement-{i:03d}'`. */
  function AchievementKey(i: nat): (k: string)
    ensures KeyNumbered(k, i)
  {
    var k := "achievement-" + Pad3(i);
    assert k[12..] == Pad3(i);
    k
  }

  /** Keys numbered differently differ. */
  lemma NumberedKeysDiffer(a: string, b: string, m: nat, n: nat)
    requires KeyNumbered(a, m) && KeyNumbered(b, n) && m != n
    ensures a != b
  {
  }

  lemma KeysDiffer(m: nat, n: nat)
    requires m != n
    ensures AchievementKey(m) != AchievementKey(n)
  {
    NumberedKeysDiffer(AchievementKey(m), AchievementKey(n), m, n);
  }

  /** The renumbering loop: the `i`-th record (from 0) is stored under
      `achievement-NNN` with NNN = i + 1, in the sorted order, so every key reads back as
      its record's 1-based position and no two records share a key. */
  function Renumber(vs: seq<Record>): (r: seq<Entry>)
    ensures |r| == |vs|
    ensures forall i :: 0 <= i < |r| ==> r[i].1 == vs[i] && KeyNumbered(r[i].0, i + 1)
    ensures forall i, j :: 0 <= i < j < |r| ==> r[i].0 != r[j].0
  {
    var r := seq(|vs|, i requires 0 <= i < |vs| => (AchievementKey(i + 1), vs[i]));
    NumberedEntries(vs, r);
    r
  }

  /** Entries stored under the keys of their 1-based positions are numbered so, and
      their keys are pairwise distinct. */
  lemma NumberedEntries(vs: seq<Record>, r: seq<Entry>)
    requires |r| == |vs| && forall i :: 0 <= i < |r| ==> r[i] == (AchievementKey(i + 1), vs[i])
    ensures forall i :: 0 <= i < |r| ==> r[i].1 == vs[i] && KeyNumbered(r[i].0, i + 1)
    ensures forall i, j :: 0 <= i < j < |r| ==> r[i].0 != r[j].0
  {
    forall i | 0 <= i < |r| ensures r[i].1 == vs[i] && KeyNumbered(r[i].0, i + 1) {
      KeyOfNumber(r[i].0, i + 1);
    }
    forall i, j | 0 <= i < j < |r| ensures r[i].0 != r[j].0 {
      KeysDiffer(i + 1, j + 1);
    }
  }

  lemma KeyOfNumber(k: string, n: nat)
    requires k == AchievementKey(n)
    ensures KeyNumbered(k, n)
  {
  }
}
