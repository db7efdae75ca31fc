/** Generic sequence helpers shared by both maintenance scripts: an optional value,
    order-preserving de-duplication, flattening and filtering. */
module Seqs {

  /** An optional value, standing for Python's `None` or a regex search that found nothing. */
  datatype Option<+T> = None | Some(value: T)

  /** No element occurs twice. */
  predicate Distinct<T(==)>(s: seq<T>) {
    forall i, j :: 0 <= i < j < |s| ==> s[i] != s[j]
  }

  /** Reference definition: the elements of `s` taken at their first occurrence, in order. */
  function FirstOccurrences<T(==)>(s: seq<T>): seq<T>
  {
    if |s| == 0 then []
    else
      var init := s[..|s| - 1];
      FirstOccurrences(init) + (if s[|s| - 1] in init then [] else [s[|s| - 1]])
  }

  /** The left-to-right walk behind both `list(dict.fromkeys(xs))` and the
      `if x not in out: out.append(x)` loop: keep an element unless it is already kept. */
  function DedupeInto<T(==)>(kept: seq<T>, rest: seq<T>): seq<T>
    decreases |rest|
  {
    if |rest| == 0 then kept
    else DedupeInto(if rest[0] in kept then kept else kept + [rest[0]], rest[1..])
  }

  /** Order-preserving de-duplication: the result has no repeats, holds exactly the elements
      of `s`, and lists them in order of first occurrence. */
  function Dedupe<T(==)>(s: seq<T>): (r: seq<T>)
    ensures r == FirstOccurrences(s)
    ensures Distinct(r)
    ensures forall i :: 0 <= i < |r| ==> r[i] in s
    ensures forall i :: 0 <= i < |s| ==> s[i] in r
  {
    DedupeIsFirstOccurrences([], s);
    assert FirstOccurrences<T>([]) == [] && [] + s == s;
    FirstOccurrencesFacts(s);
    DedupeInto([], s)
  }

  lemma {:induction false} FirstOccurrencesMember<T>(s: seq<T>, x: T)
    ensures x in FirstOccurrences(s) <==> x in s
  {
    if |s| > 0 {
      var init := s[..|s| - 1];
      FirstOccurrencesMember(init, x);
      assert s == init + [s[|s| - 1]];
    }
  }

  lemma {:induction false} FirstOccurrencesFacts<T>(s: seq<T>)
    ensures Distinct(FirstOccurrences(s))
    ensures forall i :: 0 <= i < |FirstOccurrences(s)| ==> FirstOccurrences(s)[i] in s
    ensures forall i :: 0 <= i < |s| ==> s[i] in FirstOccurrences(s)
  {
    if |s| > 0 {
      var init := s[..|s| - 1];
      FirstOccurrencesFacts(init);
      FirstOccurrencesMember(init, s[|s| - 1]);
      assert s == init + [s[|s| - 1]];
      forall i | 0 <= i < |s| ensures s[i] in FirstOccurrences(s) {
        if i < |s| - 1 {
          assert s[i] == init[i];
        }
      }
    }
  }

  /** Walking `rest` after having kept the first occurrences of `done` yields the
      first occurrences of `done + rest`. */
  lemma {:induction false} DedupeIsFirstOccurrences<T>(done: seq<T>, rest: seq<T>)
    ensures DedupeInto(FirstOccurrences(done), rest) == FirstOccurrences(done + rest)
    decreases |rest|
  {
    if |rest| > 0 {
      var x := rest[0];
      FirstOccurrencesMember(done, x);
      assert (done + [x])[..|done + [x]| - 1] == done;
      assert FirstOccurrences(done + [x])
          == if x in FirstOccurrences(done) then FirstOccurrences(done)
             else FirstOccurrences(done) + [x];
      DedupeIsFirstOccurrences(done + [x], rest[1..]);
      assert done + [x] + rest[1..] == done + rest;
    } else {
      assert done + rest == done;
    }
  }

  /** The first index at or after `from` whose element satisfies `p`. */
  function IndexWhere<T>(s: seq<T>, p: T -> bool, from: nat): (r: Option<nat>)
    ensures r.Some? ==> from <= r.value < |s| && p(s[r.value])
    ensures r.Some? ==> forall k :: from <= k < r.value ==> !p(s[k])
    ensures r.None? ==> forall k :: from <= k < |s| ==> !p(s[k])
    decreases |s| - from
  {
    if from >= |s| then None
    else if p(s[from]) then Some(from)
    else IndexWhere(s, p, from + 1)
  }

  /** Flattening, as a chain of `list.append`/`extend` calls. */
  function Concat<T>(ss: seq<seq<T>>): seq<T>
  {
    if |ss| == 0 then [] else ss[0] + Concat(ss[1..])
  }

  lemma ConcatSingle<T>(x: seq<T>)
    ensures Concat([x]) == x
  {
    assert [x][1..] == [];
  }

  lemma ConcatCons<T>(x: seq<T>, rest: seq<seq<T>>)
    ensures Concat([x] + rest) == x + Concat(rest)
  {
    assert ([x] + rest)[1..] == rest;
  }

  lemma {:induction false} ConcatMembership<T>(ss: seq<seq<T>>, x: T)
    ensures x in Concat(ss) <==> exists k :: 0 <= k < |ss| && x in ss[k]
  {
    if |ss| > 0 {
      ConcatMembership(ss[1..], x);
      if x in Concat(ss[1..]) {
        var k :| 0 <= k < |ss[1..]| && x in ss[1..][k];
        assert x in ss[k + 1];
      }
      forall k | 0 <= k < |ss| && x in ss[k] && k > 0
        ensures x in Concat(ss[1..])
      {
        assert x in ss[1..][k - 1];
      }
    }
  }

  /** The elements of `s` that satisfy `keep`, in order. */
  function Filter<T>(s: seq<T>, keep: T -> bool): (r: seq<T>)
    ensures |r| <= |s|
    ensures forall i :: 0 <= i < |r| ==> r[i] in s && keep(r[i])
    ensures forall i :: 0 <= i < |s| && keep(s[i]) ==> s[i] in r
  {
    if |s| == 0 then []
    else (if keep(s[0]) then [s[0]] else []) + Filter(s[1..], keep)
  }

  lemma FilterCons<T>(x: T, rest: seq<T>, keep: T -> bool)
    ensures Filter([x] + rest, keep) == (if keep(x) then [x] else []) + Filter(rest, keep)
  {
    assert ([x] + rest)[0] == x && ([x] + rest)[1..] == rest;
  }

  /** `[f(x) for x in s]`. */
  function Map<T, U>(s: seq<T>, f: T -> U): (r: seq<U>)
    ensures |r| == |s|
    ensures forall i :: 0 <= i < |s| ==> r[i] == f(s[i])
  {
    if |s| == 0 then [] else [f(s[0])] + Map(s[1..], f)
  }

  lemma MapCons<T, U>(x: T, rest: seq<T>, f: T -> U)
    ensures Map([x] + rest, f) == [f(x)] + Map(rest, f)
  {
    assert ([x] + rest)[0] == x && ([x] + rest)[1..] == rest;
  }

  /** How many elements of `s` satisfy `p`. */
  function Count<T>(s: seq<T>, p: T -> bool): nat {
    if |s| == 0 then 0 else (if p(s[0]) then 1 else 0) + Count(s[1..], p)
  }

  /** Counting the elements that satisfy `p` is measuring the list `Filter` keeps. */
  lemma {:induction false} CountIsFilterLength<T>(s: seq<T>, p: T -> bool)
    ensures Count(s, p) == |Filter(s, p)|
  {
    if |s| > 0 {
      CountIsFilterLength(s[1..], p);
    }
  }
}
