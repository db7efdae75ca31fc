/** The main loop of scripts/generate_achievements.py: which posts qualify, the records
    synthesised from them with the `(author, year, publisher)` de-duplication, and the
    sorted, renumbered output mapping. */
module Generate {
  import opened Seqs
  import opened PyStr
  import opened Decimal
  import opened Achievements
  import opened News
  import opened Sorting

  /** What the loop takes from one qualifying post. */
  datatype Facts = Facts(year: string, authors: seq<string>, publisher: string, link: string)

  /** One post's pass through the loop: skipped (None) when its first line is empty, names
      no keyword, or yields neither an author nor a publisher. */
  function Qualify(text: string): (r: Option<Facts>)
    ensures r.Some? <==>
              var first := ParseMd(text).first;
              Announces(first) && (ExtractAuthors(first) != [] || Publisher(first) != "")
    ensures r.Some? ==>
              var first := ParseMd(text).first;
              && r.value.year == ParseMd(text).year
              && r.value.authors == ExtractAuthors(first)
              && r.value.publisher == Publisher(first)
              && r.value.link == ExtractLink(first)
  {
    var post := ParseMd(text);
    if post.first == "" then
      AnnouncesNonEmpty(post.first);
      None
    else if !Announces(post.first) then None
    else
      var info := ExtractInfo(post.first);
      if info.0 == [] && info.1 == "" then None
      else Some(Facts(post.year, info.0, info.1, ExtractLink(post.first)))
  }

  /** The empty first line never announces anything, so the separate empty-line test of
      the loop changes nothing. */
  lemma AnnouncesNonEmpty(line: string)
    ensures Announces(line) ==> line != ""
  {
    if Announces(line) {
      var k :| 0 <= k < |Keywords| && Contains(line, Keywords[k]);
      assert |Keywords[k]| > 0;
    }
  }

  /** The record synthesised for author `a` of a post. */
  function Synthesized(f: Facts, a: string): Record {
    Record("", [], [a, CoAuthor], f.year, f.publisher, f.link)
  }

  /** The de-duplication key `((a,), year, pub)`. */
  datatype DedupKey = DedupKey(author: string, year: string, publisher: string)

  function DedupKeyOf(v: Record): DedupKey {
    DedupKey(if |v.authors| > 0 then v.authors[0] else "", v.year, v.publisher)
  }

  /** The loop state: the records in insertion order and the `seen` set. */
  datatype Synthesis = Synthesis(records: seq<Record>, seen: set<DedupKey>)

  /** The keys of a list of records. */
  function KeysOf(rs: seq<Record>): set<DedupKey> {
    set i | 0 <= i < |rs| :: DedupKeyOf(rs[i])
  }

  /** No two records share a de-duplication key. */
  predicate DistinctKeys(rs: seq<Record>) {
    forall i, j :: 0 <= i < j < |rs| ==> DedupKeyOf(rs[i]) != DedupKeyOf(rs[j])
  }

  /** The loop invariant: `seen` holds exactly the keys of the records so far, and they
      are pairwise distinct. */
  predicate Consistent(s: Synthesis) {
    s.seen == KeysOf(s.records) && DistinctKeys(s.records)
  }

  /** One iteration of the inner loop: author `a` of a post adds a record unless its key
      was seen before. */
  function AddAuthor(s: Synthesis, f: Facts, a: string): (r: Synthesis)
    ensures Consistent(s) ==> Consistent(r)
    ensures DedupKey(a, f.year, f.publisher) in r.seen
    ensures r.seen == s.seen + {DedupKey(a, f.year, f.publisher)}
    ensures DedupKey(a, f.year, f.publisher) in s.seen ==> r == s
    ensures DedupKey(a, f.year, f.publisher) !in s.seen ==> r.records == s.records + [Synthesized(f, a)]
  {
    var key := DedupKey(a, f.year, f.publisher);
    if key in s.seen then s
    else
      var records := s.records + [Synthesized(f, a)];
      assert DedupKeyOf(Synthesized(f, a)) == key;
      assert KeysOf(records) == KeysOf(s.records) + {key} by {
        forall k | k in KeysOf(records) ensures k in KeysOf(s.records) + {key} {
          var i :| 0 <= i < |records| && DedupKeyOf(records[i]) == k;
          if i < |s.records| {
            assert records[i] == s.records[i];
          }
        }
        forall k | k in KeysOf(s.records) ensures k in KeysOf(records) {
          var i :| 0 <= i < |s.records| && DedupKeyOf(s.records[i]) == k;
          assert records[i] == s.records[i];
        }
        assert records[|s.records|] == Synthesized(f, a);
      }
      Synthesis(records, s.seen + {key})
  }

  /** The de-duplication keys of the first `n` authors of a post. */
  function AuthorKeys(f: Facts, n: nat): set<DedupKey>
    requires n <= |f.authors|
  {
    set k | 0 <= k < n :: DedupKey(f.authors[k], f.year, f.publisher)
  }

  lemma AuthorKeysStep(f: Facts, n: nat)
    requires 0 < n <= |f.authors|
    ensures AuthorKeys(f, n) == AuthorKeys(f, n - 1) + {DedupKey(f.authors[n - 1], f.year, f.publisher)}
  {
  }

  /** The de-duplication keys of a post's authors. */
  function PostKeys(f: Facts): set<DedupKey> {
    AuthorKeys(f, |f.authors|)
  }

  /** `v` is the record synthesised for one of the authors of `f`. */
  ghost predicate Yields(f: Facts, v: Record) {
    exists k :: 0 <= k < |f.authors| && v == Synthesized(f, f.authors[k])
  }

  /** `r` is `s` with records appended, each synthesised for an author of `f`. */
  ghost predicate Grows(s: Synthesis, r: Synthesis, f: Facts) {
    && |s.records| <= |r.records| && r.records[..|s.records|] == s.records
    && forall i :: |s.records| <= i < |r.records| ==> Yields(f, r.records[i])
  }

  lemma GrowsStep(s: Synthesis, mid: Synthesis, r: Synthesis, f: Facts, k: nat)
    requires Grows(s, mid, f) && k < |f.authors|
    requires r.records == mid.records || r.records == mid.records + [Synthesized(f, f.authors[k])]
    ensures Grows(s, r, f)
  {
    assert r.records[..|mid.records|] == mid.records;
    assert r.records[..|s.records|] == mid.records[..|s.records|];
    forall i | |s.records| <= i < |r.records| ensures Yields(f, r.records[i]) {
      if i < |mid.records| {
        assert r.records[i] == mid.records[i];
      }
    }
  }

  /** The inner loop over the first `n` authors of a post, as a fold from the left. */
  function AddAuthors(s: Synthesis, f: Facts, n: nat): (r: Synthesis)
    requires n <= |f.authors|
    ensures Consistent(s) ==> Consistent(r)
    ensures r.seen == s.seen + AuthorKeys(f, n)
    ensures Grows(s, r, f)
  {
    if n == 0 then s
    else
      var mid := AddAuthors(s, f, n - 1);
      var r := AddAuthor(mid, f, f.authors[n - 1]);
      GrowsStep(s, mid, r, f, n - 1);
      AuthorKeysStep(f, n);
      r
  }

  /** One pass of the outer loop: a skipped post changes nothing, a qualifying one runs the
      inner loop over all its authors. */
  function AddPost(s: Synthesis, post: Option<Facts>): (r: Synthesis)
    ensures Consistent(s) ==> Consistent(r)
    ensures post.None? ==> r == s
    ensures post.Some? && post.value.authors == [] ==> r == s
    ensures post.Some? ==> r.seen == s.seen + PostKeys(post.value)
    ensures post.Some? ==> Grows(s, r, post.value)
  {
    match post
    case None => s
    case Some(f) => AddAuthors(s, f, |f.authors|)
  }

  /** Record `v` comes from one of the qualifying posts in `posts`. */
  ghost predicate FromSomePost(posts: seq<Option<Facts>>, v: Record) {
    exists j :: 0 <= j < |posts| && posts[j].Some? && Yields(posts[j].value, v)
  }

  /** The outer loop over the posts' facts, as a fold from the left: the records carry
      pairwise distinct keys, each comes from some author of some qualifying post, and
      every author of every qualifying post has its key seen. */
  function SynthesizeFacts(posts: seq<Option<Facts>>): (r: Synthesis)
    ensures Consistent(r)
    ensures forall i :: 0 <= i < |r.records| ==> FromSomePost(posts, r.records[i])
    ensures forall j :: 0 <= j < |posts| && posts[j].Some? ==> PostKeys(posts[j].value) <= r.seen
  {
    if |posts| == 0 then Synthesis([], {})
    else
      var init := posts[..|posts| - 1];
      var last := posts[|posts| - 1];
      var prev := SynthesizeFacts(init);
      assert posts == init + [last];
      AddPostExtends(init, last, prev);
      AddPost(prev, last)
  }

  /** One more pass of the outer loop keeps the synthesis invariants, now over the posts
      seen so far plus `last`. */
  lemma AddPostExtends(init: seq<Option<Facts>>, last: Option<Facts>, prev: Synthesis)
    requires forall i :: 0 <= i < |prev.records| ==> FromSomePost(init, prev.records[i])
    requires forall j :: 0 <= j < |init| && init[j].Some? ==> PostKeys(init[j].value) <= prev.seen
    ensures var r := AddPost(prev, last);
      forall i :: 0 <= i < |r.records| ==> FromSomePost(init + [last], r.records[i])
    ensures var r := AddPost(prev, last);
      forall j :: 0 <= j < |init| + 1 && (init + [last])[j].Some? ==>
        PostKeys((init + [last])[j].value) <= r.seen
  {
    var posts := init + [last];
    var r := AddPost(prev, last);
    assert last.Some? ==> Grows(prev, r, last.value);
    forall i | 0 <= i < |r.records| ensures FromSomePost(posts, r.records[i]) {
      if i < |prev.records| {
        assert r.records[i] == prev.records[i];
        var j :| 0 <= j < |init| && init[j].Some? && Yields(init[j].value, prev.records[i]);
        assert posts[j] == init[j];
      } else {
        assert posts[|init|] == last;
      }
    }
    forall j | 0 <= j < |posts| && posts[j].Some? ensures PostKeys(posts[j].value) <= r.seen {
      if j < |init| {
        assert posts[j] == init[j];
      }
    }
  }

  // ---------------------------------------------------------------------------
  // The synthesis as "first record per key"

  /** The records the inner loop proposes for the first `n` authors of a post, in order. */
  function AuthorCandidates(f: Facts, n: nat): (r: seq<Record>)
    requires n <= |f.authors|
    ensures |r| == n && forall k :: 0 <= k < n ==> r[k] == Synthesized(f, f.authors[k])
  {
    if n == 0 then [] else AuthorCandidates(f, n - 1) + [Synthesized(f, f.authors[n - 1])]
  }

  /** The records a post proposes: one per author of a qualifying post, none otherwise. */
  function PostCandidates(post: Option<Facts>): seq<Record> {
    match post
    case None => []
    case Some(f) => AuthorCandidates(f, |f.authors|)
  }

  /** Every record the loops propose, posts in order and each post's authors in order,
      before any de-duplication. */
  function Candidates(posts: seq<Option<Facts>>): seq<Record> {
    if |posts| == 0 then [] else Candidates(posts[..|posts| - 1]) + PostCandidates(posts[|posts| - 1])
  }

  /** The records of `rs` whose key no earlier record of `rs` has: the first record for
      each key, in order. */
  function FirstByKey(rs: seq<Record>): seq<Record> {
    if |rs| == 0 then []
    else
      var init := rs[..|rs| - 1];
      if DedupKeyOf(rs[|rs| - 1]) in KeysOf(init) then FirstByKey(init)
      else FirstByKey(init) + [rs[|rs| - 1]]
  }

  lemma KeysOfSnoc(rs: seq<Record>, x: Record)
    ensures KeysOf(rs + [x]) == KeysOf(rs) + {DedupKeyOf(x)}
  {
    var all := rs + [x];
    forall k | k in KeysOf(all) ensures k in KeysOf(rs) + {DedupKeyOf(x)} {
      var i :| 0 <= i < |all| && DedupKeyOf(all[i]) == k;
      if i < |rs| {
        assert all[i] == rs[i];
      }
    }
    forall k | k in KeysOf(rs) ensures k in KeysOf(all) {
      var i :| 0 <= i < |rs| && DedupKeyOf(rs[i]) == k;
      assert all[i] == rs[i];
    }
    assert all[|rs|] == x;
  }

  lemma FirstByKeySnoc(rs: seq<Record>, x: Record)
    ensures FirstByKey(rs + [x]) ==
              if DedupKeyOf(x) in KeysOf(rs) then FirstByKey(rs) else FirstByKey(rs) + [x]
  {
    assert (rs + [x])[..|rs|] == rs;
    assert (rs + [x])[|rs|] == x;
  }

  /** The state after the records proposed so far, `done`, seen as "first record per key". */
  predicate Tracks(s: Synthesis, done: seq<Record>) {
    s.records == FirstByKey(done) && s.seen == KeysOf(done)
  }

  lemma AddAuthorTracks(s: Synthesis, done: seq<Record>, f: Facts, a: string)
    requires Tracks(s, done)
    ensures Tracks(AddAuthor(s, f, a), done + [Synthesized(f, a)])
  {
    var x := Synthesized(f, a);
    assert DedupKeyOf(x) == DedupKey(a, f.year, f.publisher);
    KeysOfSnoc(done, x);
    FirstByKeySnoc(done, x);
  }

  lemma {:induction false} AddAuthorsTracks(s: Synthesis, done: seq<Record>, f: Facts, n: nat)
    requires n <= |f.authors| && Tracks(s, done)
    ensures Tracks(AddAuthors(s, f, n), done + AuthorCandidates(f, n))
  {
    if n == 0 {
      assert done + AuthorCandidates(f, 0) == done;
    } else {
      AddAuthorsTracks(s, done, f, n - 1);
      var x := Synthesized(f, f.authors[n - 1]);
      AddAuthorTracks(AddAuthors(s, f, n - 1), done + AuthorCandidates(f, n - 1), f, f.authors[n - 1]);
      assert done + AuthorCandidates(f, n) == (done + AuthorCandidates(f, n - 1)) + [x];
    }
  }

  lemma AddPostTracks(s: Synthesis, done: seq<Record>, post: Option<Facts>)
    requires Tracks(s, done)
    ensures Tracks(AddPost(s, post), done + PostCandidates(post))
  {
    match post
    case None =>
      assert done + [] == done;
    case Some(f) =>
      AddAuthorsTracks(s, done, f, |f.authors|);
  }

  /** `seen`-set de-duplication keeps, in order, exactly the first proposed record for
      each key: a later post or author with a key already produced adds nothing. */
  lemma {:induction false} SynthesizeIsFirstByKey(posts: seq<Option<Facts>>)
    ensures SynthesizeFacts(posts).records == FirstByKey(Candidates(posts))
    ensures SynthesizeFacts(posts).seen == KeysOf(Candidates(posts))
  {
    if |posts| == 0 {
      assert KeysOf([]) == {};
    } else {
      var init := posts[..|posts| - 1];
      SynthesizeIsFirstByKey(init);
      AddPostTracks(SynthesizeFacts(init), Candidates(init), posts[|posts| - 1]);
    }
  }

  /** The facts of every post, in order. */
  function PostsOf(texts: seq<string>): (r: seq<Option<Facts>>)
    ensures |r| == |texts| && forall j :: 0 <= j < |r| ==> r[j] == Qualify(texts[j])
  {
    seq(|texts|, j requires 0 <= j < |texts| => Qualify(texts[j]))
  }

  /** The synthesis loop of `main` over the posts' texts. */
  function Synthesize(texts: seq<string>): Synthesis {
    SynthesizeFacts(PostsOf(texts))
  }

  /** The values of the output mapping, in order. */
  function Values(out: seq<Entry>): (r: seq<Record>)
    ensures |r| == |out| && forall i :: 0 <= i < |r| ==> r[i] == out[i].1
  {
    seq(|out|, i requires 0 <= i < |out| => out[i].1)
  }

  /** The output mapping built from the synthesised records: stably sorted by `sort_key`
      and stored under `achievement-001`, `achievement-002`, … */
  function Output(records: seq<Record>): (r: seq<Entry>)
    ensures multiset(Values(r)) == multiset(records)
    ensures Sorted(Values(r))
    ensures forall k :: WithKey(Values(r), k) == WithKey(records, k)
    ensures DistinctKeys(records) ==> DistinctKeys(Values(r))
    ensures forall i :: 0 <= i < |r| ==> KeyNumbered(r[i].0, i + 1)
    ensures forall i, j :: 0 <= i < j < |r| ==> r[i].0 != r[j].0
  {
    var sorted := Sort(records);
    var r := Renumber(sorted);
    assert Values(r) == sorted;
    forall k ensures WithKey(sorted, k) == WithKey(records, k) {
      SortStable(records, k);
    }
    PermutationKeepsDistinctKeys(records, sorted);
    r
  }

  /** `main` without the file I/O: the synthesised records (no manual entries survive),
      stably sorted by `sort_key` and stored under `achievement-001`, `achievement-002`, … */
  function Generate(texts: seq<string>): (r: seq<Entry>)
    ensures multiset(Values(r)) == multiset(Synthesize(texts).records)
    ensures Sorted(Values(r))
    ensures forall k :: WithKey(Values(r), k) == WithKey(Synthesize(texts).records, k)
    ensures DistinctKeys(Values(r))
    ensures forall i :: 0 <= i < |r| ==> KeyNumbered(r[i].0, i + 1)
    ensures forall i, j :: 0 <= i < j < |r| ==> r[i].0 != r[j].0
  {
    Output(Synthesize(texts).records)
  }

  /** Reordering a list does not create shared keys. */
  lemma PermutationKeepsDistinctKeys(a: seq<Record>, b: seq<Record>)
    requires multiset(a) == multiset(b)
    ensures DistinctKeys(a) ==> DistinctKeys(b)
  {
    if DistinctKeys(a) {
      forall i, j | 0 <= i < j < |b| ensures DedupKeyOf(b[i]) != DedupKeyOf(b[j]) {
        assert b[i] in multiset(a) && b[j] in multiset(a);
        var p :| 0 <= p < |a| && a[p] == b[i];
        var q :| 0 <= q < |a| && a[q] == b[j];
        if p == q {
          RepeatCount(b, i, j);
          SingleCount(a, p);
        }
      }
    }
  }

  /** An element found at two indices occurs at least twice. */
  lemma RepeatCount(b: seq<Record>, i: nat, j: nat)
    requires i < j < |b| && b[i] == b[j]
    ensures multiset(b)[b[i]] >= 2
  {
    assert b == b[..i] + [b[i]] + b[i + 1..j] + [b[j]] + b[j + 1..];
  }

  /** An element of a list with distinct keys occurs once. */
  lemma SingleCount(a: seq<Record>, p: nat)
    requires p < |a| && DistinctKeys(a)
    ensures multiset(a)[a[p]] == 1
  {
    var x := a[p];
    assert a == a[..p] + [x] + a[p + 1..];
    assert x !in multiset(a[..p]);
    assert x !in multiset(a[p + 1..]);
  }
}
