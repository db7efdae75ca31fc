/** The behaviour of Python's `str` and of the literal parts of `re` that both scripts rely on,
    over code points (a Dafny `char` is one Unicode scalar value, as a Python `str` element is). */
module PyStr {
  import opened Seqs

  /** `str.isspace()`; the same 29 code points are what `\s` matches in a `str` pattern. */
  predicate IsSpace(c: char) {
    || ('\t' <= c <= '\r')
    || ('\U{1C}' <= c <= ' ')
    || c == '\U{85}' || c == '\U{A0}' || c == '\U{1680}'
    || ('\U{2000}' <= c <= '\U{200A}')
    || c == '\U{2028}' || c == '\U{2029}' || c == '\U{202F}' || c == '\U{205F}' || c == '\U{3000}'
  }

  predicate NotSpace(c: char) { !IsSpace(c) }

  /** The line boundaries of `str.splitlines()`; every one of them is also whitespace. */
  predicate IsLineBreak(c: char) {
    || ('\n' <= c <= '\r')
    || ('\U{1C}' <= c <= '\U{1E}')
    || c == '\U{85}' || c == '\U{2028}' || c == '\U{2029}'
  }

  predicate IsAsciiDigit(c: char) { '0' <= c <= '9' }

  // ---------------------------------------------------------------------------
  // Runs and strip

  /** Length of the longest prefix of `s` whose characters all satisfy `p`. */
  function LeadRun(s: string, p: char -> bool): (n: nat)
    ensures n <= |s|
    ensures forall i :: 0 <= i < n ==> p(s[i])
    ensures n < |s| ==> !p(s[n])
  {
    if |s| > 0 && p(s[0]) then 1 + LeadRun(s[1..], p) else 0
  }

  /** Length of the longest suffix of `s` whose characters all satisfy `p`. */
  function TrailRun(s: string, p: char -> bool): (n: nat)
    ensures n <= |s|
    ensures forall i :: |s| - n <= i < |s| ==> p(s[i])
    ensures n < |s| ==> !p(s[|s| - n - 1])
  {
    if |s| > 0 && p(s[|s| - 1]) then 1 + TrailRun(s[..|s| - 1], p) else 0
  }

  /** The two facts TrailRun promises pin it down. */
  lemma TrailRunUnique(s: string, p: char -> bool, n: nat)
    requires n <= |s|
    requires forall i :: |s| - n <= i < |s| ==> p(s[i])
    requires n < |s| ==> !p(s[|s| - n - 1])
    ensures TrailRun(s, p) == n
  {
  }

  /** Dropping a prefix that stays clear of the trailing run leaves the run unchanged. */
  lemma TrailRunDrop(s: string, p: char -> bool, k: nat)
    requires k <= |s| - TrailRun(s, p)
    ensures TrailRun(s[k..], p) == TrailRun(s, p)
  {
    var t := TrailRun(s, p);
    var u := s[k..];
    forall i | |u| - t <= i < |u| ensures p(u[i]) {
      assert u[i] == s[k + i];
    }
    if t < |u| {
      assert u[|u| - t - 1] == s[|s| - t - 1];
    }
    TrailRunUnique(u, p, t);
  }

  /** `s.lstrip(chars)`, with `drop` saying which characters are in `chars`. */
  function LStrip(s: string, drop: char -> bool): string
  {
    s[LeadRun(s, drop)..]
  }

  /** `s.rstrip(chars)`. */
  function RStrip(s: string, drop: char -> bool): string
  {
    s[..|s| - TrailRun(s, drop)]
  }

  /** `s.strip(chars)`: the infix of `s` left after removing the droppable characters at
      both ends. */
  function StripBy(s: string, drop: char -> bool): (r: string)
    ensures |r| <= |s|
    ensures |r| > 0 ==> !drop(r[0]) && !drop(r[|r| - 1])
    ensures |r| == 0 <==> forall i :: 0 <= i < |s| ==> drop(s[i])
    ensures exists i :: StrippedFrom(s, r, i, drop)
  {
    StripByAllDropped(s, drop);
    var a := LeadRun(s, drop);
    var r := RStrip(LStrip(s, drop), drop);
    assert r == s[a..a + |r|];
    assert StrippedFrom(s, r, a, drop);
    r
  }

  /** `r` is the infix of `s` at index `i`, and only droppable characters lie outside it. */
  ghost predicate StrippedFrom(s: string, r: string, i: int, drop: char -> bool) {
    && 0 <= i <= |s| - |r| && r == s[i..i + |r|]
    && (forall k :: 0 <= k < i ==> drop(s[k]))
    && (forall k :: i + |r| <= k < |s| ==> drop(s[k]))
  }

  /** Stripping a suffix of `g` that starts at `a`, seen from `g`. */
  lemma StrippedFromSuffix(g: string, a: nat, r: string, i: int, drop: char -> bool)
    requires a <= |g| && StrippedFrom(g[a..], r, i, drop)
    ensures r == g[a + i..a + i + |r|]
    ensures forall k :: a <= k < a + i ==> drop(g[k])
    ensures forall k :: a + i + |r| <= k < |g| ==> drop(g[k])
  {
    var t := g[a..];
    forall k | a <= k < a + i ensures drop(g[k]) {
      assert g[k] == t[k - a];
    }
    forall k | a + i + |r| <= k < |g| ensures drop(g[k]) {
      assert g[k] == t[k - a];
    }
  }

  lemma StripByAllDropped(s: string, drop: char -> bool)
    ensures |RStrip(LStrip(s, drop), drop)| == 0 ==> forall i :: 0 <= i < |s| ==> drop(s[i])
  {
    var a := LeadRun(s, drop);
    var m := s[a..];
    if |m| - TrailRun(m, drop) == 0 {
      assert a == |s|;
    }
  }

  /** `s.strip()`. */
  function Strip(s: string): string
  {
    StripBy(s, IsSpace)
  }

  /** Neither end is whitespace: what `strip()` leaves. */
  predicate IsStripped(s: string) {
    |s| == 0 || (!IsSpace(s[0]) && !IsSpace(s[|s| - 1]))
  }

  lemma StripStripped(s: string)
    requires IsStripped(s)
    ensures Strip(s) == s
  {
    assert LeadRun(s, IsSpace) == 0;
    assert TrailRun(s, IsSpace) == 0;
  }

  /** Stripping keeps a string free of the characters it was free of. */
  lemma StripNoneIn(s: string, p: char -> bool)
    requires NoneIn(s, p)
    ensures NoneIn(Strip(s), p)
  {
    var r := Strip(s);
    var i :| StrippedFrom(s, r, i, IsSpace);
    forall k | 0 <= k < |r| ensures !p(r[k]) {
      assert r[k] == s[i + k];
    }
  }

  // ---------------------------------------------------------------------------
  // Substring search

  /** `p` occurs in `s` starting at index `i`. */
  predicate OccursAt(s: string, p: string, i: int) {
    0 <= i && i + |p| <= |s| && s[i..i + |p|] == p
  }

  /** Python's `p in s` (and `re.search(re.escape(p), s)` succeeding). */
  predicate Contains(s: string, p: string) {
    exists k | 0 <= k <= |s| - |p| :: OccursAt(s, p, k)
  }

  /** The leftmost occurrence of `p` in `s` at or after `i`, as `s.find(p, i)`. */
  function FindFrom(s: string, p: string, i: nat): (r: Option<nat>)
    ensures r.Some? ==> i <= r.value && OccursAt(s, p, r.value)
    ensures r.Some? ==> forall k :: i <= k < r.value ==> !OccursAt(s, p, k)
    ensures r.None? ==> forall k :: i <= k ==> !OccursAt(s, p, k)
    decreases |s| - i
  {
    if i + |p| > |s| then None
    else if s[i..i + |p|] == p then Some(i)
    else FindFrom(s, p, i + 1)
  }

  /** `re.sub(re.escape(p), '', s)`: delete the non-overlapping occurrences of `p` found
      scanning left to right; an empty pattern deletes nothing. */
  function RemoveAll(s: string, p: string): (r: string)
    ensures |r| <= |s|
    ensures |p| == 0 ==> r == s
    ensures !Contains(s, p) ==> r == s
    decreases |s|
  {
    if |p| == 0 || |s| == 0 then s
    else if p <= s then
      assert OccursAt(s, p, 0);
      RemoveAll(s[|p|..], p)
    else
      ContainsTail(s, p);
      [s[0]] + RemoveAll(s[1..], p)
  }

  /** The pieces of `s` left between the occurrences of `p` that a left-to-right scan
      picks, trying each position in turn and jumping past every occurrence it takes. */
  function Pieces(s: string, p: string): (r: seq<string>)
    requires |p| > 0
    ensures |r| > 0
    decreases |s|
  {
    if |s| == 0 then [""]
    else if p <= s then [""] + Pieces(s[|p|..], p)
    else
      var rest := Pieces(s[1..], p);
      [[s[0]] + rest[0]] + rest[1..]
  }

  /** The pieces glued back together with `p` between them. */
  function Join(pieces: seq<string>, p: string): string
    requires |pieces| > 0
  {
    if |pieces| == 1 then pieces[0] else pieces[0] + p + Join(pieces[1..], p)
  }

  /** `p` does not occur in `piece + p` before the `p` appended. */
  predicate FirstAtEnd(piece: string, p: string) {
    forall t :: 0 <= t < |piece| ==> !OccursAt(piece + p, p, t)
  }

  /** `ps` splits `s` at occurrences of `p`: joined with `p` the pieces give back `s`, the
      occurrence after each piece is the leftmost one from the start of that piece, and
      the last piece holds no occurrence. These three facts say that the cuts are the
      non-overlapping occurrences found scanning left to right. */
  predicate SplitsAt(s: string, ps: seq<string>, p: string) {
    && |ps| > 0 && Join(ps, p) == s
    && (forall k :: 0 <= k < |ps| - 1 ==> FirstAtEnd(ps[k], p))
    && !Contains(ps[|ps| - 1], p)
  }

  /** `Pieces` cuts exactly at the occurrences a left-to-right scan finds. */
  lemma {:induction false} PiecesMeaning(s: string, p: string)
    requires |p| > 0
    ensures SplitsAt(s, Pieces(s, p), p)
    decreases |s|
  {
    if |s| == 0 {
      assert Pieces(s, p) == [""];
    } else if p <= s {
      PiecesMeaning(s[|p|..], p);
      CutSplits(s, p, Pieces(s[|p|..], p));
    } else {
      var rest := Pieces(s[1..], p);
      PiecesMeaning(s[1..], p);
      StepSplits(s, p, rest);
    }
  }

  lemma CutSplits(s: string, p: string, rest: seq<string>)
    requires |p| > 0 && p <= s && SplitsAt(s[|p|..], rest, p)
    ensures SplitsAt(s, [""] + rest, p)
  {
    var r := [""] + rest;
    assert r[1..] == rest;
    assert s == p + s[|p|..];
    assert forall k :: 1 <= k < |r| ==> r[k] == rest[k - 1];
  }

  lemma StepSplits(s: string, p: string, rest: seq<string>)
    requires |p| > 0 && |s| > 0 && !(p <= s) && SplitsAt(s[1..], rest, p)
    ensures SplitsAt(s, [[s[0]] + rest[0]] + rest[1..], p)
  {
    var r := [[s[0]] + rest[0]] + rest[1..];
    JoinShift(s[0], rest, p);
    assert s == [s[0]] + s[1..];
    assert forall k :: 1 <= k < |r| ==> r[k] == rest[k];
    if |rest| > 1 {
      assert Join(rest, p) == rest[0] + p + Join(rest[1..], p);
      FirstAtEndShift(s, rest[0], Join(rest[1..], p), p);
    } else {
      assert r == [s];
      NotContainsShift(s, p);
    }
  }

  /** Gluing after putting `c` in front of the first piece puts `c` in front. */
  lemma JoinShift(c: char, ps: seq<string>, p: string)
    requires |ps| > 0
    ensures Join([[c] + ps[0]] + ps[1..], p) == [c] + Join(ps, p)
  {
    var qs := [[c] + ps[0]] + ps[1..];
    if |ps| > 1 {
      assert qs[1..] == ps[1..];
    }
  }

  /** The first piece of a scan that did not cut at position 0 still ends at its leftmost
      occurrence, once the first character is put back. */
  lemma FirstAtEndShift(s: string, a: string, tail: string, p: string)
    requires |p| > 0 && |s| > 0 && !(p <= s)
    requires s[1..] == a + p + tail && FirstAtEnd(a, p)
    ensures FirstAtEnd([s[0]] + a, p)
  {
    var piece := [s[0]] + a;
    var x := piece + p;
    assert x[1..] == a + p;
    assert s == x + tail;
    NotAtStart(s, x, p);
    forall t | 1 <= t < |piece| ensures !OccursAt(x, p, t) {
      OccursShift(x, p, t - 1);
    }
  }

  /** A prefix of a text that does not start with `p` does not start with `p` either. */
  lemma NotAtStart(s: string, x: string, p: string)
    requires |x| <= |s| && x == s[..|x|] && !(p <= s)
    ensures !OccursAt(x, p, 0)
  {
    if |p| <= |x| {
      assert x[..|p|] == s[..|p|];
    }
  }

  /** A text that does not start with `p`, and whose tail holds no occurrence, holds none. */
  lemma NotContainsShift(s: string, p: string)
    requires |s| > 0 && !(p <= s) && !Contains(s[1..], p)
    ensures !Contains(s, p)
  {
    forall k | 0 <= k <= |s| - |p| ensures !OccursAt(s, p, k) {
      if k == 0 {
        assert s[..|p|] != p;
      } else {
        OccursShift(s, p, k - 1);
      }
    }
  }

  /** `p` occurs one position further on in `s` than in `s[1..]`. */
  lemma OccursShift(s: string, p: string, k: nat)
    requires |s| > 0
    ensures OccursAt(s, p, k + 1) <==> OccursAt(s[1..], p, k)
  {
    if k + 1 + |p| <= |s| {
      assert s[1..][k..k + |p|] == s[k + 1..k + 1 + |p|];
    }
  }

  /** `RemoveAll` deletes exactly the occurrences the left-to-right scan picks: what it
      returns is the pieces between them, concatenated. */
  lemma {:induction false} RemoveAllIsPieces(s: string, p: string)
    requires |p| > 0
    ensures RemoveAll(s, p) == Concat(Pieces(s, p))
    decreases |s|
  {
    if |s| == 0 {
      ConcatSingle(s);
    } else if p <= s {
      RemoveAllIsPieces(s[|p|..], p);
      ConcatCons("", Pieces(s[|p|..], p));
    } else {
      var rest := Pieces(s[1..], p);
      RemoveAllIsPieces(s[1..], p);
      ConcatShift(s[0], rest[0], rest[1..]);
    }
  }

  lemma ConcatShift(c: char, a: string, rest: seq<string>)
    ensures Concat([[c] + a] + rest) == [c] + (a + Concat(rest))
  {
    ConcatCons([c] + a, rest);
  }

  lemma ContainsTail(s: string, p: string)
    requires |s| > 0
    ensures !Contains(s, p) ==> !Contains(s[1..], p)
  {
    if !Contains(s, p) {
      forall k | 0 <= k <= |s[1..]| - |p| ensures !OccursAt(s[1..], p, k) {
        assert !OccursAt(s, p, k + 1);
        assert s[1..][k..k + |p|] == s[k + 1..k + 1 + |p|];
      }
    }
  }

  // ---------------------------------------------------------------------------
  // Splitting

  predicate NonEmpty(s: string) { s != "" }

  /** No character of `t` satisfies `p`. */
  predicate NoneIn(t: string, p: char -> bool) {
    forall i :: 0 <= i < |t| ==> !p(t[i])
  }

  /** `re.split('[...]', s)` for a class of single characters: the pieces between
      separators, one more than there are separators. */
  function SplitOn(s: string, sep: char -> bool): (r: seq<string>)
    ensures |r| == 1 + |Filter(s, sep)|
    ensures forall k :: 0 <= k < |r| ==> NoneIn(r[k], sep)
    ensures Concat(r) == Filter(s, c => !sep(c))
    decreases |s|
  {
    if |s| == 0 then [""]
    else
      var rest := SplitOn(s[1..], sep);
      if sep(s[0]) then [""] + rest
      else
        assert Concat(rest) == rest[0] + Concat(rest[1..]);
        [[s[0]] + rest[0]] + rest[1..]
  }

  /** `s` put back together from the pieces `SplitOn` returns and the separators it cut
      at, in order: `pieces[0] + seps[0] + pieces[1] + ...`. */
  function Interleave(pieces: seq<string>, seps: string): string
    requires |pieces| == |seps| + 1
  {
    if |seps| == 0 then pieces[0]
    else pieces[0] + [seps[0]] + Interleave(pieces[1..], seps[1..])
  }

  /** Gluing the pieces back with the separators they were cut at gives the text. */
  lemma {:induction false} SplitOnRebuild(s: string, sep: char -> bool)
    ensures Interleave(SplitOn(s, sep), Filter(s, sep)) == s
    decreases |s|
  {
    if |s| > 0 {
      SplitOnRebuild(s[1..], sep);
      var rest := SplitOn(s[1..], sep);
      var seps := Filter(s[1..], sep);
      FilterCons(s[0], s[1..], sep);
      assert s == [s[0]] + s[1..];
      if sep(s[0]) {
        assert Filter(s, sep) == [s[0]] + seps;
        SplitOnCut(s, sep);
        InterleaveCut(s[0], rest, seps);
      } else {
        assert Filter(s, sep) == seps;
        SplitOnKeep(s, sep);
        InterleaveShift(s[0], rest, seps);
      }
    }
  }

  lemma InterleaveCut(c: char, pieces: seq<string>, seps: string)
    requires |pieces| == |seps| + 1
    ensures Interleave([""] + pieces, [c] + seps) == [c] + Interleave(pieces, seps)
  {
    assert ([""] + pieces)[0] == "" && ([""] + pieces)[1..] == pieces;
    assert ([c] + seps)[0] == c && ([c] + seps)[1..] == seps;
  }

  lemma {:induction false} InterleaveShift(c: char, pieces: seq<string>, seps: string)
    requires |pieces| == |seps| + 1
    ensures Interleave(Glue(c, pieces), seps) == [c] + Interleave(pieces, seps)
  {
    var moved := Glue(c, pieces);
    assert moved[0] == [c] + pieces[0];
    if |seps| > 0 {
      assert moved[1..] == pieces[1..];
    }
  }

  /** The first piece of `ps` with `c` put in front of it. */
  function Glue(c: char, ps: seq<string>): seq<string>
    requires |ps| > 0
  {
    [[c] + ps[0]] + ps[1..]
  }

  lemma GlueHead(c: char, a: string, rest: seq<string>)
    ensures Glue(c, [a] + rest) == [[c] + a] + rest
  {
    assert ([a] + rest)[0] == a && ([a] + rest)[1..] == rest;
  }

  lemma SplitOnKeep(s: string, sep: char -> bool)
    requires |s| > 0 && !sep(s[0])
    ensures SplitOn(s, sep) == Glue(s[0], SplitOn(s[1..], sep))
  {
  }

  lemma SplitOnCut(s: string, sep: char -> bool)
    requires |s| > 0 && sep(s[0])
    ensures SplitOn(s, sep) == [""] + SplitOn(s[1..], sep)
  {
  }

  /** Text with no separator is one piece. */
  lemma {:induction false} SplitOnNone(a: string, sep: char -> bool)
    requires NoneIn(a, sep)
    ensures SplitOn(a, sep) == [a]
    decreases |a|
  {
    if |a| > 0 {
      NoneInTail(a, sep);
      SplitOnNone(a[1..], sep);
      SplitOnKeep(a, sep);
      GlueHead(a[0], a[1..], []);
      assert [a[1..]] + [] == [a[1..]];
      assert [a[0]] + a[1..] == a;
    }
  }

  lemma NoneInTail(a: string, sep: char -> bool)
    requires |a| > 0 && NoneIn(a, sep)
    ensures !sep(a[0]) && NoneIn(a[1..], sep)
  {
    forall i | 0 <= i < |a| - 1
      ensures !sep(a[1..][i])
    {
      assert a[1..][i] == a[i + 1];
    }
  }

  /** The first piece runs up to the first separator, and splitting carries on after it. */
  lemma {:induction false} SplitOnFirst(a: string, c: char, b: string, sep: char -> bool)
    requires NoneIn(a, sep) && sep(c)
    ensures SplitOn(a + [c] + b, sep) == [a] + SplitOn(b, sep)
    decreases |a|
  {
    var s := a + [c] + b;
    ThreeParts(a, c, b);
    if |a| == 0 {
      SplitOnCut(s, sep);
    } else {
      NoneInTail(a, sep);
      SplitOnFirst(a[1..], c, b, sep);
      SplitOnKeep(s, sep);
      GlueHead(a[0], a[1..], SplitOn(b, sep));
    }
  }

  /** How `a + [c] + b` starts and goes on, and how `a` does. */
  lemma ThreeParts(a: string, c: char, b: string)
    ensures |a| == 0 ==> (a + [c] + b)[0] == c && (a + [c] + b)[1..] == b
    ensures |a| > 0 ==> (a + [c] + b)[0] == a[0] && (a + [c] + b)[1..] == a[1..] + [c] + b
    ensures |a| > 0 ==> [a[0]] + a[1..] == a
  {
  }

  /** `p.strip()` kept as a one-element list when it is not empty. */
  function Keep(t: string): (r: seq<string>)
    ensures NonEmpty(t) <==> r == [t]
    ensures !NonEmpty(t) <==> r == []
  {
    if t == "" then [] else [t]
  }

  /** `[p.strip() for p in pieces]`. */
  function StripEach(pieces: seq<string>): (r: seq<string>)
    ensures |r| == |pieces|
    ensures forall j :: 0 <= j < |r| ==> r[j] == Strip(pieces[j])
  {
    seq(|pieces|, j requires 0 <= j < |pieces| => Strip(pieces[j]))
  }

  lemma StripEachCons(a: string, rest: seq<string>)
    ensures StripEach([a] + rest) == [Strip(a)] + StripEach(rest)
  {
    var l := StripEach([a] + rest);
    var r := [Strip(a)] + StripEach(rest);
    forall j | 0 <= j < |l| ensures l[j] == r[j] {
      if j > 0 {
        assert ([a] + rest)[j] == rest[j - 1];
      }
    }
  }

  /** The non-empty stripped pieces of `s` between separator characters:
      `[p.strip() for p in re.split('[...]', s) if p.strip()]`. */
  function Tokens(s: string, sep: char -> bool): (r: seq<string>)
    ensures forall k :: 0 <= k < |r| ==> r[k] != "" && IsStripped(r[k]) && NoneIn(r[k], sep)
  {
    var pieces := SplitOn(s, sep);
    var stripped := StripEach(pieces);
    var r := Filter(stripped, NonEmpty);
    forall k | 0 <= k < |r| ensures r[k] != "" && IsStripped(r[k]) && NoneIn(r[k], sep) {
      var j :| 0 <= j < |stripped| && stripped[j] == r[k];
      StripNoneIn(pieces[j], sep);
    }
    r
  }

  /** Text with no separator gives its stripped self, unless that is empty. */
  lemma TokensNoSep(a: string, sep: char -> bool)
    requires NoneIn(a, sep)
    ensures Tokens(a, sep) == Keep(Strip(a))
  {
    SplitOnNone(a, sep);
    assert StripEach([a]) == [Strip(a)];
    FilterCons(Strip(a), [], NonEmpty);
  }

  /** The tokens are the first piece, stripped and kept when not empty, then the tokens
      of the text after the first separator. */
  lemma TokensSplit(a: string, c: char, b: string, sep: char -> bool)
    requires NoneIn(a, sep) && sep(c)
    ensures Tokens(a + [c] + b, sep) == Keep(Strip(a)) + Tokens(b, sep)
  {
    SplitOnFirst(a, c, b, sep);
    var rest := SplitOn(b, sep);
    StripEachCons(a, rest);
    FilterCons(Strip(a), StripEach(rest), NonEmpty);
  }

  /** `[l.strip() for l in text.splitlines() if l.strip()]`. Splitting at every line-break
      character separately (so that "\r\n" gives an extra empty piece, and a final line
      break a trailing empty piece) yields the same list, since every line-break character
      is whitespace and empty pieces are dropped. */
  function Lines(text: string): (r: seq<string>)
    ensures forall k :: 0 <= k < |r| ==> r[k] != "" && IsStripped(r[k]) && NoneIn(r[k], IsLineBreak)
  {
    Tokens(text, IsLineBreak)
  }

  /** Text with no line break is one line, kept stripped when not blank. */
  lemma LinesNoBreak(a: string)
    requires NoneIn(a, IsLineBreak)
    ensures Lines(a) == Keep(Strip(a))
  {
    TokensNoSep(a, IsLineBreak);
  }

  /** The lines are the stripped text up to the first line break, kept when not blank,
      then the lines after it: so every non-blank line appears stripped, in order, and
      nothing else does. */
  lemma LinesBreak(a: string, c: char, b: string)
    requires NoneIn(a, IsLineBreak) && IsLineBreak(c)
    ensures Lines(a + [c] + b) == Keep(Strip(a)) + Lines(b)
  {
    TokensSplit(a, c, b, IsLineBreak);
  }

  /** `s.split()` with no argument: the maximal runs of non-whitespace, in order. */
  function SplitWs(s: string): (r: seq<string>)
    ensures forall k :: 0 <= k < |r| ==> r[k] != ""
    ensures forall k :: 0 <= k < |r| ==> NoneIn(r[k], IsSpace)
    decreases |s|
  {
    if |s| == 0 then []
    else if IsSpace(s[0]) then SplitWs(s[1..])
    else
      var n := LeadRun(s, NotSpace);
      [s[..n]] + SplitWs(s[n..])
  }

  /** `s.split()` is not empty, and its last word is the trailing run of non-whitespace
      of `s`. */
  predicate LastWordIsTrail(s: string) {
    |SplitWs(s)| > 0 && SplitWs(s)[|SplitWs(s)| - 1] == s[|s| - TrailRun(s, NotSpace)..]
  }

  /** When `s` does not end in whitespace, the last word `s.split()` returns is the
      maximal whitespace-free suffix of `s`. */
  lemma {:induction false} SplitWsLast(s: string)
    requires |s| > 0 && !IsSpace(s[|s| - 1])
    ensures LastWordIsTrail(s)
    decreases |s|
  {
    if IsSpace(s[0]) {
      assert |s| > 1;
      assert s[1..][|s| - 2] == s[|s| - 1];
      SplitWsLast(s[1..]);
      SplitWsSpace(s, TrailRun(s, NotSpace));
    } else {
      var n := LeadRun(s, NotSpace);
      if n == |s| {
        SplitWsWhole(s);
      } else {
        assert s[n..][|s| - n - 1] == s[|s| - 1];
        SplitWsLast(s[n..]);
        SplitWsWord(s, n, TrailRun(s, NotSpace));
      }
    }
  }

  lemma SplitWsSpace(s: string, t: nat)
    requires |s| > 1 && IsSpace(s[0]) && t == TrailRun(s, NotSpace)
    requires LastWordIsTrail(s[1..])
    ensures LastWordIsTrail(s)
  {
    assert SplitWs(s) == SplitWs(s[1..]);
    TrailRunDrop(s, NotSpace, 1);
    assert s[1..][|s| - 1 - t..] == s[|s| - t..];
  }

  lemma SplitWsWhole(s: string)
    requires |s| > 0 && LeadRun(s, NotSpace) == |s|
    ensures LastWordIsTrail(s)
  {
    TrailRunUnique(s, NotSpace, |s|);
    assert s[..|s|] == s;
    assert SplitWs(s[|s|..]) == [];
    assert SplitWs(s) == [s];
  }

  lemma SplitWsUnfold(s: string, n: nat)
    requires 0 < n < |s| && n == LeadRun(s, NotSpace)
    ensures SplitWs(s) == [s[..n]] + SplitWs(s[n..])
  {
  }

  lemma SplitWsWord(s: string, n: nat, t: nat)
    requires 0 < n < |s| && n == LeadRun(s, NotSpace) && t == TrailRun(s, NotSpace)
    requires LastWordIsTrail(s[n..])
    ensures LastWordIsTrail(s)
  {
    SplitWsUnfold(s, n);
    LastOfCons(s[..n], SplitWs(s[n..]));
    RunsApart(s, n);
    TrailRunDrop(s, NotSpace, n);
    DropDrop(s, n, |s| - t);
  }

  lemma LastOfCons<T>(x: T, rest: seq<T>)
    requires |rest| > 0
    ensures |[x] + rest| == |rest| + 1 && ([x] + rest)[|rest|] == rest[|rest| - 1]
  {
  }

  /** The leading non-whitespace run stops at whitespace, so it does not reach into the
      trailing one. */
  lemma RunsApart(s: string, n: nat)
    requires n < |s| && n == LeadRun(s, NotSpace)
    ensures n <= |s| - TrailRun(s, NotSpace)
  {
    assert !NotSpace(s[n]);
  }

  lemma DropDrop(s: string, n: nat, m: nat)
    requires n <= m <= |s|
    ensures s[n..][m - n..] == s[m..]
  {
  }

  // ---------------------------------------------------------------------------
  // Ordering

  /** Python's `<` on `str`: lexicographic by code point, a proper prefix first. */
  predicate Less(a: string, b: string)
    decreases |a|
  {
    |b| > 0 && (|a| == 0 || a[0] < b[0] || (a[0] == b[0] && Less(a[1..], b[1..])))
  }

  /** Reference definition of the same order: the strings agree up to some index `k`, where
      either `a` ends and `b` goes on, or `a` has the smaller character. */
  ghost predicate LessAt(a: string, b: string, k: nat) {
    && k <= |a| && k <= |b| && a[..k] == b[..k]
    && ((k == |a| && k < |b|) || (k < |a| && k < |b| && a[k] < b[k]))
  }

  lemma {:induction false} LessIffLessAt(a: string, b: string)
    ensures Less(a, b) <==> exists k: nat :: LessAt(a, b, k)
    decreases |a|
  {
    if |a| > 0 && |b| > 0 && a[0] == b[0] {
      LessIffLessAt(a[1..], b[1..]);
      if Less(a, b) {
        var k: nat :| LessAt(a[1..], b[1..], k);
        assert a[..k + 1] == [a[0]] + a[1..][..k];
        assert b[..k + 1] == [b[0]] + b[1..][..k];
        assert LessAt(a, b, k + 1);
      }
      if k: nat :| LessAt(a, b, k) {
        assert a[1..][..k - 1] == a[..k][1..];
        assert b[1..][..k - 1] == b[..k][1..];
        assert LessAt(a[1..], b[1..], k - 1);
      }
    } else if Less(a, b) {
      assert LessAt(a, b, 0);
    }
  }

  lemma {:induction false} LessIrreflexive(a: string)
    ensures !Less(a, a)
    decreases |a|
  {
    if |a| > 0 {
      LessIrreflexive(a[1..]);
    }
  }

  lemma {:induction false} LessTransitive(a: string, b: string, c: string)
    requires Less(a, b) && Less(b, c)
    ensures Less(a, c)
    decreases |a|
  {
    if |a| > 0 && a[0] == b[0] && b[0] == c[0] {
      LessTransitive(a[1..], b[1..], c[1..]);
    }
  }

  lemma {:induction false} LessTotal(a: string, b: string)
    ensures a == b || Less(a, b) || Less(b, a)
    decreases |a|
  {
    if |a| > 0 && |b| > 0 && a[0] == b[0] {
      LessTotal(a[1..], b[1..]);
      if a[1..] == b[1..] {
        assert a == [a[0]] + a[1..] && b == [b[0]] + b[1..];
      }
    }
  }
}
