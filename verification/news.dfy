/** The news-post fact extraction of scripts/generate_achievements.py: `parse_md` (after the
    file is read), the `KW_REGEX` filter, `extract_link` and `extract_info`. Each regular
    expression is modelled as the scanner Python's backtracking engine amounts to for that
    particular pattern; the comments say why the scanner and the pattern agree. */
module News {
  import opened Seqs
  import opened PyStr
  import opened Decimal

  /** `re.search` over a pattern whose matches at index `i` are `at(i)`: the leftmost start
      in `from..n` that matches, with what it matched. */
  function Search<T>(n: nat, at: nat -> Option<T>, from: nat): (r: Option<(nat, T)>)
    ensures r.Some? ==> from <= r.value.0 <= n && at(r.value.0) == Some(r.value.1)
    ensures r.Some? ==> forall k :: from <= k < r.value.0 ==> at(k).None?
    ensures r.None? ==> forall k :: from <= k <= n ==> at(k).None?
    decreases n + 1 - from
  {
    if from > n then None
    else
      match at(from)
      case Some(v) => Some((from, v))
      case None => Search(n, at, from + 1)
  }

  // ---------------------------------------------------------------------------
  // parse_md

  /** Where the frontmatter pattern matched: it starts at `start`, group 1 is
      `[groupStart, groupEnd)` and the match ends at `end`. */
  datatype FmMatch = FmMatch(start: nat, groupStart: nat, groupEnd: nat, end: nat)

  /** Some "\n---" starts at or after `g`, so a lazy group starting at `g` can end. */
  ghost predicate Closes(s: string, g: nat) {
    exists e :: g <= e && OccursAt(s, "\n---", e)
  }

  /** What a match of `^---\s*\n(.*?)\n---` (MULTILINE, DOTALL) looks like, whichever way
      the engine backtracked to it. */
  ghost predicate FmShape(s: string, m: FmMatch) {
    && (m.start == 0 || (0 < m.start <= |s| && s[m.start - 1] == '\n'))
    && OccursAt(s, "---", m.start)
    && m.start + 3 < m.groupStart <= m.groupEnd && m.end == m.groupEnd + 4 <= |s|
    && s[m.groupStart - 1] == '\n'
    && (forall k :: m.start + 3 <= k < m.groupStart - 1 ==> IsSpace(s[k]))
    && OccursAt(s, "\n---", m.groupEnd)
    && (forall k :: m.groupStart <= k < m.groupEnd ==> !OccursAt(s, "\n---", k))
  }

  /** `m` is the match the engine reports rather than `n`: it starts further left, or at
      the same place with at least as long a `\s*` (greedy, so tried first). */
  ghost predicate Preferred(m: FmMatch, n: FmMatch) {
    m.start < n.start || (m.start == n.start && m.groupStart >= n.groupStart)
  }

  /** The greedy `\s*` after `---` covers `[a, w)`; backtracking tries every "\n" in that run
      as the one the pattern needs next, rightmost first (`j - 1` is the candidate), and the
      lazy DOTALL group then ends at the first "\n---" after it. The first candidate whose
      group can end wins: no later one could. */
  function TryNewlines(s: string, p: nat, a: nat, j: nat): (r: Option<FmMatch>)
    requires a <= j <= |s|
    ensures r.Some? ==> r.value.start == p && a < r.value.groupStart <= j && s[r.value.groupStart - 1] == '\n'
    ensures r.Some? ==> r.value.groupStart <= r.value.groupEnd && r.value.end == r.value.groupEnd + 4
    ensures r.Some? ==> OccursAt(s, "\n---", r.value.groupEnd)
    ensures r.Some? ==> forall k :: r.value.groupStart <= k < r.value.groupEnd ==> !OccursAt(s, "\n---", k)
    ensures r.Some? ==> forall x :: r.value.groupStart <= x < j && s[x] == '\n' ==> !Closes(s, x + 1)
    ensures r.None? ==> forall x :: a <= x < j && s[x] == '\n' ==> !Closes(s, x + 1)
    decreases j - a
  {
    if j == a then None
    else if s[j - 1] == '\n' then
      match FindFrom(s, "\n---", j)
      case Some(e) => Some(FmMatch(p, j, e, e + 4))
      case None => TryNewlines(s, p, a, j - 1)
    else TryNewlines(s, p, a, j - 1)
  }

  /** The frontmatter pattern tried at index `p`. */
  function FrontmatterAt(s: string, p: nat): (r: Option<FmMatch>)
    ensures r.Some? ==> r.value.start == p && FmShape(s, r.value)
  {
    if (p == 0 || (0 < p <= |s| && s[p - 1] == '\n')) && OccursAt(s, "---", p) then
      var a := p + 3;
      SpaceRun(s, a);
      TryNewlines(s, p, a, a + LeadRun(s[a..], IsSpace))
    else None
  }

  /** Every match shape at `p` is found there, and the one found is preferred to it; two
      shapes at `p` with the same group start are the same match. */
  lemma FrontmatterAtComplete(s: string, m: FmMatch)
    requires FmShape(s, m)
    ensures FrontmatterAt(s, m.start).Some?
    ensures Preferred(FrontmatterAt(s, m.start).value, m)
    ensures Preferred(m, FrontmatterAt(s, m.start).value) ==> m == FrontmatterAt(s, m.start).value
  {
    var p := m.start;
    var a := p + 3;
    var w := a + LeadRun(s[a..], IsSpace);
    var x := m.groupStart - 1;
    WhitespaceRunCovers(s, a, x);
    assert Closes(s, x + 1) by {
      assert OccursAt(s, "\n---", m.groupEnd);
    }
    FrontmatterAtTries(s, p);
    var r := FrontmatterAt(s, p);
    if r.value.groupStart == m.groupStart {
      SameGroupEnd(s, m, r.value);
    }
  }

  lemma FrontmatterAtTries(s: string, p: nat)
    requires p == 0 || (0 < p <= |s| && s[p - 1] == '\n')
    requires OccursAt(s, "---", p)
    ensures FrontmatterAt(s, p) == TryNewlines(s, p, p + 3, p + 3 + LeadRun(s[p + 3..], IsSpace))
  {
  }

  /** The whitespace run from `a` on, seen from `s`. */
  lemma SpaceRun(s: string, a: nat)
    requires a <= |s|
    ensures forall k :: a <= k < a + LeadRun(s[a..], IsSpace) ==> IsSpace(s[k])
  {
    forall k | a <= k < a + LeadRun(s[a..], IsSpace) ensures IsSpace(s[k]) {
      assert s[k] == s[a..][k - a];
    }
  }

  /** A newline at `x` after spaces from `a` on lies inside the whitespace run from `a`. */
  lemma WhitespaceRunCovers(s: string, a: nat, x: nat)
    requires a <= x < |s| && s[x] == '\n'
    requires forall k :: a <= k < x ==> IsSpace(s[k])
    ensures x < a + LeadRun(s[a..], IsSpace)
  {
    var n := LeadRun(s[a..], IsSpace);
    if a + n < |s| {
      assert s[a..][n] == s[a + n];
    }
  }

  /** The lazy group ends at the first "\n---", so the group start fixes the match. */
  lemma SameGroupEnd(s: string, m: FmMatch, n: FmMatch)
    requires FmShape(s, m) && FmShape(s, n) && m.start == n.start && m.groupStart == n.groupStart
    ensures m == n
  {
  }

  /** `re.search(r'^---\s*\n(.*?)\n---', text, re.S | re.M)`: the match at the first
      position where the pattern matches. */
  function Frontmatter(s: string): (r: Option<FmMatch>)
    ensures r.Some? ==> FmShape(s, r.value) && r == FrontmatterAt(s, r.value.start)
    ensures r.Some? ==> forall q :: 0 <= q < r.value.start ==> FrontmatterAt(s, q).None?
    ensures r.None? ==> forall q :: 0 <= q <= |s| ==> FrontmatterAt(s, q).None?
  {
    var at := (p: nat) => FrontmatterAt(s, p);
    assert forall p: nat :: at(p) == FrontmatterAt(s, p);
    match Search(|s|, at, 0)
    case None => None
    case Some((p, m)) => Some(m)
  }

  /** The frontmatter match is there exactly when some match shape is, and it is the one
      the engine prefers to every other shape. */
  lemma FrontmatterLeftmost(s: string, m: FmMatch)
    requires FmShape(s, m)
    ensures Frontmatter(s).Some?
    ensures Preferred(Frontmatter(s).value, m)
    ensures Preferred(m, Frontmatter(s).value) ==> m == Frontmatter(s).value
  {
    FrontmatterAtComplete(s, m);
    assert m.start <= |s|;
    var r := Frontmatter(s);
    if r.Some? && r.value.start == m.start {
      assert r == FrontmatterAt(s, m.start);
    }
  }

  /** `date:\s*(\d{4})` matching at `i` with the digits at `d`. */
  ghost predicate DateShape(fm: string, i: nat, d: nat) {
    && OccursAt(fm, "date:", i)
    && i + 5 <= d && d + 4 <= |fm|
    && (forall k :: i + 5 <= k < d ==> IsSpace(fm[k]))
    && AllDigits(fm[d..d + 4])
  }

  /** `date:\s*(\d{4})` at index `i`: since a digit is not whitespace, giving back any of the
      greedy `\s*` cannot help, so only the full run is tried. */
  function DateAt(fm: string, i: nat): (r: Option<string>)
    ensures r.Some? ==> |r.value| == 4 && AllDigits(r.value)
    ensures r.Some? ==> exists d: nat :: DateShape(fm, i, d) && r.value == fm[d..d + 4]
  {
    if OccursAt(fm, "date:", i) then
      var d := i + 5 + LeadRun(fm[i + 5..], IsSpace);
      assert forall k :: i + 5 <= k < d ==> IsSpace(fm[k]) by {
        forall k | i + 5 <= k < d ensures IsSpace(fm[k]) {
          assert fm[k] == fm[i + 5..][k - i - 5];
        }
      }
      if d + 4 <= |fm| && AllDigits(fm[d..d + 4]) then
        assert DateShape(fm, i, d);
        Some(fm[d..d + 4])
      else None
    else None
  }

  /** Wherever the date pattern can match, `DateAt` finds it, with those digits. */
  lemma DateAtComplete(fm: string, i: nat, d: nat)
    requires DateShape(fm, i, d)
    ensures DateAt(fm, i) == Some(fm[d..d + 4])
  {
    assert IsAsciiDigit(fm[d..d + 4][0]);
  }

  /** The year: the four digits after the leftmost `date:` that has them, or "". */
  function YearOf(fm: string): (y: string)
    ensures y == "" || (|y| == 4 && AllDigits(y))
    ensures y == "" <==> forall i :: 0 <= i <= |fm| ==> DateAt(fm, i).None?
    ensures y != "" ==> exists i :: 0 <= i <= |fm| && DateAt(fm, i) == Some(y)
                                    && forall k :: 0 <= k < i ==> DateAt(fm, k).None?
  {
    var at := (i: nat) => DateAt(fm, i);
    assert forall k: nat :: at(k) == DateAt(fm, k);
    match Search(|fm|, at, 0)
    case None => ""
    case Some((i, y)) => y
  }

  /** What `parse_md` returns for one post. */
  datatype Post = Post(year: string, first: string)

  /** The text after the frontmatter match, or all of it when there is none. */
  function Body(text: string): string {
    match Frontmatter(text)
    case Some(m) => text[m.end..]
    case None => text
  }

  /** `parse_md` on the decoded text of a post: the year from the frontmatter and the first
      non-empty stripped line of the body. */
  function ParseMd(text: string): (r: Post)
    ensures r.year == "" || (|r.year| == 4 && AllDigits(r.year))
    ensures Frontmatter(text).None? ==> r.year == ""
    ensures Frontmatter(text).Some? ==>
              var m := Frontmatter(text).value; r.year == YearOf(text[m.groupStart..m.groupEnd])
    ensures r.first == "" <==> Lines(Body(text)) == []
    ensures r.first != "" ==> r.first == Lines(Body(text))[0] && IsStripped(r.first)
    ensures NoneIn(r.first, IsLineBreak)
  {
    var year :=
      match Frontmatter(text)
      case Some(m) => YearOf(text[m.groupStart..m.groupEnd])
      case None => "";
    var lines := Lines(Body(text));
    Post(year, if |lines| > 0 then lines[0] else "")
  }

  // ---------------------------------------------------------------------------
  // KW_REGEX

  /** The alternatives of KW_REGEX, in order. */
  const Keywords: seq<string> :=
    ["掲載", "公開されました", "で公開されました", "で掲載されました", "論文が", "で研究発表を行いました"]

  /** `KW_REGEX.search(line)` succeeds: some alternative occurs somewhere in the line. */
  predicate Announces(line: string) {
    exists k | 0 <= k < |Keywords| :: Contains(line, Keywords[k])
  }

  /** The alternatives that are not redundant: "で公開されました" and "で掲載されました" contain
      "公開されました" and "掲載". */
  const CoreKeywords: seq<string> := ["掲載", "公開されました", "論文が", "で研究発表を行いました"]

  lemma {:induction false} ContainsTransitive(s: string, p: string, q: string)
    requires Contains(s, p) && Contains(p, q)
    ensures Contains(s, q)
  {
    var i :| 0 <= i <= |s| - |p| && OccursAt(s, p, i);
    var j :| 0 <= j <= |p| - |q| && OccursAt(p, q, j);
    forall t | 0 <= t < |q| ensures s[i + j + t] == q[t] {
      assert q[t] == p[j + t] == s[i..i + |p|][j + t];
    }
    assert s[i + j..i + j + |q|] == q;
    assert OccursAt(s, q, i + j);
  }

  /** A line qualifies exactly when it contains one of the four core keywords. */
  lemma AnnouncesIffCore(line: string)
    ensures Announces(line) <==> exists k | 0 <= k < |CoreKeywords| :: Contains(line, CoreKeywords[k])
  {
    assert OccursAt(Keywords[2], CoreKeywords[1], 1);
    assert OccursAt(Keywords[3], CoreKeywords[0], 1);
    if Contains(line, Keywords[2]) {
      ContainsTransitive(line, Keywords[2], CoreKeywords[1]);
    }
    if Contains(line, Keywords[3]) {
      ContainsTransitive(line, Keywords[3], CoreKeywords[0]);
    }
    assert Keywords[0] == CoreKeywords[0] && Keywords[1] == CoreKeywords[1];
    assert Keywords[4] == CoreKeywords[2] && Keywords[5] == CoreKeywords[3];
  }

  // ---------------------------------------------------------------------------
  // extract_link

  /** A markdown link `[text](url)` opens at `i`: the text is non-empty and free of `]`, the
      url non-empty and free of `)`; `]` is at `k` and `)` at `m`. */
  predicate LinkShape(s: string, i: nat, k: nat, m: nat) {
    && i + 1 < k && k + 2 < m < |s|
    && s[i] == '[' && s[k] == ']' && s[k + 1] == '(' && s[m] == ')'
    && (forall t :: i < t < k ==> s[t] != ']')
    && (forall t :: k + 1 < t < m ==> s[t] != ')')
  }

  /** LINK_RE `\[[^\]]+\]\(([^)]+)\)` at index `i`. Each greedy class run stops at the first
      character it excludes, which is exactly the one the pattern needs next, so giving
      characters back never helps. */
  function LinkAt(s: string, i: nat): (r: Option<string>)
    ensures r.Some? ==> exists k: nat, m: nat :: LinkShape(s, i, k, m) && r.value == s[k + 2..m]
    ensures (exists k: nat, m: nat :: LinkShape(s, i, k, m)) ==> r.Some?
  {
    if i < |s| && s[i] == '[' then
      match IndexWhere(s, c => c == ']', i + 1)
      case None => None
      case Some(k) =>
        if k > i + 1 && k + 1 < |s| && s[k + 1] == '(' then
          match IndexWhere(s, c => c == ')', k + 2)
          case None => None
          case Some(m) =>
            if m > k + 2 then
              assert LinkShape(s, i, k, m);
              Some(s[k + 2..m])
            else None
        else None
    else None
  }

  /** The leftmost markdown link of `line` opens at `i`. */
  predicate FirstLinkAt(line: string, i: nat) {
    i <= |line| && LinkAt(line, i).Some? && forall k :: 0 <= k < i ==> LinkAt(line, k).None?
  }

  /** `extract_link`: the stripped url of the leftmost markdown link, or "". */
  function ExtractLink(line: string): (r: string)
    ensures (forall i :: 0 <= i <= |line| ==> LinkAt(line, i).None?) ==> r == ""
    ensures forall i: nat :: FirstLinkAt(line, i) ==> r == Strip(LinkAt(line, i).value)
  {
    var at := (i: nat) => LinkAt(line, i);
    assert forall k: nat :: at(k) == LinkAt(line, k);
    match Search(|line|, at, 0)
    case None => ""
    case Some((i0, url)) =>
      forall i: nat | FirstLinkAt(line, i) ensures i == i0 {
      }
      Strip(url)
  }

  // ---------------------------------------------------------------------------
  // extract_info: publisher

  /** A bracket `[...]` with non-empty content free of `]` opens at `i` and closes at `k`. */
  predicate BracketShape(s: string, i: nat, k: nat) {
    && i + 1 < k < |s| && s[i] == '[' && s[k] == ']'
    && (forall t :: i < t < k ==> s[t] != ']')
  }

  /** BRACKET_RE `\[([^\]]+)\]` at index `i`. */
  function BracketAt(s: string, i: nat): (r: Option<string>)
    ensures r.Some? ==> exists k: nat :: BracketShape(s, i, k) && r.value == s[i + 1..k]
    ensures (exists k: nat :: BracketShape(s, i, k)) ==> r.Some?
  {
    if i < |s| && s[i] == '[' then
      match IndexWhere(s, c => c == ']', i + 1)
      case None => None
      case Some(k) =>
        if k > i + 1 then
          assert BracketShape(s, i, k);
          Some(s[i + 1..k])
        else None
    else None
  }

  /** The particles `に` and `で` that end the lazy publisher groups. */
  predicate IsParticle(c: char) { c == 'に' || c == 'で' }

  /** `prefix(.+?)(?:に|で)` matches at `i` with the particle at `e`: the group is the
      shortest non-empty run after `prefix`, without "\n" (`.` excludes it), followed by a
      particle. */
  predicate ParticleShape(s: string, prefix: string, i: nat, e: nat) {
    && OccursAt(s, prefix, i)
    && i + |prefix| < e < |s| && IsParticle(s[e])
    && (forall t :: i + |prefix| <= t < e ==> s[t] != '\n')
    && (forall t :: i + |prefix| < t < e ==> !IsParticle(s[t]))
  }

  /** The lazy group grows one character at a time from `[a, j)`; it stops at the first
      particle and fails at the first "\n", which `.` cannot take. */
  function LazyEnd(s: string, a: nat, j: nat): (r: Option<nat>)
    requires a < j
    ensures r.Some? ==> j <= r.value < |s| && IsParticle(s[r.value])
    ensures r.Some? ==> forall t :: j <= t < r.value ==> s[t] != '\n' && !IsParticle(s[t])
    ensures r.None? ==> forall e :: j <= e < |s| && IsParticle(s[e]) ==>
                          exists t :: j <= t < e && s[t] == '\n'
    decreases |s| - j
  {
    if j >= |s| then None
    else if IsParticle(s[j]) then Some(j)
    else if s[j] == '\n' then None
    else LazyEnd(s, a, j + 1)
  }

  /** `prefix(.+?)(?:に|で)` at index `i`, giving group 1. */
  function ParticleAt(s: string, prefix: string, i: nat): (r: Option<string>)
    ensures r.Some? ==> exists e: nat :: ParticleShape(s, prefix, i, e) && r.value == s[i + |prefix|..e]
    ensures (exists e: nat :: ParticleShape(s, prefix, i, e)) ==> r.Some?
  {
    var a := i + |prefix|;
    if OccursAt(s, prefix, i) && a < |s| && s[a] != '\n' then
      match LazyEnd(s, a, a + 1)
      case None => None
      case Some(e) =>
        assert ParticleShape(s, prefix, i, e);
        Some(s[a..e])
    else None
  }

  /** BRACKET_RE.search: the content of the leftmost bracket. */
  function FirstBracket(line: string): (r: Option<string>)
    ensures r.None? <==> forall i :: 0 <= i <= |line| ==> BracketAt(line, i).None?
    ensures forall i :: 0 <= i <= |line| && BracketAt(line, i).Some?
                        && (forall k :: 0 <= k < i ==> BracketAt(line, k).None?)
                        ==> r == BracketAt(line, i)
  {
    var at := (i: nat) => BracketAt(line, i);
    assert forall k: nat :: at(k) == BracketAt(line, k);
    match Search(|line|, at, 0)
    case None => None
    case Some((_, b)) => Some(b)
  }

  /** `re.search(prefix + r'(.+?)(?:に|で)', line)`: group 1 of the leftmost match. */
  function FirstParticle(line: string, prefix: string): (r: Option<string>)
    ensures r.None? <==> forall i :: 0 <= i <= |line| ==> ParticleAt(line, prefix, i).None?
    ensures forall i :: 0 <= i <= |line| && ParticleAt(line, prefix, i).Some?
                        && (forall k :: 0 <= k < i ==> ParticleAt(line, prefix, k).None?)
                        ==> r == ParticleAt(line, prefix, i)
  {
    var at := (i: nat) => ParticleAt(line, prefix, i);
    assert forall k: nat :: at(k) == ParticleAt(line, prefix, k);
    match Search(|line|, at, 0)
    case None => None
    case Some((_, g)) => Some(g)
  }

  /** The publisher rule of `extract_info`, in priority order: the leftmost bracket content
      as it stands (not stripped); otherwise the stripped group after "論文が"; otherwise
      the stripped group after "が"; otherwise "". */
  function Publisher(line: string): (r: string)
    ensures FirstBracket(line).Some? ==> r == FirstBracket(line).value
    ensures FirstBracket(line).None? && FirstParticle(line, "論文が").Some? ==>
              r == Strip(FirstParticle(line, "論文が").value)
    ensures FirstBracket(line).None? && FirstParticle(line, "論文が").None? && FirstParticle(line, "が").Some? ==>
              r == Strip(FirstParticle(line, "が").value)
    ensures r == "" <==>
              || (FirstBracket(line).Some? && FirstBracket(line).value == "")
              || (FirstBracket(line).None? && FirstParticle(line, "論文が").Some?
                  && Strip(FirstParticle(line, "論文が").value) == "")
              || (FirstBracket(line).None? && FirstParticle(line, "論文が").None?
                  && (FirstParticle(line, "が").None? || Strip(FirstParticle(line, "が").value) == ""))
  {
    match FirstBracket(line)
    case Some(b) => b
    case None =>
      match FirstParticle(line, "論文が")
      case Some(g) => Strip(g)
      case None =>
        match FirstParticle(line, "が")
        case Some(g) => Strip(g)
        case None => ""
  }

  // ---------------------------------------------------------------------------
  // extract_info: authors

  /** The name class `[一-龥ぁ-んァ-ンA-Za-z]` of AUTHOR_RE. */
  predicate IsNameChar(c: char) {
    || ('一' <= c <= '龥') || ('ぁ' <= c <= 'ん') || ('ァ' <= c <= 'ン')
    || ('A' <= c <= 'Z') || ('a' <= c <= 'z')
  }

  /** The separator class `[と、,\s]` of AUTHOR_RE. */
  predicate IsLeadSep(c: char) { c == 'と' || c == '、' || c == ',' || IsSpace(c) }

  predicate IsGradeLetter(c: char) { c == 'M' || c == 'B' || c == 'D' }

  /** The honorific alternatives, in order. */
  const Honorifics: seq<string> := ["君", "さん", "氏", "先生"]

  /** The length of the honorific alternative that matches at `j`, if any. */
  function HonorificAt(s: string, j: nat): (r: Option<nat>)
    ensures r.Some? ==> 0 < r.value && j + r.value <= |s|
  {
    match IndexWhere(Honorifics, h => OccursAt(s, h, j), 0)
    case Some(k) =>
      assert |Honorifics[k]| > 0;
      Some(|Honorifics[k]|)
    case None => None
  }

  /** An honorific occurs at `j` exactly when `HonorificAt` finds one, and it reports that
      honorific's length. */
  lemma HonorificAtMeaning(s: string, j: nat)
    ensures HonorificAt(s, j).Some? ==>
              exists h :: h in Honorifics && OccursAt(s, h, j) && HonorificAt(s, j).value == |h|
    ensures HonorificAt(s, j).None? ==> forall h :: h in Honorifics ==> !OccursAt(s, h, j)
  {
    match IndexWhere(Honorifics, h => OccursAt(s, h, j), 0)
    case Some(k) =>
      assert Honorifics[k] in Honorifics;
    case None =>
  }

  /** A match of AUTHOR_RE: the captured name is `[start, end)`, the match ends at `matchEnd`. */
  datatype NameMatch = NameMatch(start: nat, end: nat, matchEnd: nat)

  /** A name starting at `n` may end at `e`: `[n, e)` is a non-empty run of name characters
      and an honorific starts at `e`. */
  ghost predicate NameEndsAt(s: string, n: nat, e: nat) {
    n < e <= |s| && NameCharsIn(s, n, e) && HonorificAt(s, e).Some?
  }

  /** No name starting at `n` is followed by an honorific: the name group and the honorific
      cannot match from `n` at all. */
  ghost predicate NoNameFrom(s: string, n: nat) {
    forall e :: !NameEndsAt(s, n, e)
  }

  /** `m` is the match the lazy name group gives from `m.start`: the shortest name followed by
      an honorific, and the first honorific alternative that matches after it. */
  ghost predicate ShortestName(s: string, m: NameMatch) {
    && NameEndsAt(s, m.start, m.end)
    && m.matchEnd == m.end + HonorificAt(s, m.end).value
    && forall e :: m.start < e < m.end ==> !NameEndsAt(s, m.start, e)
  }

  /** The lazy `([...]+?)` followed by an honorific, the name starting at `n`: the name end
      `j` moves right one name character at a time until an honorific follows. */
  function LazyName(s: string, n: nat, j: nat): (r: Option<NameMatch>)
    requires n < j <= |s|
    requires NameCharsIn(s, n, j - 1)
    ensures r.Some? ==> r.value.start == n && j <= r.value.end < r.value.matchEnd <= |s|
    ensures r.Some? ==> NameCharsIn(s, n, r.value.end)
    ensures r.Some? ==> HonorificAt(s, r.value.end).Some?
    ensures r.Some? ==> r.value.matchEnd == r.value.end + HonorificAt(s, r.value.end).value
    ensures r.Some? ==> NoHonorificIn(s, j, r.value.end)
    decreases |s| - j
  {
    if !IsNameChar(s[j - 1]) then None
    else
      assert NameCharsIn(s, n, j);
      match HonorificAt(s, j)
      case Some(h) => Some(NameMatch(n, j, j + h))
      case None =>
        if j < |s| then
          NoHonorificExtend(s, j);
          LazyName(s, n, j + 1)
        else None
  }

  /** When the lazy group gives up, no name from `n` ending at or after `j` is followed by an
      honorific. */
  lemma {:induction false} LazyNameNone(s: string, n: nat, j: nat)
    requires n < j <= |s|
    requires NameCharsIn(s, n, j - 1)
    requires LazyName(s, n, j).None?
    ensures forall e :: j <= e ==> !NameEndsAt(s, n, e)
    decreases |s| - j
  {
    if IsNameChar(s[j - 1]) {
      assert NameCharsIn(s, n, j);
      if j < |s| {
        LazyNameNone(s, n, j + 1);
      }
    }
  }

  lemma NoHonorificExtend(s: string, j: nat)
    requires HonorificAt(s, j).None?
    ensures forall e :: NoHonorificIn(s, j + 1, e) ==> NoHonorificIn(s, j, e)
  {
  }

  /** Every character of `s` in `[a, b)` is a name character. */
  predicate NameCharsIn(s: string, a: nat, b: nat)
    requires b <= |s|
  {
    forall t :: a <= t < b ==> IsNameChar(s[t])
  }

  /** No honorific starts in `[a, b)`. */
  predicate NoHonorificIn(s: string, a: nat, b: nat) {
    forall t :: a <= t < b ==> HonorificAt(s, t).None?
  }

  /** The name and honorific tried with the name starting at `n`: the shortest name followed
      by an honorific, or nothing when no name from `n` is. */
  function NameAt(s: string, n: nat): (r: Option<NameMatch>)
    ensures r.Some? ==> r.value.start == n < r.value.end < r.value.matchEnd <= |s|
    ensures r.Some? ==> NameCharsIn(s, n, r.value.end)
  {
    if n < |s| then LazyName(s, n, n + 1) else None
  }

  /** The name tried from `n` is the shortest one followed by an honorific, and there is none
      exactly when no name from `n` is followed by one. */
  lemma NameAtShortest(s: string, n: nat)
    ensures NameAt(s, n).Some? ==> NameAt(s, n).value.start == n && ShortestName(s, NameAt(s, n).value)
    ensures NameAt(s, n).None? <==> NoNameFrom(s, n)
  {
    if n < |s| && NameAt(s, n).None? {
      LazyNameNone(s, n, n + 1);
    }
  }

  /** `[MBD]\d` at `q`: the optional grade can be taken there. */
  predicate GradeAt(s: string, q: nat) {
    q + 1 < |s| && IsGradeLetter(s[q]) && IsAsciiDigit(s[q + 1])
  }

  /** Where the greedy `[MBD]\d+` taken at `q` ends. */
  function GradeEnd(s: string, q: nat): (g: nat)
    requires GradeAt(s, q)
    ensures q + 1 < g <= |s|
  {
    q + 1 + LeadRun(s[q + 1..], IsAsciiDigit)
  }

  /** The greedy digit run is maximal: digits up to the grade end, and no digit at it. */
  lemma GradeEndDigits(s: string, q: nat)
    requires GradeAt(s, q)
    ensures forall p :: q + 1 <= p < GradeEnd(s, q) ==> IsAsciiDigit(s[p])
    ensures GradeEnd(s, q) < |s| ==> !IsAsciiDigit(s[GradeEnd(s, q)])
  {
    var n := LeadRun(s[q + 1..], IsAsciiDigit);
    assert forall p :: q + 1 <= p < |s| ==> s[p] == s[q + 1..][p - (q + 1)];
  }

  /** A name cannot start at a digit. */
  lemma DigitNoName(s: string, p: nat)
    requires p < |s| && IsAsciiDigit(s[p])
    ensures NoNameFrom(s, p)
  {
  }

  /** `(?:[MBD]\d+)?` at `q`, then the name. The greedy digit run is tried whole, then one
      digit shorter at a time, then the grade is skipped. A shorter digit run leaves a digit
      to start the name, and a digit is not a name character, so only the whole run and the
      skipped grade can give a match. */
  function GradeThenName(s: string, q: nat): (r: Option<NameMatch>)
    ensures r.Some? ==> q <= r.value.start < r.value.end < r.value.matchEnd <= |s|
    ensures r.Some? ==> NameCharsIn(s, r.value.start, r.value.end)
  {
    if GradeAt(s, q) then
      var m := NameAt(s, GradeEnd(s, q));
      if m.Some? then m else NameAt(s, q)
    else NameAt(s, q)
  }

  /** The backtracking order of the optional grade: a name after the whole digit run wins;
      otherwise the name from `q` itself is taken; and nothing is found only when no name
      follows the grade letter's digit runs and none starts at `q`. */
  lemma GradeThenNameOrder(s: string, q: nat)
    ensures GradeThenName(s, q).Some? ==> ShortestName(s, GradeThenName(s, q).value)
    ensures GradeThenName(s, q).Some? ==>
              var st := GradeThenName(s, q).value.start;
              st == q || (GradeAt(s, q) && st == GradeEnd(s, q))
    ensures GradeAt(s, q) && !NoNameFrom(s, GradeEnd(s, q)) ==>
              GradeThenName(s, q).Some? && GradeThenName(s, q).value.start == GradeEnd(s, q)
    ensures GradeThenName(s, q).None? ==> NoNameFrom(s, q)
    ensures GradeThenName(s, q).None? && GradeAt(s, q) ==>
              forall p :: q + 1 < p <= GradeEnd(s, q) ==> NoNameFrom(s, p)
  {
    NameAtShortest(s, q);
    if GradeAt(s, q) {
      var g := GradeEnd(s, q);
      NameAtShortest(s, g);
      if NameAt(s, g).None? {
        ShorterGradesNoName(s, q);
      }
    }
  }

  /** When no name follows the whole digit run, none follows a shorter one either: it would
      start at a digit. */
  lemma ShorterGradesNoName(s: string, q: nat)
    requires GradeAt(s, q) && NameAt(s, GradeEnd(s, q)).None?
    ensures forall p :: q + 1 < p <= GradeEnd(s, q) ==> NoNameFrom(s, p)
  {
    var g := GradeEnd(s, q);
    GradeEndDigits(s, q);
    NameAtShortest(s, g);
    forall p | q + 1 < p < g ensures NoNameFrom(s, p) {
      DigitNoName(s, p);
    }
  }

  /** No separator-run end in `[a, b)` lets the grade and the name match. */
  predicate NoGradeNameIn(s: string, a: nat, b: nat) {
    forall t :: a <= t < b ==> GradeThenName(s, t).None?
  }

  /** `(?:[と、,\s]*)?` from `i`: the greedy separator run is tried longest first, ending at
      `q`, and given back one character at a time. (Skipping the optional group is the same
      attempt as the empty run.) The result comes from the latest run end that gives a match. */
  function SepsThenName(s: string, i: nat, q: nat): (r: Option<NameMatch>)
    requires i <= q
    ensures r.Some? ==> i <= r.value.start < r.value.end < r.value.matchEnd <= |s|
    ensures r.Some? ==> NameCharsIn(s, r.value.start, r.value.end)
    decreases q - i
  {
    var m := GradeThenName(s, q);
    if m.Some? then m
    else if q == i then None
    else SepsThenName(s, i, q - 1)
  }

  lemma NoGradeNameExtend(s: string, a: nat, b: nat)
    requires NoGradeNameIn(s, a, b) && GradeThenName(s, b).None?
    ensures NoGradeNameIn(s, a, b + 1)
  {
    forall t | a <= t < b + 1 ensures GradeThenName(s, t).None? {
      if t < b {
        assert a <= t < b;
      }
    }
  }

  /** The separator run is given back from the longest: the match comes from the latest run
      end in `[i, q]` that gives one, and there is none only when no run end does. */
  lemma {:induction false} SepsThenNameLatest(s: string, i: nat, q: nat)
    requires i <= q
    ensures LatestRunEnd(s, i, q)
    decreases q - i
  {
    if GradeThenName(s, q).Some? {
      SepsLatestHere(s, i, q);
    } else if q == i {
      SepsLatestNone(s, i);
    } else {
      SepsThenNameLatest(s, i, q - 1);
      SepsLatestStep(s, i, q);
    }
  }

  /** The separator run ends `[i, q]` are tried from `q` down: a match comes from some run end
      `t` in `[i, q]` with no match from any later one, and no match means no run end in
      `[i, q]` gives one. */
  ghost predicate LatestRunEnd(s: string, i: nat, q: nat)
    requires i <= q
  {
    && (SepsThenName(s, i, q).Some? ==>
          exists t :: i <= t <= q && GradeThenName(s, t) == SepsThenName(s, i, q) && NoGradeNameIn(s, t + 1, q + 1))
    && (SepsThenName(s, i, q).None? ==> NoGradeNameIn(s, i, q + 1))
  }

  /** The longest run end that gives a match is the latest one. */
  lemma SepsLatestHere(s: string, i: nat, q: nat)
    requires i <= q && GradeThenName(s, q).Some?
    ensures LatestRunEnd(s, i, q)
  {
    assert SepsThenName(s, i, q) == GradeThenName(s, q);
    assert NoGradeNameIn(s, q + 1, q + 1);
  }

  /** With the empty run left, nothing matches when that run end does not. */
  lemma SepsLatestNone(s: string, i: nat)
    requires GradeThenName(s, i).None?
    ensures LatestRunEnd(s, i, i)
  {
    assert SepsThenName(s, i, i).None?;
    NoGradeNameExtend(s, i, i);
  }

  /** Giving back one more separator: when the run end `q` gives no match, the facts for
      `[i, q - 1]` carry over to `[i, q]`. */
  lemma SepsLatestStep(s: string, i: nat, q: nat)
    requires i < q && GradeThenName(s, q).None?
    requires LatestRunEnd(s, i, q - 1)
    ensures LatestRunEnd(s, i, q)
  {
    var r := SepsThenName(s, i, q - 1);
    assert SepsThenName(s, i, q) == r;
    if r.Some? {
      var t :| i <= t <= q - 1 && GradeThenName(s, t) == r && NoGradeNameIn(s, t + 1, q);
      NoGradeNameExtend(s, t + 1, q);
    } else {
      NoGradeNameExtend(s, i, q);
    }
  }

  /** `[と、,\s]*` can match `[i, q)`. */
  predicate SepRun(s: string, i: nat, q: nat) {
    i <= q <= |s| && forall t :: i <= t < q ==> IsLeadSep(s[t])
  }

  /** The separator runs from `i` end exactly at `i` up to the end of the longest one. */
  lemma SepRunEnds(s: string, i: nat)
    requires i <= |s|
    ensures forall q: nat :: SepRun(s, i, q) <==> i <= q <= i + LeadRun(s[i..], IsLeadSep)
  {
    var m := i + LeadRun(s[i..], IsLeadSep);
    assert forall t :: i <= t < |s| ==> s[t] == s[i..][t - i];
  }

  /** AUTHOR_RE tried at index `i`: the match from the longest separator run after `i` that
      gives one, or nothing when no separator run does. */
  function AuthorMatchAt(s: string, i: nat): (r: Option<NameMatch>)
    ensures r.Some? ==> i <= r.value.start < r.value.end < r.value.matchEnd <= |s|
    ensures r.Some? ==> NameCharsIn(s, r.value.start, r.value.end)
  {
    if i <= |s| then SepsThenName(s, i, i + LeadRun(s[i..], IsLeadSep)) else None
  }

  /** AUTHOR_RE at `i` takes the longest separator run after `i` that lets the grade and the
      name match, and fails only when no separator run does. */
  lemma AuthorMatchAtLatest(s: string, i: nat)
    ensures AuthorMatchAt(s, i).Some? ==>
              exists q: nat :: SepRun(s, i, q) && GradeThenName(s, q) == AuthorMatchAt(s, i)
                && forall t: nat :: q < t && SepRun(s, i, t) ==> GradeThenName(s, t).None?
    ensures AuthorMatchAt(s, i).None? ==> forall q: nat :: SepRun(s, i, q) ==> GradeThenName(s, q).None?
  {
    if i <= |s| {
      SepRunEnds(s, i);
      SepsThenNameLatest(s, i, i + LeadRun(s[i..], IsLeadSep));
    }
  }

  /** Every character of `s[a..b]` is a name character. */
  predicate AllNameChars(s: string) {
    forall t :: 0 <= t < |s| ==> IsNameChar(s[t])
  }

  lemma SliceNameChars(s: string, a: nat, b: nat)
    requires a <= b <= |s|
    requires NameCharsIn(s, a, b)
    ensures AllNameChars(s[a..b])
  {
    forall t | 0 <= t < b - a ensures IsNameChar(s[a..b][t]) {
      assert s[a..b][t] == s[a + t];
    }
  }

  /** `AUTHOR_RE.search(s, from)`: the leftmost index at or after `from` where the pattern
      matches, with the match. */
  function NextAuthorMatch(s: string, from: nat): (r: Option<(nat, NameMatch)>)
    ensures r.Some? ==> from <= r.value.0 <= |s| && AuthorMatchAt(s, r.value.0) == Some(r.value.1)
    ensures r.Some? ==> NoAuthorMatchIn(s, from, r.value.0)
    ensures r.None? ==> NoAuthorMatchIn(s, from, |s| + 1)
    decreases |s| + 1 - from
  {
    if from > |s| then None
    else
      match AuthorMatchAt(s, from)
      case Some(m) => Some((from, m))
      case None => NoAuthorMatchExtend(s, from); NextAuthorMatch(s, from + 1)
  }

  /** AUTHOR_RE matches at no index in `[a, b)`. */
  predicate NoAuthorMatchIn(s: string, a: nat, b: nat) {
    forall k :: a <= k < b ==> AuthorMatchAt(s, k).None?
  }

  lemma NoAuthorMatchExtend(s: string, a: nat)
    requires AuthorMatchAt(s, a).None?
    ensures forall b :: NoAuthorMatchIn(s, a + 1, b) ==> NoAuthorMatchIn(s, a, b)
  {
  }

  /** `[m.group(1).strip() for m in AUTHOR_RE.finditer(line)]` from `pos` on: each search
      resumes where the previous match ended. The names hold no whitespace, so `strip()`
      leaves them as they are. */
  function RawAuthors(s: string, pos: nat): (r: seq<string>)
    requires pos <= |s|
    ensures forall k :: 0 <= k < |r| ==> r[k] != "" && AllNameChars(r[k])
    ensures r == [] <==> NoAuthorMatchIn(s, pos, |s| + 1)
    decreases |s| - pos
  {
    var next := NextAuthorMatch(s, pos);
    if next.None? then []
    else
      var m := next.value.1;
      var name := s[m.start..m.end];
      var rest := RawAuthors(s, m.matchEnd);
      SliceNameChars(s, m.start, m.end);
      NamesCons(name, rest);
      [name] + rest
  }

  /** A non-empty name of name characters put in front of such names. */
  lemma NamesCons(name: string, rest: seq<string>)
    requires name != "" && AllNameChars(name)
    requires forall k :: 0 <= k < |rest| ==> rest[k] != "" && AllNameChars(rest[k])
    ensures forall k :: 0 <= k < |[name] + rest| ==> ([name] + rest)[k] != "" && AllNameChars(([name] + rest)[k])
  {
    forall k | 0 <= k < |[name] + rest|
      ensures ([name] + rest)[k] != "" && AllNameChars(([name] + rest)[k])
    {
      if k > 0 {
        assert ([name] + rest)[k] == rest[k - 1];
      }
    }
  }

  /** The characters `lstrip('と、, ')` removes. */
  predicate IsNameLead(c: char) { c == 'と' || c == '、' || c == ',' || c == ' ' }

  /** `^[MBDF]\d`: the name starts with a grade letter followed by a digit. */
  predicate HasGrade(name: string) {
    |name| >= 2 && (IsGradeLetter(name[0]) || name[0] == 'F') && IsAsciiDigit(name[1])
  }

  /** `re.sub(r'^[MBDF]\d+', '', name)`: when the name starts with a grade, the letter and
      the whole run of digits after it go, so what is left does not start with a digit;
      otherwise the name is kept as it is. */
  function DropGrade(name: string): (r: string)
    ensures |r| <= |name| && r == name[|name| - |r|..]
    ensures !HasGrade(name) ==> r == name
    ensures HasGrade(name) ==>
              && |r| <= |name| - 2
              && (forall t :: 1 <= t < |name| - |r| ==> IsAsciiDigit(name[t]))
              && (r == "" || !IsAsciiDigit(r[0]))
  {
    if HasGrade(name) then
      var n := LeadRun(name[1..], IsAsciiDigit);
      assert n >= 1;
      assert forall t :: 1 <= t < 1 + n ==> name[t] == name[1..][t - 1];
      name[1 + n..]
    else name
  }

  /** `r` occurs in `s` at index `a`. */
  ghost predicate InfixAt(s: string, r: string, a: int) {
    0 <= a <= |s| - |r| && r == s[a..a + |r|]
  }

  /** `r` is what `lstrip('と、, ')` and then `strip()` leave of `g`: the characters before
      `a` are the run of `と`, `、`, `,` and spaces the first removes, those from `a` up to
      `i` and those after `r` are the whitespace the second removes, and `r` neither starts
      nor ends with whitespace. */
  ghost predicate LeadStrippedFrom(g: string, r: string, a: int, i: int) {
    && 0 <= a <= i <= |g| - |r| && r == g[i..i + |r|]
    && (forall k :: 0 <= k < a ==> IsNameLead(g[k])) && (a < |g| ==> !IsNameLead(g[a]))
    && (forall k :: a <= k < i ==> IsSpace(g[k]))
    && (forall k :: i + |r| <= k < |g| ==> IsSpace(g[k]))
    && IsStripped(r)
  }

  /** The clean-up of one raw name: the grade is dropped, then `lstrip('と、, ')`, then
      `strip()`. The result is a piece of the name; on a name without whitespace it starts
      with none of `と`, `、`, `,` or a space. */
  function CleanName(name: string): (r: string)
    ensures exists a, i :: LeadStrippedFrom(DropGrade(name), r, a, i)
    ensures exists a :: InfixAt(name, r, a)
    ensures (forall t :: 0 <= t < |name| ==> !IsSpace(name[t])) ==> r == "" || !IsNameLead(r[0])
  {
    var r := Strip(LStrip(DropGrade(name), IsNameLead));
    CleanNameSteps(DropGrade(name));
    CleanNameInfix(name);
    CleanNameLead(name);
    r
  }

  lemma CleanNameSteps(g: string)
    ensures exists a, i :: LeadStrippedFrom(g, Strip(LStrip(g, IsNameLead)), a, i)
  {
    var a := LeadRun(g, IsNameLead);
    var lead := g[a..];
    assert lead == LStrip(g, IsNameLead);
    var r := Strip(lead);
    var i :| StrippedFrom(lead, r, i, IsSpace);
    StrippedFromSuffix(g, a, r, i, IsSpace);
    LeadStripped(g, r, a, i);
  }

  lemma LeadStripped(g: string, r: string, a: nat, i: int)
    requires a == LeadRun(g, IsNameLead) && StrippedFrom(g[a..], r, i, IsSpace)
    requires r == g[a + i..a + i + |r|] && IsStripped(r)
    requires forall k :: a <= k < a + i ==> IsSpace(g[k])
    requires forall k :: a + i + |r| <= k < |g| ==> IsSpace(g[k])
    ensures LeadStrippedFrom(g, r, a, a + i)
  {
  }

  lemma CleanNameInfix(name: string)
    ensures exists a :: InfixAt(name, Strip(LStrip(DropGrade(name), IsNameLead)), a)
  {
    var lead := LStrip(DropGrade(name), IsNameLead);
    LeadIsSuffix(name, lead);
    StripIsInfix(name, lead);
  }

  lemma CleanNameLead(name: string)
    ensures (forall t :: 0 <= t < |name| ==> !IsSpace(name[t])) ==>
              var r := Strip(LStrip(DropGrade(name), IsNameLead)); r == "" || !IsNameLead(r[0])
  {
    var lead := LStrip(DropGrade(name), IsNameLead);
    LeadIsSuffix(name, lead);
    StripOfSpaceless(name, lead);
  }

  lemma LeadIsSuffix(name: string, lead: string)
    requires lead == LStrip(DropGrade(name), IsNameLead)
    ensures |lead| <= |name| && lead == name[|name| - |lead|..]
    ensures lead == "" || !IsNameLead(lead[0])
  {
    var g := DropGrade(name);
    assert lead == g[LeadRun(g, IsNameLead)..];
  }

  lemma StripIsInfix(name: string, lead: string)
    requires |lead| <= |name| && lead == name[|name| - |lead|..]
    ensures exists a :: InfixAt(name, Strip(lead), a)
  {
    var r := Strip(lead);
    var i :| StrippedFrom(lead, r, i, IsSpace);
    var l := |name| - |lead|;
    assert r == name[l + i..l + i + |r|];
    assert InfixAt(name, r, l + i);
  }

  lemma StripOfSpaceless(name: string, lead: string)
    requires |lead| <= |name| && lead == name[|name| - |lead|..]
    requires lead == "" || !IsNameLead(lead[0])
    ensures (forall t :: 0 <= t < |name| ==> !IsSpace(name[t])) ==>
              Strip(lead) == "" || !IsNameLead(Strip(lead)[0])
  {
    if forall t :: 0 <= t < |name| ==> !IsSpace(name[t]) {
      if |lead| > 0 {
        var l := |name| - |lead|;
        assert lead[0] == name[l] && lead[|lead| - 1] == name[|name| - 1];
      }
      StripStripped(lead);
    }
  }

  /** Every raw name cleaned. */
  function CleanAll(raw: seq<string>): (r: seq<string>)
    ensures |r| == |raw|
    ensures forall k :: 0 <= k < |r| ==> r[k] == CleanName(raw[k])
  {
    seq(|raw|, k requires 0 <= k < |raw| => CleanName(raw[k]))
  }

  /** The names the author loop keeps: each raw name cleaned, empty ones dropped, first
      occurrences kept in order. */
  function ExtractAuthors(line: string): (r: seq<string>)
    ensures r == FirstOccurrences(Filter(CleanAll(RawAuthors(line, 0)), NonEmpty))
    ensures Distinct(r)
    ensures forall k :: 0 <= k < |r| ==> r[k] != "" && !IsNameLead(r[k][0]) && AllNameChars(r[k])
  {
    var raw := RawAuthors(line, 0);
    var kept := Filter(CleanAll(raw), NonEmpty);
    KeptNames(raw, kept);
    Dedupe(kept)
  }

  /** Cleaning a captured name leaves name characters, and no leading separator. */
  lemma CleanCapturedName(name: string)
    requires AllNameChars(name)
    ensures CleanName(name) == "" || !IsNameLead(CleanName(name)[0])
    ensures AllNameChars(CleanName(name))
  {
    var r := CleanName(name);
    forall t | 0 <= t < |name| ensures !IsSpace(name[t]) {
      assert IsNameChar(name[t]);
    }
    var a :| InfixAt(name, r, a);
    InfixNameChars(name, r, a);
  }

  lemma InfixNameChars(name: string, r: string, a: int)
    requires AllNameChars(name) && InfixAt(name, r, a)
    ensures AllNameChars(r)
  {
    forall t | 0 <= t < |r| ensures IsNameChar(r[t]) {
      assert r[t] == name[a + t];
    }
  }

  lemma KeptNames(raw: seq<string>, kept: seq<string>)
    requires forall k :: 0 <= k < |raw| ==> AllNameChars(raw[k])
    requires kept == Filter(CleanAll(raw), NonEmpty)
    ensures forall k :: 0 <= k < |kept| ==> kept[k] != "" && !IsNameLead(kept[k][0]) && AllNameChars(kept[k])
  {
    var cleaned := CleanAll(raw);
    forall k | 0 <= k < |kept|
      ensures kept[k] != "" && !IsNameLead(kept[k][0]) && AllNameChars(kept[k])
    {
      assert kept[k] in cleaned && NonEmpty(kept[k]);
      var j :| 0 <= j < |cleaned| && cleaned[j] == kept[k];
      CleanCapturedName(raw[j]);
    }
  }

  /** `extract_info`: the authors of a first line, cleaned, without empty names and
      deduplicated keeping first occurrences; and its publisher, taken from the first
      bracket pair, else after the first `論文が`, else after the first `が`, else "". */
  function ExtractInfo(line: string): (r: (seq<string>, string))
    ensures r.0 == FirstOccurrences(Filter(CleanAll(RawAuthors(line, 0)), NonEmpty))
    ensures Distinct(r.0)
    ensures forall k :: 0 <= k < |r.0| ==> r.0[k] != "" && !IsNameLead(r.0[k][0]) && AllNameChars(r.0[k])
    ensures FirstBracket(line).Some? ==> r.1 == FirstBracket(line).value
    ensures FirstBracket(line).None? && FirstParticle(line, "論文が").Some? ==>
              r.1 == Strip(FirstParticle(line, "論文が").value)
    ensures FirstBracket(line).None? && FirstParticle(line, "論文が").None? && FirstParticle(line, "が").Some? ==>
              r.1 == Strip(FirstParticle(line, "が").value)
    ensures FirstBracket(line).None? && FirstParticle(line, "論文が").None? && FirstParticle(line, "が").None? ==>
              r.1 == ""
  {
    (ExtractAuthors(line), Publisher(line))
  }
}
