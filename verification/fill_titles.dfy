/** The page-metadata enricher (scripts/fill_titles.py). The fetched page is abstract: what
    the HTML parser would expose of it is given as a `Page` value, and each HTTP GET is a
    function parameter returning `None` when the request raises. */
module FillTitles {
  import opened Seqs
  import opened PyStr
  import opened Achievements

  /** A `<meta>` tag, as its attribute map. */
  datatype Meta = Meta(attrs: map<string, string>)

  /** What the parser exposes of one fetched page: the `<meta>` tags in document order; the
      `.string` of the first `<title>` (None when there is no title element or it is not a
      single string); and, in order, the text of every element whose class and then every
      element whose id matches "author" case-insensitively, as
      `get_text(separator=' ', strip=True)` returns it. */
  datatype Page = Page(metas: seq<Meta>, docTitle: Option<string>, authorTexts: seq<string>)

  /** The `{'title': ..., 'authors': ...}` dictionary returned for one link. */
  datatype Scraped = Scraped(title: string, authors: seq<string>)

  /** META_TITLE_NAMES, in priority order. */
  const TitleNames: seq<(string, string)> :=
    [("name", "citation_title"), ("property", "og:title"), ("name", "dc.title"), ("name", "title")]

  /** META_AUTHOR_NAMES, in priority order. */
  const AuthorNames: seq<(string, string)> :=
    [("name", "citation_author"), ("name", "author"), ("name", "dc.creator")]

  // ---------------------------------------------------------------------------
  // family_from_full

  /** The character class `[一-龥]`, U+4E00 to U+9FA5. */
  predicate IsCjk(c: char) { '一' <= c <= '龥' }

  /** `w` is the last whitespace-separated word of `name`: a non-empty suffix free of
      whitespace, preceded by whitespace. */
  predicate IsLastWord(name: string, w: string) {
    && 0 < |w| < |name|
    && w == name[|name| - |w|..]
    && NoneIn(w, IsSpace)
    && IsSpace(name[|name| - |w| - 1])
  }

  /** `w` is the maximal run of `[一-龥]` characters ending `name`. */
  predicate IsTrailingCjkRun(name: string, w: string) {
    && 0 < |w| <= |name|
    && w == name[|name| - |w|..]
    && (forall i :: 0 <= i < |w| ==> IsCjk(w[i]))
    && (|w| < |name| ==> !IsCjk(name[|name| - |w| - 1]))
  }

  /** What the primary author kept for the stripped full name `name` is: "" only for the
      empty name; otherwise a suffix of it, namely the last word when it has a space, the
      whole name when it is at most 4 characters long or does not end in `[一-龥]`, and the
      maximal trailing run of `[一-龥]` otherwise. */
  predicate FamilyOf(name: string, r: string) {
    && (r == "" <==> name == "")
    && |r| <= |name| && r == name[|name| - |r|..]
    && (' ' in name ==> IsLastWord(name, r))
    && (' ' !in name && |name| <= 4 ==> r == name)
    && (' ' !in name && |name| > 4 && IsCjk(name[|name| - 1]) ==> IsTrailingCjkRun(name, r))
    && (' ' !in name && |name| > 4 && !IsCjk(name[|name| - 1]) ==> r == name)
  }

  /** family_from_full: reduce a scraped full name to the form kept as primary author. */
  function FamilyFromFull(full: string): (r: string)
    ensures FamilyOf(Strip(full), r)
  {
    FamilyOfStripped(Strip(full))
  }

  /** family_from_full after its `strip()`. */
  function FamilyOfStripped(name: string): (r: string)
    requires IsStripped(name)
    ensures FamilyOf(name, r)
  {
    if name == "" then name
    else if ' ' in name then
      // `name.split()[-1]`
      LastWordOfStripped(name);
      var parts := SplitWs(name);
      parts[|parts| - 1]
    else if |name| <= 4 then name
    else
      // `re.search(r'[一-龥]+$', name)`: the leftmost match reaching the end starts where
      // the maximal trailing run of CJK characters starts
      var t := TrailRun(name, IsCjk);
      TrailingRunIsCjkRun(name);
      if t > 0 then name[|name| - t..] else name
  }

  /** In a stripped name with a space inside, `split()` ends with the last word. */
  lemma LastWordOfStripped(name: string)
    requires name != "" && IsStripped(name) && ' ' in name
    ensures |SplitWs(name)| > 0 && IsLastWord(name, SplitWs(name)[|SplitWs(name)| - 1])
  {
    var t := TrailRun(name, NotSpace);
    assert |SplitWs(name)| > 0 && SplitWs(name)[|SplitWs(name)| - 1] == name[|name| - t..] by {
      SplitWsLast(name);
    }
    assert 0 < t < |name| && IsSpace(name[|name| - t - 1]) && NoneIn(name[|name| - t..], IsSpace) by {
      TrailingWordShape(name);
    }
    TrailingIsLastWord(name, t);
  }

  lemma TrailingIsLastWord(name: string, t: nat)
    requires 0 < t < |name| && IsSpace(name[|name| - t - 1]) && NoneIn(name[|name| - t..], IsSpace)
    ensures IsLastWord(name, name[|name| - t..])
  {
    var w := name[|name| - t..];
    assert |w| == t && w == name[|name| - |w|..];
  }

  /** In a name with a space, the whitespace-free run at the end is preceded by whitespace
      and holds none. */
  lemma TrailingWordShape(name: string)
    requires ' ' in name
    ensures var t := TrailRun(name, NotSpace);
      t < |name| && IsSpace(name[|name| - t - 1]) && NoneIn(name[|name| - t..], IsSpace)
  {
    var t := TrailRun(name, NotSpace);
    var i :| 0 <= i < |name| && name[i] == ' ';
    assert !NotSpace(name[i]);
    var w := name[|name| - t..];
    forall k | 0 <= k < |w| ensures !IsSpace(w[k]) {
      assert w[k] == name[|name| - t + k];
    }
  }

  lemma TrailingRunIsCjkRun(name: string)
    ensures TrailRun(name, IsCjk) > 0 ==>
              IsTrailingCjkRun(name, name[|name| - TrailRun(name, IsCjk)..])
  {
    var t := TrailRun(name, IsCjk);
    if t > 0 {
      var w := name[|name| - t..];
      assert |w| == t;
      forall i | 0 <= i < |w| ensures IsCjk(w[i]) {
        assert w[i] == name[|name| - t + i];
      }
      assert t < |name| ==> !IsCjk(name[|name| - t - 1]);
      assert IsTrailingCjkRun(name, w);
    }
  }

  // ---------------------------------------------------------------------------
  // Metadata selection in get_url_title_authors

  /** The tag carries attribute `attr` with exactly the value `value`. */
  predicate HasAttr(m: Meta, attr: string, value: string) {
    attr in m.attrs && m.attrs[attr] == value
  }

  /** `tag.get('content')`, with a missing attribute read as the (equally falsy) "". */
  function Content(m: Meta): string {
    if "content" in m.attrs then m.attrs["content"] else ""
  }

  /** `metas[k]` is the first tag carrying `attr=value`. */
  predicate FirstTagFor(metas: seq<Meta>, name: (string, string), k: nat) {
    k < |metas| && HasAttr(metas[k], name.0, name.1) && forall i :: 0 <= i < k ==> !HasAttr(metas[i], name.0, name.1)
  }

  /** The content of the first tag `soup.find('meta', attrs={attr: value})` returns, when
      that tag exists and its content is non-empty. */
  function Offered(metas: seq<Meta>, name: (string, string)): (r: Option<string>)
    ensures r.Some? ==> r.value != ""
    ensures (forall k :: 0 <= k < |metas| ==> !HasAttr(metas[k], name.0, name.1)) ==> r.None?
    ensures forall k: nat :: FirstTagFor(metas, name, k) ==>
              r == if Content(metas[k]) != "" then Some(Content(metas[k])) else None
  {
    match IndexWhere(metas, m => HasAttr(m, name.0, name.1), 0)
    case None => None
    case Some(k0) =>
      forall k: nat | FirstTagFor(metas, name, k) ensures k == k0 {
      }
      if Content(metas[k0]) != "" then Some(Content(metas[k0])) else None
  }

  /** `names[j]` is the first name that offers a content. */
  predicate FirstOffering(metas: seq<Meta>, names: seq<(string, string)>, j: nat) {
    j < |names| && Offered(metas, names[j]).Some? && forall i :: 0 <= i < j ==> Offered(metas, names[i]).None?
  }

  /** The title loop: the stripped content offered by the first name that offers one; a
      name whose first matching tag is missing or empty passes to the next name. */
  function MetaTitle(metas: seq<Meta>, names: seq<(string, string)>): (r: string)
    ensures IsStripped(r)
    ensures (forall j :: 0 <= j < |names| ==> Offered(metas, names[j]).None?) ==> r == ""
  {
    if |names| == 0 then ""
    else
      var o := Offered(metas, names[0]);
      if o.Some? then Strip(o.value)
      else
        assert forall j :: 1 <= j < |names| ==> names[j] == names[1..][j - 1];
        MetaTitle(metas, names[1..])
  }

  /** The title is the stripped content offered by the first name that offers one. */
  lemma {:induction false} MetaTitleFirst(metas: seq<Meta>, names: seq<(string, string)>, j: nat)
    requires FirstOffering(metas, names, j)
    ensures MetaTitle(metas, names) == Strip(Offered(metas, names[j]).value)
  {
    if j > 0 {
      FirstOfferingTail(metas, names, j);
      assert MetaTitle(metas, names) == MetaTitle(metas, names[1..]);
      MetaTitleFirst(metas, names[1..], j - 1);
    }
  }

  /** When the first name offers nothing, the first name that offers is the first of the
      rest that offers. */
  lemma FirstOfferingTail(metas: seq<Meta>, names: seq<(string, string)>, j: nat)
    requires FirstOffering(metas, names, j) && Offered(metas, names[0]).None?
    ensures j > 0 && FirstOffering(metas, names[1..], j - 1) && names[1..][j - 1] == names[j]
  {
    assert forall i :: 0 <= i < j - 1 ==> names[1..][i] == names[i + 1];
  }

  /** The page title: the metadata title, or, only when that is "", the stripped document
      `<title>`. */
  function PageTitle(page: Page): (r: string)
    ensures IsStripped(r)
    ensures MetaTitle(page.metas, TitleNames) != "" ==> r == MetaTitle(page.metas, TitleNames)
    ensures MetaTitle(page.metas, TitleNames) == "" && page.docTitle.None? ==> r == ""
    ensures MetaTitle(page.metas, TitleNames) == "" && page.docTitle.Some? ==> r == Strip(page.docTitle.value)
  {
    var t := MetaTitle(page.metas, TitleNames);
    if t != "" then t
    else
      match page.docTitle
      case Some(d) => Strip(d)
      case None => ""
  }

  /** The tag matches `name` and carries a non-empty content. */
  predicate Offers(m: Meta, name: (string, string)) {
    HasAttr(m, name.0, name.1) && Content(m) != ""
  }

  /** The stripped content of a tag. */
  function StrippedContent(m: Meta): string { Strip(Content(m)) }

  /** `[t.get('content').strip() for t in soup.find_all('meta', attrs={attr: value}) if
      t.get('content')]`, in document order. */
  function ContentsOf(metas: seq<Meta>, name: (string, string)): (r: seq<string>)
    ensures |r| <= |metas|
  {
    if |metas| == 0 then []
    else (if Offers(metas[0], name) then [StrippedContent(metas[0])] else []) + ContentsOf(metas[1..], name)
  }

  /** The contents are the stripped contents of exactly the tags that offer one, in
      document order. */
  lemma {:induction false} ContentsOfInOrder(metas: seq<Meta>, name: (string, string))
    ensures ContentsOf(metas, name) == Map(Filter(metas, m => Offers(m, name)), StrippedContent)
  {
    if |metas| > 0 {
      ContentsOfInOrder(metas[1..], name);
      FilterCons(metas[0], metas[1..], m => Offers(m, name));
      assert metas == [metas[0]] + metas[1..];
      if Offers(metas[0], name) {
        MapCons(metas[0], Filter(metas[1..], m => Offers(m, name)), StrippedContent);
      }
    }
  }

  /** So the contents are empty exactly when no tag with that name has non-empty content,
      every such tag contributes its stripped content, and nothing else is contributed. */
  lemma ContentsOfMeaning(metas: seq<Meta>, name: (string, string))
    ensures ContentsOf(metas, name) == [] <==> forall k :: 0 <= k < |metas| ==> !Offers(metas[k], name)
    ensures forall k :: 0 <= k < |metas| && Offers(metas[k], name) ==> StrippedContent(metas[k]) in ContentsOf(metas, name)
    ensures forall x :: x in ContentsOf(metas, name) ==>
              exists k :: 0 <= k < |metas| && Offers(metas[k], name) && x == StrippedContent(metas[k])
  {
    ContentsOfPresent(metas, name);
    forall x | x in ContentsOf(metas, name)
      ensures exists k :: 0 <= k < |metas| && Offers(metas[k], name) && x == StrippedContent(metas[k])
    {
      ContentsOfOnly(metas, name, x);
    }
  }

  lemma {:induction false} ContentsOfPresent(metas: seq<Meta>, name: (string, string))
    ensures ContentsOf(metas, name) == [] <==> forall k :: 0 <= k < |metas| ==> !Offers(metas[k], name)
    ensures forall k :: 0 <= k < |metas| && Offers(metas[k], name) ==> StrippedContent(metas[k]) in ContentsOf(metas, name)
  {
    if |metas| > 0 {
      ContentsOfPresent(metas[1..], name);
      assert forall k :: 1 <= k < |metas| ==> metas[k] == metas[1..][k - 1];
    }
  }

  lemma ContentsOfOnly(metas: seq<Meta>, name: (string, string), x: string)
    requires x in ContentsOf(metas, name)
    ensures exists k :: 0 <= k < |metas| && Offers(metas[k], name) && x == StrippedContent(metas[k])
  {
    ContentsOfInOrder(metas, name);
    var kept := Filter(metas, m => Offers(m, name));
    var r := ContentsOf(metas, name);
    var i :| 0 <= i < |r| && r[i] == x;
    assert kept[i] in metas && Offers(kept[i], name);
    var k :| 0 <= k < |metas| && metas[k] == kept[i];
    assert x == StrippedContent(metas[k]);
  }

  /** The author loop over the metadata names: every content of the first name that offers
      any; later names are not consulted. */
  function MetaAuthors(metas: seq<Meta>, names: seq<(string, string)>): (r: seq<string>)
    ensures (forall j :: 0 <= j < |names| ==> ContentsOf(metas, names[j]) == []) ==> r == []
  {
    if |names| == 0 then []
    else
      var found := ContentsOf(metas, names[0]);
      if found != [] then found
      else
        assert forall j :: 1 <= j < |names| ==> names[j] == names[1..][j - 1];
        MetaAuthors(metas, names[1..])
  }

  /** `names[j]` is the first name with at least one matching tag of non-empty content. */
  predicate FirstContents(metas: seq<Meta>, names: seq<(string, string)>, j: nat) {
    j < |names| && ContentsOf(metas, names[j]) != [] && forall i :: 0 <= i < j ==> ContentsOf(metas, names[i]) == []
  }

  lemma FirstContentsTail(metas: seq<Meta>, names: seq<(string, string)>, j: nat)
    requires FirstContents(metas, names, j) && ContentsOf(metas, names[0]) == []
    ensures j > 0 && FirstContents(metas, names[1..], j - 1) && names[1..][j - 1] == names[j]
  {
    assert forall i :: 0 <= i < j - 1 ==> names[1..][i] == names[i + 1];
  }

  /** The authors are every content of the first name that offers any. */
  lemma {:induction false} MetaAuthorsFirst(metas: seq<Meta>, names: seq<(string, string)>, j: nat)
    requires FirstContents(metas, names, j)
    ensures MetaAuthors(metas, names) == ContentsOf(metas, names[j])
  {
    if j > 0 {
      FirstContentsTail(metas, names, j);
      MetaAuthorsSkip(metas, names);
      MetaAuthorsFirst(metas, names[1..], j - 1);
    }
  }

  lemma MetaAuthorsSkip(metas: seq<Meta>, names: seq<(string, string)>)
    requires |names| > 0 && ContentsOf(metas, names[0]) == []
    ensures MetaAuthors(metas, names) == MetaAuthors(metas, names[1..])
  {
  }

  /** The separator class `[、,;]` of the author fallback. */
  predicate IsAuthorSep(c: char) { c == '、' || c == ',' || c == ';' }

  /** The pieces each candidate text contributes, texts in order. */
  function AuthorPieces(texts: seq<string>): (r: seq<string>)
    ensures |texts| == 0 ==> r == []
    ensures forall k :: 0 <= k < |r| ==> r[k] != "" && IsStripped(r[k]) && NoneIn(r[k], IsAuthorSep)
  {
    var each := Map(texts, AuthorTokens);
    var r := Concat(each);
    forall k | 0 <= k < |r|
      ensures r[k] != "" && IsStripped(r[k]) && NoneIn(r[k], IsAuthorSep)
    {
      ConcatMembership(each, r[k]);
    }
    r
  }

  /** The pieces one candidate text contributes. */
  function AuthorTokens(t: string): seq<string> { Tokens(t, IsAuthorSep) }

  /** The pieces of a list of texts are the tokens of the first text followed by the
      pieces of the rest. */
  lemma AuthorPiecesCons(t: string, texts: seq<string>)
    ensures AuthorPieces([t] + texts) == Tokens(t, IsAuthorSep) + AuthorPieces(texts)
  {
    MapCons(t, texts, AuthorTokens);
    ConcatCons(Tokens(t, IsAuthorSep), Map(texts, AuthorTokens));
  }

  /** The fallback when no metadata names an author: split each candidate text on `、`, `,`
      and `;`, strip the pieces, drop empty ones, then keep first occurrences. */
  function FallbackAuthors(texts: seq<string>): (r: seq<string>)
    ensures r == FirstOccurrences(AuthorPieces(texts))
    ensures Distinct(r)
    ensures forall k :: 0 <= k < |r| ==> r[k] != "" && IsStripped(r[k]) && NoneIn(r[k], IsAuthorSep)
    ensures forall x :: x in AuthorPieces(texts) ==> x in r
  {
    var pieces := AuthorPieces(texts);
    var r := Dedupe(pieces);
    assert forall k :: 0 <= k < |r| ==> r[k] in pieces;
    r
  }

  /** get_url_title_authors over the parsed page, `None` standing for a request that raised
      or returned an error status. */
  function GetUrlTitleAuthors(fetched: Option<Page>): (r: Scraped)
    ensures fetched.None? ==> r == Scraped("", [])
    ensures fetched.Some? ==> r.title == PageTitle(fetched.value)
    ensures fetched.Some? && MetaAuthors(fetched.value.metas, AuthorNames) != [] ==>
              r.authors == MetaAuthors(fetched.value.metas, AuthorNames)
    ensures fetched.Some? && MetaAuthors(fetched.value.metas, AuthorNames) == [] ==>
              r.authors == FallbackAuthors(fetched.value.authorTexts) && Distinct(r.authors)
  {
    match fetched
    case None => Scraped("", [])
    case Some(page) =>
      var metaAuthors := MetaAuthors(page.metas, AuthorNames);
      Scraped(PageTitle(page), if metaAuthors != [] then metaAuthors else FallbackAuthors(page.authorTexts))
  }

  // ---------------------------------------------------------------------------
  // heuristic_find_title_from_conference

  /** The characters `strip(' -:—–\t')` removes. */
  predicate IsTitleTrim(c: char) {
    c == ' ' || c == '-' || c == ':' || c == '—' || c == '–' || c == '\t'
  }

  /** A line mentioning the author, with every occurrence of the author removed and the
      separator punctuation trimmed from both ends. */
  function WithoutAuthor(line: string, author: string): string {
    StripBy(RemoveAll(line, author), IsTitleTrim)
  }

  /** Reference definition of what line `i` yields on its own: nothing unless it mentions
      the author; then the previous line if longer than 10, else the line without the
      author if longer than 10, else nothing. */
  function LineCandidate(lines: seq<string>, author: string, i: nat): (r: string)
    requires i < |lines|
    ensures r == "" || |r| > 10
    ensures !Contains(lines[i], author) ==> r == ""
  {
    if !Contains(lines[i], author) then ""
    else if i > 0 && |lines[i - 1]| > 10 then lines[i - 1]
    else if |WithoutAuthor(lines[i], author)| > 10 then WithoutAuthor(lines[i], author)
    else ""
  }

  /** Line `k`, at or after `from`, is the first to yield a candidate, and that is `r`. */
  ghost predicate FirstCandidate(lines: seq<string>, author: string, from: nat, k: nat, r: string) {
    && from <= k < |lines|
    && r == LineCandidate(lines, author, k)
    && forall m :: from <= m < k ==> LineCandidate(lines, author, m) == ""
  }

  /** The scan from line `i` on: the first line that yields a candidate decides. */
  function ScanLines(lines: seq<string>, author: string, i: nat): (r: string)
    requires i <= |lines|
    ensures r == "" || |r| > 10
    decreases |lines| - i
  {
    if i == |lines| then ""
    else
      var c := LineCandidate(lines, author, i);
      if c != "" then c else ScanLines(lines, author, i + 1)
  }

  /** The scan yields nothing exactly when no line yields a candidate, and otherwise the
      candidate of the first line that does. */
  lemma {:induction false} ScanLinesFirst(lines: seq<string>, author: string, i: nat)
    requires i <= |lines|
    ensures var r := ScanLines(lines, author, i);
      r == "" <==> forall k :: i <= k < |lines| ==> LineCandidate(lines, author, k) == ""
    ensures var r := ScanLines(lines, author, i);
      r != "" ==> exists k :: FirstCandidate(lines, author, i, k, r)
    decreases |lines| - i
  {
    if i < |lines| {
      var r := ScanLines(lines, author, i);
      var c := LineCandidate(lines, author, i);
      if c != "" {
        assert FirstCandidate(lines, author, i, i, c);
      } else {
        ScanLinesFirst(lines, author, i + 1);
        if r != "" {
          var k :| FirstCandidate(lines, author, i + 1, k, r);
          assert FirstCandidate(lines, author, i, k, r);
        }
      }
    }
  }

  /** heuristic_find_title_from_conference over the page's visible text, as
      `get_text(separator='\n')` returns it, searching for `author` literally. */
  function ConferenceTitle(text: string, author: string): (r: string)
    ensures r == "" || |r| > 10
  {
    ScanLines(Lines(text), author, 0)
  }

  /** Line `k` is the first to yield a candidate, it mentions the author, and `r` is the
      line before it when that is longer than 10, else line `k` without the author. */
  ghost predicate TitleFromLine(lines: seq<string>, author: string, k: nat, r: string) {
    && FirstCandidate(lines, author, 0, k, r)
    && Contains(lines[k], author)
    && (if k > 0 && |lines[k - 1]| > 10 then r == lines[k - 1] else r == WithoutAuthor(lines[k], author))
  }

  /** A non-empty candidate has the shape `TitleFromLine` describes. */
  lemma CandidateShape(lines: seq<string>, author: string, k: nat, r: string)
    requires FirstCandidate(lines, author, 0, k, r) && r != ""
    ensures TitleFromLine(lines, author, k, r)
  {
  }

  /** When a qualifying line exists, the result is the line just before the first one, if
      that is long enough, and otherwise that line with the author removed and trimmed. */
  lemma ConferenceTitleShape(text: string, author: string)
    ensures ConferenceTitle(text, author) == "" <==>
              forall k :: 0 <= k < |Lines(text)| ==> LineCandidate(Lines(text), author, k) == ""
    ensures ConferenceTitle(text, author) != "" ==>
              exists k :: TitleFromLine(Lines(text), author, k, ConferenceTitle(text, author))
  {
    var lines := Lines(text);
    var r := ConferenceTitle(text, author);
    ScanLinesFirst(lines, author, 0);
    if r != "" {
      var k :| FirstCandidate(lines, author, 0, k, r);
      CandidateShape(lines, author, k, r);
    }
  }

  // ---------------------------------------------------------------------------
  // The loop body of main

  /** The title main settles on for one record: the scraped title; or, when that is "", the
      heuristic run over the text of a second fetch, anchored on the record's current first
      author. The second fetch does not check the HTTP status, so `None` means only that it
      raised; a record without authors raises IndexError inside the same `try` and is
      treated likewise. */
  function ResolveTitle(scrapedTitle: string, secondFetch: Option<string>, authors: seq<string>): (r: string)
    ensures scrapedTitle != "" ==> r == scrapedTitle
    ensures scrapedTitle == "" && (secondFetch.None? || |authors| == 0 || authors[0] == "") ==> r == ""
    ensures scrapedTitle == "" && secondFetch.Some? && |authors| > 0 && authors[0] != "" ==>
              r == ConferenceTitle(secondFetch.value, authors[0])
    ensures scrapedTitle == "" ==> r == "" || |r| > 10
  {
    if scrapedTitle != "" then scrapedTitle
    else
      match secondFetch
      case None => ""
      case Some(text) =>
        if |authors| == 0 || authors[0] == "" then "" else ConferenceTitle(text, authors[0])
  }

  /** The updated record and how many of its fields the update changed. */
  datatype Update = Update(record: Record, changed: nat)

  /** The per-record update of main. The authors become the normalised first scraped author
      followed by the co-author label exactly when that differs from the current first
      author; the title is replaced exactly when the new one is non-empty and different;
      nothing else changes, and the counter grows by the number of fields that changed.
      Reading `authors[0]` of a record without authors raises, which the precondition
      excludes. */
  function UpdateRecord(v: Record, title: string, scraped: seq<string>): (u: Update)
    requires scraped == [] || |v.authors| > 0
    ensures u.record.tags == v.tags && u.record.year == v.year
    ensures u.record.publisher == v.publisher && u.record.link == v.link
    ensures u.record.authors != v.authors <==> scraped != [] && v.authors[0] != FamilyFromFull(scraped[0])
    ensures u.record.authors != v.authors ==> u.record.authors == [FamilyFromFull(scraped[0]), CoAuthor]
    ensures u.record.title != v.title <==> title != "" && title != v.title
    ensures u.record.title != v.title ==> u.record.title == title
    ensures u.changed == (if u.record.authors != v.authors then 1 else 0)
                       + (if u.record.title != v.title then 1 else 0)
    ensures u.changed == 0 <==> u.record == v
  {
    var (afterAuthors, c1) :=
      if scraped != [] && v.authors[0] != FamilyFromFull(scraped[0])
      then (v.(authors := [FamilyFromFull(scraped[0]), CoAuthor]), 1)
      else (v, 0);
    var (afterTitle, c2) :=
      if title != "" && afterAuthors.title != title
      then (afterAuthors.(title := title), 1)
      else (afterAuthors, 0);
    Update(afterTitle, c1 + c2)
  }

  /** Running the update again with the same scraped data changes nothing. */
  lemma UpdateRecordIdempotent(v: Record, title: string, scraped: seq<string>)
    requires scraped == [] || |v.authors| > 0
    ensures var u := UpdateRecord(v, title, scraped);
      (scraped == [] || |u.record.authors| > 0) && UpdateRecord(u.record, title, scraped) == Update(u.record, 0)
  {
  }

  /** The outcome of one run of main over the mapping: the records after the loop, the
      number of links processed and the number of changed fields. */
  datatype Enriched = Enriched(entries: seq<Entry>, total: nat, changed: nat)

  /** The record has a link that is requested. */
  predicate HasLink(e: Entry) { Strip(e.1.link) != "" }

  /** Processing this record raises IndexError at `v.get('authors',[None])[0]`: the page
      names an author but the record has none. */
  predicate Crashes(e: Entry, fetchPage: string -> Option<Page>) {
    HasLink(e) && GetUrlTitleAuthors(fetchPage(Strip(e.1.link))).authors != [] && |e.1.authors| == 0
  }

  /** `after` is `before` as the loop may leave it: same key, tags, year, publisher and
      link, and untouched altogether when it has no link. */
  predicate KeepsFixedFields(before: Entry, after: Entry) {
    && after.0 == before.0
    && after.1.tags == before.1.tags && after.1.year == before.1.year
    && after.1.publisher == before.1.publisher && after.1.link == before.1.link
    && (!HasLink(before) ==> after == before)
  }

  /** The loop body of main for one entry: `None` when it raises IndexError, otherwise the
      entry after the update and the number of fields changed. */
  function Step(e: Entry, fetchPage: string -> Option<Page>, fetchText: string -> Option<string>)
    : (r: Option<(Entry, nat)>)
    ensures r.None? <==> Crashes(e, fetchPage)
    ensures r.Some? ==> KeepsFixedFields(e, r.value.0) && r.value.1 <= 2
    ensures r.Some? && !HasLink(e) ==> r.value.1 == 0
    ensures r.Some? && HasLink(e) ==>
              var link := Strip(e.1.link);
              var res := GetUrlTitleAuthors(fetchPage(link));
              var u := UpdateRecord(e.1, ResolveTitle(res.title, fetchText(link), e.1.authors), res.authors);
              r.value == ((e.0, u.record), u.changed)
    ensures r.Some? ==> (r.value.1 == 0 <==> r.value.0 == e)
  {
    var (key, v) := e;
    if !HasLink(e) then Some((e, 0))
    else
      var link := Strip(v.link);
      var res := GetUrlTitleAuthors(fetchPage(link));
      if res.authors != [] && |v.authors| == 0 then None
      else
        var title := ResolveTitle(res.title, fetchText(link), v.authors);
        var u := UpdateRecord(v, title, res.authors);
        Some(((key, u.record), u.changed))
  }

  /** `after` is `before` with each entry related to its counterpart by `keeps`. */
  predicate AllKept<E>(before: seq<E>, after: seq<E>, keeps: (E, E) -> bool) {
    |after| == |before| && forall k :: 0 <= k < |before| ==> keeps(before[k], after[k])
  }

  lemma AllKeptCons<E>(before: seq<E>, a: E, rest: seq<E>, keeps: (E, E) -> bool)
    requires |before| > 0 && keeps(before[0], a) && AllKept(before[1..], rest, keeps)
    ensures AllKept(before, [a] + rest, keeps)
  {
    var after := [a] + rest;
    forall k | 0 <= k < |before| ensures keeps(before[k], after[k]) {
      if k > 0 {
        assert before[k] == before[1..][k - 1] && after[k] == rest[k - 1];
      }
    }
  }

  /** What one iteration of the loop may return for `before`: nothing when it raises, or an
      entry related to `before` by `keeps`, with at most two changes counted when `before`
      is linked and none otherwise. */
  predicate StepShape<E(==)>(before: E, step: Option<(E, nat)>, linked: E -> bool, keeps: (E, E) -> bool) {
    step.Some? ==>
      && keeps(before, step.value.0) && step.value.1 <= (if linked(before) then 2 else 0)
      && (step.value.1 == 0 <==> step.value.0 == before)
  }

  /** The sum of the change counters of the iterations that returned. */
  function Changes<E>(steps: seq<Option<(E, nat)>>): nat {
    if |steps| == 0 then 0
    else (if steps[0].Some? then steps[0].value.1 else 0) + Changes(steps[1..])
  }

  /** The loop over entries whose iterations returned `steps`: it stops at the first that
      raises, otherwise collects the entries, counts the linked ones and adds up the
      counters. */
  function Collect<E(==)>(entries: seq<E>, steps: seq<Option<(E, nat)>>, linked: E -> bool, keeps: (E, E) -> bool)
    : (r: Option<(seq<E>, nat, nat)>)
    requires |steps| == |entries|
    requires forall k :: 0 <= k < |steps| ==> StepShape(entries[k], steps[k], linked, keeps)
    ensures r.None? <==> exists k :: 0 <= k < |steps| && steps[k].None?
    ensures r.Some? ==> AllKept(entries, r.value.0, keeps)
    ensures r.Some? ==> r.value.1 == Count(entries, linked)
    ensures r.Some? ==> r.value.2 <= 2 * r.value.1
    ensures r.Some? ==> forall k :: 0 <= k < |steps| ==> steps[k].Some? && r.value.0[k] == steps[k].value.0
    ensures r.Some? ==> r.value.2 == Changes(steps)
    ensures r.Some? ==> (r.value.2 == 0 <==> r.value.0 == entries)
  {
    if |entries| == 0 then Some(([], 0, 0))
    else
      StepShapeTail(entries, steps, linked, keeps);
      var tail := Collect(entries[1..], steps[1..], linked, keeps);
      SomeNoneSplit(steps);
      if steps[0].None? || tail.None? then None
      else
        var e', n := steps[0].value.0, steps[0].value.1;
        var es, total, changed := tail.value.0, tail.value.1, tail.value.2;
        assert keeps(entries[0], e') && n <= (if linked(entries[0]) then 2 else 0);
        AllKeptCons(entries, e', es, keeps);
        assert StepShape(entries[0], steps[0], linked, keeps);
        CollectCons(entries, steps, e', es);
        Some(([e'] + es, total + (if linked(entries[0]) then 1 else 0), changed + n))
  }

  /** Putting the first iteration's entry in front of the rest's keeps them lined up
      with the steps, and the whole is unchanged exactly when both parts are. */
  lemma CollectCons<E>(entries: seq<E>, steps: seq<Option<(E, nat)>>, e': E, es: seq<E>)
    requires |steps| == |entries| > 0 && |es| == |entries| - 1
    requires steps[0].Some? && steps[0].value.0 == e'
    requires forall k :: 0 <= k < |steps| - 1 ==> steps[1..][k].Some? && es[k] == steps[1..][k].value.0
    ensures forall k :: 0 <= k < |steps| ==> steps[k].Some? && ([e'] + es)[k] == steps[k].value.0
    ensures [e'] + es == entries <==> e' == entries[0] && es == entries[1..]
  {
    forall k | 0 <= k < |steps| ensures steps[k].Some? && ([e'] + es)[k] == steps[k].value.0 {
      if k > 0 {
        assert steps[k] == steps[1..][k - 1];
      }
    }
    if e' == entries[0] && es == entries[1..] {
      assert entries == [entries[0]] + entries[1..];
    }
  }

  lemma StepShapeTail<E>(entries: seq<E>, steps: seq<Option<(E, nat)>>, linked: E -> bool, keeps: (E, E) -> bool)
    requires |steps| == |entries| > 0
    requires forall k :: 0 <= k < |steps| ==> StepShape(entries[k], steps[k], linked, keeps)
    ensures forall k :: 0 <= k < |steps| - 1 ==> StepShape(entries[1..][k], steps[1..][k], linked, keeps)
  {
    forall k | 0 <= k < |steps| - 1 ensures StepShape(entries[1..][k], steps[1..][k], linked, keeps) {
      assert entries[1..][k] == entries[k + 1] && steps[1..][k] == steps[k + 1];
    }
  }

  /** Some step raised exactly when the first did or one of the rest did. */
  lemma SomeNoneSplit<E>(steps: seq<Option<E>>)
    requires |steps| > 0
    ensures (exists k :: 0 <= k < |steps| && steps[k].None?) <==>
            steps[0].None? || exists k :: 0 <= k < |steps| - 1 && steps[1..][k].None?
  {
    if exists k :: 0 <= k < |steps| && steps[k].None? {
      var k :| 0 <= k < |steps| && steps[k].None?;
      if k > 0 {
        assert steps[1..][k - 1] == steps[k];
      }
    }
  }

  /** The iterations of the loop, one per entry, each run on the original entry. */
  function Steps(entries: seq<Entry>, fetchPage: string -> Option<Page>, fetchText: string -> Option<string>)
    : (steps: seq<Option<(Entry, nat)>>)
    ensures |steps| == |entries|
    ensures forall k :: 0 <= k < |steps| ==> StepShape(entries[k], steps[k], HasLink, KeepsFixedFields)
    ensures forall k :: 0 <= k < |steps| ==> (steps[k].None? <==> Crashes(entries[k], fetchPage))
    ensures forall k :: 0 <= k < |steps| ==> steps[k] == Step(entries[k], fetchPage, fetchText)
  {
    seq(|entries|, k requires 0 <= k < |entries| => Step(entries[k], fetchPage, fetchText))
  }

  /** One pass of main. `fetchPage` is the first request of each (stripped) link, as parsed;
      `fetchText` the visible text of the second request. `None` means the run stopped on an
      uncaught IndexError, in which case the file is not written. */
  function Enrich(entries: seq<Entry>, fetchPage: string -> Option<Page>, fetchText: string -> Option<string>)
    : (r: Option<Enriched>)
    ensures r.None? <==> exists k :: 0 <= k < |entries| && Crashes(entries[k], fetchPage)
    ensures r.Some? ==> AllKept(entries, r.value.entries, KeepsFixedFields)
    ensures r.Some? ==> r.value.total == |Filter(entries, HasLink)|
    ensures r.Some? ==> r.value.changed <= 2 * r.value.total
    ensures r.Some? ==> var steps := Steps(entries, fetchPage, fetchText);
              && (forall k :: 0 <= k < |entries| ==> steps[k].Some? && r.value.entries[k] == steps[k].value.0)
              && r.value.changed == Changes(steps)
    ensures r.Some? ==> (r.value.changed == 0 <==> r.value.entries == entries)
  {
    var steps := Steps(entries, fetchPage, fetchText);
    var c := Collect(entries, steps, HasLink, KeepsFixedFields);
    var r := if c.None? then None else Some(Enriched(c.value.0, c.value.1, c.value.2));
    EnrichOutcome(entries, fetchPage, fetchText, steps, c, r);
    r
  }

  lemma EnrichOutcome(entries: seq<Entry>, fetchPage: string -> Option<Page>, fetchText: string -> Option<string>,
                      steps: seq<Option<(Entry, nat)>>, c: Option<(seq<Entry>, nat, nat)>, r: Option<Enriched>)
    requires steps == Steps(entries, fetchPage, fetchText)
    requires c == Collect(entries, steps, HasLink, KeepsFixedFields)
    requires r == if c.None? then None else Some(Enriched(c.value.0, c.value.1, c.value.2))
    ensures r.None? <==> exists k :: 0 <= k < |entries| && Crashes(entries[k], fetchPage)
    ensures r.Some? ==> AllKept(entries, r.value.entries, KeepsFixedFields)
    ensures r.Some? ==> r.value.total == |Filter(entries, HasLink)|
    ensures r.Some? ==> r.value.changed <= 2 * r.value.total
    ensures r.Some? ==> var steps := Steps(entries, fetchPage, fetchText);
              && (forall k :: 0 <= k < |entries| ==> steps[k].Some? && r.value.entries[k] == steps[k].value.0)
              && r.value.changed == Changes(steps)
    ensures r.Some? ==> (r.value.changed == 0 <==> r.value.entries == entries)
  {
    CollectedRun(entries, fetchPage, fetchText, steps, c);
  }

  /** The loop's outcome over the iterations of `Steps`, in the terms of `Enrich`. */
  lemma CollectedRun(entries: seq<Entry>, fetchPage: string -> Option<Page>, fetchText: string -> Option<string>,
                     steps: seq<Option<(Entry, nat)>>, c: Option<(seq<Entry>, nat, nat)>)
    requires steps == Steps(entries, fetchPage, fetchText)
    requires c == Collect(entries, steps, HasLink, KeepsFixedFields)
    ensures c.None? <==> exists k :: 0 <= k < |entries| && Crashes(entries[k], fetchPage)
    ensures c.Some? ==> c.value.1 == |Filter(entries, HasLink)|
  {
    CountIsFilterLength(entries, HasLink);
    if c.None? {
      var k :| 0 <= k < |steps| && steps[k].None?;
      assert Crashes(entries[k], fetchPage);
    }
  }
}
