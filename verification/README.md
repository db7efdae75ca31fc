# Lab website content scripts — a Dafny model

This project models the two content-maintenance scripts of a lab website.

- `scripts/fill_titles.py`, the **metadata enricher**, walks the achievement records in
  `src/content/achievements/temp.json`. For each record with a link it takes the page's
  title and authors from its metadata, falling back to heuristics. It then normalises the
  first scraped author to a family name and updates the record's title and primary author.
- `scripts/generate_achievements.py`, the **achievement generator**, reads the news posts.
  It keeps the posts whose first body line announces a publication and pulls authors,
  publisher and link out of that line. It synthesises one record per author, de-duplicated
  on `(author, year, publisher)`, sorts the records and renumbers them `achievement-001`,
  `achievement-002`, …

Everything is pure functions over immutable values; strings are `seq<char>`. HTTP requests
and the HTML parser are not modelled. A fetched page is an abstract `Page` value and each
request is a function parameter. Each regular expression is modelled by the scanner that
Python's backtracking engine amounts to for that pattern, and each such function says why the
two agree.

Files and modules:

| file | module | contents |
|---|---|---|
| `seqs.dfy` | `Seqs` | `Option`, order-preserving de-duplication, `Concat`, `Filter`, `IndexWhere` |
| `pystr.dfy` | `PyStr` | Python `str` primitives: `isspace`, `strip`, substring search, `re.sub` of a literal, `split`, `splitlines`, code-point order |
| `decimal.dfy` | `Decimal` | decimal digits, `int()` of a year, the `{:03d}` format |
| `record.dfy` | `Achievements` | the achievement record and the co-author label |
| `fill_titles.dfy` | `FillTitles` | the enricher |
| `news.dfy` | `News` | `parse_md`, `KW_REGEX`, `extract_link`, `extract_info` |
| `sorting.dfy` | `Sorting` | `sort_key`, the stable sort, renumbering |
| `generate.dfy` | `Generate` | the generator's main loop and output |

One consequence of the order of `extract_info`'s rules is worth spelling out. Take a
first line whose only brackets are a markdown link, such as
`M1狭間君の論文が情報処理学会で公開されました。 [詳細](http://example.com)`.
`extract_info` takes the link text `詳細` as the publisher, because its bracket rule runs
before the `論文が` rule (`News.Publisher`).

## Model

| member | source | states |
|---|---|---|
| FillTitles.FamilyFromFull | scripts/fill_titles.py:40-56 | The result is "" exactly when the stripped name is empty, and is always a suffix of the stripped name. With a space it is the last whitespace-free word. Without one, a name of at most 4 characters is kept whole. A longer name ending in U+4E00–U+9FA5 gives the maximal trailing run of such characters; any other longer name is kept. |
| FillTitles.LastWordOfStripped | scripts/fill_titles.py:45-48 | In a stripped name containing a space, the last element of `split()` is the whitespace-free suffix that follows the last whitespace character. |
| FillTitles.TrailingRunIsCjkRun | scripts/fill_titles.py:53-55 | The suffix matched by `[一-龥]+$` is the maximal trailing run of CJK ideographs. |
| FillTitles.Offered | scripts/fill_titles.py:70-72 | Only the first tag with the given attribute value is examined. Its content is offered exactly when it is non-empty. |
| FillTitles.MetaTitle | scripts/fill_titles.py:69-74 | The title is always stripped, and is "" when no name offers a content. |
| FillTitles.MetaTitleFirst | scripts/fill_titles.py:69-74 | The title is the stripped content offered by the first name, in priority order, that offers one. A name whose first tag is missing or empty passes to the next. |
| FillTitles.PageTitle | scripts/fill_titles.py:69-78 | The document `<title>` is used, stripped, only when the metadata title is "". The result is always stripped. |
| FillTitles.ContentsOfMeaning | scripts/fill_titles.py:82-85 | The result is empty exactly when no tag with that name has non-empty content. Every such tag contributes its stripped content, and every element of the result is the stripped content of such a tag. |
| FillTitles.ContentsOfInOrder | scripts/fill_titles.py:82-85 | The contents are those of the tags with that name and non-empty content, stripped, in document order, one per tag. |
| FillTitles.MetaAuthors | scripts/fill_titles.py:80-87 | The result is empty when no author name yields a content. |
| FillTitles.MetaAuthorsFirst | scripts/fill_titles.py:80-87 | The authors are all contents of the first author name that yields any. Later names are not consulted. |
| FillTitles.AuthorPieces | scripts/fill_titles.py:89-100 | Every piece is non-empty, stripped and free of `、`, `,` and `;`. No texts give no pieces. |
| FillTitles.AuthorPiecesCons | scripts/fill_titles.py:93-100 | The pieces of a list of texts are the split-and-stripped tokens of the first text followed by the pieces of the rest, so each text contributes its own tokens in order. |
| FillTitles.FallbackAuthors | scripts/fill_titles.py:89-102 | The result is the first occurrences of the pieces, in order. It has no duplicates and contains every piece. |
| FillTitles.GetUrlTitleAuthors | scripts/fill_titles.py:59-103 | A failed request gives an empty title and no authors. Otherwise the title is the page title. The authors are the metadata authors when there are any, and otherwise the de-duplicated fallback pieces. |
| FillTitles.LineCandidate | scripts/fill_titles.py:112-121 | A line's candidate is "" or longer than 10 characters, and is "" when the line does not contain the author. |
| FillTitles.ScanLines | scripts/fill_titles.py:111-122 | The result of the line loop is "" or longer than 10 characters. |
| FillTitles.ScanLinesFirst | scripts/fill_titles.py:111-122 | The loop returns "" exactly when no line from the start position yields a candidate. Otherwise it returns the candidate of the first line that yields one. |
| FillTitles.ConferenceTitleShape | scripts/fill_titles.py:106-122 | A non-empty heuristic title comes from the first line that mentions the author and yields a candidate. It is either the previous line, when that is longer than 10, or the line with every occurrence of the author removed and ` -:—–\t` trimmed. |
| FillTitles.ResolveTitle | scripts/fill_titles.py:137-150 | A scraped title is kept. Otherwise the heuristic runs on the second fetch's text, anchored on the record's first author. A failed fetch, or a record with no or an empty first author, leaves the title "". A heuristic title is "" or longer than 10. |
| FillTitles.UpdateRecord | scripts/fill_titles.py:151-164 | The authors change exactly when there is a scraped author whose family form differs from the current first author; they become that form followed by `飯間等`. The title changes exactly when the new title is non-empty and different. Tags, year, publisher and link are kept. The counter grows by the number of changed fields and is 0 exactly when nothing changed. |
| FillTitles.UpdateRecordIdempotent | scripts/fill_titles.py:151-164 | Running the update again with the same scraped data changes nothing. |
| FillTitles.Step | scripts/fill_titles.py:129-164 | A record raises exactly when its page names an author and the record has none. Otherwise a linked record becomes what the update with the page's scraped title and authors gives, with the title resolved through the second fetch, and the counter is that update's count. The key, tags, year, publisher and link are kept, at most 2 fields change, and the counter is 0 exactly when the record is unchanged. A record without a link is untouched. |
| FillTitles.Collect | scripts/fill_titles.py:125-167 | The loop over the records stops exactly when some iteration raises. Otherwise each output record is its iteration's result, `total` counts the linked records, the change count is the sum of the iterations' counters and at most twice `total`, and it is 0 exactly when no record changed. |
| FillTitles.Enrich | scripts/fill_titles.py:125-167 | The run stops exactly when some record raises. Otherwise each record is replaced by its own iteration's result, so every key and every non-enriched field is kept and records without a link are untouched. `total` is the number of records with a link. The change count is the sum of the per-record counters, at most twice `total`, and 0 exactly when the file's records are unchanged. |
| News.TryNewlines | scripts/generate_achievements.py:26 | A frontmatter match found by backtracking over the newlines in the whitespace after `---` has its group start right after a newline. The group ends at the first `\n---` after its start, and the match ends 4 characters later. Every later newline in that whitespace has no closing `\n---` after it, and when no match is found, none of the newlines has one. |
| News.FrontmatterAt | scripts/generate_achievements.py:26 | A match at `p` starts a line with `---`, then whitespace, a newline, the lazy group, and `\n---`. |
| News.FrontmatterAtComplete | scripts/generate_achievements.py:26 | Whenever the frontmatter shape occurs at `p`, the scan at `p` finds a match. That match is the one the regex engine prefers: it has the latest group start, the group ending at the first `\n---` after it. |
| News.Frontmatter | scripts/generate_achievements.py:26 | `re.search` returns a match of the frontmatter shape. No earlier position matches, and when it returns nothing no position matches. |
| News.FrontmatterLeftmost | scripts/generate_achievements.py:26 | Whenever the frontmatter shape occurs anywhere, `re.search` finds a match, and that match is the preferred one: leftmost, then with the latest group start. |
| News.DateAt | scripts/generate_achievements.py:30 | A `date:` match yields exactly four ASCII digits, namely the four digits that follow `date:` and the whitespace after it at that position. |
| News.DateAtComplete | scripts/generate_achievements.py:30 | Whenever `date:`, a run of whitespace and four digits occur at a position, the match there yields those four digits. |
| News.YearOf | scripts/generate_achievements.py:27-32 | The year is "" or four ASCII digits. It is "" exactly when no position matches, and otherwise comes from the leftmost position that matches. |
| News.ParseMd | scripts/generate_achievements.py:23-37 | The year is "" without frontmatter, and otherwise is what the `date:` search finds in the frontmatter group, so "" or four digits. The first line is "" exactly when the body has no non-empty line. Otherwise it is the first stripped non-empty line of the text after the frontmatter, free of line breaks. |
| News.AnnouncesIffCore | scripts/generate_achievements.py:16 | A line passes `KW_REGEX` exactly when it contains 掲載, 公開されました, 論文が or で研究発表を行いました. The other two alternatives are redundant. |
| News.LinkAt | scripts/generate_achievements.py:18 | A link matches at `i` exactly when the `[text](url)` shape occurs there: non-empty text without `]`, non-empty url without `)`. The capture is the url. |
| News.ExtractLink | scripts/generate_achievements.py:40-45 | The result is the stripped url of the leftmost link, or "" when the line has none. |
| News.BracketAt | scripts/generate_achievements.py:17 | A bracket matches at `i` exactly when a non-empty `]`-free content closed by `]` follows `[`. The capture is that content. |
| News.FirstBracket | scripts/generate_achievements.py:51-53 | The result is the leftmost bracket content, or nothing when no position matches. |
| News.LazyEnd | scripts/generate_achievements.py:56 | The lazy group stops at the first に or で. It fails when a newline or the end of the line comes first. |
| News.ParticleAt | scripts/generate_achievements.py:56 | A match at `i` exactly when the prefix is followed by the shortest non-empty newline-free text that is followed by に or で. The capture is that text. |
| News.FirstParticle | scripts/generate_achievements.py:55-62 | The result is the capture of the leftmost particle match, or nothing when there is none. |
| News.Publisher | scripts/generate_achievements.py:49-62 | In priority order, the result is the first bracket content (not stripped), else the stripped group after 論文が, else the stripped group after が, else "". It is "" exactly in the cases listed. |
| News.HonorificAtMeaning | scripts/generate_achievements.py:20 | Some honorific among 君, さん, 氏, 先生 occurs at `j` exactly when the result is present, and the result is its length. |
| News.LazyName | scripts/generate_achievements.py:20 | A found name consists of name characters and is followed by an honorific, and the match ends after the first honorific alternative that matches there. No honorific starts between the search start and the name's end. |
| News.LazyNameNone | scripts/generate_achievements.py:20 | When the lazy group gives up, no name from that start ending at or after the search position is followed by an honorific. |
| News.NameAt | scripts/generate_achievements.py:20 | A name match from `n` is non-empty, made of name characters, and ends before the end of the match. |
| News.NameAtShortest | scripts/generate_achievements.py:20 | The match from `n` is the shortest name of name characters followed by an honorific, and there is none exactly when no such name starts at `n`. |
| News.GradeThenName | scripts/generate_achievements.py:20 | A match found after the optional grade at `q` starts at or after `q` and captures a non-empty run of name characters. |
| News.GradeThenNameOrder | scripts/generate_achievements.py:20 | The optional `[MBD]\d+` is tried greedily, then given back. A found name is the shortest one and starts either at `q` or right after the whole digit run. When a name follows the whole digit run, that one is taken. Nothing is found only when no name starts at `q` and none follows any of the grade's digit runs. |
| News.ShorterGradesNoName | scripts/generate_achievements.py:20 | When no name follows the whole digit run, none follows a shorter one. |
| News.SepsThenName | scripts/generate_achievements.py:20 | A match found after the separator run from `i` starts at or after `i` and captures a non-empty run of name characters. |
| News.SepsThenNameLatest | scripts/generate_achievements.py:20 | The separator run is given back from the longest: a match comes from a run end in `[i, q]` with no match from any later run end, and no match means that no run end in `[i, q]` gives one. |
| News.AuthorMatchAt | scripts/generate_achievements.py:20 | An `AUTHOR_RE` match at `i` captures a non-empty run of name characters inside the line. |
| News.AuthorMatchAtLatest | scripts/generate_achievements.py:20 | A match of `AUTHOR_RE` at `i` comes from the longest `[と、,\s]*` run after `i` that lets the grade and the name match. There is no match exactly when no such run does. |
| News.NextAuthorMatch | scripts/generate_achievements.py:64 | `finditer`'s next match from a position is the leftmost `AUTHOR_RE` match at or after it. No position before it matches, and when there is none, no position to the end of the line matches. |
| News.RawAuthors | scripts/generate_achievements.py:64 | Every capture found by `finditer` is non-empty and made of name characters. There are none exactly when no position from the start matches. |
| News.DropGrade | scripts/generate_achievements.py:68 | A name starting with `M`, `B`, `D` or `F` and a digit loses that letter and the whole run of digits after it, so the rest does not start with a digit. Any other name is returned unchanged. |
| News.CleanName | scripts/generate_achievements.py:67-69 | After the grade is dropped, the result is what remains once the leading run of `と`, `、`, `,` and spaces is removed and then the surrounding whitespace. It occurs in the raw name. For a name without whitespace it does not start with `と`, `、`, `,` or a space. |
| News.CleanCapturedName | scripts/generate_achievements.py:63-69 | Cleaning a captured name leaves only name characters and no leading separator. |
| News.KeptNames | scripts/generate_achievements.py:65-71 | Every kept name is non-empty, made of name characters, and has no leading separator. |
| News.ExtractAuthors | scripts/generate_achievements.py:63-72 | The authors are the first occurrences, in order, of the non-empty cleaned captures. They are distinct and non-empty, none starts with `と`, `、`, `,` or a space, and all are made of name characters. |
| News.ExtractInfo | scripts/generate_achievements.py:48-72 | The authors are the cleaned raw names, with empty ones dropped and first occurrences kept. They are distinct, non-empty name-character strings that start with no separator. The publisher is the first bracket pair's text, else the stripped text after the first `論文が`, else after the first `が`, else "". |
| Sorting.KeyLessIrreflexive | scripts/generate_achievements.py:136-145 | No sort key sorts before itself. |
| Sorting.KeyLessTransitive | scripts/generate_achievements.py:136-145 | The order on `(-year, publisher, author)` is transitive. |
| Sorting.KeyLessTotal | scripts/generate_achievements.py:136-145 | Of two distinct sort keys, one sorts before the other. |
| Sorting.Insert | scripts/generate_achievements.py:147 | Insertion adds exactly the one record to the multiset. |
| Sorting.InsertSorted | scripts/generate_achievements.py:147 | Inserting into a sorted list keeps it sorted. |
| Sorting.InsertWithKey | scripts/generate_achievements.py:147 | The inserted record lands after every record that has its sort key. |
| Sorting.Sort | scripts/generate_achievements.py:147 | The sort's result is a permutation of its input, and it is sorted by `sort_key`. |
| Sorting.SortStable | scripts/generate_achievements.py:147 | Records with equal sort keys keep their relative order. |
| Sorting.AchievementKey | scripts/generate_achievements.py:152 | The key is `achievement-` followed by digits that read back as the number: exactly three below 1000, and the plain decimal form from 100 on. |
| Sorting.Renumber | scripts/generate_achievements.py:149-153 | The `i`-th record is stored, in order, under a key that reads back as `achievement-` and `i + 1` in `{:03d}` form. Records are neither lost nor reordered, and no two records share a key. |
| Generate.Qualify | scripts/generate_achievements.py:101-109 | A post is kept exactly when its first line passes the keyword filter and yields an author or a publisher. Its facts are the post's year and the line's authors, publisher and link. |
| Generate.AnnouncesNonEmpty | scripts/generate_achievements.py:103-106 | An empty first line never passes the keyword filter. |
| Generate.AddAuthor | scripts/generate_achievements.py:113-127 | An author whose `(author, year, publisher)` key was seen adds nothing. Otherwise it appends the record `[a, 飯間等]` with the post's year, publisher and link, and an empty title and tags. The key is added to `seen`. The invariant that `seen` equals the records' keys and that those keys are distinct is kept. |
| Generate.AddAuthors | scripts/generate_achievements.py:113-127 | The loop over a post's authors keeps the invariant. It adds every author's key to `seen`, only appends, and appends only records synthesised for that post's authors. |
| Generate.AddPost | scripts/generate_achievements.py:101-127 | A skipped post changes nothing, and so does a qualifying post with a publisher but no authors. A qualifying post adds all its keys, keeps the invariant and only appends records synthesised for its own authors. |
| Generate.AddPostExtends | scripts/generate_achievements.py:96-127 | After one more post, every record still comes from some qualifying post so far, and every qualifying post so far has all its keys seen. |
| Generate.SynthesizeFacts | scripts/generate_achievements.py:96-127 | No two records share `(author, year, publisher)`. Every record is synthesised for some author of some qualifying post, and every author of every qualifying post has its key seen. |
| Generate.SynthesizeIsFirstByKey | scripts/generate_achievements.py:101-127 | The records are exactly the first record for each `(author, year, publisher)` key among the candidates, taken in post order and author order, and `seen` is the set of all the candidates' keys. |
| Generate.Output | scripts/generate_achievements.py:136-153 | The output values are a permutation of the records, sorted by `sort_key`, in their original order among equal keys. Distinct `(author, year, publisher)` keys stay distinct. The `i`-th key reads as `achievement-` and `i + 1` in `{:03d}` form, and the keys are distinct. |
| Generate.PermutationKeepsDistinctKeys | scripts/generate_achievements.py:147 | Reordering a list with distinct keys keeps them distinct. |
| Generate.Generate | scripts/generate_achievements.py:93-155 | The output values are a permutation of the synthesised records, with no manual entries. They are sorted by `sort_key`, keep the synthesis order among equal keys, and have distinct `(author, year, publisher)` keys. The `i`-th output key is `achievement-NNN` with NNN the `{:03d}` form of `i + 1`, and the keys are distinct. |
| Seqs.Dedupe | scripts/fill_titles.py:102 | The result equals the first occurrences of the input, in order. It has no duplicates and holds exactly the input's elements. |
| Seqs.DedupeIsFirstOccurrences | scripts/generate_achievements.py:65-71 | The `if name not in authors: append` walk yields the first occurrences of everything walked. |
| PyStr.StripBy | scripts/fill_titles.py:119 | `strip(chars)` removes exactly the leading and trailing characters in the set. It is "" exactly when every character is in the set, and otherwise its ends are not in the set. |
| Seqs.CountIsFilterLength | scripts/fill_titles.py:130-133 | Counting the records that pass a test is measuring the filtered list. |
| PyStr.RemoveAll | scripts/fill_titles.py:119 | Removing an absent or empty pattern leaves the line unchanged, and removal never lengthens it. For a non-empty pattern the result is the concatenation of `Pieces`, whose meaning is stated by `PyStr.PiecesMeaning`. |
| PyStr.PiecesMeaning | scripts/fill_titles.py:119 | Cutting a line at the occurrences of the pattern found left to right without overlap: the pieces joined with the pattern give the line back, each piece but the last meets the pattern first right at its end, and the last piece does not contain the pattern. |
| PyStr.RemoveAllIsPieces | scripts/fill_titles.py:119 | `line.replace(author, "")` is the concatenation of those pieces, so exactly the occurrences found left to right are deleted and everything else is kept in order. |
| PyStr.SplitOn | scripts/fill_titles.py:96 | There is one more piece than separators. No piece contains a separator, and the pieces concatenate to the text without its separators. |
| PyStr.SplitOnRebuild | scripts/fill_titles.py:96 | Putting the separators back between the pieces, in the order they occur, gives the text, so the pieces are cut exactly at every separator. |
| PyStr.SplitOnNone | scripts/fill_titles.py:96 | A text without separators splits into itself alone. |
| PyStr.SplitOnFirst | scripts/fill_titles.py:96 | The first piece is the text before the first separator, and the rest are the pieces of the text after it. |
| PyStr.TokensNoSep | scripts/fill_titles.py:96-99 | A text without separators gives its stripped self as its only token, or no token when that is empty. |
| PyStr.TokensSplit | scripts/fill_titles.py:96-99 | The tokens are the stripped text before the first separator, dropped when empty, followed by the tokens of the text after it. |
| PyStr.Lines | scripts/generate_achievements.py:35 | Every line is non-empty, stripped and free of line breaks. |
| PyStr.LinesNoBreak | scripts/generate_achievements.py:35 | A text without line breaks gives its stripped self as its only line, or no line when that is empty. |
| PyStr.LinesBreak | scripts/generate_achievements.py:35 | The lines are the stripped text before the first line break, dropped when blank, followed by the lines of the text after it. |
| PyStr.SplitWsLast | scripts/fill_titles.py:46-48 | For a text ending in a non-whitespace character, the last word of `split()` is the maximal trailing run of non-whitespace. |
| PyStr.LessIffLessAt | scripts/generate_achievements.py:145 | Python's string `<` agrees with the first-difference definition of lexicographic order. |
| PyStr.LessTransitive | scripts/generate_achievements.py:145 | String `<` is transitive. |
| PyStr.LessTotal | scripts/generate_achievements.py:145 | Of two distinct strings, one is less than the other. |
| Decimal.Pad3 | scripts/generate_achievements.py:152 | `{:03d}` gives digits that read back as the number: exactly three below 1000, and the unpadded decimal form from 100 on. |
| Decimal.YearValue | scripts/generate_achievements.py:138-142 | `int(year)` with its fallback: "" gives 0, and a digit string gives its value. |

## Left out

- HTTP requests, the user agent, timeouts and status checks are not modelled; they are network I/O. Each request is a parameter returning `None` when it raises.
- The HTML parser (BeautifulSoup, `lxml`) is not modelled; it is a foreign library. A page is given as its meta tags, its document title and the texts of its `author`-class and `author`-id elements. The second fetch is given as the text `get_text(separator='\n')` returns.
- Reading and writing the JSON file, globbing the posts directory, and the `print` summaries are I/O. The posts are taken in the order `sorted(glob('*.md'))` yields. A post's text is taken after the newline translation that `read_text` applies.
- The dependency check with `sys.exit` at start-up is not modelled; it is environment glue.
- `load_existing_manual` is never called, and `main` sets `manual_entries = {}`. The provisional `new-NNN` keys are distinct and are discarded by the renumbering. The model therefore carries the synthesised records as a list.
- Every record is taken to carry all six fields (`title`, `tags`, `authors`, `year`, `publisher`, `link`), as the generator writes them. The `.get` defaults `fill_titles.py` uses for a missing key are not modelled: a record without `authors` would give `None` at line 157 and be rewritten without an IndexError, and one without `link` or `title` would read as "". An empty `authors` list is modelled, including the IndexError it causes at line 157.
- The site's `menu.js`, `astro.config.mjs` and `src/content/config.ts` are not part of this model; they hold UI and build configuration.
- News.DateAt: models `\d` as the ASCII digits only. Python's `\d` also matches other Unicode decimal digits.
- News.GradeThenName: models `\d` as the ASCII digits only, for the same reason.
- News.GradeThenNameOrder: models `\d` as the ASCII digits only, for the same reason.
- News.DropGrade: models `\d` as the ASCII digits only, for the same reason.
- Decimal.YearValue: states `int()` only for "" and ASCII digit strings, because those are the only year strings the generator can produce.
