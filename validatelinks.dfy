/** The wiki link validator of `validate_links.py`: three link syntaxes, six categories,
    internal links checked against a list of candidate files, and the counters it
    keeps while it walks the wiki. */
module ValidateLinks {
  import opened Text
  import opened Wrappers
  import opened Scanner
  import opened PathLib
  import opened Disk
  import opened Ranking

  /** The syntax a link was written in. */
  datatype LinkKind = Markdown | ReferenceStyle | WikiStyle

  /** One extracted link: its syntax, text and target, and the file it was found in. */
  datatype Link = Link(kind: LinkKind, text: string, url: string, file: string)

  /** One match of the pattern for `kind` made into a link: text and target stripped.
      For `[text][ref]` the target is the stripped ref when the ref is not empty and the
      stripped text when it is; a ref of blanks only is not empty, so its target is "".
      For `[[page]]` text and target are both the stripped page name. */
  function MakeLink(kind: LinkKind, m: (string, string), file: string): Link {
    match kind
    case Markdown => Link(Markdown, Strip(m.0), Strip(m.1), file)
    case ReferenceStyle => Link(ReferenceStyle, Strip(m.0), if m.1 != "" then Strip(m.1) else Strip(m.0), file)
    case WikiStyle => Link(WikiStyle, Strip(m.0), Strip(m.0), file)
  }

  /** The matches made into links, in order. */
  function MakeLinks(kind: LinkKind, ms: seq<(string, string)>, file: string): (r: seq<Link>)
    ensures |r| == |ms|
  {
    if ms == [] then [] else MakeLinks(kind, ms[..|ms| - 1], file) + [MakeLink(kind, ms[|ms| - 1], file)]
  }

  /** The `k`-th link made is made from the `k`-th match. */
  lemma {:induction false} MakeLinksAt(kind: LinkKind, ms: seq<(string, string)>, file: string, k: nat)
    requires k < |ms|
    ensures MakeLinks(kind, ms, file)[k] == MakeLink(kind, ms[k], file)
  {
    if k < |ms| - 1 {
      MakeLinksAt(kind, ms[..|ms| - 1], file, k);
    }
  }

  lemma MakeLinksStep(kind: LinkKind, ms: seq<(string, string)>, file: string, k: nat)
    requires k < |ms|
    ensures MakeLinks(kind, ms[..k + 1], file) == MakeLinks(kind, ms[..k], file) + [MakeLink(kind, ms[k], file)]
  {
    assert ms[..k + 1][..k] == ms[..k];
  }

  /** The three scans of `extract_links`. */
  function InlineMatches(content: string): seq<(string, string)> {
    Matches(Inline(0), content)
  }

  function ReferenceMatches(content: string): seq<(string, string)> {
    Matches(Reference, content)
  }

  function WikiMatches(content: string): seq<(string, string)> {
    Matches(Wiki, content)
  }

  /** All inline links, then all reference links, then all wiki links, each group in
      the order of its matches. */
  function LinksOf(m1: seq<(string, string)>, m2: seq<(string, string)>, m3: seq<(string, string)>, file: string): seq<Link> {
    MakeLinks(Markdown, m1, file) + MakeLinks(ReferenceStyle, m2, file) + MakeLinks(WikiStyle, m3, file)
  }

  /** What `extract_links` returns: the links of the three scans, each group in
      document order. */
  function Extracted(content: string, file: string): seq<Link> {
    LinksOf(InlineMatches(content), ReferenceMatches(content), WikiMatches(content), file)
  }

  /** One of the three loops of `extract_links`: each match of one pattern made into a
      link and appended, in order. */
  method AppendLinks(links: seq<Link>, kind: LinkKind, ms: seq<(string, string)>, file: string)
    returns (out: seq<Link>)
    ensures out == links + MakeLinks(kind, ms, file)
  {
    out := links;
    for k := 0 to |ms|
      invariant out == links + MakeLinks(kind, ms[..k], file)
    {
      MakeLinksStep(kind, ms, file, k);
      AppendAssoc(links, MakeLinks(kind, ms[..k], file), [MakeLink(kind, ms[k], file)]);
      out := out + [MakeLink(kind, ms[k], file)];
    }
    assert ms[..|ms|] == ms;
  }

  /** `extract_links`: three loops appending to one list. */
  method ExtractLinks(content: string, file: string) returns (links: seq<Link>)
    ensures links == Extracted(content, file)
  {
    ghost var inline := MakeLinks(Markdown, InlineMatches(content), file);
    links := AppendLinks([], Markdown, InlineMatches(content), file);
    assert links == inline;
    links := AppendLinks(links, ReferenceStyle, ReferenceMatches(content), file);
    links := AppendLinks(links, WikiStyle, WikiMatches(content), file);
  }

  /** No blank at either end. */
  predicate Stripped(s: string) {
    s == [] || (!IsSpace(s[0]) && !IsSpace(s[|s| - 1]))
  }

  /** A link made from a match has its text and target stripped. */
  lemma MakeLinkStripped(kind: LinkKind, m: (string, string), file: string)
    ensures var l := MakeLink(kind, m, file);
      Stripped(l.text) && Stripped(l.url) && l.file == file && l.kind == kind
  {
    StripEnds(m.0);
    StripEnds(m.1);
  }

  /** Every link made from matches has its text and target stripped and comes from
      `file`; there is one link per match. */
  lemma LinksOfStripped(m1: seq<(string, string)>, m2: seq<(string, string)>, m3: seq<(string, string)>, file: string)
    ensures |LinksOf(m1, m2, m3, file)| == |m1| + |m2| + |m3|
    ensures forall k :: 0 <= k < |LinksOf(m1, m2, m3, file)| ==>
      var l := LinksOf(m1, m2, m3, file)[k];
      Stripped(l.text) && Stripped(l.url) && l.file == file
  {
    var e := LinksOf(m1, m2, m3, file);
    forall k | 0 <= k < |e| ensures Stripped(e[k].text) && Stripped(e[k].url) && e[k].file == file {
      if k < |m1| {
        MakeLinksAt(Markdown, m1, file, k);
        MakeLinkStripped(Markdown, m1[k], file);
      } else if k < |m1| + |m2| {
        MakeLinksAt(ReferenceStyle, m2, file, k - |m1|);
        MakeLinkStripped(ReferenceStyle, m2[k - |m1|], file);
      } else {
        MakeLinksAt(WikiStyle, m3, file, k - |m1| - |m2|);
        MakeLinkStripped(WikiStyle, m3[k - |m1| - |m2|], file);
      }
    }
  }

  /** Every extracted link has its text and target stripped, and comes from `file`;
      there is one link per match of each of the three patterns. */
  lemma ExtractedStripped(content: string, file: string)
    ensures |Extracted(content, file)|
      == |InlineMatches(content)| + |ReferenceMatches(content)| + |WikiMatches(content)|
    ensures forall k :: 0 <= k < |Extracted(content, file)| ==>
      var l := Extracted(content, file)[k];
      Stripped(l.text) && Stripped(l.url) && l.file == file
  {
    LinksOfStripped(InlineMatches(content), ReferenceMatches(content), WikiMatches(content), file);
  }

  /** A reference link `[text][]` with an empty ref points at its own text. */
  lemma ReferenceWithoutRef(content: string, file: string, k: nat)
    requires k < |ReferenceMatches(content)| && ReferenceMatches(content)[k].1 == ""
    ensures var l := Extracted(content, file)[|InlineMatches(content)| + k];
      l.kind == ReferenceStyle && l.url == l.text && l.url == Strip(ReferenceMatches(content)[k].0)
  {
    MakeLinksAt(ReferenceStyle, ReferenceMatches(content), file, k);
  }

  /** The first links are the inline ones, in the order of their matches. */
  lemma LinksOfInline(m1: seq<(string, string)>, m2: seq<(string, string)>, m3: seq<(string, string)>, file: string, k: nat)
    requires k < |m1|
    ensures k < |LinksOf(m1, m2, m3, file)|
    ensures LinksOf(m1, m2, m3, file)[k] == MakeLink(Markdown, m1[k], file)
  {
    MakeLinksAt(Markdown, m1, file, k);
  }

  /** A document made of inline links `[text](url)` written one after another yields
      those links first, in order, stripped. */
  lemma ExtractedInlineDocument(links: seq<(string, string)>, file: string)
    requires forall k :: 0 <= k < |links| ==> Accepts(Inline(0), links[k].0, links[k].1)
    ensures var e := Extracted(RenderAll(Inline(0), links), file);
      |e| >= |links| &&
      forall k :: 0 <= k < |links| ==> e[k] == Link(Markdown, Strip(links[k].0), Strip(links[k].1), file)
  {
    var doc := RenderAll(Inline(0), links);
    MatchesRenderAll(Inline(0), links);
    assert InlineMatches(doc) == links;
    var m2, m3 := ReferenceMatches(doc), WikiMatches(doc);
    assert |LinksOf(links, m2, m3, file)| >= |links|;
    forall k | 0 <= k < |links|
      ensures LinksOf(links, m2, m3, file)[k] == Link(Markdown, Strip(links[k].0), Strip(links[k].1), file)
    {
      LinksOfInline(links, m2, m3, file, k);
    }
  }

  /** The categories of `categorize_link`. */
  datatype Category = External | Anchor | InternalMd | InternalPath | Relative | Other

  /** The categories whose links are checked against the filesystem. */
  predicate Validated(c: Category) {
    c == InternalMd || c == InternalPath || c == Relative
  }

  /** `categorize_link`: the first test that the lowercased target passes. */
  function CategorizeLink(url: string): (c: Category)
    ensures StartsWith(url, "http") ==> c == External
    ensures Validated(c) ==> !StartsWith(url, "http") && !StartsWith(url, "#")
  {
    LowerKeepsPrefix(url, "http");
    LowerStartsWith(url, "#");
    var u := Lower(url);
    if StartsWith(u, "http") then External
    else if StartsWith(u, "#") then Anchor
    else if EndsWith(u, ".md") then InternalMd
    else if Contains(u, "/") && !StartsWith(u, ".") then InternalPath
    else if StartsWith(u, ".") then Relative
    else Other
  }

  /** Lowercasing does not change whether a string starts with a prefix free of letters. */
  lemma LowerStartsWith(s: string, p: string)
    requires forall k :: 0 <= k < |p| ==> !('A' <= p[k] <= 'Z') && !('a' <= p[k] <= 'z')
    ensures StartsWith(Lower(s), p) <==> StartsWith(s, p)
  {
    if |p| <= |s| {
      if StartsWith(s, p) {
        assert forall k :: 0 <= k < |p| ==> Lower(s)[k] == LowerChar(s[k]) == p[k];
        assert Lower(s)[..|p|] == p;
      }
      if StartsWith(Lower(s), p) {
        forall k | 0 <= k < |p| ensures s[k] == p[k] {
          assert LowerChar(s[k]) == p[k];
        }
        assert s[..|p|] == p;
      }
    }
  }

  /** Lowercasing keeps a prefix without capital letters. */
  lemma LowerKeepsPrefix(s: string, p: string)
    requires forall k :: 0 <= k < |p| ==> !('A' <= p[k] <= 'Z')
    ensures StartsWith(s, p) ==> StartsWith(Lower(s), p)
  {
    if StartsWith(s, p) {
      assert forall k :: 0 <= k < |p| ==> Lower(s)[k] == LowerChar(s[k]) == p[k];
      assert Lower(s)[..|p|] == p;
    }
  }

  /** A link is checked against the filesystem exactly when its lowercased target
      starts with neither "http" nor '#' and either ends in ".md", holds a '/', or
      starts with '.'. */
  lemma CategorizeValidated(url: string)
    ensures var u := Lower(url);
      Validated(CategorizeLink(url))
      <==> !StartsWith(u, "http") && !StartsWith(u, "#") && (EndsWith(u, ".md") || Contains(u, "/") || StartsWith(u, "."))
  {
  }

  /** Anchors are exactly the targets that start with '#'; in particular a validated
      link never does. */
  lemma CategorizeAnchor(url: string)
    ensures CategorizeLink(url) == Anchor <==> StartsWith(url, "#")
    ensures Validated(CategorizeLink(url)) ==> !StartsWith(url, "#")
  {
    LowerStartsWith(url, "#");
    if StartsWith(Lower(url), "#") {
      assert Lower(url)[0] == '#' != "http"[0];
    }
  }

  /** Where `validate_internal_link` looked, or why it did not need to. */
  datatype Detail = AnchorNotValidated | FoundAt(path: PurePath) | Tried(paths: seq<PurePath>) | ExternalOrAnchor

  /** One candidate of `validate_internal_link` before the division: `dir / name`. */
  datatype Try = Try(dir: PurePath, name: string)

  /** The candidate files of `validate_internal_link`, in the order they are tried, for a
      link found in a file whose directory is `sourceDir`: the target cut at '#', next
      to the source and under the root; then, unless it ends in ".md", the same with
      ".md" added; then, for a target starting with '/', the target without its slash
      under the root, and that with ".md" added unless it ends in ".md". */
  function Tries(root: PurePath, sourceDir: PurePath, url: string): (c: seq<Try>)
    ensures 2 <= |c| <= 6
  {
    var u := CutAt(url, '#');
    var withMd := [Try(sourceDir, u), Try(root, u)]
      + (if !EndsWith(u, ".md") then [Try(sourceDir, u + ".md"), Try(root, u + ".md")] else []);
    if StartsWith(u, "/") then
      var v := u[1..];
      withMd + [Try(root, v)] + (if !EndsWith(v, ".md") then [Try(root, v + ".md")] else [])
    else withMd
  }

  /** The candidate paths: each division carried out. */
  function Candidates(root: PurePath, sourceDir: PurePath, url: string): (c: seq<PurePath>)
    ensures |c| == |Tries(root, sourceDir, url)|
    ensures forall k :: 0 <= k < |c| ==> c[k] == Div(Tries(root, sourceDir, url)[k].dir, Tries(root, sourceDir, url)[k].name)
  {
    var t := Tries(root, sourceDir, url);
    seq(|t|, k requires 0 <= k < |t| => Div(t[k].dir, t[k].name))
  }

  /** A target starting with '/' is an absolute path, so both of the first two
      candidates ignore the directories they are joined to and name that path from the
      filesystem root; only the later ones look under the wiki root. */
  lemma CandidatesRootRelative(root: PurePath, sourceDir: PurePath, url: string)
    requires StartsWith(CutAt(url, '#'), "/")
    ensures var c := Candidates(root, sourceDir, url);
      && c[0] == c[1] == Parse(CutAt(url, '#'))
      && c[0].absolute
      && Div(root, CutAt(url, '#')[1..]) in c
  {
    var u := CutAt(url, '#');
    assert Parse(u).absolute;
    var c := Candidates(root, sourceDir, url);
    assert c[|c| - 1] == Div(root, u[1..]) || c[|c| - 2] == Div(root, u[1..]);
  }

  /** A target without '/' or '#' and not ending in ".md" is looked for next to the
      source file, under the root, and then with ".md" added in the same two places. */
  lemma CandidatesPlain(root: PurePath, sourceDir: PurePath, url: string)
    requires '#' !in url && !StartsWith(url, "/") && !EndsWith(url, ".md")
    ensures Candidates(root, sourceDir, url)
      == [Div(sourceDir, url), Div(root, url), Div(sourceDir, url + ".md"), Div(root, url + ".md")]
  {
    assert CutAt(url, '#') == url;
  }

  /** `path.exists() and path.is_file()` */
  predicate IsExistingFile(fs: Fs, p: PurePath) {
    Exists(fs, p) && IsFile(fs, p)
  }

  /** The index of the first path in `paths` that is an existing regular file, if any. */
  function FirstFile(fs: Fs, paths: seq<PurePath>): (r: Option<nat>)
    ensures r.Some? ==>
      && r.value < |paths| && IsExistingFile(fs, paths[r.value])
      && forall k :: 0 <= k < r.value ==> !IsExistingFile(fs, paths[k])
    ensures r.None? ==> forall k :: 0 <= k < |paths| ==> !IsExistingFile(fs, paths[k])
  {
    if paths == [] then None
    else if IsExistingFile(fs, paths[0]) then Some(0)
    else match FirstFile(fs, paths[1..]) {
      case None => None
      case Some(k) => Some(k + 1)
    }
  }

  lemma {:induction false} FirstFileIs(fs: Fs, paths: seq<PurePath>, i: nat)
    requires i < |paths| && IsExistingFile(fs, paths[i])
    requires forall k :: 0 <= k < i ==> !IsExistingFile(fs, paths[k])
    ensures FirstFile(fs, paths) == Some(i)
  {
    if i > 0 {
      FirstFileIs(fs, paths[1..], i - 1);
    }
  }

  /** The loop of `validate_internal_link` that tries the candidates in order and stops
      at the first existing regular file. */
  method SearchCandidates(fs: Fs, paths: seq<PurePath>) returns (r: Option<nat>)
    ensures r == FirstFile(fs, paths)
  {
    var i := 0;
    while i < |paths|
      invariant 0 <= i <= |paths|
      invariant forall k :: 0 <= k < i ==> !IsExistingFile(fs, paths[k])
    {
      if IsExistingFile(fs, paths[i]) {
        FirstFileIs(fs, paths, i);
        return Some(i);
      }
      i := i + 1;
    }
    return None;
  }

  /** What `validate_internal_link` answers: a target starting with '#' is accepted
      unchecked; otherwise the first candidate that is an existing regular file is
      reported, and on failure the first three candidates are. */
  function Verdict(fs: Fs, root: PurePath, sourceFile: PurePath, url: string): (bool, Detail) {
    if StartsWith(url, "#") then (true, AnchorNotValidated)
    else
      var c := Candidates(root, Parent(sourceFile), url);
      match FirstFile(fs, c)
      case Some(k) => (true, FoundAt(c[k]))
      case None => (false, Tried(Take(c, 3)))
  }

  /** A link is valid exactly when it is an anchor or one of its candidates is an
      existing regular file; the path reported is a candidate that exists, and no
      earlier candidate does; a failure lists the first three candidates (fewer when
      there are fewer), none of which exists. */
  lemma VerdictSpec(fs: Fs, root: PurePath, sourceFile: PurePath, url: string)
    ensures var c := Candidates(root, Parent(sourceFile), url);
      var (valid, details) := Verdict(fs, root, sourceFile, url);
      && (valid <==> StartsWith(url, "#") || exists k :: 0 <= k < |c| && IsExistingFile(fs, c[k]))
      && (details.FoundAt? ==>
            exists k :: 0 <= k < |c| && c[k] == details.path && IsExistingFile(fs, c[k])
              && forall j :: 0 <= j < k ==> !IsExistingFile(fs, c[j]))
      && (details.Tried? ==> details.paths == Take(c, 3))
      && (details.Tried? ==> |details.paths| <= 3 && forall p :: p in details.paths ==> !IsExistingFile(fs, p))
  {
    var c := Candidates(root, Parent(sourceFile), url);
    if !StartsWith(url, "#") {
      match FirstFile(fs, c)
      case Some(k) =>
      case None =>
        forall p | p in Take(c, 3) ensures !IsExistingFile(fs, p) {
          var j :| 0 <= j < |Take(c, 3)| && Take(c, 3)[j] == p;
          assert p == c[j];
        }
    }
  }

  /** The list `possible_paths` of `validate_internal_link`, built one candidate at a time. */
  method PossiblePaths(root: PurePath, sourceDir: PurePath, url: string) returns (paths: seq<PurePath>)
    ensures paths == Candidates(root, sourceDir, url)
  {
    var u := CutAt(url, '#');
    var tries := [Try(sourceDir, u)];
    tries := tries + [Try(root, u)];
    if !EndsWith(u, ".md") {
      tries := tries + [Try(sourceDir, u + ".md")];
      tries := tries + [Try(root, u + ".md")];
    }
    if StartsWith(u, "/") {
      var v := u[1..];
      tries := tries + [Try(root, v)];
      if !EndsWith(v, ".md") {
        tries := tries + [Try(root, v + ".md")];
      }
    }
    assert tries == Tries(root, sourceDir, url);
    paths := seq(|tries|, k requires 0 <= k < |tries| => Div(tries[k].dir, tries[k].name));
  }

  /** `validate_internal_link`: a target starting with '#' is accepted unchecked;
      otherwise the candidates are tried in order, and the first existing regular file
      is reported; on failure the first three candidates are. */
  method ValidateInternalLink(fs: Fs, root: PurePath, sourceFile: PurePath, url: string)
    returns (valid: bool, details: Detail)
    ensures (valid, details) == Verdict(fs, root, sourceFile, url)
  {
    if StartsWith(url, "#") {
      return true, AnchorNotValidated;
    }
    var paths := PossiblePaths(root, Parent(sourceFile), url);
    var found := SearchCandidates(fs, paths);
    if found.Some? {
      return true, FoundAt(paths[found.value]);
    }
    return false, Tried(Take(paths, 3));
  }

  /** `link_result`: the link with its category, verdict, details and the source file
      relative to the wiki root. */
  datatype LinkResult = LinkResult(link: Link, category: Category, valid: bool, details: Detail, sourceFile: string)

  /** A per-file `Counter` of categories. */
  function Get(m: map<Category, nat>, c: Category): nat {
    if c in m then m[c] else 0
  }

  function Inc(m: map<Category, nat>, c: Category): map<Category, nat> {
    m[c := Get(m, c) + 1]
  }

  /** The sum of a category counter over all six categories. */
  function CounterTotal(m: map<Category, nat>): nat {
    Get(m, External) + Get(m, Anchor) + Get(m, InternalMd) + Get(m, InternalPath) + Get(m, Relative) + Get(m, Other)
  }

  /** Counting one more link of any category adds one to the counter's total. */
  lemma IncTotal(m: map<Category, nat>, c: Category)
    ensures CounterTotal(Inc(m, c)) == CounterTotal(m) + 1
    ensures Get(Inc(m, c), c) == Get(m, c) + 1
  {
    var n := Inc(m, c);
    assert forall d :: d != c ==> Get(n, d) == Get(m, d);
  }

  /** The `file_stats` entry of one file. */
  datatype FileStats = FileStats(totalLinks: nat, brokenLinks: nat, workingLinks: nat, categories: map<Category, nat>)

  /** The per-file counts add up: every link of the file is working or broken, and
      counted under exactly one category. */
  predicate StatsConsistent(s: FileStats) {
    s.workingLinks + s.brokenLinks == s.totalLinks && CounterTotal(s.categories) == s.totalLinks
  }

  /** The number of results of a validated category. */
  function ValidatedCount(rs: seq<LinkResult>): (n: nat)
    ensures n <= |rs|
  {
    if rs == [] then 0
    else ValidatedCount(rs[..|rs| - 1]) + (if Validated(rs[|rs| - 1].category) then 1 else 0)
  }

  /** The results listed under category `c` in `self.results['categories']`. */
  function ListedUnder(m: map<Category, seq<LinkResult>>, c: Category): seq<LinkResult> {
    if c in m then m[c] else []
  }

  /** The number of results listed under all six categories together. */
  function ListedTotal(m: map<Category, seq<LinkResult>>): nat {
    |ListedUnder(m, External)| + |ListedUnder(m, Anchor)| + |ListedUnder(m, InternalMd)|
    + |ListedUnder(m, InternalPath)| + |ListedUnder(m, Relative)| + |ListedUnder(m, Other)|
  }

  /** The number of results listed under the three validated categories together. */
  function ListedValidated(m: map<Category, seq<LinkResult>>): nat {
    |ListedUnder(m, InternalMd)| + |ListedUnder(m, InternalPath)| + |ListedUnder(m, Relative)|
  }

  /** Every result is listed under its own category. */
  ghost predicate ListedByCategory(m: map<Category, seq<LinkResult>>) {
    forall c, k :: 0 <= k < |ListedUnder(m, c)| ==> ListedUnder(m, c)[k].category == c
  }

  /** `self.results['categories'][category].append(link_result)` */
  function Append(m: map<Category, seq<LinkResult>>, r: LinkResult): map<Category, seq<LinkResult>> {
    m[r.category := ListedUnder(m, r.category) + [r]]
  }

  /** `self.results`, without its timestamp. */
  datatype Results = Results(
    totalFiles: nat,
    totalLinks: nat,
    brokenLinks: seq<LinkResult>,
    workingLinks: seq<LinkResult>,
    categories: map<Category, seq<LinkResult>>,
    fileStats: map<string, FileStats>)

  /** Every link counted is working or broken and listed under one category, and the
      links checked against the filesystem are those listed under the three validated
      categories. */
  ghost predicate Counted(res: Results) {
    && res.totalLinks == |res.workingLinks| + |res.brokenLinks|
    && res.totalLinks == ListedTotal(res.categories)
    && |res.brokenLinks| + ValidatedCount(res.workingLinks) == ListedValidated(res.categories)
  }

  /** Only links of a validated category are ever broken, broken links are invalid,
      working links valid, and every link is listed under its own category. */
  ghost predicate Filed(res: Results) {
    && (forall k :: 0 <= k < |res.brokenLinks| ==> Validated(res.brokenLinks[k].category) && !res.brokenLinks[k].valid)
    && (forall k :: 0 <= k < |res.workingLinks| ==> res.workingLinks[k].valid)
    && ListedByCategory(res.categories)
  }

  /** Every file's statistics add up. */
  ghost predicate StatsAddUp(res: Results) {
    forall f :: f in res.fileStats ==> StatsConsistent(res.fileStats[f])
  }

  /** What the results promise between files. */
  ghost predicate Consistent(res: Results) {
    Counted(res) && Filed(res) && StatsAddUp(res)
  }

  /** The results before any file is read. */
  function Fresh(): (res: Results)
    ensures Consistent(res)
  {
    Results(0, 0, [], [], map[], map[])
  }

  /** The result of one link: its category, and for a validated category the verdict
      of `validate_internal_link`; every other link is working without a lookup. */
  function Judge(fs: Fs, root: PurePath, filePath: PurePath, rel: string, link: Link): LinkResult {
    var c := CategorizeLink(link.url);
    if Validated(c) then
      var (valid, details) := Verdict(fs, root, filePath, link.url);
      LinkResult(link, c, valid, details, rel)
    else LinkResult(link, c, true, ExternalOrAnchor, rel)
  }

  /** Only a link of a validated category can be broken, and an anchor never is. */
  lemma JudgeBroken(fs: Fs, root: PurePath, filePath: PurePath, rel: string, link: Link)
    ensures var r := Judge(fs, root, filePath, rel, link);
      && r.category == CategorizeLink(link.url)
      && (!r.valid ==> Validated(r.category) && !StartsWith(link.url, "#"))
      && (!Validated(r.category) ==> r.valid && r.details == ExternalOrAnchor)
  {
    CategorizeAnchor(link.url);
  }

  /** One pass of the per-link loop of `validate_all_links`: the link is counted, filed
      as working or broken, and listed under its category. */
  function Record(res: Results, r: LinkResult): Results {
    var counted := res.(totalLinks := res.totalLinks + 1, categories := Append(res.categories, r));
    if r.valid then counted.(workingLinks := res.workingLinks + [r])
    else counted.(brokenLinks := res.brokenLinks + [r])
  }

  /** Listing one more result adds one to the total, and one to the validated total
      exactly when its category is validated. */
  lemma AppendListed(m: map<Category, seq<LinkResult>>, r: LinkResult)
    ensures ListedTotal(Append(m, r)) == ListedTotal(m) + 1
    ensures ListedValidated(Append(m, r)) == ListedValidated(m) + (if Validated(r.category) then 1 else 0)
    ensures ListedByCategory(m) ==> ListedByCategory(Append(m, r))
  {
    var n := Append(m, r);
    assert forall d :: d != r.category ==> ListedUnder(n, d) == ListedUnder(m, d);
    assert ListedUnder(n, r.category) == ListedUnder(m, r.category) + [r];
  }

  lemma ValidatedCountSnoc(rs: seq<LinkResult>, r: LinkResult)
    ensures ValidatedCount(rs + [r]) == ValidatedCount(rs) + (if Validated(r.category) then 1 else 0)
  {
    assert (rs + [r])[..|rs|] == rs;
  }

  /** Recording a link keeps the results consistent, provided only links of validated
      categories are broken. */
  lemma RecordConsistent(res: Results, r: LinkResult)
    requires Consistent(res)
    requires !r.valid ==> Validated(r.category)
    ensures Consistent(Record(res, r))
  {
    RecordCounted(res, r);
    RecordFiled(res, r);
  }

  lemma RecordCounted(res: Results, r: LinkResult)
    requires Counted(res)
    requires !r.valid ==> Validated(r.category)
    ensures Counted(Record(res, r))
  {
    AppendListed(res.categories, r);
    ValidatedCountSnoc(res.workingLinks, r);
  }

  lemma RecordFiled(res: Results, r: LinkResult)
    requires Filed(res)
    requires !r.valid ==> Validated(r.category)
    ensures Filed(Record(res, r))
  {
    AppendListed(res.categories, r);
  }

  /** Storing consistent statistics for a file keeps the results consistent. */
  lemma StoreStats(res: Results, name: string, s: FileStats)
    requires Consistent(res) && StatsConsistent(s)
    ensures Consistent(res.(fileStats := res.fileStats[name := s]))
  {
    var after := res.(fileStats := res.fileStats[name := s]);
    assert Counted(after) && Filed(after);
  }

  /** The per-link loop over `rs`, in order. */
  function RecordAll(res: Results, rs: seq<LinkResult>): Results {
    if rs == [] then res else Record(RecordAll(res, rs[..|rs| - 1]), rs[|rs| - 1])
  }

  /** No link of `rs` is broken unless its category is validated. */
  ghost predicate OnlyValidatedBroken(rs: seq<LinkResult>) {
    forall k :: 0 <= k < |rs| ==> rs[k].valid || Validated(rs[k].category)
  }

  /** The per-link loop keeps the results consistent and counts every link once. */
  lemma {:induction false} RecordAllConsistent(res: Results, rs: seq<LinkResult>)
    requires Consistent(res)
    requires OnlyValidatedBroken(rs)
    ensures Consistent(RecordAll(res, rs))
    ensures RecordAll(res, rs).totalLinks == res.totalLinks + |rs|
    ensures RecordAll(res, rs).fileStats == res.fileStats && RecordAll(res, rs).totalFiles == res.totalFiles
  {
    if rs != [] {
      var p := rs[..|rs| - 1];
      RecordAllConsistent(res, p);
      RecordConsistent(RecordAll(res, p), rs[|rs| - 1]);
    }
  }

  /** One link counted in a file's statistics as working or broken, and under its
      category. */
  function Tick(s: FileStats, r: LinkResult): FileStats {
    var t := s.(categories := Inc(s.categories, r.category));
    if r.valid then t.(workingLinks := s.workingLinks + 1) else t.(brokenLinks := s.brokenLinks + 1)
  }

  function TickAll(s: FileStats, rs: seq<LinkResult>): FileStats {
    if rs == [] then s else Tick(TickAll(s, rs[..|rs| - 1]), rs[|rs| - 1])
  }

  /** The `file_stats` entry of a file whose links have the results `rs`: `total_links`
      set from the number of links before they are counted one by one. */
  function StatsOf(rs: seq<LinkResult>): FileStats {
    TickAll(FileStats(|rs|, 0, 0, map[]), rs)
  }

  lemma {:induction false} TickAllCounts(s: FileStats, rs: seq<LinkResult>)
    ensures var t := TickAll(s, rs);
      && t.totalLinks == s.totalLinks
      && t.workingLinks + t.brokenLinks == s.workingLinks + s.brokenLinks + |rs|
      && CounterTotal(t.categories) == CounterTotal(s.categories) + |rs|
      && t.brokenLinks == s.brokenLinks + |Broken(rs)|
  {
    if rs != [] {
      TickAllCounts(s, rs[..|rs| - 1]);
      IncTotal(TickAll(s, rs[..|rs| - 1]).categories, rs[|rs| - 1].category);
    }
  }

  /** A file's statistics add up, count each of its links once, and count as broken
      exactly the links that are. */
  lemma StatsOfConsistent(rs: seq<LinkResult>)
    ensures StatsConsistent(StatsOf(rs))
    ensures StatsOf(rs).totalLinks == |rs|
    ensures StatsOf(rs).brokenLinks == |Broken(rs)|
  {
    TickAllCounts(FileStats(|rs|, 0, 0, map[]), rs);
  }

  /** The invalid results of `rs`, in order. */
  function Broken(rs: seq<LinkResult>): seq<LinkResult> {
    if rs == [] then [] else Broken(rs[..|rs| - 1]) + (if rs[|rs| - 1].valid then [] else [rs[|rs| - 1]])
  }

  /** The path of a file found under the wiki root at `rel`. */
  function FilePath(root: PurePath, rel: seq<string>): PurePath {
    PurePath(root.absolute, root.parts + rel)
  }

  /** `str(file_path.relative_to(self.wiki_root))` */
  function RelName(rel: seq<string>): string {
    ToString(PurePath(false, rel))
  }

  /** The results of the links of the file at `rel`, in the order they are extracted. */
  function FileResults(fs: Fs, root: PurePath, rel: seq<string>, content: string): (rs: seq<LinkResult>)
    ensures |rs| == |Extracted(content, ToString(FilePath(root, rel)))|
  {
    JudgeAll(fs, root, rel, Extracted(content, ToString(FilePath(root, rel))))
  }

  /** The results of `links`, found in the file at `rel`, in order. */
  function JudgeAll(fs: Fs, root: PurePath, rel: seq<string>, links: seq<Link>): (rs: seq<LinkResult>)
    ensures |rs| == |links|
  {
    seq(|links|, k requires 0 <= k < |links| => Judge(fs, root, FilePath(root, rel), RelName(rel), links[k]))
  }

  lemma FileResultsBroken(fs: Fs, root: PurePath, rel: seq<string>, content: string)
    ensures OnlyValidatedBroken(FileResults(fs, root, rel, content))
  {
    var links := Extracted(content, ToString(FilePath(root, rel)));
    forall k | 0 <= k < |links|
      ensures JudgeAll(fs, root, rel, links)[k].valid || Validated(JudgeAll(fs, root, rel, links)[k].category)
    {
      JudgeBroken(fs, root, FilePath(root, rel), RelName(rel), links[k]);
    }
  }

  /** One readable file of `validate_all_links`: its links recorded one by one, then its
      statistics stored under its path relative to the root. */
  function RecordFile(res: Results, rel: seq<string>, rs: seq<LinkResult>): Results {
    var after := RecordAll(res, rs);
    after.(fileStats := after.fileStats[RelName(rel) := StatsOf(rs)])
  }

  /** `validate_all_links` over the files the walk yields (`total_files` already set). A
      file missing from `contents` cannot be read: it is skipped. */
  function Walk(fs: Fs, root: PurePath, res: Results, files: seq<seq<string>>, contents: map<seq<string>, string>): Results {
    if files == [] then res
    else
      var before := Walk(fs, root, res, files[..|files| - 1], contents);
      var rel := files[|files| - 1];
      if rel in contents then RecordFile(before, rel, FileResults(fs, root, rel, contents[rel]))
      else before
  }

  /** The number of links in the readable files of `files`. */
  function LinkCount(root: PurePath, files: seq<seq<string>>, contents: map<seq<string>, string>): nat {
    if files == [] then 0
    else
      var rel := files[|files| - 1];
      LinkCount(root, files[..|files| - 1], contents)
      + (if rel in contents then |Extracted(contents[rel], ToString(FilePath(root, rel)))| else 0)
  }

  /** Recording a readable file keeps the results consistent, counts each of its
      links once, and stores its statistics. */
  lemma RecordFileConsistent(fs: Fs, root: PurePath, res: Results, rel: seq<string>, content: string)
    requires Consistent(res)
    ensures var after := RecordFile(res, rel, FileResults(fs, root, rel, content));
      && Consistent(after)
      && after.totalLinks == res.totalLinks + |Extracted(content, ToString(FilePath(root, rel)))|
      && after.totalFiles == res.totalFiles
      && after.fileStats.Keys == res.fileStats.Keys + {RelName(rel)}
  {
    var rs := FileResults(fs, root, rel, content);
    FileResultsBroken(fs, root, rel, content);
    RecordAllConsistent(res, rs);
    StatsOfConsistent(rs);
    StoreStats(RecordAll(res, rs), RelName(rel), StatsOf(rs));
  }

  /** The walk keeps the results consistent, and `total_links` grows by exactly the
      number of links in the readable files, unreadable files adding nothing. */
  lemma {:induction false} WalkConsistent(fs: Fs, root: PurePath, res: Results, files: seq<seq<string>>, contents: map<seq<string>, string>)
    requires Consistent(res)
    ensures var after := Walk(fs, root, res, files, contents);
      && Consistent(after)
      && after.totalLinks == res.totalLinks + LinkCount(root, files, contents)
      && after.totalFiles == res.totalFiles
  {
    if files != [] {
      var p := files[..|files| - 1];
      var rel := files[|files| - 1];
      WalkConsistent(fs, root, res, p, contents);
      if rel in contents {
        RecordFileConsistent(fs, root, Walk(fs, root, res, p, contents), rel, contents[rel]);
      }
    }
  }

  /** The names, relative to the root, of the readable files of `files`. */
  function ReadNames(files: seq<seq<string>>, contents: map<seq<string>, string>): set<string> {
    if files == [] then {}
    else
      var rel := files[|files| - 1];
      ReadNames(files[..|files| - 1], contents) + (if rel in contents then {RelName(rel)} else {})
  }

  /** A name is read exactly when some readable file of the walk has it. */
  lemma {:induction false} ReadNamesSpec(files: seq<seq<string>>, contents: map<seq<string>, string>, name: string)
    ensures name in ReadNames(files, contents)
      <==> exists k :: 0 <= k < |files| && files[k] in contents && RelName(files[k]) == name
  {
    if files != [] {
      var p := files[..|files| - 1];
      ReadNamesSpec(p, contents, name);
      if name in ReadNames(p, contents) {
        var k :| 0 <= k < |p| && p[k] in contents && RelName(p[k]) == name;
        assert files[k] == p[k];
      }
      if exists k :: 0 <= k < |files| && files[k] in contents && RelName(files[k]) == name {
        var k :| 0 <= k < |files| && files[k] in contents && RelName(files[k]) == name;
        if k < |p| {
          assert p[k] == files[k];
        }
      }
    }
  }

  /** After the walk, the files with statistics are those that had them before and the
      readable files of the walk. */
  lemma {:induction false} WalkStats(fs: Fs, root: PurePath, res: Results, files: seq<seq<string>>, contents: map<seq<string>, string>)
    ensures Walk(fs, root, res, files, contents).fileStats.Keys == res.fileStats.Keys + ReadNames(files, contents)
  {
    if files != [] {
      var p := files[..|files| - 1];
      var rel := files[|files| - 1];
      WalkStats(fs, root, res, p, contents);
      if rel in contents {
        RecordAllStats(Walk(fs, root, res, p, contents), FileResults(fs, root, rel, contents[rel]));
      }
    }
  }

  /** The per-link loop leaves the per-file statistics alone. */
  lemma {:induction false} RecordAllStats(res: Results, rs: seq<LinkResult>)
    ensures RecordAll(res, rs).fileStats == res.fileStats
  {
    if rs != [] {
      RecordAllStats(res, rs[..|rs| - 1]);
    }
  }

  /** `generate_report`'s internal total: the broken links and the working links of a
      validated category. */
  function InternalTotal(res: Results): nat {
    |res.brokenLinks| + ValidatedCount(res.workingLinks)
  }

  /** The internal total counts exactly the links listed under the three validated
      categories, and never more than all links. */
  lemma InternalTotalListed(res: Results)
    requires Consistent(res)
    ensures InternalTotal(res) == ListedValidated(res.categories)
    ensures InternalTotal(res) <= res.totalLinks
  {
  }

  /** `WikiLinkValidator`: the wiki root, the filesystem it looks at, and `self.results`. */
  class Validator {
    const root: PurePath
    const fs: Fs
    var results: Results

    ghost predicate Valid()
      reads this
    {
      Consistent(results)
    }

    constructor(root: PurePath, fs: Fs)
      ensures Valid()
      ensures this.root == root && this.fs == fs && results == Fresh()
    {
      this.root := root;
      this.fs := fs;
      results := Fresh();
    }

    /** The body of the per-link loop of `validate_all_links`. */
    method ProcessLink(link: Link, filePath: PurePath, rel: string) returns (r: LinkResult)
      requires Valid()
      modifies this
      ensures Valid()
      ensures r == Judge(fs, root, filePath, rel, link)
      ensures results == Record(old(results), r)
    {
      var category := CategorizeLink(link.url);
      if Validated(category) {
        var valid, details := ValidateInternalLink(fs, root, filePath, link.url);
        r := LinkResult(link, category, valid, details, rel);
      } else {
        r := LinkResult(link, category, true, ExternalOrAnchor, rel);
      }
      JudgeBroken(fs, root, filePath, rel, link);
      RecordConsistent(results, r);
      results := Record(results, r);
    }

    /** The per-link loop of one file of `validate_all_links`: process each link while
        counting it in the file's statistics. */
    method ProcessLinks(rel: seq<string>, links: seq<Link>) returns (stats: FileStats)
      requires Valid()
      modifies this
      ensures Valid()
      ensures results == RecordAll(old(results), JudgeAll(fs, root, rel, links))
      ensures stats == StatsOf(JudgeAll(fs, root, rel, links))
    {
      var filePath := FilePath(root, rel);
      var relName := RelName(rel);
      ghost var rs := JudgeAll(fs, root, rel, links);
      stats := FileStats(|links|, 0, 0, map[]);
      for k := 0 to |links|
        invariant Valid()
        invariant results == RecordAll(old(results), rs[..k])
        invariant stats == TickAll(FileStats(|rs|, 0, 0, map[]), rs[..k])
      {
        var r := ProcessLink(links[k], filePath, relName);
        assert r == rs[k];
        PrefixSnoc(rs, k);
        stats := Tick(stats, r);
      }
      assert rs[..|links|] == rs;
    }

    /** One readable file of `validate_all_links`: extract its links, process them, then
        store the file's statistics under its path relative to the root. */
    method ProcessFile(rel: seq<string>, content: string)
      requires Valid()
      modifies this
      ensures Valid()
      ensures results == RecordFile(old(results), rel, FileResults(fs, root, rel, content))
    {
      var links := ExtractLinks(content, ToString(FilePath(root, rel)));
      var stats := ProcessLinks(rel, links);
      StatsOfConsistent(JudgeAll(fs, root, rel, links));
      StoreStats(results, RelName(rel), stats);
      results := results.(fileStats := results.fileStats[RelName(rel) := stats]);
    }

    /** `validate_all_links` over the files the walk yields, as paths relative to the root. */
    method ValidateAllLinks(files: seq<seq<string>>, contents: map<seq<string>, string>)
      requires Valid()
      modifies this
      ensures Valid()
      ensures results == Walk(fs, root, old(results).(totalFiles := |files|), files, contents)
    {
      results := results.(totalFiles := |files|);
      ghost var start := results;
      for i := 0 to |files|
        invariant Valid()
        invariant results == Walk(fs, root, start, files[..i], contents)
      {
        assert files[..i + 1][..i] == files[..i];
        if files[i] in contents {
          ProcessFile(files[i], contents[files[i]]);
        }
      }
      assert files[..|files|] == files;
    }
  }
}
