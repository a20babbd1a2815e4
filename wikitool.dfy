/** The wiki health checker of `tools/validate_wiki_links.py`: it walks the wiki for
    Markdown files, extracts every inline link with its line number, classifies and
    checks each link, tallies the results in a validator object and reports a health
    percentage, a grade and an exit code. */
module WikiTool {
  import opened Text
  import opened Wrappers
  import opened Scanner
  import opened OsPath
  import opened Disk
  import opened Ranking

  // ---------------------------------------------------------------------------------
  // The walk

  /** A directory as `os.walk` lists it: its name, its subdirectories and its file
      names, each in listing order. */
  datatype Dir = Dir(name: string, dirs: seq<Dir>, files: seq<string>)

  /** The subdirectories `validate_wiki` prunes from the walk. */
  predicate Pruned(name: string) {
    StartsWith(name, ".") || name == "venv" || name == "node_modules"
  }

  /** The names among `files` ending in ".md", each as a one-component path. */
  function MdHere(files: seq<string>): seq<seq<string>> {
    if files == [] then []
    else MdHere(files[..|files| - 1]) + (if EndsWith(files[|files| - 1], ".md") then [[files[|files| - 1]]] else [])
  }

  /** Each of `paths` placed under the directory `name`. */
  function Under(name: string, paths: seq<seq<string>>): (r: seq<seq<string>>)
    ensures |r| == |paths| && forall k :: 0 <= k < |r| ==> r[k] == [name] + paths[k]
  {
    seq(|paths|, k requires 0 <= k < |paths| => [name] + paths[k])
  }

  /** The files a walk of one subdirectory contributes: none when it is pruned. */
  function Branches(d: Dir): seq<seq<seq<string>>>
    decreases d, 0
  {
    seq(|d.dirs|, k requires 0 <= k < |d.dirs| =>
      if Pruned(d.dirs[k].name) then [] else Under(d.dirs[k].name, MdFiles(d.dirs[k])))
  }

  /** The ".md" files `validate_wiki` collects below `d`, as component paths relative
      to `d`, in the order of a top-down walk: the files of `d`, then those below each
      subdirectory that is not pruned. */
  function MdFiles(d: Dir): seq<seq<string>>
    decreases d, 1
  {
    MdHere(d.files) + Flatten(Branches(d))
  }

  /** A path the walk may yield: a file ending in ".md" under directories none of
      which is pruned. */
  predicate MdPath(p: seq<string>) {
    && p != []
    && EndsWith(p[|p| - 1], ".md")
    && forall k :: 0 <= k < |p| - 1 ==> !Pruned(p[k])
  }

  lemma {:induction false} MdHereSpec(files: seq<string>)
    ensures forall p :: p in MdHere(files) ==> MdPath(p) && p[0] in files
  {
    if files != [] {
      MdHereSpec(files[..|files| - 1]);
    }
  }

  /** Paths the walk may yield stay so under a directory that is not pruned. */
  lemma UnderMdPath(name: string, ps: seq<seq<string>>)
    requires !Pruned(name)
    requires forall p :: p in ps ==> MdPath(p)
    ensures forall p :: p in Under(name, ps) ==> MdPath(p)
  {
    forall p | p in Under(name, ps) ensures MdPath(p) {
      var i :| 0 <= i < |ps| && Under(name, ps)[i] == p;
      var q := ps[i];
      assert p == [name] + q;
      assert q in ps;
      assert p[|p| - 1] == q[|q| - 1];
      forall j | 0 <= j < |p| - 1 ensures !Pruned(p[j]) {
        if j > 0 {
          assert p[j] == q[j - 1];
        }
      }
    }
  }

  /** Every file the walk collects ends in ".md" and lies under no pruned directory. */
  lemma {:induction false} MdFilesSpec(d: Dir)
    ensures forall p :: p in MdFiles(d) ==> MdPath(p)
    decreases d
  {
    MdHereSpec(d.files);
    var bs := Branches(d);
    forall k | 0 <= k < |bs| ensures forall p :: p in bs[k] ==> MdPath(p) {
      if !Pruned(d.dirs[k].name) {
        MdFilesSpec(d.dirs[k]);
        UnderMdPath(d.dirs[k].name, MdFiles(d.dirs[k]));
      }
    }
    forall p | p in MdFiles(d) ensures MdPath(p) {
      if p !in MdHere(d.files) {
        FlattenIn(bs, p);
      }
    }
  }

  /** The path string `os.walk` builds for the component path `p` below `top`: each
      directory and then the file joined onto the one before. */
  function PathString(top: string, p: seq<string>): string {
    if p == [] then top else Join(PathString(top, p[..|p| - 1]), p[|p| - 1])
  }

  /** The path strings of the walk's ".md" files, as `md_files` holds them. */
  function MdFileNames(top: string, d: Dir): (r: seq<string>)
    ensures |r| == |MdFiles(d)|
  {
    var ps := MdFiles(d);
    seq(|ps|, k requires 0 <= k < |ps| => PathString(top, ps[k]))
  }

  /** `os.path.join` keeps the name it appends at the end. */
  lemma JoinEndsWith(a: string, b: string, suffix: string)
    requires EndsWith(b, suffix)
    ensures EndsWith(Join(a, b), suffix)
  {
    if !StartsWith(b, "/") {
      var j := Join(a, b);
      assert j[|j| - |b|..] == b;
      assert j[|j| - |suffix|..] == j[|j| - |b|..][|b| - |suffix|..];
    }
  }

  /** Every name in `md_files` ends in ".md". */
  lemma MdFileNamesSpec(top: string, d: Dir)
    ensures forall k :: 0 <= k < |MdFileNames(top, d)| ==> EndsWith(MdFileNames(top, d)[k], ".md")
  {
    MdFilesSpec(d);
    var ps := MdFiles(d);
    forall k | 0 <= k < |ps| ensures EndsWith(MdFileNames(top, d)[k], ".md") {
      assert ps[k] in ps;
      var p := ps[k];
      JoinEndsWith(PathString(top, p[..|p| - 1]), p[|p| - 1], ".md");
    }
  }

  // ---------------------------------------------------------------------------------
  // Link extraction

  /** One link as `extract_links_from_file` records it. */
  datatype WikiLink = WikiLink(text: string, url: string, file: string, line: nat)

  /** Python's `s[:i]`: a negative `i` counts from the end of `s`. */
  function PyPrefix(s: string, i: int): (r: string)
    ensures r <= s
  {
    if i < 0 then (if |s| + i < 0 then [] else s[..|s| + i])
    else if i > |s| then s else s[..i]
  }

  /** The line number of index `i` of `content`: one more than the newlines before it. */
  function LineAt(content: string, i: nat): nat {
    CountChar(if i <= |content| then content[..i] else content, '\n') + 1
  }

  /** The line `extract_links_from_file` records for a link: one more than the number
      of newlines before the first occurrence of the link's text in the file. */
  function LineOf(content: string, text: string, url: string): (n: nat)
    ensures 1 <= n <= CountChar(content, '\n') + 1
  {
    var p := PyPrefix(content, Find(content, "[" + text + "](" + url + ")"));
    assert content == p + content[|p|..];
    CountCharAppend(p, content[|p|..], '\n');
    CountChar(PyPrefix(content, Find(content, "[" + text + "](" + url + ")")), '\n') + 1
  }

  /** The record of the match `m` of the file `file` whose text is `content`. */
  function Link(file: string, content: string, m: (string, string)): WikiLink {
    WikiLink(m.0, m.1, file, LineOf(content, m.0, m.1))
  }

  /** The links `extract_links_from_file` returns for the file `file` whose text is
      `content` (`None` when reading it fails): one per match of the inline pattern,
      in order. */
  function FileLinks(file: string, content: Option<string>): (r: seq<WikiLink>)
    ensures content.None? ==> r == []
    ensures content.Some? ==> |r| == |Matches(Inline(1), content.value)|
  {
    if content.None? then []
    else
      var ms := Matches(Inline(1), content.value);
      seq(|ms|, k requires 0 <= k < |ms| => Link(file, content.value, ms[k]))
  }

  /** Every link found has a non-empty text without ']' and a non-empty url without
      ')', belongs to its file, and the links are those the pattern matches, in order. */
  lemma FileLinksSpec(file: string, content: string)
    ensures var r := FileLinks(file, Some(content));
      forall k :: 0 <= k < |r| ==>
        && (r[k].text, r[k].url) == Matches(Inline(1), content)[k]
        && r[k].file == file
        && |r[k].text| > 0 && ']' !in r[k].text && |r[k].url| > 0 && ')' !in r[k].url
  {
    MatchesAccepted(Inline(1), content);
  }

  /** For a link whose text occurs at `i`, the recorded line is never past the line
      of `i`, and is that line when the text does not occur earlier. */
  lemma LineOfAt(c: string, text: string, url: string, i: nat)
    requires OccursAt(c, Render(Inline(1), text, url), i)
    ensures 1 <= LineOf(c, text, url) <= LineAt(c, i)
    ensures (forall j :: 0 <= j < i ==> !OccursAt(c, Render(Inline(1), text, url), j))
      ==> LineOf(c, text, url) == LineAt(c, i)
  {
    var needle := "[" + text + "](" + url + ")";
    assert Contains(c, needle);
    var f := Find(c, needle);
    assert 0 <= f <= i;
    assert PyPrefix(c, f) == c[..f];
    CountCharPrefix(c, f, i, '\n');
  }

  /** The line recorded for the `k`-th link is never past the line on which its match
      starts, and is exactly that line when its text does not occur earlier. */
  lemma LineSpec(file: string, c: string, k: nat)
    requires k < |FileLinks(file, Some(c))|
    ensures var l := FileLinks(file, Some(c))[k];
      var h := FindAll(Inline(1), c)[k];
      && 1 <= l.line <= LineAt(c, h.start)
      && ((forall j :: 0 <= j < h.start ==> !OccursAt(c, Render(Inline(1), l.text, l.url), j))
          ==> l.line == LineAt(c, h.start))
  {
    var hits := FindAll(Inline(1), c);
    FindAllSound(Inline(1), c);
    var h := hits[k];
    assert IsMatch(Inline(1), c, h);
    var l := FileLinks(file, Some(c))[k];
    assert (l.text, l.url) == Matches(Inline(1), c)[k] == (h.group1, h.group2);
    LineOfAt(c, l.text, l.url, h.start);
  }

  /** The three links ("a", "b"), ("\n", "c") and ("a", "b") written out. */
  lemma ExampleText(ls: seq<(string, string)>)
    requires ls == [("a", "b"), ("\n", "c"), ("a", "b")]
    ensures RenderAll(Inline(1), ls) == "[a](b)[\n](c)[a](b)"
  {
    var r := Rendered(Inline(1), ls);
    assert r[0] == "[a](b)" && r[1] == "[\n](c)" && r[2] == "[a](b)";
    assert r[2..][1..] == [];
    assert Concat(r[2..]) == "[a](b)";
    assert r[1..][1..] == r[2..];
    assert Concat(r[1..]) == "[\n](c)" + "[a](b)";
  }

  lemma ExampleFirstLine(c: string)
    requires c == "[a](b)[\n](c)[a](b)"
    ensures LineOf(c, "a", "b") == 1
  {
    assert OccursAt(c, "[a](b)", 0);
    assert Find(c, "[a](b)") == 0;
    assert c[..0] == "";
  }

  lemma ExampleSecondFind(c: string)
    requires c == "[a](b)[\n](c)[a](b)"
    ensures Find(c, "[\n](c)") == 6 && c[..6] == "[a](b)"
  {
    var n := "[\n](c)";
    assert c == "[a](b)" + n + "[a](b)";
    assert OccursAt(c, n, 6);
    assert c[1] == 'a' && c[2] == ']' && c[3] == '(' && c[4] == 'b' && c[5] == ')' && c[6] == '[';
    forall j | 0 <= j < 6 ensures !OccursAt(c, n, j) {
      assert c[j..j + 6][1] == c[j + 1] != n[1];
    }
  }

  lemma ExampleSecondLine(c: string)
    requires c == "[a](b)[\n](c)[a](b)"
    ensures LineOf(c, "\n", "c") == 1
  {
    ExampleSecondFind(c);
    assert "[" + "\n" + "](" + "c" + ")" == "[\n](c)";
    NoNewline("[a](b)");
  }

  lemma {:induction false} NoNewline(s: string)
    requires '\n' !in s
    ensures CountChar(s, '\n') == 0
  {
    if s != [] {
      assert s[0] != '\n' && '\n' !in s[1..];
      NoNewline(s[1..]);
    }
  }

  lemma ExampleLineAt(c: string)
    requires c == "[a](b)[\n](c)[a](b)"
    ensures OccursAt(c, "[a](b)", 12) && LineAt(c, 12) == 2
  {
    var n := "[\n](c)";
    ExamplePieces(c, "[a](b)", n);
    CountCharAppend("[a](b)", n, '\n');
    NoNewline("[a](b)");
    OneNewline(n);
  }

  lemma ExamplePieces(c: string, l: string, n: string)
    requires c == "[a](b)[\n](c)[a](b)" && l == "[a](b)" && n == "[\n](c)"
    ensures c == l + n + l && OccursAt(c, l, 12) && c[..12] == l + n
  {
    assert c == l + n + l;
    assert (l + n + l)[12..18] == l;
    assert (l + n + l)[..12] == l + n;
  }

  lemma OneNewline(n: string)
    requires n == "[\n](c)"
    ensures CountChar(n, '\n') == 1
  {
    NoNewline(n[2..]);
    assert n[1..][1..] == n[2..];
  }

  /** Identical links share the line of the first: in "[a](b)[\n](c)[a](b)" the third
      link stands after a newline, on line 2, but is recorded on line 1. */
  lemma RepeatedLinkLine(file: string, c: string)
    requires c == "[a](b)[\n](c)[a](b)"
    ensures FileLinks(file, Some(c))
      == [WikiLink("a", "b", file, 1), WikiLink("\n", "c", file, 1), WikiLink("a", "b", file, 1)]
    ensures OccursAt(c, "[a](b)", 12) && LineAt(c, 12) == 2
  {
    ExampleMatches(c);
    ExampleFirstLine(c);
    ExampleSecondLine(c);
    ExampleLineAt(c);
  }

  lemma ExampleMatches(c: string)
    requires c == "[a](b)[\n](c)[a](b)"
    ensures Matches(Inline(1), c) == [("a", "b"), ("\n", "c"), ("a", "b")]
  {
    var ls := [("a", "b"), ("\n", "c"), ("a", "b")];
    ExampleText(ls);
    MatchesRenderAll(Inline(1), ls);
  }

  /** Reading a file of the walk: `None` models a read that raises. */
  function Read(contents: map<string, string>, path: string): Option<string> {
    if path in contents then Some(contents[path]) else None
  }

  /** The links of the files `paths`, file after file, as `validate_wiki` gathers them. */
  function AllLinks(paths: seq<string>, contents: map<string, string>): seq<WikiLink> {
    if paths == [] then []
    else AllLinks(paths[..|paths| - 1], contents) + FileLinks(paths[|paths| - 1], Read(contents, paths[|paths| - 1]))
  }

  // ---------------------------------------------------------------------------------
  // Classification and checking

  /** The kinds `validate_link` sorts links into. */
  datatype LinkType = External | Anchor | Internal | Empty

  /** The url has one of the four external prefixes. */
  predicate ExternalUrl(u: string) {
    StartsWith(u, "http://") || StartsWith(u, "https://") || StartsWith(u, "ftp://") || StartsWith(u, "mailto:")
  }

  /** The path `validate_link` checks for the fragment-free url `u`: one starting with
      '/' is joined, after that character, onto the wiki root; any other is joined onto
      the directory of the linking file and normalised. */
  function Target(basePath: string, u: string, currentFile: string): string
    requires u != ""
  {
    if StartsWith(u, "/") then Join(basePath, u[1..])
    else Normpath(Join(Dirname(currentFile), u))
  }

  /** `validate_link`: whether the link works, and its kind. */
  function ValidateLink(fs: Fs, basePath: string, url: string, currentFile: string): (r: (bool, LinkType))
    ensures !r.0 ==> r.1 == Internal
    ensures r.1 == Empty ==> url == ""
  {
    var u := CutAt(url, '#');
    if ExternalUrl(u) then (true, External)
    else if StartsWith(url, "#") then (true, Anchor)
    else if u != "" then
      var t := Target(basePath, u, currentFile);
      if OsExists(fs, t) then (true, Internal)
      else if !EndsWith(t, ".md") && OsExists(fs, t + ".md") then (true, Internal)
      else if OsIsDir(fs, t) && OsExists(fs, Join(t, "index.md")) then (true, Internal)
      else (false, Internal)
    else (true, Empty)
  }

  /** The kind of a link is decided by its url alone: external by the prefix of the url
      without its fragment, an anchor when it starts with '#', empty exactly when the
      url is empty, internal otherwise. Only internal links fail, and an internal link
      works exactly when its target exists or, not ending in ".md", exists with ".md"
      appended: a directory always exists, so the "index.md" check never decides. */
  lemma ValidateLinkSpec(fs: Fs, basePath: string, url: string, currentFile: string)
    ensures var (ok, kind) := ValidateLink(fs, basePath, url, currentFile);
      var u := CutAt(url, '#');
      && (kind == External <==> ExternalUrl(u))
      && (kind == Anchor <==> !ExternalUrl(u) && StartsWith(url, "#"))
      && (kind == Empty <==> url == "")
      && (kind == Internal <==> !ExternalUrl(u) && !StartsWith(url, "#") && url != "")
      && (!ok ==> kind == Internal)
      && (kind == Internal ==>
            (ok <==> (|| OsExists(fs, Target(basePath, u, currentFile))
                      || (!EndsWith(Target(basePath, u, currentFile), ".md")
                          && OsExists(fs, Target(basePath, u, currentFile) + ".md")))))
  {
    var u := CutAt(url, '#');
    if u == "" && url != "" {
      assert url[0] == '#';
      assert StartsWith(url, "#");
    }
    if u != "" {
      assert url != "";
    }
  }

  /** No link the extractor finds is of the empty kind: its url is never empty. */
  lemma ExtractedNeverEmpty(fs: Fs, basePath: string, file: string, content: string)
    ensures forall l :: l in FileLinks(file, Some(content)) ==> ValidateLink(fs, basePath, l.url, l.file).1 != Empty
  {
    FileLinksSpec(file, content);
    forall l | l in FileLinks(file, Some(content)) ensures ValidateLink(fs, basePath, l.url, l.file).1 != Empty {
      ValidateLinkSpec(fs, basePath, l.url, l.file);
    }
  }

  /** The verdict `validate_wiki` asks of each link. */
  function Judge(fs: Fs, basePath: string): WikiLink -> (bool, LinkType) {
    (l: WikiLink) => ValidateLink(fs, basePath, l.url, l.file)
  }

  // ---------------------------------------------------------------------------------
  // Tallies

  /** `link_types[t]` of a `defaultdict(int)`. */
  function Get(m: map<LinkType, nat>, t: LinkType): nat {
    if t in m then m[t] else 0
  }

  /** `link_types[t] += 1` */
  function Inc(m: map<LinkType, nat>, t: LinkType): (r: map<LinkType, nat>)
    ensures Get(r, t) == Get(m, t) + 1
    ensures forall t' :: t' != t ==> Get(r, t') == Get(m, t')
  {
    m[t := Get(m, t) + 1]
  }

  /** The sum of the counts of all kinds. */
  function TypesTotal(m: map<LinkType, nat>): nat {
    Get(m, External) + Get(m, Anchor) + Get(m, Internal) + Get(m, Empty)
  }

  /** The number of links of `ls` the judge accepts. */
  function Working<T>(ls: seq<T>, judge: T -> (bool, LinkType)): nat {
    if ls == [] then 0
    else Working(ls[..|ls| - 1], judge) + (if judge(ls[|ls| - 1]).0 then 1 else 0)
  }

  /** The links of `ls` the judge rejects, in order. */
  function Broken<T>(ls: seq<T>, judge: T -> (bool, LinkType)): seq<T> {
    if ls == [] then []
    else Broken(ls[..|ls| - 1], judge) + (if judge(ls[|ls| - 1]).0 then [] else [ls[|ls| - 1]])
  }

  /** `m` with the kind of every link of `ls` counted once more. */
  function Types<T>(m: map<LinkType, nat>, ls: seq<T>, judge: T -> (bool, LinkType)): map<LinkType, nat> {
    if ls == [] then m
    else Inc(Types(m, ls[..|ls| - 1], judge), judge(ls[|ls| - 1]).1)
  }

  /** Every link is counted once as working or broken, and once under its kind. */
  lemma {:induction false} Tallied<T>(m: map<LinkType, nat>, ls: seq<T>, judge: T -> (bool, LinkType))
    ensures Working(ls, judge) + |Broken(ls, judge)| == |ls|
    ensures TypesTotal(Types(m, ls, judge)) == TypesTotal(m) + |ls|
  {
    if ls != [] {
      Tallied(m, ls[..|ls| - 1], judge);
    }
  }

  /** The broken links are exactly the links the judge rejects. */
  lemma {:induction false} BrokenSpec<T>(ls: seq<T>, judge: T -> (bool, LinkType))
    ensures forall x :: x in Broken(ls, judge) <==> x in ls && !judge(x).0
  {
    if ls != [] {
      var init := ls[..|ls| - 1];
      BrokenSpec(init, judge);
      assert ls == init + [ls[|ls| - 1]];
    }
  }

  /** Every broken link is internal. */
  lemma BrokenInternal(fs: Fs, basePath: string, ls: seq<WikiLink>)
    ensures forall l :: l in Broken(ls, Judge(fs, basePath)) ==> Judge(fs, basePath)(l).1 == Internal
  {
    BrokenSpec(ls, Judge(fs, basePath));
    forall l | l in Broken(ls, Judge(fs, basePath)) ensures Judge(fs, basePath)(l).1 == Internal {
      ValidateLinkSpec(fs, basePath, l.url, l.file);
    }
  }

  lemma TallyStep<T>(m: map<LinkType, nat>, ls: seq<T>, judge: T -> (bool, LinkType), k: nat)
    requires k < |ls|
    ensures Working(ls[..k + 1], judge) == Working(ls[..k], judge) + (if judge(ls[k]).0 then 1 else 0)
    ensures Broken(ls[..k + 1], judge) == Broken(ls[..k], judge) + (if judge(ls[k]).0 then [] else [ls[k]])
    ensures Types(m, ls[..k + 1], judge) == Inc(Types(m, ls[..k], judge), judge(ls[k]).1)
  {
    assert ls[..k + 1][..k] == ls[..k];
  }

  lemma AllLinksStep(paths: seq<string>, contents: map<string, string>, i: nat)
    requires i < |paths|
    ensures AllLinks(paths[..i + 1], contents) == AllLinks(paths[..i], contents) + FileLinks(paths[i], Read(contents, paths[i]))
  {
    assert paths[..i + 1][..i] == paths[..i];
  }

  // ---------------------------------------------------------------------------------
  // Patterns in the broken links

  /** What `analyze_broken_links` reports: the ten most frequent broken urls and the
      ten files with most broken links, each with its count, the number of distinct
      broken urls and the number of distinct broken urls that are the placeholder
      "link". */
  datatype Patterns = Patterns(
    mostCommon: seq<(string, nat)>,
    byFile: seq<(string, nat)>,
    totalUnique: nat,
    placeholderLinks: nat)

  function Urls(broken: seq<WikiLink>): (r: seq<string>)
    ensures |r| == |broken| && forall k :: 0 <= k < |r| ==> r[k] == broken[k].url
  {
    seq(|broken|, k requires 0 <= k < |broken| => broken[k].url)
  }

  function Files(broken: seq<WikiLink>): (r: seq<string>)
    ensures |r| == |broken| && forall k :: 0 <= k < |r| ==> r[k] == broken[k].file
  {
    seq(|broken|, k requires 0 <= k < |broken| => broken[k].file)
  }

  /** `analyze_broken_links`: `None` stands for the empty dictionary returned when
      nothing is broken. Grouping by file and sorting the groups by size, keeping ten,
      is `Counter(files).most_common(10)`. */
  function AnalyzeBrokenLinks(broken: seq<WikiLink>): (r: Option<Patterns>)
    ensures r.None? <==> broken == []
  {
    if broken == [] then None
    else
      var urls := Urls(broken);
      Some(Patterns(MostCommon(urls, 10), MostCommon(Files(broken), 10), |Keys(urls)|, Count(Keys(urls), "link")))
  }

  /** `total_unique` is the number of distinct broken urls. */
  lemma AnalyzeUnique(broken: seq<WikiLink>)
    requires broken != []
    ensures AnalyzeBrokenLinks(broken).value.totalUnique == |set l | l in broken :: l.url|
  {
    var urls := Urls(broken);
    var keys := Keys(urls);
    DistinctCard(keys);
    assert (set x | x in keys) == (set l | l in broken :: l.url) by {
      forall x | x in keys ensures x in (set l | l in broken :: l.url) {
        var j :| 0 <= j < |urls| && urls[j] == x;
        assert broken[j] in broken;
      }
      forall l | l in broken ensures l.url in keys {
        var j :| 0 <= j < |broken| && broken[j] == l;
        assert urls[j] == l.url;
      }
    }
  }

  /** `placeholder_links` is 1 when some broken url is "link" and 0 otherwise. */
  lemma AnalyzePlaceholder(broken: seq<WikiLink>)
    requires broken != []
    ensures AnalyzeBrokenLinks(broken).value.placeholderLinks
      == (if exists k :: 0 <= k < |broken| && broken[k].url == "link" then 1 else 0)
  {
    var urls := Urls(broken);
    var keys := Keys(urls);
    CountDistinct(keys, "link");
    if exists k :: 0 <= k < |broken| && broken[k].url == "link" {
      var k :| 0 <= k < |broken| && broken[k].url == "link";
      assert urls[k] == "link";
    }
  }

  /** At most ten urls and ten files are listed, each with its number of broken
      links, most frequent first. */
  lemma AnalyzeRanking(broken: seq<WikiLink>)
    requires broken != []
    ensures var p := AnalyzeBrokenLinks(broken).value;
      && |p.mostCommon| <= 10 && |p.byFile| <= 10
      && (forall k :: 0 <= k < |p.mostCommon| ==>
            p.mostCommon[k].0 in Urls(broken) && p.mostCommon[k].1 == Count(Urls(broken), p.mostCommon[k].0))
      && (forall k :: 0 <= k < |p.byFile| ==>
            p.byFile[k].0 in Files(broken) && p.byFile[k].1 == Count(Files(broken), p.byFile[k].0))
      && (forall i, j :: 0 <= i < j < |p.mostCommon| ==> p.mostCommon[i].1 >= p.mostCommon[j].1)
      && (forall i, j :: 0 <= i < j < |p.byFile| ==> p.byFile[i].1 >= p.byFile[j].1)
  {
    MostCommonSpec(Urls(broken), 10);
    MostCommonSpec(Files(broken), 10);
  }

  // ---------------------------------------------------------------------------------
  // Report, grade and exit code

  /** The share of working links in percent, 0 when there are no links. */
  function Health(working: nat, total: nat): real {
    if total > 0 then working as real / total as real * 100.0 else 0.0
  }

  /** Health is 0 without links, lies between 0 and 100 when no more links work than
      exist, and is 100 exactly when there are links and all of them work. */
  lemma HealthSpec(working: nat, total: nat)
    ensures total == 0 ==> Health(working, total) == 0.0
    ensures working <= total ==> 0.0 <= Health(working, total) <= 100.0
    ensures working <= total ==> (Health(working, total) == 100.0 <==> total > 0 && working == total)
  {
    if total > 0 {
      var q := working as real / total as real;
      assert q * total as real == working as real;
      if working <= total {
        assert q <= 1.0;
        assert q == 1.0 <==> working == total;
      }
    }
  }

  datatype Summary = Summary(totalFiles: nat, totalLinks: nat, workingLinks: nat, brokenLinks: nat, healthPercentage: real)

  /** The report of `generate_report`, without its timestamp. `patterns` is `None` for
      the empty dictionary. */
  datatype Report = Report(summary: Summary, linkTypes: map<LinkType, nat>, patterns: Option<Patterns>, brokenLinks: seq<WikiLink>)

  /** `generate_report` on the validator's counters: the summary, the kinds, the
      patterns and the first fifty broken links. */
  function GenerateReport(totalFiles: nat, totalLinks: nat, working: nat, broken: seq<WikiLink>, types: map<LinkType, nat>): (r: Report)
    ensures r.summary.brokenLinks == |broken|
    ensures r.brokenLinks <= broken && |r.brokenLinks| == (if |broken| < 50 then |broken| else 50)
    ensures r.patterns.None? <==> broken == []
    ensures totalLinks == 0 ==> r.summary.healthPercentage == 0.0
    ensures working <= totalLinks ==> 0.0 <= r.summary.healthPercentage <= 100.0
  {
    HealthSpec(working, totalLinks);
    Report(Summary(totalFiles, totalLinks, working, |broken|, Health(working, totalLinks)),
      types, AnalyzeBrokenLinks(broken), Take(broken, 50))
  }

  /** The grades of `print_report`. */
  datatype Grade = A | B | C | D | F

  function GradeOf(health: real): (g: Grade)
    ensures g == A <==> health >= 90.0
    ensures g == F <==> health < 60.0
  {
    if health >= 90.0 then A
    else if health >= 80.0 then B
    else if health >= 70.0 then C
    else if health >= 60.0 then D
    else F
  }

  function Label(g: Grade): string {
    match g
    case A => "A (Excellent)"
    case B => "B (Good)"
    case C => "C (Fair)"
    case D => "D (Poor)"
    case F => "F (Critical)"
  }

  /** A grade's place, F lowest. */
  function Rank(g: Grade): nat {
    match g
    case A => 4
    case B => 3
    case C => 2
    case D => 1
    case F => 0
  }

  /** The exit code of `main`. */
  function ExitCode(health: real): (code: nat)
    ensures code <= 2
    ensures code == 0 <==> health >= 80.0
    ensures code == 2 <==> health < 60.0
  {
    if health >= 80.0 then 0 else if health >= 60.0 then 1 else 2
  }

  /** Neither the grade nor the exit code improves as health falls. */
  lemma ThresholdsMonotone(h1: real, h2: real)
    requires h1 <= h2
    ensures Rank(GradeOf(h1)) <= Rank(GradeOf(h2))
    ensures ExitCode(h1) >= ExitCode(h2)
  {
  }

  /** The exit code follows the grade: success for A and B, a warning for C and D,
      critical for F. */
  lemma ExitCodeGrade(health: real)
    ensures ExitCode(health) == 0 <==> GradeOf(health) in {A, B}
    ensures ExitCode(health) == 1 <==> GradeOf(health) in {C, D}
    ensures ExitCode(health) == 2 <==> GradeOf(health) == F
  {
  }

  // ---------------------------------------------------------------------------------
  // The validator

  /** `WikiLinkValidator`: the counters `validate_wiki` fills. */
  class WikiLinkValidator {
    /** The resolved wiki root, as a string. */
    const wikiPath: string
    const fs: Fs
    var totalFiles: nat
    var totalLinks: nat
    var workingLinks: nat
    var brokenLinks: seq<WikiLink>
    var linkTypes: map<LinkType, nat>

    /** Every judged link is counted once as working or broken, and once by kind. */
    ghost predicate Valid()
      reads this`workingLinks, this`brokenLinks, this`linkTypes
    {
      workingLinks + |brokenLinks| == TypesTotal(linkTypes)
    }

    constructor (wikiPath: string, fs: Fs)
      ensures this.wikiPath == wikiPath && this.fs == fs
      ensures totalFiles == 0 && totalLinks == 0 && workingLinks == 0
      ensures brokenLinks == [] && linkTypes == map[]
      ensures Valid()
    {
      this.wikiPath := wikiPath;
      this.fs := fs;
      totalFiles := 0;
      totalLinks := 0;
      workingLinks := 0;
      brokenLinks := [];
      linkTypes := map[];
    }

    /** `extract_links_from_file` */
    method ExtractLinksFromFile(filePath: string, content: Option<string>) returns (links: seq<WikiLink>)
      ensures links == FileLinks(filePath, content)
    {
      links := [];
      if content.None? {
        return;
      }
      var matches := Matches(Inline(1), content.value);
      links := RecordMatches(filePath, content.value, matches);
    }

    /** The loop of `extract_links_from_file` over the matches `ms` of the file. */
    method RecordMatches(filePath: string, content: string, ms: seq<(string, string)>) returns (links: seq<WikiLink>)
      ensures |links| == |ms| && forall k :: 0 <= k < |ms| ==> links[k] == Link(filePath, content, ms[k])
    {
      links := [];
      for i := 0 to |ms|
        invariant |links| == i && forall k :: 0 <= k < i ==> links[k] == Link(filePath, content, ms[k])
      {
        var text, url := ms[i].0, ms[i].1;
        links := links + [WikiLink(text, url, filePath, LineOf(content, text, url))];
      }
    }

    /** The extraction loop of `validate_wiki`: the links of every file, file after file. */
    method GatherLinks(mdFiles: seq<string>, contents: map<string, string>) returns (allLinks: seq<WikiLink>)
      ensures allLinks == AllLinks(mdFiles, contents)
    {
      allLinks := [];
      for i := 0 to |mdFiles|
        invariant allLinks == AllLinks(mdFiles[..i], contents)
      {
        AllLinksStep(mdFiles, contents, i);
        var links := ExtractLinksFromFile(mdFiles[i], Read(contents, mdFiles[i]));
        allLinks := allLinks + links;
      }
      assert mdFiles[..|mdFiles|] == mdFiles;
    }

    /** One step of the validation loop: count the link's kind, then count it as
        working or keep it as broken. */
    method CheckLink(link: WikiLink)
      modifies this`workingLinks, this`brokenLinks, this`linkTypes
      ensures var v := ValidateLink(fs, wikiPath, link.url, link.file);
        && linkTypes == Inc(old(linkTypes), v.1)
        && workingLinks == old(workingLinks) + (if v.0 then 1 else 0)
        && brokenLinks == old(brokenLinks) + (if v.0 then [] else [link])
    {
      var v := ValidateLink(fs, wikiPath, link.url, link.file);
      var isValid, linkType := v.0, v.1;
      linkTypes := Inc(linkTypes, linkType);
      if isValid {
        workingLinks := workingLinks + 1;
      } else {
        brokenLinks := brokenLinks + [link];
      }
    }

    /** The validation loop of `validate_wiki` over `allLinks`. */
    method ValidateAll(allLinks: seq<WikiLink>)
      requires Valid()
      modifies this`workingLinks, this`brokenLinks, this`linkTypes
      ensures Valid()
      ensures workingLinks == old(workingLinks) + Working(allLinks, Judge(fs, wikiPath))
      ensures brokenLinks == old(brokenLinks) + Broken(allLinks, Judge(fs, wikiPath))
      ensures linkTypes == Types(old(linkTypes), allLinks, Judge(fs, wikiPath))
    {
      ghost var judge := Judge(fs, wikiPath);
      for k := 0 to |allLinks|
        invariant workingLinks == old(workingLinks) + Working(allLinks[..k], judge)
        invariant brokenLinks == old(brokenLinks) + Broken(allLinks[..k], judge)
        invariant linkTypes == Types(old(linkTypes), allLinks[..k], judge)
      {
        TallyStep(old(linkTypes), allLinks, judge, k);
        ghost var b := Broken(allLinks[..k], judge);
        AppendAssoc(old(brokenLinks), b, if judge(allLinks[k]).0 then [] else [allLinks[k]]);
        CheckLink(allLinks[k]);
      }
      assert allLinks[..|allLinks|] == allLinks;
      Tallied(old(linkTypes), allLinks, judge);
    }

    /** `validate_wiki` on the tree `tree` below the wiki root, whose files read as
        `contents` says: count the ".md" files, gather their links, judge each link,
        and report. On a new validator the counts agree with the number of links. */
    method ValidateWiki(tree: Dir, contents: map<string, string>) returns (report: Report)
      requires Valid()
      modifies this`totalFiles, this`totalLinks, this`workingLinks, this`brokenLinks, this`linkTypes
      ensures Valid()
      ensures var all := AllLinks(MdFileNames(wikiPath, tree), contents);
        && totalFiles == |MdFiles(tree)|
        && totalLinks == |all|
        && workingLinks == old(workingLinks) + Working(all, Judge(fs, wikiPath))
        && brokenLinks == old(brokenLinks) + Broken(all, Judge(fs, wikiPath))
        && linkTypes == Types(old(linkTypes), all, Judge(fs, wikiPath))
      ensures old(workingLinks) == 0 && old(brokenLinks) == [] && old(linkTypes) == map[] ==>
        workingLinks + |brokenLinks| == totalLinks == TypesTotal(linkTypes)
      ensures report == GenerateReport(totalFiles, totalLinks, workingLinks, brokenLinks, linkTypes)
    {
      var mdFiles := MdFileNames(wikiPath, tree);
      totalFiles := |mdFiles|;
      var allLinks := GatherLinks(mdFiles, contents);
      totalLinks := |allLinks|;
      ValidateAll(allLinks);
      Tallied(old(linkTypes), allLinks, Judge(fs, wikiPath));
      report := GenerateReport(totalFiles, totalLinks, workingLinks, brokenLinks, linkTypes);
    }
  }
}
