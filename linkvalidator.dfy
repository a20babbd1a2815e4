/** The validator of `link_validator.py`: an index of every file under the wiki root,
    four link types, targets resolved as path strings relative to the root, and the
    broken links it gathers file by file. */
module LinkValidator {
  import opened Text
  import opened Wrappers
  import opened Scanner
  import opened OsPath
  import opened Disk
  import opened Ranking

  /** The index entries of one file: its path relative to the root, and that path with
      every ".md" removed. */
  function IndexEntries(rel: string): set<string> {
    {rel, RemoveAll(rel, ".md")}
  }

  /** The index `find_all_files` builds from the relative paths the walk yields. */
  function FileIndex(walk: seq<string>): set<string> {
    if walk == [] then {} else FileIndex(walk[..|walk| - 1]) + IndexEntries(walk[|walk| - 1])
  }

  /** The index holds exactly the walked paths and those paths with ".md" removed. */
  lemma {:induction false} FileIndexSpec(walk: seq<string>, x: string)
    ensures x in FileIndex(walk) <==> exists k :: 0 <= k < |walk| && x in IndexEntries(walk[k])
  {
    if walk != [] {
      var p := walk[..|walk| - 1];
      FileIndexSpec(p, x);
      if x in FileIndex(p) {
        var k :| 0 <= k < |p| && x in IndexEntries(p[k]);
        assert walk[k] == p[k];
      }
      if exists k :: 0 <= k < |walk| && x in IndexEntries(walk[k]) {
        var k :| 0 <= k < |walk| && x in IndexEntries(walk[k]);
        if k < |p| {
          assert p[k] == walk[k];
        }
      }
    }
  }

  /** A markdown file whose stem holds no ".md" is indexed under its stem too, so a link
      that leaves out the extension finds it. */
  lemma IndexHoldsStem(walk: seq<string>, stem: string)
    requires stem + ".md" in walk
    requires !Contains(stem, ".md")
    ensures stem in FileIndex(walk) && stem + ".md" in FileIndex(walk)
  {
    var k :| 0 <= k < |walk| && walk[k] == stem + ".md";
    RemoveMdAppend(stem);
    FileIndexSpec(walk, stem);
    FileIndexSpec(walk, stem + ".md");
  }

  /** The link types of `classify_link`. */
  datatype LinkType = External | Anchor | AbsoluteInternal | RelativeInternal

  /** `classify_link`: the first prefix test the target passes. */
  function ClassifyLink(url: string): (t: LinkType)
    ensures t == External <==> StartsWith(url, "http://") || StartsWith(url, "https://")
    ensures t == Anchor <==> StartsWith(url, "#")
  {
    assert StartsWith(url, "http://") || StartsWith(url, "https://") ==> url[0] == 'h';
    if StartsWith(url, "http://") || StartsWith(url, "https://") then External
    else if StartsWith(url, "#") then Anchor
    else if StartsWith(url, "/") then AbsoluteInternal
    else RelativeInternal
  }

  /** The types whose links are looked up. */
  predicate Internal(t: LinkType) {
    t == AbsoluteInternal || t == RelativeInternal
  }

  /** A link is looked up exactly when it is neither a web link nor an anchor, and it is
      absolute exactly when it starts with '/'. */
  lemma ClassifyLinkSpec(url: string)
    ensures Internal(ClassifyLink(url))
      <==> !StartsWith(url, "http://") && !StartsWith(url, "https://") && !StartsWith(url, "#")
    ensures ClassifyLink(url) == AbsoluteInternal <==> StartsWith(url, "/")
  {
    if StartsWith(url, "/") {
      assert url[0] == '/';
      assert !StartsWith(url, "http://") && !StartsWith(url, "https://") && !StartsWith(url, "#");
    }
  }

  /** A link as `extract_links` returns it: text and target as matched, and its type. */
  datatype RawLink = RawLink(text: string, url: string, linkType: LinkType)

  function ToLink(m: (string, string)): RawLink {
    RawLink(m.0, m.1, ClassifyLink(m.1))
  }

  /** The links `extract_links` finds: one per match of `\[([^\]]*)\]\(([^)]+)\)`. */
  function Extracted(content: string): (links: seq<RawLink>)
    ensures |links| == |Matches(Inline(0), content)|
  {
    var ms := Matches(Inline(0), content);
    seq(|ms|, k requires 0 <= k < |ms| => ToLink(ms[k]))
  }

  /** `extract_links`: a loop appending one link per match. */
  method ExtractLinks(content: string) returns (links: seq<RawLink>)
    ensures links == Extracted(content)
  {
    var matches := Matches(Inline(0), content);
    links := [];
    for k := 0 to |matches|
      invariant |links| == k
      invariant forall j :: 0 <= j < k ==> links[j] == ToLink(matches[j])
    {
      links := links + [ToLink(matches[k])];
    }
  }

  /** Every extracted link has a non-empty target without ')', text without ']', and
      the type its target classifies as. */
  lemma ExtractedSpec(content: string)
    ensures forall k :: 0 <= k < |Extracted(content)| ==>
      var l := Extracted(content)[k];
      l.url != "" && ')' !in l.url && ']' !in l.text && l.linkType == ClassifyLink(l.url)
  {
    MatchesAccepted(Inline(0), content);
  }

  /** `resolve_link_path`: a target starting with '/' loses all its leading slashes; any
      other is joined to the directory of the current file and normalised. No fragment
      is removed. */
  function ResolveLinkPath(currentFile: string, url: string): (p: string)
    ensures StartsWith(url, "/") ==> EndsWith(url, p) && !StartsWith(p, "/")
  {
    if StartsWith(url, "/") then
      var r := LStrip(url, '/');
      assert r == [] || r[..1] != "/";
      r
    else Normpath(Join(Dirname(currentFile), url))
  }

  /** Resolving a link in a file named relative to the root gives a path relative to
      the root again: it never starts with '/'. */
  lemma ResolveStaysRelative(currentFile: string, url: string)
    requires !StartsWith(currentFile, "/")
    ensures !StartsWith(ResolveLinkPath(currentFile, url), "/")
  {
    if !StartsWith(url, "/") {
      JoinRelative(currentFile, url);
    }
  }

  /** The targets `check_link_exists` looks up, in order. */
  function Targets(t: string): seq<string> {
    [t, t + ".md", t + "/index.md", RemoveAll(t, ".md")]
  }

  /** The index of the first target that is in the index, if any. */
  function FirstIndexed(index: set<string>, ts: seq<string>): (r: Option<nat>)
    ensures r.Some? ==> r.value < |ts| && ts[r.value] in index && forall k :: 0 <= k < r.value ==> ts[k] !in index
    ensures r.None? ==> forall k :: 0 <= k < |ts| ==> ts[k] !in index
  {
    if ts == [] then None
    else if ts[0] in index then Some(0)
    else match FirstIndexed(index, ts[1..]) {
      case None => None
      case Some(k) => Some(k + 1)
    }
  }

  lemma {:induction false} FirstIndexedIs(index: set<string>, ts: seq<string>, i: nat)
    requires i < |ts| && ts[i] in index
    requires forall k :: 0 <= k < i ==> ts[k] !in index
    ensures FirstIndexed(index, ts) == Some(i)
  {
    if i > 0 {
      FirstIndexedIs(index, ts[1..], i - 1);
    }
  }

  /** The reason given for a target none of whose candidates exists. */
  function MissingReason(t: string): string {
    "Missing: " + t + " (tried: " + JoinBy(Targets(t), ", ") + ")"
  }

  /** `check_link_exists`: web links and anchors pass unchecked; otherwise the first
      target in the index is reported, then an existing directory at the resolved
      path, and failing both every target tried is listed. */
  function Check(index: set<string>, fs: Fs, wikiRoot: string, currentFile: string, link: RawLink): (r: (bool, string))
    ensures !r.0 ==> Internal(link.linkType) && !OsIsDir(fs, Join(wikiRoot, ResolveLinkPath(currentFile, link.url)))
  {
    if link.linkType == External then (true, "External link (not validated)")
    else if link.linkType == Anchor then (true, "Anchor link (not validated)")
    else
      var t := ResolveLinkPath(currentFile, link.url);
      var ts := Targets(t);
      match FirstIndexed(index, ts)
      case Some(k) => (true, "Found: " + ts[k])
      case None =>
        if OsIsDir(fs, Join(wikiRoot, t)) then (true, "Valid directory: " + t)
        else (false, MissingReason(t))
  }

  /** A link passes exactly when it is a web link or an anchor, or one of its targets is
      indexed, or its resolved path is a directory; a failure names the resolved path. */
  lemma CheckSpec(index: set<string>, fs: Fs, wikiRoot: string, currentFile: string, link: RawLink)
    ensures var t := ResolveLinkPath(currentFile, link.url);
      var (ok, reason) := Check(index, fs, wikiRoot, currentFile, link);
      && (ok <==> !Internal(link.linkType)
                  || (exists k :: 0 <= k < 4 && Targets(t)[k] in index)
                  || OsIsDir(fs, Join(wikiRoot, t)))
      && (!ok ==> reason == MissingReason(t))
  {
    var t := ResolveLinkPath(currentFile, link.url);
    var ts := Targets(t);
    if Internal(link.linkType) {
      match FirstIndexed(index, ts)
      case Some(k) =>
        assert 0 <= k < 4 && ts[k] in index;
      case None =>
        assert forall k :: 0 <= k < 4 ==> ts[k] !in index;
    }
  }

  /** Every failure reason lists the "/index.md" target. */
  lemma MissingReasonMentionsIndex(t: string)
    ensures Contains(MissingReason(t), "index.md")
  {
    var ts := Targets(t);
    var sep := ", ";
    OccursBetween(t + "/", "index.md", "");
    assert ts[2] == t + "/" + "index.md" + "";
    var j2 := JoinBy(ts[2..], sep);
    assert j2 == "" + ts[2] + (sep + JoinBy(ts[2..][1..], sep));
    ContainsWithin("", ts[2], sep + JoinBy(ts[2..][1..], sep), "index.md");
    var j1 := JoinBy(ts[1..], sep);
    assert ts[1..][1..] == ts[2..];
    assert j1 == ts[1] + sep + j2 + "";
    ContainsWithin(ts[1] + sep, j2, "", "index.md");
    var j0 := JoinBy(ts, sep);
    assert j0 == ts[0] + sep + j1 + "";
    ContainsWithin(ts[0] + sep, j1, "", "index.md");
    ContainsWithin("Missing: " + t + " (tried: ", j0, ")", "index.md");
  }

  /** What a string contains, any string around it contains too. */
  lemma ContainsWithin(x: string, y: string, z: string, sub: string)
    requires Contains(y, sub)
    ensures Contains(x + y + z, sub)
  {
    var i :| 0 <= i <= |y| - |sub| && OccursAt(y, sub, i);
    assert (x + y + z)[|x| + i..|x| + i + |sub|] == y[i..i + |sub|];
    assert OccursAt(x + y + z, sub, |x| + i);
  }

  /** The categories of `categorize_broken_link`. */
  datatype BrokenCategory = MissingIndex | MissingMdFile | MissingDirectoryOrFile | MissingFile

  /** `categorize_broken_link`: the first test that the reason or the target passes. */
  function CategorizeBrokenLink(url: string, reason: string): (c: BrokenCategory)
    ensures c == MissingIndex <==> Contains(reason, "index.md")
    ensures c == MissingMdFile ==> EndsWith(url, ".md")
    ensures c == MissingDirectoryOrFile ==> Contains(url, "/") && !EndsWith(url, ".md")
  {
    if Contains(reason, "index.md") then MissingIndex
    else if EndsWith(url, ".md") then MissingMdFile
    else if Contains(url, "/") then MissingDirectoryOrFile
    else MissingFile
  }

  /** Every link `check_link_exists` rejects is categorised as a missing index: the
      other three categories are never used. */
  lemma BrokenAreMissingIndex(index: set<string>, fs: Fs, wikiRoot: string, currentFile: string, link: RawLink)
    requires !Check(index, fs, wikiRoot, currentFile, link).0
    ensures CategorizeBrokenLink(link.url, Check(index, fs, wikiRoot, currentFile, link).1) == MissingIndex
  {
    MissingReasonMentionsIndex(ResolveLinkPath(currentFile, link.url));
  }

  /** A link `validate_file` reports as broken, with the reason it failed. */
  datatype BrokenLink = BrokenLink(text: string, url: string, linkType: LinkType, reason: string)

  /** The broken links among `links`, in order: the internal links that fail the check. */
  function BrokenOf(index: set<string>, fs: Fs, wikiRoot: string, rel: string, links: seq<RawLink>): seq<BrokenLink> {
    if links == [] then []
    else
      var before := BrokenOf(index, fs, wikiRoot, rel, links[..|links| - 1]);
      var l := links[|links| - 1];
      var (ok, reason) := Check(index, fs, wikiRoot, rel, l);
      if Internal(l.linkType) && !ok then before + [BrokenLink(l.text, l.url, l.linkType, reason)] else before
  }

  /** No more links are broken than were checked; each broken link is internal, failed
      the check, and is categorised as a missing index. */
  lemma {:induction false} BrokenOfSpec(index: set<string>, fs: Fs, wikiRoot: string, rel: string, links: seq<RawLink>)
    ensures var b := BrokenOf(index, fs, wikiRoot, rel, links);
      && |b| <= |links|
      && forall k :: 0 <= k < |b| ==>
           Internal(b[k].linkType) && CategorizeBrokenLink(b[k].url, b[k].reason) == MissingIndex
  {
    if links != [] {
      var l := links[|links| - 1];
      BrokenOfSpec(index, fs, wikiRoot, rel, links[..|links| - 1]);
      if !Check(index, fs, wikiRoot, rel, l).0 {
        BrokenAreMissingIndex(index, fs, wikiRoot, rel, l);
      }
    }
  }

  /** A `link_types` counter. */
  function Get(m: map<LinkType, nat>, t: LinkType): nat {
    if t in m then m[t] else 0
  }

  function Inc(m: map<LinkType, nat>, t: LinkType): map<LinkType, nat> {
    m[t := Get(m, t) + 1]
  }

  /** The sum of a `link_types` counter over the four types. */
  function TypesTotal(m: map<LinkType, nat>): nat {
    Get(m, External) + Get(m, Anchor) + Get(m, AbsoluteInternal) + Get(m, RelativeInternal)
  }

  lemma IncTotal(m: map<LinkType, nat>, t: LinkType)
    ensures TypesTotal(Inc(m, t)) == TypesTotal(m) + 1
  {
    var n := Inc(m, t);
    assert forall u :: u != t ==> Get(n, u) == Get(m, u);
  }

  /** The counter after counting the type of each of `links`. */
  function CountTypes(m: map<LinkType, nat>, links: seq<RawLink>): map<LinkType, nat> {
    if links == [] then m else Inc(CountTypes(m, links[..|links| - 1]), links[|links| - 1].linkType)
  }

  /** Counting links adds their number to the counter's total. */
  lemma {:induction false} CountTypesTotal(m: map<LinkType, nat>, links: seq<RawLink>)
    ensures TypesTotal(CountTypes(m, links)) == TypesTotal(m) + |links|
  {
    if links != [] {
      CountTypesTotal(m, links[..|links| - 1]);
      IncTotal(CountTypes(m, links[..|links| - 1]), links[|links| - 1].linkType);
    }
  }

  /** What `validate_file` returns: an error for a file it cannot read, otherwise the
      number of links, the broken ones and all of them. */
  datatype FileResult =
    | ReadError(file: string)
    | Checked(file: string, totalLinks: nat, brokenLinks: seq<BrokenLink>, links: seq<RawLink>)

  /** `validate_file` for the file at `rel`, whose content is `None` when it cannot be read. */
  function Outcome(index: set<string>, fs: Fs, wikiRoot: string, rel: string, content: Option<string>): FileResult {
    match content
    case None => ReadError(rel)
    case Some(c) =>
      var links := Extracted(c);
      Checked(rel, |links|, BrokenOf(index, fs, wikiRoot, rel, links), links)
  }

  /** `link_types` after `validate_file` has counted the links of a file. */
  function TypesAfter(m: map<LinkType, nat>, content: Option<string>): map<LinkType, nat> {
    match content
    case None => m
    case Some(c) => CountTypes(m, Extracted(c))
  }

  /** One entry of `all_broken_links`. */
  datatype BrokenEntry = BrokenEntry(file: string, text: string, url: string, reason: string, category: BrokenCategory)

  function EntryOf(file: string, b: BrokenLink): BrokenEntry {
    BrokenEntry(file, b.text, b.url, b.reason, CategorizeBrokenLink(b.url, b.reason))
  }

  /** The entries `run_validation` appends to `all_broken_links` for one file. */
  function Entries(file: string, broken: seq<BrokenLink>): (r: seq<BrokenEntry>)
    ensures |r| == |broken|
  {
    if broken == [] then [] else Entries(file, broken[..|broken| - 1]) + [EntryOf(file, broken[|broken| - 1])]
  }

  /** The lists of `broken_by_category`. */
  function Listed(m: map<BrokenCategory, seq<(string, BrokenLink)>>, c: BrokenCategory): seq<(string, BrokenLink)> {
    if c in m then m[c] else []
  }

  function ListedTotal(m: map<BrokenCategory, seq<(string, BrokenLink)>>): nat {
    |Listed(m, MissingIndex)| + |Listed(m, MissingMdFile)| + |Listed(m, MissingDirectoryOrFile)| + |Listed(m, MissingFile)|
  }

  /** `broken_by_category[category].append({'file': file, 'link': b})` */
  function File(m: map<BrokenCategory, seq<(string, BrokenLink)>>, file: string, b: BrokenLink): map<BrokenCategory, seq<(string, BrokenLink)>> {
    var c := CategorizeBrokenLink(b.url, b.reason);
    m[c := Listed(m, c) + [(file, b)]]
  }

  lemma FileTotal(m: map<BrokenCategory, seq<(string, BrokenLink)>>, file: string, b: BrokenLink)
    ensures ListedTotal(File(m, file, b)) == ListedTotal(m) + 1
  {
    var c := CategorizeBrokenLink(b.url, b.reason);
    var n := File(m, file, b);
    assert forall d :: d != c ==> Listed(n, d) == Listed(m, d);
  }

  function FileAll(m: map<BrokenCategory, seq<(string, BrokenLink)>>, file: string, broken: seq<BrokenLink>): map<BrokenCategory, seq<(string, BrokenLink)>> {
    if broken == [] then m else File(FileAll(m, file, broken[..|broken| - 1]), file, broken[|broken| - 1])
  }

  lemma {:induction false} FileAllTotal(m: map<BrokenCategory, seq<(string, BrokenLink)>>, file: string, broken: seq<BrokenLink>)
    ensures ListedTotal(FileAll(m, file, broken)) == ListedTotal(m) + |broken|
  {
    if broken != [] {
      FileAllTotal(m, file, broken[..|broken| - 1]);
      FileTotal(FileAll(m, file, broken[..|broken| - 1]), file, broken[|broken| - 1]);
    }
  }

  /** `self.results` of `link_validator.py`. */
  datatype Results = Results(
    totalFiles: nat,
    totalLinks: nat,
    brokenLinks: nat,
    filesWithBroken: seq<(string, seq<BrokenLink>)>,
    brokenByCategory: map<BrokenCategory, seq<(string, BrokenLink)>>,
    linkTypes: map<LinkType, nat>,
    mostBroken: seq<(string, nat)>,
    allBroken: seq<BrokenEntry>)

  function Fresh(): Results {
    Results(0, 0, 0, [], map[], map[], [], [])
  }

  /** The number of broken links listed per file, together. */
  function SumLens(fwb: seq<(string, seq<BrokenLink>)>): nat {
    if fwb == [] then 0 else SumLens(fwb[..|fwb| - 1]) + |fwb[|fwb| - 1].1|
  }

  /** The broken count of each file, in the order the files were added. */
  function BrokenCounts(fwb: seq<(string, seq<BrokenLink>)>): (r: seq<(string, nat)>)
    ensures |r| == |fwb| && forall k :: 0 <= k < |fwb| ==> r[k] == (fwb[k].0, |fwb[k].1|)
  {
    seq(|fwb|, k requires 0 <= k < |fwb| => (fwb[k].0, |fwb[k].1|))
  }

  /** `broken_links` is the number of links listed per file, in `all_broken_links` and
      in `broken_by_category`, and only files with a broken link are listed. */
  ghost predicate BrokenCounted(res: Results) {
    && res.brokenLinks == SumLens(res.filesWithBroken)
    && res.brokenLinks == |res.allBroken|
    && res.brokenLinks == ListedTotal(res.brokenByCategory)
    && (forall k :: 0 <= k < |res.filesWithBroken| ==> res.filesWithBroken[k].1 != [])
  }

  /** How the counts of the results agree: the broken links are counted alike
      everywhere, and `link_types` counts every link once. */
  ghost predicate Consistent(res: Results) {
    BrokenCounted(res) && TypesTotal(res.linkTypes) == res.totalLinks
  }

  /** The loop of `run_validation` over the broken links of one file. */
  function RecordBroken(res: Results, file: string, broken: seq<BrokenLink>): Results {
    res.(brokenByCategory := FileAll(res.brokenByCategory, file, broken),
         allBroken := res.allBroken + Entries(file, broken))
  }

  /** One file of `run_validation`: a read error is skipped; otherwise its links are
      counted, and a file with broken links is listed with them. */
  function RecordResult(res: Results, r: FileResult): Results {
    match r
    case ReadError(_) => res
    case Checked(file, n, broken, _) =>
      var counted := res.(totalLinks := res.totalLinks + n);
      if broken == [] then counted
      else
        RecordBroken(counted.(filesWithBroken := res.filesWithBroken + [(file, broken)],
                              brokenLinks := res.brokenLinks + |broken|), file, broken)
  }

  function ContentOf(rel: string, contents: map<string, string>): Option<string> {
    if rel in contents then Some(contents[rel]) else None
  }

  /** One turn of the loop of `run_validation`: validate the file, then record it. */
  function Step(index: set<string>, fs: Fs, wikiRoot: string, res: Results, rel: string, contents: map<string, string>): Results {
    var content := ContentOf(rel, contents);
    RecordResult(res.(linkTypes := TypesAfter(res.linkTypes, content)), Outcome(index, fs, wikiRoot, rel, content))
  }

  /** The loop of `run_validation` over the markdown files. */
  function Run(index: set<string>, fs: Fs, wikiRoot: string, res: Results, mdFiles: seq<string>, contents: map<string, string>): Results {
    if mdFiles == [] then res
    else Step(index, fs, wikiRoot, Run(index, fs, wikiRoot, res, mdFiles[..|mdFiles| - 1], contents), mdFiles[|mdFiles| - 1], contents)
  }

  lemma RunSnoc(index: set<string>, fs: Fs, wikiRoot: string, res: Results, mdFiles: seq<string>, i: nat, contents: map<string, string>)
    requires i < |mdFiles|
    ensures Run(index, fs, wikiRoot, res, mdFiles[..i + 1], contents)
      == Step(index, fs, wikiRoot, Run(index, fs, wikiRoot, res, mdFiles[..i], contents), mdFiles[i], contents)
  {
    PrefixSnoc(mdFiles, i);
  }

  /** The number of links in the readable files of `mdFiles`. */
  function LinkCount(mdFiles: seq<string>, contents: map<string, string>): nat {
    if mdFiles == [] then 0
    else
      var rel := mdFiles[|mdFiles| - 1];
      LinkCount(mdFiles[..|mdFiles| - 1], contents) + (if rel in contents then |Extracted(contents[rel])| else 0)
  }

  lemma RecordBrokenCounts(res: Results, file: string, broken: seq<BrokenLink>)
    ensures ListedTotal(RecordBroken(res, file, broken).brokenByCategory) == ListedTotal(res.brokenByCategory) + |broken|
    ensures |RecordBroken(res, file, broken).allBroken| == |res.allBroken| + |broken|
  {
    FileAllTotal(res.brokenByCategory, file, broken);
  }

  /** Recording a file's result keeps the broken counts in agreement, adds its links to
      `total_links`, and adds its broken links' entries to `all_broken_links`. */
  lemma RecordResultCounted(res: Results, r: FileResult)
    requires BrokenCounted(res)
    ensures var after := RecordResult(res, r);
      && BrokenCounted(after)
      && after.totalLinks == res.totalLinks + (if r.Checked? then r.totalLinks else 0)
      && after.linkTypes == res.linkTypes && after.totalFiles == res.totalFiles
  {
    if r.Checked? && r.brokenLinks != [] {
      var fwb := res.filesWithBroken + [(r.file, r.brokenLinks)];
      assert fwb[..|fwb| - 1] == res.filesWithBroken;
      var counted := res.(totalLinks := res.totalLinks + r.totalLinks, filesWithBroken := fwb,
                          brokenLinks := res.brokenLinks + |r.brokenLinks|);
      RecordBrokenCounts(counted, r.file, r.brokenLinks);
      var after := RecordBroken(counted, r.file, r.brokenLinks);
      assert after == RecordResult(res, r);
      assert SumLens(fwb) == SumLens(res.filesWithBroken) + |r.brokenLinks|;
      assert after.filesWithBroken == fwb;
      forall k | 0 <= k < |fwb| ensures fwb[k].1 != [] {
        if k < |fwb| - 1 {
          assert fwb[k] == res.filesWithBroken[k];
        }
      }
    }
  }

  /** Recording a file's result adds its broken links' entries to `all_broken_links`. */
  lemma RecordResultEntries(res: Results, r: FileResult)
    ensures RecordResult(res, r).allBroken == res.allBroken + (if r.Checked? then Entries(r.file, r.brokenLinks) else [])
  {
  }

  /** One file keeps the results consistent and adds its links to `total_links`. */
  lemma StepConsistent(index: set<string>, fs: Fs, wikiRoot: string, res: Results, rel: string, contents: map<string, string>)
    requires Consistent(res)
    ensures var after := Step(index, fs, wikiRoot, res, rel, contents);
      && Consistent(after)
      && after.totalLinks == res.totalLinks + (if rel in contents then |Extracted(contents[rel])| else 0)
      && after.totalFiles == res.totalFiles
  {
    var content := ContentOf(rel, contents);
    var typed := res.(linkTypes := TypesAfter(res.linkTypes, content));
    if rel in contents {
      CountTypesTotal(res.linkTypes, Extracted(contents[rel]));
    }
    RecordResultCounted(typed, Outcome(index, fs, wikiRoot, rel, content));
  }

  /** The run keeps the results consistent; `total_links` grows by exactly the links of
      the readable files, unreadable ones adding nothing. */
  lemma {:induction false} RunConsistent(index: set<string>, fs: Fs, wikiRoot: string, res: Results, mdFiles: seq<string>, contents: map<string, string>)
    requires Consistent(res)
    ensures var after := Run(index, fs, wikiRoot, res, mdFiles, contents);
      && Consistent(after)
      && after.totalLinks == res.totalLinks + LinkCount(mdFiles, contents)
      && after.totalFiles == res.totalFiles
  {
    if mdFiles != [] {
      var p := mdFiles[..|mdFiles| - 1];
      RunConsistent(index, fs, wikiRoot, res, p, contents);
      StepConsistent(index, fs, wikiRoot, Run(index, fs, wikiRoot, res, p, contents), mdFiles[|mdFiles| - 1], contents);
    }
  }

  /** Every entry is categorised as a missing index. */
  predicate AllMissingIndex(entries: seq<BrokenEntry>) {
    forall k :: 0 <= k < |entries| ==> entries[k].category == MissingIndex
  }

  /** Every broken link the run records is categorised as a missing index. */
  lemma {:induction false} RunAllMissingIndex(index: set<string>, fs: Fs, wikiRoot: string, res: Results, mdFiles: seq<string>, contents: map<string, string>)
    requires AllMissingIndex(res.allBroken)
    ensures AllMissingIndex(Run(index, fs, wikiRoot, res, mdFiles, contents).allBroken)
  {
    if mdFiles != [] {
      var p := mdFiles[..|mdFiles| - 1];
      RunAllMissingIndex(index, fs, wikiRoot, res, p, contents);
      StepAllMissingIndex(index, fs, wikiRoot, Run(index, fs, wikiRoot, res, p, contents), mdFiles[|mdFiles| - 1], contents);
    }
  }

  /** One file adds only broken links categorised as a missing index. */
  lemma StepAllMissingIndex(index: set<string>, fs: Fs, wikiRoot: string, before: Results, rel: string, contents: map<string, string>)
    requires AllMissingIndex(before.allBroken)
    ensures AllMissingIndex(Step(index, fs, wikiRoot, before, rel, contents).allBroken)
  {
    var content := ContentOf(rel, contents);
    RecordResultEntries(before.(linkTypes := TypesAfter(before.linkTypes, content)), Outcome(index, fs, wikiRoot, rel, content));
    if rel in contents {
      var broken := BrokenOf(index, fs, wikiRoot, rel, Extracted(contents[rel]));
      BrokenOfSpec(index, fs, wikiRoot, rel, Extracted(contents[rel]));
      EntriesMissingIndex(rel, broken);
      AllMissingIndexAppend(before.allBroken, Entries(rel, broken));
    }
  }

  lemma AllMissingIndexAppend(a: seq<BrokenEntry>, b: seq<BrokenEntry>)
    requires AllMissingIndex(a) && AllMissingIndex(b)
    ensures AllMissingIndex(a + b)
  {
    forall k | 0 <= k < |a + b| ensures (a + b)[k].category == MissingIndex {
      if k >= |a| {
        assert (a + b)[k] == b[k - |a|];
      }
    }
  }

  lemma {:induction false} EntriesMissingIndex(file: string, broken: seq<BrokenLink>)
    requires forall k :: 0 <= k < |broken| ==> CategorizeBrokenLink(broken[k].url, broken[k].reason) == MissingIndex
    ensures AllMissingIndex(Entries(file, broken))
  {
    if broken != [] {
      EntriesMissingIndex(file, broken[..|broken| - 1]);
    }
  }

  /** The files listed with broken links are distinct files of the run, when the run's
      files are distinct. */
  lemma {:induction false} RunFilesDistinct(index: set<string>, fs: Fs, wikiRoot: string, mdFiles: seq<string>, contents: map<string, string>)
    requires Distinct(mdFiles)
    ensures var fwb := Run(index, fs, wikiRoot, Fresh(), mdFiles, contents).filesWithBroken;
      && Distinct(Firsts(fwb))
      && forall k :: 0 <= k < |fwb| ==> fwb[k].0 in mdFiles
  {
    if mdFiles != [] {
      var p := mdFiles[..|mdFiles| - 1];
      var rel := mdFiles[|mdFiles| - 1];
      assert Distinct(p);
      RunFilesDistinct(index, fs, wikiRoot, p, contents);
      var before := Run(index, fs, wikiRoot, Fresh(), p, contents);
      StepFiles(index, fs, wikiRoot, before, rel, contents);
      assert rel !in p;
      FilesSnoc(before.filesWithBroken, Step(index, fs, wikiRoot, before, rel, contents).filesWithBroken, p, rel);
    }
  }

  /** One file leaves the files with broken links alone or lists itself after them. */
  lemma StepFiles(index: set<string>, fs: Fs, wikiRoot: string, res: Results, rel: string, contents: map<string, string>)
    ensures var a, b := Step(index, fs, wikiRoot, res, rel, contents).filesWithBroken, res.filesWithBroken;
      a == b || (|a| == |b| + 1 && a[..|b|] == b && a[|b|].0 == rel)
  {
    var a := Step(index, fs, wikiRoot, res, rel, contents).filesWithBroken;
    var b := res.filesWithBroken;
    if a != b {
      assert a[..|b|] == b;
    }
  }

  /** Listing one more file, new to the list, keeps the listed files distinct and among
      the files walked so far. */
  lemma FilesSnoc(b: seq<(string, seq<BrokenLink>)>, a: seq<(string, seq<BrokenLink>)>, p: seq<string>, rel: string)
    requires Distinct(Firsts(b)) && (forall k :: 0 <= k < |b| ==> b[k].0 in p) && rel !in p
    requires a == b || (|a| == |b| + 1 && a[..|b|] == b && a[|b|].0 == rel)
    ensures Distinct(Firsts(a)) && forall k :: 0 <= k < |a| ==> a[k].0 in p + [rel]
  {
    forall k | 0 <= k < |a| ensures a[k].0 in p + [rel] {
      if k < |b| {
        assert a[k] == a[..|b|][k];
      }
    }
    forall i, j | 0 <= i < j < |a| ensures Firsts(a)[i] != Firsts(a)[j] {
      if j < |b| {
        assert a[i] == a[..|b|][i] && a[j] == a[..|b|][j];
      } else if a != b {
        assert a[i] == a[..|b|][i];
      }
    }
  }

  /** `most_broken_files`: the broken count of each listed file, larger counts first. */
  function MostBroken(fwb: seq<(string, seq<BrokenLink>)>): seq<(string, nat)> {
    SortByCountDesc(BrokenCounts(fwb))
  }

  /** `most_broken_files` holds each listed file once with its count, in non-increasing
      order of count. */
  lemma MostBrokenSpec(fwb: seq<(string, seq<BrokenLink>)>)
    ensures multiset(MostBroken(fwb)) == multiset(BrokenCounts(fwb))
    ensures forall i, j :: 0 <= i < j < |fwb| ==> MostBroken(fwb)[i].1 >= MostBroken(fwb)[j].1
  {
    SortByCountDescSpec(BrokenCounts(fwb));
  }

  /** `WikiLinkValidator` of `link_validator.py`: the wiki root, the filesystem, the file
      index and `self.results`. */
  class Validator {
    const wikiRoot: string
    const fs: Fs
    var allFiles: set<string>
    var results: Results

    constructor(wikiRoot: string, fs: Fs)
      ensures this.wikiRoot == wikiRoot && this.fs == fs
      ensures allFiles == {} && results == Fresh()
    {
      this.wikiRoot := wikiRoot;
      this.fs := fs;
      allFiles := {};
      results := Fresh();
    }

    /** `find_all_files`: add every walked path and its form without ".md" to the index. */
    method FindAllFiles(walk: seq<string>)
      modifies this`allFiles
      ensures allFiles == old(allFiles) + FileIndex(walk)
      ensures results == old(results)
    {
      for i := 0 to |walk|
        invariant allFiles == old(allFiles) + FileIndex(walk[..i])
        invariant results == old(results)
      {
        assert walk[..i + 1][..i] == walk[..i];
        allFiles := allFiles + {walk[i]};
        allFiles := allFiles + {RemoveAll(walk[i], ".md")};
      }
      assert walk[..|walk|] == walk;
    }

    /** `check_link_exists`, with its loop over the targets. */
    method CheckLinkExists(currentFile: string, link: RawLink) returns (ok: bool, reason: string)
      ensures (ok, reason) == Check(allFiles, fs, wikiRoot, currentFile, link)
    {
      if link.linkType == External {
        return true, "External link (not validated)";
      }
      if link.linkType == Anchor {
        return true, "Anchor link (not validated)";
      }
      var targetPath := ResolveLinkPath(currentFile, link.url);
      var possibleTargets := Targets(targetPath);
      for i := 0 to |possibleTargets|
        invariant forall k :: 0 <= k < i ==> possibleTargets[k] !in allFiles
      {
        if possibleTargets[i] in allFiles {
          FirstIndexedIs(allFiles, possibleTargets, i);
          return true, "Found: " + possibleTargets[i];
        }
      }
      assert FirstIndexed(allFiles, possibleTargets).None?;
      if OsIsDir(fs, Join(wikiRoot, targetPath)) {
        return true, "Valid directory: " + targetPath;
      }
      return false, MissingReason(targetPath);
    }

    /** `validate_file`: count every link's type, and check the internal ones. */
    method ValidateFile(rel: string, content: Option<string>) returns (r: FileResult)
      modifies this`results
      ensures r == Outcome(allFiles, fs, wikiRoot, rel, content)
      ensures results == old(results).(linkTypes := TypesAfter(old(results).linkTypes, content))
      ensures allFiles == old(allFiles)
    {
      if content.None? {
        return ReadError(rel);
      }
      var links := ExtractLinks(content.value);
      var brokenLinks := [];
      for k := 0 to |links|
        invariant results == old(results).(linkTypes := CountTypes(old(results).linkTypes, links[..k]))
        invariant brokenLinks == BrokenOf(allFiles, fs, wikiRoot, rel, links[..k])
        invariant allFiles == old(allFiles)
      {
        PrefixSnoc(links, k);
        var link := links[k];
        results := results.(linkTypes := Inc(results.linkTypes, link.linkType));
        if Internal(link.linkType) {
          var ok, reason := CheckLinkExists(rel, link);
          if !ok {
            brokenLinks := brokenLinks + [BrokenLink(link.text, link.url, link.linkType, reason)];
          }
        }
      }
      assert links[..|links|] == links;
      return Checked(rel, |links|, brokenLinks, links);
    }

    /** The loop of `run_validation` over the broken links of one file: categorise each,
        then list it by category and in `all_broken_links`. */
    method RecordBrokenLinks(file: string, broken: seq<BrokenLink>)
      modifies this`results
      ensures results == RecordBroken(old(results), file, broken)
      ensures allFiles == old(allFiles)
    {
      for k := 0 to |broken|
        invariant results == RecordBroken(old(results), file, broken[..k])
        invariant allFiles == old(allFiles)
      {
        assert broken[..k + 1][..k] == broken[..k];
        var b := broken[k];
        var category := CategorizeBrokenLink(b.url, b.reason);
        results := results.(brokenByCategory := results.brokenByCategory[category := Listed(results.brokenByCategory, category) + [(file, b)]]);
        results := results.(allBroken := results.allBroken + [BrokenEntry(file, b.text, b.url, b.reason, category)]);
      }
      assert broken[..|broken|] == broken;
    }

    /** One pass of the loop of `run_validation`: validate the file, then count its
        links and record its broken links. */
    method CheckAndRecord(rel: string, contents: map<string, string>)
      modifies this`results
      ensures results == Step(allFiles, fs, wikiRoot, old(results), rel, contents)
    {
      var fileResult := ValidateFile(rel, ContentOf(rel, contents));
      ghost var typed := results;
      if fileResult.Checked? {
        results := results.(totalLinks := results.totalLinks + fileResult.totalLinks);
        if fileResult.brokenLinks != [] {
          results := results.(filesWithBroken := results.filesWithBroken + [(fileResult.file, fileResult.brokenLinks)],
                              brokenLinks := results.brokenLinks + |fileResult.brokenLinks|);
          RecordBrokenLinks(fileResult.file, fileResult.brokenLinks);
        }
      }
      assert results == RecordResult(typed, fileResult);
    }

    /** `run_validation`: build the index, validate each markdown file, record what it
        found, and rank the files with broken links. A file missing from `contents`
        cannot be read. */
    method RunValidation(walk: seq<string>, mdFiles: seq<string>, contents: map<string, string>)
      modifies this`allFiles, this`results
      ensures allFiles == old(allFiles) + FileIndex(walk)
      ensures var after := Run(allFiles, fs, wikiRoot, old(results).(totalFiles := |mdFiles|), mdFiles, contents);
        results == after.(mostBroken := MostBroken(after.filesWithBroken))
    {
      FindAllFiles(walk);
      results := results.(totalFiles := |mdFiles|);
      ghost var start := results;
      for i := 0 to |mdFiles|
        invariant results == Run(allFiles, fs, wikiRoot, start, mdFiles[..i], contents)
        invariant allFiles == old(allFiles) + FileIndex(walk)
      {
        RunSnoc(allFiles, fs, wikiRoot, start, mdFiles, i, contents);
        CheckAndRecord(mdFiles[i], contents);
      }
      assert mdFiles[..|mdFiles|] == mdFiles;
      var brokenCounts := BrokenCounts(results.filesWithBroken);
      results := results.(mostBroken := SortByCountDesc(brokenCounts));
    }
  }
}
