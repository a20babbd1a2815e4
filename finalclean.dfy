/** The final link validator of `validate_links_final_clean.py`: the markdown files of
    the wiki without hidden paths and report files, the internal links of each with
    their fragment cut off, and every link judged working or broken. */
module FinalClean {
  import opened Text
  import opened Wrappers
  import opened Scanner
  import opened OsPath
  import opened PathLib
  import opened Disk
  import opened Ranking

  /** The file names `find_all_files` leaves out. */
  const Excluded: set<string> := {
    "LINK_VALIDATION_REPORT.md",
    "link_validation_final_report.md",
    "validate_links_final.py",
    "validate_links_final_clean.py"
  }

  /** Some component starts with '.'. */
  predicate Hidden(parts: seq<string>) {
    exists k :: 0 <= k < |parts| && StartsWith(parts[k], ".")
  }

  /** `find_all_files` keeps the path `root / rel` the walk yields: its name matches
      `*.md`, none of its parts starts with '.' (the "/" anchor of an absolute root does
      not), and its name is not excluded. */
  predicate Listed(root: PurePath, rel: seq<string>) {
    && rel != []
    && EndsWith(rel[|rel| - 1], ".md")
    && !Hidden(root.parts + rel)
    && rel[|rel| - 1] !in Excluded
  }

  /** The paths, relative to the root, that `find_all_files` adds for the walk `walk`. */
  function Found(root: PurePath, walk: seq<seq<string>>): set<seq<string>> {
    if walk == [] then {}
    else
      var rel := walk[|walk| - 1];
      Found(root, walk[..|walk| - 1]) + (if Listed(root, rel) then {rel} else {})
  }

  /** A path is found exactly when the walk yields it and it passes the filter. */
  lemma {:induction false} FoundSpec(root: PurePath, walk: seq<seq<string>>)
    ensures forall rel :: rel in Found(root, walk) <==> rel in walk && Listed(root, rel)
  {
    if walk != [] {
      var p := walk[..|walk| - 1];
      FoundSpec(root, p);
      assert walk == p + [walk[|walk| - 1]];
    }
  }

  /** A listed path's name ends in ".md" and is not a report, and no component of it or
      of the root starts with '.'. */
  lemma ListedSpec(root: PurePath, rel: seq<string>)
    requires Listed(root, rel)
    ensures EndsWith(rel[|rel| - 1], ".md")
    ensures rel[|rel| - 1] != "LINK_VALIDATION_REPORT.md" && rel[|rel| - 1] != "link_validation_final_report.md"
    ensures forall k :: 0 <= k < |rel| ==> !StartsWith(rel[k], ".")
    ensures forall k :: 0 <= k < |root.parts| ==> !StartsWith(root.parts[k], ".")
  {
    forall k | 0 <= k < |rel| ensures !StartsWith(rel[k], ".") {
      assert (root.parts + rel)[|root.parts| + k] == rel[k];
    }
    forall k | 0 <= k < |root.parts| ensures !StartsWith(root.parts[k], ".") {
      assert (root.parts + rel)[k] == root.parts[k];
    }
  }

  /** The two excluded names ending in ".py" never match `*.md`: only the two report
      names ever take a file out. */
  lemma ExcludedScriptsNeverMatch(root: PurePath, rel: seq<string>)
    requires rel != [] && EndsWith(rel[|rel| - 1], ".md")
    ensures Listed(root, rel) <==>
      && !Hidden(root.parts + rel)
      && rel[|rel| - 1] != "LINK_VALIDATION_REPORT.md"
      && rel[|rel| - 1] != "link_validation_final_report.md"
  {
  }

  /** One link of `self.links`: the file it is in, relative to the root; its text; its
      target cut at the first '#'; and the target as written. */
  datatype CleanLink = CleanLink(file: string, text: string, url: string, originalUrl: string)

  /** The targets `extract_links` treats as external. */
  predicate External(url: string) {
    || StartsWith(url, "http://")
    || StartsWith(url, "https://")
    || StartsWith(url, "ftp://")
    || StartsWith(url, "mailto:")
  }

  /** The targets `extract_links` drops: external ones and anchors. */
  predicate Skipped(url: string) {
    External(url) || StartsWith(url, "#")
  }

  /** The links `extract_links` appends for the matches `ms` of the file `file`, in order:
      a dropped target is skipped, and so is a target whose part before '#' is empty. */
  function KeepLinks(file: string, ms: seq<(string, string)>): (r: seq<CleanLink>)
    ensures |r| <= |ms|
  {
    if ms == [] then []
    else
      var prev := KeepLinks(file, ms[..|ms| - 1]);
      var m := ms[|ms| - 1];
      if Skipped(m.1) then prev
      else if CutAt(m.1, '#') != "" then prev + [CleanLink(file, m.0, CutAt(m.1, '#'), m.1)]
      else prev
  }

  /** What every kept link satisfies: a non-empty text and target, the target without
      '#' and equal to the original cut at its first '#', an original that is neither
      external nor an anchor. */
  predicate WellFormedLink(l: CleanLink) {
    && l.text != "" && ']' !in l.text
    && l.url != "" && '#' !in l.url
    && l.url == CutAt(l.originalUrl, '#')
    && !Skipped(l.originalUrl)
  }

  /** For a target the pattern accepts that is not dropped, the part before '#' is never
      empty: the emptiness test of `extract_links` never skips a link. */
  lemma CleanUrlNotEmpty(url: string)
    requires url != "" && !Skipped(url)
    ensures CutAt(url, '#') != ""
  {
  }

  /** The links kept from matches of `\[([^\]]+)\]\(([^)]+)\)` are well formed and belong
      to the file; and every match whose target is not dropped is kept. */
  lemma {:induction false} KeepLinksSpec(file: string, ms: seq<(string, string)>)
    requires forall k :: 0 <= k < |ms| ==> Accepts(Inline(1), ms[k].0, ms[k].1)
    ensures forall l :: l in KeepLinks(file, ms) ==> l.file == file && WellFormedLink(l)
    ensures forall k :: 0 <= k < |ms| && !Skipped(ms[k].1) ==>
      CleanLink(file, ms[k].0, CutAt(ms[k].1, '#'), ms[k].1) in KeepLinks(file, ms)
  {
    if ms != [] {
      var p := ms[..|ms| - 1];
      var m := ms[|ms| - 1];
      KeepLinksSpec(file, p);
      assert Accepts(Inline(1), m.0, m.1);
      if !Skipped(m.1) {
        CleanUrlNotEmpty(m.1);
      }
      forall k | 0 <= k < |ms| && !Skipped(ms[k].1)
        ensures CleanLink(file, ms[k].0, CutAt(ms[k].1, '#'), ms[k].1) in KeepLinks(file, ms)
      {
        if k < |p| {
          assert ms[k] == p[k];
        }
      }
    }
  }

  /** `str(file_path.relative_to(self.wiki_path))` for a file found at `rel`. */
  function RelName(rel: seq<string>): string {
    ToString(PurePath(false, rel))
  }

  /** The links `extract_links` appends for the file at `rel`; nothing when it cannot be
      read. */
  function FileLinks(rel: seq<string>, content: Option<string>): seq<CleanLink> {
    match content
    case None => []
    case Some(text) => KeepLinks(RelName(rel), Matches(Inline(1), text))
  }

  lemma FileLinksWellFormed(rel: seq<string>, content: Option<string>)
    ensures forall l :: l in FileLinks(rel, content) ==> l.file == RelName(rel) && WellFormedLink(l)
  {
    if content.Some? {
      MatchesAccepted(Inline(1), content.value);
      KeepLinksSpec(RelName(rel), Matches(Inline(1), content.value));
    }
  }

  /** The contents of the file at `rel`, or `None` when reading it fails. */
  function ContentOf(rel: seq<string>, contents: map<seq<string>, string>): Option<string> {
    if rel in contents then Some(contents[rel]) else None
  }

  /** The links of the files in `order`, file after file. */
  function AllFileLinks(order: seq<seq<string>>, contents: map<seq<string>, string>): seq<CleanLink> {
    if order == [] then []
    else
      var rel := order[|order| - 1];
      AllFileLinks(order[..|order| - 1], contents) + FileLinks(rel, ContentOf(rel, contents))
  }

  lemma {:induction false} AllFileLinksWellFormed(order: seq<seq<string>>, contents: map<seq<string>, string>)
    ensures forall l :: l in AllFileLinks(order, contents) ==> WellFormedLink(l)
  {
    if order != [] {
      var rel := order[|order| - 1];
      AllFileLinksWellFormed(order[..|order| - 1], contents);
      FileLinksWellFormed(rel, ContentOf(rel, contents));
    }
  }

  lemma AllFileLinksStep(order: seq<seq<string>>, contents: map<seq<string>, string>, i: nat)
    requires i < |order|
    ensures AllFileLinks(order[..i + 1], contents)
      == AllFileLinks(order[..i], contents) + FileLinks(order[i], ContentOf(order[i], contents))
  {
    assert order[..i + 1][..i] == order[..i];
  }

  /** The path `validate_link` checks: a target starting with '/' is taken, after its
      first character, under the root; any other is resolved next to the source file. */
  function Target(root: PurePath, link: CleanLink): (t: PurePath)
    ensures root.absolute || !StartsWith(link.url, "/") ==> t.absolute
  {
    if StartsWith(link.url, "/") then Div(root, link.url[1..])
    else Resolve(Div(Parent(Div(root, link.file)), link.url))
  }

  /** `validate_link`: the target exists; or it has no suffix and the target with ".md"
      as suffix exists; or it is a directory holding "index.md". */
  function ValidateLink(fs: Fs, root: PurePath, link: CleanLink): (ok: bool)
    ensures Exists(fs, Target(root, link)) ==> ok
    ensures var t := Target(root, link);
      ok ==> Exists(fs, t) || (t.parts != [] && Suffix(Name(t)) == "" && Exists(fs, WithSuffix(t, ".md")))
  {
    var t := Target(root, link);
    if Exists(fs, t) then true
    else
      assert t.parts != [];
      if Suffix(Name(t)) == "" && Exists(fs, WithSuffix(t, ".md")) then true
      else if IsDir(fs, t) && Exists(fs, Div(t, "index.md")) then true
      else false
  }

  /** The check for a directory holding "index.md" never decides: a directory already
      exists. A link works exactly when its target exists or, having no suffix, exists
      with ".md" added. */
  lemma ValidateLinkSpec(fs: Fs, root: PurePath, link: CleanLink)
    ensures var t := Target(root, link);
      IsDir(fs, t) ==> Exists(fs, t)
    ensures var t := Target(root, link);
      ValidateLink(fs, root, link)
      <==> Exists(fs, t) || (t.parts != [] && Suffix(Name(t)) == "" && Exists(fs, WithSuffix(t, ".md")))
  {
  }

  /** A target with one leading '/' is looked for under the root. */
  lemma TargetUnderRoot(root: PurePath, link: CleanLink)
    requires StartsWith(link.url, "/") && !StartsWith(link.url[1..], "/")
    ensures Target(root, link).absolute == root.absolute
    ensures root.parts <= Target(root, link).parts
  {
    assert !Parse(link.url[1..]).absolute;
  }

  /** A target with two leading slashes discards the root: the path it names is the
      target itself, from the filesystem root. */
  lemma TargetDoubleSlash(root: PurePath, link: CleanLink)
    requires StartsWith(link.url, "//")
    ensures Target(root, link) == Parse(link.url[1..])
    ensures Target(root, link).absolute
  {
    assert link.url[1..][..1] == "/";
  }

  /** Any other target is an absolute, normalised path. */
  lemma TargetResolved(root: PurePath, link: CleanLink)
    requires WellFormed(root)
    requires !StartsWith(link.url, "/")
    ensures Target(root, link).absolute
    ensures Normal(Target(root, link).parts, true)
  {
    var d := Div(Parent(Div(root, link.file)), link.url);
    assert forall k :: 0 <= k < |d.parts| ==> '/' !in d.parts[k];
    NormFoldNormal(d.parts, [], true);
  }

  /** `validate_link` as a test on links. */
  function Verdict(fs: Fs, root: PurePath): CleanLink -> bool {
    (l: CleanLink) => ValidateLink(fs, root, l)
  }

  /** The links of `ls` that pass `ok`, in order. */
  function Passing(ls: seq<CleanLink>, ok: CleanLink -> bool): seq<CleanLink> {
    if ls == [] then []
    else
      var l := ls[|ls| - 1];
      Passing(ls[..|ls| - 1], ok) + (if ok(l) then [l] else [])
  }

  /** The links of `ls` that fail `ok`, in order. */
  function Failing(ls: seq<CleanLink>, ok: CleanLink -> bool): seq<CleanLink> {
    if ls == [] then []
    else
      var l := ls[|ls| - 1];
      Failing(ls[..|ls| - 1], ok) + (if ok(l) then [] else [l])
  }

  /** Every link lands in exactly one of the two lists: together they hold each link
      once. */
  lemma {:induction false} Partition(ls: seq<CleanLink>, ok: CleanLink -> bool)
    ensures multiset(Passing(ls, ok)) + multiset(Failing(ls, ok)) == multiset(ls)
    ensures |Passing(ls, ok)| + |Failing(ls, ok)| == |ls|
  {
    if ls != [] {
      var p, l := ls[..|ls| - 1], ls[|ls| - 1];
      Partition(p, ok);
      assert multiset(ls) == multiset(p) + multiset{l} by {
        assert ls == p + [l];
      }
      var w, f := Passing(p, ok), Failing(p, ok);
      if ok(l) {
        assert multiset(w + [l]) == multiset(w) + multiset{l};
      } else {
        assert multiset(f + [l]) == multiset(f) + multiset{l};
      }
    }
  }

  /** The passing links all pass and the failing ones all fail. */
  lemma {:induction false} PartitionSound(ls: seq<CleanLink>, ok: CleanLink -> bool)
    ensures forall l :: l in Passing(ls, ok) ==> ok(l)
    ensures forall l :: l in Failing(ls, ok) ==> !ok(l)
  {
    if ls != [] {
      PartitionSound(ls[..|ls| - 1], ok);
    }
  }

  lemma PartitionStep(ls: seq<CleanLink>, ok: CleanLink -> bool, k: nat)
    requires k < |ls|
    ensures Passing(ls[..k + 1], ok) == Passing(ls[..k], ok) + (if ok(ls[k]) then [ls[k]] else [])
    ensures Failing(ls[..k + 1], ok) == Failing(ls[..k], ok) + (if ok(ls[k]) then [] else [ls[k]])
  {
    assert ls[..k + 1][..k] == ls[..k];
  }

  /** The order of the report's list of broken links: by file, then by target. */
  predicate ReportLe(x: CleanLink, y: CleanLink) {
    (StrLe(x.file, y.file) && x.file != y.file) || (x.file == y.file && StrLe(x.url, y.url))
  }

  lemma ReportLeTotal()
    ensures TotalOrder((x: CleanLink, y: CleanLink) => ReportLe(x, y))
  {
    forall x: CleanLink, y: CleanLink ensures ReportLe(x, y) || ReportLe(y, x) {
      StrLeTotal(x.file, y.file);
      StrLeTotal(x.url, y.url);
    }
    forall x: CleanLink, y: CleanLink, z: CleanLink | ReportLe(x, y) && ReportLe(y, z)
      ensures ReportLe(x, z)
    {
      if x.file == y.file == z.file {
        StrLeTrans(x.url, y.url, z.url);
      } else {
        if x.file != y.file && y.file != z.file {
          StrLeTrans(x.file, y.file, z.file);
          if x.file == z.file {
            StrLeAntisym(x.file, y.file);
          }
        }
      }
    }
  }

  /** `sorted(self.broken_links, key=lambda x: (x['file'], x['url']))` */
  function ReportOrder(broken: seq<CleanLink>): (r: seq<CleanLink>)
    ensures |r| == |broken|
  {
    Sort(broken, (x: CleanLink, y: CleanLink) => ReportLe(x, y))
  }

  /** The report lists every broken link once, ordered by file and then by target. */
  lemma ReportOrderSpec(broken: seq<CleanLink>)
    ensures multiset(ReportOrder(broken)) == multiset(broken)
    ensures forall i, j :: 0 <= i < j < |broken| ==> ReportLe(ReportOrder(broken)[i], ReportOrder(broken)[j])
  {
    var le := (x: CleanLink, y: CleanLink) => ReportLe(x, y);
    ReportLeTotal();
    SortPerm(broken, le);
    SortSorted(broken, le);
  }

  /** `WikiLinkValidator`: the wiki root, the filesystem it looks at, and the set of
      files and lists of links it fills. */
  class WikiLinkValidator {
    const root: PurePath
    const fs: Fs
    var files: set<seq<string>>
    var links: seq<CleanLink>
    var brokenLinks: seq<CleanLink>
    var workingLinks: seq<CleanLink>

    /** Every kept link is well formed. */
    ghost predicate Valid()
      reads this`links
    {
      forall l :: l in links ==> WellFormedLink(l)
    }

    constructor(root: PurePath, fs: Fs)
      ensures Valid()
      ensures this.root == root && this.fs == fs
      ensures files == {} && links == [] && brokenLinks == [] && workingLinks == []
    {
      this.root := root;
      this.fs := fs;
      files := {};
      links := [];
      brokenLinks := [];
      workingLinks := [];
    }

    /** `find_all_files` over the paths the walk yields, relative to the root. */
    method FindAllFiles(walk: seq<seq<string>>)
      modifies this
      ensures files == old(files) + Found(root, walk)
      ensures links == old(links) && brokenLinks == old(brokenLinks) && workingLinks == old(workingLinks)
    {
      for i := 0 to |walk|
        invariant files == old(files) + Found(root, walk[..i])
        invariant links == old(links) && brokenLinks == old(brokenLinks) && workingLinks == old(workingLinks)
      {
        assert walk[..i + 1][..i] == walk[..i];
        if Listed(root, walk[i]) {
          files := files + {walk[i]};
        }
      }
      assert walk[..|walk|] == walk;
    }

    /** `extract_links` for the file at `rel`, whose contents are `content` (`None` when
        reading fails). */
    method ExtractLinks(rel: seq<string>, content: Option<string>)
      modifies this
      ensures links == old(links) + FileLinks(rel, content)
      ensures files == old(files) && brokenLinks == old(brokenLinks) && workingLinks == old(workingLinks)
    {
      if content.None? {
        return;
      }
      var matches := Matches(Inline(1), content.value);
      AppendKept(RelName(rel), matches);
    }

    /** The loop of `extract_links` over the matches `ms` of the file `file`. */
    method AppendKept(file: string, ms: seq<(string, string)>)
      modifies this
      ensures links == old(links) + KeepLinks(file, ms)
      ensures files == old(files) && brokenLinks == old(brokenLinks) && workingLinks == old(workingLinks)
    {
      for i := 0 to |ms|
        invariant links == old(links) + KeepLinks(file, ms[..i])
        invariant files == old(files) && brokenLinks == old(brokenLinks) && workingLinks == old(workingLinks)
      {
        assert ms[..i + 1][..i] == ms[..i];
        var text, url := ms[i].0, ms[i].1;
        if External(url) {
          continue;
        }
        if StartsWith(url, "#") {
          continue;
        }
        var cleanUrl := CutAt(url, '#');
        if cleanUrl != "" {
          links := links + [CleanLink(file, text, cleanUrl, url)];
        }
      }
      assert ms[..|ms|] == ms;
    }

    /** The extraction loop of `run_validation`: each file in the order the set of files
        is iterated. */
    method ExtractAll(order: seq<seq<string>>, contents: map<seq<string>, string>)
      requires Valid()
      modifies this
      ensures Valid()
      ensures links == old(links) + AllFileLinks(order, contents)
      ensures files == old(files) && brokenLinks == old(brokenLinks) && workingLinks == old(workingLinks)
    {
      AllFileLinksWellFormed(order, contents);
      for i := 0 to |order|
        invariant links == old(links) + AllFileLinks(order[..i], contents)
        invariant files == old(files) && brokenLinks == old(brokenLinks) && workingLinks == old(workingLinks)
      {
        ghost var done := AllFileLinks(order[..i], contents);
        ghost var added := FileLinks(order[i], ContentOf(order[i], contents));
        AllFileLinksStep(order, contents, i);
        ExtractLinks(order[i], ContentOf(order[i], contents));
        AppendAssoc(old(links), done, added);
      }
      assert order[..|order|] == order;
    }

    /** One step of the validation loop of `run_validation`: the link goes to
        `working_links` when `validate_link` accepts it and to `broken_links` otherwise. */
    method Place(l: CleanLink)
      modifies this
      ensures ValidateLink(fs, root, l) ==> workingLinks == old(workingLinks) + [l] && brokenLinks == old(brokenLinks)
      ensures !ValidateLink(fs, root, l) ==> brokenLinks == old(brokenLinks) + [l] && workingLinks == old(workingLinks)
      ensures files == old(files) && links == old(links)
    {
      if ValidateLink(fs, root, l) {
        workingLinks := workingLinks + [l];
      } else {
        brokenLinks := brokenLinks + [l];
      }
    }

    /** The validation loop of `run_validation`: every link so far kept goes to
        `working_links` or `broken_links`. */
    method ValidateAll()
      modifies this
      ensures workingLinks == old(workingLinks) + Passing(links, Verdict(fs, root))
      ensures brokenLinks == old(brokenLinks) + Failing(links, Verdict(fs, root))
      ensures files == old(files) && links == old(links)
    {
      var ls := links;
      ghost var ok := Verdict(fs, root);
      for k := 0 to |ls|
        invariant files == old(files) && links == old(links) == ls
        invariant workingLinks == old(workingLinks) + Passing(ls[..k], ok)
        invariant brokenLinks == old(brokenLinks) + Failing(ls[..k], ok)
      {
        PartitionStep(ls, ok, k);
        ghost var w, b := Passing(ls[..k], ok), Failing(ls[..k], ok);
        AppendAssoc(old(workingLinks), w, if ok(ls[k]) then [ls[k]] else []);
        AppendAssoc(old(brokenLinks), b, if ok(ls[k]) then [] else [ls[k]]);
        Place(ls[k]);
      }
      assert ls[..|ls|] == ls;
    }

    /** `run_validation` up to its counts: find the files, extract the links of each in
        the order `order` in which the set of files is iterated, then judge every link. */
    method RunValidation(walk: seq<seq<string>>, order: seq<seq<string>>, contents: map<seq<string>, string>)
      returns (totalLinks: nat, workingCount: nat, brokenCount: nat)
      requires Valid()
      requires Distinct(order)
      requires forall rel :: rel in order <==> rel in files + Found(root, walk)
      modifies this
      ensures Valid()
      ensures files == old(files) + Found(root, walk)
      ensures links == old(links) + AllFileLinks(order, contents)
      ensures workingLinks == old(workingLinks) + Passing(links, Verdict(fs, root))
      ensures brokenLinks == old(brokenLinks) + Failing(links, Verdict(fs, root))
      ensures totalLinks == |links| && workingCount == |workingLinks| && brokenCount == |brokenLinks|
    {
      FindAllFiles(walk);
      ExtractAll(order, contents);
      ValidateAll();
      totalLinks, workingCount, brokenCount := |links|, |workingLinks|, |brokenLinks|;
    }
  }
}
