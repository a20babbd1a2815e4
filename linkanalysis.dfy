/** The root-cause analysis of `link_analysis_report.py`: it indexes the wiki's
    Markdown files, looks for files similar to the target of each broken link, sorts
    the broken links into issue categories and proposes a corrected path for each
    path mismatch. */
module LinkAnalysis {
  import opened Text
  import opened OsPath
  import opened Ranking

  // ---------------------------------------------------------------------------------
  // The index of existing files

  /** A dictionary's keys after `d[k] = True`: a new key goes last, a present one
      keeps its place. */
  function Add(keys: seq<string>, k: string): (r: seq<string>)
    ensures k in r && forall x :: x in keys ==> x in r
    ensures forall x :: x in r ==> x in keys || x == k
  {
    if k in keys then keys else keys + [k]
  }

  /** The keys of `actual_files`, in insertion order, after the loop over the relative
      paths `rels` of the wiki's ".md" files: each path, then the path with every
      ".md" removed. */
  function Index(rels: seq<string>): (r: seq<string>)
    ensures |r| <= 2 * |rels|
  {
    if rels == [] then []
    else
      var p := rels[|rels| - 1];
      Add(Add(Index(rels[..|rels| - 1]), p), RemoveAll(p, ".md"))
  }

  /** The index holds each key once, and exactly the relative paths and those paths
      without ".md". */
  lemma IndexSpec(rels: seq<string>)
    ensures Distinct(Index(rels))
    ensures forall x :: x in Index(rels) <==> exists p :: p in rels && (x == p || x == RemoveAll(p, ".md"))
  {
    IndexDistinct(rels);
    forall x ensures x in Index(rels) <==> Indexed(rels, x) {
      IndexHas(rels, x);
    }
  }

  /** `x` is one of the relative paths, or one of them without ".md". */
  ghost predicate Indexed(rels: seq<string>, x: string) {
    exists p :: p in rels && (x == p || x == RemoveAll(p, ".md"))
  }

  lemma IndexedSnoc(rels: seq<string>, x: string)
    requires rels != []
    ensures var p := rels[|rels| - 1];
      Indexed(rels, x) <==> Indexed(rels[..|rels| - 1], x) || x == p || x == RemoveAll(p, ".md")
  {
    var init, p := rels[..|rels| - 1], rels[|rels| - 1];
    assert rels == init + [p];
    if Indexed(init, x) {
      var q :| q in init && (x == q || x == RemoveAll(q, ".md"));
      assert q in rels;
    }
    if x == p || x == RemoveAll(p, ".md") {
      assert p in rels;
    }
    if Indexed(rels, x) {
      var q :| q in rels && (x == q || x == RemoveAll(q, ".md"));
      if q != p {
        assert q in init;
      }
    }
  }

  lemma AddHas(keys: seq<string>, k: string, x: string)
    ensures x in Add(keys, k) <==> x in keys || x == k
  {
  }

  lemma {:induction false} IndexHas(rels: seq<string>, x: string)
    ensures x in Index(rels) <==> Indexed(rels, x)
  {
    if rels != [] {
      var init, p := rels[..|rels| - 1], rels[|rels| - 1];
      IndexHas(init, x);
      IndexedSnoc(rels, x);
      AddHas(Index(init), p, x);
      AddHas(Add(Index(init), p), RemoveAll(p, ".md"), x);
    }
  }

  lemma {:induction false} IndexDistinct(rels: seq<string>)
    ensures Distinct(Index(rels))
  {
    if rels != [] {
      var init := rels[..|rels| - 1];
      var p := rels[|rels| - 1];
      IndexDistinct(init);
      AddDistinct(Index(init), p);
      AddDistinct(Add(Index(init), p), RemoveAll(p, ".md"));
    }
  }

  lemma AddDistinct(keys: seq<string>, k: string)
    requires Distinct(keys)
    ensures Distinct(Add(keys, k))
  {
  }

  // ---------------------------------------------------------------------------------
  // Similar files

  /** Some word occurs in `s`. */
  predicate AnyWordIn(words: seq<string>, s: string) {
    exists i | 0 <= i < |words| :: Contains(s, words[i])
  }

  /** The filename loop of `find_similar_files`: every key ending in ".md" that
      contains `filename`, in key order, whether or not already listed. */
  function NameLoop(filename: string, keys: seq<string>): (r: seq<string>)
    ensures |r| <= |keys|
  {
    if keys == [] then []
    else
      var x := keys[|keys| - 1];
      NameLoop(filename, keys[..|keys| - 1]) + (if Contains(x, filename) && EndsWith(x, ".md") then [x] else [])
  }

  /** The word loop of `find_similar_files`, starting from the list `acc`: every key
      ending in ".md", lower-cased containing one of `words`, and not yet listed. */
  function WordLoop(words: seq<string>, acc: seq<string>, keys: seq<string>): (r: seq<string>)
    ensures |acc| <= |r| <= |acc| + |keys|
  {
    if keys == [] then acc
    else
      var m := WordLoop(words, acc, keys[..|keys| - 1]);
      var x := keys[|keys| - 1];
      if AnyWordIn(words, Lower(x)) && EndsWith(x, ".md") && x !in m then m + [x] else m
  }

  /** `os.path.basename(target.replace('.md', ''))` */
  function FileName(target: string): string {
    Basename(RemoveAll(target, ".md"))
  }

  /** `find_similar_files`: the target itself when it is a key, then the filename
      loop, then the word loop, cut to three. */
  function FindSimilar(target: string, keys: seq<string>): (r: seq<string>)
    ensures |r| <= 3
  {
    var filename := FileName(target);
    var exact := if target in keys then [target] else [];
    var named := exact + NameLoop(filename, keys);
    Take(WordLoop(Split(Lower(filename), '-'), named, keys), 3)
  }

  /** The filename loop keeps exactly the keys ending in ".md" that contain the name. */
  lemma {:induction false} NameLoopSpec(filename: string, keys: seq<string>)
    ensures forall x :: x in NameLoop(filename, keys) <==> x in keys && Contains(x, filename) && EndsWith(x, ".md")
  {
    if keys != [] {
      var init := keys[..|keys| - 1];
      NameLoopSpec(filename, init);
      assert keys == init + [keys[|keys| - 1]];
    }
  }

  /** An empty name, as for a target ending in '/', is contained in every key: the
      filename loop lists every key ending in ".md". */
  lemma EmptyNameMatchesAll(keys: seq<string>)
    ensures forall x :: x in NameLoop("", keys) <==> x in keys && EndsWith(x, ".md")
  {
    NameLoopSpec("", keys);
    forall x | x in keys ensures Contains(x, "") {
      assert OccursAt(x, "", 0);
    }
  }

  /** The word loop extends its start, adds only keys ending in ".md", and never adds
      an entry already present. */
  lemma {:induction false} WordLoopSpec(words: seq<string>, acc: seq<string>, keys: seq<string>)
    ensures var m := WordLoop(words, acc, keys);
      && acc <= m
      && (forall i :: |acc| <= i < |m| ==> m[i] in keys && EndsWith(m[i], ".md") && m[i] !in m[..i])
  {
    if keys != [] {
      var init := keys[..|keys| - 1];
      var m := WordLoop(words, acc, init);
      WordLoopSpec(words, acc, init);
      var x := keys[|keys| - 1];
      if AnyWordIn(words, Lower(x)) && EndsWith(x, ".md") && x !in m {
        var m' := m + [x];
        assert m'[..|m|] == m;
        forall i | |acc| <= i < |m'| ensures m'[i] in keys && EndsWith(m'[i], ".md") && m'[i] !in m'[..i] {
          if i < |m| {
            assert m'[..i] == m[..i];
            assert m[i] in init;
          }
        }
      } else {
        forall i | |acc| <= i < |m| ensures m[i] in keys {
          assert m[i] in init;
        }
      }
    }
  }

  /** The word loop adds exactly the keys that end in ".md" and contain one of the
      words: every added entry contains a word, and every such key ends up in the
      result. */
  lemma {:induction false} WordLoopExact(words: seq<string>, acc: seq<string>, keys: seq<string>)
    ensures var m := WordLoop(words, acc, keys);
      && (forall i :: |acc| <= i < |m| ==> AnyWordIn(words, Lower(m[i])))
      && (forall x :: x in keys && AnyWordIn(words, Lower(x)) && EndsWith(x, ".md") ==> x in m)
  {
    if keys != [] {
      var init := keys[..|keys| - 1];
      var m := WordLoop(words, acc, init);
      WordLoopExact(words, acc, init);
      WordLoopSpec(words, acc, init);
      var x := keys[|keys| - 1];
      assert keys == init + [x];
      if AnyWordIn(words, Lower(x)) && EndsWith(x, ".md") && x !in m {
        var m' := m + [x];
        forall i | |acc| <= i < |m'| ensures AnyWordIn(words, Lower(m'[i])) {
          if i < |m| {
            assert m'[i] == m[i];
          }
        }
        forall y | y in keys && AnyWordIn(words, Lower(y)) && EndsWith(y, ".md") ensures y in m' {
          if y != x {
            assert y in init;
          }
        }
      } else {
        forall y | y in keys && AnyWordIn(words, Lower(y)) && EndsWith(y, ".md") ensures y in m {
          if y != x {
            assert y in init;
          }
        }
      }
    }
  }

  /** `find_similar_files` returns at most three paths, each a key; a target that is a
      key comes first; every other entry ends in ".md". */
  lemma FindSimilarSpec(target: string, keys: seq<string>)
    ensures var r := FindSimilar(target, keys);
      && (target in keys ==> r != [] && r[0] == target)
      && (forall x :: x in r ==> x in keys)
      && (forall x :: x in r ==> x == target || EndsWith(x, ".md"))
  {
    var filename := FileName(target);
    var exact := if target in keys then [target] else [];
    var named := exact + NameLoop(filename, keys);
    var m := WordLoop(Split(Lower(filename), '-'), named, keys);
    NameLoopSpec(filename, keys);
    WordLoopMembers(Split(Lower(filename), '-'), named, keys);
    PrefixIn(FindSimilar(target, keys), m);
    if target in keys {
      WordLoopSpec(Split(Lower(filename), '-'), named, keys);
      assert m[0] == named[0] == target;
    }
  }

  /** Every entry of the word loop's result was there at the start, or is a key ending
      in ".md". */
  lemma WordLoopMembers(words: seq<string>, acc: seq<string>, keys: seq<string>)
    ensures forall x :: x in WordLoop(words, acc, keys) ==> x in acc || (x in keys && EndsWith(x, ".md"))
  {
    var m := WordLoop(words, acc, keys);
    WordLoopSpec(words, acc, keys);
    forall x | x in m ensures x in acc || (x in keys && EndsWith(x, ".md")) {
      var i :| 0 <= i < |m| && m[i] == x;
      if i < |acc| {
        assert acc[i] == x;
      }
    }
  }

  lemma PrefixIn<T>(r: seq<T>, m: seq<T>)
    requires r <= m
    ensures forall x :: x in r ==> x in m
  {
    forall x | x in r ensures x in m {
      var i :| 0 <= i < |r| && r[i] == x;
      assert m[i] == x;
    }
  }

  lemma DupFileName(t: string)
    requires t == "a.md"
    ensures FileName(t) == "a"
  {
    assert t[..3][0] == 'a';
    assert t[1..] == ".md";
    assert RemoveAll(t[1..], ".md") == "";
    assert RemoveAll(t, ".md") == "a";
    assert LastIndexOf("a", '/') == -1;
  }

  lemma DupNameLoop(keys: seq<string>)
    requires keys == ["a.md", "a"]
    ensures NameLoop("a", keys) == ["a.md"]
  {
    assert OccursAt(keys[0], "a", 0) && Contains(keys[0], "a");
    assert keys[0][1..] == ".md" && EndsWith(keys[0], ".md");
    assert !EndsWith(keys[1], ".md");
    assert keys[..1] == ["a.md"] && keys[..1][..0] == [];
    assert NameLoop("a", keys[..1]) == ["a.md"];
  }

  lemma DupWordLoop(keys: seq<string>, named: seq<string>, words: seq<string>)
    requires keys == ["a.md", "a"] && named == ["a.md", "a.md"]
    ensures WordLoop(words, named, keys) == named
  {
    assert !EndsWith(keys[1], ".md");
    assert keys[..1] == ["a.md"] && keys[..1][..0] == [];
    assert keys[0] in named;
    assert WordLoop(words, named, keys[..1]) == named;
  }

  /** The filename loop does not check for duplicates: for the index of "a.md", the
      target "a.md" is listed twice. */
  lemma NameLoopDuplicates(target: string, keys: seq<string>)
    requires target == "a.md" && keys == ["a.md", "a"]
    ensures FindSimilar(target, keys) == [target, target]
  {
    DupFileName(target);
    DupNameLoop(keys);
    DupWordLoop(keys, ["a.md", "a.md"], Split(Lower("a"), '-'));
    assert [target] + ["a.md"] == ["a.md", "a.md"];
  }

  // ---------------------------------------------------------------------------------
  // Issue categories

  /** One entry of `all_broken_links`. */
  datatype BrokenLink = BrokenLink(file: string, url: string, text: string)

  /** The categories `analyze_link_issues` fills. */
  datatype Category = AnchorIssue | PathMismatch | MissingFile

  /** One issue: anchor issues and path mismatches keep the similar files found. */
  datatype Issue =
    | Matched(file: string, brokenLink: string, text: string, matches: seq<string>)
    | Missing(file: string, brokenLink: string, text: string)

  /** The five lists of `issues`. */
  datatype Issues = Issues(
    wrongDirectory: seq<Issue>,
    missingFiles: seq<Issue>,
    anchorIssues: seq<Issue>,
    pathMismatch: seq<Issue>,
    structureMismatch: seq<Issue>)

  /** The category of a broken link, tested in order: a '#' in the url, then at least
      one similar file, otherwise missing. */
  function CategoryOf(url: string, keys: seq<string>): (c: Category)
    ensures c == AnchorIssue <==> '#' in url
    ensures c == PathMismatch ==> FindSimilar(url, keys) != []
    ensures c == MissingFile ==> FindSimilar(url, keys) == []
  {
    if '#' in url then AnchorIssue
    else if FindSimilar(url, keys) != [] then PathMismatch
    else MissingFile
  }

  /** The entry recorded for a broken link. */
  function IssueOf(l: BrokenLink, keys: seq<string>): Issue {
    if CategoryOf(l.url, keys) == MissingFile then Missing(l.file, l.url, l.text)
    else Matched(l.file, l.url, l.text, FindSimilar(l.url, keys))
  }

  /** The entries of the broken links `ls` in category `c`, in order. */
  function Select(ls: seq<BrokenLink>, keys: seq<string>, c: Category): seq<Issue> {
    if ls == [] then []
    else
      var l := ls[|ls| - 1];
      Select(ls[..|ls| - 1], keys, c) + (if CategoryOf(l.url, keys) == c then [IssueOf(l, keys)] else [])
  }

  /** `issues` after the loop over the broken links `ls`. */
  function Categorized(ls: seq<BrokenLink>, keys: seq<string>): Issues {
    Issues([], Select(ls, keys, MissingFile), Select(ls, keys, AnchorIssue), Select(ls, keys, PathMismatch), [])
  }

  /** Every broken link is filed exactly once. */
  lemma {:induction false} CategorizedTotal(ls: seq<BrokenLink>, keys: seq<string>)
    ensures var cs := Categorized(ls, keys);
      && cs.wrongDirectory == [] && cs.structureMismatch == []
      && |cs.missingFiles| + |cs.anchorIssues| + |cs.pathMismatch| == |ls|
  {
    if ls != [] {
      CategorizedTotal(ls[..|ls| - 1], keys);
    }
  }

  /** The entries in category `c` are exactly those of the links in `c`: an anchor
      issue has '#' in its url; a path mismatch has none and lists its similar files,
      at least one; a missing file has neither. */
  lemma {:induction false} SelectSpec(ls: seq<BrokenLink>, keys: seq<string>, c: Category)
    ensures forall x :: x in Select(ls, keys, c) <==> exists l :: l in ls && CategoryOf(l.url, keys) == c && x == IssueOf(l, keys)
    ensures forall x :: x in Select(ls, keys, c) ==>
      && CategoryOf(x.brokenLink, keys) == c
      && (c == AnchorIssue ==> '#' in x.brokenLink && x.Matched?)
      && (c == PathMismatch ==> '#' !in x.brokenLink && x.Matched? && x.matches != [] && x.matches == FindSimilar(x.brokenLink, keys))
      && (c == MissingFile ==> '#' !in x.brokenLink && x.Missing? && FindSimilar(x.brokenLink, keys) == [])
  {
    if ls != [] {
      var init := ls[..|ls| - 1];
      SelectSpec(init, keys, c);
      assert ls == init + [ls[|ls| - 1]];
    }
  }

  lemma SelectStep(ls: seq<BrokenLink>, keys: seq<string>, c: Category, i: nat)
    requires i < |ls|
    ensures Select(ls[..i + 1], keys, c) == Select(ls[..i], keys, c) + (if CategoryOf(ls[i].url, keys) == c then [IssueOf(ls[i], keys)] else [])
  {
    assert ls[..i + 1][..i] == ls[..i];
  }

  // ---------------------------------------------------------------------------------
  // Path corrections

  /** `issue['matches'][0] if issue['matches'] else None`, with `None` as "": both
      are false to the test that follows. */
  function FirstMatch(issue: Issue): string {
    if issue.Matched? && issue.matches != [] then issue.matches[0] else ""
  }

  /** `directory_fixes` after the loop over the path mismatches `pm`. */
  function Fixes(pm: seq<Issue>): (f: map<string, string>)
    ensures forall u :: u in f ==> f[u] != ""
  {
    if pm == [] then map[]
    else
      var f := Fixes(pm[..|pm| - 1]);
      var issue := pm[|pm| - 1];
      if FirstMatch(issue) != "" then f[issue.brokenLink := FirstMatch(issue)] else f
  }

  /** An issue that proposes a correction. */
  predicate Proposes(issue: Issue, u: string) {
    issue.brokenLink == u && FirstMatch(issue) != ""
  }

  /** A url gets a correction exactly when some path mismatch with that url proposes
      one. */
  lemma {:induction false} FixesKeys(pm: seq<Issue>)
    ensures forall u :: u in Fixes(pm) <==> exists k :: 0 <= k < |pm| && Proposes(pm[k], u)
  {
    if pm != [] {
      var n := |pm| - 1;
      var init := pm[..n];
      FixesKeys(init);
      forall u | u in Fixes(pm) ensures exists k :: 0 <= k < |pm| && Proposes(pm[k], u) {
        if !Proposes(pm[n], u) {
          assert u in Fixes(init);
          var k :| 0 <= k < |init| && Proposes(init[k], u);
          assert pm[k] == init[k];
        }
      }
      forall u | exists k :: 0 <= k < |pm| && Proposes(pm[k], u) ensures u in Fixes(pm) {
        var k :| 0 <= k < |pm| && Proposes(pm[k], u);
        if k < n {
          assert init[k] == pm[k];
        }
      }
    }
  }

  /** The correction of a url is that of the last path mismatch proposing one for it:
      later issues overwrite earlier ones. */
  lemma {:induction false} FixesLast(pm: seq<Issue>, u: string)
    requires u in Fixes(pm)
    ensures exists k :: (
      && 0 <= k < |pm| && Proposes(pm[k], u)
      && Fixes(pm)[u] == FirstMatch(pm[k])
      && forall j :: k < j < |pm| ==> !Proposes(pm[j], u))
  {
    var n := |pm| - 1;
    var init := pm[..n];
    if !Proposes(pm[n], u) {
      assert u in Fixes(init) && Fixes(pm)[u] == Fixes(init)[u];
      FixesLast(init, u);
      var k :| 0 <= k < |init| && Proposes(init[k], u)
        && Fixes(init)[u] == FirstMatch(init[k]) && forall j :: k < j < |init| ==> !Proposes(init[j], u);
      assert pm[k] == init[k];
      forall j | k < j < |pm| ensures !Proposes(pm[j], u) {
        if j < n {
          assert pm[j] == init[j];
        }
      }
    }
  }

  /** Every path mismatch proposes a correction unless its first similar file is the
      empty key. */
  lemma PathMismatchProposes(ls: seq<BrokenLink>, keys: seq<string>)
    ensures forall x :: x in Select(ls, keys, PathMismatch) && FirstMatch(x) != "" ==> x.brokenLink in Fixes(Select(ls, keys, PathMismatch))
  {
    var pm := Select(ls, keys, PathMismatch);
    SelectSpec(ls, keys, PathMismatch);
    FixesKeys(pm);
    forall x | x in pm && FirstMatch(x) != "" ensures x.brokenLink in Fixes(pm) {
      var k :| 0 <= k < |pm| && pm[k] == x;
      assert Proposes(pm[k], x.brokenLink);
    }
  }

  // ---------------------------------------------------------------------------------
  // The analysis

  /** The loop of `analyze_link_issues` that fills `actual_files`. */
  method BuildIndex(rels: seq<string>) returns (keys: seq<string>)
    ensures keys == Index(rels)
  {
    keys := [];
    for i := 0 to |rels|
      invariant keys == Index(rels[..i])
    {
      assert rels[..i + 1][..i] == rels[..i];
      var relPath := rels[i];
      if relPath !in keys {
        keys := keys + [relPath];
      }
      var stripped := RemoveAll(relPath, ".md");
      if stripped !in keys {
        keys := keys + [stripped];
      }
    }
    assert rels[..|rels|] == rels;
  }

  /** The filename loop of `find_similar_files`, appending to `matches`. */
  method AppendByName(matches: seq<string>, filename: string, keys: seq<string>) returns (r: seq<string>)
    ensures r == matches + NameLoop(filename, keys)
  {
    r := matches;
    for i := 0 to |keys|
      invariant r == matches + NameLoop(filename, keys[..i])
    {
      assert keys[..i + 1][..i] == keys[..i];
      var filePath := keys[i];
      if Contains(filePath, filename) && EndsWith(filePath, ".md") {
        r := r + [filePath];
      }
    }
    assert keys[..|keys|] == keys;
  }

  /** The word loop of `find_similar_files`, appending to `matches`. */
  method AppendByWord(matches: seq<string>, words: seq<string>, keys: seq<string>) returns (r: seq<string>)
    ensures r == WordLoop(words, matches, keys)
  {
    r := matches;
    for i := 0 to |keys|
      invariant r == WordLoop(words, matches, keys[..i])
    {
      assert keys[..i + 1][..i] == keys[..i];
      var filePath := keys[i];
      if AnyWordIn(words, Lower(filePath)) {
        if EndsWith(filePath, ".md") && filePath !in r {
          r := r + [filePath];
        }
      }
    }
    assert keys[..|keys|] == keys;
  }

  /** `find_similar_files` */
  method FindSimilarFiles(targetUrl: string, keys: seq<string>) returns (r: seq<string>)
    ensures r == FindSimilar(targetUrl, keys)
  {
    var matches: seq<string> := [];
    var baseTarget := RemoveAll(targetUrl, ".md");
    if targetUrl in keys {
      matches := matches + [targetUrl];
    }
    assert matches == if targetUrl in keys then [targetUrl] else [];
    var filename := Basename(baseTarget);
    matches := AppendByName(matches, filename, keys);
    matches := AppendByWord(matches, Split(Lower(filename), '-'), keys);
    r := Take(matches, 3);
  }

  /** The categorising loop of `analyze_link_issues`. */
  method Categorize(ls: seq<BrokenLink>, keys: seq<string>) returns (issues: Issues)
    ensures issues == Categorized(ls, keys)
  {
    issues := Issues([], [], [], [], []);
    for i := 0 to |ls|
      invariant issues == Categorized(ls[..i], keys)
    {
      SelectStep(ls, keys, MissingFile, i);
      SelectStep(ls, keys, AnchorIssue, i);
      SelectStep(ls, keys, PathMismatch, i);
      var l := ls[i];
      var possibleMatches := FindSimilarFiles(l.url, keys);
      if '#' in l.url {
        issues := issues.(anchorIssues := issues.anchorIssues + [Matched(l.file, l.url, l.text, possibleMatches)]);
      } else if possibleMatches != [] {
        issues := issues.(pathMismatch := issues.pathMismatch + [Matched(l.file, l.url, l.text, possibleMatches)]);
      } else {
        issues := issues.(missingFiles := issues.missingFiles + [Missing(l.file, l.url, l.text)]);
      }
    }
    assert ls[..|ls|] == ls;
  }

  /** The loop of `analyze_link_issues` that fills `directory_fixes`. */
  method DirectoryFixes(pm: seq<Issue>) returns (fixes: map<string, string>)
    ensures fixes == Fixes(pm)
  {
    fixes := map[];
    for i := 0 to |pm|
      invariant fixes == Fixes(pm[..i])
    {
      assert pm[..i + 1][..i] == pm[..i];
      var issue := pm[i];
      var correct := if issue.Matched? && issue.matches != [] then issue.matches[0] else "";
      if correct != "" {
        fixes := fixes[issue.brokenLink := correct];
      }
    }
    assert pm[..|pm|] == pm;
  }

  /** `analyze_link_issues` on the relative paths `rels` of the wiki's ".md" files and
      the broken links of the validation results: the issues and the corrections. */
  method AnalyzeLinkIssues(rels: seq<string>, broken: seq<BrokenLink>) returns (issues: Issues, fixes: map<string, string>)
    ensures issues == Categorized(broken, Index(rels))
    ensures fixes == Fixes(issues.pathMismatch)
    ensures |issues.missingFiles| + |issues.anchorIssues| + |issues.pathMismatch| == |broken|
  {
    var keys := BuildIndex(rels);
    issues := Categorize(broken, keys);
    fixes := DirectoryFixes(issues.pathMismatch);
    CategorizedTotal(broken, keys);
  }
}
