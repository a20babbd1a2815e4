# Link checkers of the Matrix Online wiki, modelled in Dafny

The mxo-wiki repository ships five Python scripts that check the markdown links of the
wiki. Each one finds the markdown files, extracts their links, sorts each link into a
kind, resolves the internal ones against the files on disk, and counts what works and
what is broken. This project models that pipeline, script by script, and proves what
each stage promises.

- `validate_links.py` is modelled by `ValidateLinks`. It extracts inline, reference and
  wiki links and sorts each into six categories. It tries up to six candidate paths for
  the three internal categories and fills `self.results` and the per-file statistics.
- `link_validator.py` is modelled by `LinkValidator`. It builds an index of every file
  with and without ".md" and tries four targets against that index. It records broken
  links per file, per category and in one list, then ranks the files by broken links.
- `validate_links_final_clean.py` is modelled by `FinalClean`. It lists the non-hidden,
  non-report markdown files and keeps the internal links with their fragment cut off.
  It then partitions the links into working and broken, and sorts the broken ones for
  the report.
- `tools/validate_wiki_links.py` is modelled by `WikiTool`. It walks the tree without
  hidden and vendor directories and gives each link a line number. It validates each
  link, counts the kinds, analyses the broken urls and maps health to a grade and an
  exit code.
- `link_analysis_report.py` is modelled by `LinkAnalysis`. It builds the `actual_files`
  index and suggests at most three similar files for a broken link. It buckets the
  broken links and builds the `directory_fixes` map.

Shared modules:
- `Scanner` replays `re.findall` for the scripts' four link patterns. It scans left to
  right, takes the match at the first position where one starts, and continues where
  that match ends.
- `Text` models the string methods the scripts call: `strip`, `split`, `find`,
  `replace(..., '')`, `lstrip` and `lower`.
- `OsPath` models `os.path`: `dirname`, `basename`, `join` and `normpath`.
- `PathLib` models the pure parts of `pathlib`: parsing, the `/` operator, `parent`,
  `suffix`, `with_suffix` and lexical `resolve`.
- `Disk` is the filesystem: a snapshot of the existing regular files and directories,
  queried through `exists`, `is_file` and `isdir`.
- `Ranking` holds `Counter` counts, `most_common` and a stable sort by key.
- `Wrappers` holds `Option`.

The scripts keep their state on an object. Each checker is therefore a class:
- `ValidateLinks.Validator`
- `LinkValidator.Validator`
- `FinalClean.WikiLinkValidator`
- `WikiTool.WikiLinkValidator`

The methods of each class update its fields. Each method is proved against a pure
function of the old state, such as `Walk`, `Run`, `Passing`/`Failing` or `Types`. The
invariants the scripts rely on are lemmas about those functions.

In two places the code does less than its comments suggest, and the model follows the code:
- In `validate_internal_link`, the candidate `root/u[1:].md` is only tried when `u[1:]`
  does not already end in ".md" (validate_links.py:115).
- Two scripts fall back to a directory holding "index.md" when a target is missing. That
  check never changes the verdict: a directory already passes `exists()`
  (FinalClean.ValidateLinkSpec, WikiTool.ValidateLinkSpec).

## Model

| member | source | states |
|---|---|---|
| Scanner.FindAllSound | validate_links.py:36 | every hit the scanner reports is an occurrence, at its position, of the pattern's text for its two groups, and the groups belong to the pattern's character classes |
| Scanner.MatchesAccepted | link_validator.py:39-40 | every pair of groups `re.findall` yields is accepted by the pattern: no ']' in the text, a non-empty url without ')' |
| Scanner.FindAllLeftmost | validate_links.py:36 | matching is leftmost and non-overlapping: any position where the pattern matches lies inside some reported hit |
| Scanner.ScanLeftmost | validate_links.py:36 | the scan from position i covers every later position where a match starts, and returns the index of the hit that covers it |
| Scanner.MatchesRenderAll | validate_links_final_clean.py:43-44 | a document made of rendered links yields exactly those links, in order |
| Scanner.MatchesPlaced | tools/validate_wiki_links.py:33-34 | a text made only of rendered links, each starting where the previous one ends, reads back as exactly those links, in order |
| Text.Find | tools/validate_wiki_links.py:41 | `find` returns -1 exactly when the substring is absent, and otherwise its first occurrence |
| Text.Split | link_validator.py:65-73 | `split` gives at least one piece, no piece holds the separator, and joining the pieces gives back the string |
| Text.SplitJoin | link_validator.py:73 | splitting a join of separator-free pieces gives back the pieces |
| Text.CutAt | validate_links.py:95 | `url.split('#')[0]` is a prefix without '#' that stops at the first '#' |
| Text.RemoveMdAppend | link_validator.py:34 | removing every ".md" from `s + ".md"` equals removing it from `s`, so a file and its stem index alike |
| Text.StripSpec | validate_links.py:40-41 | `strip` returns the middle slice of the string, after leading and before trailing whitespace, and the slice neither starts nor ends with whitespace |
| Text.StripIdempotent | validate_links.py:40-41 | stripping twice is stripping once |
| Text.LStrip | link_validator.py:69 | `lstrip('/')` drops exactly the leading run of '/' |
| OsPath.DirnameJoin | link_validator.py:65-72 | `dirname` and `basename` undo `join` of a directory and a name |
| OsPath.NormpathIdempotent | link_validator.py:73 | `normpath` of a normalised path changes nothing |
| OsPath.NormpathOfNormal | link_validator.py:73 | a path of at most two leading slashes and normal components is its own `normpath` |
| OsPath.NormpathRelative | link_validator.py:73 | `normpath` of a relative path is relative |
| OsPath.JoinRelative | tools/validate_wiki_links.py:71 | a relative link from a relative file resolves to a relative path |
| PathLib.Parse | validate_links.py:87 | a parsed path is absolute exactly when the string starts with '/', and its parts are proper components |
| PathLib.ParseToString | validate_links_final_clean.py:59 | `str` then `Path` gives back the same path |
| PathLib.Suffix | validate_links_final_clean.py:84 | the suffix is empty or a proper ".x" ending of the name |
| PathLib.Resolve | validate_links_final_clean.py:77 | `resolve()` gives an absolute path |
| Ranking.TallyTotal | tools/validate_wiki_links.py:98 | the counts of a `Counter` over a sequence add up to its length |
| Ranking.SortPerm | link_validator.py:207 | sorting is a permutation |
| Ranking.SortSorted | validate_links_final_clean.py:242 | sorting by a total order gives a sorted sequence |
| Ranking.SortStable | validate_links_final_clean.py:242 | the sort is stable: when a later element is ordered no higher than an earlier one, the two stood in that order in the input |
| Ranking.SortByCountDescSpec | link_validator.py:206-207 | `sorted(..., key=count, reverse=True)` is a permutation in non-increasing count order |
| Ranking.SortByCountDescStable | link_validator.py:206-207 | pairs with equal counts keep their input order, as Python's stable `sorted` with `reverse=True` does |
| Ranking.MostCommonSpec | tools/validate_wiki_links.py:107 | `most_common(n)` lists min(n, distinct keys) keys of the sequence, each with its true count, in non-increasing count order |
| Ranking.MostCommonTies | tools/validate_wiki_links.py:107 | `most_common(n)` lists keys with equal counts in the order they are first seen |
| Ranking.MostCommonTop | tools/validate_wiki_links.py:107 | a key left out of `most_common(n)` occurs no more often than the last key listed |
| Ranking.Take | tools/validate_wiki_links.py:170 | `s[:n]` is a prefix of at most n elements, and all of s when it is shorter |
| ValidateLinks.MakeLinksAt | validate_links.py:37-43 | the k-th match becomes the k-th link, with stripped text and url |
| ValidateLinks.AppendLinks | validate_links.py:37-63 | each append loop adds exactly the links of its matches, in order, after the earlier ones |
| ValidateLinks.ExtractLinks | validate_links.py:31-65 | `extract_links` returns the inline links, then the reference links, then the wiki links |
| ValidateLinks.MakeLinkStripped | validate_links.py:38-43 | every link's text and url are whitespace-stripped and it names its file and kind |
| ValidateLinks.ExtractedStripped | validate_links.py:36-63 | there is one link per match of the three patterns, each stripped and naming its file |
| ValidateLinks.ReferenceWithoutRef | validate_links.py:51 | a reference link `[text][]` takes its stripped text as its url |
| ValidateLinks.ExtractedInlineDocument | validate_links.py:36-43 | a document of inline links yields exactly those links, stripped, in order, before any others |
| ValidateLinks.LowerStartsWith | validate_links.py:69-73 | lowercasing never changes whether the url starts with a prefix that has no letters |
| ValidateLinks.CategorizeLink | validate_links.py:67-82 | a url starting with "http" is external, and a validated url starts with neither "http" nor '#', whatever the case of the rest |
| ValidateLinks.CategorizeValidated | validate_links.py:69-82 | a link is validated exactly when its lowercased url starts with neither "http" nor "#" and ends in ".md", contains '/' or starts with '.' |
| ValidateLinks.CategorizeAnchor | validate_links.py:69-74 | a url is an anchor exactly when it starts with '#', and an anchor is never validated |
| ValidateLinks.Tries | validate_links.py:98-116 | between two and six candidates are tried |
| ValidateLinks.Candidates | validate_links.py:98-116 | each candidate is its directory joined with its name by the pathlib `/` operator |
| ValidateLinks.CandidatesRootRelative | validate_links.py:101-114 | for a url starting with '/', the first two candidates are both the url itself, because `/` drops the left side, and the root-joined `u[1:]` is among the candidates |
| ValidateLinks.CandidatesPlain | validate_links.py:98-109 | a plain relative url without ".md" or fragment gives the four candidates source-dir/u, root/u, source-dir/u.md, root/u.md in that order |
| ValidateLinks.FirstFile | validate_links.py:119-121 | the first candidate that is an existing regular file, with no earlier one existing, or none when no candidate exists |
| ValidateLinks.FirstFileIs | validate_links.py:119-121 | the first existing candidate is the one found |
| ValidateLinks.SearchCandidates | validate_links.py:119-123 | the loop over `possible_paths` finds the first existing regular file |
| ValidateLinks.PossiblePaths | validate_links.py:95-116 | `possible_paths`, built step by step, is the candidate list |
| ValidateLinks.VerdictSpec | validate_links.py:84-123 | a link is valid exactly when it is an anchor or some candidate is an existing regular file; the path reported is the first such; a failure lists exactly the first three candidates (all of them when there are fewer), none of which exists |
| ValidateLinks.ValidateInternalLink | validate_links.py:84-123 | `validate_internal_link` answers the verdict above |
| ValidateLinks.IncTotal | validate_links.py:148 | counting a category adds one to it and to the counter's total |
| ValidateLinks.ValidatedCount | validate_links.py:190 | the working links of a validated category are at most all working links |
| ValidateLinks.Fresh | validate_links.py:17-25 | the initial results satisfy every invariant |
| ValidateLinks.JudgeBroken | validate_links.py:147-181 | a link's result has its own category; only a validated, non-anchor link can be broken; any other link is working with detail `external_or_anchor` |
| ValidateLinks.AppendListed | validate_links.py:169-181 | listing a result under its category adds one to the listed total, and to the validated total exactly when its category is validated |
| ValidateLinks.ValidatedCountSnoc | validate_links.py:190 | appending a result adds one to the validated count exactly when it is validated |
| ValidateLinks.RecordCounted | validate_links.py:146-181 | recording a link keeps total = working + broken = listed, and broken + validated working = validated listed |
| ValidateLinks.RecordFiled | validate_links.py:151-181 | recording a link keeps broken links validated and invalid, working links valid, every list holding its own category |
| ValidateLinks.RecordConsistent | validate_links.py:145-181 | recording one link keeps all of the results' invariants |
| ValidateLinks.StoreStats | validate_links.py:183 | storing consistent file statistics keeps the invariants |
| ValidateLinks.RecordAllConsistent | validate_links.py:145-181 | recording a file's links keeps the invariants and adds one to `total_links` per link, leaving the file statistics alone |
| ValidateLinks.TickAllCounts | validate_links.py:138-181 | the per-file counters grow by one working-or-broken and one category per link, and broken by the number of invalid results |
| ValidateLinks.StatsOfConsistent | validate_links.py:138-181 | a file's statistics have working + broken = total_links = categories total, and broken = its invalid results |
| ValidateLinks.FileResults | validate_links.py:137-145 | one result per extracted link |
| ValidateLinks.JudgeAll | validate_links.py:145-181 | one result per link |
| ValidateLinks.FileResultsBroken | validate_links.py:151-181 | every broken result of a file has a validated category |
| ValidateLinks.RecordFileConsistent | validate_links.py:132-183 | a readable file keeps the invariants, adds its link count to `total_links` and adds its relative name to `file_stats` |
| ValidateLinks.WalkConsistent | validate_links.py:125-186 | the whole walk keeps the invariants, and `total_links` grows by exactly the links of the readable files |
| ValidateLinks.ReadNamesSpec | validate_links.py:132-186 | a name has file statistics exactly when some walked file of that name was read |
| ValidateLinks.WalkStats | validate_links.py:132-186 | after the walk, `file_stats` holds exactly the earlier keys and the names of the readable files |
| ValidateLinks.RecordAllStats | validate_links.py:145-181 | recording links leaves `file_stats` unchanged |
| ValidateLinks.InternalTotalListed | validate_links.py:190 | the report's internal total is the number of links listed under the three validated categories and at most `total_links` |
| ValidateLinks.Validator.constructor | validate_links.py:15-25 | a new validator has empty results |
| ValidateLinks.Validator.ProcessLink | validate_links.py:146-181 | one link's result is recorded as `Record` says |
| ValidateLinks.Validator.ProcessLinks | validate_links.py:145-181 | the loop over a file's links records every result and returns the file's statistics |
| ValidateLinks.Validator.ProcessFile | validate_links.py:137-183 | one file's links are recorded and its statistics stored |
| ValidateLinks.Validator.ValidateAllLinks | validate_links.py:125-186 | `validate_all_links` sets `total_files` and records every readable file as `Walk` says, keeping the invariants |
| LinkValidator.FileIndexSpec | link_validator.py:28-34 | the index holds exactly each walked path and that path with every ".md" removed |
| LinkValidator.IndexHoldsStem | link_validator.py:34 | a file `stem.md` puts both `stem` and `stem.md` in the index |
| LinkValidator.ClassifyLink | link_validator.py:52-61 | a url is external exactly when it starts with "http://" or "https://", and an anchor exactly when it starts with '#' |
| LinkValidator.ClassifyLinkSpec | link_validator.py:52-61 | a url is internal exactly when it starts with none of "http://", "https://" and "#", and absolute-internal exactly when it starts with '/' |
| LinkValidator.Extracted | link_validator.py:36-50 | one link per match |
| LinkValidator.ExtractLinks | link_validator.py:36-50 | the extraction loop returns the matches, each tagged by `classify_link` |
| LinkValidator.ExtractedSpec | link_validator.py:39-48 | every extracted url is non-empty without ')', the text has no ']', and the type is the url's classification |
| LinkValidator.ResolveLinkPath | link_validator.py:63-75 | a url starting with '/' resolves to its own tail, with no leading '/' left |
| LinkValidator.ResolveStaysRelative | link_validator.py:63-75 | resolving a link from a root-relative file never gives a path starting with '/' |
| LinkValidator.FirstIndexed | link_validator.py:99-101 | the first target in the index, with none before it, or none at all |
| LinkValidator.FirstIndexedIs | link_validator.py:99-101 | the first indexed target is the one found |
| LinkValidator.Check | link_validator.py:77-107 | only an internal link can fail, and only when its resolved path is not a directory |
| LinkValidator.CheckSpec | link_validator.py:77-107 | a link passes exactly when it is not internal, one of the four targets is indexed, or the resolved path is a directory; a failure gives the "Missing" reason |
| LinkValidator.MissingReasonMentionsIndex | link_validator.py:92-107 | every failure reason contains "index.md" |
| LinkValidator.CategorizeBrokenLink | link_validator.py:147-159 | the category is `missing_index` exactly when the reason mentions "index.md"; `missing_md_file` only for a url ending in ".md"; `missing_directory_or_file` only for a url with '/' that does not end in ".md" |
| LinkValidator.BrokenAreMissingIndex | link_validator.py:147-159 | every link `check_link_exists` rejects is categorised `missing_index` |
| LinkValidator.BrokenOfSpec | link_validator.py:127-138 | a file's broken links are at most its links, all internal, all `missing_index` |
| LinkValidator.IncTotal | link_validator.py:128 | counting a type adds one to the type total |
| LinkValidator.CountTypesTotal | link_validator.py:127-128 | counting a file's links adds their number to the type total |
| LinkValidator.Entries | link_validator.py:197-203 | one entry of `all_broken_links` per broken link |
| LinkValidator.FileAllTotal | link_validator.py:190-195 | filing a file's broken links by category adds their number to the listed total |
| LinkValidator.BrokenCounts | link_validator.py:206 | `broken_counts` pairs each file with its number of broken links |
| LinkValidator.RunSnoc | link_validator.py:176-203 | the run over one more file is one more step |
| LinkValidator.RecordResultCounted | link_validator.py:179-203 | a file's result keeps `broken_links` equal to the summed lengths, the entries and the categorised links; a file that failed to read adds nothing |
| LinkValidator.StepConsistent | link_validator.py:176-203 | one file keeps the invariants and adds its link count to `total_links` when it was read, nothing otherwise |
| LinkValidator.RunConsistent | link_validator.py:161-203 | the run keeps `broken_links` = summed lengths = `len(all_broken_links)` and the type total = `total_links`, and only files with broken links are keys |
| LinkValidator.RunAllMissingIndex | link_validator.py:185-203 | every recorded broken link is categorised `missing_index` |
| LinkValidator.RunFilesDistinct | link_validator.py:185-186 | each file appears at most once in `files_with_broken_links`, and only walked files appear |
| LinkValidator.MostBrokenSpec | link_validator.py:205-207 | `most_broken_files` is a permutation of the files' broken counts in non-increasing order |
| LinkValidator.Validator.constructor | link_validator.py:14-26 | a new validator has an empty index and fresh results |
| LinkValidator.Validator.FindAllFiles | link_validator.py:28-34 | `find_all_files` adds exactly the index entries of the walk |
| LinkValidator.Validator.CheckLinkExists | link_validator.py:77-107 | `check_link_exists` answers the verdict above |
| LinkValidator.Validator.ValidateFile | link_validator.py:109-145 | `validate_file` returns the file's outcome and counts the types of the links it read |
| LinkValidator.Validator.RecordBrokenLinks | link_validator.py:189-203 | the loop over a file's broken links files and lists each one |
| LinkValidator.Validator.CheckAndRecord | link_validator.py:176-203 | one iteration of the file loop is one step of the run |
| LinkValidator.Validator.RunValidation | link_validator.py:161-209 | `run_validation` builds the index, runs every file and ranks the files by broken links |
| FinalClean.FoundSpec | validate_links_final_clean.py:22-34 | a relative path is kept exactly when the walk yields it and it passes the filter |
| FinalClean.ListedSpec | validate_links_final_clean.py:24-34 | a kept path ends in ".md", is not a report, and has no component, in itself or in the root, starting with '.' |
| FinalClean.ExcludedScriptsNeverMatch | validate_links_final_clean.py:24-34 | for a ".md" name only the two report names are ever excluded |
| FinalClean.KeepLinks | validate_links_final_clean.py:46-63 | no more links are kept than matched |
| FinalClean.CleanUrlNotEmpty | validate_links_final_clean.py:56-57 | an accepted url that is not skipped never cuts to "" |
| FinalClean.KeepLinksSpec | validate_links_final_clean.py:42-63 | every kept link has non-empty text, a url without '#' equal to the original cut at '#', and an original neither external nor an anchor; and every match that is not skipped is kept |
| FinalClean.FileLinksWellFormed | validate_links_final_clean.py:36-65 | the links of one file name that file and are well formed |
| FinalClean.AllFileLinksWellFormed | validate_links_final_clean.py:106-109 | every link gathered from all files is well formed |
| FinalClean.AllFileLinksStep | validate_links_final_clean.py:106-109 | gathering one more file appends its links |
| FinalClean.Target | validate_links_final_clean.py:67-95 | a relative url is resolved to an absolute path, and under an absolute root every target is absolute |
| FinalClean.ValidateLink | validate_links_final_clean.py:67-95 | a link whose target exists is valid, and a valid link's target exists or, having no suffix, exists with ".md" as suffix |
| FinalClean.ValidateLinkSpec | validate_links_final_clean.py:67-95 | a link is valid exactly when its target exists, or has no suffix and exists with ".md"; a directory target always exists |
| FinalClean.TargetUnderRoot | validate_links_final_clean.py:73-74 | a "/x" url resolves under the root |
| FinalClean.TargetDoubleSlash | validate_links_final_clean.py:73-74 | a "//x" url escapes the root: after one character is removed it is absolute again |
| FinalClean.TargetResolved | validate_links_final_clean.py:75-77 | a relative url resolves to an absolute, normal path |
| FinalClean.Partition | validate_links_final_clean.py:114-118 | working and broken together are a permutation of the links, so working + broken = total |
| FinalClean.PartitionSound | validate_links_final_clean.py:114-118 | every working link is valid and every broken link invalid |
| FinalClean.PartitionStep | validate_links_final_clean.py:114-118 | one more link goes to exactly one of the two lists |
| FinalClean.ReportLeTotal | validate_links_final_clean.py:242 | ordering by (file, url) is a total order |
| FinalClean.ReportOrder | validate_links_final_clean.py:242 | the report lists as many broken links as there are |
| FinalClean.ReportOrderSpec | validate_links_final_clean.py:242-243 | the report's list is a permutation of the broken links sorted by (file, url) |
| FinalClean.WikiLinkValidator.constructor | validate_links_final_clean.py:15-20 | a new validator has no files and no links |
| FinalClean.WikiLinkValidator.FindAllFiles | validate_links_final_clean.py:22-34 | `find_all_files` adds exactly the paths that pass the filter |
| FinalClean.WikiLinkValidator.ExtractLinks | validate_links_final_clean.py:36-65 | `extract_links` appends the file's kept links, or nothing when it cannot be read |
| FinalClean.WikiLinkValidator.AppendKept | validate_links_final_clean.py:46-63 | the match loop appends exactly the kept links |
| FinalClean.WikiLinkValidator.ExtractAll | validate_links_final_clean.py:106-109 | the file loop appends the links of every file in iteration order |
| FinalClean.WikiLinkValidator.Place | validate_links_final_clean.py:115-118 | a valid link is appended to working and an invalid one to broken, and nothing else changes |
| FinalClean.WikiLinkValidator.ValidateAll | validate_links_final_clean.py:114-118 | the validation loop partitions the links |
| FinalClean.WikiLinkValidator.RunValidation | validate_links_final_clean.py:97-123 | `run_validation` finds the files, gathers the links and partitions them; the three counts are the list lengths |
| WikiTool.Under | tools/validate_wiki_links.py:120-126 | the paths of a subdirectory are its name followed by their path within it |
| WikiTool.MdHereSpec | tools/validate_wiki_links.py:124-126 | the files taken from one directory are its ".md" files |
| WikiTool.UnderMdPath | tools/validate_wiki_links.py:120-126 | prefixing the name of a directory the walk does not prune to ".md" paths gives ".md" paths again |
| WikiTool.MdFilesSpec | tools/validate_wiki_links.py:118-126 | every file the walk collects ends in ".md" and passes through no pruned directory |
| WikiTool.MdFileNames | tools/validate_wiki_links.py:118-128 | one joined path per collected file, so `total_files` is their number |
| WikiTool.MdFileNamesSpec | tools/validate_wiki_links.py:124-126 | every collected path ends in ".md" |
| WikiTool.PyPrefix | tools/validate_wiki_links.py:41 | Python slicing `s[:i]` gives a prefix of s |
| WikiTool.FileLinks | tools/validate_wiki_links.py:25-46 | an unreadable file gives no links, a readable one a link per match |
| WikiTool.FileLinksSpec | tools/validate_wiki_links.py:33-42 | each link carries its match's groups and its file; the text is non-empty without ']', the url non-empty without ')' |
| WikiTool.LineOf | tools/validate_wiki_links.py:41 | a link's line number lies between 1 and the number of lines of the file |
| WikiTool.LineOfAt | tools/validate_wiki_links.py:41 | a link's line number is at most the line of any occurrence of its text, and equals it for the first occurrence |
| WikiTool.LineSpec | tools/validate_wiki_links.py:41 | the k-th link's line is at most the line of its own match, and equal to it when no identical text occurs earlier |
| WikiTool.RepeatedLinkLine | tools/validate_wiki_links.py:41 | in `[a](b)[\n](c)[a](b)` all three links get line 1, though the third sits on line 2 |
| WikiTool.ValidateLink | tools/validate_wiki_links.py:48-90 | only internal links fail, and only an empty url is of the empty kind |
| WikiTool.ValidateLinkSpec | tools/validate_wiki_links.py:48-90 | the kind is external, anchor, empty or internal by the url alone; only internal links fail; an internal link works exactly when its target exists or, not ending in ".md", exists with ".md" |
| WikiTool.ExtractedNeverEmpty | tools/validate_wiki_links.py:58-90 | no extracted link is ever of kind `empty` |
| WikiTool.Inc | tools/validate_wiki_links.py:145 | counting a kind adds one to it and leaves the others alone |
| WikiTool.Tallied | tools/validate_wiki_links.py:139-150 | working + broken = links, and the kind counts grow by the number of links |
| WikiTool.BrokenSpec | tools/validate_wiki_links.py:147-150 | the broken links are exactly the links judged invalid |
| WikiTool.BrokenInternal | tools/validate_wiki_links.py:139-150 | every broken link is of kind internal |
| WikiTool.TallyStep | tools/validate_wiki_links.py:139-150 | one more link adds to exactly one of working and broken and counts its kind |
| WikiTool.AllLinksStep | tools/validate_wiki_links.py:132-134 | gathering one more file appends its links |
| WikiTool.AnalyzeBrokenLinks | tools/validate_wiki_links.py:92-114 | the patterns are the empty dict exactly when nothing is broken |
| WikiTool.AnalyzeUnique | tools/validate_wiki_links.py:110 | `total_unique` is the number of distinct broken urls |
| WikiTool.AnalyzePlaceholder | tools/validate_wiki_links.py:111 | `placeholder_links` is 1 when some broken url is "link" and 0 otherwise |
| WikiTool.AnalyzeRanking | tools/validate_wiki_links.py:107-109 | at most ten urls and ten files, each with its true count, in non-increasing count order |
| WikiTool.HealthSpec | tools/validate_wiki_links.py:156 | health is 0 without links, between 0 and 100, and 100 exactly when all of at least one link work |
| WikiTool.GenerateReport | tools/validate_wiki_links.py:154-173 | the summary counts the broken links, the list is their first min(50, n), and the patterns are empty exactly when none are broken |
| WikiTool.GradeOf | tools/validate_wiki_links.py:192-202 | the grade is A exactly at 90% health or more, and F exactly below 60% |
| WikiTool.ExitCode | tools/validate_wiki_links.py:262-268 | the exit code is at most 2: 0 exactly at 80% health or more, 2 exactly below 60% |
| WikiTool.ThresholdsMonotone | tools/validate_wiki_links.py:192-202 | lower health never gives a better grade or a lower exit code |
| WikiTool.ExitCodeGrade | tools/validate_wiki_links.py:262-268 | exit code 0 for grades A and B, 1 for C and D, 2 for F |
| WikiTool.WikiLinkValidator.constructor | tools/validate_wiki_links.py:17-23 | a new validator has all counters at zero |
| WikiTool.WikiLinkValidator.ExtractLinksFromFile | tools/validate_wiki_links.py:25-46 | `extract_links_from_file` returns the file's links with their line numbers |
| WikiTool.WikiLinkValidator.RecordMatches | tools/validate_wiki_links.py:36-42 | the match loop gives one link per match, in order |
| WikiTool.WikiLinkValidator.GatherLinks | tools/validate_wiki_links.py:131-134 | `all_links` is the links of every file in walk order |
| WikiTool.WikiLinkValidator.CheckLink | tools/validate_wiki_links.py:140-150 | one link counts its kind and adds to working or to broken |
| WikiTool.WikiLinkValidator.ValidateAll | tools/validate_wiki_links.py:139-150 | the validation loop counts and partitions every link |
| WikiTool.WikiLinkValidator.ValidateWiki | tools/validate_wiki_links.py:116-152 | `validate_wiki` counts the files and links; from zero, working + broken = total_links = kind total; it returns the report of the counters |
| LinkAnalysis.Add | link_analysis_report.py:24-25 | setting a key keeps the old keys and adds just that one |
| LinkAnalysis.AddDistinct | link_analysis_report.py:24-25 | the keys of a dict stay distinct |
| LinkAnalysis.Index | link_analysis_report.py:21-25 | `actual_files` has at most two keys per Markdown file |
| LinkAnalysis.IndexSpec | link_analysis_report.py:21-25 | `actual_files` has distinct keys, exactly each path and that path with ".md" removed |
| LinkAnalysis.FindSimilar | link_analysis_report.py:110-133 | at most three suggestions |
| LinkAnalysis.NameLoop | link_analysis_report.py:122-125 | the filename loop adds at most one entry per key |
| LinkAnalysis.NameLoopSpec | link_analysis_report.py:122-125 | the filename loop adds exactly the ".md" keys containing the file name |
| LinkAnalysis.EmptyNameMatchesAll | link_analysis_report.py:122-125 | a url ending in '/' has an empty file name, which every ".md" key contains |
| LinkAnalysis.WordLoop | link_analysis_report.py:128-131 | the word loop keeps what was listed before and adds at most one entry per key |
| LinkAnalysis.WordLoopExact | link_analysis_report.py:128-131 | every entry the word loop adds contains one of the words once lower-cased, and every ".md" key that does ends up listed |
| LinkAnalysis.WordLoopSpec | link_analysis_report.py:128-131 | the word loop only appends ".md" keys not already present |
| LinkAnalysis.WordLoopMembers | link_analysis_report.py:128-131 | the word loop adds only ".md" keys |
| LinkAnalysis.FindSimilarSpec | link_analysis_report.py:110-133 | a target that is a key comes first; every suggestion is a key and ends in ".md" unless it is the target |
| LinkAnalysis.NameLoopDuplicates | link_analysis_report.py:118-125 | for target "a.md" among keys ["a.md", "a"] the suggestions are ["a.md", "a.md"]: the filename loop repeats the exact match |
| LinkAnalysis.CategorizedTotal | link_analysis_report.py:32-67 | every broken link lands in exactly one of three buckets; `wrong_directory` and `structure_mismatch` stay empty |
| LinkAnalysis.CategoryOf | link_analysis_report.py:48-67 | a broken link is an anchor issue exactly when its url has '#'; a path mismatch has similar files and a missing file has none |
| LinkAnalysis.SelectSpec | link_analysis_report.py:40-67 | a bucket holds exactly the issues of its links in order: '#' → anchor issues; otherwise some match → path mismatch; otherwise missing |
| LinkAnalysis.SelectStep | link_analysis_report.py:40-67 | one more link is appended to its own bucket only |
| LinkAnalysis.Fixes | link_analysis_report.py:97-102 | every proposed correction is a non-empty path |
| LinkAnalysis.FixesKeys | link_analysis_report.py:97-102 | `directory_fixes` has exactly the urls of path mismatches that propose a fix |
| LinkAnalysis.FixesLast | link_analysis_report.py:97-102 | each fix is the first match of the last mismatch with that url |
| LinkAnalysis.PathMismatchProposes | link_analysis_report.py:97-102 | every path mismatch with a match has a fix |
| LinkAnalysis.BuildIndex | link_analysis_report.py:21-25 | the loop over the glob builds `actual_files` |
| LinkAnalysis.AppendByName | link_analysis_report.py:123-125 | the filename loop appends its keys in order |
| LinkAnalysis.AppendByWord | link_analysis_report.py:128-131 | the word loop appends as `WordLoop` says |
| LinkAnalysis.FindSimilarFiles | link_analysis_report.py:110-133 | `find_similar_files` returns the first three suggestions |
| LinkAnalysis.Categorize | link_analysis_report.py:40-67 | the loop over broken links fills the buckets |
| LinkAnalysis.DirectoryFixes | link_analysis_report.py:97-102 | the loop over path mismatches builds the fixes map |
| LinkAnalysis.AnalyzeLinkIssues | link_analysis_report.py:11-108 | the buckets and the fixes for the broken links, whose three bucket sizes add up to their number |

## Left out

- Directory walks, globbing and listing order: `rglob`, `glob`, `os.walk` and iteration over a set of paths become input sequences in the order the walk yields. `FinalClean` takes the set's iteration order as a distinct sequence of its elements. `WikiTool` takes the directory tree.
- The filesystem is a snapshot of existing files and directories. `Path.resolve` and `exists` are lexical, and symbolic links are not followed.
- File reading: a file missing from the contents map models a read that raises. JSON loading and saving, the markdown and console reports, emoji text, `argparse` and timestamps are left out as I/O.
- The Python regular-expression engine: each of the four patterns is a hand-written scanner with the same character classes and leftmost, non-overlapping matching.
- `lower()` is modelled on ASCII letters only. The category tests of validate_links.py only compare against ASCII prefixes and suffixes. `find_similar_files` in link_analysis_report.py also lowercases file names to match words; for names with non-ASCII capitals the model's matches can differ from Python's `str.lower`.
- Floating point: `failure_rate`, `health_score`, success rates and percentage formatting are left out. The division by zero on a wiki without links (validate_links_final_clean.py:128, link_validator.py:225) is left out with them.
- WikiTool.GenerateReport: `health_percentage` is the exact ratio, not `round(..., 1)`. `GradeOf` and `ExitCode` grade that unrounded value, so a health within 0.05 below a threshold grades one step lower than the script does.
- The rest of `generate_report` in validate_links.py (category table, broken links grouped by file, most problematic files, repeated broken urls) and `print_report` in link_validator.py and tools/validate_wiki_links.py: report text only.
- Hard-coded figures of earlier runs (110, 119, 18.1, 7.5; prev_total = 669 and prev_broken = 88 at validate_links_final_clean.py:132-133), the links_fixed count, improvement rate and previous health derived from them, and the critical-file name list of validate_links_final_clean.py: they only feed report text.
- The failure detail of `validate_internal_link` (validate_links.py:123) is kept as the list of the first three candidates. Python's rendering of that list as a string is not modelled.
