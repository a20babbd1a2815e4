/** Hand-written scanners that match the way `re.findall` runs the checkers' four link
    patterns: at each position, left to right, try the pattern; after a match, go on
    where it ended, so matches never overlap. */
module Scanner {
  import opened Text
  import opened Wrappers

  /** `Inline(0)` is `\[([^\]]*)\]\(([^)]+)\)`, `Inline(1)` is `\[([^\]]+)\]\(([^)]+)\)`,
      `Reference` is `\[([^\]]+)\]\[([^\]]*)\]` and `Wiki` is `\[\[([^\]]+)\]\]`. */
  datatype Pattern = Inline(minText: nat) | Reference | Wiki

  /** One match: where it starts and ends, and its groups (`group2` is "" for `Wiki`). */
  datatype Hit = Hit(start: nat, group1: string, group2: string, end: nat)

  /** The text a match with these groups consists of. */
  function Render(pat: Pattern, g1: string, g2: string): string {
    match pat
    case Inline(_) => "[" + g1 + "](" + g2 + ")"
    case Reference => "[" + g1 + "][" + g2 + "]"
    case Wiki => "[[" + g1 + "]]"
  }

  /** The groups the pattern's character classes and repetitions accept. */
  predicate Accepts(pat: Pattern, g1: string, g2: string) {
    match pat
    case Inline(m) => |g1| >= m && ']' !in g1 && |g2| > 0 && ')' !in g2
    case Reference => |g1| > 0 && ']' !in g1 && ']' !in g2
    case Wiki => |g1| > 0 && ']' !in g1 && g2 == ""
  }

  /** `h` is a match of `pat` in `s`. */
  predicate IsMatch(pat: Pattern, s: string, h: Hit) {
    && h.end == h.start + |Render(pat, h.group1, h.group2)|
    && OccursAt(s, Render(pat, h.group1, h.group2), h.start)
    && Accepts(pat, h.group1, h.group2)
  }

  /** The first index at or after `i` holding `c`, or `|s|`. */
  function IndexFrom(s: string, c: char, i: nat): (j: nat)
    requires i <= |s|
    ensures i <= j <= |s|
    ensures forall k :: i <= k < j ==> s[k] != c
    ensures j < |s| ==> s[j] == c
    decreases |s| - i
  {
    if i == |s| || s[i] == c then i else IndexFrom(s, c, i + 1)
  }

  function InlineAt(m: nat, s: string, i: nat): (r: Option<Hit>)
    requires i <= |s|
    ensures r.Some? ==> r.value.start == i < r.value.end <= |s|
  {
    if i < |s| && s[i] == '[' then
      var j := IndexFrom(s, ']', i + 1);
      if j + 1 < |s| && j - (i + 1) >= m && s[j + 1] == '(' then
        var k := IndexFrom(s, ')', j + 2);
        if j + 2 < k < |s| then
          var g1, g2 := s[i + 1..j], s[j + 2..k];
          Some(Hit(i, g1, g2, k + 1))
        else None
      else None
    else None
  }

  function ReferenceAt(s: string, i: nat): (r: Option<Hit>)
    requires i <= |s|
    ensures r.Some? ==> r.value.start == i < r.value.end <= |s|
  {
    if i < |s| && s[i] == '[' then
      var j := IndexFrom(s, ']', i + 1);
      if i + 1 < j && j + 1 < |s| && s[j + 1] == '[' then
        var k := IndexFrom(s, ']', j + 2);
        if k < |s| then
          var g1, g2 := s[i + 1..j], s[j + 2..k];
          Some(Hit(i, g1, g2, k + 1))
        else None
      else None
    else None
  }

  function WikiAt(s: string, i: nat): (r: Option<Hit>)
    requires i <= |s|
    ensures r.Some? ==> r.value.start == i < r.value.end <= |s|
  {
    if i + 1 < |s| && s[i] == '[' && s[i + 1] == '[' then
      var j := IndexFrom(s, ']', i + 2);
      if i + 2 < j && j + 1 < |s| && s[j + 1] == ']' then
        var g1 := s[i + 2..j];
        Some(Hit(i, g1, "", j + 2))
      else None
    else None
  }

  /** The match of `pat` that starts at `i`, if there is one (it is unique). */
  function MatchAt(pat: Pattern, s: string, i: nat): (r: Option<Hit>)
    requires i <= |s|
    ensures r.Some? ==> r.value.start == i < r.value.end <= |s|
  {
    match pat
    case Inline(m) => InlineAt(m, s, i)
    case Reference => ReferenceAt(s, i)
    case Wiki => WikiAt(s, i)
  }

  /** The matches a scan may use: each entry says what the matcher finds at its index,
      a match starting there and ending no later than the text. */
  predicate Steps(t: seq<Option<Hit>>) {
    forall j :: 0 <= j < |t| && t[j].Some? ==> t[j].value.start == j < t[j].value.end <= |t|
  }

  /** What the matcher finds at each index of `s`. */
  function Table(pat: Pattern, s: string): (t: seq<Option<Hit>>)
    ensures |t| == |s| && Steps(t)
  {
    seq(|s|, j requires 0 <= j < |s| => MatchAt(pat, s, j))
  }

  /** The `re.finditer` loop from index `i`: try the pattern at each index, left to
      right; after a match, go on where it ended. */
  function Scan(t: seq<Option<Hit>>, i: nat): (hits: seq<Hit>)
    requires Steps(t) && i <= |t|
    ensures forall k :: 0 <= k < |hits| ==> i <= hits[k].start < |t| && t[hits[k].start] == Some(hits[k])
    ensures forall k, l :: 0 <= k < l < |hits| ==> hits[k].end <= hits[l].start
    decreases |t| - i
  {
    if i == |t| then []
    else if t[i].Some? then [t[i].value] + Scan(t, t[i].value.end)
    else Scan(t, i + 1)
  }

  lemma TableAt(pat: Pattern, s: string, j: nat)
    requires j < |s|
    ensures Table(pat, s)[j] == MatchAt(pat, s, j)
  {
  }

  /** `re.finditer(pat, s)`: the matches in order, none overlapping the next. */
  function FindAll(pat: Pattern, s: string): seq<Hit> {
    Scan(Table(pat, s), 0)
  }

  /** The groups of each match: `re.findall(pat, s)`. */
  function Groups(hits: seq<Hit>): (r: seq<(string, string)>)
    ensures |r| == |hits|
    ensures forall k :: 0 <= k < |r| ==> r[k] == (hits[k].group1, hits[k].group2)
  {
    if hits == [] then [] else [(hits[0].group1, hits[0].group2)] + Groups(hits[1..])
  }

  function Matches(pat: Pattern, s: string): seq<(string, string)> {
    Groups(FindAll(pat, s))
  }

  /** A slice equals a string it agrees with at every index. */
  lemma SliceEquals(s: string, i: nat, r: string)
    requires i + |r| <= |s|
    requires forall x :: 0 <= x < |r| ==> s[i + x] == r[x]
    ensures s[i..i + |r|] == r
  {
  }

  /** Text between the delimiters of a two-group link reads back as that link. */
  lemma TwoGroupsOccur(s: string, i: nat, j: nat, k: nat, r: string, g1: string, g2: string)
    requires i < j && j + 2 <= k < |s|
    requires g1 == s[i + 1..j] && g2 == s[j + 2..k]
    requires |r| == k + 1 - i && r[1..j - i] == g1 && r[j - i + 2..k - i] == g2
    requires s[i] == r[0] && s[j] == r[j - i] && s[j + 1] == r[j - i + 1] && s[k] == r[k - i]
    ensures OccursAt(s, r, i)
  {
    var a := j - i;
    forall x | 0 <= x < |r| ensures s[i + x] == r[x] {
      if 0 < x < a {
        assert r[x] == r[1..a][x - 1] == s[i + 1..j][x - 1];
      } else if a + 1 < x < k - i {
        assert r[x] == r[a + 2..k - i][x - a - 2] == s[j + 2..k][x - a - 2];
      }
    }
    SliceEquals(s, i, r);
  }

  /** What `InlineAt` finds is a match of the pattern. */
  lemma InlineAtSound(m: nat, s: string, i: nat)
    requires i <= |s|
    ensures InlineAt(m, s, i).Some? ==> IsMatch(Inline(m), s, InlineAt(m, s, i).value)
  {
    if InlineAt(m, s, i).Some? {
      var j := IndexFrom(s, ']', i + 1);
      var k := IndexFrom(s, ')', j + 2);
      InlineMatch(m, s, i, j, k);
    }
  }

  /** A bracketed text of at least `m` characters followed by a parenthesised non-empty
      target, with no closing delimiter inside either, is an inline link. */
  lemma InlineMatch(m: nat, s: string, i: nat, j: nat, k: nat)
    requires i < j && j + 2 < k < |s| && j - (i + 1) >= m
    requires s[i] == '[' && s[j] == ']' && s[j + 1] == '(' && s[k] == ')'
    requires forall x :: i + 1 <= x < j ==> s[x] != ']'
    requires forall x :: j + 2 <= x < k ==> s[x] != ')'
    ensures IsMatch(Inline(m), s, Hit(i, s[i + 1..j], s[j + 2..k], k + 1))
  {
    var g1, g2 := s[i + 1..j], s[j + 2..k];
    InlineShape(m, g1, g2);
    TwoGroupsOccur(s, i, j, k, Render(Inline(m), g1, g2), g1, g2);
    assert ']' !in g1 && ')' !in g2;
  }

  /** What `ReferenceAt` finds is a match of the pattern. */
  lemma ReferenceAtSound(s: string, i: nat)
    requires i <= |s|
    ensures ReferenceAt(s, i).Some? ==> IsMatch(Reference, s, ReferenceAt(s, i).value)
  {
    if ReferenceAt(s, i).Some? {
      var j := IndexFrom(s, ']', i + 1);
      assert i + 1 < j && j + 1 < |s| && s[j + 1] == '[';
      var k := IndexFrom(s, ']', j + 2);
      assert ReferenceAt(s, i) == Some(Hit(i, s[i + 1..j], s[j + 2..k], k + 1));
      ReferenceMatch(s, i, j, k);
    }
  }

  /** Two bracketed groups standing side by side, with no ']' inside, are a reference
      link. */
  lemma ReferenceMatch(s: string, i: nat, j: nat, k: nat)
    requires i + 1 < j && j + 2 <= k < |s|
    requires s[i] == '[' && s[j] == ']' && s[j + 1] == '[' && s[k] == ']'
    requires forall x :: i + 1 <= x < j ==> s[x] != ']'
    requires forall x :: j + 2 <= x < k ==> s[x] != ']'
    ensures IsMatch(Reference, s, Hit(i, s[i + 1..j], s[j + 2..k], k + 1))
  {
    var g1, g2 := s[i + 1..j], s[j + 2..k];
    ReferenceShape(g1, g2);
    TwoGroupsOccur(s, i, j, k, Render(Reference, g1, g2), g1, g2);
    assert ']' !in g1 && ']' !in g2;
  }

  /** What `WikiAt` finds is a match of the pattern. */
  lemma WikiAtSound(s: string, i: nat)
    requires i <= |s|
    ensures WikiAt(s, i).Some? ==> IsMatch(Wiki, s, WikiAt(s, i).value)
  {
    if WikiAt(s, i).Some? {
      var j := IndexFrom(s, ']', i + 2);
      var g1 := s[i + 2..j];
      var r, a := Render(Wiki, g1, ""), 2 + |g1|;
      assert r[0] == '[' && r[1] == '[' && r[a] == ']' && r[a + 1] == ']' && |r| == a + 2;
      assert r[2..a] == g1;
      forall x | 0 <= x < |r| ensures s[i + x] == r[x] {
        if 1 < x < a {
          assert r[x] == r[2..a][x - 2] == s[i + 2..j][x - 2];
        }
      }
      SliceEquals(s, i, r);
    }
  }

  /** The matcher is sound: what it finds at `i` is a match of the pattern there. */
  lemma MatchAtSound(pat: Pattern, s: string, i: nat)
    requires i <= |s|
    ensures MatchAt(pat, s, i).Some? ==> IsMatch(pat, s, MatchAt(pat, s, i).value)
  {
    match pat
    case Inline(m) => InlineAtSound(m, s, i);
    case Reference => ReferenceAtSound(s, i);
    case Wiki => WikiAtSound(s, i);
  }

  /** Every match `re.finditer` reports is a match of the pattern in `s`. */
  lemma FindAllSound(pat: Pattern, s: string)
    ensures forall k :: 0 <= k < |FindAll(pat, s)| ==> IsMatch(pat, s, FindAll(pat, s)[k])
  {
    var t, hits := Table(pat, s), FindAll(pat, s);
    forall k | 0 <= k < |hits| ensures IsMatch(pat, s, hits[k]) {
      assert t[hits[k].start] == MatchAt(pat, s, hits[k].start);
      MatchAtSound(pat, s, hits[k].start);
    }
  }

  /** Every group `re.findall` returns is made of characters the pattern's classes
      accept, in the numbers its repetitions allow. */
  lemma MatchesAccepted(pat: Pattern, s: string)
    ensures forall k :: 0 <= k < |Matches(pat, s)| ==> Accepts(pat, Matches(pat, s)[k].0, Matches(pat, s)[k].1)
  {
    FindAllSound(pat, s);
  }

  /** Every index where a match could start lies inside a match that the scan
      reported: the scan misses no match except those overlapping an earlier one. */
  lemma {:induction false} ScanLeftmost(t: seq<Option<Hit>>, i: nat, p: nat) returns (k: nat)
    requires Steps(t) && i <= p < |t| && t[p].Some?
    ensures k < |Scan(t, i)| && Scan(t, i)[k].start <= p < Scan(t, i)[k].end
    decreases |t| - i
  {
    if t[i].Some? && p >= t[i].value.end {
      var j := ScanLeftmost(t, t[i].value.end, p);
      k := CoversPast(t, i, p, j);
    } else if t[i].Some? {
      k := CoversHere(t, i, p);
    } else {
      var j := ScanLeftmost(t, i + 1, p);
      k := CoversSkip(t, i, p, j);
    }
  }

  /** A match of the scan from past the match at `i` is a match of the scan from `i`. */
  lemma CoversPast(t: seq<Option<Hit>>, i: nat, p: nat, j: nat) returns (k: nat)
    requires Steps(t) && i < |t| && t[i].Some? && t[i].value.end < |t|
    requires j < |Scan(t, t[i].value.end)| && Scan(t, t[i].value.end)[j].start <= p < Scan(t, t[i].value.end)[j].end
    ensures k < |Scan(t, i)| && Scan(t, i)[k].start <= p < Scan(t, i)[k].end
  {
    ScanStep(t, i);
    k := j + 1;
  }

  /** The match at `i` is the first of the scan from `i`. */
  lemma CoversHere(t: seq<Option<Hit>>, i: nat, p: nat) returns (k: nat)
    requires Steps(t) && i <= p < |t| && t[i].Some? && p < t[i].value.end
    ensures k < |Scan(t, i)| && Scan(t, i)[k].start <= p < Scan(t, i)[k].end
  {
    ScanStep(t, i);
    k := 0;
  }

  /** With no match at `i`, the scan from `i` is the scan from `i + 1`. */
  lemma CoversSkip(t: seq<Option<Hit>>, i: nat, p: nat, j: nat) returns (k: nat)
    requires Steps(t) && i < |t| && t[i].None?
    requires j < |Scan(t, i + 1)| && Scan(t, i + 1)[j].start <= p < Scan(t, i + 1)[j].end
    ensures k < |Scan(t, i)| && Scan(t, i)[k].start <= p < Scan(t, i)[k].end
  {
    ScanSkip(t, i);
    k := j;
  }

  lemma ScanSkip(t: seq<Option<Hit>>, i: nat)
    requires Steps(t) && i < |t| && t[i].None?
    ensures Scan(t, i) == Scan(t, i + 1)
  {
  }

  /** `re.finditer` skips no match of the pattern except one that overlaps a match it
      reported. */
  lemma FindAllLeftmost(pat: Pattern, s: string, p: nat)
    requires p < |s| && MatchAt(pat, s, p).Some?
    ensures exists k :: 0 <= k < |FindAll(pat, s)| && FindAll(pat, s)[k].start <= p < FindAll(pat, s)[k].end
  {
    TableAt(pat, s, p);
    var k := ScanLeftmost(Table(pat, s), 0, p);
    assert FindAll(pat, s)[k].start <= p < FindAll(pat, s)[k].end;
  }

  /** The first `c` at or after `i` is the one at `j` when there is none before it. */
  lemma IndexFromAt(s: string, c: char, i: nat, j: nat)
    requires i <= j < |s| && s[j] == c
    requires forall k :: i <= k < j ==> s[k] != c
    ensures IndexFrom(s, c, i) == j
  {
  }

  /** Where the rendered text of accepted groups stands, the scanner finds exactly
      those groups: the matcher inverts the rendering. */
  lemma MatchAtRender(pat: Pattern, s: string, i: nat, g1: string, g2: string)
    requires i <= |s|
    requires OccursAt(s, Render(pat, g1, g2), i)
    requires Accepts(pat, g1, g2)
    ensures MatchAt(pat, s, i) == Some(Hit(i, g1, g2, i + |Render(pat, g1, g2)|))
  {
    match pat
    case Inline(m) => InlineAtRender(m, s, i, g1, g2);
    case Reference => ReferenceAtRender(s, i, g1, g2);
    case Wiki => WikiAtRender(s, i, g1);
  }

  /** A piece of a rendered match, read back from where the match stands in `s`. */
  lemma PieceAt(s: string, r: string, i: nat, off: nat, g: string)
    requires OccursAt(s, r, i)
    requires off + |g| <= |r| && r[off..off + |g|] == g
    ensures s[i + off..i + off + |g|] == g
  {
    forall x | 0 <= x < |g| ensures s[i + off..i + off + |g|][x] == g[x] {
      assert s[i + off + x] == s[i..i + |r|][off + x] == r[off + x];
      assert r[off..off + |g|][x] == r[off + x];
    }
  }

  /** Where a four-delimiter rendering with two groups occurs, the text holds its
      delimiters and its groups. */
  lemma TwoGroupsAt(s: string, r: string, i: nat, g1: string, g2: string)
    requires OccursAt(s, r, i)
    requires |r| == |g1| + |g2| + 4
    requires r[1..1 + |g1|] == g1 && r[3 + |g1|..3 + |g1| + |g2|] == g2
    ensures i + |r| <= |s|
    ensures s[i] == r[0] && s[i + 1 + |g1|] == r[1 + |g1|] && s[i + 2 + |g1|] == r[2 + |g1|]
    ensures s[i + 3 + |g1| + |g2|] == r[3 + |g1| + |g2|]
    ensures s[i + 1..i + 1 + |g1|] == g1 && s[i + 3 + |g1|..i + 3 + |g1| + |g2|] == g2
  {
    var a := 1 + |g1|;
    CharAt(s, r, i, 0);
    CharAt(s, r, i, a);
    CharAt(s, r, i, a + 1);
    CharAt(s, r, i, a + 2 + |g2|);
    PieceAt(s, r, i, 1, g1);
    PieceAt(s, r, i, a + 2, g2);
  }

  /** Where a rendering with two delimiters on each side of one group occurs, the text
      holds its delimiters and its group. */
  lemma OneGroupAt(s: string, r: string, i: nat, g1: string)
    requires OccursAt(s, r, i)
    requires |r| == |g1| + 4 && r[2..2 + |g1|] == g1
    ensures i + |r| <= |s|
    ensures s[i] == r[0] && s[i + 1] == r[1] && s[i + 2 + |g1|] == r[2 + |g1|] && s[i + 3 + |g1|] == r[3 + |g1|]
    ensures s[i + 2..i + 2 + |g1|] == g1
  {
    CharAt(s, r, i, 0);
    CharAt(s, r, i, 1);
    CharAt(s, r, i, 2 + |g1|);
    CharAt(s, r, i, 3 + |g1|);
    PieceAt(s, r, i, 2, g1);
  }

  lemma CharAt(s: string, r: string, i: nat, off: nat)
    requires OccursAt(s, r, i)
    requires off < |r|
    ensures s[i + off] == r[off]
  {
    assert s[i + off] == s[i..i + |r|][off];
  }

  /** Scanning for `c` across a piece that lacks it stops at the `c` right after. */
  lemma IndexFromPast(s: string, c: char, lo: nat, g: string)
    requires lo + |g| < |s| && s[lo..lo + |g|] == g && c !in g && s[lo + |g|] == c
    ensures IndexFrom(s, c, lo) == lo + |g|
  {
    forall x | lo <= x < lo + |g| ensures s[x] != c {
      assert s[x] == s[lo..lo + |g|][x - lo];
    }
    IndexFromAt(s, c, lo, lo + |g|);
  }

  lemma InlineAtRender(m: nat, s: string, i: nat, g1: string, g2: string)
    requires i <= |s|
    requires OccursAt(s, Render(Inline(m), g1, g2), i)
    requires Accepts(Inline(m), g1, g2)
    ensures InlineAt(m, s, i) == Some(Hit(i, g1, g2, i + |Render(Inline(m), g1, g2)|))
  {
    var r := Render(Inline(m), g1, g2);
    InlineShape(m, g1, g2);
    TwoGroupsAt(s, r, i, g1, g2);
    InlineAtPieces(m, s, i, g1, g2);
  }

  /** Where the delimiters and groups of a rendered inline link stand. */
  lemma InlineShape(m: nat, g1: string, g2: string)
    ensures var r, a := Render(Inline(m), g1, g2), 1 + |g1|;
      && |r| == a + 3 + |g2|
      && r[0] == '[' && r[a] == ']' && r[a + 1] == '(' && r[a + 2 + |g2|] == ')'
      && r[1..a] == g1 && r[a + 2..a + 2 + |g2|] == g2
  {
  }

  /** Where the delimiters and the group of a rendered wiki link stand. */
  lemma WikiShape(g1: string)
    ensures var r, a := Render(Wiki, g1, ""), 2 + |g1|;
      && |r| == a + 2
      && r[0] == '[' && r[1] == '[' && r[a] == ']' && r[a + 1] == ']'
      && r[2..a] == g1
  {
  }

  /** Where the delimiters and groups of a rendered reference link stand. */
  lemma ReferenceShape(g1: string, g2: string)
    ensures var r, a := Render(Reference, g1, g2), 1 + |g1|;
      && |r| == a + 3 + |g2|
      && r[0] == '[' && r[a] == ']' && r[a + 1] == '[' && r[a + 2 + |g2|] == ']'
      && r[1..a] == g1 && r[a + 2..a + 2 + |g2|] == g2
  {
  }

  /** `InlineAt` reads back groups that sit between the right delimiters. */
  lemma InlineAtPieces(m: nat, s: string, i: nat, g1: string, g2: string)
    requires Accepts(Inline(m), g1, g2)
    requires i + |g1| + |g2| + 4 <= |s|
    requires s[i] == '[' && s[i + 1 + |g1|] == ']' && s[i + 2 + |g1|] == '(' && s[i + 3 + |g1| + |g2|] == ')'
    requires s[i + 1..i + 1 + |g1|] == g1 && s[i + 3 + |g1|..i + 3 + |g1| + |g2|] == g2
    ensures InlineAt(m, s, i) == Some(Hit(i, g1, g2, i + |g1| + |g2| + 4))
  {
    var j := i + 1 + |g1|;
    var k := j + 2 + |g2|;
    IndexFromPast(s, ']', i + 1, g1);
    IndexFromPast(s, ')', j + 2, g2);
    InlineAtFound(m, s, i, j, k);
  }

  lemma InlineAtFound(m: nat, s: string, i: nat, j: nat, k: nat)
    requires i < j && j + 2 < k < |s|
    requires s[i] == '[' && IndexFrom(s, ']', i + 1) == j && j - (i + 1) >= m
    requires s[j + 1] == '(' && IndexFrom(s, ')', j + 2) == k
    ensures InlineAt(m, s, i) == Some(Hit(i, s[i + 1..j], s[j + 2..k], k + 1))
  {
  }

  lemma ReferenceAtRender(s: string, i: nat, g1: string, g2: string)
    requires i <= |s|
    requires OccursAt(s, Render(Reference, g1, g2), i)
    requires Accepts(Reference, g1, g2)
    ensures ReferenceAt(s, i) == Some(Hit(i, g1, g2, i + |Render(Reference, g1, g2)|))
  {
    var r := Render(Reference, g1, g2);
    ReferenceShape(g1, g2);
    TwoGroupsAt(s, r, i, g1, g2);
    ReferenceAtPieces(s, i, g1, g2);
  }

  /** `ReferenceAt` reads back groups that sit between the right delimiters. */
  lemma ReferenceAtPieces(s: string, i: nat, g1: string, g2: string)
    requires Accepts(Reference, g1, g2)
    requires i + |g1| + |g2| + 4 <= |s|
    requires s[i] == '[' && s[i + 1 + |g1|] == ']' && s[i + 2 + |g1|] == '[' && s[i + 3 + |g1| + |g2|] == ']'
    requires s[i + 1..i + 1 + |g1|] == g1 && s[i + 3 + |g1|..i + 3 + |g1| + |g2|] == g2
    ensures ReferenceAt(s, i) == Some(Hit(i, g1, g2, i + |g1| + |g2| + 4))
  {
    var j := i + 1 + |g1|;
    var k := j + 2 + |g2|;
    IndexFromPast(s, ']', i + 1, g1);
    IndexFromPast(s, ']', j + 2, g2);
    ReferenceAtFound(s, i, j, k);
  }

  lemma ReferenceAtFound(s: string, i: nat, j: nat, k: nat)
    requires i + 1 < j && j + 2 <= k < |s|
    requires s[i] == '[' && IndexFrom(s, ']', i + 1) == j
    requires s[j + 1] == '[' && IndexFrom(s, ']', j + 2) == k
    ensures ReferenceAt(s, i) == Some(Hit(i, s[i + 1..j], s[j + 2..k], k + 1))
  {
  }

  lemma WikiAtRender(s: string, i: nat, g1: string)
    requires i <= |s|
    requires OccursAt(s, Render(Wiki, g1, ""), i)
    requires Accepts(Wiki, g1, "")
    ensures WikiAt(s, i) == Some(Hit(i, g1, "", i + |Render(Wiki, g1, "")|))
  {
    var r := Render(Wiki, g1, "");
    WikiShape(g1);
    OneGroupAt(s, r, i, g1);
    IndexFromPast(s, ']', i + 2, g1);
    WikiAtFound(s, i, i + 2 + |g1|);
  }

  lemma WikiAtFound(s: string, i: nat, j: nat)
    requires i + 2 < j && j + 1 < |s|
    requires s[i] == '[' && s[i + 1] == '[' && IndexFrom(s, ']', i + 2) == j && s[j + 1] == ']'
    ensures WikiAt(s, i) == Some(Hit(i, s[i + 2..j], "", j + 2))
  {
  }

  /** Each link rendered in the pattern's canonical form. */
  function Rendered(pat: Pattern, links: seq<(string, string)>): (r: seq<string>)
    ensures |r| == |links| && forall k :: 0 <= k < |r| ==> r[k] == Render(pat, links[k].0, links[k].1)
  {
    seq(|links|, k requires 0 <= k < |links| => Render(pat, links[k].0, links[k].1))
  }

  /** Links written out one after another, each in the pattern's canonical form. */
  function RenderAll(pat: Pattern, links: seq<(string, string)>): string {
    Concat(Rendered(pat, links))
  }

  /** Extraction inverts rendering: every link written in canonical form, with groups
      the pattern accepts, is found again, in order, and nothing else is. */
  lemma MatchesRenderAll(pat: Pattern, links: seq<(string, string)>)
    requires forall k :: 0 <= k < |links| ==> Accepts(pat, links[k].0, links[k].1)
    ensures Matches(pat, RenderAll(pat, links)) == links
  {
    var pieces := Rendered(pat, links);
    var s := Concat(pieces);
    var offs := seq(|links| + 1, k requires 0 <= k <= |links| => |Concat(pieces[..k])|);
    forall k | 0 <= k < |links| ensures Placed(pat, s, offs, links, k) {
      ConcatAround(pieces, k);
      ConcatPrefixStep(pieces, k);
      OccursBetween(Concat(pieces[..k]), pieces[k], Concat(pieces[k + 1..]));
    }
    assert pieces[..|links|] == pieces;
    assert pieces[..0] == [];
    MatchesPlaced(pat, s, offs, links);
  }

  /** The `j`-th link stands rendered at the `j`-th offset, and the next offset is
      where it ends. */
  predicate Placed(pat: Pattern, s: string, offs: seq<nat>, links: seq<(string, string)>, j: int) {
    && 0 <= j < |links| && j + 1 < |offs|
    && offs[j + 1] == offs[j] + |Render(pat, links[j].0, links[j].1)|
    && OccursAt(s, Render(pat, links[j].0, links[j].1), offs[j])
  }

  /** Text made of rendered links, one right after another, reads back as those links. */
  lemma MatchesPlaced(pat: Pattern, s: string, offs: seq<nat>, links: seq<(string, string)>)
    requires forall k :: 0 <= k < |links| ==> Accepts(pat, links[k].0, links[k].1)
    requires |offs| == |links| + 1 && offs[0] == 0 && offs[|links|] == |s|
    requires forall j :: 0 <= j < |links| ==> Placed(pat, s, offs, links, j)
    ensures Matches(pat, s) == links
  {
    var t := Table(pat, s);
    forall j | 0 <= j < |links| ensures Entry(t, offs, links, j) {
      assert Placed(pat, s, offs, links, j);
      MatchAtRender(pat, s, offs[j], links[j].0, links[j].1);
      TableAt(pat, s, offs[j]);
    }
    ScanReads(t, offs, links, 0);
  }

  /** The scan steps over a match the table holds. */
  lemma ScanStep(t: seq<Option<Hit>>, i: nat)
    requires Steps(t) && i < |t| && t[i].Some?
    ensures Scan(t, i) == [t[i].value] + Scan(t, t[i].value.end)
  {
  }

  lemma GroupsCons(h: Hit, rest: seq<Hit>)
    ensures Groups([h] + rest) == [(h.group1, h.group2)] + Groups(rest)
  {
    assert ([h] + rest)[1..] == rest;
  }

  lemma ScanGroups(t: seq<Option<Hit>>, i: nat, h: Hit)
    requires Steps(t) && i < |t| && t[i] == Some(h)
    ensures h.end <= |t|
    ensures Groups(Scan(t, i)) == [(h.group1, h.group2)] + Groups(Scan(t, h.end))
  {
    ScanStep(t, i);
    GroupsCons(h, Scan(t, h.end));
  }

  /** The table holds, at the `j`-th offset, the `j`-th link, ending at the next offset. */
  predicate Entry(t: seq<Option<Hit>>, offs: seq<nat>, links: seq<(string, string)>, j: int) {
    && 0 <= j < |links| && j + 1 < |offs| && offs[j] < |t|
    && t[offs[j]] == Some(Hit(offs[j], links[j].0, links[j].1, offs[j + 1]))
  }

  /** A scan over a table holding, at each offset, a match that ends at the next
      offset reads back the groups of those matches. */
  lemma {:induction false} ScanReads(t: seq<Option<Hit>>, offs: seq<nat>, links: seq<(string, string)>, k: nat)
    requires Steps(t) && |offs| == |links| + 1 && offs[|links|] == |t| && k <= |links|
    requires forall j :: 0 <= j < |links| ==> Entry(t, offs, links, j)
    ensures offs[k] <= |t|
    ensures Groups(Scan(t, offs[k])) == links[k..]
    decreases |links| - k
  {
    if k < |links| {
      assert Entry(t, offs, links, k);
      ScanReads(t, offs, links, k + 1);
      ScanGroups(t, offs[k], Hit(offs[k], links[k].0, links[k].1, offs[k + 1]));
      assert links[k..] == [links[k]] + links[k + 1..];
    }
  }
}
