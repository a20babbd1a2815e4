/** The POSIX `os.path` functions the link checkers call, on path strings. */
module OsPath {
  import opened Text

  /** `p.rfind(c)` for one character: the last index holding `c`, or -1. */
  function LastIndexOf(p: string, c: char): (r: int)
    ensures -1 <= r < |p|
    ensures r >= 0 ==> p[r] == c
    ensures forall k :: r < k < |p| ==> p[k] != c
  {
    if p == [] then -1
    else if p[|p| - 1] == c then |p| - 1
    else LastIndexOf(p[..|p| - 1], c)
  }

  /** The string has a character other than '/'. */
  predicate HasNonSlash(s: string) {
    exists k | 0 <= k < |s| :: s[k] != '/'
  }

  /** `os.path.dirname(p)`: everything up to the last '/', with the trailing slashes
      removed unless it is made of slashes only. */
  function Dirname(p: string): string {
    var head := p[..LastIndexOf(p, '/') + 1];
    if HasNonSlash(head) then RStrip(head, '/') else head
  }

  /** `os.path.basename(p)`: everything after the last '/'. */
  function Basename(p: string): (r: string)
    ensures '/' !in r
  {
    p[LastIndexOf(p, '/') + 1..]
  }

  /** `os.path.join(a, b)`: an absolute `b` replaces `a`; otherwise one '/' is put
      between them unless `a` is empty or already ends in '/'. */
  function Join(a: string, b: string): string {
    if StartsWith(b, "/") then b
    else if a == "" || EndsWith(a, "/") then a + b
    else a + "/" + b
  }

  /** The last separator of `a + [c] + b` is the one added, when `b` has none. */
  lemma {:induction false} LastIndexOfJoined(a: string, c: char, b: string)
    requires c !in b
    ensures LastIndexOf(a + [c] + b, c) == |a|
    decreases |b|
  {
    var j := a + [c] + b;
    if b == [] {
      assert j[|j| - 1] == c;
    } else {
      assert j[|j| - 1] == b[|b| - 1] != c;
      assert j[..|j| - 1] == a + [c] + b[..|b| - 1];
      LastIndexOfJoined(a, c, b[..|b| - 1]);
    }
  }

  /** `dirname` and `basename` take apart what `join` puts together. */
  lemma DirnameJoin(d: string, n: string)
    requires !EndsWith(d, "/")
    requires '/' !in n
    ensures Dirname(Join(d, n)) == d
    ensures Basename(Join(d, n)) == n
  {
    assert !StartsWith(n, "/") by {
      if n != "" { assert n[0] in n; }
    }
    if d == "" {
      assert Join(d, n) == n;
    } else {
      var j := d + "/" + n;
      assert Join(d, n) == j;
      LastIndexOfJoined(d, '/', n);
      var head := j[..|d| + 1];
      assert head == d + "/";
      assert head[|d| - 1] != '/' by {
        assert head[|d| - 1] == d[|d| - 1];
        assert d[|d| - 1..] != "/";
      }
      assert HasNonSlash(head);
      assert RStrip(head, '/') == d by {
        assert head[..|head| - 1] == d;
      }
      assert j[|d| + 1..] == n;
    }
  }

  /** One turn of the component loop of `os.path.normpath`: empty and "." components
      vanish, ".." drops the component before it unless there is none to drop (kept in
      a relative path, ignored at the root) or it is itself "..". */
  function NormStep(acc: seq<string>, comp: string, rooted: bool): seq<string> {
    if comp == "" || comp == "." then acc
    else if comp != ".." || (!rooted && acc == []) || (acc != [] && acc[|acc| - 1] == "..") then acc + [comp]
    else if acc != [] then acc[..|acc| - 1]
    else acc
  }

  /** The component loop of `os.path.normpath` over `comps`, starting from `acc`. */
  function NormFold(comps: seq<string>, acc: seq<string>, rooted: bool): seq<string>
    decreases |comps|
  {
    if comps == [] then acc else NormFold(comps[1..], NormStep(acc, comps[0], rooted), rooted)
  }

  /** What `normpath` leaves: no empty, "." or '/'-holding components; ".." only as a
      leading run of a relative path. */
  ghost predicate Normal(comps: seq<string>, rooted: bool) {
    && (forall k :: 0 <= k < |comps| ==> comps[k] != "" && comps[k] != "." && '/' !in comps[k])
    && (rooted ==> forall k :: 0 <= k < |comps| ==> comps[k] != "..")
    && (forall i, j :: 0 <= i < j < |comps| && comps[j] == ".." ==> comps[i] == "..")
  }

  /** The loop keeps its accumulator normal when the components come from a split at '/'. */
  lemma {:induction false} NormFoldNormal(comps: seq<string>, acc: seq<string>, rooted: bool)
    requires Normal(acc, rooted)
    requires forall k :: 0 <= k < |comps| ==> '/' !in comps[k]
    ensures Normal(NormFold(comps, acc, rooted), rooted)
    decreases |comps|
  {
    if comps != [] {
      var next := NormStep(acc, comps[0], rooted);
      assert Normal(next, rooted);
      NormFoldNormal(comps[1..], next, rooted);
    }
  }

  /** The loop changes nothing in components that are already normal. */
  lemma {:induction false} NormFoldOfNormal(comps: seq<string>, acc: seq<string>, rooted: bool)
    requires Normal(acc + comps, rooted)
    ensures NormFold(comps, acc, rooted) == acc + comps
    decreases |comps|
  {
    if comps != [] {
      var x := comps[0];
      assert (acc + comps)[|acc|] == x;
      assert x == ".." ==> forall i :: 0 <= i < |acc| ==> (acc + comps)[i] == acc[i] == "..";
      assert NormStep(acc, x, rooted) == acc + [x];
      assert acc + [x] + comps[1..] == acc + comps;
      NormFoldOfNormal(comps[1..], acc + [x], rooted);
    }
  }

  /** How many leading slashes `normpath` keeps: two exactly when the path starts with
      exactly two, a case POSIX leaves to the implementation. */
  function LeadingSlashes(p: string): nat {
    if StartsWith(p, "//") && !StartsWith(p, "///") then 2
    else if StartsWith(p, "/") then 1
    else 0
  }

  function Slashes(k: nat): string {
    if k == 2 then "//" else if k == 1 then "/" else ""
  }

  /** `os.path.normpath(p)`, lexically: never empty ("." stands for the empty path). */
  function Normpath(p: string): (r: string)
    ensures r != ""
  {
    if p == "" then "."
    else
      var k := LeadingSlashes(p);
      var q := Slashes(k) + JoinWith(NormFold(Split(p, '/'), [], k > 0), '/');
      if q == "" then "." else q
  }

  lemma SplitLeadingSlash(x: string)
    ensures Split("/" + x, '/') == [""] + Split(x, '/')
  {
    assert ("/" + x)[1..] == x;
  }

  lemma NormpathDot()
    ensures Normpath(".") == "."
  {
    assert Split(".", '/') == ["."] by { SplitNoSep(".", '/'); }
  }

  /** The leading slashes put before a body that does not start with one are the
      ones counted back. */
  lemma LeadingSlashesOf(body: string, k: nat)
    requires k <= 2 && (body == [] || body[0] != '/') && (k == 0 ==> body != [])
    ensures LeadingSlashes(Slashes(k) + body) == k
  {
    var q := Slashes(k) + body;
    if k == 0 {
      assert q == body && q[..1] == [body[0]];
    } else if k == 1 {
      assert q[..1] == "/";
      if |q| >= 2 {
        assert q[..2][1] == q[1] == body[0];
      }
    } else {
      assert q[..2] == "//";
      if |q| >= 3 {
        assert q[..3][2] == q[2] == body[0];
      }
    }
  }

  /** A joined list of normal components is empty or starts with a non-slash character. */
  lemma NormalHead(comps: seq<string>, rooted: bool)
    requires Normal(comps, rooted)
    ensures var body := JoinWith(comps, '/'); comps != [] ==> body != [] && body[0] != '/'
  {
    if comps != [] {
      JoinWithHead(comps, '/');
      assert comps[0] != "" && '/' !in comps[0];
    }
  }

  /** The one or two leading slashes of a path only add empty components, which the
      normalising loop drops. */
  lemma SplitSlashes(k: nat, body: string)
    requires k <= 2
    ensures NormFold(Split(Slashes(k) + body, '/'), [], k > 0) == NormFold(Split(body, '/'), [], k > 0)
  {
    if k == 0 {
      assert Slashes(k) + body == body;
    } else if k == 1 {
      DropSlash(body, k > 0);
    } else {
      assert Slashes(k) + body == "/" + ("/" + body);
      DropSlash("/" + body, k > 0);
      DropSlash(body, k > 0);
    }
  }

  /** A leading slash adds an empty component, which the normalising loop drops. */
  lemma DropSlash(x: string, rooted: bool)
    ensures NormFold(Split("/" + x, '/'), [], rooted) == NormFold(Split(x, '/'), [], rooted)
  {
    SplitLeadingSlash(x);
    var split := Split("/" + x, '/');
    assert split[0] == "" && split[1..] == Split(x, '/');
  }

  /** Normalising a normalised path changes nothing. */
  lemma NormpathIdempotent(p: string)
    ensures Normpath(Normpath(p)) == Normpath(p)
  {
    NormpathDot();
    if p != "" {
      var k := LeadingSlashes(p);
      var comps := NormFold(Split(p, '/'), [], k > 0);
      assert Normal([], k > 0);
      NormFoldNormal(Split(p, '/'), [], k > 0);
      var body := JoinWith(comps, '/');
      var q := Slashes(k) + body;
      if q != "" {
        assert Normpath(p) == q;
        NormpathOfNormal(k, comps);
      }
    }
  }

  /** A path made of one or two leading slashes and normal components is its own
      normal form. */
  lemma NormpathOfNormal(k: nat, comps: seq<string>)
    requires k <= 2 && Normal(comps, k > 0) && (k > 0 || comps != [])
    ensures var q := Slashes(k) + JoinWith(comps, '/'); Normpath(q) == q
  {
    var body := JoinWith(comps, '/');
    var q := Slashes(k) + body;
    NormalHead(comps, k > 0);
    LeadingSlashesOf(body, k);
    var pieces := if comps == [] then [""] else comps;
    assert Split(body, '/') == pieces by {
      if comps == [] { assert body == ""; } else { SplitJoin(comps, '/'); }
    }
    SplitSlashes(k, body);
    if comps == [] {
      assert NormFold(pieces, [], k > 0) == [];
    } else {
      assert [] + comps == comps;
      NormFoldOfNormal(comps, [], k > 0);
    }
  }

  /** `dirname` keeps a prefix of the path. */
  lemma DirnamePrefix(p: string)
    ensures Dirname(p) <= p
  {
    var head := p[..LastIndexOf(p, '/') + 1];
    if HasNonSlash(head) {
      assert RStrip(head, '/') <= head;
    }
  }

  /** A path that does not start with '/' stays relative when normalised. */
  lemma NormpathRelative(p: string)
    requires !StartsWith(p, "/")
    ensures !StartsWith(Normpath(p), "/")
  {
    if p != "" {
      assert LeadingSlashes(p) == 0;
      var comps := NormFold(Split(p, '/'), [], false);
      assert Normal([], false);
      NormFoldNormal(Split(p, '/'), [], false);
      var body := JoinWith(comps, '/');
      if comps != [] {
        JoinWithHead(comps, '/');
        assert comps[0] != "" && '/' !in comps[0];
        assert body[0] == comps[0][0];
        assert comps[0][0] in comps[0];
      }
      assert Slashes(0) + body == body;
    }
  }

  /** Joining a relative target to the directory of a relative path gives a path that
      stays relative once normalised. */
  lemma JoinRelative(base: string, target: string)
    requires !StartsWith(base, "/") && !StartsWith(target, "/")
    ensures !StartsWith(Normpath(Join(Dirname(base), target)), "/")
  {
    var d := Dirname(base);
    DirnamePrefix(base);
    assert d != "" ==> d[0] == base[0];
    var j := Join(d, target);
    assert j != "" ==> j[0] != '/' by {
      if d == "" {
        assert j == target;
      } else if EndsWith(d, "/") {
        assert j == d + target;
        assert j[0] == d[0];
      } else {
        assert j == d + "/" + target;
        assert j[0] == d[0];
      }
    }
    NormpathRelative(j);
  }
}
