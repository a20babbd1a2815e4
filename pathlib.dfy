/** The part of `pathlib.PurePosixPath` the checkers use. */
module PathLib {
  import opened Text
  import opened OsPath

  /** A component as pathlib keeps it: not empty, not ".", without '/'. */
  predicate IsComponent(c: string) {
    c != "" && c != "." && '/' !in c
  }

  /** `PurePosixPath`: rooted at '/' or not, and its components. */
  datatype PurePath = PurePath(absolute: bool, parts: seq<string>)

  ghost predicate WellFormed(p: PurePath) {
    forall k :: 0 <= k < |p.parts| ==> IsComponent(p.parts[k])
  }

  /** The pieces of a split path that pathlib keeps, in order. */
  function Components(pieces: seq<string>): (r: seq<string>)
    ensures forall k :: 0 <= k < |r| ==> r[k] in pieces && r[k] != "" && r[k] != "."
  {
    if pieces == [] then []
    else if pieces[0] == "" || pieces[0] == "." then Components(pieces[1..])
    else [pieces[0]] + Components(pieces[1..])
  }

  /** Pieces that are all components are kept as they are. */
  lemma {:induction false} ComponentsOfComponents(pieces: seq<string>)
    requires forall k :: 0 <= k < |pieces| ==> IsComponent(pieces[k])
    ensures Components(pieces) == pieces
  {
    if pieces != [] {
      ComponentsOfComponents(pieces[1..]);
      assert [pieces[0]] + pieces[1..] == pieces;
    }
  }

  /** `PurePosixPath(s)`: rooted when `s` starts with '/'; the components are the pieces
      between slashes, with the empty and "." ones dropped (".." is kept). */
  function Parse(s: string): (p: PurePath)
    ensures p.absolute <==> StartsWith(s, "/")
    ensures WellFormed(p)
  {
    var pieces := Split(s, '/');
    PurePath(StartsWith(s, "/"), Components(pieces))
  }

  /** `str(p)` */
  function ToString(p: PurePath): string {
    if p.absolute then "/" + JoinWith(p.parts, '/')
    else if p.parts == [] then "."
    else JoinWith(p.parts, '/')
  }

  /** Reading back the string form of a path gives the path. */
  lemma ParseToString(p: PurePath)
    requires WellFormed(p)
    ensures Parse(ToString(p)) == p
  {
    var s := ToString(p);
    var body := JoinWith(p.parts, '/');
    var pieces := if p.parts == [] then [""] else p.parts;
    assert Split(body, '/') == pieces by {
      if p.parts != [] { SplitJoin(p.parts, '/'); }
    }
    ComponentsOfComponents(p.parts);
    if p.parts != [] {
      JoinWithHead(p.parts, '/');
      assert body[0] == p.parts[0][0] != '/';
    }
    if p.absolute {
      assert s == "/" + body;
      assert s[1..] == body;
      assert Split(s, '/') == [""] + pieces;
      assert ([""] + pieces)[1..] == pieces;
    } else if p.parts == [] {
      SplitNoSep(".", '/');
    } else {
      assert !StartsWith(s, "/");
    }
  }

  /** `p / s`: an absolute `s` discards `p`; otherwise its components are appended. */
  function Div(p: PurePath, s: string): PurePath {
    var q := Parse(s);
    if q.absolute then q else PurePath(p.absolute, p.parts + q.parts)
  }

  /** `p.parent` */
  function Parent(p: PurePath): PurePath {
    if p.parts == [] then p else PurePath(p.absolute, p.parts[..|p.parts| - 1])
  }

  /** `p.name`: the last component, or "" for a path without components. */
  function Name(p: PurePath): string {
    if p.parts == [] then "" else p.parts[|p.parts| - 1]
  }

  /** `PurePath(name).suffix`: from the last '.' on, when that dot is neither the first
      nor the last character of the name; otherwise "". */
  function Suffix(name: string): (r: string)
    ensures r == "" || (r[0] == '.' && EndsWith(name, r) && |r| < |name|)
  {
    var i := LastIndexOf(name, '.');
    if 0 < i < |name| - 1 then name[i..] else ""
  }

  /** `p.with_suffix(suffix)` on a path with a name. */
  function WithSuffix(p: PurePath, suffix: string): PurePath
    requires p.parts != []
  {
    var n := Name(p);
    PurePath(p.absolute, p.parts[..|p.parts| - 1] + [n[..|n| - |Suffix(n)|] + suffix])
  }

  /** `p.relative_to(base)` for a path under `base`. */
  function RelativeTo(p: PurePath, base: PurePath): PurePath
    requires base.parts <= p.parts
  {
    PurePath(false, p.parts[|base.parts|..])
  }

  /** `p.resolve()` with no symbolic links: ".." removes the component before it, and
      at the root stays at the root. */
  function Resolve(p: PurePath): (r: PurePath)
    ensures r.absolute
  {
    PurePath(true, NormFold(p.parts, [], true))
  }
}
