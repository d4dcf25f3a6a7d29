/**
 * Lexical POSIX paths: the text of a `pathlib.PurePosixPath`, `posixpath.join`
 * and `posixpath.normpath`. Nothing here touches a filesystem.
 *
 * A path is a root (no slash, `/`, or `//`: IEEE Std 1003.1, section 4.13,
 * leaves a path that starts with exactly two slashes implementation-defined,
 * so both modules keep it, while three or more count as one) followed by
 * parts separated by `/`.
 */
module PosixPath {
  import opened Text

  predicate IsAbsolute(p: string) { |p| > 0 && p[0] == '/' }

  /** The number of slashes the root of `p` keeps. */
  function RootSlashes(p: string): (n: nat)
    ensures n <= 2
    ensures (n > 0) == IsAbsolute(p)
  {
    if !IsAbsolute(p) then 0
    else if |p| >= 2 && p[1] == '/' && (|p| == 2 || p[2] != '/') then 2
    else 1
  }

  function RootText(n: nat): string
    requires n <= 2
  {
    if n == 0 then "" else if n == 1 then "/" else "//"
  }

  /** A root followed by the parts joined with `/`; the empty relative path is spelt `.`. */
  function Render(n: nat, parts: seq<string>): (s: string)
    requires n <= 2
    ensures s != ""
  {
    var s := RootText(n) + Join(parts, '/');
    if s == "" then "." else s
  }

  /** Parts that can stand between separators: non-empty, not `.`, without `/`. */
  ghost predicate WellFormed(parts: seq<string>)
  {
    forall k :: 0 <= k < |parts| ==> parts[k] != "" && parts[k] != "." && '/' !in parts[k]
  }

  /** What `normpath` produces: well-formed parts where every `..` comes before
      every name, and no `..` at all under a root. */
  ghost predicate Normal(rooted: bool, parts: seq<string>)
  {
    && WellFormed(parts)
    && (rooted ==> forall k :: 0 <= k < |parts| ==> parts[k] != "..")
    && (forall i, j :: 0 <= i < j < |parts| && parts[j] == ".." ==> parts[i] == "..")
  }

  /** The parts of `parts` that are neither empty nor `.`, in order. */
  function Clean(parts: seq<string>): (r: seq<string>)
    ensures forall k :: 0 <= k < |r| ==> r[k] != "" && r[k] != "."
    ensures (forall k :: 0 <= k < |parts| ==> '/' !in parts[k]) ==> forall k :: 0 <= k < |r| ==> '/' !in r[k]
  {
    if parts == [] then [] else Keep(parts[0]) + Clean(parts[1..])
  }

  /** A part on its own, or nothing for an empty or `.` part. */
  function Keep(part: string): seq<string>
  {
    if part == "" || part == "." then [] else [part]
  }

  /** `str(PurePosixPath(p))`: the root, then the parts without empty and `.` ones. */
  function PurePath(p: string): (r: string)
    ensures r != ""
  {
    Render(RootSlashes(p), Clean(Split(p, '/')))
  }

  /** `posixpath.join(a, b)`: an absolute `b` replaces `a`; otherwise one `/` joins them. */
  function JoinPath(a: string, b: string): string
  {
    if IsAbsolute(b) then b
    else if a == "" || a[|a| - 1] == '/' then a + b
    else a + "/" + b
  }

  /** pathlib's `a / b` on two path texts. */
  function Div(a: string, b: string): (r: string)
    ensures r != ""
  {
    PurePath(JoinPath(a, b))
  }

  /** One iteration of `normpath`'s loop over the parts: empty and `.` parts vanish,
      `..` removes the previous name or, under a root, vanishes, and is kept otherwise. */
  function Step(rooted: bool, acc: seq<string>, comp: string): seq<string>
  {
    if comp == "" || comp == "." then acc
    else if comp != ".." || (!rooted && acc == []) || (acc != [] && acc[|acc| - 1] == "..") then acc + [comp]
    else if acc != [] then acc[..|acc| - 1]
    else acc
  }

  /** `normpath`'s loop: the steps over `comps`, from left to right, starting from `acc`. */
  function Collapse(rooted: bool, acc: seq<string>, comps: seq<string>): seq<string>
    decreases |comps|
  {
    if comps == [] then acc else Collapse(rooted, Step(rooted, acc, comps[0]), comps[1..])
  }

  /** `posixpath.normpath(p)`. */
  function NormPath(p: string): (r: string)
    ensures r != ""
  {
    if p == "" then "."
    else
      var n := RootSlashes(p);
      Render(n, Collapse(n > 0, [], Split(p, '/')))
  }

  /** The parts of an absolute path after its root (none for the root alone). */
  function Segments(r: string): seq<string>
  {
    var body := r[RootSlashes(r)..];
    if body == "" then [] else Split(body, '/')
  }

  /** An absolute path in normal form: no segment is empty, `.` or `..`. */
  ghost predicate IsNormalAbsolute(r: string)
  {
    && IsAbsolute(r)
    && forall k :: 0 <= k < |Segments(r)| ==> Segments(r)[k] != "" && Segments(r)[k] != "." && Segments(r)[k] != ".."
  }

  // ---------------------------------------------------------------------------
  // Cleaning and collapsing part lists

  lemma {:induction false} CleanAppend(a: seq<string>, b: seq<string>)
    ensures Clean(a + b) == Clean(a) + Clean(b)
  {
    if a == [] {
      assert a + b == b;
    } else {
      assert (a + b)[0] == a[0] && (a + b)[1..] == a[1..] + b;
      CleanAppend(a[1..], b);
      var head, ca, cb := Keep(a[0]), Clean(a[1..]), Clean(b);
      assert Clean(a + b) == head + (ca + cb);
      assert head + (ca + cb) == (head + ca) + cb;
    }
  }

  /** Parts without empty and `.` ones are left alone by cleaning. */
  lemma {:induction false} CleanKeeps(parts: seq<string>)
    requires forall k :: 0 <= k < |parts| ==> parts[k] != "" && parts[k] != "."
    ensures Clean(parts) == parts
  {
    if parts != [] {
      CleanKeeps(parts[1..]);
    }
  }

  /** Empty and `.` parts never change what the loop computes. */
  lemma {:induction false} CollapseClean(rooted: bool, acc: seq<string>, comps: seq<string>)
    ensures Collapse(rooted, acc, comps) == Collapse(rooted, acc, Clean(comps))
    decreases |comps|
  {
    if comps != [] {
      CollapseClean(rooted, Step(rooted, acc, comps[0]), comps[1..]);
      var c := Clean(comps);
      if comps[0] == "" || comps[0] == "." {
        assert c == Clean(comps[1..]);
        CollapseClean(rooted, acc, comps[1..]);
      } else {
        assert c == [comps[0]] + Clean(comps[1..]);
        assert c[0] == comps[0] && c[1..] == Clean(comps[1..]);
      }
    }
  }

  lemma StepNormal(rooted: bool, acc: seq<string>, comp: string)
    requires Normal(rooted, acc) && '/' !in comp
    ensures Normal(rooted, Step(rooted, acc, comp))
  {
    var r := Step(rooted, acc, comp);
    if comp == ".." && r == acc + [comp] {
      assert !rooted;
      assert forall i :: 0 <= i < |acc| ==> acc[i] == "..";
    }
  }

  /** The loop keeps the accumulated parts in normal form. */
  lemma {:induction false} CollapseNormal(rooted: bool, acc: seq<string>, comps: seq<string>)
    requires Normal(rooted, acc)
    requires forall k :: 0 <= k < |comps| ==> '/' !in comps[k]
    ensures Normal(rooted, Collapse(rooted, acc, comps))
    decreases |comps|
  {
    if comps != [] {
      StepNormal(rooted, acc, comps[0]);
      CollapseNormal(rooted, Step(rooted, acc, comps[0]), comps[1..]);
    }
  }

  /** The loop appends parts that are already in normal form unchanged. */
  lemma {:induction false} CollapseOfNormal(rooted: bool, acc: seq<string>, parts: seq<string>)
    requires Normal(rooted, acc + parts)
    ensures Collapse(rooted, acc, parts) == acc + parts
    decreases |parts|
  {
    if parts != [] {
      var all := acc + parts;
      assert all[|acc|] == parts[0];
      if parts[0] == ".." {
        assert forall i :: 0 <= i < |acc| ==> acc[i] == all[i] == "..";
      }
      assert Step(rooted, acc, parts[0]) == acc + [parts[0]];
      assert (acc + [parts[0]]) + parts[1..] == all;
      CollapseOfNormal(rooted, acc + [parts[0]], parts[1..]);
    }
  }

  // ---------------------------------------------------------------------------
  // Reading back a rendered path

  lemma {:induction false} JoinStart(parts: seq<string>)
    requires |parts| >= 1 && parts[0] != ""
    ensures |Join(parts, '/')| > 0 && Join(parts, '/')[0] == parts[0][0]
  {
  }

  lemma CleanSplitSlash(s: string)
    ensures Clean(Split("/" + s, '/')) == Clean(Split(s, '/'))
  {
    SplitAppend("", s, '/');
    assert "" + ['/'] + s == "/" + s;
    CleanAppend([""], Split(s, '/'));
  }

  lemma SplitAfterRoot(n: nat, s: string)
    requires n <= 2
    ensures Clean(Split(RootText(n) + s, '/')) == Clean(Split(s, '/'))
  {
    if n == 1 {
      CleanSplitSlash(s);
    } else if n == 2 {
      assert RootText(n) + s == "/" + ("/" + s);
      CleanSplitSlash("/" + s);
      CleanSplitSlash(s);
    } else {
      assert RootText(n) + s == s;
    }
  }

  /** A rendered path has the root it was given and its parts read back unchanged. */
  lemma RenderParts(n: nat, parts: seq<string>)
    requires n <= 2 && WellFormed(parts)
    ensures RootSlashes(Render(n, parts)) == n
    ensures Clean(Split(Render(n, parts), '/')) == parts
  {
    if parts == [] {
      RenderNoParts(n);
    } else {
      RenderSomeParts(n, parts);
    }
  }

  /** A root followed by text that does not start with `/` keeps its slashes. */
  lemma RootOfRender(n: nat, j: string)
    requires n <= 2 && j != "" && j[0] != '/'
    ensures RootSlashes(RootText(n) + j) == n
  {
    var s := RootText(n) + j;
    assert s[n] == j[0];
    if n == 2 {
      assert s[0] == '/' && s[1] == '/';
    } else if n == 1 {
      assert s[0] == '/';
    }
  }

  lemma RenderNoParts(n: nat)
    requires n <= 2
    ensures RootSlashes(Render(n, [])) == n
    ensures Clean(Split(Render(n, []), '/')) == []
  {
    assert Join([], '/') == "";
    if n == 0 {
      assert Render(n, []) == ".";
      SplitNoSep(".", '/');
    } else {
      assert Render(n, []) == RootText(n) + "";
      SplitAfterRoot(n, "");
      SplitNoSep("", '/');
    }
  }

  lemma RenderSomeParts(n: nat, parts: seq<string>)
    requires n <= 2 && WellFormed(parts) && parts != []
    ensures RootSlashes(Render(n, parts)) == n
    ensures Clean(Split(Render(n, parts), '/')) == parts
  {
    var j := Join(parts, '/');
    JoinStart(parts);
    assert Render(n, parts) == RootText(n) + j;
    RootOfRender(n, j);
    SplitAfterRoot(n, j);
    SplitJoin(parts, '/');
    CleanKeeps(parts);
  }

  // ---------------------------------------------------------------------------
  // normpath

  /** `normpath` renders the root of `p` and the collapsed parts, which are in normal form. */
  lemma NormPathForm(p: string)
    ensures Normal(RootSlashes(p) > 0, Collapse(RootSlashes(p) > 0, [], Split(p, '/')))
    ensures NormPath(p) == Render(RootSlashes(p), Collapse(RootSlashes(p) > 0, [], Split(p, '/')))
  {
    CollapseNormal(RootSlashes(p) > 0, [], Split(p, '/'));
  }

  /** A path already in normal form is its own `normpath`. */
  lemma NormPathOfRender(n: nat, parts: seq<string>)
    requires n <= 2 && Normal(n > 0, parts)
    ensures NormPath(Render(n, parts)) == Render(n, parts)
  {
    var r := Render(n, parts);
    RenderParts(n, parts);
    CollapseClean(n > 0, [], Split(r, '/'));
    assert [] + parts == parts;
    CollapseOfNormal(n > 0, [], parts);
  }

  /** `normpath` is idempotent. */
  lemma NormPathIdempotent(p: string)
    ensures NormPath(NormPath(p)) == NormPath(p)
  {
    NormPathForm(p);
    NormPathOfRender(RootSlashes(p), Collapse(RootSlashes(p) > 0, [], Split(p, '/')));
  }

  /** `normpath` keeps a path absolute or relative, and keeps its root. */
  lemma NormPathRoot(p: string)
    ensures RootSlashes(NormPath(p)) == RootSlashes(p)
    ensures IsAbsolute(NormPath(p)) == IsAbsolute(p)
  {
    NormPathForm(p);
    RenderParts(RootSlashes(p), Collapse(RootSlashes(p) > 0, [], Split(p, '/')));
  }

  /** The `normpath` of an absolute path is absolute and has no empty, `.` or `..` segment. */
  lemma NormPathAbsoluteClean(p: string)
    requires IsAbsolute(p)
    ensures IsNormalAbsolute(NormPath(p))
  {
    var n := RootSlashes(p);
    var parts := Collapse(true, [], Split(p, '/'));
    NormPathForm(p);
    NormPathRoot(p);
    var r := NormPath(p);
    assert r[n..] == Join(parts, '/');
    if parts != [] {
      SplitJoin(parts, '/');
      JoinStart(parts);
    }
  }

  // ---------------------------------------------------------------------------
  // pathlib and normpath together

  lemma PurePathForm(p: string)
    ensures WellFormed(Clean(Split(p, '/')))
    ensures RootSlashes(PurePath(p)) == RootSlashes(p)
    ensures Clean(Split(PurePath(p), '/')) == Clean(Split(p, '/'))
  {
    RenderParts(RootSlashes(p), Clean(Split(p, '/')));
  }

  /** Building a `Path` first does not change `normpath`. */
  lemma NormPathOfPurePath(p: string)
    ensures NormPath(PurePath(p)) == NormPath(p)
  {
    var n := RootSlashes(p);
    PurePathForm(p);
    NormPathForm(p);
    NormPathForm(PurePath(p));
    CollapseClean(n > 0, [], Split(PurePath(p), '/'));
    CollapseClean(n > 0, [], Split(p, '/'));
  }

  /** The text of a `Path` built from a `normpath` result is that result. */
  lemma PurePathOfNormPath(p: string)
    ensures PurePath(NormPath(p)) == NormPath(p)
  {
    var n := RootSlashes(p);
    var parts := Collapse(n > 0, [], Split(p, '/'));
    NormPathForm(p);
    RenderParts(n, parts);
  }

  /** Building a `Path` from the text of a `Path` gives the same `Path`. */
  lemma PurePathIdempotent(p: string)
    ensures PurePath(PurePath(p)) == PurePath(p)
  {
    PurePathForm(p);
  }

  /** The text of a `Path` with well-formed parts is read back as that `Path`. */
  lemma PurePathOfRender(n: nat, parts: seq<string>)
    requires n <= 2 && WellFormed(parts)
    ensures PurePath(Render(n, parts)) == Render(n, parts)
  {
    RenderParts(n, parts);
  }

  /** `PurePath` keeps a path absolute or relative. */
  lemma PurePathAbsolute(p: string)
    ensures IsAbsolute(PurePath(p)) == IsAbsolute(p)
  {
    PurePathForm(p);
  }

  /** Joining a relative path onto an absolute one keeps the root of the first. */
  lemma JoinPathRoot(a: string, b: string)
    requires IsAbsolute(a) && !IsAbsolute(b)
    ensures RootSlashes(JoinPath(a, b)) == RootSlashes(a)
  {
    var j := JoinPath(a, b);
    assert j[..|a|] == a;
    if |a| < 3 && a[|a| - 1] == '/' {
      assert j == a + b;
      assert |j| > |a| ==> j[|a|] == b[0];
    } else if |a| < 3 {
      assert j == a + "/" + b;
      assert |a| == 2 && a[1] != '/';
    } else {
      assert j[..3] == a[..3];
    }
  }

  /** Joining a relative path onto an absolute one lists the parts of the first,
      then those of the second. */
  lemma JoinPathClean(a: string, b: string)
    requires IsAbsolute(a) && !IsAbsolute(b)
    ensures Clean(Split(JoinPath(a, b), '/')) == Clean(Split(a, '/')) + Clean(Split(b, '/'))
  {
    if a[|a| - 1] == '/' {
      var a' := a[..|a| - 1];
      assert JoinPath(a, b) == a' + ['/'] + b;
      TrailingSlash(a');
      assert a' + "/" == a;
      CleanSplitJoined(a', b);
    } else {
      assert JoinPath(a, b) == a + ['/'] + b;
      CleanSplitJoined(a, b);
    }
  }

  /** A trailing separator adds only an empty part. */
  lemma TrailingSlash(a: string)
    ensures Clean(Split(a + "/", '/')) == Clean(Split(a, '/'))
  {
    CleanSplitJoined(a, "");
    assert a + ['/'] + "" == a + "/";
    assert Split("", '/') == [""];
    assert Clean([""]) == [];
    assert Clean(Split(a, '/')) + [] == Clean(Split(a, '/'));
  }

  lemma CleanSplitJoined(a: string, b: string)
    ensures Clean(Split(a + ['/'] + b, '/')) == Clean(Split(a, '/')) + Clean(Split(b, '/'))
  {
    SplitAppend(a, b, '/');
    CleanAppend(Split(a, '/'), Split(b, '/'));
  }

  /** `normpath(Path(a) / Path(b))` is `normpath(posixpath.join(a, b))`: the `Path`
      conversions and the separator clean-up of `/` make no difference. */
  lemma NormPathOfDiv(a: string, b: string)
    requires IsAbsolute(a) && !IsAbsolute(b)
    ensures NormPath(Div(PurePath(a), PurePath(b))) == NormPath(JoinPath(a, b))
  {
    var pa, pb := PurePath(a), PurePath(b);
    PurePathAbsolute(a);
    PurePathAbsolute(b);
    var j1, j2 := JoinPath(pa, pb), JoinPath(a, b);
    NormPathOfPurePath(j1);
    JoinPathRoot(pa, pb);
    JoinPathRoot(a, b);
    JoinPathClean(pa, pb);
    JoinPathClean(a, b);
    PurePathForm(a);
    PurePathForm(b);
    NormPathForm(j1);
    NormPathForm(j2);
    CollapseClean(true, [], Split(j1, '/'));
    CollapseClean(true, [], Split(j2, '/'));
  }
}
