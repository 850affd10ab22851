/**
 * The POSIX path helpers the core calls: `os.path.basename`, `dirname`, `join`,
 * `normpath`, `abspath` (with the working directory as a parameter), and the
 * framework's `safe_join`, which is what the mock storage's `path()` delegates to.
 */
module PosixPath {
  import opened Basics
  import opened Strings

  predicate NoSlash(s: string) {
    forall i :: 0 <= i < |s| ==> s[i] != '/'
  }

  predicate AllSlashes(s: string) {
    forall i :: 0 <= i < |s| ==> s[i] == '/'
  }

  predicate IsAbsolute(p: string) {
    |p| > 0 && p[0] == '/'
  }

  function Slashes(k: nat): (r: string)
    ensures |r| == k && AllSlashes(r)
  {
    if k == 0 then "" else "/" + Slashes(k - 1)
  }

  /** `k` empty components, as `split` yields for `k` leading slashes. */
  function Empties(k: nat): (r: seq<string>)
    ensures |r| == k
  {
    if k == 0 then [] else [""] + Empties(k - 1)
  }

  /** The index just past the last '/' of `p`, or 0 when `p` has none (`p.rfind('/') + 1`). */
  function AfterLastSlash(p: string): (i: nat)
    ensures i <= |p|
    ensures 0 < i ==> p[i - 1] == '/'
    ensures forall j :: i <= j < |p| ==> p[j] != '/'
  {
    if |p| == 0 then 0
    else if p[|p| - 1] == '/' then |p|
    else AfterLastSlash(p[..|p| - 1])
  }

  /** Unless `r` is all of `p`, the character of `p` just before the suffix `r` is a '/'. */
  predicate SlashBefore(r: string, p: string) {
    |r| < |p| ==> p[|p| - |r| - 1] == '/'
  }

  /** `os.path.basename`: the longest suffix of `p` without a '/'. */
  function Basename(p: string): (r: string)
    ensures NoSlash(r)
    ensures IsSuffix(r, p)
    ensures SlashBefore(r, p)
  {
    p[AfterLastSlash(p)..]
  }

  /** `head.rstrip('/')`. */
  function RStripSlashes(s: string): (r: string)
    ensures IsPrefix(r, s)
    ensures forall j :: |r| <= j < |s| ==> s[j] == '/'
    ensures |r| > 0 ==> r[|r| - 1] != '/'
  {
    if |s| > 0 && s[|s| - 1] == '/' then RStripSlashes(s[..|s| - 1]) else s
  }

  /**
   * `os.path.dirname`: everything before the basename, with the trailing run of
   * slashes removed unless that would leave nothing but slashes behind.
   */
  function Dirname(p: string): (r: string)
    ensures IsPrefix(r, p)
    ensures |r| + |Basename(p)| <= |p|
    ensures forall j :: |r| <= j < |p| - |Basename(p)| ==> p[j] == '/'
    ensures AllSlashes(r) || r[|r| - 1] != '/'
    ensures AllSlashes(r) ==> r == p[..AfterLastSlash(p)]
  {
    var head := p[..AfterLastSlash(p)];
    if head != "" && !AllSlashes(head) then RStripSlashes(head) else head
  }

  /** A name that does not end with the base name keeps its parent: `dirname(d + '/') == d`. */
  lemma DirnameOfSlashTerminated(d: string)
    requires d != "" && d[|d| - 1] != '/'
    ensures Dirname(d + "/") == d
  {
    var p := d + "/";
    assert AfterLastSlash(p) == |p|;
    assert p[..|p|] == p;
    assert !AllSlashes(p) by { assert p[|d| - 1] != '/'; }
    assert p[..|p| - 1] == d;
  }

  /** A path made only of slashes is its own directory (`dirname('/') == '/'`). */
  lemma DirnameOfRoot(p: string)
    requires p != "" && AllSlashes(p)
    ensures Dirname(p) == p
  {
    assert AfterLastSlash(p) == |p|;
    assert p[..|p|] == p;
  }

  /** Python's two-argument `os.path.join`. */
  function Join(a: string, b: string): (r: string)
    ensures IsSuffix(b, r)
    ensures !IsAbsolute(b) ==> IsPrefix(a, r)
    ensures IsAbsolute(b) ==> r == b
    ensures !IsAbsolute(b) && (a == "" || a[|a| - 1] == '/') ==> r == a + b
    ensures !IsAbsolute(b) && a != "" && a[|a| - 1] != '/' ==> r == a + "/" + b
  {
    if IsAbsolute(b) then b
    else if a == "" || a[|a| - 1] == '/' then a + b
    else a + "/" + b
  }

  /** Joining a slash-free name puts that name last: `basename(join(a, b)) == b`. */
  lemma BasenameOfJoin(a: string, b: string)
    requires NoSlash(b)
    ensures Basename(Join(a, b)) == b
  {
    var r := Join(a, b);
    var bn := Basename(r);
    assert |b| < |r| ==> r[|r| - |b| - 1] == '/';
    assert |bn| == |b|;
    assert bn == r[|r| - |b|..];
  }

  /** `os.path.join(base, *paths)`. */
  function JoinAll(base: string, paths: seq<string>): string
    decreases |paths|
  {
    if |paths| == 0 then base else JoinAll(Join(base, paths[0]), paths[1..])
  }

  lemma JoinAllTwo(base: string, a: string, b: string)
    ensures JoinAll(base, [a, b]) == Join(Join(base, a), b)
  {
    assert [a, b][1..] == [b];
    assert [b][1..] == [];
    assert JoinAll(base, [a, b]) == JoinAll(Join(base, a), [b]);
    assert JoinAll(Join(base, a), [b]) == JoinAll(Join(Join(base, a), b), []);
  }

  // ---------------------------------------------------------------------------
  // Components: `p.split('/')` and `'/'.join(cs)`.

  function Split(p: string): (r: seq<string>)
    ensures |r| >= 1
    ensures forall k :: 0 <= k < |r| ==> NoSlash(r[k])
  {
    if |p| == 0 then [""]
    else if p[0] == '/' then [""] + Split(p[1..])
    else
      var rest := Split(p[1..]);
      [[p[0]] + rest[0]] + rest[1..]
  }

  /** `"/" + c` for every component, concatenated. */
  function Prefixed(cs: seq<string>): string
  {
    if |cs| == 0 then "" else "/" + cs[0] + Prefixed(cs[1..])
  }

  /** `'/'.join(cs)`. */
  function JoinSlash(cs: seq<string>): string
  {
    if |cs| == 0 then "" else cs[0] + Prefixed(cs[1..])
  }

  lemma JoinSlashUnfold(cs: seq<string>)
    requires |cs| >= 2
    ensures JoinSlash(cs) == cs[0] + "/" + JoinSlash(cs[1..])
  {
  }

  lemma JoinSlashCons(x: string, cs: seq<string>)
    requires |cs| >= 1
    ensures JoinSlash([x + cs[0]] + cs[1..]) == x + JoinSlash(cs)
  {
    var d := [x + cs[0]] + cs[1..];
    assert d[1..] == cs[1..];
  }

  /** Joining the parts of a split gives the path back. */
  lemma {:induction false} JoinSlashOfSplit(p: string)
    ensures JoinSlash(Split(p)) == p
    decreases |p|
  {
    if |p| > 0 {
      var c, t := p[0], p[1..];
      assert p == [c] + t;
      JoinSlashOfSplit(t);
      JoinSlashOfSplitStep(c, t);
    }
  }

  /** The inductive step of `JoinSlashOfSplit`: one more leading character. */
  lemma JoinSlashOfSplitStep(c: char, t: string)
    requires JoinSlash(Split(t)) == t
    ensures JoinSlash(Split([c] + t)) == [c] + t
  {
    SplitCons(c, t);
    var rest := Split(t);
    if c == '/' {
      JoinSlashAfterEmpty(rest);
    } else {
      JoinSlashCons([c], rest);
    }
  }

  /** An empty first component contributes only the separator after it. */
  lemma JoinSlashAfterEmpty(cs: seq<string>)
    requires |cs| >= 1
    ensures JoinSlash([""] + cs) == "/" + JoinSlash(cs)
  {
    var d := [""] + cs;
    assert d[0] == "" && d[1..] == cs;
    assert JoinSlash(d) == "" + Prefixed(cs);
    assert "" + Prefixed(cs) == Prefixed(cs);
    assert Prefixed(cs) == ("/" + cs[0]) + Prefixed(cs[1..]);
    assert ("/" + cs[0]) + Prefixed(cs[1..]) == "/" + (cs[0] + Prefixed(cs[1..]));
  }

  lemma {:induction false} SplitNoSlash(s: string)
    requires NoSlash(s)
    ensures Split(s) == [s]
    decreases |s|
  {
    if |s| > 0 {
      SplitNoSlash(s[1..]);
      assert s == [s[0]] + s[1..];
    }
  }

  /** One step of `Split`: the first character either starts a new component or extends the first one. */
  lemma SplitCons(c: char, s: string)
    ensures Split([c] + s) == if c == '/' then [""] + Split(s) else [[c] + Split(s)[0]] + Split(s)[1..]
  {
    assert ([c] + s)[0] == c;
    assert ([c] + s)[1..] == s;
  }

  /** The inductive step of `SplitConcat`, for a first character that is not a slash. */
  lemma SplitConcatStep(c: char, t: string, b: string)
    requires c != '/'
    requires Split(t + "/" + b) == Split(t) + Split(b)
    ensures Split([c] + (t + "/" + b)) == Split([c] + t) + Split(b)
  {
    SplitCons(c, t);
    SplitCons(c, t + "/" + b);
    ExtendFirst(c, Split(t), Split(b));
  }

  /** Extending the first component commutes with appending further components. */
  lemma ExtendFirst(c: char, xs: seq<string>, ys: seq<string>)
    requires |xs| >= 1
    ensures [[c] + (xs + ys)[0]] + (xs + ys)[1..] == ([[c] + xs[0]] + xs[1..]) + ys
  {
    assert (xs + ys)[0] == xs[0];
    assert (xs + ys)[1..] == xs[1..] + ys;
  }

  /** Splitting distributes over a separator. */
  lemma {:induction false} SplitConcat(a: string, b: string)
    ensures Split(a + "/" + b) == Split(a) + Split(b)
    decreases |a|
  {
    if |a| == 0 {
      assert (a + "/" + b)[1..] == b;
    } else {
      var c, t := a[0], a[1..];
      assert a == [c] + t;
      assert a + "/" + b == [c] + (t + "/" + b);
      SplitConcat(t, b);
      if c == '/' {
        SplitCons(c, t);
        SplitCons(c, t + "/" + b);
      } else {
        SplitConcatStep(c, t, b);
      }
    }
  }

  lemma {:induction false} SplitSlashes(k: nat, s: string)
    ensures Split(Slashes(k) + s) == Empties(k) + Split(s)
    decreases k
  {
    if k > 0 {
      var p := Slashes(k) + s;
      assert p[0] == '/';
      assert p[1..] == Slashes(k - 1) + s;
      SplitSlashes(k - 1, s);
      assert Split(p) == [""] + Split(p[1..]);
      assert Empties(k) + Split(s) == [""] + (Empties(k - 1) + Split(s));
    } else {
      assert Slashes(k) + s == s;
      assert Empties(k) + Split(s) == Split(s);
    }
  }

  /** Splitting the join of slash-free parts gives the parts back. */
  lemma {:induction false} SplitOfJoinSlash(cs: seq<string>)
    requires |cs| >= 1
    requires forall k :: 0 <= k < |cs| ==> NoSlash(cs[k])
    ensures Split(JoinSlash(cs)) == cs
    decreases |cs|
  {
    if |cs| == 1 {
      SplitNoSlash(cs[0]);
      assert JoinSlash(cs) == cs[0] + "" == cs[0];
      assert cs == [cs[0]];
    } else {
      SplitOfJoinSlash(cs[1..]);
      JoinSlashUnfold(cs);
      SplitConcat(cs[0], JoinSlash(cs[1..]));
      SplitNoSlash(cs[0]);
    }
  }

  lemma {:induction false} JoinSlashAppend(a: seq<string>, b: seq<string>)
    requires |a| >= 1 && |b| >= 1
    ensures JoinSlash(a + b) == JoinSlash(a) + "/" + JoinSlash(b)
    decreases |a|
  {
    if |a| == 1 {
      assert (a + b)[1..] == b;
      JoinSlashUnfold(a + b);
    } else {
      assert (a + b)[1..] == a[1..] + b;
      JoinSlashAppend(a[1..], b);
      JoinSlashUnfold(a + b);
      JoinSlashUnfold(a);
    }
  }

  // ---------------------------------------------------------------------------
  // `os.path.normpath`.

  /** A component that survives normalisation unchanged. */
  predicate Plain(c: string) {
    c != "" && c != "." && c != ".." && NoSlash(c)
  }

  predicate AllPlain(cs: seq<string>) {
    forall k :: 0 <= k < |cs| ==> Plain(cs[k])
  }

  /** One step of `normpath`'s component loop. */
  function NormStep(c: string, absolute: bool, acc: seq<string>): seq<string>
  {
    if c == "" || c == "." then acc
    else if c != ".." || (!absolute && |acc| == 0) || (|acc| > 0 && acc[|acc| - 1] == "..") then acc + [c]
    else if |acc| > 0 then acc[..|acc| - 1]
    else acc
  }

  function NormComps(comps: seq<string>, absolute: bool, acc: seq<string>): seq<string>
    decreases |comps|
  {
    if |comps| == 0 then acc else NormComps(comps[1..], absolute, NormStep(comps[0], absolute, acc))
  }

  /** One leading slash, or two exactly (POSIX leaves "//" implementation-defined). */
  function LeadingSlashes(p: string): nat
  {
    if IsPrefix("/", p) then (if IsPrefix("//", p) && !IsPrefix("///", p) then 2 else 1) else 0
  }

  function NormPath(p: string): string
  {
    if p == "" then "."
    else
      var k := LeadingSlashes(p);
      var r := Slashes(k) + JoinSlash(NormComps(Split(p), k > 0, []));
      if r == "" then "." else r
  }

  /** `os.path.abspath`, with `os.getcwd()` passed in as `cwd`. */
  function AbsPath(cwd: string, p: string): string
  {
    NormPath(if IsAbsolute(p) then p else Join(cwd, p))
  }

  lemma {:induction false} NormCompsAppend(x: seq<string>, y: seq<string>, absolute: bool, acc: seq<string>)
    ensures NormComps(x + y, absolute, acc) == NormComps(y, absolute, NormComps(x, absolute, acc))
    decreases |x|
  {
    if |x| > 0 {
      assert (x + y)[1..] == x[1..] + y;
      NormCompsAppend(x[1..], y, absolute, NormStep(x[0], absolute, acc));
    } else {
      assert x + y == y;
    }
  }

  /** For an absolute path no ".." (nor empty or ".") component ever reaches the result. */
  lemma {:induction false} NormCompsAbsolutePlain(comps: seq<string>, acc: seq<string>)
    requires AllPlain(acc)
    requires forall k :: 0 <= k < |comps| ==> NoSlash(comps[k])
    ensures AllPlain(NormComps(comps, true, acc))
    decreases |comps|
  {
    if |comps| > 0 {
      NormCompsAbsolutePlain(comps[1..], NormStep(comps[0], true, acc));
    }
  }

  /** Components dropped by normalisation without effect on the rest. */
  function Kept(comps: seq<string>): (r: seq<string>)
    ensures forall k :: 0 <= k < |r| ==> r[k] != "" && r[k] != "."
    ensures |r| <= |comps|
  {
    if |comps| == 0 then []
    else if comps[0] == "" || comps[0] == "." then Kept(comps[1..])
    else [comps[0]] + Kept(comps[1..])
  }

  /** Without a ".." component, normalisation only appends. */
  lemma {:induction false} NormCompsNoDotDot(comps: seq<string>, absolute: bool, acc: seq<string>)
    requires forall k :: 0 <= k < |comps| ==> comps[k] != ".."
    ensures NormComps(comps, absolute, acc) == acc + Kept(comps)
    decreases |comps|
  {
    if |comps| > 0 {
      NormCompsNoDotDot(comps[1..], absolute, NormStep(comps[0], absolute, acc));
    }
  }

  lemma {:induction false} NormCompsOfEmpties(k: nat, absolute: bool, acc: seq<string>)
    ensures NormComps(Empties(k), absolute, acc) == acc
    decreases k
  {
    if k > 0 {
      assert Empties(k)[1..] == Empties(k - 1);
      NormCompsOfEmpties(k - 1, absolute, acc);
    }
  }

  lemma LeadingSlashesOf(k: nat, s: string)
    requires k == 1 || k == 2
    requires |s| > 0 && s[0] != '/'
    ensures LeadingSlashes(Slashes(k) + s) == k
  {
    var p := Slashes(k) + s;
    assert p[k] == s[0];
    if k == 1 {
      assert !IsPrefix("//", p) by { assert p[1] != '/'; }
    } else {
      assert IsPrefix("//", p) by { assert p[..2] == "//"; }
      assert !IsPrefix("///", p) by { assert p[2] != '/'; }
    }
  }

  /** Shape of a normalised absolute path: one or two slashes, then plain components. */
  lemma NormPathAbsolute(p: string)
    requires IsAbsolute(p)
    ensures LeadingSlashes(p) == 1 || LeadingSlashes(p) == 2
    ensures AllPlain(NormComps(Split(p), true, []))
    ensures NormPath(p) == Slashes(LeadingSlashes(p)) + JoinSlash(NormComps(Split(p), true, []))
  {
    assert IsPrefix("/", p) by { assert p[..1] == "/"; }
    NormCompsAbsolutePlain(Split(p), []);
  }

  /** A normalised absolute path is a fixed point of `normpath`. */
  lemma NormPathIdempotent(k: nat, cs: seq<string>)
    requires k == 1 || k == 2
    requires AllPlain(cs)
    ensures NormPath(Slashes(k) + JoinSlash(cs)) == Slashes(k) + JoinSlash(cs)
  {
    var p := Slashes(k) + JoinSlash(cs);
    if |cs| == 0 {
      assert p == Slashes(k) + "";
      SplitSlashes(k, "");
      NormCompsOfEmpties(k, true, []);
      NormCompsAppend(Empties(k), [""], true, []);
      if k == 1 {
        assert !IsPrefix("//", p);
      } else {
        assert p == "//";
      }
      assert LeadingSlashes(p) == k;
    } else {
      SplitOfJoinSlash(cs);
      JoinSlashHead(cs);
      LeadingSlashesOf(k, JoinSlash(cs));
      SplitSlashes(k, JoinSlash(cs));
      NormCompsOfPlain(k, cs);
      assert NormComps(Split(p), true, []) == cs;
    }
  }

  /** Normalising slashes-then-plain-components keeps the components. */
  lemma NormCompsOfPlain(k: nat, cs: seq<string>)
    requires AllPlain(cs)
    ensures NormComps(Empties(k) + cs, true, []) == cs
  {
    NormCompsAppend(Empties(k), cs, true, []);
    NormCompsOfEmpties(k, true, []);
    NormCompsNoDotDot(cs, true, []);
    KeptPlain(cs);
    assert [] + cs == cs;
  }

  /** The joined components end with the last one. */
  lemma {:induction false} JoinSlashLast(cs: seq<string>)
    requires |cs| >= 1
    ensures IsSuffix(cs[|cs| - 1], JoinSlash(cs))
    decreases |cs|
  {
    if |cs| > 1 {
      JoinSlashLast(cs[1..]);
      JoinSlashUnfold(cs);
    }
  }

  lemma JoinSlashHead(cs: seq<string>)
    requires |cs| >= 1 && |cs[0]| >= 1
    ensures |JoinSlash(cs)| >= 1 && JoinSlash(cs)[0] == cs[0][0]
  {
  }

  lemma {:induction false} KeptPlain(cs: seq<string>)
    requires AllPlain(cs)
    ensures Kept(cs) == cs
    decreases |cs|
  {
    if |cs| > 0 {
      KeptPlain(cs[1..]);
    }
  }

  // ---------------------------------------------------------------------------
  // `safe_join`: join, normalise, and refuse anything outside the base.

  /** The containment test `safe_join` applies before returning. */
  predicate Contained(finalPath: string, basePath: string) {
    IsPrefix(basePath + "/", finalPath) || finalPath == basePath || Dirname(basePath) == basePath
  }

  /**
   * `safe_join(base, *paths)`: the normalised absolute join, or `None` where the
   * framework raises `SuspiciousFileOperation`.
   */
  function SafeJoin(cwd: string, base: string, paths: seq<string>): (r: Option<string>)
    requires IsAbsolute(cwd)
    ensures r.Some? ==> r.value == AbsPath(cwd, JoinAll(base, paths))
    ensures r.Some? ==> Contained(r.value, AbsPath(cwd, base))
    ensures r.Some? ==> IsAbsolute(r.value)
    ensures r.Some? ==> forall k :: 0 <= k < |Split(r.value)| ==> Split(r.value)[k] != ".."
    ensures r.None? <==> !Contained(AbsPath(cwd, JoinAll(base, paths)), AbsPath(cwd, base))
  {
    var finalPath := AbsPath(cwd, JoinAll(base, paths));
    var basePath := AbsPath(cwd, base);
    AbsPathIsNormal(cwd, JoinAll(base, paths));
    if Contained(finalPath, basePath) then Some(finalPath) else None
  }

  lemma AbsPathAbsolute(cwd: string, p: string)
    requires IsAbsolute(cwd)
    ensures IsAbsolute(if IsAbsolute(p) then p else Join(cwd, p))
  {
  }

  /** `abspath` yields an absolute path without "..", "." or empty components. */
  lemma AbsPathIsNormal(cwd: string, p: string)
    requires IsAbsolute(cwd)
    ensures IsAbsolute(AbsPath(cwd, p))
    ensures forall k :: 0 <= k < |Split(AbsPath(cwd, p))| ==> Split(AbsPath(cwd, p))[k] != ".."
  {
    var q := if IsAbsolute(p) then p else Join(cwd, p);
    AbsPathAbsolute(cwd, p);
    NormPathAbsolute(q);
    var k := LeadingSlashes(q);
    var cs := NormComps(Split(q), true, []);
    var r := NormPath(q);
    assert r[0] == '/';
    SplitSlashes(k, JoinSlash(cs));
    if |cs| == 0 {
      assert JoinSlash(cs) == "";
      assert Split(r) == Empties(k) + [""];
    } else {
      SplitOfJoinSlash(cs);
      assert Split(r) == Empties(k) + cs;
    }
  }

  /** `abspath` is idempotent: its results are already absolute and normal. */
  lemma AbsPathIdempotent(cwd: string, p: string)
    requires IsAbsolute(cwd)
    ensures AbsPath(cwd, AbsPath(cwd, p)) == AbsPath(cwd, p)
  {
    var k, cs := AbsPathShape(cwd, p);
    var q := Slashes(k) + JoinSlash(cs);
    assert q[0] == Slashes(k)[0] == '/';
    NormPathIdempotent(k, cs);
  }

  /** A relative path none of whose components is "..". */
  predicate NoTraversal(p: string) {
    !IsAbsolute(p) && forall k :: 0 <= k < |Split(p)| ==> Split(p)[k] != ".."
  }

  /** `abspath` of anything is one or two slashes followed by plain components. */
  lemma AbsPathShape(cwd: string, p: string) returns (k: nat, cs: seq<string>)
    requires IsAbsolute(cwd)
    ensures k == 1 || k == 2
    ensures AllPlain(cs)
    ensures AbsPath(cwd, p) == Slashes(k) + JoinSlash(cs)
  {
    var q := if IsAbsolute(p) then p else Join(cwd, p);
    AbsPathAbsolute(cwd, p);
    NormPathAbsolute(q);
    k := LeadingSlashes(q);
    cs := NormComps(Split(q), true, []);
  }

  /** Normalising `base + "/" + t` for a normalised base continues from the base's components. */
  lemma NormPathUnderBase(k: nat, cs: seq<string>, t: string)
    requires k == 1 || k == 2
    requires |cs| >= 1 && AllPlain(cs)
    ensures NormPath(Slashes(k) + JoinSlash(cs) + "/" + t) == Slashes(k) + JoinSlash(NormComps(Split(t), true, cs))
  {
    var j := Slashes(k) + JoinSlash(cs) + "/" + t;
    SplitUnderBase(k, cs, t);
    LeadingSlashesUnderBase(k, cs, t);
    NormCompsAppend(Empties(k) + cs, Split(t), true, []);
    NormCompsOfPlain(k, cs);
    NormPathOfShape(j, k, NormComps(Split(t), true, cs));
  }

  /** The components of `base + "/" + t`: the base's, then those of `t`. */
  lemma SplitUnderBase(k: nat, cs: seq<string>, t: string)
    requires |cs| >= 1 && AllPlain(cs)
    ensures Split(Slashes(k) + JoinSlash(cs) + "/" + t) == (Empties(k) + cs) + Split(t)
  {
    var rest := JoinSlash(cs) + "/" + t;
    assert Slashes(k) + JoinSlash(cs) + "/" + t == Slashes(k) + rest;
    SplitSlashes(k, rest);
    SplitConcat(JoinSlash(cs), t);
    SplitOfJoinSlash(cs);
  }

  lemma LeadingSlashesUnderBase(k: nat, cs: seq<string>, t: string)
    requires k == 1 || k == 2
    requires |cs| >= 1 && AllPlain(cs)
    ensures LeadingSlashes(Slashes(k) + JoinSlash(cs) + "/" + t) == k
  {
    var rest := JoinSlash(cs) + "/" + t;
    assert Slashes(k) + JoinSlash(cs) + "/" + t == Slashes(k) + rest;
    JoinSlashHead(cs);
    assert rest[0] == cs[0][0];
    LeadingSlashesOf(k, rest);
  }

  /** `normpath` of a path with `k` leading slashes whose components normalise to `comps`. */
  lemma NormPathOfShape(p: string, k: nat, comps: seq<string>)
    requires k == 1 || k == 2
    requires LeadingSlashes(p) == k
    requires NormComps(Split(p), true, []) == comps
    ensures NormPath(p) == Slashes(k) + JoinSlash(comps)
  {
    assert |Slashes(k) + JoinSlash(comps)| >= 1;
  }

  /** A normalised base with at least one component does not end with a slash. */
  lemma NormalBaseEnd(k: nat, cs: seq<string>)
    requires |cs| >= 1 && AllPlain(cs)
    ensures var base := Slashes(k) + JoinSlash(cs);
      base != "" && base[|base| - 1] != '/' && Basename(base) != "" && Dirname(base) != base
  {
    var base := Slashes(k) + JoinSlash(cs);
    JoinSlashLast(cs);
    var last := cs[|cs| - 1];
    assert base[|base| - 1] == last[|last| - 1];
    assert AfterLastSlash(base) < |base|;
  }

  /**
   * Under a base that is already normalised, a relative location and a relative
   * name free of ".." are always accepted.
   */
  lemma SafeJoinAcceptsRelative(cwd: string, baseLocation: string, location: string, name: string)
    requires IsAbsolute(cwd)
    requires NoTraversal(location) && NoTraversal(name)
    ensures SafeJoin(cwd, AbsPath(cwd, baseLocation), [location, name]).Some?
  {
    var k, cs := AbsPathShape(cwd, baseLocation);
    var base := Slashes(k) + JoinSlash(cs);
    NormPathIdempotent(k, cs);
    assert IsAbsolute(base);
    assert AbsPath(cwd, base) == base;
    var j := JoinAll(base, [location, name]);
    JoinAllTwo(base, location, name);
    if |cs| == 0 {
      assert base == Slashes(k);
      DirnameOfRoot(base);
      assert Contained(AbsPath(cwd, j), AbsPath(cwd, base));
    } else {
      RelativeStaysUnder(k, cs, location, name);
      assert AbsPath(cwd, j) == NormPath(j);
      assert Contained(AbsPath(cwd, j), AbsPath(cwd, base));
    }
  }

  lemma RelativeStaysUnder(k: nat, cs: seq<string>, location: string, name: string)
    requires k == 1 || k == 2
    requires |cs| >= 1 && AllPlain(cs)
    requires NoTraversal(location) && NoTraversal(name)
    ensures IsAbsolute(Join(Join(Slashes(k) + JoinSlash(cs), location), name))
    ensures var base := Slashes(k) + JoinSlash(cs);
      var f := NormPath(Join(Join(base, location), name));
      f == base || IsPrefix(base + "/", f)
  {
    var base := Slashes(k) + JoinSlash(cs);
    NormalBaseEnd(k, cs);
    var t := JoinedTail(location, name);
    JoinedTailShape(base, location, name);
    JoinedTailNoTraversal(location, name);
    NormPathUnderBase(k, cs, t);
    NormCompsNoDotDot(Split(t), true, cs);
    var kept := Kept(Split(t));
    var f := Slashes(k) + JoinSlash(cs + kept);
    assert NormPath(base + "/" + t) == f;
    if |kept| == 0 {
      assert cs + kept == cs;
    } else {
      JoinSlashAppend(cs, kept);
      SlashAssoc(Slashes(k), JoinSlash(cs), JoinSlash(kept));
    }
  }

  lemma SlashAssoc(a: string, b: string, c: string)
    ensures a + (b + "/" + c) == (a + b) + "/" + c
  {
  }

  /** What follows `base + "/"` once a relative location and name are joined to it. */
  function JoinedTail(location: string, name: string): string
  {
    if location == "" then name
    else if location[|location| - 1] == '/' then location + name
    else location + "/" + name
  }

  lemma JoinOntoBase(base: string, location: string)
    requires base != "" && base[|base| - 1] != '/'
    requires !IsAbsolute(location)
    ensures Join(base, location) == base + "/" + location
  {
  }

  lemma JoinOntoSlash(l: string, name: string)
    requires l != "" && l[|l| - 1] == '/'
    requires !IsAbsolute(name)
    ensures Join(l, name) == l + name
  {
  }

  lemma JoinedTailShape(base: string, location: string, name: string)
    requires base != "" && base[|base| - 1] != '/'
    requires !IsAbsolute(location) && !IsAbsolute(name)
    ensures Join(Join(base, location), name) == base + "/" + JoinedTail(location, name)
  {
    JoinOntoBase(base, location);
    var l := base + "/" + location;
    if location == "" {
      assert l == base + "/";
      JoinOntoSlash(l, name);
    } else if location[|location| - 1] == '/' {
      assert l[|l| - 1] == '/';
      JoinOntoSlash(l, name);
      assert l + name == base + "/" + (location + name);
    } else {
      assert l[|l| - 1] != '/';
      JoinOntoBase(l, name);
      assert l + "/" + name == base + "/" + (location + "/" + name);
    }
  }

  /** The joined tail has no ".." component when neither part has one. */
  lemma JoinedTailNoTraversal(location: string, name: string)
    requires NoTraversal(location) && NoTraversal(name)
    ensures forall k :: 0 <= k < |Split(JoinedTail(location, name))| ==> Split(JoinedTail(location, name))[k] != ".."
  {
    if location != "" && location[|location| - 1] == '/' {
      var l := location[..|location| - 1];
      assert location == l + "/" + "";
      SplitConcat(l, "");
      assert location + name == l + "/" + name;
      SplitConcat(l, name);
      assert forall k :: 0 <= k < |Split(l)| ==> Split(l)[k] == Split(location)[k];
    } else if location != "" {
      SplitConcat(location, name);
    }
  }

  /** A ".." that climbs out of any base other than the root is refused, not clamped. */
  lemma SafeJoinRefusesParent(cwd: string, baseLocation: string)
    requires IsAbsolute(cwd)
    requires Dirname(AbsPath(cwd, baseLocation)) != AbsPath(cwd, baseLocation)
    ensures SafeJoin(cwd, AbsPath(cwd, baseLocation), ["", ".."]).None?
  {
    var k, cs := AbsPathShape(cwd, baseLocation);
    RootHasNoComponents(k, cs);
    NormalBaseRefusesParent(cwd, k, cs);
  }

  /** The same refusal, stated for a base already in normal form. */
  lemma NormalBaseRefusesParent(cwd: string, k: nat, cs: seq<string>)
    requires IsAbsolute(cwd)
    requires k == 1 || k == 2
    requires |cs| >= 1 && AllPlain(cs)
    requires Dirname(Slashes(k) + JoinSlash(cs)) != Slashes(k) + JoinSlash(cs)
    ensures SafeJoin(cwd, Slashes(k) + JoinSlash(cs), ["", ".."]).None?
  {
    var base := Slashes(k) + JoinSlash(cs);
    AbsPathOfParentJoin(cwd, base);
    NormPathIdempotent(k, cs);
    ParentLeavesBase(k, cs);
    ShorterNotContained(NormPath(Join(Join(base, ""), "..")), base);
  }

  /** Joining "" and ".." onto an absolute base needs no working directory. */
  lemma AbsPathOfParentJoin(cwd: string, base: string)
    requires IsAbsolute(base)
    ensures AbsPath(cwd, JoinAll(base, ["", ".."])) == NormPath(Join(Join(base, ""), ".."))
  {
    JoinAllTwo(base, "", "..");
    assert IsPrefix(base, Join(base, ""));
    assert IsPrefix(Join(base, ""), Join(Join(base, ""), ".."));
  }

  /** A path shorter than a base other than the root is not contained in it. */
  lemma ShorterNotContained(finalPath: string, basePath: string)
    requires |finalPath| < |basePath| && Dirname(basePath) != basePath
    ensures !Contained(finalPath, basePath)
  {
  }

  /** A normalised path without components is the root, its own dirname. */
  lemma RootHasNoComponents(k: nat, cs: seq<string>)
    requires k == 1 || k == 2
    ensures |cs| == 0 ==> Dirname(Slashes(k) + JoinSlash(cs)) == Slashes(k) + JoinSlash(cs)
  {
    if |cs| == 0 {
      assert Slashes(k) + JoinSlash(cs) == Slashes(k);
      DirnameOfRoot(Slashes(k));
    }
  }

  lemma ParentLeavesBase(k: nat, cs: seq<string>)
    requires k == 1 || k == 2
    requires |cs| >= 1 && AllPlain(cs)
    ensures var base := Slashes(k) + JoinSlash(cs);
      |NormPath(Join(Join(base, ""), ".."))| < |base|
  {
    var base := Slashes(k) + JoinSlash(cs);
    NormalBaseEnd(k, cs);
    JoinedTailShape(base, "", "..");
    var parent := cs[..|cs| - 1];
    ParentComps(cs);
    NormPathUnderBase(k, cs, "..");
    ParentShorter(k, cs);
  }

  lemma ParentComps(cs: seq<string>)
    requires |cs| >= 1 && AllPlain(cs)
    ensures NormComps(Split(".."), true, cs) == cs[..|cs| - 1]
  {
    SplitNoSlash("..");
  }

  lemma ParentShorter(k: nat, cs: seq<string>)
    requires |cs| >= 1 && AllPlain(cs)
    ensures |Slashes(k) + JoinSlash(cs[..|cs| - 1])| < |Slashes(k) + JoinSlash(cs)|
  {
    var parent := cs[..|cs| - 1];
    if |parent| > 0 {
      assert cs == parent + [cs[|cs| - 1]];
      JoinSlashAppend(parent, [cs[|cs| - 1]]);
    }
  }

  /** A plain name is a relative path without "..". */
  lemma PlainNoTraversal(name: string)
    requires Plain(name)
    ensures NoTraversal(name)
  {
    SplitNoSlash(name);
  }

  /** Whatever the relative location, the joined tail splits into some components then the name. */
  lemma SplitTailEndsWithName(location: string, name: string) returns (xs: seq<string>)
    requires Plain(name)
    ensures Split(JoinedTail(location, name)) == xs + [name]
  {
    SplitNoSlash(name);
    if location == "" {
      xs := [];
    } else if location[|location| - 1] == '/' {
      var l := location[..|location| - 1];
      assert location + name == l + "/" + name;
      SplitConcat(l, name);
      xs := Split(l);
    } else {
      SplitConcat(location, name);
      xs := Split(location);
    }
  }

  lemma {:induction false} KeptThenPlain(xs: seq<string>, name: string)
    requires Plain(name)
    ensures Kept(xs + [name]) == Kept(xs) + [name]
    decreases |xs|
  {
    if |xs| == 0 {
      assert xs + [name] == [name];
    } else {
      assert (xs + [name])[1..] == xs[1..] + [name];
      KeptThenPlain(xs[1..], name);
    }
  }

  lemma BasenameAfterSlash(a: string, name: string)
    requires Plain(name)
    ensures Basename(a + "/" + name) == name
  {
    BasenameOfJoin(a + "/", name);
    assert Join(a + "/", name) == a + "/" + name;
  }

  /** Normalising a join under a normalised, non-root base appends the kept components of the tail. */
  lemma NormalisedJoin(k: nat, cs: seq<string>, location: string, name: string)
    requires k == 1 || k == 2
    requires |cs| >= 1 && AllPlain(cs)
    requires NoTraversal(location) && NoTraversal(name)
    ensures NormPath(Join(Join(Slashes(k) + JoinSlash(cs), location), name))
      == Slashes(k) + JoinSlash(cs + Kept(Split(JoinedTail(location, name))))
  {
    var base := Slashes(k) + JoinSlash(cs);
    NormalBaseEnd(k, cs);
    var t := JoinedTail(location, name);
    JoinedTailShape(base, location, name);
    JoinedTailNoTraversal(location, name);
    NormPathUnderBase(k, cs, t);
    NormCompsNoDotDot(Split(t), true, cs);
  }

  /** A normal form ending with a plain component has that component as its basename. */
  lemma BasenameOfNormalForm(k: nat, ys: seq<string>, name: string)
    requires |ys| >= 1 && Plain(name)
    ensures Basename(Slashes(k) + JoinSlash(ys + [name])) == name
  {
    JoinSlashAppend(ys, [name]);
    assert JoinSlash([name]) == name;
    assert Slashes(k) + JoinSlash(ys + [name]) == (Slashes(k) + JoinSlash(ys)) + "/" + name;
    BasenameAfterSlash(Slashes(k) + JoinSlash(ys), name);
  }

  /** Normalising a join under a normalised, non-root base keeps a plain name last. */
  lemma NormalisedJoinKeepsName(k: nat, cs: seq<string>, location: string, name: string)
    requires k == 1 || k == 2
    requires |cs| >= 1 && AllPlain(cs)
    requires NoTraversal(location) && Plain(name)
    ensures Basename(NormPath(Join(Join(Slashes(k) + JoinSlash(cs), location), name))) == name
  {
    PlainNoTraversal(name);
    NormalisedJoin(k, cs, location, name);
    var xs := SplitTailEndsWithName(location, name);
    KeptTailKeepsName(k, cs, xs, name);
  }

  /** A normal form whose kept tail ends with a plain name has that name as its basename. */
  lemma KeptTailKeepsName(k: nat, cs: seq<string>, xs: seq<string>, name: string)
    requires |cs| >= 1 && Plain(name)
    ensures Basename(Slashes(k) + JoinSlash(cs + Kept(xs + [name]))) == name
  {
    KeptThenPlain(xs, name);
    var ys := cs + Kept(xs);
    assert cs + Kept(xs + [name]) == ys + [name];
    BasenameOfNormalForm(k, ys, name);
  }

  /**
   * Under a base other than the root, a relative location without ".." and a
   * plain name resolve to a path whose last component is that name.
   */
  lemma SafeJoinKeepsName(cwd: string, baseLocation: string, location: string, name: string)
    requires IsAbsolute(cwd)
    requires Dirname(AbsPath(cwd, baseLocation)) != AbsPath(cwd, baseLocation)
    requires NoTraversal(location) && Plain(name)
    ensures SafeJoin(cwd, AbsPath(cwd, baseLocation), [location, name]).Some?
    ensures Basename(SafeJoin(cwd, AbsPath(cwd, baseLocation), [location, name]).value) == name
  {
    PlainNoTraversal(name);
    SafeJoinAcceptsRelative(cwd, baseLocation, location, name);
    var k, cs := AbsPathShape(cwd, baseLocation);
    var base := Slashes(k) + JoinSlash(cs);
    RootHasNoComponents(k, cs);
    assert |cs| >= 1;
    JoinAllTwo(base, location, name);
    RelativeStaysUnder(k, cs, location, name);
    NormalisedJoinKeepsName(k, cs, location, name);
  }
}
