/** The part of Rust's `std::path` on Unix that `FileDB` relies on (src/db.rs:54-58, 78,
    94-96): `join`, `file_name`, `extension`, `file_stem`, `with_extension` and `parent`,
    on paths as byte strings. Components are found from the back the way `Components`
    does: trailing and repeated separators are ignored, a `.` that is not the first
    component is skipped. `Key` lists the components from the front: it is what `PathBuf`
    equality and hashing compare. */
module Paths {
  import opened Bytes
  import opened Results
  import Seqs

  type Path = seq<byte>

  /** `FILEDB_EXT` (src/db.rs:15): "filedb". */
  const FILEDB_EXT: seq<byte> := [0x66, 0x69, 0x6C, 0x65, 0x64, 0x62]

  /** The end of `p[..e]` once its trailing separators are dropped. */
  function TrimEnd(p: Path, e: nat): (k: nat)
    requires e <= |p|
    ensures k <= e && (k == 0 || p[k - 1] != SLASH)
  {
    if e == 0 || p[e - 1] != SLASH then e else TrimEnd(p, e - 1)
  }

  /** The start of the last segment of `p[..e]`: just after its last separator. */
  function SegStart(p: Path, e: nat): (k: nat)
    requires e <= |p|
    ensures k <= e && (k == 0 || p[k - 1] == SLASH)
  {
    if e == 0 || p[e - 1] == SLASH then e else SegStart(p, e - 1)
  }

  /** The last segment holds no separator. */
  lemma {:induction false} SegStartNoSlash(p: Path, e: nat)
    requires e <= |p|
    ensures forall j :: SegStart(p, e) <= j < e ==> p[j] != SLASH
    decreases e
  {
    if e > 0 && p[e - 1] != SLASH {
      SegStartNoSlash(p, e - 1);
    }
  }

  /** The last segment starts at `s` when a separator (or the start) precedes `s` and none
      follows it. */
  lemma {:induction false} SegStartAt(p: Path, e: nat, s: nat)
    requires s <= e <= |p| && (s == 0 || p[s - 1] == SLASH)
    requires forall j :: s <= j < e ==> p[j] != SLASH
    ensures SegStart(p, e) == s
    decreases e
  {
    if e > s {
      SegStartAt(p, e - 1, s);
    }
  }

  /** The last component of a path; a normal one by its position. */
  datatype Component = NoComponent | RootDir | CurDir | ParentDir | Normal(start: nat, end: nat)

  function LastComponent(p: Path, e: nat): (c: Component)
    requires e <= |p|
    ensures c.Normal? ==> c.start < c.end <= e
    ensures c.Normal? ==> (c.start == 0 || p[c.start - 1] == SLASH)
    ensures c.Normal? ==> forall j :: c.start <= j < c.end ==> p[j] != SLASH
    ensures c.Normal? ==> !IsDots(p, c.start, c.end)
    decreases e
  {
    var t := TrimEnd(p, e);
    if t == 0 then (if e == 0 then NoComponent else RootDir)
    else
      var s := SegStart(p, t);
      SegStartNoSlash(p, t);
      if t == s + 1 && p[s] == DOT then (if s == 0 then CurDir else LastComponent(p, s))
      else if t == s + 2 && p[s] == DOT && p[s + 1] == DOT then ParentDir
      else Normal(s, t)
  }

  /** Whether `p[s..t]` is `.` or `..`. */
  predicate IsDots(p: Path, s: nat, t: nat)
    requires s <= t <= |p|
  {
    (t == s + 1 && p[s] == DOT) || (t == s + 2 && p[s] == DOT && p[s + 1] == DOT)
  }

  /** `Path::file_name`: the last component when it is a normal one. */
  function FileName(p: Path): (r: Option<Path>)
    ensures r.Some? ==> r.value != [] && SLASH !in r.value
    ensures r.Some? ==> r.value != [DOT] && r.value != [DOT, DOT]
  {
    match LastComponent(p, |p|)
    case Normal(s, t) =>
      assert forall j :: 0 <= j < t - s ==> p[s..t][j] == p[s + j];
      Some(p[s..t])
    case _ => None
  }

  /** `Path::parent` exists: the last component is not the root and the path is not empty. */
  predicate HasParent(p: Path)
  {
    var c := LastComponent(p, |p|);
    c.Normal? || c.CurDir? || c.ParentDir?
  }

  /** The position of the last `.` of `name[..n]`. */
  function LastDotBefore(name: seq<byte>, n: nat): (d: Option<nat>)
    requires n <= |name|
    ensures d.Some? ==> d.value < n && name[d.value] == DOT
    ensures d.None? ==> forall j :: 0 <= j < n ==> name[j] != DOT
  {
    if n == 0 then None
    else if name[n - 1] == DOT then Some(n - 1)
    else LastDotBefore(name, n - 1)
  }

  function LastDot(name: seq<byte>): Option<nat>
  {
    LastDotBefore(name, |name|)
  }

  /** `rsplit_file_at_dot` of `std::path`: the part before and the part after the last dot;
      a name whose only dot is its first byte, and `..`, have no "after". */
  function RSplitAtDot(name: seq<byte>): (Option<seq<byte>>, Option<seq<byte>>)
  {
    if name == [DOT, DOT] then (Some(name), None)
    else match LastDot(name)
      case None => (None, Some(name))
      case Some(d) => if d == 0 then (Some(name), None) else (Some(name[..d]), Some(name[d + 1..]))
  }

  /** The stem of a file name: before its last dot, or all of it. */
  function StemOf(name: seq<byte>): (stem: seq<byte>)
    ensures stem <= name
    ensures name != [] ==> stem != []
    ensures SLASH in stem ==> SLASH in name
  {
    match RSplitAtDot(name)
    case (Some(before), _) => before
    case (None, after) => if after.Some? then after.value else []
  }

  /** The extension of a file name: after its last dot, when a non-empty stem precedes it. */
  function ExtensionOf(name: seq<byte>): Option<seq<byte>>
  {
    match RSplitAtDot(name)
    case (Some(_), Some(after)) => Some(after)
    case _ => None
  }

  function FileStem(p: Path): Option<seq<byte>>
  {
    match FileName(p)
    case Some(name) => Some(StemOf(name))
    case None => None
  }

  /** `Path::extension`. */
  function Extension(p: Path): Option<seq<byte>>
  {
    match FileName(p)
    case Some(name) => ExtensionOf(name)
    case None => None
  }

  /** `Path::join` (`PathBuf::push`): an absolute `name` replaces `root`; otherwise a
      separator is added when `root` is non-empty and does not already end with one. */
  function Join(root: Path, name: Path): Path
  {
    if name != [] && name[0] == SLASH then name
    else if root != [] && root[|root| - 1] != SLASH then root + [SLASH] + name
    else root + name
  }

  /** `Path::with_extension` (`PathBuf::set_extension`): the path is cut right after the
      stem of its file name and `.ext` is appended (nothing when `ext` is empty); a path
      without a file name is returned unchanged. */
  function WithExtension(p: Path, ext: seq<byte>): Path
  {
    match LastComponent(p, |p|)
    case Normal(s, t) =>
      p[..s + |StemOf(p[s..t])|] + (if ext == [] then [] else [DOT] + ext)
    case _ => p
  }

  /** `FileDB::get_path` (src/db.rs:94-96). */
  function GetPath(root: Path, name: Path): Path
  {
    WithExtension(Join(root, name), FILEDB_EXT)
  }

  /** The test of `col_names` (src/db.rs:54-58): the extension of the entry name is `filedb`. */
  predicate IsColumnFile(name: Path)
  {
    Extension(name) == Some(FILEDB_EXT)
  }

  /** An extension `with_extension` can set and read back: non-empty, no dot, no separator. */
  predicate PlainExt(ext: seq<byte>)
  {
    ext != [] && DOT !in ext && SLASH !in ext
  }

  /** A component as `Path`'s `PartialEq` and `Hash` see it: the root, a leading `.`, `..`,
      or a normal name. */
  datatype Comp = RootComp | CurComp | ParentComp | NameComp(name: seq<byte>)

  /** What one segment contributes: nothing when it is empty or `.`. */
  function SegComp(seg: seq<byte>): seq<Comp>
  {
    if seg == [] || seg == [DOT] then []
    else if seg == [DOT, DOT] then [ParentComp]
    else [NameComp(seg)]
  }

  /** The components of a list of segments, front to back. */
  function Named(segs: seq<seq<byte>>): seq<Comp>
  {
    if segs == [] then [] else SegComp(segs[0]) + Named(segs[1..])
  }

  /** The components before the segments: a root, a leading `.` of a relative path, or
      none. */
  function Head(p: Path): (h: seq<Comp>)
    ensures |h| <= 1 && (h != [] ==> p != [])
  {
    if p == [] then []
    else if p[0] == SLASH then [RootComp]
    else if p[0] == DOT && (|p| == 1 || p[1] == SLASH) then [CurComp]
    else []
  }

  /** `Path::components` on Unix: a root when the path starts with a separator, a `.` only
      when it is the first segment of a relative path, then every segment except empty ones
      and `.`. Two `PathBuf`s are equal, and hash alike, exactly when these agree, so this
      is what a `HashMap<PathBuf, _>` compares keys by. */
  function Key(p: Path): seq<Comp>
  {
    var start := |Head(p)|;
    Head(p) + Named(Seqs.Split(p[start..], SLASH))
  }

  lemma {:induction false} NamedConcat(u: seq<seq<byte>>, v: seq<seq<byte>>)
    ensures Named(u + v) == Named(u) + Named(v)
    decreases |u|
  {
    if u == [] {
      assert u + v == v;
    } else {
      assert (u + v)[0] == u[0];
      assert (u + v)[1..] == u[1..] + v;
      NamedConcat(u[1..], v);
      Seqs.Assoc(SegComp(u[0]), Named(u[1..]), Named(v));
    }
  }

  /** The components of `a/x` are those of `a` followed by those of `x`. */
  lemma NamedSplit(a: Path, x: Path)
    ensures Named(Seqs.Split(a + [SLASH] + x, SLASH)) ==
      Named(Seqs.Split(a, SLASH)) + Named(Seqs.Split(x, SLASH))
  {
    Seqs.SplitConcat(a, x, SLASH);
    NamedConcat(Seqs.Split(a, SLASH), Seqs.Split(x, SLASH));
  }

  /** An empty segment and a `.` segment contribute nothing. */
  lemma NamedSkip(x: Path)
    ensures Named(Seqs.Split([SLASH] + x, SLASH)) == Named(Seqs.Split(x, SLASH))
    ensures Named(Seqs.Split([DOT, SLASH] + x, SLASH)) == Named(Seqs.Split(x, SLASH))
  {
    SkipEmpty(x);
    SkipDot(x);
  }

  lemma SkipEmpty(x: Path)
    ensures Named(Seqs.Split([SLASH] + x, SLASH)) == Named(Seqs.Split(x, SLASH))
  {
    NamedSplit([], x);
    assert [] + [SLASH] + x == [SLASH] + x;
    assert Seqs.Split([], SLASH) == [[]];
  }

  lemma SkipDot(x: Path)
    ensures Named(Seqs.Split([DOT, SLASH] + x, SLASH)) == Named(Seqs.Split(x, SLASH))
  {
    NamedSplit([DOT], x);
    assert [DOT] + [SLASH] + x == [DOT, SLASH] + x;
    assert Seqs.Split([DOT], SLASH) == [[DOT]];
  }

  /** A non-empty common front followed by a separator decides the head of the key alike,
      so equal components after it give equal keys. */
  lemma KeyFront(a: Path, x: Path, y: Path)
    requires a != [] && Named(Seqs.Split(x, SLASH)) == Named(Seqs.Split(y, SLASH))
    ensures Key(a + [SLASH] + x) == Key(a + [SLASH] + y)
  {
    var p := a + [SLASH] + x;
    var q := a + [SLASH] + y;
    assert p[0] == q[0] && p[1] == q[1];
    assert Head(p) == Head(q);
    var st := |Head(p)|;
    Seqs.DropConcat(a + [SLASH], x, st);
    Seqs.DropConcat(a + [SLASH], y, st);
    Seqs.DropConcat(a, [SLASH], st);
    NamedSplit(a[st..], x);
    NamedSplit(a[st..], y);
  }

  /** `a/./b` and `a/b` are the same `PathBuf`. */
  lemma KeySkipsCurDir(a: Path, b: Path)
    ensures a != [] ==> Key(a + [SLASH, DOT, SLASH] + b) == Key(a + [SLASH] + b)
  {
    if a != [] {
      NamedSkip(b);
      KeyFront(a, [DOT, SLASH] + b, b);
      Seqs.Assoc(a, [SLASH], [DOT, SLASH] + b);
      assert a + [SLASH, DOT, SLASH] + b == a + [SLASH] + ([DOT, SLASH] + b);
    }
  }

  /** `a//b` and `a/b` are the same `PathBuf`. */
  lemma KeySkipsDoubleSlash(a: Path, b: Path)
    ensures a != [] ==> Key(a + [SLASH, SLASH] + b) == Key(a + [SLASH] + b)
  {
    if a != [] {
      NamedSkip(b);
      KeyFront(a, [SLASH] + b, b);
      Seqs.Assoc(a, [SLASH], [SLASH] + b);
      assert a + [SLASH, SLASH] + b == a + [SLASH] + ([SLASH] + b);
    }
  }

  /** A leading `.` is a component of its own: `./x` and `x` are different `PathBuf`s, and
      so are `/x` and `x`. */
  lemma KeyKeepsLeading(b: Path)
    ensures Key([DOT, SLASH] + b)[0] == CurComp
    ensures Key([SLASH] + b)[0] == RootComp
  {
  }

  /** No dot after `d`: the last dot of `name` is at `d`. */
  lemma {:induction false} LastDotAt(name: seq<byte>, n: nat, d: nat)
    requires d < n <= |name| && name[d] == DOT
    requires forall j :: d < j < n ==> name[j] != DOT
    ensures LastDotBefore(name, n) == Some(d)
    decreases n
  {
    if n - 1 > d {
      LastDotAt(name, n - 1, d);
    }
  }

  lemma {:induction false} LastDotAfter(stem: seq<byte>, ext: seq<byte>)
    requires DOT !in ext
    ensures LastDot(stem + [DOT] + ext) == Some(|stem|)
  {
    var name := stem + [DOT] + ext;
    assert forall j :: |stem| < j < |name| ==> name[j] == ext[j - |stem| - 1];
    LastDotAt(name, |name|, |stem|);
  }

  /** The name `with_extension` builds: the old stem, a dot and the new extension. */
  lemma {:induction false} SplitRebuilt(stem: seq<byte>, ext: seq<byte>)
    requires stem != [] && PlainExt(ext)
    ensures RSplitAtDot(stem + [DOT] + ext) == (Some(stem), Some(ext))
  {
    var name := stem + [DOT] + ext;
    LastDotAfter(stem, ext);
    assert name != [DOT, DOT] by {
      assert |name| >= 3;
    }
    assert name[..|stem|] == stem;
    assert name[|stem| + 1..] == ext;
  }

  /** Where the last component of `p[..s + |stem|] + "." + ext` sits, when `p[s..]` begins
      with the non-empty, separator-free `stem` right after a separator (or at the start). */
  lemma {:induction false} LastComponentRebuilt(p: Path, s: nat, stem: seq<byte>, ext: seq<byte>)
    requires s + |stem| <= |p| && p[s..s + |stem|] == stem
    requires stem != [] && SLASH !in stem && PlainExt(ext)
    requires s == 0 || p[s - 1] == SLASH
    ensures var q := p[..s + |stem|] + [DOT] + ext;
            LastComponent(q, |q|) == Normal(s, |q|) && q[s..|q|] == stem + [DOT] + ext
  {
    var q := p[..s + |stem|] + [DOT] + ext;
    assert q[|q| - 1] == ext[|ext| - 1];
    assert TrimEnd(q, |q|) == |q|;
    assert forall j :: s <= j < |q| ==> q[j] != SLASH by {
      forall j | s <= j < |q|
        ensures q[j] != SLASH
      {
        if j < s + |stem| {
          assert q[j] == stem[j - s];
        } else if j > s + |stem| {
          assert q[j] == ext[j - s - |stem| - 1];
        }
      }
    }
    if s > 0 {
      assert q[s - 1] == p[s - 1];
    }
    SegStartAt(q, |q|, s);
    assert q[s..|q|] == stem + [DOT] + ext;
    assert |q[s..|q|]| >= 3;
  }

  /** The stem of the name `p[s..t]` sits at `s` in `p`. */
  lemma {:induction false} StemAt(p: Path, s: nat, t: nat)
    requires s < t <= |p|
    requires forall j :: s <= j < t ==> p[j] != SLASH
    ensures var stem := StemOf(p[s..t]);
            && s + |stem| <= |p| && p[s..s + |stem|] == stem
            && stem != [] && SLASH !in stem
  {
    var name := p[s..t];
    var stem := StemOf(name);
    assert p[s..s + |stem|] == stem;
    assert SLASH !in stem by {
      forall j | 0 <= j < |stem|
        ensures stem[j] != SLASH
      {
        assert stem[j] == name[j] == p[s + j];
      }
    }
  }

  lemma {:induction false} PrefixOfPrefix(p: Path, m: nat, tail: seq<byte>, k: nat)
    requires k <= m <= |p|
    ensures (p[..m] + tail)[..k] == p[..k]
  {
    assert forall j :: 0 <= j < k ==> (p[..m] + tail)[j] == p[j];
  }

  /** The path `with_extension` builds from a file name at `p[s..t]`, and what it reads
      back as. */
  lemma {:induction false} Rebuilt(p: Path, s: nat, t: nat, ext: seq<byte>)
    requires s < t <= |p| && (s == 0 || p[s - 1] == SLASH) && PlainExt(ext)
    requires forall j :: s <= j < t ==> p[j] != SLASH
    ensures var stem := StemOf(p[s..t]);
            var q := p[..s + |stem|] + ([DOT] + ext);
            && LastComponent(q, |q|) == Normal(s, |q|)
            && FileName(q) == Some(stem + [DOT] + ext)
            && StemOf(stem + [DOT] + ext) == stem
            && ExtensionOf(stem + [DOT] + ext) == Some(ext)
            && q[..s] == p[..s]
  {
    var stem := StemOf(p[s..t]);
    var q := p[..s + |stem|] + ([DOT] + ext);
    assert LastComponent(q, |q|) == Normal(s, |q|) && q[s..|q|] == stem + [DOT] + ext by {
      StemAt(p, s, t);
      assert q == p[..s + |stem|] + [DOT] + ext;
      LastComponentRebuilt(p, s, stem, ext);
    }
    assert StemOf(stem + [DOT] + ext) == stem && ExtensionOf(stem + [DOT] + ext) == Some(ext) by {
      StemAt(p, s, t);
      SplitRebuilt(stem, ext);
    }
    assert q[..s] == p[..s] by {
      StemAt(p, s, t);
      PrefixOfPrefix(p, s + |stem|, [DOT] + ext, s);
    }
  }

  /** Everything before the file name of a path (all of it when there is none). */
  function DirPart(p: Path): Path
  {
    match LastComponent(p, |p|)
    case Normal(s, _) => p[..s]
    case _ => p
  }

  /** What the path `with_extension` builds reads back as: the old stem, the new
      extension, the same directory part, and a fixed point of `with_extension`. */
  lemma {:induction false} RebuiltReads(p: Path, s: nat, t: nat, ext: seq<byte>)
    requires s < t <= |p| && (s == 0 || p[s - 1] == SLASH) && PlainExt(ext)
    requires forall j :: s <= j < t ==> p[j] != SLASH
    ensures var stem := StemOf(p[s..t]);
            var q := p[..s + |stem|] + ([DOT] + ext);
            && FileStem(q) == Some(stem)
            && Extension(q) == Some(ext)
            && DirPart(q) == p[..s]
            && WithExtension(q, ext) == q
  {
    var stem := StemOf(p[s..t]);
    var q := p[..s + |stem|] + ([DOT] + ext);
    assert FileStem(q) == Some(stem) by {
      Rebuilt(p, s, t, ext);
    }
    assert Extension(q) == Some(ext) by {
      Rebuilt(p, s, t, ext);
    }
    assert DirPart(q) == p[..s] by {
      Rebuilt(p, s, t, ext);
    }
    assert WithExtension(q, ext) == q by {
      Rebuilt(p, s, t, ext);
      assert q[s..|q|] == stem + [DOT] + ext;
      StemAt(p, s, t);
      assert q[..s + |stem|] == p[..s + |stem|];
    }
  }

  /** `with_extension` on a path whose file name is `p[s..t]`. */
  lemma {:induction false} WithExtensionAt(p: Path, s: nat, t: nat, ext: seq<byte>)
    requires LastComponent(p, |p|) == Normal(s, t) && PlainExt(ext)
    ensures var stem := StemOf(p[s..t]);
            var q := WithExtension(p, ext);
            && FileStem(p) == Some(stem) && DirPart(p) == p[..s]
            && FileStem(q) == Some(stem) && Extension(q) == Some(ext) && DirPart(q) == p[..s]
            && WithExtension(q, ext) == q
  {
    NormalReads(p, s, t);
    WithExtensionNormal(p, s, t, ext);
    RebuiltReads(p, s, t, ext);
  }

  /** A path whose last component is the normal `p[s..t]` has that name's stem and the
      part before `s` as its directory part. */
  lemma NormalReads(p: Path, s: nat, t: nat)
    requires LastComponent(p, |p|) == Normal(s, t)
    ensures FileStem(p) == Some(StemOf(p[s..t])) && DirPart(p) == p[..s]
  {
  }

  lemma WithExtensionNormal(p: Path, s: nat, t: nat, ext: seq<byte>)
    requires LastComponent(p, |p|) == Normal(s, t) && ext != []
    ensures WithExtension(p, ext) == p[..s + |StemOf(p[s..t])|] + ([DOT] + ext)
  {
  }

  /** After `with_extension(ext)` the path has a file name whose stem is the old stem and
      whose extension is `ext`; the directory part does not change. */
  lemma {:induction false} WithExtensionSets(p: Path, ext: seq<byte>)
    requires FileName(p).Some? && PlainExt(ext)
    ensures FileStem(WithExtension(p, ext)) == FileStem(p)
    ensures Extension(WithExtension(p, ext)) == Some(ext)
    ensures DirPart(WithExtension(p, ext)) == DirPart(p)
  {
    match LastComponent(p, |p|)
    case Normal(s, t) => WithExtensionAt(p, s, t, ext);
  }

  /** Setting an extension twice is setting it once. */
  lemma {:induction false} WithExtensionIdempotent(p: Path, ext: seq<byte>)
    requires PlainExt(ext)
    ensures WithExtension(WithExtension(p, ext), ext) == WithExtension(p, ext)
  {
    match LastComponent(p, |p|)
    case Normal(s, t) => WithExtensionAt(p, s, t, ext);
    case _ =>
  }

  /** A path without a file name (empty, the root, ending in `..`, or just `.`) is left as
      it is. */
  lemma WithExtensionNoName(p: Path, ext: seq<byte>)
    requires FileName(p).None?
    ensures WithExtension(p, ext) == p
  {
  }

  /** `get_path(name)` ends in a file name with extension `filedb` and the stem of
      `root.join(name)`; everything up to that name is `root.join(name)`'s own. */
  lemma {:induction false} GetPathShape(root: Path, name: Path)
    requires FileName(Join(root, name)).Some?
    ensures Extension(GetPath(root, name)) == Some(FILEDB_EXT)
    ensures FileStem(GetPath(root, name)) == FileStem(Join(root, name))
    ensures DirPart(GetPath(root, name)) == DirPart(Join(root, name))
  {
    WithExtensionSets(Join(root, name), FILEDB_EXT);
  }

  /** For a plain column name under a root not ending in a separator, `get_path` is
      `root/stem.filedb`: an existing extension of the name is replaced. */
  lemma {:induction false} GetPathPlainName(root: Path, name: Path)
    requires root != [] && root[|root| - 1] != SLASH
    requires name != [] && SLASH !in name && name != [DOT] && name != [DOT, DOT]
    ensures GetPath(root, name) == root + [SLASH] + StemOf(name) + [DOT] + FILEDB_EXT
  {
    var p := root + [SLASH] + name;
    var s := |root| + 1;
    assert name[0] != SLASH;
    assert Join(root, name) == p;
    assert p[s..] == name;
    NormalAt(p, s);
    assert p[s..|p|] == name;
    var stem := StemOf(name);
    assert p[..s + |stem|] == root + [SLASH] + stem;
  }

  /** `with_extension` of a plain name after a directory part that ends in a separator. */
  lemma {:induction false} WithExtensionAfter(q: Path, name: Path)
    requires q != [] && q[|q| - 1] == SLASH
    requires name != [] && SLASH !in name && name != [DOT] && name != [DOT, DOT]
    ensures WithExtension(q + name, FILEDB_EXT) == q + StemOf(name) + [DOT] + FILEDB_EXT
  {
    var p := q + name;
    var s := |q|;
    Seqs.DropConcat(q, name, s);
    assert q[s..] == [];
    assert p[s - 1] == SLASH;
    NormalAt(p, s);
    Seqs.Whole(p);
    var stem := StemOf(name);
    Seqs.TakeMore(q, name, |stem|);
    assert name[..|stem|] == stem;
  }

  /** The same with `./` in front of the name: `get_path` keeps the `.` segment. */
  lemma GetPathCurDirName(root: Path, name: Path)
    requires root != [] && root[|root| - 1] != SLASH
    requires name != [] && SLASH !in name && name != [DOT] && name != [DOT, DOT]
    ensures GetPath(root, [DOT, SLASH] + name) ==
      root + [SLASH, DOT, SLASH] + StemOf(name) + [DOT] + FILEDB_EXT
  {
    var q := root + [SLASH, DOT, SLASH];
    Seqs.Assoc(root, [SLASH], [DOT, SLASH] + name);
    Seqs.Assoc(root, [SLASH, DOT, SLASH], name);
    assert [SLASH] + ([DOT, SLASH] + name) == [SLASH, DOT, SLASH] + name;
    assert Join(root, [DOT, SLASH] + name) == q + name;
    WithExtensionAfter(q, name);
  }

  /** A path whose tail after a separator (or the start) is a name without separator,
      other than `.` and `..`, has that name as its last component. */
  lemma {:induction false} NormalAt(p: Path, s: nat)
    requires s < |p| && (s == 0 || p[s - 1] == SLASH)
    requires SLASH !in p[s..] && p[s..] != [DOT] && p[s..] != [DOT, DOT]
    ensures LastComponent(p, |p|) == Normal(s, |p|)
  {
    assert p[|p| - 1] == p[s..][|p| - 1 - s];
    assert TrimEnd(p, |p|) == |p|;
    assert forall j :: s <= j < |p| ==> p[j] != SLASH by {
      forall j | s <= j < |p|
        ensures p[j] != SLASH
      {
        assert p[j] == p[s..][j - s];
      }
    }
    SegStartAt(p, |p|, s);
    assert p[s..|p|] == p[s..];
  }

  /** A name without separator put under a non-empty root is the last component. */
  lemma {:induction false} UnderRoot(root: Path, n: Path)
    requires root != [] && n != [] && SLASH !in n && n != [DOT] && n != [DOT, DOT]
    ensures LastComponent(root + [SLASH] + n, |root| + 1 + |n|) == Normal(|root| + 1, |root| + 1 + |n|)
  {
    var p := root + [SLASH] + n;
    assert p[|root| + 1..] == n;
    assert p[|root|] == SLASH;
    NormalAt(p, |root| + 1);
  }

  /** The name `get_path` gives a column: its stem, a dot and `filedb`. */
  lemma ColumnNameShape(stem: seq<byte>)
    requires stem != [] && SLASH !in stem
    ensures var n := stem + [DOT] + FILEDB_EXT;
            n != [] && SLASH !in n && n != [DOT] && n != [DOT, DOT]
  {
    var n := stem + [DOT] + FILEDB_EXT;
    assert forall j :: 0 <= j < |n| ==> n[j] == if j < |stem| then stem[j] else ([DOT] + FILEDB_EXT)[j - |stem|];
  }

  /** A directory entry name has no separator: it is its own file name unless it is empty,
      `.` or `..`. */
  lemma {:induction false} EntryFileName(name: Path)
    requires SLASH !in name
    ensures FileName(name) == if name == [] || name == [DOT] || name == [DOT, DOT] then None else Some(name)
  {
    if name != [] && name != [DOT] && name != [DOT, DOT] {
      assert name[0..] == name;
      NormalAt(name, 0);
      assert name[0..|name|] == name;
    } else if name != [] {
      assert TrimEnd(name, |name|) == |name|;
      SegStartAt(name, |name|, 0);
    }
  }

  /** The test of `col_names` on an entry name: its extension is `filedb` exactly when it
      ends in `.filedb` with a non-empty stem in front. */
  lemma {:induction false} IsColumnFileShape(name: Path)
    requires SLASH !in name
    ensures IsColumnFile(name) <==>
              |name| > |FILEDB_EXT| + 1 && name[|name| - |FILEDB_EXT| - 1..] == [DOT] + FILEDB_EXT
  {
    var n := |FILEDB_EXT| + 1;
    EntryFileName(name);
    if |name| > n && name[|name| - n..] == [DOT] + FILEDB_EXT {
      var stem := name[..|name| - n];
      assert name == stem + [DOT] + FILEDB_EXT;
      SplitRebuilt(stem, FILEDB_EXT);
    }
    if IsColumnFile(name) {
      assert name != [DOT, DOT];
      var d := LastDot(name).value;
      assert 0 < d && name[d + 1..] == FILEDB_EXT;
      assert name[|name| - n..] == name[d..];
      assert name[d..] == [DOT] + name[d + 1..];
    }
  }

  /** Every path `get_path` builds whose joined path has a file name ends in a file name
      that passes the extension test of `col_names`. A name with a separator puts the
      column in a subdirectory, which a listing of the root does not reach. */
  lemma {:induction false} ColumnFilesAreListed(root: Path, name: Path)
    requires FileName(Join(root, name)).Some?
    ensures FileName(GetPath(root, name)).Some?
    ensures IsColumnFile(FileName(GetPath(root, name)).value)
  {
    GetPathShape(root, name);
    var f := FileName(GetPath(root, name)).value;
    EntryFileName(f);
  }
}
