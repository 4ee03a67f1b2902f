/** `FileDB` of src/db.rs: a database directory and a cache of open column handles, keyed
    by the column's path as a `PathBuf` compares it: by its components. The filesystem is abstracted: what `connect` finds at its path,
    the entries `read_dir` yields and what opening a column file does are inputs. */
module Db {
  import opened Bytes
  import opened Results
  import opened Paths
  import opened ColumnFile
  import Seqs

  /** What `connect` finds at its path. */
  datatype PathKind = Missing | Directory | NotDirectory

  /** One item of the `read_dir` iterator: an entry name, or an I/O error. */
  datatype DirRead = Entry(name: Path) | EntryError

  /** What `c(name)` meets on the filesystem: whether `get_path(name)` exists and, if so,
      its bytes; whether `create_dir_all` of its parent succeeds; whether the `open`
      succeeds. */
  datatype OpenProbe = OpenProbe(present: bool, contents: seq<byte>, mkdirOk: bool, openOk: bool)

  /** Whether `col_names` reports an entry: its extension is `filedb` and its name is
      valid UTF-8 (`to_str` succeeds) (src/db.rs:54-61). */
  predicate Listed(name: Path)
  {
    IsColumnFile(name) && ValidUtf8(name)
  }

  /** The loop of `col_names` from entry `i` on, with the test `keep`: the kept names in
      order, or the error of the first entry that fails. */
  function NamesFrom(entries: seq<DirRead>, keep: Path -> bool, i: nat): Result<seq<Path>>
    requires i <= |entries|
    decreases |entries| - i
  {
    if i == |entries| then Ok([])
    else match entries[i]
      case EntryError => Err(IOError)
      case Entry(n) =>
        match NamesFrom(entries, keep, i + 1)
        case Err(e) => Err(e)
        case Ok(rest) => Ok(if keep(n) then [n] + rest else rest)
  }

  /** What `col_names` returns for a listing. */
  function ColumnNames(entries: seq<DirRead>): Result<seq<Path>>
  {
    NamesFrom(entries, Listed, 0)
  }

  /** Names found before the rest of a listing. */
  function PrependNames(found: seq<Path>, r: Result<seq<Path>>): Result<seq<Path>>
  {
    match r
    case Ok(rest) => Ok(found + rest)
    case Err(e) => Err(e)
  }

  lemma PrependNothing(r: Result<seq<Path>>)
    ensures PrependNames([], r) == r
  {
    match r
    case Ok(v) => assert [] + v == v;
    case Err(_) =>
  }

  /** One entry of the loop of `col_names`. */
  lemma NamesStep(entries: seq<DirRead>, keep: Path -> bool, i: nat, found: seq<Path>)
    requires i < |entries| && entries[i].Entry?
    ensures var n := entries[i].name;
            PrependNames(found, NamesFrom(entries, keep, i)) ==
              PrependNames(found + (if keep(n) then [n] else []), NamesFrom(entries, keep, i + 1))
  {
    var n := entries[i].name;
    match NamesFrom(entries, keep, i + 1)
    case Err(e) =>
    case Ok(rest) =>
      if keep(n) {
        assert found + ([n] + rest) == found + [n] + rest;
      } else {
        assert found + [] == found;
      }
  }

  /** The loop fails exactly when some entry fails; otherwise it returns exactly the
      entries that pass the test. */
  lemma {:induction false} NamesFromSpec(entries: seq<DirRead>, keep: Path -> bool, i: nat)
    requires i <= |entries|
    ensures NamesFrom(entries, keep, i).Err? <==> exists j :: i <= j < |entries| && entries[j] == EntryError
    ensures NamesFrom(entries, keep, i).Err? ==> NamesFrom(entries, keep, i).error == IOError
    ensures NamesFrom(entries, keep, i).Ok? ==>
              && (forall k :: 0 <= k < |NamesFrom(entries, keep, i).value| ==>
                    keep(NamesFrom(entries, keep, i).value[k])
                    && Entry(NamesFrom(entries, keep, i).value[k]) in entries[i..])
              && (forall j :: i <= j < |entries| && keep(entries[j].name) ==>
                    entries[j].name in NamesFrom(entries, keep, i).value)
    decreases |entries| - i
  {
    if i < |entries| {
      NamesFromSpec(entries, keep, i + 1);
      assert entries[i..] == [entries[i]] + entries[i + 1..];
    }
  }

  /** `col_names` fails exactly when some entry fails; otherwise it returns exactly the
      entries whose extension is `filedb` and whose names are valid UTF-8. */
  lemma ColumnNamesSpec(entries: seq<DirRead>)
    ensures ColumnNames(entries).Err? <==> EntryError in entries
    ensures ColumnNames(entries).Err? ==> ColumnNames(entries).error == IOError
    ensures ColumnNames(entries).Ok? ==>
              && (forall k :: 0 <= k < |ColumnNames(entries).value| ==>
                    Listed(ColumnNames(entries).value[k]) && Entry(ColumnNames(entries).value[k]) in entries)
              && (forall j :: 0 <= j < |entries| && entries[j].Entry? && Listed(entries[j].name) ==>
                    entries[j].name in ColumnNames(entries).value)
  {
    NamesFromSpec(entries, Listed, 0);
    assert entries[0..] == entries;
  }

  /** Dropping the first `d` entries shifts the indices and nothing else. */
  lemma {:induction false} NamesShift(s: seq<DirRead>, t: seq<DirRead>, keep: Path -> bool, d: nat, i: nat)
    requires d <= |s| && t == s[d..] && i <= |t|
    ensures NamesFrom(s, keep, d + i) == NamesFrom(t, keep, i)
    decreases |t| - i
  {
    if i < |t| {
      NamesShift(s, t, keep, d, i + 1);
      assert s[d + i] == t[i];
    }
  }

  /** Listing order is kept: the names of two stretches of a listing are the names of the
      first followed by those of the second. */
  lemma {:induction false} NamesConcat(a: seq<DirRead>, b: seq<DirRead>, keep: Path -> bool)
    requires NamesFrom(a, keep, 0).Ok?
    ensures NamesFrom(a + b, keep, 0) == PrependNames(NamesFrom(a, keep, 0).value, NamesFrom(b, keep, 0))
    decreases |a|
  {
    if a == [] {
      assert a + b == b;
      PrependNothing(NamesFrom(b, keep, 0));
    } else {
      NamesShift(a + b, a[1..] + b, keep, 1, 0);
      NamesShift(a, a[1..], keep, 1, 0);
      assert (a + b)[0] == a[0];
      NamesConcat(a[1..], b, keep);
      match NamesFrom(b, keep, 0)
      case Err(_) =>
      case Ok(v) =>
        var n := a[0].name;
        var w := NamesFrom(a[1..], keep, 0).value;
        if keep(n) {
          assert [n] + (w + v) == ([n] + w) + v;
        }
    }
  }

  /** `col_names` keeps the listing order. */
  lemma ColumnNamesConcat(a: seq<DirRead>, b: seq<DirRead>)
    requires ColumnNames(a).Ok?
    ensures ColumnNames(a + b) == PrependNames(ColumnNames(a).value, ColumnNames(b))
  {
    NamesConcat(a, b, Listed);
  }

  /** Every name `col_names` returns for real directory entries (which hold no separator)
      keeps its `.filedb` suffix and has a non-empty stem. */
  lemma ListedNamesEndInExt(entries: seq<DirRead>)
    requires forall j :: 0 <= j < |entries| && entries[j].Entry? ==> SLASH !in entries[j].name
    requires ColumnNames(entries).Ok?
    ensures forall k :: 0 <= k < |ColumnNames(entries).value| ==>
              var n := ColumnNames(entries).value[k];
              |n| > |FILEDB_EXT| + 1 && n[|n| - |FILEDB_EXT| - 1..] == [DOT] + FILEDB_EXT
  {
    ColumnNamesSpec(entries);
    forall k | 0 <= k < |ColumnNames(entries).value|
      ensures var n := ColumnNames(entries).value[k];
              |n| > |FILEDB_EXT| + 1 && n[|n| - |FILEDB_EXT| - 1..] == [DOT] + FILEDB_EXT
    {
      var n := ColumnNames(entries).value[k];
      assert Entry(n) in entries;
      var j :| 0 <= j < |entries| && entries[j] == Entry(n);
      IsColumnFileShape(n);
    }
  }

  /** What `c(name)` does when `get_path(name)` is not in the cache yet: open the existing
      file (src/db.rs:72-76), or find its parent, create that directory and create the file
      (src/db.rs:77-84). The result is the bytes of the opened file. */
  function OpenColumn(p: Path, name: Path, probe: OpenProbe): (r: Result<seq<byte>>)
    ensures r.Ok? <==> if probe.present then probe.openOk else HasParent(p) && probe.mkdirOk && probe.openOk
    ensures r.Ok? ==> r.value == if probe.present then probe.contents else []
    ensures r.Err? ==> r.error == if !probe.present && !HasParent(p) then DBFile(name) else IOError
  {
    if probe.present then (if probe.openOk then Ok(probe.contents) else Err(IOError))
    else if !HasParent(p) then Err(DBFile(name))
    else if !probe.mkdirOk || !probe.openOk then Err(IOError)
    else Ok([])
  }

  class FileDb {
    /** `path` (src/db.rs:21). */
    const root: Path
    /** `cmap` (src/db.rs:22): a `HashMap<PathBuf, C>`, so a key is the components of a
        path, and a handle keeps the path it was first opened under. */
    var cmap: map<seq<Comp>, Column>

    /** Every handle is cached under the key of its own path and is itself consistent. */
    ghost predicate Valid()
      reads this, cmap.Values
    {
      forall k :: k in cmap ==> Key(cmap[k].path) == k && cmap[k].Valid()
    }

    constructor (root: Path)
      ensures this.root == root && cmap == map[] && Valid()
    {
      this.root := root;
      cmap := map[];
    }

    /** `get_path` (src/db.rs:94-96). */
    function GetPath(name: Path): Path
    {
      Paths.GetPath(root, name)
    }

    /** `connect` (src/db.rs:29-46): a missing directory is created (`create_dir_all`
        failing when `mkdirOk` is false); a path that is then still no directory fails
        with `DBFile`. `create_dir_all` of the empty path succeeds without creating
        anything, so the empty path ends in `DBFile` too. */
    static method Connect(path: Path, kind: PathKind, mkdirOk: bool) returns (r: Result<FileDb>)
      ensures r.Err? <==> kind == NotDirectory || (kind == Missing && (!mkdirOk || path == []))
      ensures r.Err? ==> r.error == if kind == Missing && !mkdirOk then IOError else DBFile(path)
      ensures r.Ok? ==> fresh(r.value) && r.value.root == path && r.value.cmap == map[] && r.value.Valid()
    {
      var isDir := kind == Directory;
      if kind == Missing {
        if !mkdirOk {
          return Err(IOError);
        }
        isDir := path != [];
      }
      if !isDir {
        return Err(DBFile(path));
      }
      var db := new FileDb(path);
      r := Ok(db);
    }

    /** `col_names` (src/db.rs:49-65): `listing` is what `read_dir` yields, `None` when
        `read_dir` itself fails. */
    method ColNames(listing: Option<seq<DirRead>>) returns (r: Result<seq<Path>>)
      ensures r == if listing.None? then Err(IOError) else ColumnNames(listing.value)
    {
      if listing.None? {
        return Err(IOError);
      }
      var entries := listing.value;
      var res: seq<Path> := [];
      var i := 0;
      PrependNothing(ColumnNames(entries));
      while i < |entries|
        invariant i <= |entries|
        invariant ColumnNames(entries) == PrependNames(res, NamesFrom(entries, Listed, i))
      {
        match entries[i]
        case EntryError =>
          return Err(IOError);
        case Entry(n) =>
          NamesStep(entries, Listed, i, res);
          if Listed(n) {
            res := res + [n];
          } else {
            assert res + [] == res;
          }
          i := i + 1;
      }
      assert res + [] == res;
      r := Ok(res);
    }

    /** `c(name)` (src/db.rs:68-92): a handle already cached under the key of
        `get_path(name)` is returned as it is, even when it was opened through another
        spelling of the same path; otherwise the file is opened and, only if that
        succeeds, a new handle is cached under that key. The lookup at src/db.rs:91 then
        always finds it. */
    method C(name: Path, probe: OpenProbe) returns (r: Result<Column>)
      requires Valid()
      modifies this
      ensures Valid()
      ensures var p := GetPath(name);
              var k := Key(p);
              if k in old(cmap) then r == Ok(old(cmap)[k]) && cmap == old(cmap)
              else match OpenColumn(p, name, probe)
                case Err(e) => r == Err(e) && cmap == old(cmap)
                case Ok(contents) =>
                  && r.Ok? && fresh(r.value) && cmap == old(cmap)[k := r.value]
                  && r.value.path == p && r.value.disk == Some(contents) && r.value.view == contents
                  && r.value.linked && r.value.pos == 0
      ensures r.Ok? ==> && cmap.Keys == old(cmap).Keys + {Key(GetPath(name))}
                        && cmap[Key(GetPath(name))] == r.value
                        && Key(r.value.path) == Key(GetPath(name)) && r.value.Valid()
      ensures forall q :: q in old(cmap) ==> q in cmap && cmap[q] == old(cmap)[q]
    {
      var p := GetPath(name);
      var k := Key(p);
      if k !in cmap {
        var file := OpenColumn(p, name, probe);
        if file.Err? {
          return Err(file.error);
        }
        var col := new Column(p, file.value);
        cmap := cmap[k := col];
      }
      r := Ok(cmap[k]);
    }
  }

  /** Two plain names with the same stem name the same column. */
  lemma {:induction false} SameStemSamePath(root: Path, n1: Path, n2: Path)
    requires root != [] && root[|root| - 1] != SLASH
    requires n1 != [] && SLASH !in n1 && n1 != [DOT] && n1 != [DOT, DOT]
    requires n2 != [] && SLASH !in n2 && n2 != [DOT] && n2 != [DOT, DOT]
    requires StemOf(n1) == StemOf(n2)
    ensures Paths.GetPath(root, n1) == Paths.GetPath(root, n2)
  {
    var p := root + [SLASH] + StemOf(n1) + [DOT] + FILEDB_EXT;
    assert Paths.GetPath(root, n1) == p by {
      GetPathPlainName(root, n1);
    }
    assert Paths.GetPath(root, n2) == p by {
      GetPathPlainName(root, n2);
    }
  }

  /** The column of a plain name under a root has a parent: `c(name)` can create it. */
  lemma {:induction false} PlainNameHasParent(root: Path, n: Path)
    requires root != [] && root[|root| - 1] != SLASH
    requires n != [] && SLASH !in n && n != [DOT] && n != [DOT, DOT]
    ensures HasParent(Paths.GetPath(root, n))
  {
    ColumnPathHasParent(root, StemOf(n));
    GetPathPlainName(root, n);
  }

  lemma ColumnPathHasParent(root: Path, stem: Path)
    requires root != [] && stem != [] && SLASH !in stem
    ensures HasParent(root + [SLASH] + stem + [DOT] + FILEDB_EXT)
  {
    var tail := stem + [DOT] + FILEDB_EXT;
    ColumnNameShape(stem);
    UnderRoot(root, tail);
    assert root + [SLASH] + stem + [DOT] + FILEDB_EXT == root + [SLASH] + tail;
  }

  /** Open-once through two names with the same stem, such as `a` and `a.txt`: on a fresh
      database, `c` of the first creates the column `root/stem.filedb`, and `c` of the
      second maps to the same path and returns the same handle without opening anything. */
  method SameStemSameHandle(root: Path, n1: Path, n2: Path, probe: OpenProbe)
    returns (first: Result<Column>, second: Result<Column>)
    requires root != [] && root[|root| - 1] != SLASH
    requires n1 != [] && SLASH !in n1 && n1 != [DOT] && n1 != [DOT, DOT]
    requires n2 != [] && SLASH !in n2 && n2 != [DOT] && n2 != [DOT, DOT]
    requires StemOf(n1) == StemOf(n2)
    requires !probe.present && probe.mkdirOk && probe.openOk
    ensures first.Ok? && second.Ok? && first.value == second.value
    ensures first.value.path == root + [SLASH] + StemOf(n1) + [DOT] + FILEDB_EXT
    ensures first.value.view == []
  {
    SameStemSamePath(root, n1, n2);
    PlainNameHasParent(root, n1);
    GetPathPlainName(root, n1);
    var connected := FileDb.Connect(root, Directory, true);
    var db := connected.value;
    first := db.C(n1, probe);
    second := db.C(n2, OpenProbe(false, [], false, false));
  }

  /** `name` and `./name` give the same `get_path` key. */
  lemma CurDirSameKey(root: Path, n: Path)
    requires root != [] && root[|root| - 1] != SLASH
    requires n != [] && SLASH !in n && n != [DOT] && n != [DOT, DOT]
    ensures Key(Paths.GetPath(root, [DOT, SLASH] + n)) == Key(Paths.GetPath(root, n))
  {
    var b := StemOf(n) + [DOT] + FILEDB_EXT;
    GetPathPlainName(root, n);
    GetPathCurDirName(root, n);
    KeySkipsCurDir(root, b);
    Seqs.Assoc4(root + [SLASH], StemOf(n), [DOT], FILEDB_EXT);
    Seqs.Assoc4(root + [SLASH, DOT, SLASH], StemOf(n), [DOT], FILEDB_EXT);
  }

  /** Open-once through two spellings of one path, `name` and `./name`: the second `c`
      finds the handle the first one cached, whose path is the first spelling. */
  method CurDirSameHandle(root: Path, n: Path, probe: OpenProbe)
    returns (first: Result<Column>, second: Result<Column>)
    requires root != [] && root[|root| - 1] != SLASH
    requires n != [] && SLASH !in n && n != [DOT] && n != [DOT, DOT]
    requires !probe.present && probe.mkdirOk && probe.openOk
    ensures first.Ok? && second.Ok? && first.value == second.value
    ensures first.value.path == Paths.GetPath(root, n)
    ensures first.value.path != Paths.GetPath(root, [DOT, SLASH] + n)
  {
    CurDirSameKey(root, n);
    PlainNameHasParent(root, n);
    GetPathPlainName(root, n);
    GetPathCurDirName(root, n);
    assert |Paths.GetPath(root, [DOT, SLASH] + n)| == |Paths.GetPath(root, n)| + 2;
    var connected := FileDb.Connect(root, Directory, true);
    var db := connected.value;
    first := db.C(n, probe);
    second := db.C([DOT, SLASH] + n, OpenProbe(false, [], false, false));
  }
}
