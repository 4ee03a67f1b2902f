/** The column handle `C` of src/c.rs: a path and an open file in read+append mode. The
    state is an abstract filesystem seen from one handle: the bytes at the path, the bytes
    of the file the handle refers to, whether those are still the same file, and the file
    offset. */
module ColumnFile {
  import opened Bytes
  import opened Results
  import opened Codec
  import opened Callback
  import opened Scans
  import opened Seqs

  function Min(a: nat, b: nat): nat { if a < b then a else b }

  /** What a call of `insert(buf)` leaves appended: the whole frame, or -- when writing
      fails after `n` bytes reached the file -- the first `n` bytes of it. */
  function Appended(buf: seq<byte>, fault: Option<nat>): (a: seq<byte>)
    ensures a <= buf + [LF]
    ensures fault.None? ==> a == buf + [LF]
    ensures fault.Some? ==> |a| == Min(fault.value, |buf| + 1)
    ensures fault.Some? && fault.value <= |buf| ==> a == buf[..fault.value]
  {
    match fault
    case None => Frame(buf)
    case Some(n) => Frame(buf)[..Min(n, |Frame(buf)|)]
  }

  /** The loop of `select_each` (src/c.rs:110-127): from offset 0 of the handle's file,
      one `read_line` per record, the callback's output appended to the temporary file
      `tmp`, until the callback stops or the file ends. */
  method CopyThrough(view: seq<byte>, f: SelectFn, fault: RewriteFault) returns (r: Result<Pass>)
    ensures r == SelectFrom(Lines(view), f, fault, 0)
  {
    var tmp: seq<byte> := [];
    ghost var items := Lines(view);
    var rest := view;
    var index: nat := 0;
    PrependEmpty(SelectFrom(items, f, fault, 0));
    while true
      invariant index <= |items| && Lines(rest) == items[index..]
      invariant SelectFrom(items, f, fault, 0) == Prepend(tmp, SelectFrom(items, f, fault, index))
      decreases |rest|
    {
      if fault == ReadFault(index) {
        return Err(IOError);
      }
      if rest == [] {
        assert index == |items|;
        EmptyUnit(tmp);
        break;
      }
      LinesSuffixStep(rest, items, index);
      var (item, next) := ReadLine(rest);
      if item.Err? {
        return Err(item.error);
      }
      var v := f(index, item.value);
      if !v.remove && fault == WriteFault(index) {
        return Err(IOError);
      }
      SelectStep(items, f, fault, index);
      ghost var before := tmp;
      if !v.remove {
        tmp := tmp + v.data + [LF];
        Assoc(before, v.data, [LF]);
      } else {
        EmptyUnit(before);
      }
      if v.stop {
        assert SelectFrom(items, f, fault, 0) == Prepend(before, Ok(Pass(Emit(v), index)));
        break;
      }
      PrependPrepend(before, Emit(v), SelectFrom(items, f, fault, index + 1));
      index := index + 1;
      rest := next;
    }
    r := Ok(Pass(tmp, index));
  }

  class Column {
    /** `path`: the backing path (src/c.rs:18). */
    const path: seq<byte>
    /** The bytes at `path`, or `None` when no file is there. */
    var disk: Option<seq<byte>>
    /** The bytes of the file `self.file` refers to (src/c.rs:19). */
    var view: seq<byte>
    /** Whether `self.file` is still the file at `path`. */
    var linked: bool
    /** The offset of `self.file`. */
    var pos: nat

    ghost predicate Valid()
      reads this
    {
      (linked ==> disk == Some(view)) && pos <= |view|
    }

    /** `C::new(path, file)` (src/c.rs:74-78), `file` being freshly opened on the file at
        `path`, which holds `contents`. */
    constructor (path: seq<byte>, contents: seq<byte>)
      ensures Valid()
      ensures this.path == path && disk == Some(contents) && view == contents && linked && pos == 0
    {
      this.path := path;
      disk := Some(contents);
      view := contents;
      linked := true;
      pos := 0;
    }

    /** `get_path` (src/c.rs:81-83). */
    function GetPath(): (p: seq<byte>)
    {
      path
    }

    /** `delete` (src/c.rs:86-88): `remove_file(path)`. It fails when nothing is at `path`
        or the filesystem `refuses`. The handle keeps its now unlinked file. */
    method Delete(refuses: bool) returns (r: Result<()>)
      requires Valid()
      modifies this
      ensures Valid()
      ensures r.Ok? <==> old(disk).Some? && !refuses
      ensures r.Err? ==> r.error == IOError
      ensures disk == (if r.Ok? then None else old(disk))
      ensures linked == (old(linked) && r.Err?)
      ensures view == old(view) && pos == old(pos)
    {
      if disk.None? || refuses {
        r := Err(IOError);
      } else {
        disk := None;
        linked := false;
        r := Ok(());
      }
    }

    /** `insert(buf)` (src/c.rs:91-100): the file is in append mode, so the frame goes at
        the end whatever the offset was; the offset is left at the end. `fault == Some(n)`:
        writing fails after `n` bytes reached the file. */
    method Insert(buf: seq<byte>, fault: Option<nat>) returns (r: Result<()>)
      requires Valid()
      modifies this
      ensures Valid()
      ensures r == (if fault.None? then Ok(()) else Err(IOError))
      ensures r.Ok? ==> view == old(view) + buf + [LF]
      ensures view == old(view) + Appended(buf, fault)
      ensures disk == (if old(linked) then Some(view) else old(disk))
      ensures linked == old(linked) && pos == |view|
    {
      var frame := buf + [LF];
      var n := if fault.None? then |frame| else Min(fault.value, |frame|);
      view := view + frame[..n];
      if linked {
        disk := Some(view);
      }
      pos := |view|;
      r := if fault.None? then Ok(()) else Err(IOError);
    }

    /** `for_each(f)` (src/c.rs:137-155): seek to 0, then one `read_line` per record until
        the callback stops or the file ends. Also returns the calls it made to `f`.
        `fault == Some(m)`: the read that would yield record `m` fails. Reading through the
        buffered reader leaves the offset somewhere in the file. */
    method ForEach(f: ForEachFn, fault: Option<nat>) returns (r: Result<nat>, ghost calls: seq<Call>)
      requires Valid()
      modifies this`pos
      ensures Valid()
      ensures r == ForEachFrom(Lines(view), f, fault, 0).result
      ensures calls == ForEachFrom(Lines(view), f, fault, 0).calls
    {
      var offset: nat :| offset <= |view|;
      pos := offset;
      ghost var items := Lines(view);
      var rest := view;
      var index: nat := 0;
      calls := [];
      while true
        invariant Valid()
        invariant index <= |items| && Lines(rest) == items[index..]
        invariant ForEachFrom(items, f, fault, 0).result == ForEachFrom(items, f, fault, index).result
        invariant ForEachFrom(items, f, fault, 0).calls == calls + ForEachFrom(items, f, fault, index).calls
        decreases |rest|
      {
        if fault == Some(index) {
          return Err(IOError), calls;
        }
        if rest == [] {
          assert index == |items|;
          return Ok(index), calls;
        }
        LinesSuffixStep(rest, items, index);
        var (item, next) := ReadLine(rest);
        if item.Err? {
          return Err(item.error), calls;
        }
        var line := item.value;
        if f(index, line).IsStop() {
          ForEachStopAt(items, f, fault, index);
          calls := calls + [(index, line)];
          return Ok(index), calls;
        }
        ForEachStep(items, f, fault, index);
        Assoc(calls, [(index, line)], ForEachFrom(items, f, fault, index + 1).calls);
        calls := calls + [(index, line)];
        index := index + 1;
        rest := next;
      }
    }

    /** `select_each(f)` (src/c.rs:104-134): stream the records of the handle's own file
        through `f` into a temporary file, then `remove_file(path)` and rename the
        temporary file to `path`. `self.file` is never reassigned: afterwards the handle
        still refers to its old, now unlinked file. */
    method SelectEach(f: SelectFn, fault: RewriteFault) returns (r: Result<nat>)
      requires Valid()
      modifies this
      ensures Valid()
      ensures var e := Rewrite(old(disk), old(view), f, fault);
              r == e.result && disk == e.disk && linked == (old(linked) && !e.unlinked)
      ensures view == old(view)
    {
      if fault == TempFileFault {
        return Err(IOError);
      }
      var offset: nat :| offset <= |view|;
      pos := offset;
      var pass := CopyThrough(view, f, fault);
      if pass.Err? {
        return Err(pass.error);
      }
      var tmp, index := pass.value.output, pass.value.index;
      if disk.None? || fault == UnlinkFault {
        return Err(IOError);
      }
      linked := false;
      if fault == RenameFault {
        disk := None;
        return Err(IOError);
      }
      disk := Some(tmp);
      r := Ok(index);
    }

    /** `remove_each(g)` (src/c.rs:159-171): `select_each` through the adapter that passes
        `g`'s remove flag into the first slot, so flagged records are dropped. */
    method RemoveEach(g: RemoveFn, fault: RewriteFault) returns (r: Result<nat>)
      requires Valid()
      modifies this
      ensures Valid()
      ensures var e := Rewrite(old(disk), old(view), RemoveAdapter(g), fault);
              r == e.result && disk == e.disk && linked == (old(linked) && !e.unlinked)
      ensures view == old(view)
    {
      r := SelectEach(RemoveAdapter(g), fault);
    }
  }

  /** A column opened on an empty file, `insert` called once per record of `rs`, then
      `for_each` with a callback that never stops: the callback sees every record with its
      index, in insertion order, and the call returns the count. */
  method InsertThenScan(path: seq<byte>, rs: seq<seq<byte>>, f: ForEachFn)
    returns (r: Result<nat>, ghost calls: seq<Call>)
    requires CleanColumn(rs)
    requires forall j: nat, t: seq<byte> :: !f(j, t).IsStop()
    ensures r == Ok(|rs|)
    ensures |calls| == |rs| && forall j :: 0 <= j < |rs| ==> calls[j] == (j, rs[j])
  {
    var c := new Column(path, []);
    var n := 0;
    while n < |rs|
      invariant n <= |rs| && c.Valid() && c.view == Encode(rs[..n])
    {
      var _ := c.Insert(rs[n], None);
      EncodeAppend(rs[..n], rs[n]);
      assert rs[..n + 1] == rs[..n] + [rs[n]];
      n := n + 1;
    }
    assert rs[..n] == rs;
    ForEachColumn(rs, f);
    r, calls := c.ForEach(f, None);
  }

  /** `select_each` leaves the handle on the file it replaced: after a column of clean
      records is rewritten unchanged, an `insert` through the same handle lands in the
      unlinked file, and the path keeps only the rewritten records. */
  method StaleAfterRewrite(path: seq<byte>, rs: seq<seq<byte>>, r: seq<byte>)
    returns (atPath: Option<seq<byte>>, handle: seq<byte>)
    requires CleanColumn(rs)
    ensures atPath == Some(Encode(rs)) && handle == Encode(rs) + Frame(r)
  {
    var c := new Column(path, Encode(rs));
    var keep: SelectFn := (j: nat, t: seq<byte>) => SelectResultValue(false, t, false);
    RewriteIdentity(Encode(rs), rs, keep);
    var _ := c.SelectEach(keep, NoFault);
    var _ := c.Insert(r, None);
    atPath, handle := c.disk, c.view;
  }
}
