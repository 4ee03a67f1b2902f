/** What the three scans of a column compute, as functions of the lines they read:
    `for_each` (src/c.rs:137-155), the loop of `select_each` (src/c.rs:104-134) and the
    adapter `remove_each` puts in front of it (src/c.rs:159-171). The methods of
    `ColumnFile.Column` are proved to compute exactly these. */
module Scans {
  import opened Bytes
  import opened Results
  import opened Codec
  import opened Callback
  import opened Seqs

  /** One callback invocation: the index and the line it was given. */
  type Call = (nat, seq<byte>)

  /** The outcome of a read-only scan and the calls it made, in order. */
  datatype Scan = Scan(result: Result<nat>, calls: seq<Call>)

  /** Where a scan that starts at `i` leaves the loop: at the first line that fails to
      decode or whose callback asks to stop, or at the end. */
  function Halt(items: seq<Item>, stops: (nat, seq<byte>) -> bool, i: nat): (k: nat)
    requires i <= |items|
    ensures i <= k <= |items|
    ensures forall j :: i <= j < k ==> items[j].Ok? && !stops(j, items[j].value)
    ensures k < |items| ==> items[k].Err? || stops(k, items[k].value)
    decreases |items| - i
  {
    if i == |items| then i
    else if items[i].Err? || stops(i, items[i].value) then i
    else Halt(items, stops, i + 1)
  }

  /** A scan over lines that all decode and none of which stops runs to the end. */
  lemma {:induction false} HaltAtEnd(items: seq<Item>, stops: (nat, seq<byte>) -> bool, i: nat)
    requires i <= |items|
    requires forall j :: i <= j < |items| ==> items[j].Ok? && !stops(j, items[j].value)
    ensures Halt(items, stops, i) == |items|
    decreases |items| - i
  {
    if i < |items| {
      HaltAtEnd(items, stops, i + 1);
    }
  }

  function ForEachStops(f: ForEachFn): (nat, seq<byte>) -> bool
  {
    (j: nat, t: seq<byte>) => f(j, t).IsStop()
  }

  /** `for_each` from record `i` on. `fault == Some(m)`: the read that would produce record
      `m` fails (`m` = number of records: the final end-of-file read; 0 also stands for the
      seek). The stop test comes before `index += 1`, so stopping at `i` returns `i`. */
  function ForEachFrom(items: seq<Item>, f: ForEachFn, fault: Option<nat>, i: nat): Scan
    requires i <= |items|
    decreases |items| - i
  {
    if fault == Some(i) then Scan(Err(IOError), [])
    else if i == |items| then Scan(Ok(i), [])
    else match items[i]
      case Err(e) => Scan(Err(e), [])
      case Ok(line) =>
        if f(i, line).IsStop() then Scan(Ok(i), [(i, line)])
        else
          var rest := ForEachFrom(items, f, fault, i + 1);
          Scan(rest.result, [(i, line)] + rest.calls)
  }

  /** What `for_each` does when no I/O step fails: every line up to the halting one is
      passed to the callback with its index, in order; the result is the halting index (the
      number of lines when nothing stops), or the error of a line that does not decode. */
  lemma {:induction false} ForEachOutcome(items: seq<Item>, f: ForEachFn, i: nat)
    requires i <= |items|
    ensures var k := Halt(items, ForEachStops(f), i);
            var s := ForEachFrom(items, f, None, i);
            && s.result == (if k < |items| && items[k].Err? then Err(items[k].error) else Ok(k))
            && |s.calls| == (if k < |items| && items[k].Ok? then k + 1 else k) - i
            && forall j :: 0 <= j < |s.calls| ==> s.calls[j] == (i + j, items[i + j].value)
    decreases |items| - i
  {
    if i < |items| && items[i].Ok? && !f(i, items[i].value).IsStop() {
      ForEachOutcome(items, f, i + 1);
    }
  }

  /** A failing read matters only if the scan gets that far: then the scan fails after the
      calls made before it; otherwise the outcome is that of a fault-free scan. */
  lemma {:induction false} ForEachFault(items: seq<Item>, f: ForEachFn, m: nat, i: nat)
    requires i <= |items|
    ensures var k := Halt(items, ForEachStops(f), i);
            var clean := ForEachFrom(items, f, None, i);
            var s := ForEachFrom(items, f, Some(m), i);
            if i <= m <= k then
              s.result == Err(IOError) && s.calls <= clean.calls && |s.calls| == m - i
            else s == clean
    decreases |items| - i
  {
    if i < |items| && m != i && items[i].Ok? && !f(i, items[i].value).IsStop() {
      ForEachFault(items, f, m, i + 1);
      ForEachStep(items, f, Some(m), i);
      ForEachStep(items, f, None, i);
      PrefixCons((i, items[i].value), ForEachFrom(items, f, Some(m), i + 1).calls,
        ForEachFrom(items, f, None, i + 1).calls);
    }
  }

  /** Round trip: on a column written by inserting clean records `rs`, a `for_each` whose
      callback never stops sees exactly `(0, rs[0])`, ..., `(n - 1, rs[n - 1])` and
      returns `n`. */
  lemma ForEachColumn(rs: seq<seq<byte>>, f: ForEachFn)
    requires CleanColumn(rs)
    requires forall j: nat, t: seq<byte> :: !f(j, t).IsStop()
    ensures var s := ForEachFrom(Lines(Encode(rs)), f, None, 0);
            && s.result == Ok(|rs|)
            && |s.calls| == |rs|
            && forall j :: 0 <= j < |rs| ==> s.calls[j] == (j, rs[j])
  {
    var items := OkItems(rs);
    CleanColumnLines(rs);
    assert Halt(items, ForEachStops(f), 0) == |items| by {
      HaltAtEnd(items, ForEachStops(f), 0);
    }
    ForEachOutcome(items, f, 0);
  }

  function SelectStops(f: SelectFn): (nat, seq<byte>) -> bool
  {
    (j: nat, t: seq<byte>) => f(j, t).stop
  }

  /** The I/O steps of `select_each` that can fail: creating the temporary file
      (src/c.rs:109); the seek or the read that would produce record `line` (src/c.rs:113,
      115-116); writing or flushing the output of record `line` (src/c.rs:119-121); the
      `remove_file` of the column (src/c.rs:129); the `rename` (src/c.rs:131). */
  datatype RewriteFault =
    | NoFault
    | TempFileFault
    | ReadFault(line: nat)
    | WriteFault(line: nat)
    | UnlinkFault
    | RenameFault

  /** What the loop of `select_each` wrote to the temporary file, and the index it returns. */
  datatype Pass = Pass(output: seq<byte>, index: nat)

  /** What one callback result adds to the temporary file: its `data` and an LF when its
      first flag is false, nothing when it is true (src/c.rs:117-122). */
  function Emit(v: SelectResultValue): seq<byte>
  {
    if v.remove then [] else Frame(v.data)
  }

  /** The loop of `select_each` (src/c.rs:115-127) from record `i` on. */
  function SelectFrom(items: seq<Item>, f: SelectFn, fault: RewriteFault, i: nat): Result<Pass>
    requires i <= |items|
    decreases |items| - i
  {
    if fault == ReadFault(i) then Err(IOError)
    else if i == |items| then Ok(Pass([], i))
    else match items[i]
      case Err(e) => Err(e)
      case Ok(line) =>
        var v := f(i, line);
        if !v.remove && fault == WriteFault(i) then Err(IOError)
        else if v.stop then Ok(Pass(Emit(v), i))
        else Prepend(Emit(v), SelectFrom(items, f, fault, i + 1))
  }

  /** Bytes written before the rest of a pass. */
  function Prepend(out: seq<byte>, r: Result<Pass>): Result<Pass>
  {
    match r
    case Err(e) => Err(e)
    case Ok(p) => Ok(Pass(out + p.output, p.index))
  }

  lemma PrependEmpty(r: Result<Pass>)
    ensures Prepend([], r) == r
  {
    if r.Ok? { assert [] + r.value.output == r.value.output; }
  }

  lemma PrependPrepend(a: seq<byte>, b: seq<byte>, r: Result<Pass>)
    ensures Prepend(a, Prepend(b, r)) == Prepend(a + b, r)
  {
    if r.Ok? { assert a + (b + r.value.output) == (a + b) + r.value.output; }
  }

  /** One iteration of the loop of `select_each` that does not fail. */
  lemma SelectStep(items: seq<Item>, f: SelectFn, fault: RewriteFault, i: nat)
    requires i < |items| && fault != ReadFault(i) && items[i].Ok?
    requires f(i, items[i].value).remove || fault != WriteFault(i)
    ensures var v := f(i, items[i].value);
            SelectFrom(items, f, fault, i) ==
              if v.stop then Ok(Pass(Emit(v), i)) else Prepend(Emit(v), SelectFrom(items, f, fault, i + 1))
  {
  }

  /** One iteration of the loop of `for_each` that neither fails nor stops. */
  lemma ForEachStep(items: seq<Item>, f: ForEachFn, fault: Option<nat>, i: nat)
    requires i < |items| && fault != Some(i) && items[i].Ok? && !f(i, items[i].value).IsStop()
    ensures ForEachFrom(items, f, fault, i).result == ForEachFrom(items, f, fault, i + 1).result
    ensures ForEachFrom(items, f, fault, i).calls
            == [(i, items[i].value)] + ForEachFrom(items, f, fault, i + 1).calls
  {
  }

  /** The iteration of the loop of `for_each` whose callback stops. */
  lemma ForEachStopAt(items: seq<Item>, f: ForEachFn, fault: Option<nat>, i: nat)
    requires i < |items| && fault != Some(i) && items[i].Ok? && f(i, items[i].value).IsStop()
    ensures ForEachFrom(items, f, fault, i) == Scan(Ok(i), [(i, items[i].value)])
  {
  }

  /** The outputs of the callback on lines `i` to `n - 1`, in order. */
  function Emitted(items: seq<Item>, f: SelectFn, i: nat, n: nat): seq<byte>
    requires i <= n <= |items|
    requires forall j :: i <= j < n ==> items[j].Ok?
    decreases n - i
  {
    if i == n then [] else Emit(f(i, items[i].value)) + Emitted(items, f, i + 1, n)
  }

  /** The number of lines `select_each` hands to its callback when it halts at `k`: the
      stopping line itself is processed. */
  function Processed(items: seq<Item>, k: nat): nat
    requires k <= |items|
  {
    if k < |items| && items[k].Ok? then k + 1 else k
  }

  /** What the loop of `select_each` does when no I/O step fails: the temporary file holds
      the outputs of every processed line, the stopping one included, and nothing of the
      lines after it; the result is the halting index; a line that does not decode fails
      the whole call. */
  lemma {:induction false} SelectOutcome(items: seq<Item>, f: SelectFn, i: nat)
    requires i <= |items|
    ensures var k := Halt(items, SelectStops(f), i);
            SelectFrom(items, f, NoFault, i) ==
              if k < |items| && items[k].Err? then Err(items[k].error)
              else Ok(Pass(Emitted(items, f, i, Processed(items, k)), k))
    decreases |items| - i
  {
    if i < |items| && items[i].Ok? {
      var v := f(i, items[i].value);
      if v.stop {
        assert SelectStops(f)(i, items[i].value);
        assert Halt(items, SelectStops(f), i) == i;
        assert Emitted(items, f, i + 1, i + 1) == [];
        assert Emitted(items, f, i, i + 1) == Emit(v) + [];
        assert Emit(v) + [] == Emit(v);
        assert Processed(items, i) == i + 1;
      } else {
        SelectOutcome(items, f, i + 1);
        var k := Halt(items, SelectStops(f), i + 1);
        assert k == Halt(items, SelectStops(f), i);
        if !(k < |items| && items[k].Err?) {
          assert Emitted(items, f, i, Processed(items, k))
              == Emit(v) + Emitted(items, f, i + 1, Processed(items, k));
        }
      }
    }
  }

  /** Whether the loop of `select_each`, started at `i`, reaches the failing step. */
  predicate FaultReached(items: seq<Item>, f: SelectFn, fault: RewriteFault, i: nat)
    requires i <= |items|
  {
    var k := Halt(items, SelectStops(f), i);
    match fault
    case ReadFault(m) => i <= m <= k
    case WriteFault(m) =>
      i <= m <= k && m < |items| && items[m].Ok? && !f(m, items[m].value).remove
    case _ => false
  }

  /** A failing read or write fails `select_each` exactly when the loop reaches it;
      otherwise the loop behaves as if nothing failed. */
  lemma {:induction false} SelectFault(items: seq<Item>, f: SelectFn, fault: RewriteFault, i: nat)
    requires i <= |items|
    ensures SelectFrom(items, f, fault, i) ==
              if FaultReached(items, f, fault, i) then Err(IOError) else SelectFrom(items, f, NoFault, i)
    decreases |items| - i
  {
    if i < |items| && items[i].Ok? && fault != ReadFault(i) {
      var v := f(i, items[i].value);
      if !(!v.remove && fault == WriteFault(i)) && !v.stop {
        SelectFault(items, f, fault, i + 1);
      }
    }
  }

  lemma {:induction false} EmittedSnoc(items: seq<Item>, f: SelectFn, i: nat, n: nat)
    requires i <= n < |items|
    requires forall j :: i <= j <= n ==> items[j].Ok?
    ensures Emitted(items, f, i, n + 1) == Emitted(items, f, i, n) + Emit(f(n, items[n].value))
    decreases n - i
  {
    var last := Emit(f(n, items[n].value));
    if i < n {
      var head := Emit(f(i, items[i].value));
      assert Emitted(items, f, i, n + 1) == head + Emitted(items, f, i + 1, n + 1);
      assert Emitted(items, f, i, n) == head + Emitted(items, f, i + 1, n);
      EmittedSnoc(items, f, i + 1, n);
      Assoc(head, Emitted(items, f, i + 1, n), last);
    } else {
      assert Emitted(items, f, n, n + 1) == last + Emitted(items, f, n + 1, n + 1);
      EmptyUnit(last);
    }
  }

  /** A callback that flags every line with `true` writes nothing. */
  lemma {:induction false} EmittedDropAll(items: seq<Item>, f: SelectFn, i: nat, n: nat)
    requires i <= n <= |items|
    requires forall j :: i <= j < n ==> items[j].Ok?
    requires forall j: nat, t: seq<byte> :: f(j, t).remove
    ensures Emitted(items, f, i, n) == []
    decreases n - i
  {
    if i < n {
      EmittedDropAll(items, f, i + 1, n);
    }
  }

  /** The lines of a column whose records are all clean, valid UTF-8: exactly those records. */
  function OkItems(rs: seq<seq<byte>>): (items: seq<Item>)
    ensures |items| == |rs|
    ensures forall j :: 0 <= j < |rs| ==> items[j] == Ok(rs[j])
  {
    seq(|rs|, (j: int) requires 0 <= j < |rs| => Ok(rs[j]))
  }

  predicate CleanColumn(rs: seq<seq<byte>>)
  {
    forall j :: 0 <= j < |rs| ==> Clean(rs[j]) && ValidUtf8(rs[j])
  }

  lemma CleanColumnLines(rs: seq<seq<byte>>)
    requires CleanColumn(rs)
    ensures Lines(Encode(rs)) == OkItems(rs)
  {
    LinesEncode(rs);
  }

  /** Records of ASCII text with no LF and no trailing CR read back exactly as written. */
  lemma AsciiRecordsReadBack(rs: seq<seq<byte>>)
    requires forall j :: 0 <= j < |rs| ==> AllAscii(rs[j]) && Clean(rs[j])
    ensures Lines(Encode(rs)) == OkItems(rs)
  {
    forall j | 0 <= j < |rs|
      ensures ValidUtf8(rs[j])
    {
      AsciiIsValid(rs[j]);
    }
    CleanColumnLines(rs);
  }

  /** A callback that returns every line unchanged with `false` re-writes the records as
      they were. */
  lemma {:induction false} EmittedIdentity(rs: seq<seq<byte>>, f: SelectFn, i: nat, n: nat)
    requires i <= n <= |rs|
    requires forall j: nat, t: seq<byte> :: f(j, t) == SelectResultValue(false, t, false)
    ensures Emitted(OkItems(rs), f, i, n) == Encode(rs[i..n])
    decreases n - i
  {
    if i < n {
      EmittedIdentity(rs, f, i + 1, n);
      SliceCons(rs, i, n);
    }
  }

  /** The callback `remove_each` hands to `select_each` (src/c.rs:164-167): it forwards the
      caller's `remove` flag into the first slot and the line itself as the data. */
  function RemoveAdapter(g: RemoveFn): SelectFn
  {
    (j: nat, line: seq<byte>) =>
      var (remove, stop) := g(j, line).ToTuple();
      SelectResultValue.New(remove, line, stop)
  }

  /** The lines among `i` to `n - 1` that the caller did not flag for removal, in order. */
  function Kept(items: seq<Item>, g: RemoveFn, i: nat, n: nat): seq<seq<byte>>
    requires i <= n <= |items|
    requires forall j :: i <= j < n ==> items[j].Ok?
    decreases n - i
  {
    if i == n then []
    else (if g(i, items[i].value).remove then [] else [items[i].value]) + Kept(items, g, i + 1, n)
  }

  lemma {:induction false} EncodeConcat(a: seq<seq<byte>>, b: seq<seq<byte>>)
    ensures Encode(a + b) == Encode(a) + Encode(b)
    decreases |a|
  {
    if a != [] {
      assert (a + b)[0] == a[0];
      assert (a + b)[1..] == a[1..] + b;
      EncodeConcat(a[1..], b);
    } else {
      assert a + b == b;
    }
  }

  /** Through the adapter, a line flagged `remove = true` is dropped and every other
      processed line is written back byte for byte as it was read. */
  lemma {:induction false} EmittedRemove(items: seq<Item>, g: RemoveFn, i: nat, n: nat)
    requires i <= n <= |items|
    requires forall j :: i <= j < n ==> items[j].Ok?
    ensures Emitted(items, RemoveAdapter(g), i, n) == Encode(Kept(items, g, i, n))
    decreases n - i
  {
    if i < n {
      EmittedRemove(items, g, i + 1, n);
      var line := items[i].value;
      var here := if g(i, line).remove then [] else [line];
      EncodeConcat(here, Kept(items, g, i + 1, n));
      assert Encode([line]) == Frame(line) + Encode([]);
    }
  }

  /** The adapter stops where the caller's callback stops. */
  lemma RemoveAdapterStops(g: RemoveFn, j: nat, line: seq<byte>)
    ensures RemoveAdapter(g)(j, line).stop == g(j, line).stop
    ensures RemoveAdapter(g)(j, line).remove == g(j, line).remove
    ensures RemoveAdapter(g)(j, line).data == line
  {
  }

  /** What a call of `select_each` does to the column (src/c.rs:104-134), given the bytes at
      the path (`None`: no file there), the bytes of the handle's own file, the callback and
      the failing step. */
  datatype Effect = Effect(disk: Option<seq<byte>>, unlinked: bool, result: Result<nat>)

  function Rewrite(disk: Option<seq<byte>>, view: seq<byte>, f: SelectFn, fault: RewriteFault): Effect
  {
    if fault == TempFileFault then Effect(disk, false, Err(IOError))
    else match SelectFrom(Lines(view), f, fault, 0)
      case Err(e) => Effect(disk, false, Err(e))
      case Ok(p) =>
        if disk.None? || fault == UnlinkFault then Effect(disk, false, Err(IOError))
        else if fault == RenameFault then Effect(None, true, Err(IOError))
        else Effect(Some(p.output), true, Ok(p.index))
  }

  /** `select_each` on a column of clean records with no failing step: the path then holds
      exactly the outputs of the processed records, in order; the result is the halting
      index; the old file is unlinked. */
  lemma RewriteColumn(disk: seq<byte>, rs: seq<seq<byte>>, f: SelectFn)
    requires CleanColumn(rs)
    ensures var items := OkItems(rs);
            var k := Halt(items, SelectStops(f), 0);
            Rewrite(Some(disk), Encode(rs), f, NoFault)
              == Effect(Some(Emitted(items, f, 0, Processed(items, k))), true, Ok(k))
  {
    CleanColumnLines(rs);
    SelectOutcome(OkItems(rs), f, 0);
  }

  /** A stop at record `k`: the output of record `k` is still written
      when its first flag is false, nothing of the records after it is, and the call
      returns `k`. */
  lemma RewriteStopsAt(disk: seq<byte>, rs: seq<seq<byte>>, f: SelectFn, k: nat)
    requires CleanColumn(rs) && k < |rs|
    requires forall j :: 0 <= j < k ==> !f(j, rs[j]).stop
    requires f(k, rs[k]).stop
    ensures var e := Rewrite(Some(disk), Encode(rs), f, NoFault);
            && e.result == Ok(k)
            && e.disk == Some(Emitted(OkItems(rs), f, 0, k) + Emit(f(k, rs[k])))
  {
    var items := OkItems(rs);
    RewriteColumn(disk, rs, f);
    assert Halt(items, SelectStops(f), 0) == k;
    EmittedSnoc(items, f, 0, k);
  }

  /** With the code's polarity, returning every line unchanged with first flag
      `false` and no stop writes the handle's own records back to the path, byte for
      byte, and returns their count. Whatever was at the path before is replaced. */
  lemma RewriteIdentity(disk: seq<byte>, rs: seq<seq<byte>>, f: SelectFn)
    requires CleanColumn(rs)
    requires forall j: nat, t: seq<byte> :: f(j, t) == SelectResultValue(false, t, false)
    ensures Rewrite(Some(disk), Encode(rs), f, NoFault) == Effect(Some(Encode(rs)), true, Ok(|rs|))
  {
    var items := OkItems(rs);
    RewriteColumn(disk, rs, f);
    assert Halt(items, SelectStops(f), 0) == |rs| by {
      HaltAtEnd(items, SelectStops(f), 0);
    }
    EmittedIdentity(rs, f, 0, |rs|);
    Whole(rs);
  }

  /** For a linked handle, whose file is the one at the path, the identity rewrite leaves
      the bytes at the path as they were. */
  lemma RewriteIdentityLinked(rs: seq<seq<byte>>, f: SelectFn)
    requires CleanColumn(rs)
    requires forall j: nat, t: seq<byte> :: f(j, t) == SelectResultValue(false, t, false)
    ensures Rewrite(Some(Encode(rs)), Encode(rs), f, NoFault).disk == Some(Encode(rs))
  {
    RewriteIdentity(Encode(rs), rs, f);
  }

  /** With the code's polarity, first flag `true` everywhere leaves an empty
      file; the result still counts every record. */
  lemma RewriteDropAll(disk: seq<byte>, rs: seq<seq<byte>>, f: SelectFn)
    requires CleanColumn(rs)
    requires forall j: nat, t: seq<byte> :: f(j, t).remove && !f(j, t).stop
    ensures Rewrite(Some(disk), Encode(rs), f, NoFault) == Effect(Some([]), true, Ok(|rs|))
  {
    var items := OkItems(rs);
    RewriteColumn(disk, rs, f);
    assert Halt(items, SelectStops(f), 0) == |rs| by {
      HaltAtEnd(items, SelectStops(f), 0);
    }
    EmittedDropAll(items, f, 0, |rs|);
  }

  /** `remove_each` on a column of clean records with no failing step: the path then holds
      the processed records the caller did not flag, byte for byte and in order. */
  lemma RemoveColumn(disk: seq<byte>, rs: seq<seq<byte>>, g: RemoveFn)
    requires CleanColumn(rs)
    ensures var items := OkItems(rs);
            var k := Halt(items, SelectStops(RemoveAdapter(g)), 0);
            Rewrite(Some(disk), Encode(rs), RemoveAdapter(g), NoFault)
              == Effect(Some(Encode(Kept(items, g, 0, Processed(items, k)))), true, Ok(k))
  {
    var items := OkItems(rs);
    RewriteColumn(disk, rs, RemoveAdapter(g));
    var k := Halt(items, SelectStops(RemoveAdapter(g)), 0);
    EmittedRemove(items, g, 0, Processed(items, k));
  }
}
