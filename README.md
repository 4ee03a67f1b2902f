# filedb column engine in Dafny

This project is a Dafny model of the storage core of the `filedb` crate, with proofs.

In `filedb`, a database is a directory, and each column is one file in that directory.
A column file holds byte records, each ended by an LF. The model covers two parts:

- The column handle `C` of `src/c.rs`: `new`, `get_path`, `delete`, `insert`, `for_each`,
  `select_each` and `remove_each`, and the callback result records.
- The database `FileDB` of `src/db.rs`: `connect`, `col_names`, `c` and `get_path`.

The model is split into these modules:

- `Bytes` (`bytes.dfy`): bytes, LF and CR, and UTF-8 well-formedness as in section 4 of
  RFC 3629. That UTF-8 check is what `BufRead::read_line` applies to each raw line.
- `Results` (`results.dfy`): the `Error` enum of `src/result.rs` and the `Result` and
  `Option` wrappers.
- `Seqs` (`seqs.dfy`): general facts about sequences that the other proofs use.
- `Codec` (`codec.dfy`): how `insert` frames a record, and how `BufRead::lines` of the Rust
  standard library reads frames back.
  - A raw line goes up to and including the first LF.
  - The whole raw line must be UTF-8.
  - `Lines::next` removes a final LF, and then removes a CR only if that LF was there.
- `Callback` (`callback.dfy`): `SelectResultValue`, `RemoveResultValue` and
  `ForEachResultValue`, with their constructors and accessors. A callback is a total
  function of (index, line).
- `Scans` (`scans.dfy`): what the three scans compute, written as functions of the lines
  they read:
  - `ForEachFrom` is `for_each`;
  - `SelectFrom` and `Rewrite` are the loop and the whole of `select_each`;
  - `RemoveAdapter` is the closure that `remove_each` passes in.

  The lemmas are stated about these functions.
- `ColumnFile` (`column.dfy`): the class `Column`, which stands for struct `C`. Its fields
  are an abstract filesystem as seen from one handle:
  - the bytes at the path;
  - the bytes of the file the handle has open;
  - whether that file is still the one at the path;
  - the file offset.

  `ForEach`, `SelectEach` and `RemoveEach` are proved to compute exactly the function in
  `Scans` that specifies them. `Insert` is proved to append exactly `Appended` of its
  record and fault. `Delete` states its new state directly.
- `Paths` (`paths.dfy`): the parts of `std::path` on Unix that `FileDB` uses. These are
  `join`, `file_name`, `extension`, `file_stem`, `with_extension` and `parent`, on paths
  held as byte strings.
  - Components are found from the back, as `Components::next_back` does.
  - `rsplit_file_at_dot` treats `..` as a special case.
  - `Key` is `Path::components` seen from the front. `PathBuf` equality and hashing
    compare these, so `Key` is what the keys of `cmap` are compared by.
- `Db` (`db.dfy`): the class `FileDb`. It holds the database root and the handle cache
  `cmap`. That map goes from the `Key` of a path to its `Column`, so spellings of one
  path that differ only in `.` segments or repeated separators, such as `d/x.filedb` and
  `d/./x.filedb`, share one entry. `Key` keeps `..`, as `PathBuf` does, so `d/../d/x.filedb`
  is another entry. The filesystem reaches it as inputs:
  - what `connect` finds at its path;
  - the entries `read_dir` yields;
  - what opening a column file does.

Every I/O step that can fail is an explicit input:

- `Insert` takes `Option<nat>`: `Some(n)` means the write fails after `n` bytes.
- `ForEach` takes `Option<nat>`: `Some(m)` means the read for record `m` fails.
- `SelectEach` takes a `RewriteFault`: one of temporary file, read, write, unlink or rename.
- `FileDb` operations take `PathKind`, `OpenProbe` and `DirRead`.

In the contracts of the three scans, each fault appears in two ways. The call fails exactly
when the scan reaches the faulty step. Otherwise, the fault changes nothing. A write fault
in `Insert` always fails the call, and the bytes that reached the file are a prefix of the
frame (`ColumnFile.Appended`). `PathKind`, `OpenProbe` and `DirRead` are what the
filesystem reports. The contracts of `Connect`, `C` and `ColNames` state the outcome for
each of them.

## Behaviour of the code worth knowing

The model follows the code in each of these cases.

- **What the first flag of `select_each` means.** `SelectResultValue::new` names its first
  argument `inclode` (src/c.rs:32). That name suggests a flag that keeps the record. But `select_each` binds that
  slot as `remove` and writes a record only when it is false (src/c.rs:117-118). The model
  calls the field `remove`. So returning `(false, line, false)` for every record keeps the
  column as it was (`Scans.RewriteIdentity`), and `true` everywhere empties it
  (`Scans.RewriteDropAll`).
- **What `remove_each` does.** `remove_each` passes the caller's `remove` flag into that
  same slot (src/c.rs:164-167). So records flagged `remove = true` are dropped, as the name
  says (`Scans.RemoveColumn`). It does not keep them, which is what reading the first slot as
  a keep flag would predict.
- **What a stop returns.** The stop test runs before `index += 1`. So `for_each` and
  `select_each` return `k`, not `k + 1`, when the callback stops at record `k`.
  `select_each` still writes the output of record `k` and drops every record after it
  (`Scans.RewriteStopsAt`).
- **When a CR is dropped.** A CR is removed only directly before the LF that ends a line.
  A final line with no LF keeps its CR (`Codec.CrLfDropped`, `Codec.CrKeptAtEnd`).
- **Stale handles.** `select_each` never reassigns `self.file`. After a rewrite, the handle
  still refers to the old, unlinked file, so a later `insert` goes to that file and not to
  the one at the path (`ColumnFile.StaleAfterRewrite`). The same holds after `delete`.
- **The lookup at the end of `c`.** The `ok_or` at src/db.rs:91 can never fail: the key is
  either already in the map or was inserted just before. The model has no branch for it.
- **`connect("")`.** `create_dir_all` succeeds on the empty path, but `is_dir` is false for
  it, so `connect("")` fails with `DBFile`.

## Model

| member | source | states |
|---|---|---|
| Callback.ConstructorsRoundTrip | src/c.rs:29-69 | `to_tuple` and `is_stop` return exactly the slots `new` was given, in order; the `inclode` argument is the slot `select_each` reads as `remove` |
| Codec.ReadLineFrame | src/c.rs:94-95 | reading a framed clean record yields the record (or the UTF-8 error) and leaves exactly the bytes after the frame unread |
| Codec.LinesConcat | src/c.rs:146-147 | the lines of a terminated file followed by more bytes are the lines of the first part followed by the lines of the second |
| Codec.LinesAppendFrame | src/c.rs:91-100 | one insert of a clean record into a terminated column adds exactly one line at the end and changes none before it |
| Codec.LinesEncode | src/c.rs:94-95 | round trip: clean records framed one after another read back as themselves, in order, one line per record; invalid UTF-8 reads back as the error |
| Bytes.AsciiIsValid | src/c.rs:146-147 | a line of ASCII bytes is always valid UTF-8, so `read_line` never rejects it |
| Codec.TornTailJoins | src/c.rs:94-97 | the torn tail a failed insert leaves (no LF) joins the next inserted record into one line |
| Codec.LinesNoLf | src/c.rs:146-147 | no line yielded by `lines()` contains an LF |
| Codec.CrLfDropped | src/c.rs:146-147 | a CRLF-terminated line reads back without both its CR and its LF |
| Codec.CrKeptAtEnd | src/c.rs:146-147 | a final line with no LF keeps its trailing CR |
| Scans.AsciiRecordsReadBack | src/c.rs:94-95 | ASCII records with no LF and no trailing CR, framed one after another, read back as themselves, in order |
| Scans.ForEachOutcome | src/c.rs:141-154 | with no I/O fault, every line up to the halting one is passed to the callback with its index, in order; the result is the halting index, or on a line that does not decode the error of that line |
| Scans.ForEachFault | src/c.rs:144-147 | a failing read at record m fails `for_each` exactly when the scan reaches m, after a prefix of the fault-free calls of length m; otherwise the outcome is the fault-free one |
| Scans.ForEachColumn | src/c.rs:137-155 | on a column of clean records, a callback that never stops sees `(j, rs[j])` for every j, in order, and `for_each` returns the record count |
| Scans.SelectOutcome | src/c.rs:115-127 | with no fault, the temporary file holds the outputs of every processed line (the stopping one included), nothing after it, and the result is the halting index or the error of an undecodable line |
| Scans.SelectFault | src/c.rs:113-121 | a failing read or write fails the loop of `select_each` exactly when the loop reaches it (a write only for a line whose output is written); otherwise the loop runs as if nothing failed |
| Scans.EmittedSnoc | src/c.rs:117-122 | the output of lines i..n is that of lines i..n-1 followed by the output of line n |
| Scans.EmittedDropAll | src/c.rs:117-118 | a callback that sets the first flag on every line writes nothing |
| Scans.EmittedIdentity | src/c.rs:117-122 | returning each line unchanged with the first flag false writes back exactly the framed records |
| Scans.EmittedRemove | src/c.rs:164-167 | through the `remove_each` adapter, lines flagged `remove` are dropped and every other line is written back byte for byte, in order |
| Scans.RemoveAdapterStops | src/c.rs:164-167 | the adapter forwards the caller's `remove` and `stop` flags and passes the line itself as the data |
| Scans.RewriteColumn | src/c.rs:104-134 | `select_each` on a column of clean records with no fault leaves exactly the outputs of the processed records at the path, unlinks the old file and returns the halting index |
| Scans.RewriteStopsAt | src/c.rs:117-125 | a stop at record k returns k; the output of records 0..k, the k-th included, is at the path, and nothing after k |
| Scans.RewriteIdentity | src/c.rs:117-122 | first flag false with unchanged data and no stop writes the handle's own records back to the path, byte for byte, and returns their count |
| Scans.RewriteIdentityLinked | src/c.rs:104-134 | for a linked handle, whose file is the one at the path, the identity rewrite leaves the bytes at the path as they were |
| Scans.RewriteDropAll | src/c.rs:117-122 | first flag true everywhere leaves an empty file at the path and still returns the record count |
| Scans.RemoveColumn | src/c.rs:159-171 | `remove_each` leaves at the path exactly the processed records the caller did not flag, byte for byte and in order |
| ColumnFile.Appended | src/c.rs:94-97 | what one `insert` appends is a prefix of `buf + LF`: all of it with no fault; with a fault after n bytes, exactly n bytes (at most the frame), and only the first n bytes of `buf` when n does not reach the LF |
| ColumnFile.CopyThrough | src/c.rs:110-127 | the read/callback/write loop returns exactly `SelectFrom` of the lines of the handle's file: the bytes written to the temporary file and the index, or the first error |
| ColumnFile.Column.constructor | src/c.rs:74-78 | a new handle is on the file at its path, linked, at offset 0, with that file's bytes |
| ColumnFile.Column.Delete | src/c.rs:86-88 | `remove_file` succeeds exactly when a file is at the path and the filesystem allows it; then nothing is at the path and the handle keeps its now unlinked file; on failure nothing changes |
| ColumnFile.Column.Insert | src/c.rs:91-100 | the frame `buf + LF` (or, on a write fault after n bytes, its first n bytes) is appended to the handle's file whatever the offset; the path sees it only while the handle is linked; the result is Ok exactly when no fault occurs |
| ColumnFile.Column.ForEach | src/c.rs:137-155 | result and callback calls are exactly `ForEachFrom` of the lines of the handle's file; nothing but the offset changes |
| ColumnFile.Column.SelectEach | src/c.rs:104-134 | result, bytes at the path and link state are exactly those `Rewrite` gives; the handle's own file is unchanged |
| ColumnFile.Column.RemoveEach | src/c.rs:159-171 | `select_each` through the remove adapter: the effect `Rewrite` gives for `RemoveAdapter(g)` |
| ColumnFile.InsertThenScan | src/c.rs:91-155 | inserting clean records one by one into an empty column and then scanning with a non-stopping callback sees every record with its index, in insertion order, and returns the count |
| ColumnFile.StaleAfterRewrite | src/c.rs:104-134 | after an identity rewrite, an insert through the same handle lands in the unlinked file; the path keeps only the rewritten records |
| Paths.LastComponent | src/db.rs:95 | a normal last component is non-empty, starts after a separator or at the start, holds no separator and is not `.` or `..` |
| Paths.FileName | src/db.rs:54-55 | a file name is non-empty, holds no separator and is not `.` or `..` |
| Paths.StemOf | src/db.rs:95 | the stem is a prefix of the name, non-empty for a non-empty name |
| Paths.WithExtensionSets | src/db.rs:95 | after `with_extension(ext)`, the path has the old file stem and extension `ext`, and the directory part is unchanged |
| Paths.WithExtensionIdempotent | src/db.rs:95 | setting the same extension twice is setting it once |
| Paths.WithExtensionNoName | src/db.rs:95 | a path without a file name is left unchanged |
| Paths.GetPathShape | src/db.rs:94-96 | `get_path(name)` has extension `filedb`, the stem of `root.join(name)` and the directory part of `root.join(name)` |
| Paths.GetPathPlainName | src/db.rs:94-96 | for a plain name under a root, `get_path` is `root/stem.filedb`: an existing extension of the name is replaced |
| Paths.GetPathCurDirName | src/db.rs:94-96 | for `./name` under a root, `get_path` keeps the `.` segment: `root/./stem.filedb` |
| Paths.KeySkipsCurDir | src/db.rs:22 | `a/./b` and `a/b` are the same `PathBuf` key |
| Paths.KeySkipsDoubleSlash | src/db.rs:22 | `a//b` and `a/b` are the same `PathBuf` key |
| Paths.KeyKeepsLeading | src/db.rs:22 | a leading `./` or `/` is a component of its own, so `./x` and `/x` are keys other than `x` |
| Paths.EntryFileName | src/db.rs:54 | a directory entry name is its own file name unless it is empty, `.` or `..` |
| Paths.IsColumnFileShape | src/db.rs:54-58 | the test of `col_names` holds exactly for entry names that end in `.filedb` after a non-empty stem |
| Paths.ColumnFilesAreListed | src/db.rs:54-58 | every column file that `c` can create has a name that the test of `col_names` accepts |
| Db.NamesFromSpec | src/db.rs:52-63 | the listing loop fails exactly when some entry fails; otherwise it returns exactly the entries that pass the test |
| Db.ColumnNamesSpec | src/db.rs:49-65 | `col_names` fails exactly when some entry fails; otherwise it returns exactly the entries with extension `filedb` and a UTF-8 name, each from the listing |
| Db.ColumnNamesConcat | src/db.rs:52-63 | `col_names` keeps the listing order: a listing split in two gives the names of the first part followed by those of the second |
| Db.ListedNamesEndInExt | src/db.rs:54-61 | every returned name ends in `.filedb` after a non-empty stem |
| Db.OpenColumn | src/db.rs:72-85 | an existing file is opened with its bytes; otherwise a path with no parent fails with `DBFile(name)`, and a path with one is created empty when both `create_dir_all` and `open` succeed; every other failure is `IOError` |
| Db.FileDb.constructor | src/db.rs:42-45 | a new database has its root path and an empty cache |
| Db.FileDb.Connect | src/db.rs:29-46 | fails exactly when the path is no directory, or is missing and cannot be created or is empty; `IOError` when creation fails and `DBFile(path)` otherwise; on success, a fresh database with an empty cache |
| Db.FileDb.ColNames | src/db.rs:49-65 | the listing loop returns exactly `ColumnNames` of the entries, or `IOError` when `read_dir` fails |
| Db.FileDb.C | src/db.rs:68-92 | a handle cached under the key of `get_path(name)` is returned unchanged, even one opened through another spelling of that path; otherwise `OpenColumn` runs, and only on success a fresh handle on `get_path(name)` is cached under its key; other cache entries never change, and every cached handle stays consistent |
| Db.SameStemSamePath | src/db.rs:94-96 | two plain names with the same stem map to the same column path |
| Db.PlainNameHasParent | src/db.rs:78 | the column path of a plain name under a root has a parent, so `c` never fails with `DBFile` for it |
| Db.SameStemSameHandle | src/db.rs:68-96 | on a fresh database, `c` of `a` and then `c` of `a.txt` return the same handle on `root/a.filedb` without a second open |
| Db.CurDirSameKey | src/db.rs:71-91 | `get_path(name)` and `get_path("./" + name)` differ as bytes but have the same key |
| Db.CurDirSameHandle | src/db.rs:68-96 | on a fresh database, `c` of `x` and then `c` of `./x` return the same handle, whose path is the first spelling, without a second open |

`ColumnFile.Column.GetPath` is the accessor `get_path` of src/c.rs:81-83. It returns the
path the handle was made with. `Db.FileDb.GetPath` is `get_path` of src/db.rs:94-96. It
joins the name to the root and then sets the extension `filedb`. What it builds is stated
in the `Paths` lemmas above.

## Left out

- The temporary file's name and directory (the `tempfile` crate): only its contents are
  modelled.
- Whether a `flush` or an OS call makes data durable is not modelled. A failing flush counts
  as a write fault.
- The crash window between `remove_file` and `rename` in `select_each` is left out. An
  unlink or rename fault is modelled, but a crash in between is not.
- The `Mutex` around each cached handle and all concurrency: the model is single-threaded.
- `Default for FileDB` is left out: it needs the home directory and it panics on failure.
- `to_string_lossy` in the error of `connect`: `DBFile` carries the raw path bytes.
- The `io::Error` wrapped in `IOError`: only the fact that a step failed is kept.
- Side effects of `FnMut` callbacks: a callback is a pure function of (index, line).
- Windows path prefixes and other non-Unix path rules.
- `usize` overflow of the scan index: indices are unbounded naturals.
- The seek of `select_each` and `for_each` cannot fail on its own in the model. Its failure
  is folded into the failure of the first read (`ReadFault(0)`, `Some(0)`).
- Where the buffered reader leaves the file offset: `pos` is left unspecified within the
  file.
- The re-exports of `src/lib.rs`.
- The handles do not share a filesystem. Each `Column` has its own copy of the bytes at
  its path and of its open file. So two handles on one file, such as `c("x")` and
  `c("../d/x")` under root `d`, two `FileDb`s on one directory, or a path reached through
  a symlink, do not see each other's writes. In the code, both `File`s refer to one file
  and each sees the other's appends.
- ColumnFile.Column.constructor: models `C::new` only for a file freshly opened for
  reading and appending at `path`. `C::new` itself accepts any `File`, but its only call
  site, src/db.rs:86, passes such a file.
