/** The record codec: what `C::insert` writes (src/c.rs:94-95) and what the
    `file.lines()` loops of `select_each` and `for_each` read back (src/c.rs:115-116,
    146-147), following `BufRead::read_line` and `Lines::next` of the Rust standard library. */
module Codec {
  import opened Bytes
  import opened Results
  import opened Seqs

  /** One element of the `lines()` iterator: a line with its terminator removed, or the
      `InvalidData` error `read_line` reports for bytes that are not UTF-8. */
  type Item = Result<seq<byte>>

  /** The bytes `insert(buf)` appends: `write_all(buf)` then `writeln!(file, "")`. */
  function Frame(r: seq<byte>): seq<byte> { r + [LF] }

  /** A column holding the records `rs`, each framed, in order. */
  function Encode(rs: seq<seq<byte>>): seq<byte>
  {
    if rs == [] then [] else Frame(rs[0]) + Encode(rs[1..])
  }

  predicate EndsWithCR(r: seq<byte>) { |r| > 0 && r[|r| - 1] == CR }

  /** A record that reads back as itself: no LF inside, no CR at its end. */
  predicate Clean(r: seq<byte>) { LF !in r && !EndsWithCR(r) }

  /** The position of the first LF in `s`, or `|s|` if there is none. */
  function LineLength(s: seq<byte>): (k: nat)
    ensures k <= |s|
    ensures k < |s| ==> s[k] == LF
  {
    if s == [] then 0 else if s[0] == LF then 0 else 1 + LineLength(s[1..])
  }

  /** `Lines::next`: drop a final LF and then, only in that case, a CR before it. */
  function Chomp(raw: seq<byte>): seq<byte>
  {
    if |raw| > 0 && raw[|raw| - 1] == LF then
      var t := raw[..|raw| - 1];
      if EndsWithCR(t) then t[..|t| - 1] else t
    else raw
  }

  /** What a (valid) record decodes to, or the error a non-UTF-8 line produces. */
  function ItemOf(r: seq<byte>): Item
  {
    if ValidUtf8(r) then Ok(r) else Err(IOError)
  }

  /** How many bytes one `read_line` consumes from a non-empty unread suffix `s`: up to
      and including the first LF, or all of `s`. */
  function LineEnd(s: seq<byte>): (n: nat)
    requires s != []
    ensures 0 < n <= |s|
  {
    var k := LineLength(s);
    if k < |s| then k + 1 else |s|
  }

  /** The item for one raw line: `read_line` checks the whole raw line, terminator included,
      for UTF-8 and `Lines::next` chomps it. */
  function Decode(raw: seq<byte>): Item
  {
    if ValidUtf8(raw) then Ok(Chomp(raw)) else Err(IOError)
  }

  /** `read_line` on a non-empty unread suffix `s`: the item and the bytes still unread. */
  function ReadLine(s: seq<byte>): (r: (Item, seq<byte>))
    requires s != []
    ensures |r.1| < |s|
  {
    var n := LineEnd(s);
    (Decode(s[..n]), s[n..])
  }

  /** `BufRead::lines` over the whole of `s`. */
  function Lines(s: seq<byte>): (items: seq<Item>)
    ensures |items| <= |s|
    decreases |s|
  {
    if s == [] then [] else
      var (item, rest) := ReadLine(s);
      [item] + Lines(rest)
  }

  /** A file that is empty or ends with LF: every line in it is terminated. */
  predicate Terminated(s: seq<byte>) { s == [] || s[|s| - 1] == LF }

  lemma {:induction false} LineLengthFrame(r: seq<byte>, t: seq<byte>)
    requires LF !in r
    ensures LineLength(r + [LF] + t) == |r|
    decreases |r|
  {
    if r != [] {
      assert (r + [LF] + t)[1..] == r[1..] + [LF] + t;
      LineLengthFrame(r[1..], t);
    }
  }

  /** Reading a framed clean record gives the record back and leaves what follows. */
  lemma ReadLineFrame(r: seq<byte>, t: seq<byte>)
    requires Clean(r)
    ensures ReadLine(Frame(r) + t) == (ItemOf(r), t)
  {
    var s := Frame(r) + t;
    assert s == r + [LF] + t;
    LineLengthFrame(r, t);
    assert s[..|r| + 1] == Frame(r);
    assert s[|r| + 1..] == t;
    ValidUtf8AppendAscii(r, LF);
    assert Chomp(Frame(r)) == r by { assert Frame(r)[..|r|] == r; }
  }

  lemma {:induction false} LineLengthPrefix(s: seq<byte>, t: seq<byte>)
    requires LineLength(s) < |s|
    ensures LineLength(s + t) == LineLength(s)
    decreases |s|
  {
    if s[0] != LF {
      assert (s + t)[1..] == s[1..] + t;
      LineLengthPrefix(s[1..], t);
    }
  }

  lemma LinesCons(s: seq<byte>)
    requires s != []
    ensures Lines(s) == [ReadLine(s).0] + Lines(ReadLine(s).1)
  {
  }

  /** Reading one line from an unread suffix whose lines are `items[i..]`. */
  lemma LinesSuffixStep(rest: seq<byte>, items: seq<Item>, i: nat)
    requires rest != [] && i <= |items| && Lines(rest) == items[i..]
    ensures i < |items| && ReadLine(rest).0 == items[i] && Lines(ReadLine(rest).1) == items[i + 1..]
  {
    LinesCons(rest);
    assert items[i..][0] == items[i];
    assert items[i..][1..] == items[i + 1..];
  }

  /** Bytes after a complete line do not change how that line is read. */
  lemma ReadLineConcat(s: seq<byte>, t: seq<byte>)
    requires s != [] && LineLength(s) < |s|
    ensures ReadLine(s + t).0 == ReadLine(s).0
    ensures ReadLine(s + t).1 == ReadLine(s).1 + t
  {
    var n := LineEnd(s);
    assert LineEnd(s + t) == n by {
      LineLengthPrefix(s, t);
    }
    TakeConcat(s, t, n);
    DropConcat(s, t, n);
  }

  /** No LF comes before the one `LineLength` finds. */
  lemma {:induction false} LineLengthFirst(s: seq<byte>)
    ensures forall j :: 0 <= j < LineLength(s) ==> s[j] != LF
    decreases |s|
  {
    if s != [] && s[0] != LF {
      LineLengthFirst(s[1..]);
      assert forall j :: 1 <= j < LineLength(s) ==> s[j] == s[1..][j - 1];
    }
  }

  /** The item of one `read_line` holds no LF. */
  lemma ReadLineNoLf(s: seq<byte>)
    requires s != []
    ensures ReadLine(s).0.Ok? ==> LF !in ReadLine(s).0.value
  {
    var n := LineEnd(s);
    LineLengthFirst(s);
    var raw := s[..n];
    assert forall j :: 0 <= j < |raw| - 1 ==> raw[j] != LF;
    if n < |s| {
      assert Chomp(raw) <= raw[..n - 1];
    } else {
      assert Chomp(raw) <= raw;
    }
  }

  /** No item of `lines()` holds an LF. */
  lemma {:induction false} LinesNoLf(s: seq<byte>)
    ensures forall i :: 0 <= i < |Lines(s)| && Lines(s)[i].Ok? ==> LF !in Lines(s)[i].value
    decreases |s|
  {
    if s != [] {
      ReadLineNoLf(s);
      LinesNoLf(ReadLine(s).1);
      LinesCons(s);
    }
  }

  /** A terminated non-empty file has an LF at its end, so its first line is complete. */
  lemma {:induction false} TerminatedFirstLine(s: seq<byte>)
    requires s != [] && Terminated(s)
    ensures LineLength(s) < |s| && Terminated(ReadLine(s).1)
    decreases |s|
  {
    if s[0] != LF {
      assert s[1..] != [];
      TerminatedFirstLine(s[1..]);
    }
  }

  /** One line of `LinesConcat`: the first line of `s + t` is that of `s`, and the rest of
      `s` is again terminated. */
  lemma LinesConcatStep(s: seq<byte>, t: seq<byte>)
    requires s != [] && Terminated(s)
    ensures Terminated(ReadLine(s).1)
    ensures Lines(s) == [ReadLine(s).0] + Lines(ReadLine(s).1)
    ensures Lines(s + t) == [ReadLine(s).0] + Lines(ReadLine(s).1 + t)
  {
    TerminatedFirstLine(s);
    ReadLineConcat(s, t);
    LinesCons(s);
    LinesCons(s + t);
  }

  /** Lines of a terminated file followed by more bytes: the lines of each part. This is
      how a record inserted after the others becomes visible to later scans. */
  lemma {:induction false} LinesConcat(s: seq<byte>, t: seq<byte>)
    requires Terminated(s)
    ensures Lines(s + t) == Lines(s) + Lines(t)
    decreases |s|
  {
    if s == [] {
      assert s + t == t;
    } else {
      LinesConcatStep(s, t);
      var item, rest := ReadLine(s).0, ReadLine(s).1;
      LinesConcat(rest, t);
      Assoc([item], Lines(rest), Lines(t));
    }
  }

  /** A final LF yields no extra empty record. */
  lemma LinesFrame(r: seq<byte>)
    requires Clean(r)
    ensures Lines(Frame(r)) == [ItemOf(r)]
  {
    ReadLineFrame(r, []);
    assert Frame(r) + [] == Frame(r);
  }

  /** Appending one framed clean record to a terminated file adds exactly one item. */
  lemma LinesAppendFrame(s: seq<byte>, r: seq<byte>)
    requires Terminated(s) && Clean(r)
    ensures Lines(s + Frame(r)) == Lines(s) + [ItemOf(r)]
  {
    LinesConcat(s, Frame(r));
    LinesFrame(r);
  }

  lemma {:induction false} EncodeAppend(rs: seq<seq<byte>>, r: seq<byte>)
    ensures Encode(rs + [r]) == Encode(rs) + Frame(r)
    decreases |rs|
  {
    if rs == [] {
      assert [] + [r] == [r];
      assert Encode([r]) == Frame(r) + Encode([]);
    } else {
      assert (rs + [r])[0] == rs[0];
      assert (rs + [r])[1..] == rs[1..] + [r];
      EncodeAppend(rs[1..], r);
    }
  }

  /** Round trip of the codec: clean records, framed one after the other, read back as
      themselves, in order, one item per record; an invalid one reads as an error. */
  lemma {:induction false} LinesEncode(rs: seq<seq<byte>>)
    requires forall i :: 0 <= i < |rs| ==> Clean(rs[i])
    ensures |Lines(Encode(rs))| == |rs|
    ensures forall i :: 0 <= i < |rs| ==> Lines(Encode(rs))[i] == ItemOf(rs[i])
    decreases |rs|
  {
    if rs != [] {
      LinesEncode(rs[1..]);
      LinesConcat(Frame(rs[0]), Encode(rs[1..]));
      LinesFrame(rs[0]);
      assert Terminated(Frame(rs[0]));
    }
  }

  /** A record that does not end in LF -- the torn tail of a failed insert -- is glued to
      the next inserted record: both read back as one line. */
  lemma TornTailJoins(s: seq<byte>, tail: seq<byte>, r: seq<byte>)
    requires Terminated(s) && LF !in tail && Clean(tail + r)
    ensures Lines(s + tail + Frame(r)) == Lines(s) + [ItemOf(tail + r)]
  {
    assert s + tail + Frame(r) == s + Frame(tail + r);
    LinesAppendFrame(s, tail + r);
  }

  lemma {:induction false} LineLengthNoLF(s: seq<byte>)
    requires LF !in s
    ensures LineLength(s) == |s|
    decreases |s|
  {
    if s != [] { LineLengthNoLF(s[1..]); }
  }

  /** A CRLF-terminated line loses both terminator bytes. */
  lemma CrLfDropped(r: seq<byte>)
    requires LF !in r && ValidUtf8(r)
    ensures Lines(r + [CR, LF]) == [Ok(r)]
  {
    var b := r + [CR];
    AppendPair(r, CR, LF);
    AppendPair(b, LF, LF);
    var a := b + [LF];
    assert LF !in b;
    assert ValidUtf8(a) by {
      ValidUtf8AppendAscii(r, CR);
      ValidUtf8AppendAscii(b, LF);
    }
    assert LineEnd(a) == |a| by {
      Whole(a);
      LineLengthFrame(b, []);
    }
    Whole(a);
    assert Chomp(a) == r;
    LinesCons(a);
  }

  /** An unterminated last line keeps its CR. */
  lemma CrKeptAtEnd(r: seq<byte>)
    requires LF !in r && ValidUtf8(r)
    ensures Lines(r + [CR]) == [Ok(r + [CR])]
  {
    var b := r + [CR];
    assert LF !in b;
    assert ValidUtf8(b) by {
      ValidUtf8AppendAscii(r, CR);
    }
    assert LineEnd(b) == |b| by {
      LineLengthNoLF(b);
    }
    Whole(b);
    assert Chomp(b) == b;
    LinesCons(b);
  }
}
