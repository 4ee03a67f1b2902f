/** Facts about sequences of any element type, stated once so that proofs about bytes and
    lines can use them without re-deriving sequence equality in a crowded context. */
module Seqs {
  lemma Assoc<T>(a: seq<T>, b: seq<T>, c: seq<T>)
    ensures a + (b + c) == (a + b) + c
  {
  }

  lemma EmptyUnit<T>(a: seq<T>)
    ensures [] + a == a && a + [] == a
  {
  }

  lemma TakeConcat<T>(s: seq<T>, t: seq<T>, n: nat)
    requires n <= |s|
    ensures (s + t)[..n] == s[..n]
  {
  }

  lemma DropConcat<T>(s: seq<T>, t: seq<T>, n: nat)
    requires n <= |s|
    ensures (s + t)[n..] == s[n..] + t
  {
  }

  lemma AppendPair<T>(r: seq<T>, x: T, y: T)
    ensures r + [x, y] == (r + [x]) + [y]
    ensures (r + [x])[..|r|] == r
  {
  }

  lemma Whole<T>(s: seq<T>)
    ensures s[..|s|] == s && s[0..|s|] == s && s[|s|..] == [] && s + [] == s
  {
  }

  lemma SliceCons<T>(s: seq<T>, i: nat, n: nat)
    requires i < n <= |s|
    ensures s[i..n][0] == s[i] && s[i..n][1..] == s[i + 1..n]
  {
  }

  lemma PrefixCons<T>(x: T, a: seq<T>, b: seq<T>)
    requires a <= b
    ensures [x] + a <= [x] + b
  {
  }

  lemma Assoc4<T>(a: seq<T>, b: seq<T>, c: seq<T>, d: seq<T>)
    ensures a + b + c + d == a + (b + c + d)
  {
  }

  lemma TakeMore<T>(s: seq<T>, t: seq<T>, n: nat)
    requires n <= |t|
    ensures (s + t)[..|s| + n] == s + t[..n]
  {
  }

  /** The length of the first piece of `s`: up to the first `sep`, or all of it. */
  function PieceLen<T(==)>(s: seq<T>, sep: T): (j: nat)
    ensures j <= |s| && (j < |s| ==> s[j] == sep)
    ensures sep !in s ==> j == |s|
  {
    if s == [] || s[0] == sep then 0 else 1 + PieceLen(s[1..], sep)
  }

  /** The pieces of `s` between the occurrences of `sep`, as `split` yields them: an empty
      sequence is one empty piece, and every `sep` starts a further piece. */
  function Split<T(==)>(s: seq<T>, sep: T): (pieces: seq<seq<T>>)
    ensures |pieces| > 0
    decreases |s|
  {
    var j := PieceLen(s, sep);
    if j == |s| then [s] else [s[..j]] + Split(s[j + 1..], sep)
  }

  lemma {:induction false} PieceLenConcat<T>(a: seq<T>, t: seq<T>, sep: T)
    requires sep in a
    ensures PieceLen(a + t, sep) == PieceLen(a, sep) < |a|
    decreases |a|
  {
    if a[0] != sep {
      assert (a + t)[1..] == a[1..] + t;
      assert sep in a[1..];
      PieceLenConcat(a[1..], t, sep);
    }
  }

  lemma {:induction false} PieceLenStop<T>(a: seq<T>, x: seq<T>, sep: T)
    requires sep !in a
    ensures PieceLen(a + [sep] + x, sep) == |a|
    decreases |a|
  {
    if a != [] {
      assert (a + [sep] + x)[1..] == a[1..] + [sep] + x;
      PieceLenStop(a[1..], x, sep);
    }
  }

  /** Splitting is piece by piece: joining at a `sep` concatenates the pieces. */
  lemma {:induction false} SplitConcat<T>(a: seq<T>, x: seq<T>, sep: T)
    ensures Split(a + [sep] + x, sep) == Split(a, sep) + Split(x, sep)
    decreases |a|
  {
    var s := a + [sep] + x;
    if sep in a {
      var j := PieceLen(a, sep);
      PieceLenConcat(a, [sep] + x, sep);
      Assoc(a, [sep], x);
      assert s[..j] == a[..j];
      assert s[j + 1..] == a[j + 1..] + [sep] + x;
      SplitConcat(a[j + 1..], x, sep);
      Assoc([a[..j]], Split(a[j + 1..], sep), Split(x, sep));
    } else {
      PieceLenStop(a, x, sep);
      assert s[..|a|] == a;
      assert s[|a| + 1..] == x;
    }
  }
}
