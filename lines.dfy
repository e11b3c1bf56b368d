/**
 The line-oriented view of a text file that the C library gives the patcher:
 `getline` cuts the file's bytes into chunks that each end just after a
 newline (the last chunk may lack one), `strstr` looks for a substring of one
 chunk, and a run of `fputs` calls leaves the concatenation of what it wrote.
 */
module Lines {

  /** Length of the first chunk `getline` returns from `s`: up to and including
      the first newline, or all of `s` when it has none. */
  function LineEnd(s: string): (n: nat)
    requires s != []
    ensures 0 < n <= |s|
    ensures forall j :: 0 <= j < n - 1 ==> s[j] != '\n'
    ensures n < |s| ==> s[n - 1] == '\n'
    ensures n == |s| || s[n - 1] == '\n'
    decreases |s|
  {
    if s[0] == '\n' || |s| == 1 then 1 else 1 + LineEnd(s[1..])
  }

  /** The chunks successive `getline` calls return from a stream holding `s`,
      until it reports end of file. */
  function Chunks(s: string): seq<string>
    decreases |s|
  {
    if s == [] then [] else [s[..LineEnd(s)]] + Chunks(s[LineEnd(s)..])
  }

  /** What a stream holds after each of `lines` has been written to it in turn. */
  function Concat(lines: seq<string>): string
  {
    if lines == [] then [] else lines[0] + Concat(lines[1..])
  }

  /** A newline may occur in `line` only as its last character. */
  predicate NewlineOnlyAtEnd(line: string)
  {
    forall j :: 0 <= j < |line| - 1 ==> line[j] != '\n'
  }

  predicate EndsWithNewline(line: string)
  {
    line != [] && line[|line| - 1] == '\n'
  }

  /** The shape of every sequence `getline` can return: no empty chunk, a newline
      only at the end of a chunk, and every chunk but the last ending in one. */
  predicate IsLines(lines: seq<string>)
  {
    forall i :: 0 <= i < |lines| ==>
      lines[i] != [] && NewlineOnlyAtEnd(lines[i]) && (i < |lines| - 1 ==> EndsWithNewline(lines[i]))
  }

  predicate OccursAt(s: string, p: string, i: nat)
  {
    i + |p| <= |s| && s[i..i + |p|] == p
  }

  /** `strstr(s, p) != NULL`, for text without NUL characters. */
  predicate Contains(s: string, p: string)
  {
    exists i | 0 <= i <= |s| - |p| :: OccursAt(s, p, i)
  }

  /** Some chunk of `lines` contains `p`. */
  predicate SomeLineContains(lines: seq<string>, p: string)
  {
    exists i | 0 <= i < |lines| :: Contains(lines[i], p)
  }

  /** The chunk boundary is pinned down by where the first newline is. */
  lemma LineEndIs(s: string, n: nat)
    requires 0 < n <= |s|
    requires forall j :: 0 <= j < n - 1 ==> s[j] != '\n'
    requires n == |s| || s[n - 1] == '\n'
    ensures LineEnd(s) == n
  {
  }

  /** A text is its prefix followed by the rest. */
  lemma SplitJoin(s: string, n: nat)
    requires n <= |s|
    ensures s[..n] + s[n..] == s
  {
  }

  lemma SliceOfPrefix(s: string, n: nat, a: nat, b: nat)
    requires a <= b <= n <= |s|
    ensures s[..n][a..b] == s[a..b]
  {
  }

  lemma SliceOfSuffix(s: string, n: nat, a: nat, b: nat)
    requires n <= |s| && a <= b <= |s| - n
    ensures s[n..][a..b] == s[n + a..n + b]
  {
  }

  /** Writing two runs of chunks writes their texts one after the other. */
  lemma {:induction false} ConcatAppend(a: seq<string>, b: seq<string>)
    ensures Concat(a + b) == Concat(a) + Concat(b)
    decreases |a|
  {
    if a != [] {
      assert (a + b)[0] == a[0];
      assert (a + b)[1..] == a[1..] + b;
      ConcatAppend(a[1..], b);
    } else {
      assert a + b == b;
    }
  }

  /** Every chunking `getline` produces has the shape `IsLines` describes. */
  lemma {:induction false} ChunksAreLines(s: string)
    ensures IsLines(Chunks(s))
    decreases |s|
  {
    if s != [] {
      var n := LineEnd(s);
      ChunksAreLines(s[n..]);
      var rest := Chunks(s[n..]);
      assert Chunks(s) == [s[..n]] + rest;
      assert rest != [] ==> s[n..] != [];
      forall i | 0 <= i < |Chunks(s)|
        ensures Chunks(s)[i] != [] && NewlineOnlyAtEnd(Chunks(s)[i])
        ensures i < |Chunks(s)| - 1 ==> EndsWithNewline(Chunks(s)[i])
      {
        if i > 0 {
          assert Chunks(s)[i] == rest[i - 1];
        }
      }
    }
  }

  /** Reading a stream to the end and writing every chunk back reproduces it
      byte for byte. */
  lemma {:induction false} ConcatChunks(s: string)
    ensures Concat(Chunks(s)) == s
    decreases |s|
  {
    if s != [] {
      var n := LineEnd(s);
      ConcatChunks(s[n..]);
      var cs := Chunks(s);
      assert cs == [s[..n]] + Chunks(s[n..]);
      assert cs[0] == s[..n] && cs[1..] == Chunks(s[n..]);
      assert Concat(cs) == s[..n] + Concat(Chunks(s[n..]));
      SplitJoin(s, n);
    }
  }

  /** Conversely, a sequence of the `getline` shape is what `getline` reads back
      from its own concatenation. */
  lemma {:induction false} ChunksConcat(lines: seq<string>)
    requires IsLines(lines)
    ensures Chunks(Concat(lines)) == lines
    decreases |lines|
  {
    if lines != [] {
      var x, ys := lines[0], lines[1..];
      var s := Concat(lines);
      assert s == x + Concat(ys);
      assert IsLines(ys) by {
        forall i | 0 <= i < |ys|
          ensures ys[i] != [] && NewlineOnlyAtEnd(ys[i]) && (i < |ys| - 1 ==> EndsWithNewline(ys[i]))
        {
          assert ys[i] == lines[i + 1];
        }
      }
      if ys != [] {
        assert Concat(ys) == ys[0] + Concat(ys[1..]);
        assert ys[0] == lines[1];
        assert |Concat(ys)| > 0;
        assert EndsWithNewline(x);
      }
      assert s[|x| - 1] == x[|x| - 1];
      LineEndIs(s, |x|);
      assert s[..|x|] == x;
      assert s[|x|..] == Concat(ys);
      ChunksConcat(ys);
    }
  }

  /** An occurrence inside `a` stays one when text follows it. */
  lemma ContainsPrefix(a: string, b: string, p: string)
    requires Contains(a, p)
    ensures Contains(a + b, p)
  {
    var i :| 0 <= i <= |a| - |p| && OccursAt(a, p, i);
    assert (a + b)[i..i + |p|] == a[i..i + |p|];
    assert OccursAt(a + b, p, i);
  }

  /** An occurrence inside `b` stays one when text precedes it. */
  lemma ContainsSuffix(a: string, b: string, p: string)
    requires Contains(b, p)
    ensures Contains(a + b, p)
  {
    var i :| 0 <= i <= |b| - |p| && OccursAt(b, p, i);
    assert (a + b)[|a| + i..|a| + i + |p|] == b[i..i + |p|];
    assert OccursAt(a + b, p, |a| + i);
  }

  /** Whatever one written chunk contains, the written text contains. */
  lemma {:induction false} ContainsInConcat(lines: seq<string>, k: nat, p: string)
    requires k < |lines| && Contains(lines[k], p)
    ensures Contains(Concat(lines), p)
    decreases |lines|
  {
    if k == 0 {
      ContainsPrefix(lines[0], Concat(lines[1..]), p);
    } else {
      assert lines[1..][k - 1] == lines[k];
      ContainsInConcat(lines[1..], k - 1, p);
      ContainsSuffix(lines[0], Concat(lines[1..]), p);
    }
  }

  /** An occurrence of a pattern without a newline that starts inside the
      first chunk lies wholly inside it: the chunk's newline would otherwise be
      part of the occurrence. */
  lemma OccursInFirstChunk(s: string, p: string, i: nat)
    requires s != [] && '\n' !in p
    requires OccursAt(s, p, i) && i < LineEnd(s)
    ensures Contains(Chunks(s)[0], p)
  {
    var n := LineEnd(s);
    assert i + |p| <= n;
    SliceOfPrefix(s, n, i, i + |p|);
    assert OccursAt(s[..n], p, i);
  }

  /** An occurrence that starts after the first chunk is one in the rest. */
  lemma OccursInRest(s: string, p: string, i: nat)
    requires s != [] && OccursAt(s, p, i) && LineEnd(s) <= i
    ensures Contains(s[LineEnd(s)..], p)
  {
    var n := LineEnd(s);
    SliceOfSuffix(s, n, i - n, i - n + |p|);
    assert OccursAt(s[n..], p, i - n);
  }

  /** A pattern without a newline cannot straddle two chunks, so it occurs in
      the stream only inside a single chunk. */
  lemma {:induction false} OccurrenceInOneChunk(s: string, p: string)
    requires p != [] && '\n' !in p
    requires Contains(s, p)
    ensures SomeLineContains(Chunks(s), p)
    decreases |s|
  {
    var i :| 0 <= i <= |s| - |p| && OccursAt(s, p, i);
    var n := LineEnd(s);
    var cs := Chunks(s);
    if i < n {
      OccursInFirstChunk(s, p, i);
    } else {
      OccursInRest(s, p, i);
      OccurrenceInOneChunk(s[n..], p);
      var rest := Chunks(s[n..]);
      var k :| 0 <= k < |rest| && Contains(rest[k], p);
      assert cs == [s[..n]] + rest;
      assert Contains(cs[k + 1], p);
    }
  }

  /** Scanning a stream chunk by chunk for a pattern without a newline finds it
      exactly when the whole text contains it (the `grep` the program replaces). */
  lemma ScanMatchesWholeText(s: string, p: string)
    requires p != [] && '\n' !in p
    ensures SomeLineContains(Chunks(s), p) <==> Contains(s, p)
  {
    if SomeLineContains(Chunks(s), p) {
      var k :| 0 <= k < |Chunks(s)| && Contains(Chunks(s)[k], p);
      ContainsInConcat(Chunks(s), k, p);
      ConcatChunks(s);
    }
    if Contains(s, p) {
      OccurrenceInOneChunk(s, p);
    }
  }

  /** Looking for a one-character string is looking for that character. */
  lemma ContainsChar(s: string, c: char)
    ensures Contains(s, [c]) <==> c in s
  {
    if c in s {
      var i :| 0 <= i < |s| && s[i] == c;
      assert s[i..i + 1] == [c];
      assert OccursAt(s, [c], i);
    }
    if Contains(s, [c]) {
      var i :| 0 <= i <= |s| - 1 && OccursAt(s, [c], i);
      assert s[i] == s[i..i + 1][0] == c;
    }
  }
}
