/**
 The text transform at the heart of the patcher: the marker that says the sudo
 PAM stack already offers Touch ID, the directive line that adds it, and where
 that line goes among the lines of the configuration.
 */
module PamConfig {
  import opened Lines

  /** Substring whose presence on any line means "already configured". */
  const Marker: string := "pam_tid.so"

  /** The directive inserted by the patch. */
  const TidLine: string := "auth       sufficient     pam_tid.so\n"

  /** A first line containing this character is treated as a header comment. */
  const CommentMarker: char := '#'

  /** The program's test `strstr(line, "#")` is the comment-marker test. */
  lemma HeaderTest(line: string)
    ensures Contains(line, "#") <==> CommentMarker in line
  {
    ContainsChar(line, CommentMarker);
    assert "#" == [CommentMarker];
  }

  /** The marker check's verdict on the lines of a configuration. */
  predicate IsConfigured(lines: seq<string>)
  {
    SomeLineContains(lines, Marker)
  }

  /** The lines written to the staging file for the configuration `lines`: the
      directive after a first line that mentions the comment marker anywhere,
      before any other first line; nothing at all for an empty configuration. */
  function Patched(lines: seq<string>): seq<string>
  {
    if lines == [] then []
    else if CommentMarker in lines[0] then [lines[0], TidLine] + lines[1..]
    else [TidLine] + lines
  }

  /** Where the directive lands in `Patched(lines)`. */
  function InsertionIndex(lines: seq<string>): nat
  {
    if lines != [] && CommentMarker in lines[0] then 1 else 0
  }

  /** The directive itself carries the marker, and neither string holds a
      newline that could split it across lines. */
  lemma TidLineHasMarker()
    ensures Contains(TidLine, Marker)
    ensures Marker != [] && '\n' !in Marker
    ensures CommentMarker !in TidLine
  {
    assert TidLine[26..36] == Marker;
    assert OccursAt(TidLine, Marker, 26);
  }

  /** For a non-empty configuration exactly one line is added, at
      `InsertionIndex`, and deleting it gives back the input with every line
      unchanged and in its original order; an empty one stays empty. */
  lemma PatchedInsertsOneLine(lines: seq<string>)
    ensures lines == [] <==> Patched(lines) == []
    ensures lines != [] ==>
      var k := InsertionIndex(lines);
      var out := Patched(lines);
      && |out| == |lines| + 1
      && out[k] == TidLine
      && out[..k] + out[k + 1..] == lines
  {
    if lines != [] {
      var k := InsertionIndex(lines);
      var out := Patched(lines);
      if k == 1 {
        assert out[..1] + out[2..] == [lines[0]] + lines[1..] == lines;
      } else {
        assert out[1..] == lines;
      }
    }
  }

  /** Every line of the input appears in the output, shifted down by one
      from the insertion point on. */
  lemma PatchedKeepsLines(lines: seq<string>, j: nat)
    requires j < |lines|
    ensures |Patched(lines)| == |lines| + 1
    ensures Patched(lines)[if j < InsertionIndex(lines) then j else j + 1] == lines[j]
  {
    PatchedInsertsOneLine(lines);
    var k := InsertionIndex(lines);
    var out := Patched(lines);
    if j < k {
      assert lines[j] == (out[..k] + out[k + 1..])[j];
    } else {
      assert lines[j] == (out[..k] + out[k + 1..])[j];
    }
  }

  /** Once the first line has been handled, each further line read is copied
      to the end of the output unchanged. */
  lemma PatchedAppend(lines: seq<string>, line: string)
    requires lines != []
    ensures Patched(lines + [line]) == Patched(lines) + [line]
  {
    assert (lines + [line])[0] == lines[0];
    assert (lines + [line])[1..] == lines[1..] + [line];
  }

  /** What handling the line at index `i` adds to the output written so far:
      the first line brings the directive with it, on the side the comment
      marker decides; every later line is written alone. */
  lemma PatchedPrefixStep(lines: seq<string>, i: nat)
    requires i < |lines|
    ensures i == 0 && CommentMarker in lines[i] ==>
      Concat(Patched(lines[..i + 1])) == Concat(Patched(lines[..i])) + lines[i] + TidLine
    ensures i == 0 && CommentMarker !in lines[i] ==>
      Concat(Patched(lines[..i + 1])) == Concat(Patched(lines[..i])) + TidLine + lines[i]
    ensures i > 0 ==> Concat(Patched(lines[..i + 1])) == Concat(Patched(lines[..i])) + lines[i]
  {
    var line := lines[i];
    assert lines[..i + 1] == lines[..i] + [line];
    if i == 0 {
      assert lines[..1] == [line];
      ConcatAppend([line], [TidLine]);
      ConcatAppend([TidLine], [line]);
      assert Concat([line]) == line && Concat([TidLine]) == TidLine;
    } else {
      PatchedAppend(lines[..i], line);
      ConcatAppend(Patched(lines[..i]), [line]);
      assert Concat([line]) == line;
    }
  }

  /** The patch of a non-empty configuration passes the marker check. */
  lemma PatchedIsConfigured(lines: seq<string>)
    requires lines != []
    ensures IsConfigured(Patched(lines))
  {
    TidLineHasMarker();
    PatchedInsertsOneLine(lines);
    var k := InsertionIndex(lines);
    assert Contains(Patched(lines)[k], Marker);
  }

  /** What the staging file holds, as text: the directive is spliced in right
      after the first chunk when that chunk holds the comment marker, and in
      front of the whole text otherwise. */
  lemma PatchedText(s: string)
    ensures Concat(Patched(Chunks(s))) ==
      if s == [] then []
      else if CommentMarker in s[..LineEnd(s)] then s[..LineEnd(s)] + TidLine + s[LineEnd(s)..]
      else TidLine + s
  {
    var cs := Chunks(s);
    ConcatChunks(s);
    if s != [] {
      var n := LineEnd(s);
      assert cs[0] == s[..n] && cs[1..] == Chunks(s[n..]);
      ConcatChunks(s[n..]);
      if CommentMarker in s[..n] {
        ConcatAppend([cs[0], TidLine], cs[1..]);
        assert Concat([cs[0], TidLine]) == cs[0] + TidLine;
      } else {
        ConcatAppend([TidLine], cs);
      }
    }
  }

  /** The file that results from patching the text `s` and reading it back line
      by line passes the marker check, unless `s` was empty. */
  lemma PatchedFileIsConfigured(s: string)
    ensures IsConfigured(Chunks(Concat(Patched(Chunks(s))))) <==> s != []
  {
    var out := Concat(Patched(Chunks(s)));
    TidLineHasMarker();
    if s != [] {
      PatchedIsConfigured(Chunks(s));
      var k :| 0 <= k < |Patched(Chunks(s))| && Contains(Patched(Chunks(s))[k], Marker);
      ContainsInConcat(Patched(Chunks(s)), k, Marker);
      ScanMatchesWholeText(out, Marker);
    } else {
      assert out == [];
    }
  }

  /** A header that is the whole file and lacks a final newline gets the
      directive glued onto its own line: read back, the patched file is a
      single line, the comment followed by the directive. */
  lemma GluedHeader(header: string)
    requires CommentMarker in header && '\n' !in header
    ensures Chunks(Concat(Patched(Chunks(header)))) == [header + TidLine]
  {
    assert IsLines([header]);
    ChunksConcat([header]);
    assert Concat([header]) == header;
    var glued := header + TidLine;
    assert Patched([header]) == [header, TidLine];
    assert Concat([header, TidLine]) == glued;
    TidLineHasMarker();
    assert IsLines([glued]) by {
      forall j | 0 <= j < |glued| - 1 ensures glued[j] != '\n' {
        if j >= |header| {
          assert glued[j] == TidLine[j - |header|];
        } else {
          assert glued[j] == header[j];
        }
      }
    }
    ChunksConcat([glued]);
    assert Concat([glued]) == glued;
  }

  /** A header comment line keeps its place above the directive. */
  lemma HeaderExample()
    ensures Patched(["# header comment\n", "auth required pam_foo.so\n"])
         == ["# header comment\n", TidLine, "auth required pam_foo.so\n"]
  {
    assert CommentMarker == "# header comment\n"[0];
  }

  /** Without a header the directive becomes the first line. */
  lemma NoHeaderExample()
    ensures Patched(["auth required pam_foo.so\n"]) == [TidLine, "auth required pam_foo.so\n"]
  {
    var line := "auth required pam_foo.so\n";
    assert forall j | 0 <= j < |line| :: line[j] != CommentMarker;
  }
}
