/** The bounded-buffer backward reader: the file is read in chunks of at
    most `bufSize` characters from the end towards the start, and the
    leftmost, usually partial, fragment of each chunk is carried to the next
    chunk read. The file is an in-memory text here. */
module ReverseReader {
  import opened Wrappers
  import opened Lines

  /** The buffer size the scan uses (`buf_size=8192`). */
  const DefaultBufSize: nat := 8192

  function Min(a: int, b: int): int { if a <= b then a else b }

  /** Yields the lines of `content` from the last to the first. Reversing
      what it yields and dropping empty strings gives exactly the non-empty
      newline-separated fragments of the file, in file order; an empty file
      yields nothing. */
  method ReverseReadline(content: string, bufSize: nat) returns (out: seq<string>)
    requires bufSize > 0
    ensures NonEmpty(Reverse(out)) == NonEmpty(Split(content))
    ensures content == [] ==> out == []
  {
    var segment: Option<string> := None;
    var offset: int := 0;
    var fileSize := |content|;
    var remainingSize: int := fileSize;
    out := [];
    while remainingSize > 0
      invariant 0 <= offset <= fileSize
      invariant remainingSize > 0 ==> offset == fileSize - remainingSize
      invariant remainingSize <= 0 ==> offset == fileSize
      invariant segment.None? <==> offset == 0
      invariant segment.None? ==> out == []
      invariant segment.Some? ==> segment.value == Split(content[fileSize - offset..])[0]
      invariant NonEmpty(Reverse(out)) == NonEmpty(Split(content[fileSize - offset..])[1..])
      decreases remainingSize
    {
      ghost var rest := content[fileSize - offset..];
      ghost var outBefore := out;
      ghost var segBefore := segment;
      offset := Min(fileSize, offset + bufSize);
      var pos := fileSize - offset;
      var buffer := content[pos..pos + Min(remainingSize, bufSize)];
      remainingSize := remainingSize - bufSize;
      assert content[pos..] == buffer + rest;
      var lines := Split(buffer);
      ghost var pieces := lines;
      if segment.Some? {
        if buffer[|buffer| - 1] != '\n' {
          lines := lines[..|lines| - 1] + [lines[|lines| - 1] + segment.value];
        } else {
          out := out + [segment.value];
        }
      }
      segment := Some(lines[0]);
      var yielded := YieldChunkLines(lines);
      out := out + yielded;
      ChunkStep(buffer, rest, segBefore, pieces, lines, outBefore, out);
    }
    assert content[fileSize - offset..] == content;
    if segment.Some? {
      assert NonEmpty(Reverse(out + [segment.value])) == NonEmpty(Split(content)) by {
        ReverseAppend(out, [segment.value]);
        var s := Split(content);
        assert s == [s[0]] + s[1..];
        NonEmptyAppend([s[0]], s[1..]);
        NonEmptyAppend([segment.value], Reverse(out));
      }
      out := out + [segment.value];
    }
  }

  /** One chunk read: the fragments of the chunk, with the segment
      carried from the text after it, are the fragments of the chunk
      followed by that text. */
  lemma ChunkStep(buffer: string, rest: string, seg: Option<string>, pieces: seq<string>,
                  lines: seq<string>, outBefore: seq<string>, out: seq<string>)
    requires buffer != [] && pieces == Split(buffer)
    requires seg.None? ==> rest == [] && outBefore == []
    requires seg.Some? ==> seg.value == Split(rest)[0]
    requires NonEmpty(Reverse(outBefore)) == NonEmpty(Split(rest)[1..])
    requires lines == if seg.Some? && buffer[|buffer| - 1] != '\n'
      then pieces[..|pieces| - 1] + [pieces[|pieces| - 1] + seg.value] else pieces
    requires |lines| >= 1
    requires out == outBefore + (if seg.Some? && buffer[|buffer| - 1] == '\n' then [seg.value] else [])
                    + Reverse(NonEmpty(lines[1..]))
    ensures lines[0] == Split(buffer + rest)[0]
    ensures NonEmpty(Reverse(out)) == NonEmpty(Split(buffer + rest)[1..])
  {
    if seg.None? {
      assert buffer + rest == buffer;
      assert out == Reverse(NonEmpty(pieces[1..]));
      FirstChunk(buffer, pieces, out);
    } else if buffer[|buffer| - 1] != '\n' {
      JoinedChunk(buffer, rest, pieces, lines, outBefore, out);
    } else {
      BoundaryChunk(buffer, rest, pieces, outBefore, out);
    }
  }

  /** The first chunk read (nothing carried yet): its fragments are the
      fragments of the text read so far. */
  lemma FirstChunk(buffer: string, pieces: seq<string>, out: seq<string>)
    requires pieces == Split(buffer) && out == Reverse(NonEmpty(pieces[1..]))
    ensures NonEmpty(Reverse(out)) == NonEmpty(pieces[1..])
  {
    NonEmptyIdempotent(pieces[1..]);
    ReverseReverse(NonEmpty(pieces[1..]));
  }

  lemma JoinedChunk(buffer: string, rest: string, pieces: seq<string>, lines: seq<string>,
                    outBefore: seq<string>, out: seq<string>)
    requires buffer != [] && pieces == Split(buffer) && buffer[|buffer| - 1] != '\n'
    requires NonEmpty(Reverse(outBefore)) == NonEmpty(Split(rest)[1..])
    requires lines == pieces[..|pieces| - 1] + [pieces[|pieces| - 1] + Split(rest)[0]]
    requires out == outBefore + [] + Reverse(NonEmpty(lines[1..]))
    ensures lines[0] == Split(buffer + rest)[0]
    ensures NonEmpty(Reverse(out)) == NonEmpty(Split(buffer + rest)[1..])
  {
    SplitAppend(buffer, rest);
    assert outBefore + [] == outBefore;
    JoinedStep(Split(rest), pieces, lines, outBefore, out, Split(rest)[0]);
  }

  lemma BoundaryChunk(buffer: string, rest: string, pieces: seq<string>,
                      outBefore: seq<string>, out: seq<string>)
    requires buffer != [] && pieces == Split(buffer) && buffer[|buffer| - 1] == '\n'
    requires NonEmpty(Reverse(outBefore)) == NonEmpty(Split(rest)[1..])
    requires out == outBefore + [Split(rest)[0]] + Reverse(NonEmpty(pieces[1..]))
    ensures pieces[0] == Split(buffer + rest)[0]
    ensures NonEmpty(Reverse(out)) == NonEmpty(Split(buffer + rest)[1..])
  {
    SplitAppend(buffer, rest);
    EndsWithNewline(buffer);
    BoundaryStep(Split(rest), pieces, outBefore, out, Split(rest)[0]);
  }

  /** The inner loop of the backward read: the complete lines of a chunk
      (every fragment but the first), last first, skipping empty ones. */
  method YieldChunkLines(lines: seq<string>) returns (out: seq<string>)
    requires |lines| >= 1
    ensures out == Reverse(NonEmpty(lines[1..]))
  {
    out := [];
    var index := |lines| - 1;
    while index > 0
      invariant 0 <= index < |lines|
      invariant out == Reverse(NonEmpty(lines[index + 1..]))
    {
      YieldStep(lines, index);
      if |lines[index]| > 0 {
        out := out + [lines[index]];
      }
      index := index - 1;
    }
  }

  /** Yielding the line at `index` (when it is not empty) extends the
      reversed, filtered suffix from `index + 1` to the one from `index`. */
  lemma YieldStep(lines: seq<string>, index: nat)
    requires index < |lines|
    ensures Reverse(NonEmpty(lines[index..])) ==
      Reverse(NonEmpty(lines[index + 1..])) + (if lines[index] != [] then [lines[index]] else [])
  {
    var x := lines[index];
    var h: seq<string> := if x != [] then [x] else [];
    assert lines[index..][1..] == lines[index + 1..];
    assert NonEmpty(lines[index..]) == h + NonEmpty(lines[index + 1..]);
    ReverseAppend(h, NonEmpty(lines[index + 1..]));
    assert Reverse(h) == h;
  }

  /** The chunk does not end on a line break: the carried segment is glued
      to the chunk's last fragment. */
  lemma JoinedStep(s: seq<string>, pieces: seq<string>, lines: seq<string>,
                   outBefore: seq<string>, out: seq<string>, seg: string)
    requires |s| >= 1 && |pieces| >= 1 && seg == s[0]
    requires NonEmpty(Reverse(outBefore)) == NonEmpty(s[1..])
    requires lines == pieces[..|pieces| - 1] + [pieces[|pieces| - 1] + seg]
    requires out == outBefore + Reverse(NonEmpty(lines[1..]))
    ensures lines[0] == Fuse(pieces, s)[0]
    ensures NonEmpty(Reverse(out)) == NonEmpty(Fuse(pieces, s)[1..])
  {
    var f := Fuse(pieces, s);
    var tail := Reverse(NonEmpty(lines[1..]));
    NonEmptyIdempotent(lines[1..]);
    ReverseReverse(NonEmpty(lines[1..]));
    assert f == lines + s[1..];
    assert f[1..] == lines[1..] + s[1..];
    ReverseAppend(outBefore, tail);
    NonEmptyAppend(Reverse(tail), Reverse(outBefore));
    NonEmptyAppend(lines[1..], s[1..]);
  }

  /** The chunk ends on a line break: the carried segment is a whole line
      and is yielded on its own. */
  lemma BoundaryStep(s: seq<string>, pieces: seq<string>,
                     outBefore: seq<string>, out: seq<string>, seg: string)
    requires |s| >= 1 && |pieces| >= 2 && seg == s[0] && pieces[|pieces| - 1] == []
    requires NonEmpty(Reverse(outBefore)) == NonEmpty(s[1..])
    requires out == outBefore + [seg] + Reverse(NonEmpty(pieces[1..]))
    ensures pieces[0] == Fuse(pieces, s)[0]
    ensures NonEmpty(Reverse(out)) == NonEmpty(Fuse(pieces, s)[1..])
  {
    BoundaryYielded(s, pieces, outBefore, out, seg);
    BoundaryFragments(s, pieces, seg);
  }

  lemma BoundaryYielded(s: seq<string>, pieces: seq<string>,
                        outBefore: seq<string>, out: seq<string>, seg: string)
    requires |s| >= 1 && |pieces| >= 2 && pieces[|pieces| - 1] == []
    requires NonEmpty(Reverse(outBefore)) == NonEmpty(s[1..])
    requires out == outBefore + [seg] + Reverse(NonEmpty(pieces[1..]))
    ensures NonEmpty(Reverse(out)) ==
      NonEmpty(pieces[1..|pieces| - 1]) + NonEmpty([seg]) + NonEmpty(s[1..])
  {
    var mid := pieces[1..|pieces| - 1];
    var rest := Reverse(outBefore);
    assert NonEmpty(pieces[1..]) == NonEmpty(mid) by {
      assert pieces[1..] == mid + [[]];
      NonEmptyAppend(mid, [[]]);
      assert NonEmpty([[]]) == [];
    }
    assert Reverse(out) == NonEmpty(mid) + [seg] + rest by {
      var tail := Reverse(NonEmpty(pieces[1..]));
      ReverseAppend(outBefore + [seg], tail);
      ReverseAppend(outBefore, [seg]);
      assert Reverse([seg]) == [seg];
      ReverseReverse(NonEmpty(pieces[1..]));
    }
    NonEmptyAppend(NonEmpty(mid) + [seg], rest);
    NonEmptyAppend(NonEmpty(mid), [seg]);
    NonEmptyIdempotent(mid);
  }

  lemma BoundaryFragments(s: seq<string>, pieces: seq<string>, seg: string)
    requires |s| >= 1 && |pieces| >= 2 && seg == s[0] && pieces[|pieces| - 1] == []
    ensures pieces[0] == Fuse(pieces, s)[0]
    ensures NonEmpty(Fuse(pieces, s)[1..]) ==
      NonEmpty(pieces[1..|pieces| - 1]) + NonEmpty([seg]) + NonEmpty(s[1..])
  {
    var n := |pieces|;
    var f := Fuse(pieces, s);
    var mid := pieces[1..n - 1];
    assert f[1..] == mid + [seg] + s[1..] by {
      assert [] + seg == seg;
      assert pieces[..n - 1] == [pieces[0]] + mid;
      assert f == [pieces[0]] + (mid + [seg] + s[1..]);
    }
    NonEmptyAppend(mid + [seg], s[1..]);
    NonEmptyAppend(mid, [seg]);
  }
}
