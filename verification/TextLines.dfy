/** Reading text line by line through bounded reads of a file: the reader finds the end of a line whatever its length,
    and the lines of a text come out as the text split at its newlines, up to the first empty one. */
module TextLines {
  import opened Bytes
  import opened VirtualFiles

  const BUFFER_SIZE := 32
  const NEWLINE: byte := 10

  // ---- lines --------------------------------------------------------------------------------------

  /** The bytes before the first newline. */
  function FirstLine(s: seq<byte>): (r: seq<byte>)
    ensures |r| <= |s| && r == s[..|r|] && NEWLINE !in r
    ensures NEWLINE in s <==> |r| < |s|
    ensures |r| < |s| ==> s[|r|] == NEWLINE
  {
    if s == [] || s[0] == NEWLINE then [] else [s[0]] + FirstLine(s[1..])
  }

  /** The text split at every newline, its last line included. */
  function Split(s: seq<byte>): (r: seq<seq<byte>>)
    ensures r != []
  {
    var line := FirstLine(s);
    if |line| == |s| then [line] else [line] + Split(s[|line| + 1..])
  }

  /** The lines before the first empty one. */
  function NonEmptyPrefix(lines: seq<seq<byte>>): (r: seq<seq<byte>>)
    ensures r <= lines && [] !in r && (|r| < |lines| ==> lines[|r|] == [])
  {
    if lines == [] || lines[0] == [] then [] else [lines[0]] + NonEmptyPrefix(lines[1..])
  }

  function Joined(lines: seq<seq<byte>>): seq<byte>
    requires lines != []
  {
    if |lines| == 1 then lines[0] else lines[0] + [NEWLINE] + Joined(lines[1..])
  }

  lemma SplitStep(s: seq<byte>)
    ensures var line := FirstLine(s);
      Split(s) == if |line| == |s| then [line] else [line] + Split(s[|line| + 1..])
  {
  }

  lemma JoinedStep(line: seq<byte>, lines: seq<seq<byte>>)
    requires lines != []
    ensures Joined([line] + lines) == line + [NEWLINE] + Joined(lines)
  {
    assert ([line] + lines)[1..] == lines;
  }

  lemma LineThenRest(s: seq<byte>, n: nat)
    requires n < |s| && s[n] == NEWLINE
    ensures s[..n] + [NEWLINE] + s[n + 1..] == s
  {
  }

  /** Splitting is the inverse of joining with newlines. */
  lemma {:induction false} SplitJoins(s: seq<byte>)
    ensures Joined(Split(s)) == s && forall k :: 0 <= k < |Split(s)| ==> NEWLINE !in Split(s)[k]
    decreases |s|
  {
    SplitStep(s);
    hide FirstLine, Split;
    var line := FirstLine(s);
    if |line| < |s| {
      var rest := s[|line| + 1..];
      SplitJoins(rest);
      JoinedStep(line, Split(rest));
      LineThenRest(s, |line|);
      assert forall k :: 0 < k < |Split(s)| ==> Split(s)[k] == Split(rest)[k - 1];
    }
  }

  lemma {:induction false} LineIsUnique(line: seq<byte>, rest: seq<byte>)
    requires NEWLINE !in line && (rest == [] || rest[0] == NEWLINE)
    ensures FirstLine(line + rest) == line
  {
    if line == [] {
      assert line + rest == rest;
    } else {
      assert (line + rest)[1..] == line[1..] + rest;
      LineIsUnique(line[1..], rest);
    }
  }

  lemma {:induction false} SplitOfJoined(lines: seq<seq<byte>>)
    requires lines != [] && forall k :: 0 <= k < |lines| ==> NEWLINE !in lines[k]
    ensures Split(Joined(lines)) == lines
  {
    hide FirstLine, Split, Joined;
    if |lines| == 1 {
      LineIsUnique(lines[0], []);
      assert lines[0] + [] == lines[0] && lines == [lines[0]];
      JoinedOne(lines[0]);
      SplitStep(lines[0]);
    } else {
      var line, rest := lines[0], Joined(lines[1..]);
      SplitOfJoined(lines[1..]);
      assert lines == [line] + lines[1..];
      JoinedStep(line, lines[1..]);
      SplitAtLine(line, rest);
    }
  }

  lemma JoinedOne(line: seq<byte>)
    ensures Joined([line]) == line
  {
  }

  lemma SplitAtLine(line: seq<byte>, rest: seq<byte>)
    requires NEWLINE !in line
    ensures Split(line + [NEWLINE] + rest) == [line] + Split(rest)
  {
    hide FirstLine, Split;
    var s := line + [NEWLINE] + rest;
    assert s == line + ([NEWLINE] + rest);
    LineIsUnique(line, [NEWLINE] + rest);
    SplitStep(s);
    assert s[|line| + 1..] == rest;
  }

  // ---- the reader ---------------------------------------------------------------------------------

  /** The line that starts at `offset`. */
  function LineAt(c: seq<byte>, offset: nat): seq<byte> {
    if offset > |c| then [] else FirstLine(c[offset..])
  }

  /** A longer read finds the same line, once the line or the file ends in it. */
  lemma LineWithin(c: seq<byte>, offset: nat, n: nat)
    requires NEWLINE in Available(c, offset, n) || |Available(c, offset, n)| < n
    ensures FirstLine(Available(c, offset, n)) == LineAt(c, offset)
  {
    var got := Available(c, offset, n);
    if offset < |c| && |got| == n {
      var line := FirstLine(got);
      var rest := c[offset + |line|..];
      assert rest[0] == got[|line|];
      assert c[offset..] == line + rest;
      LineIsUnique(line, rest);
    } else if offset < |c| {
      assert got == c[offset..];
    }
  }

  class TextFile {
    const file: BackingFile

    constructor (file: BackingFile)
      ensures this.file == file
    {
      this.file := file;
    }

    method ReadUpTo(size: nat, offset: nat) returns (bytes: seq<byte>)
      ensures bytes == Available(file.contents, offset, size)
    {
      var buffer := new byte[size](_ => 0);
      var count := file.ReadType(buffer, 0, size, offset);
      bytes := buffer[..count];
    }

    /** Reads ever longer pieces until one holds a newline or comes up short. */
    method ReadLine(offset: nat) returns (line: seq<byte>)
      ensures line == LineAt(file.contents, offset)
    {
      hide FirstLine, LineAt;
      ghost var left := |Available(file.contents, offset, |file.contents|)|;
      var content := Zeros(BUFFER_SIZE);
      var linesize := 0;
      while NEWLINE !in content
        invariant linesize <= left + BUFFER_SIZE
        invariant if linesize == 0 then |content| == BUFFER_SIZE && NEWLINE !in content
                  else content == Available(file.contents, offset, linesize)
        decreases left + BUFFER_SIZE - linesize
      {
        if |content| < linesize {
          break;
        }
        linesize := linesize + BUFFER_SIZE;
        content := ReadUpTo(linesize, offset);
      }
      LineWithin(file.contents, offset, linesize);
      line := FirstLine(content);
    }

    /** The lines of the file up to the first empty one. */
    method GetAllLines() returns (result: seq<seq<byte>>)
      ensures result == NonEmptyPrefix(Split(file.contents))
    {
      hide FirstLine, Split, NonEmptyPrefix, LineAt, LinesFrom;
      result := [];
      var offset := 0;
      LinesFromStart(file.contents);
      while true
        invariant result + LinesFrom(file.contents, offset) == LinesFrom(file.contents, 0)
        decreases |file.contents| + 1 - offset
      {
        var line := ReadLine(offset);
        LinesFromStep(file.contents, offset);
        if line == [] {
          break;
        }
        ghost var rest := LinesFrom(file.contents, offset + |line| + 1);
        assert result + ([line] + rest) == (result + [line]) + rest;
        offset := offset + |line| + 1;
        result := result + [line];
      }
    }
  }

  function LinesFrom(c: seq<byte>, offset: nat): seq<seq<byte>> {
    if offset > |c| then [] else NonEmptyPrefix(Split(c[offset..]))
  }

  lemma LinesFromStart(c: seq<byte>)
    ensures LinesFrom(c, 0) == NonEmptyPrefix(Split(c))
  {
    assert c[0..] == c;
  }

  lemma NonEmptyPrefixStep(line: seq<byte>, lines: seq<seq<byte>>)
    ensures NonEmptyPrefix([line] + lines) == if line == [] then [] else [line] + NonEmptyPrefix(lines)
    ensures NonEmptyPrefix([line]) == if line == [] then [] else [line]
  {
    assert ([line] + lines)[1..] == lines;
    assert [line][1..] == [];
  }

  lemma LinesFromStep(c: seq<byte>, offset: nat)
    ensures var line := LineAt(c, offset);
      LinesFrom(c, offset) == if line == [] then [] else [line] + LinesFrom(c, offset + |line| + 1)
    ensures LineAt(c, offset) != [] ==> offset + |LineAt(c, offset)| <= |c|
  {
    hide FirstLine, Split, NonEmptyPrefix;
    if offset <= |c| {
      var s := c[offset..];
      var line := FirstLine(s);
      SplitStep(s);
      if |line| == |s| {
        NonEmptyPrefixStep(line, []);
      } else {
        NonEmptyPrefixStep(line, Split(s[|line| + 1..]));
        assert s[|line| + 1..] == c[offset + |line| + 1..];
      }
    }
  }
}
