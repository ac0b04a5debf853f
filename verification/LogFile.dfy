/** Reading the last line of a log file: `DefaultHandler.get_last_seq` scans
    backwards in blocks; the specification splits the whole file into lines. */
module LogFile {
  import opened Bytes

  const NEWLINE: byte := 10
  const BLOCK: nat := 1024

  /** Length of the first line, its newline included. */
  function LineEnd(b: bytes): (n: nat)
    requires b != []
    ensures 0 < n <= |b|
    ensures forall i :: 0 <= i < n - 1 ==> b[i] != NEWLINE
    ensures n == |b| || b[n - 1] == NEWLINE
  {
    if b[0] == NEWLINE || |b| == 1 then 1
    else 1 + LineEnd(b[1..])
  }

  /** f.readlines() */
  function Lines(b: bytes): (lines: seq<bytes>)
    ensures lines == [] <==> b == []
  {
    if b == [] then [] else [b[..LineEnd(b)]] + Lines(b[LineEnd(b)..])
  }

  function LastLine(b: bytes): bytes
    requires b != []
  {
    Lines(b)[|Lines(b)| - 1]
  }

  /** A line ends behind the first byte 10, or with the file. */
  lemma {:induction false} LinesSplit(line: bytes, rest: bytes)
    requires 10 !in line
    ensures Lines(line + [10] + rest) == [line + [10]] + Lines(rest)
    ensures line != [] ==> Lines(line) == [line]
  {
    var b := line + [10] + rest;
    assert b[|line|] == 10 && forall i :: 0 <= i < |line| ==> b[i] == line[i];
    assert LineEnd(b) == |line| + 1;
    assert b[..|line| + 1] == line + [10] && b[|line| + 1..] == rest;
    if line != [] {
      OneLine(line);
    }
  }

  /** block.count(b'\n') */
  function Newlines(b: bytes): nat {
    if b == [] then 0 else Newlines(b[..|b| - 1]) + if b[|b| - 1] == NEWLINE then 1 else 0
  }

  lemma {:induction false} NewlinesConcat(a: bytes, b: bytes)
    ensures Newlines(a + b) == Newlines(a) + Newlines(b)
    decreases |b|
  {
    if b == [] {
      assert a + b == a;
    } else {
      assert (a + b)[..|a + b| - 1] == a + b[..|b| - 1];
      NewlinesConcat(a, b[..|b| - 1]);
    }
  }

  lemma {:induction false} SomeNewline(b: bytes)
    requires Newlines(b) > 0
    ensures NEWLINE in b
  {
    if b[|b| - 1] != NEWLINE {
      SomeNewline(b[..|b| - 1]);
    }
  }

  // ---- what the last line is, without splitting ----

  predicate StartsLastLine(b: bytes, start: nat) {
    && start < |b|
    && (start == 0 || b[start - 1] == NEWLINE)
    && forall i :: start <= i < |b| - 1 ==> b[i] != NEWLINE
  }

  lemma {:induction false} LastLineStart(b: bytes) returns (start: nat)
    requires b != []
    ensures StartsLastLine(b, start) && LastLine(b) == b[start..]
  {
    var n := LineEnd(b);
    if n == |b| {
      OneLineLeft(b);
      start := 0;
    } else {
      var s := LastLineStart(b[n..]);
      start := n + s;
      StartShifts(b, n, s);
      LastLineOfRest(b);
      assert b[n..][s..] == b[start..];
    }
  }

  lemma OneLineLeft(b: bytes)
    requires b != [] && LineEnd(b) == |b|
    ensures LastLine(b) == b
  {
    assert b[..|b|] == b && b[|b|..] == [];
    assert Lines(b) == [b];
  }

  lemma LastLineOfRest(b: bytes)
    requires b != [] && LineEnd(b) < |b|
    ensures LastLine(b) == LastLine(b[LineEnd(b)..])
  {
    var rest := Lines(b[LineEnd(b)..]);
    assert Lines(b) == [b[..LineEnd(b)]] + rest;
  }

  lemma StartShifts(b: bytes, n: nat, s: nat)
    requires 0 < n < |b| && b[n - 1] == NEWLINE && StartsLastLine(b[n..], s)
    ensures StartsLastLine(b, n + s)
  {
    assert forall i :: n + s <= i < |b| - 1 ==> b[i] == b[n..][i - n];
  }

  lemma OneLastLine(b: bytes, s: nat, t: nat)
    requires StartsLastLine(b, s) && StartsLastLine(b, t)
    ensures s == t
  {
  }

  /** A suffix with a newline before its last byte has the file's last line. */
  lemma SuffixHasLastLine(b: bytes, k: nat)
    requires k < |b|
    requires k == 0 || NEWLINE in b[k..|b| - 1]
    ensures LastLine(b[k..]) == LastLine(b)
  {
    if k == 0 {
      assert b[k..] == b;
    } else {
      var suffix := b[k..];
      var s := LastLineStart(b);
      var t := LastLineStart(suffix);
      assert forall i :: k + t <= i < |b| - 1 ==> b[i] == suffix[i - k];
      assert StartsLastLine(b, k + t);
      OneLastLine(b, s, k + t);
      assert suffix[t..] == b[k + t..];
    }
  }

  lemma TwoNewlines(b: bytes)
    requires Newlines(b) >= 2
    ensures NEWLINE in b[..|b| - 1]
  {
    SomeNewline(b[..|b| - 1]);
  }

  /** Appending a line to a file that is empty or ends in a newline. */
  lemma {:induction false} LinesAppend(b: bytes, line: bytes)
    requires b == [] || b[|b| - 1] == NEWLINE
    requires line != [] && forall i :: 0 <= i < |line| - 1 ==> line[i] != NEWLINE
    ensures Lines(b + line) == Lines(b) + [line]
    decreases |b|
  {
    if b == [] {
      assert b + line == line;
      OneLine(line);
    } else {
      var m := LineEnd(b);
      LineEndAppend(b, line);
      assert (b + line)[..m] == b[..m] && (b + line)[m..] == b[m..] + line;
      LinesAppend(b[m..], line);
    }
  }

  lemma OneLine(line: bytes)
    requires line != [] && forall i :: 0 <= i < |line| - 1 ==> line[i] != NEWLINE
    ensures Lines(line) == [line]
  {
    assert line[LineEnd(line)..] == [] && line[..LineEnd(line)] == line;
  }

  lemma LineEndAppend(b: bytes, line: bytes)
    requires b != [] && b[|b| - 1] == NEWLINE
    ensures LineEnd(b + line) == LineEnd(b)
  {
    var c := b + line;
    assert forall i :: 0 <= i < |b| ==> c[i] == b[i];
  }

  // ---- the scan ----

  /** A file opened for reading, with its position. */
  class PyFile {
    const data: bytes
    var pos: nat

    constructor (data: bytes)
      ensures this.data == data && pos == 0
    {
      this.data, pos := data, 0;
    }

    /** f.seek(-back, 2) */
    method SeekFromEnd(back: nat)
      requires back <= |data|
      modifies this
      ensures pos == |data| - back
    {
      pos := |data| - back;
    }

    /** f.read(n), which stops at the end of the file */
    method Read(n: nat) returns (block: bytes)
      requires pos <= |data|
      modifies this
      ensures block == Slice(data, old(pos), old(pos) + n)
      ensures pos == old(pos) + |block|
    {
      block := Slice(data, pos, pos + n);
      pos := pos + |block|;
    }
  }

  /** The last `scanned` bytes. */
  function Suffix(content: bytes, scanned: nat): bytes
    requires scanned <= |content|
  {
    content[|content| - scanned..]
  }

  lemma OneMoreBlock(content: bytes, scanned: nat, n: nat)
    requires scanned + n <= |content|
    ensures Newlines(Suffix(content, scanned + n))
         == Newlines(Slice(content, |content| - scanned - n, |content| - scanned)) + Newlines(Suffix(content, scanned))
  {
    var block := Slice(content, |content| - scanned - n, |content| - scanned);
    assert Suffix(content, scanned + n) == block + Suffix(content, scanned);
    NewlinesConcat(block, Suffix(content, scanned));
  }

  /** Reading a block counts at most the newlines of the longer suffix, unless the
      block is short and completes the file. */
  lemma BlockCounted(content: bytes, scanned: nat, n: nat, found: nat)
    requires scanned + n <= |content| && (n == BLOCK || scanned + n == |content|)
    requires found <= Newlines(Suffix(content, scanned)) || scanned == |content|
    requires scanned < |content|
    ensures var start := |content| - (scanned + n);
      found + Newlines(Slice(content, start, start + BLOCK)) <= Newlines(Suffix(content, scanned + n))
      || scanned + n == |content|
  {
    if scanned + n < |content| {
      OneMoreBlock(content, scanned, n);
    }
  }

  /** A scan may stop once it has the whole file, or two newlines. */
  lemma EnoughScanned(content: bytes, scanned: nat)
    requires 0 < scanned <= |content|
    requires scanned == |content| || Newlines(Suffix(content, scanned)) >= 2
    ensures LastLine(Suffix(content, scanned)) == LastLine(content)
  {
    var k := |content| - scanned;
    if k > 0 {
      TwoNewlines(content[k..]);
      assert content[k..][..scanned - 1] == content[k..|content| - 1];
    }
    SuffixHasLastLine(content, k);
  }

  /** The backward scan: how many bytes from the end to read for the last line.
      `f.read(1024)` on a short block reads past it and counts some newlines twice;
      a short block is always the one that completes the file. */
  method ScanBack(f: PyFile) returns (scanned: nat)
    modifies f
    ensures scanned <= |f.data| && (f.data != [] ==> scanned > 0)
    ensures scanned == |f.data| || Newlines(Suffix(f.data, scanned)) >= 2
  {
    f.SeekFromEnd(0);
    var bytesInFile := f.pos;
    var linesFound: nat := 0;
    scanned := 0;
    while 2 > linesFound && bytesInFile > scanned
      invariant scanned <= bytesInFile == |f.data|
      invariant linesFound > 0 ==> scanned > 0
      invariant linesFound <= Newlines(Suffix(f.data, scanned)) || scanned == bytesInFile
      decreases bytesInFile - scanned
    {
      var byteBlock := if BLOCK < bytesInFile - scanned then BLOCK else bytesInFile - scanned;
      BlockCounted(f.data, scanned, byteBlock, linesFound);
      f.SeekFromEnd(byteBlock + scanned);
      scanned := scanned + byteBlock;
      var block := f.Read(BLOCK);
      linesFound := linesFound + Newlines(block);
    }
  }

  /** line_list[-1:][0] */
  function LastOf(lineList: seq<bytes>): Result<bytes> {
    if lineList == [] then Raise else Ok(lineList[|lineList| - 1])
  }

  /** The last line of a file, by splitting all of it. */
  function WholeFileLast(content: bytes): Result<bytes> {
    LastOf(Lines(content))
  }

  lemma ScanDecides(content: bytes, scanned: nat)
    requires scanned <= |content| && (content != [] ==> scanned > 0)
    requires scanned == |content| || Newlines(Suffix(content, scanned)) >= 2
    ensures WholeFileLast(Suffix(content, scanned)) == WholeFileLast(content)
    ensures WholeFileLast(content) == if content == [] then Raise else Ok(LastLine(content))
  {
    if content != [] {
      EnoughScanned(content, scanned);
    }
  }

  /** The last line as `get_last_seq` finds it, up to `eval`. */
  method ScanLastLine(content: bytes) returns (r: Result<bytes>)
    ensures r == if content == [] then Raise else Ok(LastLine(content))
  {
    var f := new PyFile(content);
    var scanned := ScanBack(f);
    ScanDecides(content, scanned);
    f.SeekFromEnd(scanned);
    r := WholeFileLast(content[f.pos..]);
  }
}
