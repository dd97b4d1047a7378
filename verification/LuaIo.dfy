/**
 * The buffered readers of Lua's io library (code/morgue/liolib.cc): read_line collects a line from fgets
 * chunks that end at a NUL byte or a newline, read_chars collects a count of bytes from fread chunks.
 */
module LuaIo {

  const NUL: char := '\0'
  const EOL: char := '\n'

  // ----- the C library -----

  /** How many characters fgets takes: up to a newline, `max`, or the end of the file. */
  function FgetsCount(s: string, max: nat): (n: nat)
    ensures n <= |s| && n <= max
    ensures s != "" && max > 0 ==> n > 0
    ensures forall i :: 0 <= i < n - 1 ==> s[i] != EOL
    ensures n == |s| || n == max || (n > 0 && s[n - 1] == EOL)
  {
    if s == "" || max == 0 then 0
    else if s[0] == EOL then 1
    else 1 + FgetsCount(s[1..], max - 1)
  }

  /** strlen of a NUL-terminated buffer that holds the chunk. */
  function Strlen(chunk: string): (n: nat)
    ensures n <= |chunk|
    ensures NUL !in chunk[..n]
    ensures n < |chunk| ==> chunk[n] == NUL
  {
    if chunk == "" || chunk[0] == NUL then 0 else
      var n := 1 + Strlen(chunk[1..]);
      assert chunk[..n] == [chunk[0]] + chunk[1..][..n - 1];
      n
  }

  // ----- read_line -----

  /** What a reader returns: the string pushed, what is left of the file, and the success flag. */
  datatype Read = Read(text: string, rest: string, ok: bool)

  /** The loop of read_line, with what it has collected so far. */
  function ReadLineLoop(collected: string, s: string, size: nat): (r: Read)
    requires size > 1
    decreases |s|
  {
    if s == "" then Read(collected, "", collected != "")
    else
      var n := FgetsCount(s, size - 1);
      var l := Strlen(s[..n]);
      if l == 0 || s[l - 1] != EOL then ReadLineLoop(collected + s[..l], s[n..], size)
      else Read(collected + s[..l - 1], s[n..], true)
  }

  /** One round of the loop. */
  lemma LoopRound(collected: string, s: string, size: nat)
    requires size > 1
    ensures s == "" ==> ReadLineLoop(collected, s, size) == Read(collected, "", collected != "")
    ensures s != "" ==>
      var n := FgetsCount(s, size - 1);
      var l := Strlen(s[..n]);
      ReadLineLoop(collected, s, size) ==
        if l == 0 || s[..n][l - 1] != EOL then ReadLineLoop(collected + s[..n][..l], s[n..], size)
        else Read(collected + s[..n][..l - 1], s[n..], true)
  {
    if s != "" {
      var n := FgetsCount(s, size - 1);
      var l := Strlen(s[..n]);
      assert s[..n][..l] == s[..l];
      assert l > 0 ==> s[..n][..l - 1] == s[..l - 1];
    }
  }

  function LineLength(s: string): (n: nat)
    ensures n <= |s| && EOL !in s[..n]
    ensures n < |s| ==> s[n] == EOL
  {
    if s == "" || s[0] == EOL then 0 else
      var n := 1 + LineLength(s[1..]);
      assert s[..n] == [s[0]] + s[1..][..n - 1];
      n
  }

  /** The reference: the text before the first newline, and what follows that newline. */
  function OneLine(s: string): Read {
    var n := LineLength(s);
    Read(s[..n], if n < |s| then s[n + 1..] else "", s != "")
  }

  lemma {:induction false} NoNulInResult(collected: string, s: string, size: nat)
    requires size > 1 && NUL !in collected
    ensures NUL !in ReadLineLoop(collected, s, size).text
    decreases |s|
  {
    if s != "" {
      var n := FgetsCount(s, size - 1);
      var l := Strlen(s[..n]);
      assert s[..n][..l] == s[..l];
      if l == 0 || s[l - 1] != EOL {
        NoNulInResult(collected + s[..l], s[n..], size);
      } else {
        assert forall c :: c in s[..l - 1] ==> c in s[..l];
      }
    }
  }

  /** On a line without NUL the chunks make no difference. */
  lemma {:induction false} LoopReadsLine(collected: string, s: string, size: nat)
    requires size > 1 && NUL !in s[..LineLength(s)]
    ensures var one := OneLine(s);
      ReadLineLoop(collected, s, size) == Read(collected + one.text, one.rest, s != "" || collected != "")
    decreases |s|
  {
    hide FgetsCount, Strlen, ReadLineLoop, LineLength;
    LoopRound(collected, s, size);
    if s != "" {
      var (n, line) := (FgetsCount(s, size - 1), LineLength(s));
      ChunkOfLine(s, size - 1);
      assert s[..n][..n] == s[..n];
      if n == line + 1 {
        assert s[..n][..n - 1] == s[..line];
      } else {
        LineAfterChunk(s, n);
        assert s[n..][..line - n] == s[..line][n..];
        LoopReadsLine(collected + s[..n], s[n..], size);
        PieceOfLine(s, n);
        assert collected + s[..n] + OneLine(s[n..]).text == collected + OneLine(s).text;
      }
    }
  }

  lemma CutWithin(s: string, n: nat, line: nat)
    requires n <= line <= |s|
    ensures s[..n] + s[n..][..line - n] == s[..line]
    ensures line < |s| ==> s[n..][line - n + 1..] == s[line + 1..]
  {
    assert s[n..][..line - n] == s[n..line];
  }

  /** Cutting a piece off a line. */
  lemma PieceOfLine(s: string, n: nat)
    requires n <= LineLength(s)
    ensures s[..n] + OneLine(s[n..]).text == OneLine(s).text && OneLine(s[n..]).rest == OneLine(s).rest
  {
    hide LineLength;
    LineAfterChunk(s, n);
    var line := LineLength(s);
    CutWithin(s, n, line);
  }

  /** A chunk of a line without NUL is a piece of the line, or its last piece with the newline. */
  lemma ChunkOfLine(s: string, max: nat)
    requires s != "" && max > 0 && NUL !in s[..LineLength(s)]
    ensures var (n, line) := (FgetsCount(s, max), LineLength(s));
      && (n <= line || (n == line + 1 && s[n - 1] == EOL))
      && Strlen(s[..n]) == n
      && (n <= line ==> s[n - 1] != EOL)
  {
    var (n, line) := (FgetsCount(s, max), LineLength(s));
    FgetsStaysInLine(s, max);
    forall i | 0 <= i < n ensures s[i] != NUL {
      assert i < line ==> s[i] == s[..line][i];
    }
    StrlenWithoutNul(s[..n]);
    assert forall i :: 0 <= i < line ==> s[i] == s[..line][i];
  }

  lemma {:induction false} FgetsStaysInLine(s: string, max: nat)
    ensures FgetsCount(s, max) <= LineLength(s) + 1
  {
    if s != "" && max > 0 && s[0] != EOL {
      FgetsStaysInLine(s[1..], max - 1);
    }
  }

  lemma {:induction false} StrlenWithoutNul(s: string)
    requires forall i :: 0 <= i < |s| ==> s[i] != NUL
    ensures Strlen(s) == |s|
  {
    if s != "" {
      StrlenWithoutNul(s[1..]);
    }
  }

  lemma {:induction false} LineAfterChunk(s: string, n: nat)
    requires n <= LineLength(s)
    ensures LineLength(s[n..]) == LineLength(s) - n
    decreases n
  {
    if n > 0 {
      assert s[..LineLength(s)][0] == s[0];
      LineAfterChunk(s[1..], n - 1);
      assert s[1..][n - 1..] == s[n..];
    } else {
      assert s[0..] == s;
    }
  }

  /**
   * read_line returns the text up to the newline and moves past it, with any buffer size, exactly when
   * the line has no NUL byte; a NUL loses the rest of its chunk, and a newline there with it.
   */
  lemma ReadLineIff(s: string, size: nat)
    requires size > 1
    ensures ReadLineLoop("", s, size) == OneLine(s) <==> NUL !in s[..LineLength(s)]
  {
    if NUL !in s[..LineLength(s)] {
      LoopReadsLine("", s, size);
      assert "" + OneLine(s).text == OneLine(s).text;
    } else {
      NoNulInResult("", s, size);
    }
  }

  /**
   * What a NUL does: the rest of its line is lost with the newline, so the line after it is glued on. The
   * buffer holds all of the first line.
   */
  lemma NulGluesLines(a: string, b: string, rest: string, size: nat)
    requires NUL !in a && EOL !in a && EOL !in b && size > |a| + |b| + 2
    ensures ReadLineLoop("", a + [NUL] + b + [EOL] + rest, size) == ReadLineLoop(a, rest, size)
    ensures NUL !in rest[..LineLength(rest)] ==>
      ReadLineLoop("", a + [NUL] + b + [EOL] + rest, size).text == a + OneLine(rest).text
  {
    hide FgetsCount, Strlen, ReadLineLoop, LineLength;
    var s := a + [NUL] + b + [EOL] + rest;
    var n := |a| + |b| + 2;
    LoopRound("", s, size);
    TakesLine(s, size - 1, n);
    assert s[..n] == a + [NUL] + b + [EOL] && s[n..] == rest;
    LengthBeforeNul(s[..n], |a|);
    assert "" + s[..n][..|a|] == a && (|a| > 0 ==> s[..n][|a| - 1] == a[|a| - 1]);
    if NUL !in rest[..LineLength(rest)] {
      LoopReadsLine(a, rest, size);
    }
  }

  /** fgets takes a whole line that fits. */
  lemma {:induction false} TakesLine(s: string, max: nat, n: nat)
    requires 0 < n <= |s| && n <= max && s[n - 1] == EOL && forall i :: 0 <= i < n - 1 ==> s[i] != EOL
    ensures FgetsCount(s, max) == n
  {
    if n > 1 {
      TakesLine(s[1..], max - 1, n - 1);
    }
  }

  lemma {:induction false} LengthBeforeNul(chunk: string, n: nat)
    requires n < |chunk| && chunk[n] == NUL && forall i :: 0 <= i < n ==> chunk[i] != NUL
    ensures Strlen(chunk) == n
  {
    if n > 0 {
      LengthBeforeNul(chunk[1..], n - 1);
    }
  }

  // ----- all lines -----

  /** A successful read_line has taken something. */
  lemma {:induction false} OkConsumes(collected: string, s: string, size: nat)
    requires size > 1
    ensures var r := ReadLineLoop(collected, s, size);
      |r.rest| <= |s| && (r.ok && collected == "" ==> |r.rest| < |s|)
    decreases |s|
  {
    if s != "" {
      var n := FgetsCount(s, size - 1);
      var l := Strlen(s[..n]);
      if l == 0 || s[l - 1] != EOL {
        OkConsumes(collected + s[..l], s[n..], size);
      }
    }
  }

  /** What `for line in io.lines()` goes through: read_line until it fails. */
  function AllLines(s: string, size: nat): seq<string>
    requires size > 1
    decreases |s|
  {
    var r := ReadLineLoop("", s, size);
    OkConsumes("", s, size);
    if r.ok then [r.text] + AllLines(r.rest, size) else []
  }

  function Unlines(lines: seq<string>): string {
    if lines == [] then "" else lines[0] + [EOL] + Unlines(lines[1..])
  }

  /** A text with a newline at its end, if it has any lines. */
  function Closed(s: string): string {
    if s == "" || s[|s| - 1] == EOL then s else s + [EOL]
  }

  /** Writing the lines back with a newline each gives the file, up to a missing newline at its end. */
  lemma {:induction false} LinesRoundTrip(s: string, size: nat)
    requires size > 1 && NUL !in s
    ensures Unlines(AllLines(s, size)) == Closed(s)
    decreases |s|
  {
    hide ReadLineLoop, Closed, LineLength, OneLine, AllLines;
    NextLine(s, size);
    ClosedCut(s);
    if s != "" {
      LinesRoundTrip(OneLine(s).rest, size);
      UnlinesMore(OneLine(s).text, AllLines(OneLine(s).rest, size));
    }
  }

  /** And none of the lines has a newline in it, so they are the lines of the file. */
  lemma {:induction false} LinesAreLines(s: string, size: nat, i: nat)
    requires size > 1 && NUL !in s && i < |AllLines(s, size)|
    ensures EOL !in AllLines(s, size)[i]
    decreases |s|
  {
    hide ReadLineLoop, LineLength, OneLine, AllLines;
    NextLine(s, size);
    if i > 0 {
      LinesAreLines(OneLine(s).rest, size, i - 1);
    }
  }

  lemma NextLine(s: string, size: nat)
    requires size > 1 && NUL !in s
    ensures var r := OneLine(s);
      if s == "" then AllLines(s, size) == []
      else |r.rest| < |s| && NUL !in r.rest && EOL !in r.text && AllLines(s, size) == [r.text] + AllLines(r.rest, size)
  {
    hide ReadLineLoop, LineLength;
    var n := LineLength(s);
    assert forall c :: c in s[..n] ==> c in s;
    ReadLineIff(s, size);
    OkConsumes("", s, size);
    assert n < |s| ==> forall c :: c in s[n + 1..] ==> c in s;
  }

  lemma ClosedCut(s: string)
    ensures var r := OneLine(s);
      Closed(s) == if s == "" then "" else r.text + [EOL] + Closed(r.rest)
  {
    hide LineLength;
    var n := LineLength(s);
    if n < |s| {
      CutAtNewline(s, n);
    } else if s != "" {
      assert s[|s| - 1] in s[..n];
    }
  }

  /** Cutting a text at a newline. */
  lemma CutAtNewline(s: string, n: nat)
    requires n < |s| && s[n] == EOL
    ensures s == s[..n] + [EOL] + s[n + 1..]
    ensures s[|s| - 1] == if n + 1 == |s| then EOL else s[n + 1..][|s| - n - 2]
  {
  }

  lemma UnlinesMore(line: string, lines: seq<string>)
    ensures Unlines([line] + lines) == line + [EOL] + Unlines(lines) && Unlines([]) == ""
  {
  }

  // ----- read_chars -----

  /** The reference: the next n characters, or as many as there are. */
  function Chars(s: string, n: nat): Read {
    var k := if n <= |s| then n else |s|;
    Read(s[..k], s[k..], n == 0 || s != "")
  }

  /** Reading a and then b characters is reading a + b, cut at a. */
  lemma CharsSplit(s: string, a: nat, b: nat)
    ensures var (first, whole) := (Chars(s, a), Chars(s, a + b));
      first.text + Chars(first.rest, b).text == whole.text && Chars(first.rest, b).rest == whole.rest
  {
    var first := Chars(s, a);
    if a + b <= |s| {
      assert s[a..][..b] == s[a..a + b];
      assert s[a..][b..] == s[a + b..];
    } else if a <= |s| {
      assert s[a..][..|s| - a] == s[a..];
    }
  }

  // ----- the file -----

  class File {
    const content: string
    var pos: nat

    ghost predicate Valid()
      reads this
    {
      pos <= |content|
    }

    constructor (content: string)
      ensures Valid() && this.content == content && pos == 0
    {
      this.content, pos := content, 0;
    }

    function Rest(): string
      requires Valid()
      reads this
    {
      content[pos..]
    }

    /** fgets into a buffer of the given size; `null` for its NULL result. */
    method Fgets(size: nat) returns (chunk: string, isNull: bool)
      requires Valid() && size > 1
      modifies this
      ensures Valid() && (isNull <==> old(Rest()) == "")
      ensures var n := FgetsCount(old(Rest()), size - 1); chunk == old(Rest())[..n] && Rest() == old(Rest())[n..]
    {
      var n := FgetsCount(Rest(), size - 1);
      isNull := pos == |content|;
      chunk := content[pos..pos + n];
      pos := pos + n;
    }

    method Fread(n: nat) returns (chunk: string)
      requires Valid()
      modifies this
      ensures Valid() && pos == old(pos) + |chunk| && chunk == content[old(pos)..pos]
      ensures |chunk| == if n <= |content| - old(pos) then n else |content| - old(pos)
    {
      var k := if n <= |content| - pos then n else |content| - pos;
      chunk := content[pos..pos + k];
      pos := pos + k;
    }

    /** The buffer must have room for more than the terminating NUL, or no round of the loop would take anything. */
    method ReadLine(size: nat) returns (text: string, ok: bool)
      requires Valid() && size > 1
      modifies this
      ensures Valid() && Read(text, Rest(), ok) == ReadLineLoop("", old(Rest()), size)
    {
      hide FgetsCount, Strlen, ReadLineLoop;
      ghost var s := Rest();
      text := "";
      while true
        invariant Valid()
        invariant ReadLineLoop(text, Rest(), size) == ReadLineLoop("", s, size)
        decreases |Rest()|
      {
        LoopRound(text, Rest(), size);
        var p, isNull := Fgets(size);
        if isNull {
          return text, |text| > 0;
        }
        var l := Strlen(p);
        if l == 0 || p[l - 1] != EOL {
          text := text + p[..l];
        } else {
          text := text + p[..l - 1];
          return text, true;
        }
      }
    }

    /** With any buffer size the next n characters, or all there are; it fails only at the end of the file. */
    method ReadChars(count: nat, size: nat) returns (text: string, ok: bool)
      requires Valid() && size > 0
      modifies this
      ensures Valid() && Read(text, Rest(), ok) == Chars(old(Rest()), count)
      ensures text + Rest() == old(Rest()) && |text| == (if count <= |old(Rest())| then count else |old(Rest())|)
      ensures ok <==> count == 0 || old(Rest()) != ""
    {
      ghost var start := pos;
      var n: nat := count;
      var rlen := size;
      text := "";
      var again := true;
      while again
        invariant Valid() && |text| == count - n && pos == start + |text| && text == content[start..pos]
        invariant again ==> rlen == size && (n > 0 || text == "")
        invariant !again ==> n == 0 || pos == |content|
        decreases again, n
      {
        if rlen > n {
          rlen := n;
        }
        var chunk := Fread(rlen);
        text := text + chunk;
        again := n - |chunk| > 0 && |chunk| == rlen;
        n := n - |chunk|;
      }
      ok := n == 0 || |text| > 0;
      CharsAt(content, start, count, |text|);
    }
  }

  lemma CharsAt(content: string, start: nat, count: nat, n: nat)
    requires n <= count && start + n <= |content| && (n == count || start + n == |content|)
    ensures Chars(content[start..], count) == Read(content[start..start + n], content[start + n..], count == 0 || start < |content|)
  {
    assert content[start..][..n] == content[start..start + n];
    assert content[start..][n..] == content[start + n..];
  }
}
