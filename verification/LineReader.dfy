/** The buffered line reader: lines are joined across refills of an 80-byte buffer. */
module LineReader {
  import opened Lines
  import opened Splitting

  /** An open file. Each read hands over any number of bytes that fits, or fails if the file
      is not reliable. */
  class File {
    const data: string
    const reliable: bool
    var pos: nat

    constructor (data: string, reliable: bool)
      ensures this.data == data && this.reliable == reliable && pos == 0
    {
      this.data, this.reliable, pos := data, reliable, 0;
    }

    ghost function Rest(): string
      reads this
    {
      if pos <= |data| then data[pos..] else []
    }

    /** -1 on a read error, 0 exactly at the end of the file. */
    method Fread(buffer: array<char>, size: nat) returns (n: int)
      requires 0 < size <= buffer.Length
      modifies `pos, buffer
      ensures n == -1 ==> pos == old(pos) && !reliable
      ensures n != -1 ==> 0 <= n <= size && old(Rest()) == buffer[..n] + Rest()
      ensures n == 0 ==> Rest() == []
    {
      var fails: bool := *;
      if fails && !reliable {
        return -1;
      }
      if pos >= |data| {
        return 0;
      }
      n :| 1 <= n <= size && pos + n <= |data|;
      forall i | 0 <= i < n {
        buffer[i] := data[pos + i];
      }
      assert data[pos..] == data[pos..pos + n] + data[pos + n..];
      pos := pos + n;
    }
  }

  const READ_BUFFER_SIZE: nat := 80

  lemma MoveText(line: string, text: string, n: nat, rest: string)
    requires n <= |text|
    ensures (line + text[..n]) + (text[n..] + rest) == line + (text + rest)
    ensures IsLine(line) && IsLine(text[..n]) ==> IsLine(line + text[..n])
  {
    assert text == text[..n] + text[n..];
  }

  /** Line feeds were dropped from the front of `all`. */
  ghost predicate Skipped(all: string, rest: string) {
    |rest| <= |all| && Only(LF, all[..|all| - |rest|]) && all[|all| - |rest|..] == rest
  }

  lemma DropBuffered(text: string, n: nat, rest: string)
    requires n <= |text| && Only(LF, text[..n])
    ensures Skipped(text + rest, text[n..] + rest)
  {
    assert (text + rest)[..n] == text[..n] && (text + rest)[n..] == text[n..] + rest;
  }

  /** A line was taken off the front of `all`. */
  ghost predicate Taken(all: string, line: string, rest: string) {
    IsLine(line) && all == line + rest
  }

  lemma TakenNothing(line: string, rest: string)
    requires |line| == 0
    ensures Taken(rest, line, rest)
  {}

  lemma TakenOn(all: string, line: string, rest: string, line': string, rest': string)
    requires Taken(all, line, rest) && line' + rest' == line + rest && (IsLine(line) ==> IsLine(line'))
    ensures Taken(all, line', rest')
  {}

  lemma PeelAfter(all: string, rest: string, line: string, more: string)
    requires Skipped(all, rest) && Taken(rest, line, more) && (more != [] ==> more[0] == LF)
    ensures IsLine(line)
    ensures NonEmptyLines(all) == (if line == [] then [] else [line]) + NonEmptyLines(more)
    ensures |more| <= |rest| <= |all| && (|more| == |all| ==> more == rest == all)
  {
    var gap := all[..|all| - |rest|];
    assert all == gap + line + more;
    PeelWord(LF, gap, line, more);
  }

  ghost predicate IsSuffix(s: string, t: string) {
    |s| <= |t| && t[|t| - |s|..] == s
  }

  lemma SuffixOfSuffix(s: string, t: string, u: string)
    requires IsSuffix(s, t) && IsSuffix(t, u)
    ensures IsSuffix(s, u)
  {}

  lemma SuffixAfter(a: string, s: string)
    ensures IsSuffix(s, a + s) && IsSuffix(s, s)
  {}

  /** A buffer that has not been allocated is an array of length 0. */
  class LineReader {
    var readBuffer: array<char>
    var readLen: nat
    var readPtr: nat
    var lineBuffer: array<char>
    var lineLen: nat
    var endOfFile: bool
    var file: File

    ghost function Footprint(): set<object>
      reads this
    {
      {this, file, readBuffer, lineBuffer}
    }

    ghost predicate Valid()
      reads Footprint()
    {
      && readBuffer != lineBuffer
      && readPtr <= readLen <= readBuffer.Length
      && readBuffer.Length in {0, READ_BUFFER_SIZE}
      && lineLen <= lineBuffer.Length
      && (endOfFile ==> readLen == 0 && file.Rest() == [])
    }

    ghost function Buffered(): string
      reads this, readBuffer
      requires readPtr <= readLen <= readBuffer.Length
    {
      readBuffer[readPtr..readLen]
    }

    /** The line read so far. */
    ghost function Line(): string
      reads this, lineBuffer
      requires lineLen <= lineBuffer.Length
    {
      lineBuffer[..lineLen]
    }

    /** Everything not yet handed out as part of a line. */
    ghost function Pending(): string
      reads this, readBuffer, file
      requires readPtr <= readLen <= readBuffer.Length
    {
      Buffered() + file.Rest()
    }

    /** The whole buffer, read or not, and what follows it in the file. */
    ghost function Held(): string
      reads this, readBuffer, file
      requires readLen <= readBuffer.Length
    {
      readBuffer[..readLen] + file.Rest()
    }

    /** How far the reader is from the end. A call that takes nothing fills the buffer, or
        meets the end of the file. */
    ghost function Remaining(): nat
      reads this, readBuffer, file
      requires readPtr <= readLen <= readBuffer.Length
    {
      if endOfFile then 0 else 1 + 2 * |Pending()| + if readPtr == readLen then 1 else 0
    }

    /** A line, empty or not, was taken off what was pending, and what is held is a tail of
        what was held. */
    ghost predicate Took(line: string, pending: string, held: string)
      reads this, readBuffer, file
      requires readPtr <= readLen <= readBuffer.Length
    {
      && NonEmptyLines(pending) == (if line == [] then [] else [line]) + NonEmptyLines(Pending())
      && IsSuffix(Held(), held)
    }

    constructor (file: File)
      ensures Valid() && Line() == [] && readLen == 0 && !endOfFile && this.file == file
      ensures fresh(Footprint() - {file})
    {
      readBuffer, readLen, readPtr := new char[0], 0, 0;
      lineBuffer, lineLen := new char[0], 0;
      endOfFile := false;
      this.file := file;
    }

    method SkipNewlines()
      requires Valid()
      modifies `readPtr
      ensures Valid() && old(readPtr) <= readPtr
      ensures var k := readPtr - old(readPtr);
        Only(LF, old(Buffered())[..k]) && Buffered() == old(Buffered())[k..]
      ensures readPtr < readLen ==> readBuffer[readPtr] != LF
    {
      ghost var text := Buffered();
      while readLen > readPtr
        invariant Valid() && old(readPtr) <= readPtr
        invariant forall i :: 0 <= i < readPtr - old(readPtr) ==> text[i] == LF
        decreases readLen - readPtr
      {
        if readBuffer[readPtr] != LF {
          return;
        }
        readPtr := readPtr + 1;
      }
    }

    /** The buffered text up to the next line feed or the end of the buffer. */
    method ScanBuffer() returns (start: nat, len: nat)
      requires Valid()
      modifies `readPtr
      ensures Valid() && start == old(readPtr) && readPtr == start + len
      ensures len <= |old(Buffered())|
      ensures IsLine(old(Buffered())[..len])
      ensures readPtr < readLen ==> readBuffer[readPtr] == LF
    {
      start := readPtr;
      var r := readPtr;
      while readLen > r
        invariant readPtr <= r <= readLen
        invariant forall i :: readPtr <= i < r ==> readBuffer[i] != LF
      {
        if readBuffer[r] == LF {
          len := r - readPtr;
          readPtr := r;
          return;
        }
        r := r + 1;
      }
      len := r - readPtr;
      readPtr := r;
    }

    /** Makes room for `len` more characters after the line read so far. */
    method LineBufferResize(len: nat)
      requires Valid()
      modifies `lineBuffer
      ensures Valid() && Line() == old(Line())
      ensures fresh(lineBuffer) && lineBuffer.Length == lineLen + len
    {
      var bigger := new char[lineLen + len];
      forall i | 0 <= i < lineLen {
        bigger[i] := lineBuffer[i];
      }
      assert bigger[..lineLen] == Line();
      lineBuffer := bigger;
    }

    method AppendToLineBuffer(start: nat, len: nat)
      requires Valid()
      requires start + len <= readLen
      requires lineLen + len <= lineBuffer.Length
      modifies `lineLen, lineBuffer
      ensures Valid() && Line() == old(Line()) + readBuffer[start..start + len]
    {
      forall i | 0 <= i < len {
        lineBuffer[lineLen + i] := readBuffer[start + i];
      }
      lineLen := lineLen + len;
    }

    method ReadFromBuffer()
      requires Valid()
      modifies `readPtr, `lineBuffer, `lineLen
      ensures Valid() && fresh(lineBuffer)
      ensures Line() + Pending() == old(Line() + Pending()) && Held() == old(Held())
      ensures IsLine(old(Line())) ==> IsLine(Line())
      ensures readPtr < readLen ==> Pending()[0] == LF
      ensures old(readPtr) <= readPtr && |Pending()| == old(|Pending()|) - (readPtr - old(readPtr))
    {
      hide IsLine;
      ghost var text, line := Buffered(), Line();
      var start, len := ScanBuffer();
      LineBufferResize(len);
      AppendToLineBuffer(start, len);
      assert Line() == line + text[..len];
      MoveText(line, text, len, file.Rest());
    }

    predicate RefillRequired()
      reads this
    {
      readLen == readPtr && !endOfFile
    }

    /** Returns false on a read error, leaving the old buffer length in place. */
    method RefillBuffer() returns (ok: bool)
      requires Valid() && RefillRequired()
      modifies `readPtr, `readBuffer, `readLen, `endOfFile, file, readBuffer
      ensures Valid() && readPtr == 0 && Line() == old(Line())
      ensures readBuffer == old(readBuffer) || fresh(readBuffer)
      ensures !ok ==> !file.reliable
      ensures ok ==> Pending() == Held() == old(file.Rest())
      ensures ok ==> endOfFile || 0 < readLen
    {
      readPtr := 0;
      if readBuffer.Length == 0 {
        readBuffer := new char[READ_BUFFER_SIZE];
      }
      var n := file.Fread(readBuffer, READ_BUFFER_SIZE);
      if n == -1 {
        return false;
      }
      if n == 0 {
        endOfFile := true;
      }
      readLen := n;
      ok := true;
    }

    method ResetLineReading()
      modifies `readPtr
      ensures readPtr == 0
    {
      readPtr := 0;
    }

    /** The start of a load: the buffered text is not dropped, only its pointer goes back. */
    method StartLoad(file: File?)
      requires Valid() && (file != null ==> file.pos == 0)
      modifies `endOfFile, `readPtr, `file
      ensures Valid() && unchanged(`readBuffer, `readLen, `lineBuffer, `lineLen)
      ensures !endOfFile && readPtr == 0
      ensures if file == null then this.file == old(this.file) else this.file == file
      ensures file != null ==> Pending() == readBuffer[..readLen] + file.data == Held()
    {
      endOfFile := false;
      ResetLineReading();
      if file != null {
        this.file := file;
      }
    }

    /** Refills the buffer and extends the line. `all` is the text to be kept. */
    method ReadMore(ghost all: string) returns (ok: bool)
      requires Valid() && RefillRequired() && Taken(all, Line(), Pending())
      modifies `readPtr, `readBuffer, `readLen, `endOfFile, `lineBuffer, `lineLen, file, readBuffer
      ensures Valid()
      ensures readBuffer == old(readBuffer) || fresh(readBuffer)
      ensures lineBuffer == old(lineBuffer) || fresh(lineBuffer)
      ensures !ok ==> !file.reliable
      ensures ok ==> Taken(all, Line(), Pending()) && (readPtr < readLen ==> Pending()[0] == LF)
      ensures ok ==> |Pending()| <= old(|Pending()|) && IsSuffix(Held(), old(Held()))
      ensures ok ==> endOfFile || readPtr < readLen || |Pending()| < old(|Pending()|)
    {
      hide IsSuffix, IsLine, Taken;
      ghost var line, rest := Line(), file.Rest();
      assert Buffered() == [] && Pending() == rest;
      SuffixAfter(readBuffer[..readLen], rest);
      ok := RefillBuffer();
      if ok {
        ReadFromBuffer();
        TakenOn(all, line, rest, Line(), Pending());
      }
    }

    /** Extends the line, refilling the buffer until a line feed or the end of the file. */
    method FillLine() returns (ok: bool)
      requires Valid() && lineLen == 0
      modifies Footprint()
      ensures Valid() && file == old(file)
      ensures readBuffer == old(readBuffer) || fresh(readBuffer)
      ensures fresh(lineBuffer)
      ensures !ok ==> !file.reliable
      ensures ok ==> Taken(old(Pending()), Line(), Pending()) && IsSuffix(Held(), old(Held()))
      ensures ok ==> endOfFile || (readPtr < readLen && Pending()[0] == LF)
    {
      hide IsSuffix, Taken;
      ghost var all, held := Pending(), Held();
      SuffixAfter([], held);
      TakenNothing(Line(), all);
      ReadFromBuffer();
      TakenOn(all, old(Line()), all, Line(), Pending());
      while RefillRequired()
        invariant Valid() && file == old(file)
        invariant readBuffer == old(readBuffer) || fresh(readBuffer)
        invariant fresh(lineBuffer)
        invariant Taken(all, Line(), Pending()) && IsSuffix(Held(), held)
        invariant readPtr < readLen ==> Pending()[0] == LF
        decreases !endOfFile, |Pending()|, if RefillRequired() then 1 else 0
      {
        ghost var before := Held();
        ok := ReadMore(all);
        if !ok {
          return;
        }
        SuffixOfSuffix(Held(), before, held);
      }
      ok := true;
    }

    /** Drops the line feeds at the front of the buffer from what is pending. */
    method SkipPending()
      requires Valid()
      modifies `readPtr
      ensures Valid() && Held() == old(Held())
      ensures Skipped(old(Pending()), Pending())
      ensures readPtr < readLen ==> Pending()[0] != LF
      ensures |Pending()| == old(|Pending()|) ==> readPtr == old(readPtr)
    {
      hide Skipped, Only;
      ghost var text, start := Buffered(), readPtr;
      SkipNewlines();
      DropBuffered(text, readPtr - start, file.Rest());
    }

    /** Reads one line, possibly an empty one at the start of a buffer or at the end of
        the file. Returns false on a read error. */
    method ReadLine() returns (ok: bool)
      requires Valid()
      modifies Footprint()
      ensures Valid() && file == old(file)
      ensures readBuffer == old(readBuffer) || fresh(readBuffer)
      ensures fresh(lineBuffer)
      ensures !ok ==> !file.reliable
      ensures ok ==> IsLine(Line())
      ensures ok ==>
        NonEmptyLines(old(Pending())) == (if Line() == [] then [] else [Line()]) + NonEmptyLines(Pending())
      ensures ok ==> |Pending()| <= old(|Pending()|) && IsSuffix(Held(), old(Held()))
      // Progress: a call that takes nothing has just filled the buffer or met the end.
      ensures ok ==> endOfFile || readPtr < readLen
      ensures ok && |Pending()| == old(|Pending()|) ==> endOfFile || old(readPtr == readLen)
    {
      hide NonEmptyLines, IsSuffix, Skipped, Taken;
      ghost var all := Pending();
      lineBuffer, lineLen := new char[0], 0;
      SkipPending();
      ghost var rest := Pending();
      ok := FillLine();
      if ok {
        PeelAfter(all, rest, Line(), Pending());
      }
    }
  }
}
