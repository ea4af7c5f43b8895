/**
 * The line framer `readline` of the chat server and of the rewriting proxy (the two copies are
 * textually identical). Each call owns a fresh 1024-byte buffer, reads into its free part until a
 * read brings a newline, and returns the bytes before that newline. Bytes after the newline that
 * arrived in the same read are lost with the buffer.
 */
module LineFramer {
  import opened Bytes
  import opened Stream

  const MAX_LINE: nat := 1024

  /** `SERVER_EOF`, `SERVER_ERR` and `MSG_OUT_OF_RANGE`. */
  datatype FrameError = PeerClosed | ReadFailed | TooLong

  /** The loop of `readline` once its buffer holds `buf`, which has no newline yet. */
  function ReadLineFrom(input: seq<Read>, buf: Bytes): (res: (Result<Bytes, FrameError>, seq<Read>))
    requires |buf| < MAX_LINE
    ensures Size(res.1) <= Size(input)
    ensures res.0.Ok? ==> Size(res.1) < Size(input)
    decreases MAX_LINE - |buf|
  {
    var (r, rest) := Pull(input, MAX_LINE - |buf|);
    match r
    case Failed => (Err(ReadFailed), rest)
    case Data(d) =>
      if d == [] then (Err(PeerClosed), rest)
      else match FirstIndex(d, NL)
        case Some(i) => (Ok(buf + d[..i]), rest)
        case None =>
          if |buf| + |d| < MAX_LINE then ReadLineFrom(rest, buf + d)
          else (Err(TooLong), rest)
  }

  /** One call of `readline`: its result and the reads left for the next call. */
  function ReadLineSpec(input: seq<Read>): (res: (Result<Bytes, FrameError>, seq<Read>))
  {
    ReadLineFrom(input, [])
  }

  /**
   * What a line read from a stream that delivers the bytes `s` must be, stated without reads:
   * the bytes before the first newline when one comes among the first 1024 bytes, otherwise
   * `TooLong` when 1024 bytes arrived, otherwise how the stream ended.
   */
  function FrameOf(s: Bytes, failed: bool): Result<Bytes, FrameError>
  {
    match FirstIndex(Window(s), NL)
    case Some(p) => Ok(s[..p])
    case None =>
      if |s| >= MAX_LINE then Err(TooLong)
      else if failed then Err(ReadFailed)
      else Err(PeerClosed)
  }

  /** What each outcome of `FrameOf` means for the delivered bytes. */
  lemma FrameOfMeaning(s: Bytes, failed: bool)
    ensures var r := FrameOf(s, failed);
      && (r.Ok? ==> |r.value| < MAX_LINE && NL !in r.value && r.value + [NL] <= s)
      && (r.Ok? <==> NL in s[..Min(|s|, MAX_LINE)])
      && (r == Err(TooLong) <==> |s| >= MAX_LINE && NL !in s[..MAX_LINE])
      && (r == Err(ReadFailed) <==> |s| < MAX_LINE && NL !in s && failed)
      && (r == Err(PeerClosed) <==> |s| < MAX_LINE && NL !in s && !failed)
  {
    var window := s[..Min(|s|, MAX_LINE)];
    match FirstIndex(window, NL)
    case Some(p) =>
      assert window[..p] == s[..p];
      assert s[..p + 1] == s[..p] + [NL];
    case None =>
      assert |s| < MAX_LINE ==> window == s;
  }

  function Min(a: nat, b: nat): nat
  {
    if a < b then a else b
  }

  /** The part of the delivered bytes that fits in the buffer. */
  function Window(s: Bytes): (w: Bytes)
    ensures w == s[..Min(|s|, MAX_LINE)]
  {
    if |s| <= MAX_LINE then s else s[..MAX_LINE]
  }

  /** The central fact: the read-by-read loop computes the line the delivered bytes determine. */
  lemma {:induction false} ReadLineFromIsFrameOf(input: seq<Read>, buf: Bytes)
    requires |buf| < MAX_LINE && NL !in buf
    ensures ReadLineFrom(input, buf).0 == FrameOf(buf + Delivered(input), EndsInFailure(input))
    decreases MAX_LINE - |buf|
  {
    var room := MAX_LINE - |buf|;
    var (r, rest) := Pull(input, room);
    PullDelivered(input, room);
    if r.Data? && r.bytes != [] {
      var d := r.bytes;
      var failed := EndsInFailure(input);
      assert buf + Delivered(input) == buf + d + Delivered(rest);
      if NL in d {
        ChunkWithNewline(buf, d, Delivered(rest), failed);
      } else {
        FirstIndexAppend(buf, d, NL);
        if |buf| + |d| < MAX_LINE {
          ReadLineFromIsFrameOf(rest, buf + d);
        } else {
          ChunkFillsBuffer(buf + d, Delivered(rest), failed);
        }
      }
    } else {
      assert buf + Delivered(input) == buf;
    }
  }

  /** A chunk that brings a newline: `FrameOf` returns the buffer and the chunk up to it. */
  lemma ChunkWithNewline(buf: Bytes, d: Bytes, later: Bytes, failed: bool)
    requires |buf| + |d| <= MAX_LINE && NL !in buf && NL in d
    ensures FrameOf(buf + d + later, failed) == Ok(buf + d[..FirstIndex(d, NL).value])
  {
    var i := FirstIndex(d, NL).value;
    WindowFindsChunk(buf, d, later);
    SliceOfConcat(buf, d, later, i);
    FrameAt(buf + d + later, failed, |buf| + i, buf + d[..i]);
  }

  /** `FrameOf` returns the bytes before the window's first newline. */
  lemma FrameAt(s: Bytes, failed: bool, p: nat, line: Bytes)
    requires FirstIndex(Window(s), NL) == Some(p) && p <= |s| && s[..p] == line
    ensures FrameOf(s, failed) == Ok(line)
  {
  }

  /** The first newline of the window is the chunk's, shifted past the buffer. */
  lemma WindowFindsChunk(buf: Bytes, d: Bytes, later: Bytes)
    requires |buf| + |d| <= MAX_LINE && NL !in buf && NL in d
    ensures FirstIndex(Window(buf + d + later), NL) == Some(|buf| + FirstIndex(d, NL).value)
  {
    FirstInBack(buf, d, NL);
    WindowStartsWith(buf + d, later);
  }

  /** A buffer filled to 1024 bytes without a newline: `FrameOf` reports `TooLong`. */
  lemma ChunkFillsBuffer(bd: Bytes, later: Bytes, failed: bool)
    requires |bd| == MAX_LINE && NL !in bd
    ensures FrameOf(bd + later, failed) == Err(TooLong)
  {
    assert Window(bd + later) == bd;
  }

  /** The first newline among the first 1024 bytes is the one in `bd`, when `bd` fits and has one. */
  lemma WindowStartsWith(bd: Bytes, later: Bytes)
    requires |bd| <= MAX_LINE && NL in bd
    ensures FirstIndex(Window(bd + later), NL) == FirstIndex(bd, NL)
  {
    var s := bd + later;
    var k := Min(|s|, MAX_LINE);
    var more := later[..k - |bd|];
    assert s[..k] == bd + more;
    FirstIndexAppend(bd, more, NL);
  }

  lemma SliceOfConcat(buf: Bytes, d: Bytes, later: Bytes, i: nat)
    requires i <= |d|
    ensures (buf + d + later)[..|buf| + i] == buf + d[..i]
  {
  }

  /** `readline` returns exactly the line `FrameOf` gives for the bytes the stream delivers. */
  lemma ReadLineMatchesStream(input: seq<Read>)
    ensures ReadLineSpec(input).0 == FrameOf(Delivered(input), EndsInFailure(input))
  {
    ReadLineFromIsFrameOf(input, []);
    assert [] + Delivered(input) == Delivered(input);
  }

  /**
   * A line `readline` returns is shorter than the buffer, has no newline, and is, newline
   * included, the start of what the stream delivered.
   */
  lemma ReadLineOkIsLine(input: seq<Read>)
    ensures var r := ReadLineSpec(input).0;
      r.Ok? ==> |r.value| < MAX_LINE && NL !in r.value && r.value + [NL] <= Delivered(input)
  {
    ReadLineMatchesStream(input);
    FrameOfMeaning(Delivered(input), EndsInFailure(input));
  }

  /**
   * A read that brings a whole line and more: the line is returned and the rest of that read is
   * dropped, so the next call starts with the following read.
   */
  lemma ReadLineDropsRestOfRead(line: Bytes, tail: Bytes, more: seq<Read>)
    requires NL !in line && |line| + 1 + |tail| <= MAX_LINE
    ensures ReadLineSpec([Data(line + [NL] + tail)] + more) == (Ok(line), more)
  {
    var d := line + [NL] + tail;
    var input := [Data(d)] + more;
    assert d[..|line|] == line;
    FirstIndexIs(d, NL, |line|);
    assert input[1..] == more;
    assert Pull(input, MAX_LINE) == (Data(d), more);
    assert [] + d[..|line|] == line;
  }

  /** The lines a connection yields before its first framing error. */
  function Lines(input: seq<Read>): seq<Bytes>
    decreases Size(input)
  {
    match ReadLineSpec(input)
    case (Ok(l), rest) => [l] + Lines(rest)
    case (Err(_), _) => []
  }

  /** One more call of `readline` yields the next line, or ends the lines. */
  lemma LinesStep(input: seq<Read>)
    ensures var (r, rest) := ReadLineSpec(input);
      && (r.Ok? ==> Lines(input) == [r.value] + Lines(rest))
      && (r.Err? ==> Lines(input) == [])
  {
  }

  /** A line read moves from the lines still to come to the lines already handled. */
  lemma LinesAdvance(done: seq<Bytes>, input: seq<Read>)
    requires ReadLineSpec(input).0.Ok?
    ensures done + Lines(input) ==
      (done + [ReadLineSpec(input).0.value]) + Lines(ReadLineSpec(input).1)
  {
    LinesStep(input);
  }

  /** One read of `readline`'s loop, as `ReadLineFrom` unfolds it once. */
  lemma ReadLineFromChunk(input: seq<Read>, buf: Bytes, d: Bytes, rest: seq<Read>)
    requires |buf| < MAX_LINE && Pull(input, MAX_LINE - |buf|) == (Data(d), rest) && d != []
    ensures FirstIndex(d, NL).Some? ==>
      ReadLineFrom(input, buf) == (Ok(buf + d[..FirstIndex(d, NL).value]), rest)
    ensures FirstIndex(d, NL).None? && |buf| + |d| < MAX_LINE ==>
      ReadLineFrom(input, buf) == ReadLineFrom(rest, buf + d)
    ensures FirstIndex(d, NL).None? && |buf| + |d| >= MAX_LINE ==>
      ReadLineFrom(input, buf) == (Err(TooLong), rest)
  {
  }

  /** `readline` over a fresh 1024-byte buffer. */
  method ReadLine(input: seq<Read>) returns (line: Result<Bytes, FrameError>, rest: seq<Read>)
    ensures (line, rest) == ReadLineSpec(input)
  {
    var buff := new byte[MAX_LINE](_ => 0);
    var n := 0;
    rest := input;
    while n < MAX_LINE
      invariant n <= MAX_LINE && buff.Length == MAX_LINE
      invariant n < MAX_LINE ==> ReadLineSpec(input) == ReadLineFrom(rest, buff[..n])
      invariant n == MAX_LINE ==> ReadLineSpec(input) == (Err(TooLong), rest)
      decreases MAX_LINE - n
    {
      var done, filled, pending := ReadChunk(buff, n, rest);
      if done.Some? {
        return done.value, pending;
      }
      n, rest := filled, pending;
    }
    line := Err(TooLong);
  }

  /**
   * One pass of `readline`'s loop: a read into `buff[n..]`. It either decides the line (`done`),
   * or leaves `filled` bytes without a newline in the buffer, and then the line still to be read
   * is the one the longer buffer and the remaining reads give.
   */
  method ReadChunk(buff: array<byte>, n: nat, input: seq<Read>)
    returns (done: Option<Result<Bytes, FrameError>>, filled: nat, rest: seq<Read>)
    requires buff.Length == MAX_LINE && n < MAX_LINE
    modifies buff
    ensures done.Some? ==> ReadLineFrom(input, old(buff[..n])) == (done.value, rest)
    ensures done.None? ==> n < filled <= MAX_LINE
    ensures done.None? && filled < MAX_LINE ==>
      ReadLineFrom(input, old(buff[..n])) == ReadLineFrom(rest, buff[..filled])
    ensures done.None? && filled == MAX_LINE ==> ReadLineFrom(input, old(buff[..n])) == (Err(TooLong), rest)
  {
    ghost var before := buff[..n];
    ghost var prev := buff[..];
    assert before == prev[..n];
    var r;
    r, rest := Pull(input, MAX_LINE - n).0, Pull(input, MAX_LINE - n).1;
    filled := n;
    match r
    case Failed =>
      return Some(Err(ReadFailed)), filled, rest;
    case Data(d) =>
      if d == [] {
        return Some(Err(PeerClosed)), filled, rest;
      }
      CopyInto(buff, n, d);
      var contents := buff[..];
      CopiedSlices(prev, contents, n, d);
      ReadLineFromChunk(input, before, d, rest);
      filled := n + |d|;
      assert buff[..filled] == contents[..filled] == before + d;
      match FirstIndex(contents[n..filled], NL) {
        case Some(idx) =>
          PartOfCopy(prev, contents, n, d, idx);
          return Some(Ok(contents[..n + idx])), filled, rest;
        case None =>
          done := None;
      }
  }
}
