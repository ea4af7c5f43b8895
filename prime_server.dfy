/**
 * The prime-checking server: a trial-division primality test, the request/reply logic, and the
 * growable, compacting byte buffer that `take_requests` splits the connection into lines with.
 * JSON decoding and encoding are outside the model: a request arrives already decoded (or not),
 * through a `parse` function the caller supplies.
 */
module PrimeServer {
  import opened Bytes
  import opened Stream

  type u64 = x: int | 0 <= x < 0x1_0000_0000_0000_0000

  const VALID_METHOD: Bytes := Lit("isPrime")
  const INVALID_METHOD: Bytes := Lit("invalid")
  const ERR_INVALID_PAYLOAD: Bytes := Lit("Failed to parse the json payload")
  const ERR_INVALID_METHOD: Bytes := Lit("Error, invalid request method")

  /** The buffer starts at 1024 bytes; it may double only while it is at most `1 << 15` bytes. */
  const INITIAL_CAPACITY: nat := 1024
  const GROW_LIMIT: nat := 32768
  const MAX_CAPACITY: nat := 65536

  // ---------------------------------------------------------------------------------------------
  // Primality
  // ---------------------------------------------------------------------------------------------

  /** The exact integer square root, standing for `(number as f64).sqrt() as u64`. */
  function ISqrt(n: nat): (r: nat)
    ensures r * r <= n < (r + 1) * (r + 1)
  {
    if n < 2 then n
    else
      var h := ISqrt(n / 4);
      SqrtStep(n, h);
      if (2 * h + 1) * (2 * h + 1) <= n then 2 * h + 1 else 2 * h
  }

  /** Twice the root of `n / 4` is the root of `n`, or one less. */
  lemma SqrtStep(n: nat, h: nat)
    requires h * h <= n / 4 < (h + 1) * (h + 1)
    ensures (2 * h) * (2 * h) <= n < (2 * h + 2) * (2 * h + 2)
  {
    var q := n / 4;
    assert 4 * q <= n < 4 * q + 4;
    assert (2 * h) * (2 * h) == 4 * (h * h);
    assert (2 * h + 2) * (2 * h + 2) == 4 * ((h + 1) * (h + 1));
  }

  /** The textbook definition: at least 2, and no divisor strictly between 1 and itself. */
  ghost predicate IsPrime(n: nat)
  {
    n >= 2 && forall d :: 2 <= d < n ==> n % d != 0
  }

  /** No divisor up to the square root means no divisor at all. */
  lemma NoSmallDivisorIsPrime(n: nat)
    requires n >= 2
    requires forall d :: 2 <= d <= ISqrt(n) ==> n % d != 0
    ensures IsPrime(n)
  {
    forall d | 2 <= d < n
      ensures n % d != 0
    {
      if n % d == 0 {
        var e := SmallDivisor(n, d);
        assert false;
      }
    }
  }

  /** A number with a divisor has one no greater than its square root: the divisor or its cofactor. */
  lemma SmallDivisor(n: nat, d: nat) returns (e: nat)
    requires 2 <= d < n && n % d == 0
    ensures 2 <= e <= ISqrt(n) && n % e == 0
  {
    var r := ISqrt(n);
    if d <= r {
      return d;
    }
    var c := n / d;
    Quotient(n, d);
    CofactorBounds(n, d, c, r);
    ExactDivision(n, c, d);
    return c;
  }

  /** The cofactor of a divisor above the root is at least 2 and at most the root. */
  lemma CofactorBounds(n: nat, d: nat, c: nat, r: nat)
    requires 2 <= d < n && n == d * c && r * r <= n < (r + 1) * (r + 1) && d > r
    ensures 2 <= c <= r
  {
    if c == 0 || c == 1 {
      assert false;
    }
    if c > r {
      MulLe(r + 1, d, r + 1, c);
      assert false;
    }
  }

  lemma Quotient(n: nat, d: nat)
    requires d > 0 && n % d == 0
    ensures n == d * (n / d)
  {
  }

  lemma ExactDivision(n: int, e: int, d: int)
    requires e > 0 && n == e * d
    ensures n % e == 0
  {
    var k := d - n / e;
    assert e * k == n % e;
    if k >= 1 {
      MulLe(e, e, 1, k);
    } else if k <= -1 {
      assert e * k == -(e * -k);
      MulLe(e, e, 1, -k);
    }
  }

  lemma MulLe(a: int, b: int, c: int, d: int)
    requires 0 <= a <= b && 0 <= c <= d
    ensures a * c <= b * d
  {
    assert a * c <= b * c;
    assert b * c <= b * d;
  }

  /** The square root of a number of at least 3 is a proper candidate divisor. */
  lemma SqrtBelow(n: nat)
    requires n >= 3
    ensures ISqrt(n) < n
  {
    var r := ISqrt(n);
    if r >= n {
      MulLe(n, r, 1, r);
    }
  }

  /** `dumb_is_prime`: 0 and 1 are not prime, 2 is, otherwise trial division downward from the root. */
  method DumbIsPrime(number: u64) returns (r: bool)
    ensures r <==> IsPrime(number)
  {
    if number <= 1 {
      return false;
    } else if number == 2 {
      return true;
    }
    var divisor := ISqrt(number);
    while divisor > 1
      invariant 1 <= divisor <= ISqrt(number)
      invariant forall d :: divisor < d <= ISqrt(number) ==> number % d != 0
      decreases divisor
    {
      if number % divisor == 0 {
        SqrtBelow(number);
        return false;
      }
      divisor := divisor - 1;
    }
    NoSmallDivisorIsPrime(number);
    return true;
  }

  lemma SmallNumbers()
    ensures !IsPrime(0) && !IsPrime(1) && IsPrime(2) && IsPrime(3) && !IsPrime(4)
  {
    assert 4 % 2 == 0;
  }

  // ---------------------------------------------------------------------------------------------
  // Requests and replies
  // ---------------------------------------------------------------------------------------------

  /**
   * The JSON `number` field as the two facts the server takes from it: whether its fractional
   * part is zero, and its conversion `as u64`.
   */
  datatype Number = Number(integral: bool, truncated: u64)

  datatype ServerRequest = ServerRequest(methodName: Bytes, number: Number)

  datatype ServerReply = ServerReply(methodName: Bytes, prime: bool)

  /** `check_well_formated_request`: the method must be `isPrime`; a non-integer is never prime. */
  method CheckWellFormedRequest(request: ServerRequest) returns (r: Result<bool, Bytes>)
    ensures r.Err? <==> request.methodName != VALID_METHOD
    ensures r.Err? ==> r.error == ERR_INVALID_METHOD
    ensures r.Ok? ==> (r.value <==> request.number.integral && IsPrime(request.number.truncated))
  {
    if request.methodName != VALID_METHOD {
      return Err(ERR_INVALID_METHOD);
    }
    var n := request.number;
    var isNotFloat := n.integral;
    if !isNotFloat {
      return Ok(false);
    }
    var prime := DumbIsPrime(n.truncated);
    return Ok(prime);
  }

  /** A request the server answers as well-formed: it decoded, and its method is `isPrime`. */
  predicate WellFormed(parsed: Option<ServerRequest>)
  {
    parsed.Some? && parsed.value.methodName == VALID_METHOD
  }

  /** The reply `generate_response` sends for a decoded (or undecodable) request. */
  ghost function ExpectedReply(parsed: Option<ServerRequest>): ServerReply
  {
    if WellFormed(parsed) then
      ServerReply(VALID_METHOD, parsed.value.number.integral && IsPrime(parsed.value.number.truncated))
    else
      ServerReply(INVALID_METHOD, false)
  }

  /**
   * `generate_response` once the request bytes are decoded: the reply it sends, and whether the
   * request was well-formed (which decides whether the connection goes on).
   */
  method GenerateResponse(parsed: Option<ServerRequest>) returns (reply: ServerReply, ok: bool)
    ensures ok <==> WellFormed(parsed)
    ensures reply == ExpectedReply(parsed)
    ensures ok ==> reply.methodName == VALID_METHOD
    ensures !ok ==> reply == ServerReply(INVALID_METHOD, false)
  {
    var isPrime: Result<bool, Bytes>;
    match parsed {
      case Some(req) =>
        isPrime := CheckWellFormedRequest(req);
      case None =>
        isPrime := Err(ERR_INVALID_PAYLOAD);
    }
    ok := false;
    match isPrime {
      case Ok(p) =>
        ok := true;
        reply := ServerReply(VALID_METHOD, p);
      case Err(_) =>
        reply := ServerReply(INVALID_METHOD, false);
    }
  }

  // ---------------------------------------------------------------------------------------------
  // The request buffer
  // ---------------------------------------------------------------------------------------------

  /** The lengths the buffer can have: 1024 doubled at most six times. */
  predicate IsCapacity(n: nat)
  {
    n in {1024, 2048, 4096, 8192, 16384, 32768, 65536}
  }

  /**
   * The buffer after the shift loop that drops a line ending at `p`: each step `t` copies byte
   * `p + 1 + t` to `t` and then zeroes byte `p + 1 + t`.
   */
  function Compacted(data: Bytes, p: nat): (r: Bytes)
    requires p < |data|
    ensures |r| == |data|
  {
    seq(|data|, j requires 0 <= j < |data| =>
      if j + p + 1 < |data| then data[j + p + 1] else if p + 1 <= j then 0 else data[j])
  }

  /**
   * What compaction leaves where: the bytes after the line move to the front, every position
   * from `max(p + 1, n - p - 1)` on is zero, and the positions in `[n - p - 1, p + 1)` (present
   * when the line fills at least half the buffer) keep their old bytes.
   */
  lemma CompactedRegions(data: Bytes, p: nat)
    requires p < |data|
    ensures var r, n := Compacted(data, p), |data|;
      && r[..n - p - 1] == data[p + 1..]
      && (forall j :: p + 1 <= j < n && n - p - 1 <= j ==> r[j] == 0)
      && (forall j :: n - p - 1 <= j < p + 1 ==> r[j] == data[j])
  {
  }

  lemma CompactedAt(data: Bytes, p: nat, j: nat)
    requires p < |data| && j < |data|
    ensures Compacted(data, p)[j] ==
      if j + p + 1 < |data| then data[j + p + 1] else if p + 1 <= j then 0 else data[j]
  {
  }

  /** The pending bytes after the line are still the first bytes after compaction. */
  lemma PendingMovesToFront(data: Bytes, w: nat, p: nat)
    requires p < w <= |data|
    ensures Compacted(data, p)[..w - (p + 1)] == data[p + 1..w]
  {
  }

  /** `Outcome`: how a connection's thread ends. The last two are the code's panics. */
  datatype Outcome = Ended | BufferTooBig | Underflow

  /** `buff`, its length `n` and the fill level `w` of `take_requests`. */
  class RequestBuffer {
    var buff: array<byte>
    var w: nat

    ghost predicate Valid()
      reads this
    {
      IsCapacity(buff.Length) && w <= buff.Length
    }

    constructor()
      ensures Valid() && fresh(buff)
      ensures w == 0 && buff[..] == Zeros(INITIAL_CAPACITY)
    {
      buff := new byte[INITIAL_CAPACITY](_ => 0);
      w := 0;
    }

    /** A read of `d` into `buff[w..n]`, and `w += r`. */
    method Receive(d: Bytes)
      requires Valid() && w + |d| <= buff.Length
      modifies this, buff
      ensures Valid() && buff == old(buff)
      ensures w == old(w) + |d|
      ensures buff[..] == old(buff[..w]) + d + old(buff[w + |d|..])
    {
      CopyInto(buff, w, d);
      w := w + |d|;
    }

    /** `buff.iter().position(|&e| e == b'\n')`: the search covers the whole buffer. */
    method FindNewline() returns (pos: Option<nat>)
      requires Valid()
      ensures pos == FirstIndex(buff[..], NL)
    {
      var i := 0;
      while i < buff.Length
        invariant 0 <= i <= buff.Length
        invariant NL !in buff[..i]
      {
        if buff[i] == NL {
          FirstIndexIs(buff[..], NL, i);
          return Some(i);
        }
        assert buff[..i + 1] == buff[..i] + [buff[i]];
        i := i + 1;
      }
      assert buff[..i] == buff[..];
      return None;
    }

    /** The search restricted to the pending bytes `buff[..w]`. */
    method FindLineEnd() returns (pos: Option<nat>)
      requires Valid()
      ensures pos == FirstIndex(buff[..w], NL)
      ensures pos.Some? ==> pos.value < w
    {
      var i := 0;
      while i < w
        invariant 0 <= i <= w
        invariant NL !in buff[..i]
      {
        if buff[i] == NL {
          assert buff[..w][..i] == buff[..i];
          FirstIndexIs(buff[..w], NL, i);
          return Some(i);
        }
        assert buff[..i + 1] == buff[..i] + [buff[i]];
        i := i + 1;
      }
      assert buff[..i] == buff[..w];
      return None;
    }

    /** The shift loop that drops the handled line `buff[..p + 1]`, then `w -= p + 1`. */
    method ConsumeLine(p: nat) returns (underflow: bool)
      requires Valid() && p < buff.Length
      modifies this, buff
      ensures buff == old(buff) && Valid()
      ensures buff[..] == Compacted(old(buff[..]), p)
      ensures underflow <==> old(w) < p + 1
      ensures underflow ==> w == old(w)
      ensures !underflow ==> w == old(w) - (p + 1)
    {
      Compact(p);
      if w < p + 1 {
        return true;
      }
      w := w - (p + 1);
      return false;
    }

    /** The shift loop `for (t, i) in (p + 1..n).enumerate() { buff[t] = buff[i]; buff[i] = 0; }`. */
    method Compact(p: nat)
      requires p < buff.Length
      modifies buff
      ensures buff[..] == Compacted(old(buff[..]), p)
    {
      ghost var before := buff[..];
      var n := buff.Length;
      var t := 0;
      while t < n - p - 1
        invariant 0 <= t <= n - p - 1
        invariant forall j :: 0 <= j < t ==> buff[j] == before[j + p + 1]
        invariant forall j :: t <= j < n ==>
          buff[j] == if p + 1 <= j < t + p + 1 then 0 else before[j]
      {
        buff[t] := buff[t + p + 1];
        buff[t + p + 1] := 0;
        t := t + 1;
      }
      forall j | 0 <= j < n
        ensures buff[j] == Compacted(before, p)[j]
      {
        CompactedAt(before, p, j);
      }
    }

    /** The `None` arm: panic above `1 << 15`, otherwise double `n` and zero-fill. */
    method Grow() returns (tooBig: bool)
      requires Valid()
      modifies this
      ensures Valid() && w == old(w)
      ensures tooBig <==> old(buff.Length) > GROW_LIMIT
      ensures tooBig ==> buff == old(buff)
      ensures !tooBig ==> fresh(buff) && buff.Length == 2 * old(buff.Length)
      ensures !tooBig ==> buff[..] == old(buff[..]) + Zeros(old(buff.Length))
    {
      var n := buff.Length;
      if n > GROW_LIMIT {
        return true;
      }
      var grown := new byte[2 * n](_ => 0);
      var i := 0;
      while i < n
        invariant 0 <= i <= n && grown.Length == 2 * n
        invariant buff == old(buff) && w == old(w)
        invariant forall j :: 0 <= j < i ==> grown[j] == buff[j]
        invariant forall j :: i <= j < 2 * n ==> grown[j] == 0
      {
        grown[i] := buff[i];
        i := i + 1;
      }
      assert grown[..] == buff[..] + Zeros(n);
      buff := grown;
      return false;
    }
  }

  /** How one pass of the inner loop ends: loop again (reading or not), or leave the thread. */
  datatype Pass = Again(doRead: bool) | Exit(outcome: Outcome)

  /**
   * What one pass of the inner loop does to the buffer contents `data` filled up to `w`: the
   * request it hands over with its reply, how the pass ends, and the new contents and fill level.
   * A read of zero bytes into an empty buffer, or a failed read, ends the thread; otherwise the
   * read is stored at `w` and the whole buffer is searched for a newline.
   */
  ghost function AfterRead(data: Bytes, w: nat, read: Read, parse: Bytes -> Option<ServerRequest>)
    : (r: (Option<(Bytes, ServerReply)>, Pass, Bytes, nat))
    requires w <= |data| && (read.Data? ==> w + |read.bytes| <= |data|)
  {
    match read
    case Failed => (None, Exit(Ended), data, w)
    case Data(d) =>
      if w == 0 && d == [] then (None, Exit(Ended), data, w)
      else
        AfterReceive(data[..w] + d + data[w + |d|..], w + |d|, parse)
  }

  /** The rest of a pass once the bytes read are in the buffer `s`, of which `w` are filled. */
  ghost function AfterReceive(s: Bytes, w: nat, parse: Bytes -> Option<ServerRequest>)
    : (r: (Option<(Bytes, ServerReply)>, Pass, Bytes, nat))
  {
    match FirstIndex(s, NL)
    case Some(p) => AfterLine(s, w, p, parse)
    case None => AfterNoLine(s, w)
  }

  /**
   * The `Some(position_of_newline)` arm: the request before the newline is answered; a
   * malformed one ends the thread before compaction; a well-formed one is compacted away and `w`
   * lowered, unless that subtraction would underflow.
   */
  ghost function AfterLine(s: Bytes, w: nat, p: nat, parse: Bytes -> Option<ServerRequest>)
    : (r: (Option<(Bytes, ServerReply)>, Pass, Bytes, nat))
    requires p < |s|
  {
    var handled := Some((s[..p], ExpectedReply(parse(s[..p]))));
    if !WellFormed(parse(s[..p])) then (handled, Exit(Ended), s, w)
    else if w < p + 1 then (handled, Exit(Underflow), Compacted(s, p), w)
    else (handled, Again(w - (p + 1) == 0), Compacted(s, p), w - (p + 1))
  }

  /** The `None` arm: the buffer doubles, unless it is already above `1 << 15` bytes. */
  ghost function AfterNoLine(s: Bytes, w: nat): (r: (Option<(Bytes, ServerReply)>, Pass, Bytes, nat))
  {
    if |s| > GROW_LIMIT then (None, Exit(BufferTooBig), s, w)
    else (None, Again(true), s + Zeros(|s|), w)
  }

  /**
   * What the loop relies on from one pass `r`: the buffer stays a valid capacity; each request is
   * shorter than the largest buffer and gets the reply it calls for; only a well-formed request
   * lets the thread go on, after which it reads again exactly when nothing is pending; growing
   * always reads next; and a pass that reads again has room to read into.
   */
  ghost predicate PassFacts(r: (Option<(Bytes, ServerReply)>, Pass, Bytes, nat),
                            parse: Bytes -> Option<ServerRequest>)
  {
    var (handled, pass, next, w') := r;
    && IsCapacity(|next|) && w' <= |next|
    && (handled.Some? ==>
          var (request, reply) := handled.value;
          |request| < MAX_CAPACITY && reply == ExpectedReply(parse(request)) &&
          (!WellFormed(parse(request)) ==> pass == Exit(Ended)) &&
          (pass.Again? ==> pass.doRead == (w' == 0)))
    && (handled.None? && pass.Again? ==> pass.doRead)
    && (pass.Again? && pass.doRead ==> w' < |next|)
  }

  /** Every pass keeps `PassFacts`. */
  lemma AfterReadProgress(data: Bytes, w: nat, read: Read, parse: Bytes -> Option<ServerRequest>)
    requires IsCapacity(|data|) && w <= |data| && (read.Data? ==> w + |read.bytes| <= |data|)
    ensures PassFacts(AfterRead(data, w, read, parse), parse)
  {
    match read
    case Failed =>
    case Data(d) =>
      if !(w == 0 && d == []) {
        ReceivedFacts(data, w, d, parse);
      }
  }

  lemma ReceivedFacts(data: Bytes, w: nat, d: Bytes, parse: Bytes -> Option<ServerRequest>)
    requires IsCapacity(|data|) && w + |d| <= |data|
    ensures PassFacts(AfterReceive(data[..w] + d + data[w + |d|..], w + |d|, parse), parse)
  {
    var s := data[..w] + d + data[w + |d|..];
    assert |s| == |data|;
    ReceiveFacts(s, w + |d|, parse);
  }

  /**
   * A pass that goes on without reading (`do_read` false, so the read is `Ok(0)`) either consumed
   * a line or grew the buffer: the measure the loop decreases.
   */
  lemma EmptyReadProgress(data: Bytes, w: nat, parse: Bytes -> Option<ServerRequest>)
    requires IsCapacity(|data|) && w <= |data|
    ensures var (_, pass, next, w') := AfterRead(data, w, Data([]), parse);
      pass.Again? ==> w' < w || (w' == w && |next| > |data|)
  {
    if w != 0 {
      assert data[..w] + [] + data[w..] == data;
      ReceiveFacts(data, w, parse);
    }
  }

  lemma ReceiveFacts(s: Bytes, w: nat, parse: Bytes -> Option<ServerRequest>)
    requires IsCapacity(|s|) && w <= |s|
    ensures PassFacts(AfterReceive(s, w, parse), parse)
    ensures var (_, pass, next, w') := AfterReceive(s, w, parse);
      pass.Again? ==> w' < w || (w' == w && |next| > |s|)
  {
    match FirstIndex(s, NL)
    case Some(p) => LineFacts(s, w, p, parse);
    case None => NoLineFacts(s, w, parse);
  }

  lemma LineFacts(s: Bytes, w: nat, p: nat, parse: Bytes -> Option<ServerRequest>)
    requires p < |s| && IsCapacity(|s|) && w <= |s|
    ensures PassFacts(AfterLine(s, w, p, parse), parse)
    ensures AfterLine(s, w, p, parse).1.Again? ==> AfterLine(s, w, p, parse).3 < w
  {
    assert |s[..p]| == p;
  }

  lemma NoLineFacts(s: Bytes, w: nat, parse: Bytes -> Option<ServerRequest>)
    requires IsCapacity(|s|) && w <= |s|
    ensures PassFacts(AfterNoLine(s, w), parse)
    ensures AfterNoLine(s, w).1.Again? ==> AfterNoLine(s, w).3 == w && |AfterNoLine(s, w).2| > |s|
  {
    assert |s| > GROW_LIMIT || IsCapacity(2 * |s|);
  }

  /** Answering the line that ends at `p`, and the compaction and `w -= p + 1` after it. */
  method AnswerLine(rb: RequestBuffer, p: nat, parse: Bytes -> Option<ServerRequest>)
    returns (handled: Option<(Bytes, ServerReply)>, pass: Pass)
    requires rb.Valid() && p < rb.buff.Length
    modifies rb, rb.buff
    ensures rb.Valid() && rb.buff == old(rb.buff)
    ensures (handled, pass, rb.buff[..], rb.w) == AfterLine(old(rb.buff[..]), old(rb.w), p, parse)
  {
    var request := rb.buff[..p];
    var reply, ok := GenerateResponse(parse(request));
    handled := Some((request, reply));
    if !ok {
      return handled, Exit(Ended);
    }
    var underflow := rb.ConsumeLine(p);
    if underflow {
      return handled, Exit(Underflow);
    }
    pass := Again(rb.w == 0);
  }

  /**
   * One pass of the inner `loop` of `take_requests` once `read` has returned: the `match (w,
   * read)`. It may hand one request to `generate_response`, and it always makes progress: a pass
   * that brought no bytes and goes on either consumed a line or grew the buffer.
   */
  method HandleRead(rb: RequestBuffer, read: Read, parse: Bytes -> Option<ServerRequest>)
    returns (handled: Option<(Bytes, ServerReply)>, pass: Pass)
    requires rb.Valid() && (read.Data? ==> rb.w + |read.bytes| <= rb.buff.Length)
    modifies rb, rb.buff
    ensures rb.Valid() && (rb.buff == old(rb.buff) || fresh(rb.buff))
    ensures (handled, pass, rb.buff[..], rb.w) == AfterRead(old(rb.buff[..]), old(rb.w), read, parse)
  {
    ghost var data, w0 := rb.buff[..], rb.w;
    handled := None;
    match read {
      case Failed =>
        pass := Exit(Ended);
      case Data(d) =>
        if rb.w == 0 && d == [] {
          pass := Exit(Ended);
        } else {
          rb.Receive(d);
          handled, pass := AnswerOrGrow(rb, parse);
        }
    }
  }

  /** The rest of a pass: answer the first line in the buffer, or grow it when there is none. */
  method AnswerOrGrow(rb: RequestBuffer, parse: Bytes -> Option<ServerRequest>)
    returns (handled: Option<(Bytes, ServerReply)>, pass: Pass)
    requires rb.Valid()
    modifies rb, rb.buff
    ensures rb.Valid() && (rb.buff == old(rb.buff) || fresh(rb.buff))
    ensures (handled, pass, rb.buff[..], rb.w) == AfterReceive(old(rb.buff[..]), old(rb.w), parse)
  {
    handled := None;
    var pos := rb.FindNewline();
    match pos {
      case Some(p) =>
        handled, pass := AnswerLine(rb, p, parse);
      case None =>
        var tooBig := rb.Grow();
        pass := if tooBig then Exit(BufferTooBig) else Again(true);
    }
  }

  /**
   * `take_requests`. The inner `loop` ends with `break true` only to be entered again by the
   * outer `while do_continue` with the same state, so both become one loop here. `parse` stands
   * for the JSON decoding of a request line. The result lists the lines handed to
   * `generate_response`, the replies sent for them, and how the thread ended.
   */
  /** `HandleRead` with `PassFacts` and the progress of an empty read spelled out on its outputs. */
  method OnePass(rb: RequestBuffer, read: Read, parse: Bytes -> Option<ServerRequest>)
    returns (handled: Option<(Bytes, ServerReply)>, pass: Pass)
    requires rb.Valid() && (read.Data? ==> rb.w + |read.bytes| <= rb.buff.Length)
    modifies rb, rb.buff
    ensures rb.Valid() && (rb.buff == old(rb.buff) || fresh(rb.buff))
    ensures handled.Some? ==>
      |handled.value.0| < MAX_CAPACITY && handled.value.1 == ExpectedReply(parse(handled.value.0)) &&
      (!WellFormed(parse(handled.value.0)) ==> pass == Exit(Ended)) &&
      (pass.Again? ==> pass.doRead == (rb.w == 0))
    ensures handled.None? && pass.Again? ==> pass.doRead
    ensures pass.Again? && pass.doRead ==> rb.w < rb.buff.Length
    ensures pass.Again? && read == Data([]) ==>
      rb.w < old(rb.w) || (rb.w == old(rb.w) && rb.buff.Length > old(rb.buff.Length))
  {
    ghost var data, w0 := rb.buff[..], rb.w;
    AfterReadProgress(data, w0, read, parse);
    EmptyReadProgress(data, w0, parse);
    handled, pass := HandleRead(rb, read, parse);
  }

  method TakeRequests(input: seq<Read>, parse: Bytes -> Option<ServerRequest>)
    returns (requests: seq<Bytes>, replies: seq<ServerReply>, outcome: Outcome)
    ensures |replies| == |requests|
    ensures forall i :: 0 <= i < |requests| ==> replies[i] == ExpectedReply(parse(requests[i]))
    ensures forall i :: 0 <= i < |requests| ==> |requests[i]| < MAX_CAPACITY
    ensures forall i :: 0 <= i < |requests| - 1 ==> WellFormed(parse(requests[i]))
    ensures outcome != Ended ==> requests == [] || WellFormed(parse(requests[|requests| - 1]))
  {
    var rb := new RequestBuffer();
    var rest := input;
    var doRead := true;
    requests, replies := [], [];
    while true
      invariant rb.Valid() && fresh(rb.buff)
      invariant doRead ==> rb.w < rb.buff.Length
      invariant |replies| == |requests|
      invariant forall i :: 0 <= i < |requests| ==> replies[i] == ExpectedReply(parse(requests[i]))
      invariant forall i :: 0 <= i < |requests| ==> |requests[i]| < MAX_CAPACITY
      invariant forall i :: 0 <= i < |requests| ==> WellFormed(parse(requests[i]))
      decreases Size(rest), rb.w, MAX_CAPACITY - rb.buff.Length
    {
      var read: Read;
      if doRead {
        read, rest := Pull(rest, rb.buff.Length - rb.w).0, Pull(rest, rb.buff.Length - rb.w).1;
      } else {
        read := Data([]);
      }
      var handled, pass := OnePass(rb, read, parse);
      if handled.Some? {
        requests, replies := requests + [handled.value.0], replies + [handled.value.1];
      }
      match pass {
        case Exit(o) =>
          return requests, replies, o;
        case Again(r) =>
          doRead := r;
      }
    }
  }

  // ---------------------------------------------------------------------------------------------
  // The stale newline
  // ---------------------------------------------------------------------------------------------

  /**
   * As written, a line that fills at least half the buffer leaves its own newline behind at `p`
   * after compaction. When the bytes still pending hold no newline, the whole-buffer search then
   * reports `p`, which lies outside the `w - (p + 1)` pending bytes: the next "request" handed to
   * `generate_response` is the pending bytes, zeros and stale bytes of the old line.
   */
  lemma StaleNewline(data: Bytes, w: nat, p: nat)
    requires p < w <= |data| && 2 * p + 1 >= |data|
    requires FirstIndex(data, NL) == Some(p)
    requires NL !in data[p + 1..w]
    requires forall j :: w <= j < |data| ==> data[j] == 0
    ensures FirstIndex(Compacted(data, p), NL) == Some(p)
    ensures p >= w - (p + 1)
    ensures NL !in Compacted(data, p)[..w - (p + 1)]
  {
    var c := Compacted(data, p);
    forall j | 0 <= j < p
      ensures c[j] != NL
    {
      StaleNewlineBefore(data, w, p, j);
    }
    CompactedAt(data, p, p);
    FirstIndexIs(c, NL, p);
    PendingMovesToFront(data, w, p);
  }

  lemma StaleNewlineBefore(data: Bytes, w: nat, p: nat, j: nat)
    requires p < w <= |data| && j < p
    requires FirstIndex(data, NL) == Some(p)
    requires NL !in data[p + 1..w]
    requires forall j :: w <= j < |data| ==> data[j] == 0
    ensures Compacted(data, p)[j] != NL
  {
    CompactedAt(data, p, j);
    if j + p + 1 < w {
      assert data[p + 1..w][j] == data[j + p + 1];
    } else if j + p + 1 >= |data| {
      assert data[..p][j] == data[j];
    }
  }

  /** With the search restricted to the pending bytes, the next line is the one the client sent. */
  lemma PendingLineFound(data: Bytes, w: nat, p: nat)
    requires p < w <= |data|
    ensures FirstIndex(Compacted(data, p)[..w - (p + 1)], NL) == FirstIndex(data[p + 1..w], NL)
  {
    PendingMovesToFront(data, w, p);
  }

  /** The bytes of `{"method":"isPrime","number":3}`. */
  const PRIME_THREE: Bytes := [123, 34, 109, 101, 116, 104, 111, 100, 34, 58, 34, 105, 115, 80, 114,
                               105, 109, 101, 34, 44, 34, 110, 117, 109, 98, 101, 114, 34, 58, 51, 125]

  /**
   * `{"method":"isPrime","number":3}` padded with spaces to 600 bytes: a valid request that fills
   * more than half of the initial buffer.
   */
  function PaddedRequest(): (line: Bytes)
    ensures |line| == 600 && NL !in line
    ensures line[0] == 123 && line[1] == 34
  {
    PRIME_THREE + seq(569, _ => SPACE)
  }

  /**
   * What `serde_json::from_str` makes of the two lines of the scenario below: the padded request
   * decodes (JSON allows trailing whitespace), and `{` followed by zeros does not.
   */
  function ScenarioParse(line: Bytes): (r: Option<ServerRequest>)
    ensures r.Some? <==> line == PaddedRequest()
    ensures r.Some? ==> r.value == ServerRequest(VALID_METHOD, Number(true, 3))
  {
    if line == PaddedRequest() then Some(ServerRequest(VALID_METHOD, Number(true, 3))) else None
  }

  /** One read: the padded request, its newline and the opening brace of the next request. */
  function FirstRead(): (d: Bytes)
    ensures |d| == 602 && d[..600] == PaddedRequest() && d[600] == NL && d[601] == 123
  {
    PaddedRequest() + [NL, 123]
  }

  /** The first pass answers the padded request and keeps `{` pending, with `do_read` false. */
  lemma FirstPass()
    ensures AfterRead(Zeros(INITIAL_CAPACITY), 0, Data(FirstRead()), ScenarioParse) ==
      (Some((PaddedRequest(), ServerReply(VALID_METHOD, true))), Again(false),
       Compacted(FirstRead() + Zeros(422), 600), 1)
  {
    var z, d := Zeros(INITIAL_CAPACITY), FirstRead();
    var s := z[..0] + d + z[602..];
    assert s == d + Zeros(422);
    assert s[..600] == d[..600];
    FirstIndexIs(s, NL, 600);
    SmallNumbers();
  }

  /**
   * The buffer after the first pass: the stale newline is the first one in it, the pending byte
   * `{` holds none, and a zero follows it.
   */
  lemma StaleBuffer()
    ensures var c := Compacted(FirstRead() + Zeros(422), 600);
      FirstIndex(c, NL) == Some(600) && FirstIndex(c[..1], NL) == None && c[0] == 123 && c[1] == 0
  {
    var d := FirstRead();
    var s := d + Zeros(422);
    assert s[..600] == d[..600];
    FirstIndexIs(s, NL, 600);
    assert s[601..602] == [123];
    StaleNewline(s, 602, 600);
    CompactedAt(s, 600, 0);
    CompactedAt(s, 600, 1);
  }

  /**
   * The second pass reads nothing, finds the stale newline at 600 and hands `{`, zeros and old
   * padding to the parser, which rejects them: the connection ends.
   */
  lemma SecondPass()
    ensures var c := Compacted(FirstRead() + Zeros(422), 600);
      var (handled, pass, _, _) := AfterRead(c, 1, Data([]), ScenarioParse);
      && handled.Some? && |handled.value.0| == 600 && handled.value.0[0] == 123 && handled.value.0[1] == 0
      && handled.value.1 == ServerReply(INVALID_METHOD, false) && pass == Exit(Ended)
  {
    var c := Compacted(FirstRead() + Zeros(422), 600);
    StaleBuffer();
    assert c[..1] + [] + c[1..] == c;
    assert c[..600][1] != PaddedRequest()[1];
  }

  /**
   * The 1024-byte buffer receives a 600-byte request, its newline and `{` in one read. The
   * request is answered; one byte is pending and the search over it finds no newline, yet the
   * next pass, which reads nothing, answers a 600-byte "request" starting `{` and a zero as
   * malformed and ends the connection before the rest of the second request is read.
   */
  method StaleNewlineScenario()
    returns (first: Option<(Bytes, ServerReply)>, firstPass: Pass, pending: nat,
             corrected: Option<nat>, second: Option<(Bytes, ServerReply)>, secondPass: Pass)
    ensures first == Some((PaddedRequest(), ServerReply(VALID_METHOD, true)))
    ensures firstPass == Again(false) && pending == 1 && corrected == None
    ensures second.Some? && |second.value.0| == 600 && second.value.0[0] == 123 && second.value.0[1] == 0
    ensures second.value.1 == ServerReply(INVALID_METHOD, false) && secondPass == Exit(Ended)
  {
    FirstPass();
    StaleBuffer();
    SecondPass();
    var rb := new RequestBuffer();
    first, firstPass := HandleRead(rb, Data(FirstRead()), ScenarioParse);
    pending := rb.w;
    corrected := rb.FindLineEnd();
    second, secondPass := HandleRead(rb, Data([]), ScenarioParse);
  }
}
