/**
 * The price store of protohacker2: 9-byte binary commands over TCP, each `'I'` (insert) or `'Q'`
 * (query) followed by two big-endian two's-complement 32-bit integers, answered (queries only)
 * by one 4-byte big-endian integer. Each connection owns its own map from timestamp to price.
 */
module PriceStore {
  import opened Bytes
  import opened Stream

  const I32_MIN: int := -0x8000_0000
  const I32_MAX: int := 0x7fff_ffff
  const I64_MIN: int := -0x8000_0000_0000_0000
  const I64_MAX: int := 0x7fff_ffff_ffff_ffff

  type i32 = x: int | I32_MIN <= x <= I32_MAX

  const COMMAND_LEN: nat := 9
  const REPLY_LEN: nat := 4
  const INSERT_BYTE: byte := 73  // 'I'
  const QUERY_BYTE: byte := 81   // 'Q'

  datatype CommandType = Query | Insert | Invalid

  datatype Command = Command(cType: CommandType, first: i32, second: i32)

  // ---------------------------------------------------------------------------------------------
  // The codec

  /** `CommandType::parse`. */
  function ParseType(b: byte): (t: CommandType)
    ensures t == Insert <==> b == INSERT_BYTE
    ensures t == Query <==> b == QUERY_BYTE
    ensures t == Invalid <==> b != INSERT_BYTE && b != QUERY_BYTE
  {
    if b == INSERT_BYTE then Insert
    else if b == QUERY_BYTE then Query
    else Invalid
  }

  /** `slice_to_i32_be`, that is `i32::from_be_bytes` of four bytes. */
  function SliceToI32Be(data: Bytes): (v: i32)
    requires |data| == 4
    ensures v < 0 <==> data[0] >= 128
  {
    var u := data[0] as int * 0x100_0000 + data[1] as int * 0x1_0000 + data[2] as int * 0x100 + data[3];
    if u >= 0x8000_0000 then u - 0x1_0000_0000 else u
  }

  /** `i32::to_be_bytes`: the two's-complement bits of `v`, most significant byte first. */
  function ToBeBytes(v: i32): (r: Bytes)
    ensures |r| == 4
    ensures v < 0 <==> r[0] >= 128
  {
    var u := if v < 0 then v + 0x1_0000_0000 else v;
    [u / 0x100_0000, u / 0x1_0000 % 0x100, u / 0x100 % 0x100, u % 0x100]
  }

  /** A reply decodes back to the value it was encoded from. */
  lemma DecodeEncode(v: i32)
    ensures SliceToI32Be(ToBeBytes(v)) == v
  {
    var u := if v < 0 then v + 0x1_0000_0000 else v;
    var r := ToBeBytes(v);
    ByteDigits(u);
    assert r[0] as int * 0x100_0000 + r[1] as int * 0x1_0000 + r[2] as int * 0x100 + r[3] == u;
  }

  /** The four base-256 digits `ToBeBytes` takes of an unsigned 32-bit value add back up to it. */
  lemma ByteDigits(u: int)
    requires 0 <= u < 0x1_0000_0000
    ensures u / 0x100_0000 * 0x100_0000 + u / 0x1_0000 % 0x100 * 0x1_0000 + u / 0x100 % 0x100 * 0x100
            + u % 0x100 == u
  {
    var q1, r3 := u / 0x100, u % 0x100;
    var q2, r2 := q1 / 0x100, q1 % 0x100;
    var q3, r1 := q2 / 0x100, q2 % 0x100;
    assert u == q3 * 0x100_0000 + (r1 * 0x1_0000 + r2 * 0x100 + r3);
    DivMod(q3, r1 * 0x1_0000 + r2 * 0x100 + r3, 0x100_0000);
    assert u == q2 * 0x1_0000 + (r2 * 0x100 + r3);
    DivMod(q2, r2 * 0x100 + r3, 0x1_0000);
  }

  /** Every four bytes are the encoding of the value they decode to. */
  lemma EncodeDecode(data: Bytes)
    requires |data| == 4
    ensures ToBeBytes(SliceToI32Be(data)) == data
  {
    var b0, b1, b2, b3 := data[0] as int, data[1] as int, data[2] as int, data[3] as int;
    var u := b0 * 0x100_0000 + b1 * 0x1_0000 + b2 * 0x100 + b3;
    DivMod(b0, b1 * 0x1_0000 + b2 * 0x100 + b3, 0x100_0000);
    DivMod(b0 * 0x100 + b1, b2 * 0x100 + b3, 0x1_0000);
    DivMod(b0, b1, 0x100);
    DivMod(b0 * 0x1_0000 + b1 * 0x100 + b2, b3, 0x100);
    DivMod(b0 * 0x100 + b1, b2, 0x100);
    var r := ToBeBytes(SliceToI32Be(data));
    assert r == [data[0], data[1], data[2], data[3]];
  }

  /** Division by `d` undoes `q * d + r` for a remainder below `d`. */
  lemma DivMod(q: int, r: int, d: int)
    requires d > 0 && 0 <= r < d
    ensures (q * d + r) / d == q && (q * d + r) % d == r
  {
    var n := q * d + r;
    var q', r' := n / d, n % d;
    assert n == q' * d + r';
    if q' > q {
      assert (q + 1) * d == q * d + d;
      MulMonotone(q + 1, q', d);
    } else if q' < q {
      assert (q' + 1) * d == q' * d + d;
      MulMonotone(q' + 1, q, d);
    }
  }

  /** `Command::parse`: the type from byte 0, the numbers from bytes 1..5 and 5..9. */
  function ParseCommand(data: Bytes): Command
    requires |data| == COMMAND_LEN
  {
    Command(ParseType(data[0]), SliceToI32Be(data[1..5]), SliceToI32Be(data[5..9]))
  }

  /** The 9 bytes a client sends for an insert or a query. */
  function EncodeCommand(c: Command): (data: Bytes)
    requires c.cType != Invalid
    ensures |data| == COMMAND_LEN
  {
    [if c.cType == Insert then INSERT_BYTE else QUERY_BYTE] + ToBeBytes(c.first) + ToBeBytes(c.second)
  }

  /** Parsing what a client encodes gives back its command. */
  lemma ParseEncode(c: Command)
    requires c.cType != Invalid
    ensures ParseCommand(EncodeCommand(c)) == c
  {
    var data := EncodeCommand(c);
    assert data[1..5] == ToBeBytes(c.first);
    assert data[5..9] == ToBeBytes(c.second);
    DecodeEncode(c.first);
    DecodeEncode(c.second);
  }

  /** Every 9 bytes whose first is 'I' or 'Q' is the encoding of the command it parses to. */
  lemma EncodeParse(data: Bytes)
    requires |data| == COMMAND_LEN && (data[0] == INSERT_BYTE || data[0] == QUERY_BYTE)
    ensures EncodeCommand(ParseCommand(data)) == data
  {
    EncodeDecode(data[1..5]);
    EncodeDecode(data[5..9]);
    assert data == data[..1] + data[1..5] + data[5..9];
  }

  // ---------------------------------------------------------------------------------------------
  // The query: the mean of the prices whose timestamps fall in [lo, hi]

  /** The timestamps a query for [lo, hi] selects. */
  ghost function Selected(prices: map<i32, i32>, lo: int, hi: int): set<i32>
  {
    set k | k in prices && lo <= k <= hi
  }

  /** How many stored timestamps fall in [lo, hi], walking the range upwards. */
  function Count(prices: map<i32, i32>, lo: int, hi: int): (c: nat)
    ensures lo > hi ==> c == 0
    ensures c <= if lo > hi then 0 else hi - lo + 1
    decreases hi - lo
  {
    if lo > hi then 0
    else (if lo in prices then 1 else 0) + Count(prices, lo + 1, hi)
  }

  /** The sum of the prices stored for the timestamps in [lo, hi]. */
  function Sum(prices: map<i32, i32>, lo: int, hi: int): int
    decreases hi - lo
  {
    if lo > hi then 0
    else (if lo in prices && lo <= I32_MAX then prices[lo] else 0) + Sum(prices, lo + 1, hi)
  }

  /** `Count` counts exactly the timestamps the query's filter keeps. */
  lemma {:induction false} CountIsSelected(prices: map<i32, i32>, lo: int, hi: int)
    ensures Count(prices, lo, hi) == |Selected(prices, lo, hi)|
    decreases hi - lo
  {
    if lo <= hi {
      CountIsSelected(prices, lo + 1, hi);
      var rest := Selected(prices, lo + 1, hi);
      if lo in prices {
        assert Selected(prices, lo, hi) == {lo as i32} + rest;
      } else {
        assert Selected(prices, lo, hi) == rest;
      }
    }
  }

  /** Each selected price lies in the 32-bit range, so the sum lies between `c` minima and `c` maxima. */
  lemma SumBounds(prices: map<i32, i32>, lo: int, hi: int)
    ensures Count(prices, lo, hi) * I32_MIN <= Sum(prices, lo, hi) <= Count(prices, lo, hi) * I32_MAX
  {
    SumWithin(prices, lo, hi, I32_MIN, I32_MAX);
  }

  /** Prices between `low` and `high` sum to between `c` times `low` and `c` times `high`. */
  lemma {:induction false} SumWithin(prices: map<i32, i32>, lo: int, hi: int, low: int, high: int)
    requires forall k :: k in prices && lo <= k <= hi ==> low <= prices[k] <= high
    ensures Count(prices, lo, hi) * low <= Sum(prices, lo, hi) <= Count(prices, lo, hi) * high
    decreases hi - lo
  {
    if lo <= hi {
      SumWithin(prices, lo + 1, hi, low, high);
      AddWithin(if lo in prices then 1 else 0, if lo in prices then prices[lo] else 0,
                Count(prices, lo + 1, hi), Sum(prices, lo + 1, hi), low, high);
    }
  }

  lemma AddWithin(n: nat, v: int, c: nat, s: int, low: int, high: int)
    requires (n == 0 && v == 0) || (n == 1 && low <= v <= high)
    requires c * low <= s <= c * high
    ensures (n + c) * low <= v + s <= (n + c) * high
  {
    assert (n + c) * low == n * low + c * low;
    assert (n + c) * high == n * high + c * high;
  }

  /** The 64-bit accumulator of the fold cannot overflow: at most 2^32 prices of 32 bits each. */
  lemma SumFitsI64(prices: map<i32, i32>, lo: i32, hi: i32)
    ensures I64_MIN <= Sum(prices, lo, hi) <= I64_MAX
  {
    SumBounds(prices, lo, hi);
    var c := Count(prices, lo, hi);
    assert c <= 0x1_0000_0000;
    MulMonotone(I32_MIN, 0, c);
    MulMonotone(c, 0x1_0000_0000, -I32_MIN);
    MulMonotone(c, 0x1_0000_0000, I32_MAX);
  }

  lemma MulMonotone(x: int, y: int, c: nat)
    requires x <= y
    ensures x * c <= y * c
  {
    assert y * c - x * c == (y - x) * c;
  }

  lemma DivFacts(n: nat, b: int)
    requires b > 0
    ensures 0 <= (n / b) * b <= n < (n / b) * b + b
  {
    assert n == (n / b) * b + n % b;
  }

  /** Rust's `/` on integers: the quotient truncated toward zero. */
  function TruncDiv(a: int, b: int): (q: int)
    requires b > 0
    ensures a >= 0 ==> 0 <= q * b <= a < q * b + b
    ensures a < 0 ==> q * b - b < a <= q * b <= 0
  {
    if a >= 0 then
      DivFacts(a, b);
      a / b
    else
      DivFacts(-a, b);
      var q := -((-a) / b);
      assert q * b == -(((-a) / b) * b);
      q
  }

  /** A truncated mean of `c` values between `low` and `high` lies between them too. */
  lemma TruncDivWithin(a: int, c: nat, low: int, high: int)
    requires c > 0 && low <= high && c * low <= a <= c * high
    ensures low <= TruncDiv(a, c) <= high
  {
    var q := TruncDiv(a, c);
    if q > high {
      MulMonotone(high + 1, q, c);
      if a < 0 {
        MulMonotone(low, high, c);
      }
    }
    if q < low {
      MulMonotone(q, low - 1, c);
      if a >= 0 {
        MulMonotone(low, high, c);
      }
    }
  }

  /** The reply to a query for [lo, hi]: 0 when nothing is selected, otherwise the truncated mean. */
  function Mean(prices: map<i32, i32>, lo: i32, hi: i32): (avg: i32)
    ensures Count(prices, lo, hi) == 0 ==> avg == 0
  {
    var c := Count(prices, lo, hi);
    if c == 0 then 0
    else
      SumBounds(prices, lo, hi);
      TruncDivWithin(Sum(prices, lo, hi), c, I32_MIN, I32_MAX);
      TruncDiv(Sum(prices, lo, hi), c)
  }

  /**
   * The reply is the mean truncated toward zero: `avg * c` is the multiple of the count nearest
   * to the sum on the side of zero.
   */
  lemma MeanIsTruncatedAverage(prices: map<i32, i32>, lo: i32, hi: i32)
    requires Count(prices, lo, hi) > 0
    ensures var avg, s, c := Mean(prices, lo, hi), Sum(prices, lo, hi), Count(prices, lo, hi);
      && (s >= 0 ==> 0 <= avg * c <= s < avg * c + c)
      && (s < 0 ==> avg * c - c < s <= avg * c <= 0)
  {
  }

  /** The mean lies between the smallest and the largest selected price. */
  lemma MeanWithinPrices(prices: map<i32, i32>, lo: i32, hi: i32, low: int, high: int)
    requires forall k :: k in prices && lo <= k <= hi ==> low <= prices[k] <= high
    requires Count(prices, lo, hi) > 0 && low <= high
    ensures low <= Mean(prices, lo, hi) <= high
  {
    SumWithin(prices, lo, hi, low, high);
    TruncDivWithin(Sum(prices, lo, hi), Count(prices, lo, hi), low, high);
  }

  /** A query whose range is inverted, or holds no stored timestamp, is answered with 0. */
  lemma EmptyQuery(prices: map<i32, i32>, lo: i32, hi: i32)
    requires lo > hi || forall k :: k in prices ==> k < lo || hi < k
    ensures Mean(prices, lo, hi) == 0
  {
    CountIsSelected(prices, lo, hi);
    assert Selected(prices, lo, hi) == {};
  }

  // ---------------------------------------------------------------------------------------------
  // One command against the store, and a whole session

  /** `generate_response` as a function: the reply, if any, and the store afterwards. */
  function Respond(prices: map<i32, i32>, cmd: Command): (r: (Option<i32>, map<i32, i32>))
    ensures r.0.Some? <==> cmd.cType == Query
    ensures cmd.cType == Query ==> r.0.value == Mean(prices, cmd.first, cmd.second)
    ensures cmd.cType != Insert ==> r.1 == prices
    ensures cmd.cType == Insert ==> r.1.Keys == prices.Keys + {cmd.first}
    ensures forall k :: k in prices ==> k in r.1 && r.1[k] == prices[k]
    ensures cmd.cType == Insert && cmd.first !in prices ==> r.1[cmd.first] == cmd.second
  {
    match cmd.cType
    case Query => (Some(Mean(prices, cmd.first, cmd.second)), prices)
    case Insert => (None, if cmd.first in prices then prices else prices[cmd.first := cmd.second])
    case Invalid => (None, prices)
  }

  /** The consecutive 9-byte commands in `s`; a partial command at the end is dropped. */
  function Commands(s: Bytes): (cmds: seq<Command>)
    ensures |cmds| == |s| / COMMAND_LEN
    decreases |s|
  {
    if |s| < COMMAND_LEN then []
    else [ParseCommand(s[..COMMAND_LEN])] + Commands(s[COMMAND_LEN..])
  }

  /** Executing `cmds` in order from `prices`: the concatenated replies and the final store. */
  function Run(prices: map<i32, i32>, cmds: seq<Command>): (r: (Bytes, map<i32, i32>))
    decreases |cmds|
  {
    if cmds == [] then ([], prices)
    else
      var (reply, next) := Respond(prices, cmds[0]);
      var (more, last) := Run(next, cmds[1..]);
      (ReplyBytes(reply) + more, last)
  }

  /** The first price inserted for timestamp `k` in `cmds`, if any. */
  function FirstInsert(cmds: seq<Command>, k: i32): Option<i32>
    decreases |cmds|
  {
    if cmds == [] then None
    else if cmds[0].cType == Insert && cmds[0].first == k then Some(cmds[0].second)
    else FirstInsert(cmds[1..], k)
  }

  function QueryCount(cmds: seq<Command>): nat
    decreases |cmds|
  {
    if cmds == [] then 0 else (if cmds[0].cType == Query then 1 else 0) + QueryCount(cmds[1..])
  }

  /**
   * First write wins, and nothing else is ever stored: after a run, a timestamp maps to the price
   * it had before, or else to the price of the first insert for it, or is absent.
   */
  lemma {:induction false} StoredIsFirstInsert(prices: map<i32, i32>, cmds: seq<Command>, k: i32)
    ensures var last := Run(prices, cmds).1;
      && (k in prices ==> k in last && last[k] == prices[k])
      && (k !in prices ==> (k in last <==> FirstInsert(cmds, k).Some?))
      && (k !in prices && k in last ==> last[k] == FirstInsert(cmds, k).value)
    decreases |cmds|
  {
    if cmds != [] {
      StoredIsFirstInsert(Respond(prices, cmds[0]).1, cmds[1..], k);
    }
  }

  /** Every query gets exactly one 4-byte reply, and nothing else is sent. */
  lemma {:induction false} RepliesPerQuery(prices: map<i32, i32>, cmds: seq<Command>)
    ensures |Run(prices, cmds).0| == REPLY_LEN * QueryCount(cmds)
    decreases |cmds|
  {
    if cmds != [] {
      RepliesPerQuery(Respond(prices, cmds[0]).1, cmds[1..]);
    }
  }

  /** What is sent for one response: its 4 big-endian bytes, or nothing. */
  function ReplyBytes(response: Option<i32>): (b: Bytes)
    ensures |b| == if response.Some? then REPLY_LEN else 0
  {
    if response.Some? then ToBeBytes(response.value) else []
  }

  /** The replies to a stream that starts with `frame` are the reply to it, then the rest's. */
  lemma RunFirstFrame(prices: map<i32, i32>, frame: Bytes, tail: Bytes)
    requires |frame| == COMMAND_LEN
    ensures Run(prices, Commands(frame + tail)).0
         == ReplyBytes(Respond(prices, ParseCommand(frame)).0)
          + Run(Respond(prices, ParseCommand(frame)).1, Commands(tail)).0
  {
    var s := frame + tail;
    assert s[..COMMAND_LEN] == frame && s[COMMAND_LEN..] == tail;
    assert Commands(s)[1..] == Commands(tail);
  }

  /** The loop's invariant carried over one executed frame. */
  lemma FrameStep(total: Bytes, replies: Bytes, prices: map<i32, i32>, frame: Bytes, tail: Bytes)
    requires |frame| == COMMAND_LEN
    requires total == replies + Run(prices, Commands(frame + tail)).0
    ensures var (response, next) := Respond(prices, ParseCommand(frame));
      total == (replies + ReplyBytes(response)) + Run(next, Commands(tail)).0
  {
    RunFirstFrame(prices, frame, tail);
  }

  // ---------------------------------------------------------------------------------------------
  // The per-connection store and the framing loop

  class Datastore {
    var prices: map<i32, i32>

    constructor ()
      ensures prices == map[]
    {
      prices := map[];
    }

    /** `Command::generate_response` against this store. */
    method GenerateResponse(cmd: Command) returns (response: Option<i32>)
      modifies this
      ensures (response, prices) == Respond(old(prices), cmd)
    {
      match cmd.cType {
        case Query =>
          response := Some(Mean(prices, cmd.first, cmd.second));
        case Insert =>
          if cmd.first !in prices {
            prices := prices[cmd.first := cmd.second];
          }
          response := None;
        case Invalid =>
          response := None;
      }
    }
  }

  /**
   * `handle_client`: collect 9 bytes however the reads split them, execute each command against a
   * fresh store, and send each reply. The replies depend only on the bytes delivered.
   */
  method HandleClient(input: seq<Read>) returns (replies: Bytes)
    ensures replies == Run(map[], Commands(Delivered(input))).0
  {
    var datastore := new Datastore();
    var buffer := new byte[COMMAND_LEN](_ => 0);
    var w: nat := 0;
    var rest := input;
    ghost var total := Run(map[], Commands(Delivered(input))).0;
    replies := [];
    assert buffer[..w] + Delivered(rest) == Delivered(input);
    while true
      invariant w < COMMAND_LEN && buffer.Length == COMMAND_LEN
      invariant total == replies + Run(datastore.prices, Commands(buffer[..w] + Delivered(rest))).0
      decreases Size(rest)
    {
      var ended, filled, pending, sent := Step(datastore, buffer, w, rest, total, replies);
      if ended {
        assert buffer[..w] + Delivered(rest) == buffer[..w];
        ShortPending(datastore.prices, buffer[..w]);
        break;
      }
      w, rest, replies := filled, pending, sent;
    }
  }

  /** Fewer than 9 bytes left over hold no command and get no reply. */
  lemma ShortPending(prices: map<i32, i32>, pending: Bytes)
    requires |pending| < COMMAND_LEN
    ensures Run(prices, Commands(pending)).0 == []
  {
  }

  /**
   * One pass of the loop of `handle_client`: a read, and when it completes the 9 bytes, the
   * command executed and the buffer emptied. The replies still owed stay those of the bytes the
   * buffer and the stream still hold.
   */
  method Step(datastore: Datastore, buffer: array<byte>, w: nat, input: seq<Read>, ghost total: Bytes,
              replies: Bytes) returns (ended: bool, filled: nat, rest: seq<Read>, sent: Bytes)
    requires buffer.Length == COMMAND_LEN && w < COMMAND_LEN
    requires total == replies + Run(datastore.prices, Commands(buffer[..w] + Delivered(input))).0
    modifies datastore, buffer
    ensures ended ==> Delivered(input) == [] && buffer[..w] == old(buffer[..w])
    ensures ended ==> datastore.prices == old(datastore.prices) && sent == replies
    ensures !ended ==> filled < COMMAND_LEN && Size(rest) < Size(input)
    ensures !ended ==> total == sent + Run(datastore.prices, Commands(buffer[..filled] + Delivered(rest))).0
  {
    ended, filled, rest := ReadInto(buffer, w, input);
    sent := replies;
    if ended || filled < COMMAND_LEN {
      return;
    }
    assert buffer[..filled] == buffer[..];
    sent := ExecuteFrame(datastore, buffer, total, replies, Delivered(rest));
    filled := 0;
    assert buffer[..filled] + Delivered(rest) == Delivered(rest);
  }

  /** A full buffer is one command: execute it and send its reply, if any. */
  method ExecuteFrame(datastore: Datastore, buffer: array<byte>, ghost total: Bytes, replies: Bytes,
                      ghost tail: Bytes) returns (sent: Bytes)
    requires buffer.Length == COMMAND_LEN
    requires total == replies + Run(datastore.prices, Commands(buffer[..] + tail)).0
    modifies datastore
    ensures total == sent + Run(datastore.prices, Commands(tail)).0
  {
    var frame := buffer[..];
    FrameStep(total, replies, datastore.prices, frame, tail);
    var response := datastore.GenerateResponse(ParseCommand(frame));
    sent := replies + ReplyBytes(response);
  }

  /**
   * One `read` of `handle_client` into the free part `buffer[w..]`: either the stream has ended
   * (nothing more is delivered), or the buffer holds more bytes and the bytes still owed from its
   * start on are the same as before.
   */
  method ReadInto(buffer: array<byte>, w: nat, input: seq<Read>) returns (ended: bool, filled: nat, rest: seq<Read>)
    requires buffer.Length == COMMAND_LEN && w < COMMAND_LEN
    modifies buffer
    ensures ended ==> Delivered(input) == [] && buffer[..] == old(buffer[..])
    ensures !ended ==> w < filled <= COMMAND_LEN && Size(rest) < Size(input)
    ensures !ended ==> buffer[..filled] + Delivered(rest) == old(buffer[..w]) + Delivered(input)
  {
    var r;
    r, rest := Pull(input, COMMAND_LEN - w).0, Pull(input, COMMAND_LEN - w).1;
    PullDelivered(input, COMMAND_LEN - w);
    if r == Failed || r == Data([]) {
      return true, w, rest;
    }
    var d := r.bytes;
    ghost var before := buffer[..w];
    ghost var prev := buffer[..];
    assert before == prev[..w];
    CopyInto(buffer, w, d);
    ghost var contents := buffer[..];
    CopiedSlices(prev, contents, w, d);
    filled := w + |d|;
    assert buffer[..filled] == contents[..filled] == before + d;
    AppendAssoc(before, d, Delivered(rest));
    ended := false;
  }

  /** Two queries around an insert: the reply stream holds one 4-byte mean per query. */
  lemma SessionExample()
    ensures Run(map[], [Command(Query, 0, 10), Command(Insert, 5, 100), Command(Query, 0, 10)]).0
         == ToBeBytes(0) + ToBeBytes(100)
  {
    var m: map<i32, i32> := map[5 := 100];
    var q := Command(Query, 0, 10);
    EmptyQuery(map[], 0, 10);
    OneStored(0, 10);
    assert Mean(m, 0, 10) == 100;
    var cmds := [q, Command(Insert, 5, 100), q];
    assert cmds[1..][1..] == [q];
    assert Run(m, [q]).0 == ToBeBytes(100);
    assert Run(map[], cmds[1..]).0 == ToBeBytes(100);
  }

  /** With one price stored in the range, the count is 1 and the sum is that price. */
  lemma {:induction false} OneStored(lo: int, hi: int)
    requires 0 <= lo <= 5 <= hi
    ensures Count(map[5 := 100], lo, hi) == 1 && Sum(map[5 := 100], lo, hi) == 100
    decreases hi - lo
  {
    if lo < 5 {
      OneStored(lo + 1, hi);
    } else {
      NoneAbove(6, hi);
    }
  }

  lemma {:induction false} NoneAbove(lo: int, hi: int)
    requires lo > 5
    ensures Count(map[5 := 100], lo, hi) == 0 && Sum(map[5 := 100], lo, hi) == 0
    decreases hi - lo
  {
    if lo <= hi {
      NoneAbove(lo + 1, hi);
    }
  }
}
