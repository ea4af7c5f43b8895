/**
 * The input side of a connection, as the sequence of results its successive `read` calls return.
 *
 * `Data(d)` is a read that hands over the bytes `d` (`Data([])` is `Ok(0)`, end of stream) and
 * `Failed` is a read that returns an error. A chunk longer than the buffer a read offers is split:
 * the read takes what fits and the remainder stays in the socket for the next read. Once the list
 * is exhausted the peer has closed the connection, so every further read returns `Ok(0)`.
 */
module Stream {
  import opened Bytes

  datatype Read = Data(bytes: Bytes) | Failed

  /** One `read` into a buffer with `room` free bytes: what it returns, and the input still pending. */
  function Pull(input: seq<Read>, room: nat): (res: (Read, seq<Read>))
    requires room > 0
    ensures res.0.Data? ==> |res.0.bytes| <= room
    ensures input != [] ==> Size(res.1) < Size(input)
    ensures input == [] ==> res == (Data([]), [])
  {
    if input == [] then (Data([]), [])
    else match input[0]
      case Failed => (Failed, input[1..])
      case Data(d) =>
        if |d| <= room then (Data(d), input[1..])
        else (Data(d[..room]), [Data(d[room..])] + input[1..])
  }

  /** A measure of the input still pending; every read of a non-exhausted stream lowers it. */
  function Size(input: seq<Read>): nat
  {
    if input == [] then 0
    else (match input[0] case Failed => 1 case Data(d) => |d| + 1) + Size(input[1..])
  }

  /** The bytes the peer hands over before the stream ends (an empty read or a failed one). */
  function Delivered(input: seq<Read>): Bytes
  {
    if input == [] then []
    else match input[0]
      case Failed => []
      case Data(d) => if d == [] then [] else d + Delivered(input[1..])
  }

  /** The stream ends with a read error rather than with end of file. */
  predicate EndsInFailure(input: seq<Read>)
  {
    if input == [] then false
    else match input[0]
      case Failed => true
      case Data(d) => if d == [] then false else EndsInFailure(input[1..])
  }

  /** A read that returns data leaves the delivered stream intact: that data, then the rest. */
  lemma PullDelivered(input: seq<Read>, room: nat)
    requires room > 0
    ensures Pull(input, room).0 == Failed ==> Delivered(input) == [] && EndsInFailure(input)
    ensures Pull(input, room).0 == Data([]) ==> Delivered(input) == [] && !EndsInFailure(input)
    ensures var (r, rest) := Pull(input, room);
      r.Data? && r.bytes != [] ==>
        Delivered(input) == r.bytes + Delivered(rest) && EndsInFailure(input) == EndsInFailure(rest)
  {
    if input != [] && input[0].Data? {
      var d := input[0].bytes;
      if |d| > room {
        assert input == [Data(d)] + input[1..];
        SplitChunkDelivered(d, input[1..], room);
      }
    }
  }

  /** Splitting a chunk in two keeps what the stream delivers and how it ends. */
  lemma SplitChunkDelivered(d: Bytes, tail: seq<Read>, room: nat)
    requires 0 < room < |d|
    ensures Delivered([Data(d)] + tail) == d[..room] + Delivered([Data(d[room..])] + tail)
    ensures EndsInFailure([Data(d)] + tail) == EndsInFailure([Data(d[room..])] + tail)
  {
    var whole := [Data(d)] + tail;
    var rest := [Data(d[room..])] + tail;
    assert whole[0] == Data(d) && whole[1..] == tail;
    assert rest[0] == Data(d[room..]) && rest[1..] == tail;
    assert d == d[..room] + d[room..];
  }
}
