/** The two blocking read primitives of EdiManager/EdimaxUtils.cs: the
    exact-length `ReadBytes(stream, count)` and the marker-terminated
    `ReadBytes(stream, endMarker)`.

    A TCP stream is modelled by what its successive reads would return: a
    sequence of segments, each the data one `Read` call hands back or a
    fault (a receive timeout or reset, which throws). A segment longer than
    the caller asked for is split, its remainder staying at the head of the
    stream for the next read. Past the last segment the peer has closed the
    connection: every further `Read` returns 0 bytes and `ReadByte`
    returns -1. */
module Framing {
  import opened Text

  datatype Segment = Chunk(data: seq<byte>) | Fault

  type Stream = seq<Segment>

  datatype ReadError =
    | ConnectionBroken   // more than 100 zero-length reads in a row
    | EndOfStream        // ReadByte returned -1
    | IoFault            // the socket threw (timeout, reset)
    | NegativeCount      // `new byte[count]` with a negative count throws

  /** The outcome of a read: the value and the stream after it, or the error
      and the stream as it stood when the error struck. */
  datatype Read<T> = Got(value: T, rest: Stream) | Broke(error: ReadError, rest: Stream)

  /** Zero-length reads tolerated in a row; the next one breaks the connection. */
  const ZeroReadLimit: nat := 100

  /** Every byte the stream will ever deliver, faults skipped. */
  function Flatten(s: Stream): seq<byte> {
    if |s| == 0 then []
    else (match s[0] case Chunk(d) => d case Fault => []) + Flatten(s[1..])
  }

  predicate NoFault(s: Stream) {
    forall i :: 0 <= i < |s| ==> s[i].Chunk?
  }

  /** Every segment delivers at least one byte. */
  predicate Dense(s: Stream) {
    forall i :: 0 <= i < |s| ==> s[i].Chunk? && |s[i].data| > 0
  }

  /** `k` zero-length reads, then `tail`. */
  function ZeroReads(k: nat, tail: Stream): (s: Stream)
    ensures |s| == k + |tail| && Flatten(s) == Flatten(tail)
  {
    if k == 0 then tail
    else
      var t := ZeroReads(k - 1, tail);
      assert ([Chunk([])] + t)[1..] == t;
      [Chunk([])] + t
  }

  // ---------------------------------------------------------------------
  // ReadBytes(stream, count)

  /** What one segment contributes to `Flatten`. */
  function SegmentData(seg: Segment): seq<byte> {
    match seg case Chunk(d) => d case Fault => []
  }

  lemma FlattenCons(seg: Segment, t: Stream)
    ensures Flatten([seg] + t) == SegmentData(seg) + Flatten(t)
  {
    assert ([seg] + t)[1..] == t;
  }

  lemma SplitChunk(d: seq<byte>, want: nat, t: Stream)
    requires want < |d|
    ensures Flatten([Chunk(d)] + t) == d[..want] + Flatten([Chunk(d[want..])] + t)
    ensures NoFault([Chunk(d)] + t) ==> NoFault([Chunk(d[want..])] + t)
    ensures Dense([Chunk(d)] + t) ==> Dense([Chunk(d[want..])] + t)
  {
    FlattenCons(Chunk(d), t);
    FlattenCons(Chunk(d[want..]), t);
    assert d == d[..want] + d[want..];
    var a := [Chunk(d)] + t;
    var b := [Chunk(d[want..])] + t;
    assert forall i :: 1 <= i < |b| ==> b[i] == a[i];
  }

  /** One `stream.Read(buffer, offset, want)`. */
  function ReadOnce(s: Stream, want: nat): (r: Read<seq<byte>>)
    requires want > 0
    ensures r.Got? ==> |r.value| <= want && Flatten(s) == r.value + Flatten(r.rest)
    ensures r.Got? ==>
      || |r.rest| < |s|
      || (|r.rest| == |s| && |r.value| == want)
      || (s == [] && r.rest == [] && r.value == [])
    ensures r.Got? && NoFault(s) ==> NoFault(r.rest)
    ensures r.Got? && Dense(s) ==> Dense(r.rest) && (|s| > 0 ==> |r.value| > 0)
    ensures r.Broke? ==> r.error == IoFault && |s| > 0 && s[0] == Fault
    ensures NoFault(s) ==> r.Got?
  {
    if |s| == 0 then Got([], [])
    else
      assert s == [s[0]] + s[1..];
      FlattenCons(s[0], s[1..]);
      match s[0]
      case Fault => Broke(IoFault, s[1..])
      case Chunk(d) =>
        if |d| <= want then Got(d, s[1..])
        else
          SplitChunk(d, want, s[1..]);
          Got(d[..want], [Chunk(d[want..])] + s[1..])
  }

  /** `acc + f[..left]` split at a first read `d` of the stream `f`. */
  lemma PrefixAfterRead(acc: seq<byte>, d: seq<byte>, g: seq<byte>, left: nat, v: seq<byte>, tail: seq<byte>)
    requires |d| <= left && left - |d| <= |g|
    requires v == acc + d + g[..left - |d|] && tail == g[left - |d|..]
    ensures left <= |d + g|
    ensures v == acc + (d + g)[..left] && tail == (d + g)[left..]
  {
    assert (d + g)[..left] == d + g[..left - |d|];
    assert (d + g)[left..] == g[left - |d|..];
  }

  /** The loop of `ReadBytes(stream, count)` with `left` bytes still to read,
      `zeros` zero-length reads just behind it and `acc` read so far. */
  function ReadExactLoop(s: Stream, left: nat, zeros: nat, acc: seq<byte>): (r: Read<seq<byte>>)
    requires zeros <= ZeroReadLimit
    ensures r.Got? ==> left <= |Flatten(s)|
    ensures r.Got? ==> r.value == acc + Flatten(s)[..left] && Flatten(r.rest) == Flatten(s)[left..]
    ensures r.Broke? ==> r.error == ConnectionBroken || r.error == IoFault
    decreases |s|, left, ZeroReadLimit - zeros
  {
    if left == 0 then Got(acc, s)
    else match ReadOnce(s, left)
      case Broke(e, rest) => Broke(e, rest)
      case Got(d, rest) =>
        var zeros' := if |d| == 0 then zeros + 1 else 0;
        if zeros' > ZeroReadLimit then Broke(ConnectionBroken, rest)
        else
          var r := ReadExactLoop(rest, left - |d|, zeros', acc + d);
          if r.Got? then
            PrefixAfterRead(acc, d, Flatten(rest), left, r.value, Flatten(r.rest));
            r
          else r
  }

  /** `EdimaxUtils.ReadBytes(stream, count)`: exactly `count` bytes, the next
      ones the stream delivers, or an error. */
  function ReadExact(s: Stream, count: int): (r: Read<seq<byte>>)
    ensures r.Got? ==> count >= 0 && |r.value| == count
    ensures r.Got? ==> Flatten(s) == r.value + Flatten(r.rest)
    ensures count < 0 ==> r == Broke(NegativeCount, s)
  {
    if count < 0 then Broke(NegativeCount, s)
    else
      var r := ReadExactLoop(s, count, 0, []);
      if r.Got? then
        PrefixJoin(Flatten(s), r.value, Flatten(r.rest), count);
        r
      else r
  }

  lemma PrefixJoin(f: seq<byte>, v: seq<byte>, tail: seq<byte>, n: nat)
    requires n <= |f| && v == [] + f[..n] && tail == f[n..]
    ensures f == v + tail && |v| == n
  {
    assert f == f[..n] + f[n..];
  }

  lemma ReadExactIsLoop(s: Stream, n: nat)
    ensures ReadExact(s, n) == ReadExactLoop(s, n, 0, [])
  {
  }

  /** A stream that closes (without a fault) before `left` bytes arrive ends
      in the dead-connection error: after its data the reads return 0 and the
      101st of them in a row gives up. */
  lemma {:induction false} ShortStreamBreaks(s: Stream, left: nat, zeros: nat, acc: seq<byte>)
    requires zeros <= ZeroReadLimit
    requires NoFault(s) && |Flatten(s)| < left
    ensures ReadExactLoop(s, left, zeros, acc).Broke?
    ensures ReadExactLoop(s, left, zeros, acc).error == ConnectionBroken
    decreases |s|, left, ZeroReadLimit - zeros
  {
    var r := ReadOnce(s, left);
    assert r.Got?;
    var zeros' := if |r.value| == 0 then zeros + 1 else 0;
    if zeros' <= ZeroReadLimit {
      ShortStreamBreaks(r.rest, left - |r.value|, zeros', acc + r.value);
    }
  }

  /** A fault-free stream whose every read delivers data, and that delivers
      at least `left` bytes, always satisfies the read, and what it leaves is
      dense again. */
  lemma {:induction false} DenseStreamSucceeds(s: Stream, left: nat, acc: seq<byte>)
    requires Dense(s) && left <= |Flatten(s)|
    ensures ReadExactLoop(s, left, 0, acc).Got?
    ensures Dense(ReadExactLoop(s, left, 0, acc).rest)
    decreases |s|, left
  {
    if left > 0 {
      assert |s| > 0;
      var r := ReadOnce(s, left);
      DenseStreamSucceeds(r.rest, left - |r.value|, acc + r.value);
    }
  }

  /** A dense stream that starts with `p` gives up its first `n` bytes and
      stays dense. */
  lemma DenseRead(n: nat, p: seq<byte>, t: Stream, s: Stream)
    requires n <= |p| && Dense(s) && Flatten(s) == p + Flatten(t)
    ensures ReadExact(s, n).Got? && ReadExact(s, n).value == p[..n]
    ensures Flatten(ReadExact(s, n).rest) == p[n..] + Flatten(t)
    ensures Dense(ReadExact(s, n).rest)
  {
    DenseStreamSucceeds(s, n, []);
    ReadExactIsLoop(s, n);
    var rd := ReadExact(s, n);
    assert rd.value == (p + Flatten(t))[..n] == p[..n];
    assert (p + Flatten(t))[n..] == p[n..] + Flatten(t);
  }

  /** One turn of the loop, unfolded. */
  lemma LoopStep(s: Stream, left: nat, zeros: nat, acc: seq<byte>, d: seq<byte>, rest: Stream)
    requires left > 0 && zeros <= ZeroReadLimit
    requires ReadOnce(s, left) == Got(d, rest)
    ensures var z := if |d| == 0 then zeros + 1 else 0;
      ReadExactLoop(s, left, zeros, acc) ==
        if z > ZeroReadLimit then Broke(ConnectionBroken, rest)
        else ReadExactLoop(rest, left - |d|, z, acc + d)
  {
  }

  lemma ReadOnceEmpty(t: Stream, want: nat)
    requires want > 0
    ensures ReadOnce([Chunk([])] + t, want) == Got([], t)
  {
    assert ([Chunk([])] + t)[1..] == t;
  }

  /** A zero-length read only advances the counter. */
  lemma EmptyStep(tail: Stream, left: nat, zeros: nat, acc: seq<byte>)
    requires left > 0 && zeros <= ZeroReadLimit
    ensures zeros < ZeroReadLimit ==>
      ReadExactLoop([Chunk([])] + tail, left, zeros, acc) == ReadExactLoop(tail, left, zeros + 1, acc)
    ensures zeros == ZeroReadLimit ==>
      ReadExactLoop([Chunk([])] + tail, left, zeros, acc) == Broke(ConnectionBroken, tail)
  {
    ReadOnceEmpty(tail, left);
    LoopStep([Chunk([])] + tail, left, zeros, acc, [], tail);
    assert acc + [] == acc;
  }

  /** The first of `k` zero-length reads, unfolded. */
  lemma ZeroReadsStep(k: nat, tail: Stream, left: nat, zeros: nat, acc: seq<byte>)
    requires k > 0 && left > 0 && zeros <= ZeroReadLimit
    ensures ReadExactLoop(ZeroReads(k, tail), left, zeros, acc) ==
      if zeros < ZeroReadLimit then ReadExactLoop(ZeroReads(k - 1, tail), left, zeros + 1, acc)
      else Broke(ConnectionBroken, ZeroReads(k - 1, tail))
  {
    EmptyStep(ZeroReads(k - 1, tail), left, zeros, acc);
  }

  /** `k` zero-length reads ahead of `tail` only advance the counter while
      it stays within the limit. */
  lemma {:induction false} ZeroReadsSkip(k: nat, tail: Stream, left: nat, zeros: nat, total: nat, acc: seq<byte>)
    requires left > 0 && total == zeros + k <= ZeroReadLimit
    ensures ReadExactLoop(ZeroReads(k, tail), left, zeros, acc) == ReadExactLoop(tail, left, total, acc)
  {
    if k > 0 {
      ZeroReadsStep(k, tail, left, zeros, acc);
      ZeroReadsSkip(k - 1, tail, left, zeros + 1, total, acc);
    }
  }

  /** Zero-length reads that take the counter past the limit break the
      connection. */
  lemma {:induction false} ZeroReadsBreak(k: nat, tail: Stream, left: nat, zeros: nat, acc: seq<byte>)
    requires left > 0 && zeros <= ZeroReadLimit < zeros + k
    ensures ReadExactLoop(ZeroReads(k, tail), left, zeros, acc).Broke?
    ensures ReadExactLoop(ZeroReads(k, tail), left, zeros, acc).error == ConnectionBroken
  {
    ZeroReadsStep(k, tail, left, zeros, acc);
    if zeros < ZeroReadLimit {
      ZeroReadsBreak(k - 1, tail, left, zeros + 1, acc);
    }
  }

  /** The dead-connection rule: `k` zero-length reads followed by enough data
      satisfy a read of `n` bytes exactly when `k` is at most 100; the 101st
      consecutive zero-length read breaks the connection. */
  lemma ZeroReadThreshold(k: nat, d: seq<byte>, n: nat)
    requires 0 < n <= |d|
    ensures ReadExact(ZeroReads(k, [Chunk(d)]), n).Got? <==> k <= ZeroReadLimit
    ensures k > ZeroReadLimit ==> ReadExact(ZeroReads(k, [Chunk(d)]), n).error == ConnectionBroken
  {
    ReadExactIsLoop(ZeroReads(k, [Chunk(d)]), n);
    if k <= ZeroReadLimit {
      ZeroReadsSkip(k, [Chunk(d)], n, 0, k, []);
      DenseTail(d, n, k, []);
    } else {
      ZeroReadsBreak(k, [Chunk(d)], n, 0, []);
    }
  }

  lemma DenseTail(d: seq<byte>, n: nat, zeros: nat, acc: seq<byte>)
    requires 0 < n <= |d| && zeros <= ZeroReadLimit
    ensures ReadExactLoop([Chunk(d)], n, zeros, acc).Got?
  {
    var r := ReadOnce([Chunk(d)], n);
    assert |r.value| == n;
  }

  /** Any read that delivers data resets the counter: up to 100 zero-length
      reads, some data, then up to 100 more zero-length reads and the rest
      of the data still satisfy the read, up to 200 zero-length reads in all. */
  lemma ProgressResetsZeroCount(k1: nat, d1: seq<byte>, k2: nat, d2: seq<byte>)
    requires k1 <= ZeroReadLimit && k2 <= ZeroReadLimit
    requires |d1| > 0 && |d2| > 0
    ensures ReadExact(ZeroReads(k1, [Chunk(d1)] + ZeroReads(k2, [Chunk(d2)])), |d1| + |d2|).Got?
  {
    var n := |d1| + |d2|;
    var s := ZeroReads(k1, [Chunk(d1)] + ZeroReads(k2, [Chunk(d2)]));
    ProgressLoop(k1, d1, k2, d2, n);
    ReadExactIsLoop(s, n);
  }

  lemma ProgressLoop(k1: nat, d1: seq<byte>, k2: nat, d2: seq<byte>, n: nat)
    requires k1 <= ZeroReadLimit && k2 <= ZeroReadLimit
    requires |d1| > 0 && |d2| > 0 && n == |d1| + |d2|
    ensures ReadExactLoop(ZeroReads(k1, [Chunk(d1)] + ZeroReads(k2, [Chunk(d2)])), n, 0, []).Got?
  {
    var tail := ZeroReads(k2, [Chunk(d2)]);
    ZeroReadsSkip(k1, [Chunk(d1)] + tail, n, 0, k1, []);
    ChunkStep(d1, tail, n, k1, []);
    LastChunkAfterZeroReads(k2, d2, n - |d1|, [] + d1);
  }

  lemma LastChunkAfterZeroReads(k: nat, d: seq<byte>, left: nat, acc: seq<byte>)
    requires k <= ZeroReadLimit && 0 < left == |d|
    ensures ReadExactLoop(ZeroReads(k, [Chunk(d)]), left, 0, acc).Got?
  {
    ZeroReadsSkip(k, [Chunk(d)], left, 0, k, acc);
    DenseTail(d, left, k, acc);
  }

  /** A read that delivers data puts the counter back to zero. */
  lemma ChunkStep(d: seq<byte>, tail: Stream, left: nat, zeros: nat, acc: seq<byte>)
    requires 0 < |d| <= left && zeros <= ZeroReadLimit
    ensures ReadExactLoop([Chunk(d)] + tail, left, zeros, acc) == ReadExactLoop(tail, left - |d|, 0, acc + d)
  {
    assert ([Chunk(d)] + tail)[1..] == tail;
    assert ReadOnce([Chunk(d)] + tail, left) == Got(d, tail);
    LoopStep([Chunk(d)] + tail, left, zeros, acc, d, tail);
  }

  // ---------------------------------------------------------------------
  // ReadBytes(stream, endMarker)

  /** The bytes `ReadByte` can deliver before it reports the end of the
      stream (a zero-length read, or the close) or a fault. */
  function Available(s: Stream): seq<byte> {
    if |s| == 0 then []
    else match s[0]
      case Fault => []
      case Chunk(d) => if |d| == 0 then [] else d + Available(s[1..])
  }

  /** A measure of what is left in a stream. */
  function Size(s: Stream): nat {
    if |s| == 0 then 0
    else 1 + (match s[0] case Chunk(d) => |d| case Fault => 0) + Size(s[1..])
  }

  lemma ChunkCons(d: seq<byte>, t: Stream)
    requires |d| > 0
    ensures Available([Chunk(d)] + t) == d + Available(t)
    ensures Flatten([Chunk(d)] + t) == d + Flatten(t)
    ensures Size([Chunk(d)] + t) == 1 + |d| + Size(t)
  {
    assert ([Chunk(d)] + t)[1..] == t;
  }

  /** One `stream.ReadByte()`. */
  function ReadByte(s: Stream): (r: Read<byte>)
    ensures r.Got? ==> Available(s) == [r.value] + Available(r.rest)
    ensures r.Got? ==> Flatten(s) == [r.value] + Flatten(r.rest)
    ensures r.Got? ==> Size(r.rest) < Size(s)
    ensures r.Got? && Dense(s) ==> Dense(r.rest)
    ensures r.Broke? ==> |Available(s)| == 0
    ensures r.Broke? ==> r.error == EndOfStream || r.error == IoFault
  {
    if |s| == 0 then Broke(EndOfStream, s)
    else match s[0]
      case Fault => Broke(IoFault, s[1..])
      case Chunk(d) =>
        if |d| == 0 then Broke(EndOfStream, s[1..])
        else
          assert s == [Chunk(d)] + s[1..];
          ChunkCons(d, s[1..]);
          if |d| == 1 then
            assert d == [d[0]];
            Got(d[0], s[1..])
          else
            ChunkCons(d[1..], s[1..]);
            assert d == [d[0]] + d[1..];
            Got(d[0], [Chunk(d[1..])] + s[1..])
  }

  /** The check after every byte: at least as many bytes as the marker, and
      the last ones equal to it. */
  predicate EndsWith(p: seq<byte>, marker: seq<byte>) {
    |p| >= |marker| && p[|p| - |marker|..] == marker
  }

  /** The loop of `ReadBytes(stream, endMarker)` with `acc` read so far, none
      of whose non-empty prefixes ended the loop. */
  function ReadUntilLoop(s: Stream, marker: seq<byte>, acc: seq<byte>): (r: Read<seq<byte>>)
    requires forall k :: 1 <= k <= |acc| ==> !EndsWith(acc[..k], marker)
    ensures r.Got? ==>
      && |acc| < |r.value| <= |acc| + |Available(s)|
      && r.value == (acc + Available(s))[..|r.value|]
      && EndsWith(r.value, marker)
      && (forall k :: 1 <= k < |r.value| ==> !EndsWith(r.value[..k], marker))
      && Flatten(s) == r.value[|acc|..] + Flatten(r.rest)
    ensures r.Got? && Dense(s) ==> Dense(r.rest)
    ensures r.Broke? ==>
      forall k :: |acc| < k <= |acc| + |Available(s)| ==> !EndsWith((acc + Available(s))[..k], marker)
    ensures r.Broke? ==> r.error == EndOfStream || r.error == IoFault
    decreases Size(s)
  {
    match ReadByte(s)
    case Broke(e, rest) => Broke(e, rest)
    case Got(b, rest) =>
      var acc' := acc + [b];
      if EndsWith(acc', marker) then
        UntilDone(acc, b, Available(rest), marker);
        Got(acc', rest)
      else
        PrefixesOfLonger(acc, b, marker);
        var r := ReadUntilLoop(rest, marker, acc');
        match r
        case Got(v, rest') =>
          UntilStepGot(acc, b, Available(rest), Flatten(rest), marker, v, Flatten(rest'));
          r
        case Broke(_, _) =>
          UntilStepBroke(acc, b, Available(rest), marker);
          r
  }

  lemma PrefixesOfLonger(acc: seq<byte>, b: byte, marker: seq<byte>)
    requires forall k :: 1 <= k <= |acc| ==> !EndsWith(acc[..k], marker)
    requires !EndsWith(acc + [b], marker)
    ensures forall k :: 1 <= k <= |acc + [b]| ==> !EndsWith((acc + [b])[..k], marker)
  {
    forall k | 1 <= k <= |acc + [b]|
      ensures !EndsWith((acc + [b])[..k], marker)
    {
      if k <= |acc| {
        assert (acc + [b])[..k] == acc[..k];
      } else {
        assert (acc + [b])[..k] == acc + [b];
      }
    }
  }

  lemma UntilDone(acc: seq<byte>, b: byte, avail: seq<byte>, marker: seq<byte>)
    requires forall k :: 1 <= k <= |acc| ==> !EndsWith(acc[..k], marker)
    ensures acc + [b] == (acc + ([b] + avail))[..|acc + [b]|]
    ensures (acc + [b])[|acc|..] == [b]
    ensures forall k :: 1 <= k < |acc + [b]| ==> !EndsWith((acc + [b])[..k], marker)
  {
    forall k | 1 <= k < |acc + [b]|
      ensures !EndsWith((acc + [b])[..k], marker)
    {
      assert (acc + [b])[..k] == acc[..k];
    }
  }

  lemma UntilStepGot(acc: seq<byte>, b: byte, avail: seq<byte>, flat: seq<byte>, marker: seq<byte>,
                     v: seq<byte>, flatRest: seq<byte>)
    requires |acc| + 1 < |v| <= |acc| + 1 + |avail|
    requires v == (acc + [b] + avail)[..|v|]
    requires flat == v[|acc| + 1..] + flatRest
    ensures |acc| < |v| <= |acc| + |[b] + avail|
    ensures v == (acc + ([b] + avail))[..|v|]
    ensures [b] + flat == v[|acc|..] + flatRest
  {
    assert acc + [b] + avail == acc + ([b] + avail);
    assert v[|acc|..] == [b] + v[|acc| + 1..];
  }

  lemma UntilStepBroke(acc: seq<byte>, b: byte, avail: seq<byte>, marker: seq<byte>)
    requires !EndsWith(acc + [b], marker)
    requires forall k :: |acc + [b]| < k <= |acc + [b]| + |avail| ==> !EndsWith((acc + [b] + avail)[..k], marker)
    ensures forall k :: |acc| < k <= |acc| + |[b] + avail| ==> !EndsWith((acc + ([b] + avail))[..k], marker)
  {
    assert acc + [b] + avail == acc + ([b] + avail);
    assert (acc + [b] + avail)[..|acc| + 1] == acc + [b];
  }

  /** `EdimaxUtils.ReadBytes(stream, endMarker)`: the shortest non-empty
      prefix of what the stream delivers that ends with the marker; when the
      stream ends or faults first, an error. With an empty marker that is
      the first byte alone, since the loop always reads one. */
  function ReadUntil(s: Stream, marker: seq<byte>): (r: Read<seq<byte>>)
    ensures r.Got? ==>
      && 0 < |r.value| <= |Available(s)|
      && r.value == Available(s)[..|r.value|]
      && EndsWith(r.value, marker)
      && (forall k :: 1 <= k < |r.value| ==> !EndsWith(r.value[..k], marker))
      && Flatten(s) == r.value + Flatten(r.rest)
    ensures r.Got? && Dense(s) ==> Dense(r.rest)
    ensures r.Broke? ==>
      forall k :: 1 <= k <= |Available(s)| ==> !EndsWith(Available(s)[..k], marker)
    ensures r.Broke? ==> r.error == EndOfStream || r.error == IoFault
  {
    assert [] + Available(s) == Available(s);
    ReadUntilLoop(s, marker, [])
  }

  /** The marker read finds a message that ends with the marker and has no
      earlier marker: it returns exactly that message. */
  lemma ReadUntilFirstMarker(s: Stream, marker: seq<byte>, p: seq<byte>)
    requires |p| <= |Available(s)| && Available(s)[..|p|] == p
    requires EndsWith(p, marker) && |p| > 0
    requires forall k :: 1 <= k < |p| ==> !EndsWith(p[..k], marker)
    ensures ReadUntil(s, marker).Got? && ReadUntil(s, marker).value == p
  {
    var a := Available(s);
    assert EndsWith(a[..|p|], marker);
    var r := ReadUntil(s, marker);
    FirstMarkerUnique(a, r.value, p, marker);
  }

  /** Two prefixes of the same bytes that both end with their first marker
      are the same prefix. */
  lemma FirstMarkerUnique(a: seq<byte>, p: seq<byte>, q: seq<byte>, marker: seq<byte>)
    requires 0 < |p| <= |a| && a[..|p|] == p && EndsWith(p, marker)
    requires 0 < |q| <= |a| && a[..|q|] == q && EndsWith(q, marker)
    requires forall k :: 1 <= k < |p| ==> !EndsWith(p[..k], marker)
    requires forall k :: 1 <= k < |q| ==> !EndsWith(q[..k], marker)
    ensures p == q
  {
    var n := if |p| <= |q| then |p| else |q|;
    assert p[..n] == a[..n] == q[..n];
    assert EndsWith(a[..n], marker);
  }

  /** A message whose body holds no byte equal to the marker's first byte
      shows the marker only at its end. */
  lemma MarkerOnlyAtEnd(body: seq<byte>, marker: seq<byte>)
    requires |marker| > 0
    requires forall i :: 0 <= i < |body| ==> body[i] != marker[0]
    ensures EndsWith(body + marker, marker)
    ensures forall k :: 1 <= k < |body + marker| ==> !EndsWith((body + marker)[..k], marker)
  {
    var m := body + marker;
    assert m[|m| - |marker|..] == marker;
    forall k | 1 <= k < |m|
      ensures !EndsWith(m[..k], marker)
    {
      if k >= |marker| {
        var j := k - |marker|;
        assert m[..k][j] == m[j];
        assert j < |body|;
      }
    }
  }

  /** Everything a dense stream delivers is available to the byte reader. */
  lemma {:induction false} DenseAvailable(s: Stream)
    requires Dense(s)
    ensures Available(s) == Flatten(s)
  {
    if |s| > 0 {
      assert s == [Chunk(s[0].data)] + s[1..];
      ChunkCons(s[0].data, s[1..]);
      DenseAvailable(s[1..]);
    }
  }

  /** A message that ends with its first marker, in one chunk ahead of a
      dense stream: the marker read returns exactly the message. */
  lemma FirstMarkerRead(m: seq<byte>, p: seq<byte>, t: Stream, marker: seq<byte>)
    requires |m| > 0 && EndsWith(m, marker)
    requires forall k :: 1 <= k < |m| ==> !EndsWith(m[..k], marker)
    requires Dense(t)
    ensures var u := ReadUntil([Chunk(m + p)] + t, marker);
      && u.Got? && u.value == m
      && Dense(u.rest) && Flatten(u.rest) == p + Flatten(t)
  {
    var s := [Chunk(m + p)] + t;
    ChunkAhead(m + p, t);
    assert (m + p) + Available(t) == m + (p + Available(t));
    assert (m + p) + Flatten(t) == m + (p + Flatten(t));
    ReadUntilFirstMarker(s, marker, m);
    AppendCancel(m, Flatten(ReadUntil(s, marker).rest), p + Flatten(t));
  }

  /** A non-empty chunk ahead of a dense stream: the stream stays dense and
      the chunk's bytes come first. */
  lemma ChunkAhead(d: seq<byte>, t: Stream)
    requires |d| > 0 && Dense(t)
    ensures Dense([Chunk(d)] + t)
    ensures Available([Chunk(d)] + t) == d + Available(t)
    ensures Flatten([Chunk(d)] + t) == d + Flatten(t)
  {
    ChunkCons(d, t);
    var s := [Chunk(d)] + t;
    forall i | 0 <= i < |s| ensures s[i].Chunk? && |s[i].data| > 0 {
      if i > 0 { assert s[i] == t[i - 1]; }
    }
  }

  lemma AppendCancel(a: seq<byte>, x: seq<byte>, y: seq<byte>)
    requires a + x == a + y
    ensures x == y
  {
    assert x == (a + x)[|a|..];
  }
}
