/** The one-second receive limiter: what it delivers in a counting window and in any 1000 milliseconds. */
module ReceiveLimits {

  const TWO32: nat := 0x1_0000_0000
  const TWO64: nat := 0x1_0000_0000_0000_0000

  type UInt32 = n: nat | n < TWO32
  type UInt64 = n: nat | n < TWO64

  /** Bytes that one read returned, and the millisecond clock when they were counted. */
  datatype Chunk = Chunk(bytes: UInt32, time: UInt64)

  /** The byte limit, the bytes counted in the current window, and when the window began. */
  datatype Limiter = Limiter(limit: UInt32, count: UInt32, last: UInt64)

  /** Unsigned subtraction: a clock that runs backwards looks like one that jumped far ahead. */
  function Elapsed(now: UInt64, last: UInt64): nat {
    (now - last) % TWO64
  }

  predicate NewWindow(l: Limiter, c: Chunk) {
    Elapsed(c.time, l.last) >= 1000
  }

  function Count(l: Limiter, c: Chunk): Limiter {
    var start := if NewWindow(l, c) then 0 else l.count;
    Limiter(l.limit, (start + c.bytes) % TWO32, if NewWindow(l, c) then c.time else l.last)
  }

  predicate Overflows(l: Limiter) {
    l.limit > 0 && l.count > l.limit
  }

  function CountAll(l: Limiter, chunks: seq<Chunk>): Limiter
    decreases |chunks|
  {
    if chunks == [] then l else CountAll(Count(l, chunks[0]), chunks[1..])
  }

  /** The chunks that are passed on. */
  function Delivered(l: Limiter, chunks: seq<Chunk>): seq<Chunk>
    decreases |chunks|
  {
    if chunks == [] then []
    else
      var next := Count(l, chunks[0]);
      (if Overflows(next) then [] else [chunks[0]]) + Delivered(next, chunks[1..])
  }

  /** The bytes of the chunks counted from time `from` on and before time `until`. */
  function BytesWithin(chunks: seq<Chunk>, from: nat, until: nat): nat
    decreases |chunks|
  {
    if chunks == [] then 0
    else (if from <= chunks[0].time < until then chunks[0].bytes else 0) + BytesWithin(chunks[1..], from, until)
  }

  function BytesBetween(l: Limiter, chunks: seq<Chunk>, from: nat, until: nat): nat {
    BytesWithin(Delivered(l, chunks), from, until)
  }

  /** The clock does not run backwards. */
  predicate Monotone(now: nat, chunks: seq<Chunk>)
    decreases |chunks|
  {
    chunks == [] || (now <= chunks[0].time && Monotone(chunks[0].time, chunks[1..]))
  }

  /** Fewer than 2^32 bytes are received in each window, and a read that is counted returned something. */
  predicate NoWrap(l: Limiter, chunks: seq<Chunk>)
    decreases |chunks|
  {
    chunks == [] ||
    (&& chunks[0].bytes > 0
     && (if NewWindow(l, chunks[0]) then 0 else l.count) + chunks[0].bytes < TWO32
     && NoWrap(Count(l, chunks[0]), chunks[1..]))
  }

  /** What the current window may still deliver. */
  function Left(l: Limiter): nat {
    if l.count <= l.limit then l.limit - l.count else 0
  }

  lemma OneChunk(l: Limiter, chunks: seq<Chunk>, from: nat, until: nat)
    requires chunks != []
    ensures var next := Count(l, chunks[0]);
            BytesBetween(l, chunks, from, until) ==
            (if !Overflows(next) && from <= chunks[0].time < until then chunks[0].bytes else 0)
            + BytesBetween(next, chunks[1..], from, until)
  {
    var next := Count(l, chunks[0]);
    var rest := Delivered(next, chunks[1..]);
    if !Overflows(next) {
      assert ([chunks[0]] + rest)[1..] == rest;
    } else {
      assert [] + rest == rest;
    }
  }

  lemma ElapsedIsDifference(now: UInt64, last: UInt64)
    requires last <= now
    ensures Elapsed(now, last) == now - last
  {
  }

  lemma NothingDelivered(l: Limiter, from: nat, until: nat)
    ensures BytesBetween(l, [], from, until) == 0
  {
  }

  /** An interval that the open window began in, up to time `now`, gets at most what that window has left. */
  lemma {:induction false} InsideWindow(l: Limiter, chunks: seq<Chunk>, now: nat, from: nat)
    requires l.limit > 0 && from <= l.last <= now && Monotone(now, chunks) && NoWrap(l, chunks)
    ensures BytesBetween(l, chunks, from, from + 1000) <= Left(l)
    decreases |chunks|
  {
    hide BytesBetween;
    if chunks == [] {
      NothingDelivered(l, from, from + 1000);
    } else {
      var c := chunks[0];
      var next := Count(l, c);
      OneChunk(l, chunks, from, from + 1000);
      ElapsedIsDifference(c.time, l.last);
      if NewWindow(l, c) {
        AfterInterval(next, chunks[1..], c.time, from);
      } else {
        InsideWindow(next, chunks[1..], c.time, from);
      }
    }
  }

  /** Nothing counted later than an interval is in it. */
  lemma {:induction false} AfterInterval(l: Limiter, chunks: seq<Chunk>, now: nat, from: nat)
    requires from + 1000 <= now && Monotone(now, chunks)
    ensures BytesBetween(l, chunks, from, from + 1000) == 0
    decreases |chunks|
  {
    hide BytesBetween;
    if chunks == [] {
      NothingDelivered(l, from, from + 1000);
    } else {
      OneChunk(l, chunks, from, from + 1000);
      AfterInterval(Count(l, chunks[0]), chunks[1..], chunks[0].time, from);
    }
  }

  /** From the first chunk in the interval on: the rest of the window that is open, and at most one whole window more. */
  lemma {:induction false} AcrossWindows(l: Limiter, chunks: seq<Chunk>, now: nat, from: nat)
    requires l.limit > 0 && l.last < from <= now && Monotone(now, chunks) && NoWrap(l, chunks)
    ensures BytesBetween(l, chunks, from, from + 1000) <= Left(l) + l.limit
    decreases |chunks|
  {
    hide BytesBetween;
    if chunks == [] {
      NothingDelivered(l, from, from + 1000);
    } else {
      var c := chunks[0];
      var next := Count(l, c);
      OneChunk(l, chunks, from, from + 1000);
      ElapsedIsDifference(c.time, l.last);
      if NewWindow(l, c) {
        InsideWindow(next, chunks[1..], c.time, from);
      } else {
        AcrossWindows(next, chunks[1..], c.time, from);
      }
    }
  }

  /** With a window open that has counted something, any interval to come gets less than two limits. */
  lemma {:induction false} WithinAnySecond(l: Limiter, chunks: seq<Chunk>, now: nat, from: nat)
    requires l.limit > 0 && l.count > 0 && l.last <= now && Monotone(now, chunks) && NoWrap(l, chunks)
    ensures BytesBetween(l, chunks, from, from + 1000) <= 2 * l.limit - 1
    decreases |chunks|
  {
    hide BytesBetween;
    if chunks == [] {
      NothingDelivered(l, from, from + 1000);
    } else if from <= l.last {
      InsideWindow(l, chunks, now, from);
    } else {
      var c := chunks[0];
      var next := Count(l, c);
      ElapsedIsDifference(c.time, l.last);
      if from <= c.time {
        ClockAtFirst(c.time, chunks);
        AcrossWindows(l, chunks, c.time, from);
      } else {
        OneChunk(l, chunks, from, from + 1000);
        WithinAnySecond(next, chunks[1..], c.time, from);
      }
    }
  }

  lemma ClockAtFirst(now: nat, chunks: seq<Chunk>)
    requires chunks != [] && now == chunks[0].time && Monotone(now, chunks[1..])
    ensures Monotone(now, chunks)
  {
  }

  /** A limiter just set: the source leaves the count as it was, whatever that is, and clears the time. */
  function Fresh(limit: UInt32, count: UInt32): Limiter {
    Limiter(limit, count, 0)
  }

  /** A run from the setting of the limit on, with the clock past its first second. */
  predicate ReceiveRun(l: Limiter, chunks: seq<Chunk>) {
    && l.limit > 0 && l.last == 0
    && (chunks != [] ==> chunks[0].time >= 1000)
    && Monotone(0, chunks)
    && NoWrap(l, chunks)
  }

  /** In every run, any half-open interval of 1000 ms gets at most one byte less than twice the limit. */
  lemma AnySecondBelowTwice(limit: UInt32, count: UInt32, chunks: seq<Chunk>, from: nat)
    requires ReceiveRun(Fresh(limit, count), chunks)
    ensures BytesBetween(Fresh(limit, count), chunks, from, from + 1000) <= 2 * limit - 1
  {
    var l := Fresh(limit, count);
    if chunks == [] {
      NothingDelivered(l, from, from + 1000);
    } else {
      var c := chunks[0];
      ElapsedIsDifference(c.time, 0);
      OneChunk(l, chunks, from, from + 1000);
      if from <= c.time {
        InsideWindow(Count(l, c), chunks[1..], c.time, from);
      } else {
        WithinAnySecond(Count(l, c), chunks[1..], c.time, from);
      }
    }
  }

  // ---- traffic that comes in reads of a bounded size ----

  /** No read returns more than the receive buffer holds, which for the client is 1024 bytes (tcp_client.h:27). */
  predicate ReadsAtMost(chunks: seq<Chunk>, m: nat) {
    forall i :: 0 <= i < |chunks| ==> chunks[i].bytes <= m
  }

  /** What `n` bytes that are there at one time come in as, when a read returns `m` bytes at most, followed by `tail`. */
  function Pieces(n: nat, m: UInt32, time: UInt64, tail: seq<Chunk>): (r: seq<Chunk>)
    requires m > 0
    ensures n == 0 ==> r == tail
    ensures n > 0 ==> r != [] && r[0] == Chunk(if n < m then n else m, time)
  {
    if n == 0 then tail
    else if n < m then [Chunk(n, time)] + tail
    else [Chunk(m, time)] + Pieces(n - m, m, time, tail)
  }

  lemma NextPiece(n: nat, m: UInt32, time: UInt64, tail: seq<Chunk>)
    requires n > 0 && m > 0
    ensures var k := if n < m then n else m; Pieces(n, m, time, tail)[1..] == Pieces(n - k, m, time, tail)
  {
    if n < m {
      assert ([Chunk(n, time)] + tail)[1..] == tail;
    } else {
      assert ([Chunk(m, time)] + Pieces(n - m, m, time, tail))[1..] == Pieces(n - m, m, time, tail);
    }
  }

  /** Pieces are reads of `m` bytes at most, in order of time, and add up. */
  lemma {:induction false} PiecesAreReads(n: nat, m: UInt32, time: UInt64, tail: seq<Chunk>, now: nat)
    requires m > 0 && now <= time && Monotone(time, tail) && ReadsAtMost(tail, m)
    ensures Monotone(now, Pieces(n, m, time, tail)) && ReadsAtMost(Pieces(n, m, time, tail), m)
    ensures Sum(Pieces(n, m, time, tail)) == n + Sum(tail)
    decreases n
  {
    if n == 0 {
      MonotoneFrom(now, time, tail);
    } else {
      var k, all := if n < m then n else m, Pieces(n, m, time, tail);
      NextPiece(n, m, time, tail);
      PiecesAreReads(n - k, m, time, tail, time);
      assert forall i :: 1 <= i < |all| ==> all[i] == all[1..][i - 1];
    }
  }

  lemma MonotoneFrom(now: nat, time: nat, chunks: seq<Chunk>)
    requires now <= time && Monotone(time, chunks)
    ensures Monotone(now, chunks)
  {
  }

  /** Every piece is a read of something at the one time. */
  lemma {:induction false} PiecesInWindow(n: nat, m: UInt32, time: UInt64, tail: seq<Chunk>, until: nat)
    requires m > 0 && time < until && forall i :: 0 <= i < |tail| ==> tail[i].bytes > 0 && tail[i].time < until
    ensures var all := Pieces(n, m, time, tail); forall i :: 0 <= i < |all| ==> all[i].bytes > 0 && all[i].time < until
    decreases n
  {
    if n != 0 {
      var k, all := if n < m then n else m, Pieces(n, m, time, tail);
      NextPiece(n, m, time, tail);
      PiecesInWindow(n - k, m, time, tail, until);
      assert forall i :: 1 <= i < |all| ==> all[i] == all[1..][i - 1];
    }
  }

  /** Pieces that the open window has room for are delivered. */
  lemma {:induction false} PiecesDelivered(l: Limiter, n: nat, m: UInt32, time: UInt64, tail: seq<Chunk>, from: nat, until: nat)
    requires m > 0 && l.last <= time < l.last + 1000 && l.count + n <= l.limit
    ensures var after := Limiter(l.limit, l.count + n, l.last);
            && BytesBetween(l, Pieces(n, m, time, tail), from, until) ==
               (if from <= time < until then n else 0) + BytesBetween(after, tail, from, until)
            && (NoWrap(after, tail) ==> NoWrap(l, Pieces(n, m, time, tail)))
    decreases n
  {
    hide BytesBetween;
    if n != 0 {
      var k, all := if n < m then n else m, Pieces(n, m, time, tail);
      ElapsedIsDifference(time, l.last);
      assert Count(l, all[0]) == Limiter(l.limit, l.count + k, l.last);
      OneChunk(l, all, from, until);
      NextPiece(n, m, time, tail);
      PiecesDelivered(Count(l, all[0]), n - k, m, time, tail, from, until);
    }
  }

  /** Pieces that open a window and fit its limit are delivered. */
  lemma PiecesOpenWindow(l: Limiter, n: nat, m: UInt32, time: UInt64, tail: seq<Chunk>, from: nat, until: nat)
    requires m > 0 && l.last + 1000 <= time && 0 < n <= l.limit
    ensures var after := Limiter(l.limit, n, time);
            && BytesBetween(l, Pieces(n, m, time, tail), from, until) ==
               (if from <= time < until then n else 0) + BytesBetween(after, tail, from, until)
            && (NoWrap(after, tail) ==> NoWrap(l, Pieces(n, m, time, tail)))
  {
    hide BytesBetween;
    var k, all := if n < m then n else m, Pieces(n, m, time, tail);
    ElapsedIsDifference(time, l.last);
    assert Count(l, all[0]) == Limiter(l.limit, k, time);
    OneChunk(l, all, from, until);
    NextPiece(n, m, time, tail);
    PiecesDelivered(Count(l, all[0]), n - k, m, time, tail, from, until);
  }

  /** Pieces that come when the open window has used up its limit are dropped. */
  lemma {:induction false} PiecesDropped(l: Limiter, n: nat, m: UInt32, time: UInt64, tail: seq<Chunk>, from: nat, until: nat)
    requires m > 0 && l.last <= time < l.last + 1000 && 0 < l.limit <= l.count && l.count + n < TWO32
    ensures BytesBetween(l, Pieces(n, m, time, tail), from, until) ==
            BytesBetween(Limiter(l.limit, l.count + n, l.last), tail, from, until)
    decreases n
  {
    hide BytesBetween;
    if n != 0 {
      var k, all := if n < m then n else m, Pieces(n, m, time, tail);
      ElapsedIsDifference(time, l.last);
      assert Count(l, all[0]) == Limiter(l.limit, l.count + k, l.last);
      OneChunk(l, all, from, until);
      NextPiece(n, m, time, tail);
      PiecesDropped(Count(l, all[0]), n - k, m, time, tail, from, until);
    }
  }

  /**
  The bound is reached, for every limit and every size of the receive buffer: the first byte opens a window just before the
  interval begins.
  */
  lemma TwiceIsReached(limit: UInt32, count: UInt32, m: UInt32) returns (chunks: seq<Chunk>)
    requires limit > 0 && m > 0
    ensures ReceiveRun(Fresh(limit, count), chunks) && ReadsAtMost(chunks, m)
    ensures BytesBetween(Fresh(limit, count), chunks, 1001, 2001) == 2 * limit - 1
  {
    hide BytesBetween;
    var last := Pieces(limit, m, 2000, []);
    var more := Pieces(limit - 1, m, 1999, last);
    chunks := Pieces(1, m, 1000, more);
    PiecesAreReads(limit, m, 2000, [], 1999);
    PiecesAreReads(limit - 1, m, 1999, last, 1000);
    PiecesAreReads(1, m, 1000, more, 0);
    var full := Limiter(limit, limit, 1000);
    PiecesOpenWindow(Fresh(limit, count), 1, m, 1000, more, 1001, 2001);
    PiecesDelivered(Limiter(limit, 1, 1000), limit - 1, m, 1999, last, 1001, 2001);
    PiecesOpenWindow(full, limit, m, 2000, [], 1001, 2001);
    NothingDelivered(Limiter(limit, limit, 2000), 1001, 2001);
  }

  // ---- one counting window, and when the 32-bit counter is wide enough for it ----

  function Sum(chunks: seq<Chunk>): nat {
    if chunks == [] then 0 else chunks[0].bytes + Sum(chunks[1..])
  }

  /** Chunks that all belong to the window that the first of them opens. */
  predicate OneWindow(l: Limiter, chunks: seq<Chunk>) {
    && chunks != [] && NewWindow(l, chunks[0])
    && Monotone(chunks[0].time, chunks)
    && forall i :: 0 <= i < |chunks| ==> chunks[i].bytes > 0 && chunks[i].time < chunks[0].time + 1000
  }

  lemma {:induction false} NoWrapInWindow(l: Limiter, chunks: seq<Chunk>, now: nat)
    requires l.last <= now && Monotone(now, chunks)
    requires forall i :: 0 <= i < |chunks| ==> chunks[i].bytes > 0 && chunks[i].time < l.last + 1000
    requires l.count + Sum(chunks) < TWO32
    ensures NoWrap(l, chunks)
    decreases |chunks|
  {
    if chunks != [] {
      var c := chunks[0];
      ElapsedIsDifference(c.time, l.last);
      assert forall i :: 0 <= i < |chunks[1..]| ==> chunks[1..][i] == chunks[i + 1];
      NoWrapInWindow(Count(l, c), chunks[1..], c.time);
    }
  }

  /** A window whose total fits the counter delivers at most the limit. */
  lemma WindowAtMostLimit(l: Limiter, chunks: seq<Chunk>)
    requires l.limit > 0 && OneWindow(l, chunks) && Sum(chunks) < TWO32
    ensures BytesBetween(l, chunks, chunks[0].time, chunks[0].time + 1000) <= l.limit
  {
    hide BytesBetween;
    var c := chunks[0];
    OneChunk(l, chunks, c.time, c.time + 1000);
    assert forall i :: 0 <= i < |chunks[1..]| ==> chunks[1..][i] == chunks[i + 1];
    NoWrapInWindow(Count(l, c), chunks[1..], c.time);
    InsideWindow(Count(l, c), chunks[1..], c.time, c.time);
  }

  /** For all traffic of at most `most` bytes that comes in reads of at most `m` bytes. */
  ghost predicate WindowsKeepLimit(l: Limiter, most: nat, m: nat) {
    forall chunks: seq<Chunk> :: OneWindow(l, chunks) && ReadsAtMost(chunks, m) && Sum(chunks) <= most
      ==> BytesBetween(l, chunks, chunks[0].time, chunks[0].time + 1000) <= l.limit
  }

  /** With a full counter one byte more starts it at zero, and the byte is delivered on top of the limit. */
  lemma WrapDeliversTooMuch(limit: UInt32, count: UInt32, m: UInt32) returns (chunks: seq<Chunk>)
    requires limit > 0 && m > 0
    ensures OneWindow(Fresh(limit, count), chunks) && ReadsAtMost(chunks, m) && Sum(chunks) == TWO32
    ensures BytesBetween(Fresh(limit, count), chunks, chunks[0].time, chunks[0].time + 1000) == limit + 1
  {
    hide BytesBetween, ReadsAtMost, Sum, Monotone;
    var last := Pieces(1, m, 1000, []);
    var drop := Pieces(TWO32 - 1 - limit, m, 1000, last);
    chunks := Pieces(limit, m, 1000, drop);
    NothingReceived(m);
    PiecesAreReads(1, m, 1000, [], 1000);
    PiecesAreReads(TWO32 - 1 - limit, m, 1000, last, 1000);
    PiecesAreReads(limit, m, 1000, drop, 1000);
    PiecesInWindow(1, m, 1000, [], 2000);
    PiecesInWindow(TWO32 - 1 - limit, m, 1000, last, 2000);
    PiecesInWindow(limit, m, 1000, drop, 2000);
    ElapsedIsDifference(1000, 0);
    PiecesOpenWindow(Fresh(limit, count), limit, m, 1000, drop, 1000, 2000);
    PiecesDropped(Limiter(limit, limit, 1000), TWO32 - 1 - limit, m, 1000, last, 1000, 2000);
    OneByteWraps(limit, m);
  }

  lemma NothingReceived(m: nat)
    ensures Monotone(1000, []) && ReadsAtMost([], m) && Sum([]) == 0
  {
  }

  lemma OneByteWraps(limit: UInt32, m: UInt32)
    requires limit > 0 && m > 0
    ensures BytesBetween(Limiter(limit, TWO32 - 1, 1000), Pieces(1, m, 1000, []), 1000, 2000) == 1
  {
    hide BytesBetween;
    var full := Limiter(limit, TWO32 - 1, 1000);
    ElapsedIsDifference(1000, 1000);
    assert Count(full, Chunk(1, 1000)) == Limiter(limit, 0, 1000);
    OneChunk(full, Pieces(1, m, 1000, []), 1000, 2000);
    NextPiece(1, m, 1000, []);
    NothingDelivered(Limiter(limit, 0, 1000), 1000, 2000);
  }

  /**
  A window keeps to the limit for all traffic up to `most` bytes exactly when `most` is below 2^32, whatever the size of the
  receive buffer.
  */
  lemma CounterWideEnoughIff(limit: UInt32, count: UInt32, most: nat, m: UInt32)
    requires limit > 0 && m > 0
    ensures WindowsKeepLimit(Fresh(limit, count), most, m) <==> most < TWO32
  {
    hide BytesBetween, OneWindow, Sum, ReadsAtMost;
    var l := Fresh(limit, count);
    if most < TWO32 {
      forall chunks: seq<Chunk> | OneWindow(l, chunks) && ReadsAtMost(chunks, m) && Sum(chunks) <= most
        ensures chunks != [] && BytesBetween(l, chunks, chunks[0].time, chunks[0].time + 1000) <= l.limit
      {
        NotEmpty(l, chunks);
        WindowAtMostLimit(l, chunks);
      }
    } else {
      var chunks := WrapDeliversTooMuch(limit, count, m);
    }
  }

  lemma NotEmpty(l: Limiter, chunks: seq<Chunk>)
    requires OneWindow(l, chunks)
    ensures chunks != []
  {
  }

  // ---- one call of `HandleReceive` ----

  const MAX_CONTINUE_READS := 30

  /** What one `read` on the socket returns, with the clock at that moment. */
  datatype Read = Data(chunk: Chunk) | Closed | WouldBlock | Failed

  /**
  The chunks that a call receives, and whether it reports success: it stops at an overflow when there is a limit, at anything
  but data, or after `rounds` reads.
  */
  function Received(limited: bool, l: Limiter, input: seq<Read>, rounds: nat): (seq<Chunk>, bool)
    decreases |input|
  {
    if input == [] || rounds == 0 then ([], true)
    else if !input[0].Data? then ([], input[0].WouldBlock?)
    else
      var next := Count(l, input[0].chunk);
      if limited && Overflows(next) then ([input[0].chunk], false)
      else
        var (chunks, ok) := Received(limited, next, input[1..], rounds - 1);
        ([input[0].chunk] + chunks, ok)
  }

  /** The chunks of the first reads of an input. */
  predicate ReadsOf(chunks: seq<Chunk>, input: seq<Read>) {
    |chunks| <= |input| && forall i :: 0 <= i < |chunks| ==> input[i] == Data(chunks[i])
  }

  /**
  What a call receives, exactly: data from the first read on; it does not go on behind an overflow, and what makes it stop is
  an overflow, the last round, the end of the input or a read without data. It reports failure for an overflow, a closed socket
  and an error, and for nothing else.
  */
  lemma {:induction false} ReceivedExactly(limited: bool, l: Limiter, input: seq<Read>, rounds: nat)
    ensures var (chunks, ok) := Received(limited, l, input, rounds);
            var n := |chunks|;
            && ReadsOf(chunks, input) && n <= rounds
            && (forall k :: 0 < k < n ==> !(limited && Overflows(CountAll(l, chunks[..k]))))
            && var over := limited && n > 0 && Overflows(CountAll(l, chunks));
            && (over || n == rounds || n == |input| || !input[n].Data?)
            && (ok <==> !over && (n == rounds || n == |input| || input[n].WouldBlock?))
    decreases |input|
  {
    hide Count, Overflows;
    if input != [] && rounds > 0 && input[0].Data? {
      var c := input[0].chunk;
      var next := Count(l, c);
      CountOne(l, c);
      if !(limited && Overflows(next)) {
        var (rest, ok) := Received(limited, next, input[1..], rounds - 1);
        ReceivedExactly(limited, next, input[1..], rounds - 1);
        var chunks := [c] + rest;
        forall k | 0 < k < |chunks| ensures !(limited && Overflows(CountAll(l, chunks[..k]))) {
          assert chunks[..k] == [c] + rest[..k - 1];
          CountAllOfFirst(l, c, rest[..k - 1]);
          if k > 1 {
            assert !(limited && Overflows(CountAll(next, rest[..k - 1])));
          } else {
            assert rest[..0] == [];
          }
        }
        CountAllOfFirst(l, c, rest);
        assert forall i :: 0 < i < |chunks| ==> chunks[i] == rest[i - 1] && input[i] == input[1..][i - 1];
      }
    }
  }

  lemma {:induction false} AllDelivered(l: Limiter, chunks: seq<Chunk>)
    requires forall k :: 0 < k <= |chunks| ==> !Overflows(CountAll(l, chunks[..k]))
    ensures Delivered(l, chunks) == chunks
    decreases |chunks|
  {
    hide Count, Overflows;
    if chunks != [] {
      var n := |chunks| - 1;
      var front := chunks[..n];
      assert forall k :: 0 < k <= n ==> front[..k] == chunks[..k];
      assert chunks == front + [chunks[n]] && chunks[..n + 1] == chunks;
      AllDelivered(l, front);
      OneMore(l, front, chunks[n]);
    }
  }

  /** A call passes on all it receives, the chunk that overflows alone excepted. */
  lemma CallDelivers(l: Limiter, input: seq<Read>, rounds: nat)
    ensures var chunks := Received(true, l, input, rounds).0;
            Delivered(l, chunks) ==
            if chunks != [] && Overflows(CountAll(l, chunks)) then chunks[..|chunks| - 1] else chunks
  {
    hide Count, Overflows, Received, Delivered;
    var chunks := Received(true, l, input, rounds).0;
    ReceivedExactly(true, l, input, rounds);
    if chunks == [] {
      NothingCounted(l);
    } else {
      var n := |chunks| - 1;
      var front := chunks[..n];
      assert forall k :: 0 < k <= n ==> front[..k] == chunks[..k];
      assert chunks == front + [chunks[n]];
      AllDelivered(l, front);
      OneMore(l, front, chunks[n]);
      assert front + [] == front;
    }
  }

  lemma CountOne(l: Limiter, c: Chunk)
    ensures CountAll(l, [c]) == Count(l, c)
  {
    assert [c][1..] == [];
  }

  lemma CountAllOfFirst(l: Limiter, c: Chunk, rest: seq<Chunk>)
    ensures CountAll(l, [c] + rest) == CountAll(Count(l, c), rest)
  {
    assert ([c] + rest)[1..] == rest;
  }

  lemma OneMore(l: Limiter, seen: seq<Chunk>, c: Chunk)
    ensures CountAll(l, seen + [c]) == Count(CountAll(l, seen), c)
    ensures Delivered(l, seen + [c]) == Delivered(l, seen) + (if Overflows(CountAll(l, seen + [c])) then [] else [c])
  {
    CountAllOfSum(l, seen, [c]);
    assert CountAll(CountAll(l, seen), [c]) == Count(CountAll(l, seen), c);
  }

  /** The same when the chunks `seen` came before. */
  function ReceivedAfter(limited: bool, l: Limiter, seen: seq<Chunk>, input: seq<Read>, rounds: nat): (seq<Chunk>, bool) {
    var (chunks, ok) := Received(limited, CountAll(l, seen), input, rounds);
    (seen + chunks, ok)
  }

  lemma ReceivedStep(limited: bool, l: Limiter, seen: seq<Chunk>, input: seq<Read>, rounds: nat)
    requires input != [] && input[0].Data? && rounds > 0
    ensures var more := seen + [input[0].chunk];
            ReceivedAfter(limited, l, seen, input, rounds) ==
            if limited && Overflows(CountAll(l, more)) then (more, false)
            else ReceivedAfter(limited, l, more, input[1..], rounds - 1)
  {
    hide Count, Overflows;
    var c := input[0].chunk;
    OneMore(l, seen, c);
    var rest := Received(limited, CountAll(l, seen + [c]), input[1..], rounds - 1).0;
    assert seen + ([c] + rest) == seen + [c] + rest;
  }

  lemma ReceivedEnds(limited: bool, l: Limiter, seen: seq<Chunk>, input: seq<Read>, rounds: nat)
    requires input == [] || rounds == 0 || !input[0].Data?
    ensures ReceivedAfter(limited, l, seen, input, rounds) == (seen, input == [] || rounds == 0 || input[0].WouldBlock?)
  {
    assert seen + [] == seen;
  }

  lemma NothingCounted(l: Limiter)
    ensures CountAll(l, []) == l && Delivered(l, []) == []
  {
  }

  lemma ReceivedFirst(limited: bool, l: Limiter, input: seq<Read>, rounds: nat)
    ensures ReceivedAfter(limited, l, [], input, rounds) == Received(limited, l, input, rounds)
  {
    var chunks := Received(limited, l, input, rounds).0;
    assert [] + chunks == chunks;
  }

  lemma {:induction false} CountAllOfSum(l: Limiter, a: seq<Chunk>, b: seq<Chunk>)
    ensures CountAll(l, a + b) == CountAll(CountAll(l, a), b)
    ensures Delivered(l, a + b) == Delivered(l, a) + Delivered(CountAll(l, a), b)
    decreases |a|
  {
    hide Count, Overflows;
    if a == [] {
      assert a + b == b;
    } else {
      var next := Count(l, a[0]);
      CountAllOfSum(next, a[1..], b);
      assert (a + b)[1..] == a[1..] + b;
      var first := if Overflows(next) then [] else [a[0]];
      var x, y := Delivered(next, a[1..]), Delivered(CountAll(next, a[1..]), b);
      assert first + (x + y) == first + x + y;
    }
  }
}
