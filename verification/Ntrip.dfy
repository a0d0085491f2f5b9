/**
 The NTRIP correction stream between its two threads: a bounded queue that drops the oldest item
 on overflow, and the re-chunker behind it. Each method is one atomic step of a thread, so every
 sequence of calls is an interleaving.
 */
module Ntrip {
  import opened Bytes

  const CHUNK: nat := 1024
  const MAX_RECEIVE: nat := 64 * 1024

  datatype PipeConfig = PipeConfig(maxQueueSize: nat, maxBufferSize: nat)
  datatype PipeStats = PipeStats(messagesReceived: nat, messagesDropped: nat, bytesReceived: nat)

  /** `a` is `b` with some items left out. */
  predicate Subsequence(a: seq<seq<byte>>, b: seq<seq<byte>>) {
    if a == [] then true
    else if b == [] then false
    else
      || Subsequence(a, b[..|b| - 1])
      || (a[|a| - 1] == b[|b| - 1] && Subsequence(a[..|a| - 1], b[..|b| - 1]))
  }

  lemma SubsequencePush(a: seq<seq<byte>>, b: seq<seq<byte>>, x: seq<byte>)
    requires Subsequence(a, b)
    ensures Subsequence(a + [x], b + [x])
  {
    assert (a + [x])[..|a|] == a && (b + [x])[..|b|] == b;
  }

  /** Leaving out one item more. */
  lemma {:induction false} SubsequenceDrop(a1: seq<seq<byte>>, y: seq<byte>, a2: seq<seq<byte>>, b: seq<seq<byte>>)
    requires Subsequence(a1 + [y] + a2, b)
    ensures Subsequence(a1 + a2, b)
    decreases |b|
  {
    var a := a1 + [y] + a2;
    if a1 + a2 != [] {
      var init := b[..|b| - 1];
      if Subsequence(a, init) {
        SubsequenceDrop(a1, y, a2, init);
      } else if a2 == [] {
        assert a1 + a2 == a1 && a[..|a| - 1] == a1;
      } else {
        var a2' := a2[..|a2| - 1];
        assert a[..|a| - 1] == a1 + [y] + a2';
        SubsequenceDrop(a1, y, a2', init);
        assert (a1 + a2)[..|a1 + a2| - 1] == a1 + a2';
      }
    }
  }

  // --- Chunks ------------------------------------------------------------------

  /** Whole chunks and what is left over. */
  datatype Chunked = Chunked(messages: seq<seq<byte>>, rest: seq<byte>)

  /** Whole chunks off the front, as many as there are. */
  function CutAll(whole: seq<byte>): (r: Chunked)
    ensures |r.rest| < CHUNK && forall k :: 0 <= k < |r.messages| ==> |r.messages[k]| == CHUNK
    decreases |whole|
  {
    if |whole| < CHUNK then Chunked([], whole)
    else
      var r := CutAll(whole[CHUNK..]);
      Chunked([whole[..CHUNK]] + r.messages, r.rest)
  }

  /** One more item behind `c`; when it does not fit, the left-over is forgotten first. */
  function ChunkNext(maxBufferSize: nat, c: Chunked, item: seq<byte>): Chunked {
    if item == [] then c
    else
      var r := CutAll((if |c.rest| + |item| > maxBufferSize then [] else c.rest) + item);
      Chunked(c.messages + r.messages, r.rest)
  }

  /** What becomes of these items, one after the other. */
  function ChunkAll(maxBufferSize: nat, items: seq<seq<byte>>): Chunked {
    if items == [] then Chunked([], [])
    else ChunkNext(maxBufferSize, ChunkAll(maxBufferSize, items[..|items| - 1]), items[|items| - 1])
  }

  lemma ChunkPush(maxBufferSize: nat, items: seq<seq<byte>>, item: seq<byte>)
    ensures ChunkAll(maxBufferSize, items + [item]) == ChunkNext(maxBufferSize, ChunkAll(maxBufferSize, items), item)
  {
    hide ChunkNext;
    assert (items + [item])[..|items|] == items;
  }

  /** `out` has been cut off the front of `whole`, and `rest` is still to be cut. */
  ghost predicate Cutting(whole: seq<byte>, out: seq<seq<byte>>, rest: seq<byte>) {
    CutAll(whole) == Chunked(out + CutAll(rest).messages, CutAll(rest).rest)
  }

  lemma CutFrom(whole: seq<byte>)
    ensures Cutting(whole, [], whole)
  {
    hide CutAll;
    assert [] + CutAll(whole).messages == CutAll(whole).messages;
  }

  lemma CutNext(whole: seq<byte>, out: seq<seq<byte>>, rest: seq<byte>)
    requires Cutting(whole, out, rest) && |rest| >= CHUNK
    ensures Cutting(whole, out + [rest[..CHUNK]], rest[CHUNK..])
  {
    assert out + CutAll(rest).messages == out + [rest[..CHUNK]] + CutAll(rest[CHUNK..]).messages;
  }

  lemma CutDone(whole: seq<byte>, out: seq<seq<byte>>, rest: seq<byte>)
    requires Cutting(whole, out, rest) && |rest| < CHUNK
    ensures CutAll(whole) == Chunked(out, rest) && Concat(out) + rest == whole
  {
    assert out + [] == out;
    CutWhole(whole);
  }

  lemma NothingCut(rest: seq<byte>)
    ensures Concat([]) + rest == rest
  {
    assert Concat([]) == [];
  }

  /** Chunks and left-over are all there is, in order. */
  lemma {:induction false} CutWhole(whole: seq<byte>)
    ensures Concat(CutAll(whole).messages) + CutAll(whole).rest == whole
    decreases |whole|
  {
    if |whole| < CHUNK {
      NothingCut(whole);
    } else {
      CutWhole(whole[CHUNK..]);
      ConcatAppend([whole[..CHUNK]], CutAll(whole[CHUNK..]).messages);
      assert Concat([whole[..CHUNK]]) == whole[..CHUNK] by { OneChunk(whole[..CHUNK]); }
    }
  }

  lemma OneChunk(chunk: seq<byte>)
    ensures Concat([chunk]) == chunk
  {
    assert [chunk][..0] == [];
  }

  // --- The pipe ----------------------------------------------------------------

  class Pipe {
    const config: PipeConfig
    var queue: seq<seq<byte>>
    var inHand: Option<seq<byte>> // taken from the queue, not yet chunked
    var buffer: seq<byte>
    var syncLost: nat
    var stats: PipeStats

    ghost var received: seq<seq<byte>>
    ghost var taken: seq<seq<byte>>
    ghost var chunked: seq<seq<byte>>
    ghost var messages: seq<seq<byte>>

    ghost predicate QueueOk()
      reads this
    {
      && config.maxQueueSize >= 1 && |queue| <= config.maxQueueSize
      && Subsequence(taken + queue, received)
      && |received| == |taken| + |queue| + stats.messagesDropped
      && stats.bytesReceived == |Concat(received)|
    }

    ghost predicate ChunkerOk()
      reads this
    {
      && |buffer| < CHUNK
      && (forall k :: 0 <= k < |messages| ==> |messages[k]| == CHUNK)
      && stats.messagesReceived == |messages|
      && (syncLost == 0 ==> Concat(chunked) == Concat(messages) + buffer)
      && taken == chunked + (if inHand.Some? then [inHand.value] else [])
      && ChunkAll(config.maxBufferSize, chunked) == Chunked(messages, buffer)
    }

    /** With room for a full receive behind a partial chunk, the buffer is never cleared. */
    ghost predicate NeverCleared()
      reads this
    {
      && config.maxBufferSize >= CHUNK - 1 + MAX_RECEIVE
      && (forall k :: 0 <= k < |received| ==> |received[k]| <= MAX_RECEIVE)
      ==> syncLost == 0
    }

    ghost predicate Valid()
      reads this
    {
      QueueOk() && ChunkerOk() && NeverCleared()
    }

    constructor (config: PipeConfig)
      requires config.maxQueueSize >= 1
      ensures Valid() && received == [] && chunked == [] && messages == [] && this.config == config
    {
      this.config := config;
      queue, inHand, buffer, syncLost := [], None, [], 0;
      stats := PipeStats(0, 0, 0);
      received, taken, chunked, messages := [], [], [], [];
    }

    /** The receiving thread puts an item into the queue, dropping the oldest one if it is full. */
    method Receive(data: seq<byte>)
      requires Valid()
      modifies this`queue, this`stats, this`received
      ensures Valid() && received == old(received) + [data]
      ensures queue == (if |old(queue)| >= config.maxQueueSize then old(queue)[1..] else old(queue)) + [data]
      ensures stats.messagesDropped
           == old(stats).messagesDropped + if |old(queue)| >= config.maxQueueSize then 1 else 0
    {
      hide Subsequence, Concat;
      ConcatPush(received, data);
      stats := stats.(bytesReceived := stats.bytesReceived + |data|);
      if |queue| >= config.maxQueueSize {
        assert taken + queue == taken + [queue[0]] + queue[1..];
        SubsequenceDrop(taken, queue[0], queue[1..], received);
        queue := queue[1..];
        stats := stats.(messagesDropped := stats.messagesDropped + 1);
      }
      SubsequencePush(taken + queue, received, data);
      assert taken + queue + [data] == taken + (queue + [data]);
      queue := queue + [data];
      received := received + [data];
    }

    /** The processing thread takes the item at the front. */
    method Take()
      requires Valid() && inHand.None? && queue != []
      modifies this`queue, this`inHand, this`taken
      ensures Valid() && inHand == Some(old(queue)[0]) && queue == old(queue)[1..]
      ensures taken + queue == old(taken + queue)
    {
      hide Subsequence, Concat;
      assert taken + queue == (taken + [queue[0]]) + queue[1..];
      inHand := Some(queue[0]);
      taken := taken + [queue[0]];
      queue := queue[1..];
    }

    /** The processing thread chunks the item it holds. */
    method Process() returns (out: seq<seq<byte>>)
      requires Valid() && inHand.Some?
      modifies this`inHand, this`buffer, this`syncLost, this`stats, this`chunked, this`messages
      ensures Valid() && inHand.None?
      ensures chunked == old(chunked) + [old(inHand).value] && messages == old(messages) + out
      ensures stats.messagesDropped == old(stats).messagesDropped
    {
      hide Subsequence, Concat, ChunkAll, ChunkNext;
      var data := inHand.value;
      SubsequenceMember(taken + queue, received, |taken| - 1);
      assert (taken + queue)[|taken| - 1] == data && data in received;
      ghost var lostBefore, buf := syncLost, buffer;
      out := Chunk(data);
      ChunkPush(config.maxBufferSize, chunked, data);
      ConcatPush(chunked, data);
      ConcatAppend(messages, out);
      if syncLost == 0 {
        assert Concat(chunked) + data == Concat(messages) + (buf + data);
        assert Concat(messages) + (Concat(out) + buffer) == Concat(messages) + Concat(out) + buffer;
      }
      chunked := chunked + [data];
      messages := messages + out;
      inHand := None;
      assert chunked == taken && chunked + [] == chunked;
    }

    /** Adds the data to the buffer and cuts whole chunks off its front. */
    method Chunk(data: seq<byte>) returns (out: seq<seq<byte>>)
      requires |buffer| < CHUNK
      modifies this`buffer, this`syncLost, this`stats
      ensures |buffer| < CHUNK && forall k :: 0 <= k < |out| ==> |out[k]| == CHUNK
      ensures var clear := data != [] && |old(buffer)| + |data| > config.maxBufferSize;
              && syncLost == old(syncLost) + (if clear then 1 else 0)
              && Concat(out) + buffer == (if clear then [] else old(buffer)) + data
      ensures forall m :: ChunkNext(config.maxBufferSize, Chunked(m, old(buffer)), data) == Chunked(m + out, buffer)
      ensures stats == old(stats).(messagesReceived := old(stats).messagesReceived + |out|)
    {
      hide Concat, CutAll;
      out := [];
      NothingCut(buffer + data);
      if |data| == 0 {
        assert buffer + data == buffer;
        return;
      }
      if |buffer| + |data| > config.maxBufferSize {
        buffer := [];
        syncLost := syncLost + 1;
      }
      buffer := buffer + data;
      ghost var whole := buffer;
      var count := 0;
      CutFrom(whole);
      while |buffer| >= CHUNK
        invariant Cutting(whole, out, buffer) && count == |out|
        invariant stats == old(stats)
        invariant syncLost == old(syncLost) + if |old(buffer)| + |data| > config.maxBufferSize then 1 else 0
      {
        CutNext(whole, out, buffer);
        out := out + [buffer[..CHUNK]];
        buffer := buffer[CHUNK..];
        count := count + 1;
      }
      CutDone(whole, out, buffer);
      stats := stats.(messagesReceived := stats.messagesReceived + count);
    }
  }

  /** Every item of a subsequence comes from the whole sequence. */
  lemma {:induction false} SubsequenceMember(a: seq<seq<byte>>, b: seq<seq<byte>>, k: nat)
    requires Subsequence(a, b) && k < |a|
    ensures a[k] in b
    decreases |b|
  {
    var init := b[..|b| - 1];
    if Subsequence(a, init) {
      SubsequenceMember(a, init, k);
    } else if k < |a| - 1 {
      SubsequenceMember(a[..|a| - 1], init, k);
    } else {
      assert b[|b| - 1] == a[k];
    }
  }

  /** A step of one of the threads. */
  datatype Move = ReceiveMove(data: seq<byte>) | TakeMove | ProcessMove

  /** The items received during an interleaving. */
  function Arrivals(moves: seq<Move>): seq<seq<byte>> {
    if moves == [] then []
    else
      var m := moves[|moves| - 1];
      Arrivals(moves[..|moves| - 1]) + if m.ReceiveMove? then [m.data] else []
  }

  /** How full the pipe is, and what it has dropped and processed. */
  datatype Levels = Levels(queued: nat, busy: bool, dropped: nat, done: nat)

  /** The levels after a move; one that is not possible changes nothing. */
  function NextLevels(cap: nat, l: Levels, move: Move): Levels {
    match move
    case ReceiveMove(_) =>
      if l.queued >= cap then l.(dropped := l.dropped + 1) else l.(queued := l.queued + 1)
    case TakeMove => if !l.busy && l.queued > 0 then l.(queued := l.queued - 1, busy := true) else l
    case ProcessMove => if l.busy then l.(busy := false, done := l.done + 1) else l
  }

  function LevelsAfter(cap: nat, moves: seq<Move>): Levels {
    if moves == [] then Levels(0, false, 0, 0)
    else NextLevels(cap, LevelsAfter(cap, moves[..|moves| - 1]), moves[|moves| - 1])
  }

  /** The move at `k`, if it receives an item, finds room for it in the queue. */
  predicate FindsRoom(cap: nat, moves: seq<Move>, k: nat)
    requires k < |moves|
  {
    moves[k].ReceiveMove? ==> LevelsAfter(cap, moves[..k]).queued < cap
  }

  /** Nothing is dropped exactly when every item finds room in the queue. */
  lemma {:induction false} DropsOnlyOnOverflow(cap: nat, moves: seq<Move>)
    ensures LevelsAfter(cap, moves).dropped == 0 <==> forall k :: 0 <= k < |moves| ==> FindsRoom(cap, moves, k)
  {
    hide LevelsAfter, FindsRoom;
    if moves == [] {
      NothingDropped(cap);
    } else {
      var n := |moves| - 1;
      DropsOnlyOnOverflow(cap, moves[..n]);
      forall k | 0 <= k < n ensures FindsRoom(cap, moves[..n], k) == FindsRoom(cap, moves, k) {
        RoomBefore(cap, moves, n, k);
      }
      LastDrop(cap, moves);
    }
  }

  lemma NothingDropped(cap: nat)
    ensures LevelsAfter(cap, []).dropped == 0
  {
  }

  lemma RoomBefore(cap: nat, moves: seq<Move>, n: nat, k: nat)
    requires k < n <= |moves|
    ensures FindsRoom(cap, moves[..n], k) == FindsRoom(cap, moves, k)
  {
    hide LevelsAfter;
    assert moves[..n][..k] == moves[..k];
  }

  lemma LastDrop(cap: nat, moves: seq<Move>)
    requires moves != []
    ensures var n := |moves| - 1;
            LevelsAfter(cap, moves).dropped
            == LevelsAfter(cap, moves[..n]).dropped + if FindsRoom(cap, moves, n) then 0 else 1
  {
  }

  function FromEnd(s: seq<seq<byte>>, j: nat): seq<byte>
    requires j < |s|
  {
    s[|s| - 1 - j]
  }

  /** The newest `cap` items, or all if they are fewer, are among those kept, behind all others. */
  ghost predicate NewestKept(cap: nat, arrivals: seq<seq<byte>>, kept: seq<seq<byte>>) {
    && (cap <= |kept| || |arrivals| <= |kept|)
    && forall j: nat :: j < cap && j < |arrivals| ==> FromEnd(kept, j) == FromEnd(arrivals, j)
  }

  lemma NewestStay(cap: nat, arrivals: seq<seq<byte>>, taken: seq<seq<byte>>, queue: seq<seq<byte>>, data: seq<byte>)
    requires cap >= 1 && |queue| <= cap && |queue| <= |arrivals| && NewestKept(cap, arrivals, taken + queue)
    ensures NewestKept(cap, arrivals + [data], taken + ((if |queue| >= cap then queue[1..] else queue) + [data]))
  {
    var kept := taken + queue;
    var kept' := taken + ((if |queue| >= cap then queue[1..] else queue) + [data]);
    forall j: nat | j < cap && j < |arrivals| + 1 ensures FromEnd(kept', j) == FromEnd(arrivals + [data], j) {
      if j > 0 { assert FromEnd(kept, j - 1) == FromEnd(arrivals, j - 1); }
    }
  }

  /** A subsequence of the same length is the whole. */
  lemma {:induction false} SubsequenceWhole(a: seq<seq<byte>>, b: seq<seq<byte>>)
    requires Subsequence(a, b)
    ensures |a| <= |b| && (|a| == |b| ==> a == b)
    decreases |b|
  {
    if a != [] {
      var init := b[..|b| - 1];
      if Subsequence(a, init) {
        SubsequenceWhole(a, init);
      } else {
        SubsequenceWhole(a[..|a| - 1], init);
      }
    }
  }

  /**
   Any interleaving, moves that are not possible skipped: the items processed are an in-order
   subsequence of those received, nothing but the counted drops and the waiting items is missing,
   and their bytes come out in order as whole chunks and a remainder. How many items are dropped,
   processed and waiting follows from the moves alone; the newest items are never dropped, as many
   as the queue can hold, and none at all while every item finds room.
   */
  method Interleave(config: PipeConfig, moves: seq<Move>)
    returns (messages: seq<seq<byte>>, processed: seq<seq<byte>>, waiting: seq<seq<byte>>, rest: seq<byte>,
             dropped: nat)
    requires config.maxQueueSize >= 1
    ensures Subsequence(processed + waiting, Arrivals(moves))
    ensures |Arrivals(moves)| == |processed| + |waiting| + dropped && |waiting| <= config.maxQueueSize + 1
    ensures var l := LevelsAfter(config.maxQueueSize, moves);
            dropped == l.dropped && |processed| == l.done && |waiting| == l.queued + if l.busy then 1 else 0
    ensures NewestKept(config.maxQueueSize, Arrivals(moves), processed + waiting)
    ensures dropped == 0 ==> processed + waiting == Arrivals(moves)
    ensures |rest| < 1024 && forall k :: 0 <= k < |messages| ==> |messages[k]| == 1024
    ensures Chunked(messages, rest) == ChunkAll(config.maxBufferSize, processed)
    ensures config.maxBufferSize >= 1023 + 65_536
            && (forall k :: 0 <= k < |Arrivals(moves)| ==> |Arrivals(moves)[k]| <= 65_536)
            ==> Concat(processed) == Concat(messages) + rest
  {
    hide Subsequence, Concat, NewestKept, LevelsAfter;
    var pipe := new Pipe(config);
    messages, processed := Drive(pipe, moves);
    rest, dropped := pipe.buffer, pipe.stats.messagesDropped;
    waiting := (if pipe.inHand.Some? then [pipe.inHand.value] else []) + pipe.queue;
    assert processed + waiting == pipe.taken + pipe.queue;
    SubsequenceWhole(processed + waiting, Arrivals(moves));
  }

  /** The levels are those of the pipe. */
  ghost predicate AtLevels(l: Levels, queue: seq<seq<byte>>, inHand: Option<seq<byte>>, dropped: nat, done: nat) {
    l == Levels(|queue|, inHand.Some?, dropped, done)
  }

  /** Makes the moves in turn; those that are not possible do nothing. */
  method Drive(pipe: Pipe, moves: seq<Move>) returns (messages: seq<seq<byte>>, processed: seq<seq<byte>>)
    requires pipe.Valid() && pipe.received == [] && pipe.chunked == [] && pipe.messages == []
    modifies pipe
    ensures pipe.Valid() && pipe.received == Arrivals(moves)
    ensures messages == pipe.messages && processed == pipe.chunked
    ensures AtLevels(LevelsAfter(pipe.config.maxQueueSize, moves), pipe.queue, pipe.inHand,
                     pipe.stats.messagesDropped, |pipe.chunked|)
    ensures NewestKept(pipe.config.maxQueueSize, Arrivals(moves), pipe.taken + pipe.queue)
  {
    hide Subsequence, Concat, NewestKept, LevelsAfter, AtLevels, NextLevels, Pipe.QueueOk, Pipe.ChunkerOk,
      Pipe.NeverCleared;
    ghost var cap := pipe.config.maxQueueSize;
    FreshPipe(pipe);
    messages, processed := [], [];
    for i := 0 to |moves|
      invariant pipe.Valid() && pipe.received == Arrivals(moves[..i])
      invariant messages == pipe.messages && processed == pipe.chunked
      invariant AtLevels(LevelsAfter(cap, moves[..i]), pipe.queue, pipe.inHand, pipe.stats.messagesDropped,
                         |pipe.chunked|)
      invariant NewestKept(cap, pipe.received, pipe.taken + pipe.queue)
    {
      assert moves[..i + 1] == moves[..i] + [moves[i]];
      NextMove(cap, moves[..i], moves[i]);
      var out, done := Make(pipe, moves[i], LevelsAfter(cap, moves[..i]));
      messages := messages + out;
      processed := processed + done;
    }
    assert moves[..|moves|] == moves;
  }

  lemma NextMove(cap: nat, moves: seq<Move>, move: Move)
    ensures LevelsAfter(cap, moves + [move]) == NextLevels(cap, LevelsAfter(cap, moves), move)
    ensures Arrivals(moves + [move]) == Arrivals(moves) + if move.ReceiveMove? then [move.data] else []
  {
    hide NextLevels;
    assert (moves + [move])[..|moves|] == moves;
  }

  /** Makes one move, if it is possible. */
  method Make(pipe: Pipe, move: Move, ghost l: Levels) returns (out: seq<seq<byte>>, done: seq<seq<byte>>)
    requires pipe.Valid()
    requires AtLevels(l, pipe.queue, pipe.inHand, pipe.stats.messagesDropped, |pipe.chunked|)
    requires NewestKept(pipe.config.maxQueueSize, pipe.received, pipe.taken + pipe.queue)
    modifies pipe
    ensures pipe.Valid() && pipe.received == old(pipe.received) + if move.ReceiveMove? then [move.data] else []
    ensures pipe.messages == old(pipe.messages) + out && pipe.chunked == old(pipe.chunked) + done
    ensures AtLevels(NextLevels(pipe.config.maxQueueSize, l, move), pipe.queue, pipe.inHand,
                     pipe.stats.messagesDropped, |pipe.chunked|)
    ensures NewestKept(pipe.config.maxQueueSize, pipe.received, pipe.taken + pipe.queue)
  {
    hide Subsequence, Concat, NewestKept, Pipe.ChunkerOk, Pipe.NeverCleared;
    out, done := [], [];
    assert pipe.messages + [] == pipe.messages && pipe.chunked + [] == pipe.chunked;
    assert pipe.received + [] == pipe.received;
    match move
    case ReceiveMove(data) =>
      assert |pipe.queue| <= |pipe.received|;
      NewestStay(pipe.config.maxQueueSize, pipe.received, pipe.taken, pipe.queue, data);
      pipe.Receive(data);
    case TakeMove =>
      if pipe.inHand.None? && pipe.queue != [] {
        pipe.Take();
      }
    case ProcessMove =>
      if pipe.inHand.Some? {
        done := [pipe.inHand.value];
        out := pipe.Process();
      }
  }

  lemma FreshPipe(pipe: Pipe)
    requires pipe.Valid() && pipe.received == [] && pipe.chunked == []
    ensures AtLevels(LevelsAfter(pipe.config.maxQueueSize, []), pipe.queue, pipe.inHand, pipe.stats.messagesDropped, 0)
    ensures NewestKept(pipe.config.maxQueueSize, [], pipe.taken + pipe.queue)
  {
  }
}
