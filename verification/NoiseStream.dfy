/**
 The read half of a Noise stream: a buffer and a cursor between a socket that delivers any number
 of bytes at a time and a decoder that wants exact blocks.

 The decoder is known by the blocks it was given: `want` is its writable length after them and
 `next` what `next_frame` answered to the last of them.  Its writable length is positive and
 changes only when a block is given.
 */
module NoiseStream {
  import opened Prelude

  type Block = seq<Byte>

  datatype Frame = Decoded(frame: nat) | MissingBytes | Failed(error: nat)

  datatype Codec = Codec(want: seq<Block> -> nat, next: seq<Block> -> Frame)

  ghost predicate Positive(c: Codec) {
    forall fed :: c.want(fed) > 0
  }

  // ---- Exact reads: the reference ------------------------------------------------------------

  /** All blocks given to the decoder, and the bytes of the block not yet complete. */
  datatype Split = Split(fed: seq<Block>, rest: seq<Byte>)

  ghost function Exact(c: Codec, fed: seq<Block>, bytes: seq<Byte>): Split
    requires Positive(c)
    decreases |bytes|
  {
    var n := c.want(fed);
    if |bytes| < n then Split(fed, bytes) else Exact(c, fed + [bytes[..n]], bytes[n..])
  }

  /** What the decoder answered, block by block, leaving out requests for more bytes. */
  function Frames(c: Codec, fed: seq<Block>): seq<Frame> {
    if fed == [] then []
    else Frames(c, fed[..|fed| - 1]) + (if c.next(fed).MissingBytes? then [] else [c.next(fed)])
  }

  function Flatten(blocks: seq<Block>): seq<Byte> {
    if blocks == [] then [] else Flatten(blocks[..|blocks| - 1]) + blocks[|blocks| - 1]
  }

  /** Reading more bytes later is the same as having had them all. */
  lemma {:induction false} ExactContinues(c: Codec, fed: seq<Block>, bytes: seq<Byte>, more: seq<Byte>)
    requires Positive(c)
    ensures var r := Exact(c, fed, bytes);
            Exact(c, fed, bytes + more) == Exact(c, r.fed, r.rest + more)
    decreases |bytes|
  {
    var n := c.want(fed);
    if |bytes| >= n {
      assert (bytes + more)[..n] == bytes[..n];
      assert (bytes + more)[n..] == bytes[n..] + more;
      ExactContinues(c, fed + [bytes[..n]], bytes[n..], more);
    }
  }

  lemma ShortBlock(c: Codec, fed: seq<Block>, bytes: seq<Byte>)
    requires Positive(c) && |bytes| < c.want(fed)
    ensures Exact(c, fed, bytes) == Split(fed, bytes)
    ensures Flatten([]) + bytes == bytes
  {
  }

  lemma FullBlock(c: Codec, fed: seq<Block>, block: Block)
    requires Positive(c) && |block| == c.want(fed)
    ensures Exact(c, fed, block) == Split(fed + [block], [])
  {
    assert block[..c.want(fed)] == block && block[c.want(fed)..] == [];
  }

  /** Exact reads lose nothing, add nothing and leave less than a block. */
  lemma {:induction false} ExactKeepsBytes(c: Codec, fed: seq<Block>, bytes: seq<Byte>)
    requires Positive(c)
    ensures var r := Exact(c, fed, bytes);
            Flatten(r.fed) + r.rest == Flatten(fed) + bytes && |r.rest| < c.want(r.fed)
    decreases |bytes|
  {
    var n := c.want(fed);
    if |bytes| >= n {
      ExactKeepsBytes(c, fed + [bytes[..n]], bytes[n..]);
      assert (fed + [bytes[..n]])[..|fed|] == fed;
      assert bytes == bytes[..n] + bytes[n..];
    }
  }

  lemma SlicesJoin(s: seq<Byte>, a: nat, b: nat, c: nat)
    requires a <= b <= c <= |s|
    ensures s[a..c] == s[a..b] + s[b..c] && s[..c] == s[..b] + s[b..c]
  {
  }

  // ---- The socket ----------------------------------------------------------------------------

  /** What one poll of the socket brings. */
  datatype Poll =
    | Bytes(n: nat)     // that many bytes, cut down to what is there and fits
    | WouldBlock        // nothing now; an awaited read stays pending
    | Broken

  datatype Outcome = Answer(frame: Frame) | NothingYet | SocketClosed | Pending

  function Min(a: nat, b: nat): nat {
    if a < b then a else b
  }

  /** What a poll amounts to with this many bytes left in the stream and this much room. */
  function Got(p: Poll, left: nat, room: nat): Poll {
    if p.Bytes? then Bytes(Min(p.n, Min(left, room))) else p
  }

  /** Where a read ends: an error, no byte, or nothing for now. */
  predicate Explains(p: Poll, stop: Outcome, atEnd: bool) {
    match stop
    case Pending => p.WouldBlock?
    case SocketClosed => p.Broken? || (p.Bytes? && (p.n == 0 || atEnd))
    case _ => true
  }

  lemma PendingExplained(p: Poll, atEnd: bool)
    requires p.WouldBlock?
    ensures Explains(p, Pending, atEnd)
  {
  }

  class ReadHalf {
    const codec: Codec
    const stream: seq<Byte>         // everything the peer ever sends
    const polls: nat -> Poll        // how the socket chops it
    var consumed: nat
    var time: nat
    var fed: seq<Block>             // the decoder
    var buffer: array<Byte>
    var bytesRead: nat
    ghost var mark: nat             // bytes consumed when the decoder last got a block

    /** The blocks given are those of exact reads of the first `mark` bytes, and the buffer holds
        the bytes consumed since. */
    ghost predicate Valid()
      reads this, buffer
    {
      && Positive(codec) && mark <= consumed <= |stream|
      && bytesRead == consumed - mark <= buffer.Length
      && buffer[..bytesRead] == stream[mark..consumed]
      && (bytesRead > 0 ==> buffer.Length == codec.want(fed))
      && Exact(codec, [], stream[..mark]) == Split(fed, [])
    }

    /** Between calls: the decoder and the buffer are where exact reads of the consumed bytes
        would be, however they arrived. */
    ghost predicate Reassembled()
      reads this, buffer
    {
      && Valid() && bytesRead < codec.want(fed)
      && Exact(codec, [], stream[..consumed]) == Split(fed, buffer[..bytesRead])
      && Flatten(fed) + buffer[..bytesRead] == stream[..consumed]
    }

    constructor (codec: Codec, stream: seq<Byte>, polls: nat -> Poll)
      requires Positive(codec)
      ensures Reassembled() && consumed == 0 && fed == [] && fresh(buffer)
      ensures this.codec == codec && this.stream == stream
    {
      this.codec, this.stream, this.polls := codec, stream, polls;
      consumed, time, fed, bytesRead, mark := 0, 0, [], 0, 0;
      buffer := new Byte[0];
      new;
      assert stream[..0] == [] && buffer[..0] == [];
    }

    lemma ValidIsReassembled()
      requires Valid() && bytesRead < codec.want(fed)
      ensures Reassembled()
    {
      hide Exact, Flatten, Positive;
      SlicesJoin(stream, 0, mark, consumed);
      assert [] + stream[mark..consumed] == stream[mark..consumed];
      ShortBlock(codec, fed, stream[mark..consumed]);
      assert Flatten([]) + stream[..consumed] == stream[..consumed];
      ExactContinues(codec, [], stream[..mark], stream[mark..consumed]);
      ExactKeepsBytes(codec, [], stream[..consumed]);
    }

    /** The buffer is resized, and the cursor reset, only when the decoder wants another length. */
    method Prepare() returns (expected: nat)
      requires Valid()
      modifies this`buffer, this`bytesRead
      ensures Valid() && expected == codec.want(fed) == buffer.Length && bytesRead == old(bytesRead)
      ensures buffer == old(buffer) || fresh(buffer)
    {
      expected := codec.want(fed);
      if buffer.Length != expected {
        buffer := new Byte[expected](_ => 0);
        bytesRead := 0;
      }
    }

    /** The next `n` bytes of the stream, behind those already in the buffer. */
    method CopyIn(n: nat)
      requires consumed + n <= |stream| && bytesRead + n <= buffer.Length
      modifies buffer
      ensures buffer[..bytesRead + n] == old(buffer[..bytesRead]) + stream[consumed..consumed + n]
    {
      forall k | 0 <= k < n {
        buffer[bytesRead + k] := stream[consumed + k];
      }
    }

    /** One read into the free part of the buffer. */
    method PollSocket() returns (p: Poll)
      requires Valid() && bytesRead < buffer.Length == codec.want(fed)
      modifies this`consumed, this`time, this`bytesRead, buffer
      ensures Valid() && buffer.Length == codec.want(fed)
      ensures time == old(time) + 1
      ensures p == Got(polls(old(time)), |stream| - old(consumed), buffer.Length - old(bytesRead))
      ensures if p.Bytes? then consumed == old(consumed) + p.n else consumed == old(consumed)
    {
      hide Exact, Positive;
      p := polls(time);
      time := time + 1;
      if p.Bytes? {
        var n := Min(p.n, Min(|stream| - consumed, buffer.Length - bytesRead));
        p := Bytes(n);
        CopyIn(n);
        SlicesJoin(stream, mark, consumed, consumed + n);
        bytesRead, consumed := bytesRead + n, consumed + n;
      }
    }

    /** A full buffer is copied into the decoder, which is then asked for a frame. */
    method Feed() returns (frame: Frame)
      requires Valid() && bytesRead == buffer.Length == codec.want(fed)
      modifies this`fed, this`bytesRead, this`mark
      ensures Valid() && bytesRead == 0 < codec.want(fed) && old(mark) < mark <= |stream|
      ensures fed == old(fed) + [buffer[..]] && frame == codec.next(fed)
      ensures Frames(codec, fed) == old(Frames(codec, fed)) + if frame.MissingBytes? then [] else [frame]
    {
      ghost var block := stream[mark..consumed];
      SlicesJoin(stream, 0, mark, consumed);
      ExactContinues(codec, [], stream[..mark], block);
      assert [] + block == block == buffer[..];
      FullBlock(codec, fed, block);
      assert (fed + [buffer[..]])[..|fed|] == fed;
      fed := fed + [buffer[..]];
      bytesRead := 0;
      mark := consumed;
      frame := codec.next(fed);
    }

    /** The inner loop of `read_frame`: reads until the buffer is full.  A read that stays pending
        leaves everything in the fields, so resuming it and calling again are the same. */
    method Fill(expected: nat) returns (stop: Outcome)
      requires Valid() && expected == codec.want(fed) == buffer.Length
      modifies this`consumed, this`time, this`bytesRead, buffer
      ensures Valid() && consumed >= old(consumed) && time >= old(time)
      ensures stop.Answer? <==> bytesRead == expected
      ensures !stop.NothingYet?
      ensures !stop.Answer? ==> time > old(time) && Explains(polls(time - 1), stop, consumed == |stream|)
    {
      while bytesRead < expected
        invariant Valid() && consumed >= old(consumed) && bytesRead <= expected && time >= old(time)
        decreases |stream| - consumed
      {
        var p := PollSocket();
        if p.WouldBlock? {
          return Pending;
        } else if p.Broken? || p.n == 0 {
          return SocketClosed;
        }
      }
      stop := Answer(MissingBytes);
    }

    /** `yield_now`: an await point without a read. */
    method Yield() returns (pending: bool)
      requires Valid()
      modifies this`time
      ensures Valid() && time == old(time) + 1 && pending == polls(old(time)).WouldBlock?
    {
      pending := polls(time).WouldBlock?;
      time := time + 1;
    }

    /** Waits for one block and hands it to the decoder. */
    method ReadBlock() returns (r: Outcome)
      requires Valid() && bytesRead < codec.want(fed)
      modifies this, buffer
      ensures Valid() && bytesRead < codec.want(fed) && consumed >= old(consumed) && time >= old(time)
      ensures buffer == old(buffer) || fresh(buffer)
      ensures r.Answer? ==> old(mark) < mark <= |stream|
      ensures Frames(codec, fed)
              == old(Frames(codec, fed)) + if r.Answer? && !r.frame.MissingBytes? then [r.frame] else []
      ensures !r.NothingYet? && (!r.Answer? ==> time > old(time) && Explains(polls(time - 1), r, consumed == |stream|))
    {
      hide Exact, Flatten, Frames, Positive, Explains, Got, Min;
      var expected := Prepare();
      r := Fill(expected);
      if r.Answer? {
        var frame := Feed();
        r := Answer(frame);
      }
    }

    /** Waits for a whole frame.  Giving up at any await point is harmless. */
    method ReadFrame() returns (r: Outcome)
      requires Reassembled()
      modifies this, buffer
      ensures Reassembled() && consumed >= old(consumed) && (buffer == old(buffer) || fresh(buffer))
      ensures !r.NothingYet? && (r.Answer? ==> !r.frame.MissingBytes?)
      ensures Frames(codec, fed) == old(Frames(codec, fed)) + if r.Answer? then [r.frame] else []
      // it stops without a frame only where the socket, or the scheduler, made it
      ensures !r.Answer? ==> time > old(time) && Explains(polls(time - 1), r, consumed == |stream|)
    {
      hide Exact, Flatten, Frames, Positive, Explains, Got, Min;
      while true
        invariant Valid() && bytesRead < codec.want(fed) && time >= old(time)
        invariant consumed >= old(consumed) && (buffer == old(buffer) || fresh(buffer))
        invariant Frames(codec, fed) == old(Frames(codec, fed))
        decreases |stream| - mark
      {
        r := ReadBlock();
        if !r.Answer? || !r.frame.MissingBytes? {
          break;
        }
        var pending := Yield();
        if pending {
          PendingExplained(polls(time - 1), consumed == |stream|);
          r := Pending;
          break;
        }
      }
      ValidIsReassembled();
    }

    /** One attempt without waiting. */
    method TryReadFrame() returns (r: Outcome)
      requires Reassembled()
      modifies this, buffer
      ensures Reassembled() && consumed >= old(consumed) && (buffer == old(buffer) || fresh(buffer))
      ensures !r.Pending? && (r.Answer? ==> !r.frame.MissingBytes?)
      ensures Frames(codec, fed) == old(Frames(codec, fed)) + if r.Answer? then [r.frame] else []
      // one poll, whose bytes are all taken
      ensures time == old(time) + 1
      ensures var p := Got(polls(old(time)), |stream| - old(consumed), codec.want(old(fed)) - old(bytesRead));
              && consumed == old(consumed) + (if p.Bytes? then p.n else 0)
              && (r.SocketClosed? <==> p.Broken? || p == Bytes(0))
    {
      hide Exact, Flatten, Frames, Positive;
      var expected := Prepare();
      var p := PollSocket();
      r := NothingYet;
      if p.Broken? || (p.Bytes? && p.n == 0) {
        r := SocketClosed;
      } else if bytesRead == expected {
        var frame := Feed();
        if !frame.MissingBytes? {
          r := Answer(frame);
        }
      }
      ValidIsReassembled();
    }
  }

  lemma {:induction false} ExactExtends(c: Codec, fed: seq<Block>, bytes: seq<Byte>)
    requires Positive(c)
    ensures fed <= Exact(c, fed, bytes).fed
    ensures Frames(c, fed) <= Frames(c, Exact(c, fed, bytes).fed)
    decreases |bytes|
  {
    var n := c.want(fed);
    if |bytes| >= n {
      var more := fed + [bytes[..n]];
      assert more[..|fed|] == fed;
      assert Frames(c, fed) <= Frames(c, more);
      ExactExtends(c, more, bytes[n..]);
    }
  }

  /** Two readers of the same stream, whatever the chunks and whatever mix of the two read calls:
      the one that has consumed less has delivered a prefix of the blocks and of the frames, and
      at equal consumption they agree in everything. */
  lemma ChunkingDoesNotMatter(a: ReadHalf, b: ReadHalf)
    requires a.Reassembled() && b.Reassembled()
    requires a.codec == b.codec && a.stream == b.stream && a.consumed <= b.consumed
    ensures a.fed <= b.fed && Frames(a.codec, a.fed) <= Frames(b.codec, b.fed)
    ensures a.consumed == b.consumed ==> a.fed == b.fed && a.buffer[..a.bytesRead] == b.buffer[..b.bytesRead]
  {
    hide Exact, Flatten, Frames, Positive;
    var early, late := a.stream[..a.consumed], a.stream[a.consumed..b.consumed];
    SlicesJoin(a.stream, 0, a.consumed, b.consumed);
    ExactContinues(a.codec, [], early, late);
    ExactExtends(a.codec, a.fed, a.buffer[..a.bytesRead] + late);
  }
}
