/** The bridge's workers: moving one block at a time between two sockets, plain or framed. */
module BridgePipe {
  import opened Bytes
  import opened SocketStream
  import opened BridgeWire

  class BridgeThread {
    const src: StreamSocket
    const dst: StreamSocket
    const chunked: bool
    var blockSize: nat
    var terminated: bool

    constructor (src: StreamSocket, dst: StreamSocket, chunked: bool)
      ensures this.src == src && this.dst == dst && this.chunked == chunked && !terminated && blockSize == 8192
    {
      this.src, this.dst, this.chunked := src, dst, chunked;
      terminated := false;
      new;
      SetBlockSize(8192);
    }

    ghost predicate Valid()
      reads this
    {
      src != dst && blockSize < 0x1_0000
    }

    method SetBlockSize(value: nat)
      requires value < 0x1_0000
      modifies this`blockSize
      ensures blockSize == value && (src != dst ==> Valid())
    {
      blockSize := value;
    }

    method Terminate()
      modifies this`terminated
      ensures terminated
    {
      terminated := true;
    }

    /** A ping is the frame of an empty block. */
    method SendPing() returns (ok: bool)
      requires Valid()
      modifies dst`outbound, dst`open, dst`failures
      ensures ok ==> dst.outbound == old(dst.outbound) + BlockFrame([])
      ensures !ok ==> !dst.open && dst.failures > old(dst.failures) && CutShort(old(dst.outbound), dst.outbound, BlockFrame([]))
    {
      BlockFrameIsFrame([]);
      assert BlockFrame([]) == BigEndian(WIDTH, 0);
      ok := dst.WriteU(WIDTH, 0);
    }

    /** Unframed: what was read from one socket is written to the other. */
    method Relay(from: StreamSocket, to: StreamSocket) returns (r: int, ghost moved: seq<byte>)
      requires Valid() && from != to
      modifies from`inbound, from`failures, to`outbound, to`open, to`failures
      ensures old(from.inbound) == moved + from.inbound && |moved| <= blockSize
      ensures r == -1 || r == -2 || 0 < r == |moved|
      ensures r == -1 ==> moved == [] && from.failures > old(from.failures) && to.outbound == old(to.outbound)
      ensures r == -2 ==> moved != [] && !to.open && to.failures > old(to.failures) && CutShort(old(to.outbound), to.outbound, moved)
      ensures r > 0 ==> to.outbound == old(to.outbound) + moved
    {
      var bytesReceived, curBlock := from.PartialRead(blockSize);
      if bytesReceived > 0 {
        var ok := to.WriteFull(curBlock);
        return if ok then bytesReceived else -2, curBlock;
      }
      return -1, curBlock;
    }

    /** 0->1: what was read from the source goes out as one frame. */
    method Encapsulate() returns (r: int, ghost moved: block)
      requires Valid()
      modifies src`inbound, src`failures, dst`outbound, dst`open, dst`failures
      ensures old(src.inbound) == moved + src.inbound && |moved| <= blockSize
      ensures r == -1 || r == -2 || 0 < r == |moved|
      ensures r == -1 ==> moved == [] && src.failures > old(src.failures) && dst.outbound == old(dst.outbound)
      ensures r == -2 ==> moved != [] && !dst.open && dst.failures > old(dst.failures) && CutShort(old(dst.outbound), dst.outbound, BlockFrame(moved))
      ensures (r != -1 ==> src.failures == old(src.failures)) && (r != -2 ==> dst.failures == old(dst.failures))
      ensures r > 0 ==> dst.outbound == old(dst.outbound) + BlockFrame(moved)
    {
      var bytesReceived, curBlock := src.PartialRead(blockSize);
      if bytesReceived <= 0 {
        return -1, curBlock;
      }
      BlockFrameIsFrame(curBlock);
      ghost var header, before := BigEndian(WIDTH, |curBlock|), dst.outbound;
      assert before + BlockFrame(curBlock) == (before + header) + curBlock;
      var ok := dst.WriteU(WIDTH, bytesReceived);
      if !ok {
        return -2, curBlock;
      }
      ok := dst.WriteFull(curBlock);
      return if ok then bytesReceived else -2, curBlock;
    }

    /** A frame's length; a stream that ends first is shut down. */
    method ReadLength() returns (ok: bool, n: nat)
      modifies dst`inbound, dst`failures, dst`open
      ensures ok ==> n < 0x1_0000 && old(dst.inbound) == [n / 256, n % 256] + dst.inbound && dst.failures == old(dst.failures)
      ensures !ok ==> dst.failures > old(dst.failures) && |dst.inbound| <= |old(dst.inbound)|
    {
      RangeOfTwo();
      ok, n := dst.ReadU(WIDTH);
      if ok {
        TwoBytes(n);
      }
    }

    /** 1->0: the payload of one frame is written to the source's side; a ping is only reported. */
    method Decapsulate() returns (r: int, ghost moved: seq<byte>)
      requires Valid()
      modifies src`outbound, src`open, src`failures, dst`inbound, dst`failures, dst`open
      ensures r == -1 || r == -2 || r == -3 || 0 < r == |moved|
      ensures r == -1 ==> dst.failures > old(dst.failures) && |dst.inbound| <= |old(dst.inbound)| && src.outbound == old(src.outbound)
      ensures r != -1 ==> Unblock(old(dst.inbound)) == Some(Framed(moved, dst.inbound)) && dst.failures == old(dst.failures)
      ensures r == -3 || (r == -2 && moved == []) ==> moved == [] && (terminated <==> r == -2) && src.outbound == old(src.outbound)
      ensures r == -2 && moved != [] ==> !src.open && src.failures > old(src.failures) && CutShort(old(src.outbound), src.outbound, moved)
      ensures r > 0 ==> src.outbound == old(src.outbound) + moved
    {
      ghost var arrived := dst.inbound;
      var readOK, bytesReceived := ReadLength();
      if !readOK {
        return -1, [];
      }
      ghost var rest := dst.inbound;
      if bytesReceived == 0 {
        BlockComesOff(arrived, [], rest);
        return if terminated then -2 else -3, [];
      }
      var ok, curBlock := dst.ReadFull(bytesReceived);
      if !ok {
        return -1, curBlock;
      }
      BlockComesOff(arrived, curBlock, dst.inbound);
      ok := src.WriteFull(curBlock);
      return if ok then bytesReceived else -2, curBlock;
    }

    /** The forwarding thread's loop: the far side gets one frame a block, in order, until reading fails or a
        write does; only the block of that last write can be lost. */
    method ProcessForward(shutdownRemotePeerOnFinish: bool) returns (sentBytes: nat, ghost blocks: seq<block>, ghost lost: block)
      requires Valid() && chunked
      modifies src, dst, this`terminated
      ensures Concat(blocks) + (lost + src.inbound) == old(src.inbound) && sentBytes == |Concat(blocks)|
      ensures forall b | b in blocks :: 0 < |b| <= blockSize
      ensures lost == [] ==> dst.outbound == old(dst.outbound) + Wire(blocks)
      ensures lost != [] ==> !dst.open && dst.failures > old(dst.failures) && CutShort(old(dst.outbound) + Wire(blocks), dst.outbound, BlockFrame(lost))
      ensures lost == [] ==> src.failures > old(src.failures)
      ensures shutdownRemotePeerOnFinish && lost == [] ==> terminated && !dst.open
    {
      sentBytes, blocks, lost := 0, [], [];
      ghost var start := dst.outbound;
      while true
        invariant Concat(blocks) + src.inbound == old(src.inbound) && sentBytes == |Concat(blocks)|
        invariant forall b | b in blocks :: 0 < |b| <= blockSize
        invariant dst.outbound == start + Wire(blocks) && src.failures == old(src.failures) && dst.failures == old(dst.failures)
        decreases |src.inbound|
      {
        ghost var rest := src.inbound;
        var dataRecv, moved := Encapsulate();
        assert Concat(blocks) + (moved + src.inbound) == Concat(blocks) + rest;
        if dataRecv > 0 {
          sentBytes := sentBytes + dataRecv;
          OneMoreBlock(start, blocks, moved);
          assert (Concat(blocks) + moved) + src.inbound == Concat(blocks) + (moved + src.inbound);
          blocks := blocks + [moved];
        } else {
          if dataRecv == -1 && shutdownRemotePeerOnFinish {
            dst.ShutdownSocket();
            Terminate();
          }
          return sentBytes, blocks, moved;
        }
      }
    }

    /** The opposite loop: the payloads of the frames that come in are written out in order, pings skipped, until
        reading fails, a write does, or a ping finds the bridge terminated; only the payload of that write can be
        missing. `blocks` are the frames it has dealt with and `rest` is what came behind them. */
    method ProcessBackward(shutdownRemotePeerOnFinish: bool) returns (recvBytes: nat, ghost blocks: seq<block>, ghost rest: seq<byte>)
      requires Valid() && chunked
      modifies src, dst, this`terminated
      ensures old(dst.inbound) == Wire(blocks) + rest && recvBytes == |Concat(blocks)|
      ensures old(src.outbound) <= src.outbound <= old(src.outbound) + Delivered(old(dst.inbound))
      ensures ReadFailed(old(dst.failures), rest) || WriteFailed(old(src.outbound) + Concat(blocks), rest)
           || FoundTerminated(old(terminated), blocks, rest)
      ensures src.outbound == old(src.outbound) + Concat(blocks) || WriteFailed(old(src.outbound) + Concat(blocks), rest)
      ensures shutdownRemotePeerOnFinish && dst.failures > old(dst.failures) ==> terminated && !src.open
    {
      recvBytes, blocks, rest := 0, [], dst.inbound;
      ghost var start, began := src.outbound, dst.inbound;
      StartsDealing(start, began);
      while true
        invariant Dealt(start, began, src.outbound, blocks, rest) && rest == dst.inbound && recvBytes == |Concat(blocks)|
        invariant dst.failures == old(dst.failures) && terminated == old(terminated)
        decreases |dst.inbound|
      {
        ghost var out := src.outbound;
        var dataRecv, moved := Decapsulate();
        if dataRecv == -1 {
          if shutdownRemotePeerOnFinish {
            src.ShutdownSocket();
            Terminate();
          }
          return;
        }
        FrameDealtWith(start, began, out, blocks, moved, rest, dst.inbound);
        if moved == [] || dataRecv != -2 {
          blocks, rest := blocks + [moved], dst.inbound;
        }
        if dataRecv == -2 {
          return;
        } else if dataRecv > 0 {
          recvBytes := recvBytes + dataRecv;
        }
      }
    }

    /** Why the opposite loop ends: a read failed while this was still to come ... */
    ghost predicate ReadFailed(failures: nat, rest: seq<byte>)
      reads dst
    {
      dst.failures > failures && |dst.inbound| <= |rest|
    }

    /** ... or writing the payload of the next frame did, leaving part of it behind `out` ... */
    ghost predicate WriteFailed(out: seq<byte>, rest: seq<byte>)
      reads src, dst
    {
      && Unblock(rest).Some? && Unblock(rest).value.payload != [] && Unblock(rest).value.rest == dst.inbound
      && !src.open && CutShort(out, src.outbound, Unblock(rest).value.payload)
    }

    /** ... or the last frame was a ping and the bridge was terminated. */
    ghost predicate FoundTerminated(terminated: bool, blocks: seq<block>, rest: seq<byte>)
      reads dst
    {
      terminated && blocks != [] && blocks[|blocks| - 1] == [] && dst.inbound == rest
    }
  }

  /** The frames dealt with so far and what is still to come, and what was written out for them. */
  ghost predicate Dealt(start: seq<byte>, began: seq<byte>, out: seq<byte>, blocks: seq<block>, rest: seq<byte>) {
    began == Wire(blocks) + rest && out == start + Concat(blocks) && start <= out <= start + Delivered(began)
  }

  lemma StartsDealing(start: seq<byte>, began: seq<byte>)
    ensures Dealt(start, began, start, [], began)
  {
    assert Wire([]) + began == began && start + [] == start;
  }

  /** One more frame off the front of what came in. */
  lemma FrameDealtWith(start: seq<byte>, began: seq<byte>, out: seq<byte>, blocks: seq<block>, moved: seq<byte>, rest: seq<byte>, next: seq<byte>)
    requires Dealt(start, began, out, blocks, rest) && Unblock(rest) == Some(Framed(moved, next))
    ensures |moved| < 0x1_0000 && Dealt(start, began, out + moved, blocks + [moved], next)
    ensures |Concat(blocks + [moved])| == |Concat(blocks)| + |moved|
  {
    FrameOf(rest, moved, next);
    OneMoreBlock(start, blocks, moved);
    WireMore(began, blocks, moved, rest, next);
    FramesDeliver(blocks + [moved], next, began);
    Regroups(start, Concat(blocks), moved, Concat(blocks + [moved]), Delivered(next), Delivered(began));
  }

  lemma WireMore(began: seq<byte>, blocks: seq<block>, b: block, rest: seq<byte>, next: seq<byte>)
    requires began == Wire(blocks) + rest && rest == BlockFrame(b) + next
    ensures began == Wire(blocks + [b]) + next
  {
    assert (blocks + [b])[..|blocks|] == blocks;
    assert (Wire(blocks) + BlockFrame(b)) + next == Wire(blocks) + (BlockFrame(b) + next);
  }

  lemma Regroups(start: seq<byte>, c: seq<byte>, b: seq<byte>, more: seq<byte>, coming: seq<byte>, all: seq<byte>)
    requires more == c + b && all == more + coming
    ensures (start + c) + b == start + more && start <= start + more <= start + all
  {
  }

  /** What comes off as a frame was one. */
  lemma FrameOf(s: seq<byte>, payload: seq<byte>, rest: seq<byte>)
    requires Unblock(s) == Some(Framed(payload, rest))
    ensures |payload| < 0x1_0000 && s == BlockFrame(payload) + rest
  {
    var n: nat := Length(s[0], s[1]);
    assert |payload| == n && n / 256 == s[0] && n % 256 == s[1];
    assert s == [s[0], s[1]] + s[WIDTH..WIDTH + n] + s[WIDTH + n..];
  }

  lemma BlockComesOff(arrived: seq<byte>, b: block, rest: seq<byte>)
    requires arrived == [|b| / 256, |b| % 256] + (b + rest)
    ensures Unblock(arrived) == Some(Framed(b, rest))
  {
    assert arrived == BlockFrame(b) + rest;
    FrameFirst(b, rest);
  }

  lemma OneMoreBlock(start: seq<byte>, blocks: seq<block>, b: block)
    ensures start + Wire(blocks + [b]) == (start + Wire(blocks)) + BlockFrame(b)
    ensures Concat(blocks + [b]) == Concat(blocks) + b
  {
    ConcatSnoc(blocks, b);
    assert (blocks + [b])[..|blocks|] == blocks;
    assert start + (Wire(blocks) + BlockFrame(b)) == (start + Wire(blocks)) + BlockFrame(b);
  }
}
