/** Streams over sockets that move an arbitrary number of bytes a call: full reads and writes, big-endian
    integers, and length-prefixed blocks. */
module SocketStream {
  import opened Bytes

  // ---- Big-endian integers and frames, as values ------------------------------------------------

  /** The number of values of `width` bytes. */
  function Range(width: nat): (r: nat)
    ensures r > 0
  {
    if width == 0 then 1 else 256 * Range(width - 1)
  }

  /** `v` as `width` bytes, most significant first. */
  function BigEndian(width: nat, v: nat): (r: seq<byte>)
    requires v < Range(width)
    ensures |r| == width
  {
    if width == 0 then [] else BigEndian(width - 1, v / 256) + [v % 256]
  }

  function FromBigEndian(s: seq<byte>): (v: nat)
    ensures v < Range(|s|)
  {
    if s == [] then 0 else FromBigEndian(s[..|s| - 1]) * 256 + s[|s| - 1]
  }

  lemma {:induction false} BigEndianBack(width: nat, v: nat)
    requires v < Range(width)
    ensures FromBigEndian(BigEndian(width, v)) == v
  {
    if width > 0 {
      BigEndianBack(width - 1, v / 256);
      assert BigEndian(width, v)[..width - 1] == BigEndian(width - 1, v / 256);
    }
  }

  lemma {:induction false} BigEndianOf(s: seq<byte>)
    ensures BigEndian(|s|, FromBigEndian(s)) == s
  {
    if s != [] {
      var init, last := s[..|s| - 1], s[|s| - 1];
      BigEndianOf(init);
      LastDigit(|init|, FromBigEndian(init), last);
      assert s == init + [last];
    }
  }

  lemma LastDigit(width: nat, high: nat, low: byte)
    requires high < Range(width)
    ensures high * 256 + low < Range(width + 1)
    ensures BigEndian(width + 1, high * 256 + low) == BigEndian(width, high) + [low]
  {
    var v := high * 256 + low;
    assert v / 256 == high && v % 256 == low;
  }

  /** A block on the wire: its length in `width` bytes, then its bytes. */
  function Frame(width: nat, payload: seq<byte>): seq<byte>
    requires |payload| < Range(width)
  {
    BigEndian(width, |payload|) + payload
  }

  datatype Framed = Framed(payload: seq<byte>, rest: seq<byte>)

  function Unframe(width: nat, s: seq<byte>): Option<Framed> {
    if |s| < width then None
    else
      var n := FromBigEndian(s[..width]);
      if |s| < width + n then None else Some(Framed(s[width..width + n], s[width + n..]))
  }

  lemma UnframeFrame(width: nat, payload: seq<byte>, rest: seq<byte>)
    requires |payload| < Range(width)
    ensures Unframe(width, Frame(width, payload) + rest) == Some(Framed(payload, rest))
  {
    var s := Frame(width, payload) + rest;
    assert s[..width] == BigEndian(width, |payload|);
    BigEndianBack(width, |payload|);
    assert s[width..width + |payload|] == payload && s[width + |payload|..] == rest;
  }

  /** A message and the width its length travels in. */
  datatype Message = Message(width: nat, payload: seq<byte>)

  ghost predicate Sendable(messages: seq<Message>) {
    forall i | 0 <= i < |messages| :: |messages[i].payload| < Range(messages[i].width)
  }

  function EncodeAll(messages: seq<Message>): seq<byte>
    requires Sendable(messages)
  {
    if messages == [] then [] else Frame(messages[0].width, messages[0].payload) + EncodeAll(messages[1..])
  }

  datatype Decoded = Decoded(messages: seq<Message>, rest: seq<byte>)

  /** Reading messages one after the other with the widths they were sent in. */
  function DecodeAll(widths: seq<nat>, s: seq<byte>): Option<Decoded> {
    if widths == [] then Some(Decoded([], s))
    else match Unframe(widths[0], s)
      case None => None
      case Some(f) =>
        match DecodeAll(widths[1..], f.rest)
        case None => None
        case Some(more) => Some(Decoded([Message(widths[0], f.payload)] + more.messages, more.rest))
  }

  function Widths(messages: seq<Message>): (r: seq<nat>)
    ensures |r| == |messages| && forall i | 0 <= i < |r| :: r[i] == messages[i].width
  {
    if messages == [] then [] else [messages[0].width] + Widths(messages[1..])
  }

  lemma DecodeOne(widths: seq<nat>, w: nat, others: seq<nat>, s: seq<byte>, f: Framed, more: Decoded)
    requires widths == [w] + others && Unframe(w, s) == Some(f) && DecodeAll(others, f.rest) == Some(more)
    ensures DecodeAll(widths, s) == Some(Decoded([Message(w, f.payload)] + more.messages, more.rest))
  {
    assert widths[1..] == others;
  }

  lemma EncodeHead(messages: seq<Message>, m: Message, others: seq<Message>, rest: seq<byte>)
    requires Sendable(messages) && messages == [m] + others
    ensures Sendable(others) && Widths(messages) == [m.width] + Widths(others)
    ensures EncodeAll(messages) + rest == Frame(m.width, m.payload) + (EncodeAll(others) + rest)
  {
    assert messages[1..] == others;
    assert forall i | 0 <= i < |others| :: others[i] == messages[i + 1];
  }

  /** Every sequence of messages is read back message by message, unchanged, and what follows it is left. */
  lemma {:induction false} MessagesRoundTrip(messages: seq<Message>, rest: seq<byte>)
    requires Sendable(messages)
    ensures DecodeAll(Widths(messages), EncodeAll(messages) + rest) == Some(Decoded(messages, rest))
    decreases |messages|
  {
    if messages == [] {
      assert EncodeAll(messages) + rest == rest;
    } else {
      var m, others := messages[0], messages[1..];
      EncodeHead(messages, m, others, rest);
      MessagesRoundTrip(others, rest);
      RoundTripOne(m, others, Widths(messages), EncodeAll(messages) + rest, EncodeAll(others) + rest, rest);
      assert messages == [m] + others;
    }
  }

  lemma RoundTripOne(m: Message, others: seq<Message>, widths: seq<nat>, s: seq<byte>, more: seq<byte>, rest: seq<byte>)
    requires |m.payload| < Range(m.width) && s == Frame(m.width, m.payload) + more && widths == [m.width] + Widths(others)
    requires DecodeAll(Widths(others), more) == Some(Decoded(others, rest))
    ensures DecodeAll(widths, s) == Some(Decoded([m] + others, rest))
  {
    UnframeFrame(m.width, m.payload, more);
    DecodeOne(widths, m.width, Widths(others), s, Framed(m.payload, more), Decoded(others, rest));
  }

  lemma {:induction false} EncodeSnoc(messages: seq<Message>, m: Message)
    requires Sendable(messages) && |m.payload| < Range(m.width)
    ensures Sendable(messages + [m]) && EncodeAll(messages + [m]) == EncodeAll(messages) + Frame(m.width, m.payload)
    decreases |messages|
  {
    if messages == [] {
      assert messages + [m] == [m] && EncodeAll([m][1..]) == [];
    } else {
      assert (messages + [m])[1..] == messages[1..] + [m];
      EncodeSnoc(messages[1..], m);
    }
  }

  lemma {:induction false} EncodePrefix(messages: seq<Message>, n: nat)
    requires Sendable(messages) && n <= |messages|
    ensures Sendable(messages[..n]) && EncodeAll(messages[..n]) <= EncodeAll(messages)
    decreases |messages| - n
  {
    if n == |messages| {
      assert messages[..n] == messages;
    } else {
      EncodePrefix(messages, n + 1);
      assert messages[..n + 1] == messages[..n] + [messages[n]];
      EncodeSnoc(messages[..n], messages[n]);
    }
  }

  /** `now` continues `before` by a proper prefix of `data`. */
  ghost predicate CutShort(before: seq<byte>, now: seq<byte>, data: seq<byte>) {
    before <= now && now <= before + data && |now| < |before| + |data|
  }

  // ---- The socket ------------------------------------------------------------------------------

  class StreamSocket {
    /** Bytes the peer has sent and this side has not read; bytes this side has sent. */
    var inbound: seq<byte>
    var outbound: seq<byte>
    var open: bool
    /** How many partial reads and writes have returned an error or nothing. */
    ghost var failures: nat

    constructor ()
      ensures open && failures == 0 && inbound == [] && outbound == []
    {
      inbound, outbound, open, failures := [], [], true, 0;
    }

    /** Takes any number of the bytes, or none, or fails; a socket that was shut down takes none. */
    method PartialWrite(data: seq<byte>) returns (r: int)
      modifies this`outbound, this`failures
      ensures r <= |data| && outbound == old(outbound) + data[..if r > 0 then r else 0]
      ensures r > 0 ==> open
      ensures failures == old(failures) + if r <= 0 then 1 else 0
    {
      if open {
        r :| -1 <= r <= |data|;
      } else {
        r := -1;
      }
      outbound := outbound + data[..if r > 0 then r else 0];
      failures := failures + if r <= 0 then 1 else 0;
    }

    /** Gives any number of the bytes there are, or none, or fails. */
    method PartialRead(max: nat) returns (r: int, data: seq<byte>)
      modifies this`inbound, this`failures
      ensures r <= max && |data| == (if r > 0 then r else 0) && old(inbound) == data + inbound
      ensures failures == old(failures) + if r <= 0 then 1 else 0
    {
      r :| -1 <= r <= max && r <= |inbound|;
      var n := if r > 0 then r else 0;
      data, inbound := inbound[..n], inbound[n..];
      failures := failures + if r <= 0 then 1 else 0;
    }

    method ShutdownSocket()
      modifies this`open
      ensures !open
    {
      open := false;
    }

    /** All of the data in order, or a proper prefix of it on a socket that is then shut down. */
    method WriteFull(data: seq<byte>) returns (ok: bool)
      modifies this`outbound, this`open, this`failures
      ensures ok ==> outbound == old(outbound) + data && open == old(open) && failures == old(failures)
      ensures !ok ==> !open && failures > old(failures) && CutShort(old(outbound), outbound, data)
      ensures !old(open) && data != [] ==> !ok && outbound == old(outbound)
    {
      var sent: nat := 0;
      assert data[..0] == [];
      while sent < |data|
        invariant sent <= |data| && outbound == old(outbound) + data[..sent]
        invariant open == old(open) && failures == old(failures) && (!open ==> sent == 0)
      {
        var chunkSize := Min(|data| - sent, 4096);
        var r := PartialWrite(data[sent..sent + chunkSize]);
        if r <= 0 {
          ShutdownSocket();
          return false;
        }
        assert data[..sent] + data[sent..sent + chunkSize][..r] == data[..sent + r];
        sent := sent + r;
      }
      assert data[..sent] == data;
      return true;
    }

    /** Exactly the requested bytes, or failure after a transport failure with fewer than that consumed. */
    method ReadFull(expected: nat) returns (ok: bool, data: seq<byte>)
      modifies this`inbound, this`failures
      ensures old(inbound) == data + inbound
      ensures ok ==> |data| == expected && failures == old(failures)
      ensures !ok ==> failures > old(failures) && |data| < expected
    {
      data := [];
      while |data| < expected
        invariant |data| <= expected && old(inbound) == data + inbound && failures == old(failures)
      {
        var bytesToRead := Min(4096, expected - |data|);
        var r, part := PartialRead(bytesToRead);
        assert data + (part + inbound) == (data + part) + inbound;
        data := data + part;
        if r <= 0 {
          return false, data;
        }
      }
      return true, data;
    }

    method WriteU(width: nat, v: nat) returns (ok: bool)
      requires v < Range(width) && width > 0
      modifies this`outbound, this`open, this`failures
      ensures ok ==> outbound == old(outbound) + BigEndian(width, v) && open == old(open) && failures == old(failures)
      ensures !ok ==> !open && failures > old(failures) && CutShort(old(outbound), outbound, BigEndian(width, v))
      ensures !old(open) ==> !ok && outbound == old(outbound)
    {
      ok := WriteFull(BigEndian(width, v));
      if !ok {
        ShutdownSocket();
      }
    }

    method ReadU(width: nat) returns (ok: bool, v: nat)
      requires width > 0
      modifies this`inbound, this`failures, this`open
      ensures ok ==> v < Range(width) && old(inbound) == BigEndian(width, v) + inbound
      ensures ok ==> failures == old(failures) && open == old(open)
      ensures !ok ==> failures > old(failures) && !open && |inbound| <= |old(inbound)| < |inbound| + width
    {
      var data;
      ok, data := ReadFull(width);
      if ok {
        v := FromBigEndian(data);
        BigEndianOf(data);
      } else {
        v := 0;
        ShutdownSocket();
      }
    }

    /** One frame is appended, or the stream ends in a proper prefix of it on a socket shut down. */
    method WriteBlockEx(width: nat, data: seq<byte>) returns (ok: bool)
      requires width > 0 && |data| < Range(width)
      modifies this`outbound, this`open, this`failures
      ensures ok ==> outbound == old(outbound) + Frame(width, data) && failures == old(failures) && open == old(open)
      ensures !ok ==> !open && failures > old(failures) && CutShort(old(outbound), outbound, Frame(width, data))
    {
      ok := WriteFull(BigEndian(width, |data|));
      if !ok {
        return;
      }
      assert old(outbound) + Frame(width, data) == old(outbound) + BigEndian(width, |data|) + data;
      if |data| == 0 {
        return true;
      }
      ok := WriteFull(data);
      if !ok {
        ShutdownSocket();
      }
    }

    /** Strings keep one length in reserve: a longer one is refused before a byte is written. */
    method WriteStringEx(width: nat, str: seq<byte>) returns (ok: bool)
      requires width > 0
      modifies this`outbound, this`open, this`failures
      ensures |str| > Range(width) - 2 ==> !ok && outbound == old(outbound) && !open
      ensures ok ==> |str| <= Range(width) - 2 && outbound == old(outbound) + Frame(width, str)
      ensures ok ==> failures == old(failures) && open == old(open)
      ensures |str| <= Range(width) - 2 && !ok ==> failures > old(failures) && !open && CutShort(old(outbound), outbound, Frame(width, str))
    {
      if |str| > Range(width) - 2 {
        ShutdownSocket();
        return false;
      }
      ok := WriteBlockEx(width, str);
    }

    /** A block of at most `max` bytes: on success exactly one frame was consumed and its payload is the
        result; failure means the transport failed or the length was over the limit. */
    method ReadBlockWAllocEx(width: nat, max: nat) returns (ok: bool, data: seq<byte>)
      requires width > 0
      modifies this`inbound, this`failures, this`open
      ensures ok ==> Unframe(width, old(inbound)) == Some(Framed(data, inbound)) && |data| <= max && failures == old(failures)
      ensures !ok ==> !open && data == [] && failures >= old(failures)
      ensures !ok && failures == old(failures) ==> |old(inbound)| >= width && FromBigEndian(old(inbound)[..width]) > max
    {
      var n;
      ok, n := ReadU(width);
      if !ok {
        return false, [];
      }
      ghost var header, after := BigEndian(width, n), inbound;
      assert old(inbound)[..width] == header;
      BigEndianBack(width, n);
      if n > max {
        ShutdownSocket();
        return false, [];
      }
      if n == 0 {
        assert old(inbound)[width..width] == [] && old(inbound)[width..] == inbound;
        return true, [];
      }
      ok, data := ReadFull(n);
      if !ok {
        ShutdownSocket();
        return false, [];
      }
      assert old(inbound) == header + (data + inbound);
      assert old(inbound)[width..width + n] == data && old(inbound)[width + n..] == inbound;
    }
  }

  // ---- Conversations ---------------------------------------------------------------------------

  /** Sending messages one after the other: all their frames, or the stream ends inside one of them on a socket
      that is shut down. */
  method SendAll(s: StreamSocket, messages: seq<Message>) returns (ok: bool)
    requires Sendable(messages) && forall m | m in messages :: m.width > 0
    modifies s`outbound, s`open, s`failures
    ensures ok ==> s.outbound == old(s.outbound) + EncodeAll(messages)
    ensures !ok ==> !s.open && s.failures > old(s.failures) && CutShort(old(s.outbound), s.outbound, EncodeAll(messages))
  {
    ghost var before := s.outbound;
    for i := 0 to |messages|
      invariant Sendable(messages[..i]) && s.outbound == before + EncodeAll(messages[..i]) && s.failures == old(s.failures)
    {
      var m := messages[i];
      NextFrame(messages, messages[..i], m, messages[..i] + [m], i);
      ghost var sent, frame := EncodeAll(messages[..i]), Frame(m.width, m.payload);
      ok := s.WriteBlockEx(m.width, m.payload);
      if !ok {
        CutInside(before, sent, frame, EncodeAll(messages), s.outbound);
        return;
      }
      assert (before + sent) + frame == before + (sent + frame);
    }
    assert messages[..|messages|] == messages;
    ok := true;
  }

  lemma NextFrame(messages: seq<Message>, done: seq<Message>, m: Message, next: seq<Message>, i: nat)
    requires Sendable(messages) && i < |messages| && done == messages[..i] && m == messages[i] && next == done + [m]
    ensures Sendable(done) && Sendable(next) && next == messages[..i + 1]
    ensures EncodeAll(next) == EncodeAll(done) + Frame(m.width, m.payload) && EncodeAll(next) <= EncodeAll(messages)
  {
    assert next == messages[..i + 1];
    EncodeSnoc(done, m);
    EncodePrefix(messages, i + 1);
  }

  lemma CutInside(before: seq<byte>, sent: seq<byte>, frame: seq<byte>, all: seq<byte>, now: seq<byte>)
    requires CutShort(before + sent, now, frame) && sent + frame <= all
    ensures CutShort(before, now, all)
  {
    assert now <= before + (sent + frame) by {
      assert (before + sent) + frame == before + (sent + frame);
    }
  }

  /** Receiving messages of known widths: when every read succeeds they are the messages that were sent, and what
      was sent later is still there; a read fails only with the transport or on a message over the limit. */
  method ReceiveAll(s: StreamSocket, widths: seq<nat>, max: nat, ghost sent: seq<Message>, ghost later: seq<byte>)
    returns (ok: bool, messages: seq<Message>)
    requires Sendable(sent) && widths == Widths(sent) && s.inbound == EncodeAll(sent) + later
    requires forall w | w in widths :: w > 0
    modifies s`inbound, s`open, s`failures
    ensures ok ==> messages == sent && s.inbound == later && s.failures == old(s.failures)
    ensures !ok ==> !s.open && (s.failures > old(s.failures) || exists m | m in sent :: |m.payload| > max)
  {
    messages := [];
    for i := 0 to |widths|
      invariant messages == sent[..i] && Pending(sent, i, later, s.inbound) && s.failures == old(s.failures)
    {
      ghost var m := sent[i];
      assert widths[i] in widths;
      TakeFrame(sent, i, m, later, s.inbound);
      var data;
      ok, data := s.ReadBlockWAllocEx(widths[i], max);
      if !ok {
        return;
      }
      messages := messages + [Message(widths[i], data)];
    }
    NonePending(sent, later, s.inbound);
    ok := true;
  }

  /** Messages from number `i` on are still to be read. */
  ghost predicate Pending(sent: seq<Message>, i: nat, later: seq<byte>, s: seq<byte>) {
    i <= |sent| && Sendable(sent[i..]) && s == EncodeAll(sent[i..]) + later
  }

  lemma NonePending(sent: seq<Message>, later: seq<byte>, s: seq<byte>)
    requires Pending(sent, |sent|, later, s)
    ensures s == later && sent[..|sent|] == sent
  {
  }

  lemma TakeFrame(sent: seq<Message>, i: nat, m: Message, later: seq<byte>, s: seq<byte>)
    requires i < |sent| && m == sent[i] && Pending(sent, i, later, s)
    ensures m in sent && sent[..i + 1] == sent[..i] + [m]
    ensures |s| >= m.width && FromBigEndian(s[..m.width]) == |m.payload|
    ensures Unframe(m.width, s).Some? && Unframe(m.width, s).value.payload == m.payload
    ensures Pending(sent, i + 1, later, Unframe(m.width, s).value.rest)
  {
    var rest := sent[i..][1..];
    assert rest == sent[i + 1..];
    assert s == Frame(m.width, m.payload) + (EncodeAll(rest) + later);
    ReadFrame(m, EncodeAll(rest) + later, s);
  }

  lemma ReadFrame(m: Message, more: seq<byte>, s: seq<byte>)
    requires |m.payload| < Range(m.width) && s == Frame(m.width, m.payload) + more
    ensures |s| >= m.width && FromBigEndian(s[..m.width]) == |m.payload|
    ensures Unframe(m.width, s) == Some(Framed(m.payload, more))
  {
    assert s[..m.width] == BigEndian(m.width, |m.payload|);
    BigEndianBack(m.width, |m.payload|);
    UnframeFrame(m.width, m.payload, more);
  }
}
