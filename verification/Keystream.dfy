/** The keystream layer as values: one side's buffered keystream, what a partial write and a partial read
    do to it, and every run of the two ends of a link over a lossless wire. The block cipher and the
    initialisation-vector generator are parameters. */
module Keystream {
  import opened Octets

  /** `encrypt(key, iv, n)` is the block of `n` keystream bytes for an initialisation vector, and
      `iv(seed, k)` the k-th vector a generator seeded with `seed` yields. */
  datatype Suite = Suite(encrypt: (seq<octet>, seq<octet>, nat) -> seq<octet>, iv: (seq<octet>, nat) -> seq<octet>)

  ghost predicate BlockCipher(suite: Suite) {
    forall key, iv, n :: |suite.encrypt(key, iv, n)| == n
  }

  /** What a direction of the link is keyed with once the handshake is over. */
  datatype Session = Session(suite: Suite, key: seq<octet>, seed: seq<octet>, blockSize: nat)

  ghost predicate Usable(x: Session) {
    BlockCipher(x.suite) && x.blockSize > 0
  }

  function Block(x: Session, k: nat): seq<octet> {
    x.suite.encrypt(x.key, x.suite.iv(x.seed, k), x.blockSize)
  }

  /** The first `n` blocks of the one keystream. */
  function Stream(x: Session, n: nat): seq<octet> {
    if n == 0 then [] else Stream(x, n - 1) + Block(x, n - 1)
  }

  lemma {:induction false} StreamGrows(x: Session, n: nat, m: nat)
    requires n <= m
    ensures |Stream(x, n)| <= |Stream(x, m)| && Stream(x, m)[..|Stream(x, n)|] == Stream(x, n)
    decreases m
  {
    if n < m {
      StreamGrows(x, n, m - 1);
    }
  }

  /** The keystream byte at a position: the block it lies in is the cipher applied to the key and that block's
      vector. */
  ghost function KeyByte(x: Session, i: nat): octet
    requires Usable(x)
  {
    x.suite.encrypt(x.key, x.suite.iv(x.seed, i / x.blockSize), x.blockSize)[i % x.blockSize]
  }

  lemma ProductGap(a: nat, b: nat, size: nat)
    ensures a < b ==> a * size + size <= b * size
  {
    if a < b {
      var less: nat := b - a - 1;
      assert less * size >= 0;
      assert b * size == a * size + size + less * size;
    }
  }

  lemma PlaceInBlock(size: nat, k: nat, j: nat, i: nat)
    requires j < size && i == k * size + j
    ensures i / size == k && i % size == j
  {
    var q: nat, r: nat := i / size, i % size;
    assert i == q * size + r;
    ProductGap(q, k, size);
    ProductGap(k, q, size);
  }

  lemma {:induction false} StreamLength(x: Session, n: nat)
    requires Usable(x)
    ensures |Stream(x, n)| == n * x.blockSize
  {
    if n > 0 {
      StreamLength(x, n - 1);
    }
  }

  /** Every byte of the keystream, however far it has been generated, is the cipher's byte for its position. */
  lemma {:induction false} StreamAt(x: Session, n: nat, i: nat)
    requires Usable(x) && i < |Stream(x, n)|
    ensures Stream(x, n)[i] == KeyByte(x, i)
  {
    if n > 0 {
      var m: nat := n - 1;
      StreamLength(x, m);
      if i < |Stream(x, m)| {
        StreamAt(x, m, i);
      } else {
        PlaceInBlock(x.blockSize, m, i - m * x.blockSize, i);
      }
    }
  }

  /** Block by block: the k-th is the cipher applied to the key and the k-th vector. */
  lemma StreamBlock(x: Session, n: nat, k: nat)
    requires Usable(x) && k < n
    ensures |Stream(x, n)| == n * x.blockSize && k * x.blockSize + x.blockSize <= |Stream(x, n)|
    ensures Stream(x, n)[k * x.blockSize..k * x.blockSize + x.blockSize]
         == x.suite.encrypt(x.key, x.suite.iv(x.seed, k), x.blockSize)
  {
    StreamLength(x, n);
    StreamLength(x, k + 1);
    StreamLength(x, k);
    StreamGrows(x, k + 1, n);
    var all, start := Stream(x, n), |Stream(x, k)|;
    assert all[..start + x.blockSize] == Stream(x, k) + x.suite.encrypt(x.key, x.suite.iv(x.seed, k), x.blockSize);
    assert all[start..start + x.blockSize] == all[..start + x.blockSize][start..];
  }

  // ---- One side --------------------------------------------------------------------------------

  /** The keystream bytes generated and not yet used, and the number of blocks generated so far. */
  datatype Side = Side(drawn: nat, pending: seq<octet>)

  const START: Side := Side(0, [])

  /** Generate blocks until `n` bytes are available. */
  function Fill(x: Session, s: Side, n: nat): (r: Side)
    requires Usable(x)
    ensures |r.pending| >= n && r.drawn >= s.drawn
    decreases n - |s.pending|
  {
    if |s.pending| >= n then s else Fill(x, Side(s.drawn + 1, s.pending + Block(x, s.drawn)), n)
  }

  function Reduce(s: Side, n: nat): Side {
    if n >= |s.pending| then Side(s.drawn, []) else Side(s.drawn, s.pending[n..])
  }

  /** The buffer is exactly the unused part of the keystream after `used` bytes. */
  ghost predicate OnStream(x: Session, s: Side, used: nat) {
    used + |s.pending| == |Stream(x, s.drawn)| && Stream(x, s.drawn)[used..] == s.pending
  }

  /** What is in the buffer is the cipher's bytes from the position on. */
  lemma PendingAt(x: Session, s: Side, used: nat, j: nat)
    requires Usable(x) && OnStream(x, s, used) && j < |s.pending|
    ensures s.pending[j] == KeyByte(x, used + j)
  {
    StreamAt(x, s.drawn, used + j);
  }

  lemma {:induction false} FillStays(x: Session, s: Side, n: nat, used: nat)
    requires Usable(x) && OnStream(x, s, used)
    ensures OnStream(x, Fill(x, s, n), used)
    decreases n - |s.pending|
  {
    if |s.pending| < n {
      FillStays(x, Side(s.drawn + 1, s.pending + Block(x, s.drawn)), n, used);
    }
  }

  lemma ReduceAdvances(x: Session, s: Side, n: nat, used: nat)
    requires OnStream(x, s, used) && n <= |s.pending|
    ensures OnStream(x, Reduce(s, n), used + n)
  {
  }

  // ---- The link --------------------------------------------------------------------------------

  /** A direction of the link: both ends, the ciphertext under way, and (for the record) the plaintext the
      sender was told is sent and the plaintext the receiver has handed out. */
  datatype Link = Link(sender: Side, receiver: Side, wire: seq<octet>, accepted: seq<octet>, delivered: seq<octet>)

  datatype Event =
    /** The sender tries `data`; the transport answers `r`: an error, nothing, or that many bytes. */
    | TryWrite(data: seq<octet>, r: int)
    /** The receiver asks for bytes; the transport answers `r` of those under way, or none, or an error. */
    | TryRead(r: int)

  ghost predicate Possible(l: Link, e: Event) {
    match e
    case TryWrite(data, r) => r <= |data|
    case TryRead(r) => r <= |l.wire|
  }

  /** The sender's buffer after a write attempt: filled for the whole attempt, reduced by what went out. */
  function SenderAfter(x: Session, s: Side, n: nat, r: int): Side
    requires Usable(x)
  {
    if r > 0 then Reduce(Fill(x, s, n), r) else Fill(x, s, n)
  }

  function ReceiverAfter(x: Session, s: Side, r: int): Side
    requires Usable(x)
  {
    if r > 0 then Reduce(Fill(x, s, r), r) else s
  }

  function Next(x: Session, l: Link, e: Event): Link
    requires Usable(x)
  {
    match e
    case TryWrite(data, r) =>
      var n := if r > |data| then |data| else if r > 0 then r else 0;
      Link(SenderAfter(x, l.sender, |data|, r), l.receiver,
        l.wire + Xor(data, Fill(x, l.sender, |data|).pending)[..n], l.accepted + data[..n], l.delivered)
    case TryRead(r) =>
      var n := if r > |l.wire| then |l.wire| else if r > 0 then r else 0;
      Link(l.sender, ReceiverAfter(x, l.receiver, r), l.wire[n..], l.accepted,
        l.delivered + Xor(l.wire[..n], Fill(x, l.receiver, n).pending))
  }

  /** Both ends sit on the one keystream at their own position, and the bytes under way are the accepted
      plaintext not yet delivered, masked with the keystream at its position. */
  ghost predicate InStep(x: Session, l: Link) {
    && OnStream(x, l.sender, |l.accepted|) && OnStream(x, l.receiver, |l.delivered|)
    && l.delivered <= l.accepted
    && Masked(l.wire, l.accepted[|l.delivered|..], Stream(x, l.sender.drawn)[|l.delivered|..])
  }

  ghost predicate Feasible(x: Session, l: Link, events: seq<Event>)
    requires Usable(x)
    decreases |events|
  {
    events == [] || (Possible(l, events[0]) && Feasible(x, Next(x, l, events[0]), events[1..]))
  }

  function After(x: Session, l: Link, events: seq<Event>): Link
    requires Usable(x)
    decreases |events|
  {
    if events == [] then l else After(x, Next(x, l, events[0]), events[1..])
  }

  /** Masking more plaintext with the next keystream bytes extends the masked text. */
  lemma MaskMore(wire: seq<octet>, rest: seq<octet>, k: seq<octet>, grown: seq<octet>, data: seq<octet>, pending: seq<octet>, n: nat)
    requires Masked(wire, rest, k) && |k| <= |grown| && grown[..|k|] == k && grown[|rest|..] == pending
    requires n <= |data| <= |pending|
    ensures Masked(wire + Xor(data, pending)[..n], rest + data[..n], grown)
  {
    XorPrefix(rest, k, grown);
    XorSplit(rest, data[..n], grown);
    XorTake(data, pending, n);
  }

  lemma SenderStays(x: Session, s: Side, used: nat, n: nat, r: int)
    requires Usable(x) && OnStream(x, s, used) && r <= n
    ensures OnStream(x, Fill(x, s, n), used)
    ensures OnStream(x, SenderAfter(x, s, n, r), if r > 0 then used + r else used)
    ensures SenderAfter(x, s, n, r).drawn == Fill(x, s, n).drawn
  {
    FillStays(x, s, n, used);
    if r > 0 {
      ReduceAdvances(x, Fill(x, s, n), r, used);
    }
  }

  lemma WriteMask(wire: seq<octet>, accepted: seq<octet>, d: nat, k: seq<octet>, grown: seq<octet>, data: seq<octet>,
                  pending: seq<octet>, n: nat)
    requires d <= |accepted| <= |k| <= |grown| && grown[..|k|] == k && grown[|accepted|..] == pending
    requires Masked(wire, accepted[d..], k[d..]) && n <= |data| <= |pending|
    ensures Masked(wire + Xor(data, pending)[..n], (accepted + data[..n])[d..], grown[d..])
  {
    TailGrows(k, grown, d);
    TailOfTail(grown, d, |accepted| - d);
    MaskMore(wire, accepted[d..], k[d..], grown[d..], data, pending, n);
    TailOfSum(accepted, data[..n], d);
  }

  lemma TailOfTail(s: seq<octet>, d: nat, m: nat)
    requires d + m <= |s|
    ensures s[d..][m..] == s[d + m..]
  {
  }

  lemma TailOfSum(a: seq<octet>, b: seq<octet>, d: nat)
    requires d <= |a|
    ensures (a + b)[d..] == a[d..] + b
  {
  }

  lemma WriteInStep(x: Session, l: Link, data: seq<octet>, r: int)
    requires Usable(x) && InStep(x, l) && Possible(l, TryWrite(data, r))
    ensures InStep(x, Next(x, l, TryWrite(data, r)))
  {
    var n: nat := if r > 0 then r else 0;
    var f := Fill(x, l.sender, |data|);
    SenderStays(x, l.sender, |l.accepted|, |data|, r);
    StreamGrows(x, l.sender.drawn, f.drawn);
    WriteMask(l.wire, l.accepted, |l.delivered|, Stream(x, l.sender.drawn), Stream(x, f.drawn), data, f.pending, n);
  }

  lemma TailGrows(k: seq<octet>, grown: seq<octet>, d: nat)
    requires d <= |k| <= |grown| && grown[..|k|] == k
    ensures grown[d..][..|k[d..]|] == k[d..]
  {
  }

  /** Unmasking the first bytes under way gives plaintext and leaves the rest masked. */
  lemma Unmask(wire: seq<octet>, rest: seq<octet>, k: seq<octet>, pending: seq<octet>, r: nat)
    requires Masked(wire, rest, k) && r <= |rest| && r <= |pending| && pending[..r] == k[..r]
    ensures |wire| == |rest| && Xor(wire[..r], pending) == rest[..r] && Masked(wire[r..], rest[r..], k[r..])
  {
    assert rest == rest[..r] + rest[r..];
    XorSplit(rest[..r], rest[r..], k);
    XorPrefix(rest[..r], k[..r], k);
    XorPrefix(wire[..r], k[..r], pending);
    XorBack(rest[..r], k[..r]);
  }

  lemma ReadMask(x: Session, l: Link, r: nat, f: Side)
    requires InStep(x, l) && OnStream(x, f, |l.delivered|) && r <= |l.wire| && r <= |f.pending|
    ensures |l.delivered| + r <= |l.accepted|
    ensures l.delivered + Xor(l.wire[..r], f.pending) == l.accepted[..|l.delivered| + r]
    ensures Masked(l.wire[r..], l.accepted[|l.delivered| + r..], Stream(x, l.sender.drawn)[|l.delivered| + r..])
  {
    var d, rest := |l.delivered|, l.accepted[|l.delivered|..];
    var k := Stream(x, l.sender.drawn);
    SameMask(x, l.sender.drawn, f.drawn, d, r, f.pending);
    assert f.pending[..r] == k[d..][..r];
    Unmask(l.wire, rest, k[d..], f.pending, r);
    DeliverMore(l.accepted, l.delivered, r, k);
  }

  lemma ReadNone(x: Session, l: Link, r: int)
    requires Usable(x) && InStep(x, l) && r <= 0
    ensures InStep(x, Next(x, l, TryRead(r)))
  {
    assert l.wire[0..] == l.wire && l.delivered + [] == l.delivered;
  }

  lemma ReadKeeps(x: Session, l: Link, r: nat, f: Side, got: seq<octet>)
    requires OnStream(x, l.sender, |l.accepted|) && OnStream(x, f, |l.delivered|) && r <= |f.pending| && r <= |l.wire|
    requires got <= l.accepted && |got| == |l.delivered| + r
    requires Masked(l.wire[r..], l.accepted[|got|..], Stream(x, l.sender.drawn)[|got|..])
    ensures InStep(x, Link(l.sender, Reduce(f, r), l.wire[r..], l.accepted, got))
  {
    ReduceAdvances(x, f, r, |l.delivered|);
  }

  lemma ReadSome(x: Session, l: Link, r: nat, f: Side)
    requires Usable(x) && InStep(x, l) && 0 < r <= |l.wire| && f == Fill(x, l.receiver, r)
    ensures InStep(x, Next(x, l, TryRead(r)))
  {
    FillStays(x, l.receiver, r, |l.delivered|);
    ReadMask(x, l, r, f);
    ReadKeeps(x, l, r, f, l.accepted[..|l.delivered| + r]);
  }

  lemma ReadInStep(x: Session, l: Link, r: int)
    requires Usable(x) && InStep(x, l) && Possible(l, TryRead(r))
    ensures InStep(x, Next(x, l, TryRead(r)))
  {
    if r > 0 {
      ReadSome(x, l, r, Fill(x, l.receiver, r));
    } else {
      ReadNone(x, l, r);
    }
  }

  lemma DeliverMore(accepted: seq<octet>, delivered: seq<octet>, r: nat, k: seq<octet>)
    requires delivered <= accepted && |delivered| + r <= |accepted| <= |k|
    ensures var d := |delivered|;
      && delivered + accepted[d..][..r] == accepted[..d + r]
      && accepted[d..][r..] == accepted[d + r..] && k[d..][r..] == k[d + r..]
  {
  }

  /** The two ends' buffers agree on the keystream between two positions both have generated. */
  lemma SameMask(x: Session, n: nat, m: nat, d: nat, r: nat, pending: seq<octet>)
    requires d + r <= |Stream(x, n)| && d <= |Stream(x, m)| && Stream(x, m)[d..] == pending && r <= |pending|
    ensures Stream(x, n)[d..d + r] == pending[..r]
  {
    if n <= m {
      StreamGrows(x, n, m);
      assert Stream(x, m)[..|Stream(x, n)|][d..d + r] == Stream(x, m)[d..d + r];
    } else {
      StreamGrows(x, m, n);
      assert Stream(x, n)[..|Stream(x, m)|][d..d + r] == Stream(x, n)[d..d + r];
    }
  }

  lemma StepInStep(x: Session, l: Link, e: Event)
    requires Usable(x) && InStep(x, l) && Possible(l, e)
    ensures InStep(x, Next(x, l, e))
  {
    match e
    case TryWrite(data, r) => WriteInStep(x, l, data, r);
    case TryRead(r) => ReadInStep(x, l, r);
  }

  /** Over every run of short writes, failed writes, retries and reads of any size, the two ends stay in
      step: what the receiver has is a prefix of what the sender was told is sent, and unmasking what is
      under way would complete it. */
  lemma {:induction false} RunInStep(x: Session, l: Link, events: seq<Event>)
    requires Usable(x) && InStep(x, l) && Feasible(x, l, events)
    ensures InStep(x, After(x, l, events))
    decreases |events|
  {
    if events != [] {
      StepInStep(x, l, events[0]);
      RunInStep(x, Next(x, l, events[0]), events[1..]);
    }
  }

  /** What goes over the wire: the plaintext byte masked with the cipher's byte for its position. */
  lemma WireAt(x: Session, l: Link, j: nat)
    requires Usable(x) && InStep(x, l) && j < |l.wire|
    ensures |l.delivered| + j < |l.accepted|
    ensures l.wire[j] == l.accepted[|l.delivered| + j] ^ KeyByte(x, |l.delivered| + j)
  {
    var d, k := |l.delivered|, Stream(x, l.sender.drawn);
    XorAt(l.accepted[d..], k[d..], j);
    StreamAt(x, l.sender.drawn, d + j);
  }

  /** What the transport takes of the sender's bytes, and how many it gives the receiver. */
  function SentBy(e: Event): seq<octet> {
    if e.TryWrite? && 0 < e.r <= |e.data| then e.data[..e.r] else []
  }

  function GotBy(e: Event): nat {
    if e.TryRead? && e.r > 0 then e.r else 0
  }

  function Sent(events: seq<Event>): seq<octet>
    decreases |events|
  {
    if events == [] then [] else SentBy(events[0]) + Sent(events[1..])
  }

  function Got(events: seq<Event>): nat
    decreases |events|
  {
    if events == [] then 0 else GotBy(events[0]) + Got(events[1..])
  }

  lemma StepMoves(x: Session, l: Link, e: Event)
    requires Usable(x) && InStep(x, l) && Possible(l, e)
    ensures var next := Next(x, l, e);
      next.accepted == l.accepted + SentBy(e) && |next.delivered| == |l.delivered| + GotBy(e)
  {
    assert l.accepted + [] == l.accepted;
  }

  lemma SentFirst(before: seq<octet>, events: seq<Event>, e: Event, rest: seq<Event>)
    requires events == [e] + rest
    ensures before + Sent(events) == (before + SentBy(e)) + Sent(rest) && Got(events) == GotBy(e) + Got(rest)
  {
    assert events[1..] == rest;
  }

  /** What was sent in a run is all that was taken of every attempt, in order, and all that was given is delivered. */
  lemma {:induction false} RunMoves(x: Session, l: Link, events: seq<Event>, sent: seq<octet>, got: nat)
    requires Usable(x) && InStep(x, l) && Feasible(x, l, events)
    requires sent == l.accepted + Sent(events) && got == |l.delivered| + Got(events)
    ensures var end := After(x, l, events); end.accepted == sent && |end.delivered| == got
    decreases |events|
  {
    if events == [] {
      assert sent == l.accepted;
    } else {
      var e, rest := events[0], events[1..];
      var next := Next(x, l, e);
      StepMoves(x, l, e);
      StepInStep(x, l, e);
      SentFirst(l.accepted, events, e, rest);
      RunMoves(x, next, rest, sent, got);
    }
  }

  /** What was delivered is the first `got` bytes sent, and the others are under way, each masked with the cipher's
      byte for its position. */
  ghost predicate Delivers(x: Session, end: Link, sent: seq<octet>, got: nat)
    requires Usable(x)
  {
    && InStep(x, end) && end.accepted == sent && got <= |sent|
    && end.delivered == sent[..got] && |end.wire| == |sent| - got
    && forall j | 0 <= j < |end.wire| :: end.wire[j] == sent[got + j] ^ KeyByte(x, got + j)
  }

  lemma InStepDelivers(x: Session, end: Link)
    requires Usable(x) && InStep(x, end)
    ensures Delivers(x, end, end.accepted, |end.delivered|)
  {
    var d := |end.delivered|;
    forall j | 0 <= j < |end.wire| ensures end.wire[j] == end.accepted[d + j] ^ KeyByte(x, d + j) {
      WireAt(x, end, j);
    }
  }

  const FRESH: Link := Link(START, START, [], [], [])

  /** From the end of the handshake on, over every run: what was delivered is exactly the first bytes of what was
      sent, as many as the transport gave, and every byte still under way is the next plaintext byte masked with
      the cipher's byte for its position. */
  lemma FreshLinkDelivers(x: Session, events: seq<Event>)
    requires Usable(x) && Feasible(x, FRESH, events)
    ensures Delivers(x, After(x, FRESH, events), Sent(events), Got(events))
  {
    RunDelivers(x, FRESH, events);
  }

  lemma RunDelivers(x: Session, l: Link, events: seq<Event>)
    requires Usable(x) && Feasible(x, l, events) && l == FRESH
    ensures Delivers(x, After(x, l, events), Sent(events), Got(events))
  {
    assert Stream(x, l.sender.drawn) == [];
    assert l.accepted + Sent(events) == Sent(events);
    RunInStep(x, l, events);
    RunMoves(x, l, events, Sent(events), Got(events));
    InStepDelivers(x, After(x, l, events));
  }
}
