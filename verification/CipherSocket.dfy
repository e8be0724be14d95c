/** The keystream socket itself: the handshake header, each side's keystream buffer, and partial reads and
    writes over a transport that may take or give any number of bytes, nothing, or an error. */
module CipherSocket {
  import opened Keystream
  import opened Octets

  // ---- Handshake -------------------------------------------------------------------------------

  datatype Header = Header(magic: seq<octet>, ivSeed: seq<octet>, phase2Key: seq<octet>, reserved: seq<octet>)

  const MAGIC: seq<octet> := [73, 72, 68, 82]
  const HEADER_SIZE: nat := 112
  const IV_SIZE: nat := 16

  ghost predicate Packed(h: Header) {
    |h.magic| == 4 && |h.ivSeed| == 16 && |h.phase2Key| == 32 && |h.reserved| == 60
  }

  function Pack(h: Header): seq<octet> {
    h.magic + h.ivSeed + h.phase2Key + h.reserved
  }

  function Unpack(b: seq<octet>): Header
    requires |b| == HEADER_SIZE
  {
    Header(b[..4], b[4..20], b[20..52], b[52..])
  }

  /** The header goes through the block for its vector; a block too short for it leaves it as it is. */
  function MaskHeader(suite: Suite, phase1Key: seq<octet>, blockSize: nat, iv: seq<octet>, b: seq<octet>): (r: seq<octet>)
    requires BlockCipher(suite)
    ensures |r| == |b|
  {
    if |b| > blockSize then b else Xor(b, suite.encrypt(phase1Key, iv, blockSize))
  }

  /** What a side puts on the wire first: its vector, then its masked header. */
  function SendHandshake(suite: Suite, phase1Key: seq<octet>, blockSize: nat, iv: seq<octet>, h: Header): seq<octet>
    requires BlockCipher(suite)
  {
    iv + MaskHeader(suite, phase1Key, blockSize, iv, Pack(h))
  }

  datatype Received = Rejected | Agreed(header: Header, rest: seq<octet>)

  function ReceiveHandshake(suite: Suite, phase1Key: seq<octet>, blockSize: nat, wire: seq<octet>): Received
    requires BlockCipher(suite)
  {
    if |wire| < IV_SIZE + HEADER_SIZE then Rejected
    else
      var h := Unpack(MaskHeader(suite, phase1Key, blockSize, wire[..IV_SIZE], wire[IV_SIZE..IV_SIZE + HEADER_SIZE]));
      if h.magic == MAGIC then Agreed(h, wire[IV_SIZE + HEADER_SIZE..]) else Rejected
  }

  /** With the same first-phase key and block size the receiver has the sender's key and seed, and is left
      at the first byte after the handshake. */
  lemma HandshakeAgrees(suite: Suite, phase1Key: seq<octet>, blockSize: nat, iv: seq<octet>, h: Header, more: seq<octet>)
    requires BlockCipher(suite) && |iv| == IV_SIZE && Packed(h) && h.magic == MAGIC
    ensures ReceiveHandshake(suite, phase1Key, blockSize, SendHandshake(suite, phase1Key, blockSize, iv, h) + more) == Agreed(h, more)
  {
    var masked := MaskHeader(suite, phase1Key, blockSize, iv, Pack(h));
    var wire := iv + masked + more;
    assert |Pack(h)| == HEADER_SIZE;
    assert wire[..IV_SIZE] == iv && wire[IV_SIZE..IV_SIZE + HEADER_SIZE] == masked && wire[IV_SIZE + HEADER_SIZE..] == more;
    if HEADER_SIZE <= blockSize {
      XorBack(Pack(h), suite.encrypt(phase1Key, iv, blockSize));
    }
    UnpackPack(h);
  }

  lemma UnpackPack(h: Header)
    requires Packed(h)
    ensures |Pack(h)| == HEADER_SIZE && Unpack(Pack(h)) == h
  {
    var b := Pack(h);
    assert b[..4] == h.magic && b[4..20] == h.ivSeed && b[20..52] == h.phase2Key && b[52..] == h.reserved;
  }

  /** What the handshake looks like on the wire: the vector in clear, then the header in its fixed layout, each
      byte of it masked with the cipher's for the first-phase key and that vector, or not at all when a block is
      shorter than the header. */
  lemma HandshakeAt(suite: Suite, phase1Key: seq<octet>, blockSize: nat, iv: seq<octet>, h: Header, j: nat)
    requires BlockCipher(suite) && |iv| == IV_SIZE && Packed(h) && j < HEADER_SIZE
    ensures var wire := SendHandshake(suite, phase1Key, blockSize, iv, h);
      var plain := if j < 4 then h.magic[j] else if j < 20 then h.ivSeed[j - 4]
                   else if j < 52 then h.phase2Key[j - 20] else h.reserved[j - 52];
      && |wire| == IV_SIZE + HEADER_SIZE && wire[..IV_SIZE] == iv
      && wire[IV_SIZE + j] == if blockSize < HEADER_SIZE then plain else plain ^ suite.encrypt(phase1Key, iv, blockSize)[j]
  {
    var b := Pack(h);
    assert |b| == HEADER_SIZE;
    if HEADER_SIZE <= blockSize {
      XorAt(b, suite.encrypt(phase1Key, iv, blockSize), j);
    }
  }

  /** The receiver takes the handshake exactly when all of it is there and what it unmasks begins with the magic
      bytes; then it has taken just the handshake off the wire. */
  lemma ReceivedIff(suite: Suite, phase1Key: seq<octet>, blockSize: nat, wire: seq<octet>)
    requires BlockCipher(suite)
    ensures var got := ReceiveHandshake(suite, phase1Key, blockSize, wire);
      && (got.Agreed? <==>
            && |wire| >= IV_SIZE + HEADER_SIZE
            && forall j | 0 <= j < 4 ::
                 wire[IV_SIZE + j] == if blockSize < HEADER_SIZE then MAGIC[j]
                                      else MAGIC[j] ^ suite.encrypt(phase1Key, wire[..IV_SIZE], blockSize)[j])
      && (got.Agreed? ==> got.rest == wire[IV_SIZE + HEADER_SIZE..])
  {
    if |wire| >= IV_SIZE + HEADER_SIZE {
      var iv, b := wire[..IV_SIZE], wire[IV_SIZE..IV_SIZE + HEADER_SIZE];
      var h := MaskHeader(suite, phase1Key, blockSize, iv, b);
      forall j: nat | j < 4
        ensures b[j] == wire[IV_SIZE + j]
        ensures HEADER_SIZE <= blockSize ==> h[j] == b[j] ^ suite.encrypt(phase1Key, iv, blockSize)[j]
      {
        if HEADER_SIZE <= blockSize {
          XorAt(b, suite.encrypt(phase1Key, iv, blockSize), j);
        }
      }
      MagicAt(h[..4]);
    }
  }

  lemma MagicAt(m: seq<octet>)
    requires |m| == 4
    ensures m == MAGIC <==> forall j | 0 <= j < 4 :: m[j] == MAGIC[j]
  {
  }

  /** Handshake and traffic together: with equal first-phase key and block size, whatever the receiver has
      been handed after any run is the start of what the sender was told is sent, and the rest of it is under way,
      masked with the cipher keyed by what the handshake carried. */
  lemma HandshakeThenRun(suite: Suite, phase1Key: seq<octet>, blockSize: nat, iv: seq<octet>, h: Header, events: seq<Event>)
    requires BlockCipher(suite) && blockSize > 0 && |iv| == IV_SIZE && Packed(h) && h.magic == MAGIC
    requires Feasible(Session(suite, h.phase2Key, h.ivSeed, blockSize), FRESH, events)
    ensures var got := ReceiveHandshake(suite, phase1Key, blockSize, SendHandshake(suite, phase1Key, blockSize, iv, h));
      && got.Agreed? && got.rest == []
      && var x := Session(suite, got.header.phase2Key, got.header.ivSeed, blockSize);
        Delivers(x, After(x, FRESH, events), Sent(events), Got(events))
  {
    var sent := SendHandshake(suite, phase1Key, blockSize, iv, h);
    HandshakeAgrees(suite, phase1Key, blockSize, iv, h, []);
    assert sent + [] == sent;
    FreshLinkDelivers(Session(suite, h.phase2Key, h.ivSeed, blockSize), events);
  }

  // ---- The objects -----------------------------------------------------------------------------

  /** A byte transport: each call moves as many bytes as it likes, or fails. */
  class Transport {
    var inbound: seq<octet>
    var outbound: seq<octet>

    constructor ()
      ensures inbound == [] && outbound == []
    {
      inbound, outbound := [], [];
    }

    method PartialRead(max: nat) returns (r: int, data: seq<octet>)
      modifies this`inbound
      ensures r <= max && r <= |old(inbound)| && |data| == if r > 0 then r else 0
      ensures old(inbound) == data + inbound
    {
      r :| -1 <= r <= max && r <= |inbound|;
      var n := if r > 0 then r else 0;
      data, inbound := inbound[..n], inbound[n..];
    }

    method PartialWrite(data: seq<octet>) returns (r: int)
      modifies this`outbound
      ensures r <= |data| && outbound == old(outbound) + data[..if r > 0 then r else 0]
    {
      r :| -1 <= r <= |data|;
      outbound := outbound + data[..if r > 0 then r else 0];
    }
  }

  class SideParams {
    var aesBlock: array?<octet>
    var aesBlock_curSize: nat
    /** How many vectors the generator has yielded. */
    var drawn: nat
    var phase2Key: seq<octet>
    var ivSeed: seq<octet>
    var currentIV: seq<octet>

    ghost predicate Valid()
      reads this
    {
      if aesBlock == null then aesBlock_curSize == 0 else aesBlock.Length == aesBlock_curSize
    }

    ghost function Pending(): seq<octet>
      reads this, aesBlock
    {
      if aesBlock == null then [] else aesBlock[..]
    }

    ghost function Value(): Side
      reads this, aesBlock
    {
      Side(drawn, Pending())
    }

    constructor (key: seq<octet>, seed: seq<octet>)
      ensures Valid() && Value() == START && phase2Key == key && ivSeed == seed
    {
      aesBlock, aesBlock_curSize, drawn := null, 0, 0;
      phase2Key, ivSeed, currentIV := key, seed, [];
    }

    method CleanAESBlock(nAesBlock: array?<octet>, size: nat)
      requires if nAesBlock == null then size == 0 else nAesBlock.Length == size
      modifies this`aesBlock, this`aesBlock_curSize
      ensures aesBlock == nAesBlock && aesBlock_curSize == size && Valid()
    {
      aesBlock_curSize := size;
      aesBlock := nAesBlock;
    }

    method AppendAESBlock(block: seq<octet>)
      requires Valid()
      modifies this`aesBlock, this`aesBlock_curSize
      ensures Valid() && Pending() == old(Pending()) + block && fresh(aesBlock)
    {
      var size := aesBlock_curSize;
      var nBlock := new octet[size + |block|];
      for i := 0 to size
        invariant aesBlock == old(aesBlock) && aesBlock_curSize == size && Valid()
        invariant size > 0 ==> nBlock[..i] == aesBlock[..i]
      {
        nBlock[i] := aesBlock[i];
      }
      assert nBlock[..size] == Pending();
      for i := 0 to |block|
        invariant nBlock[..size] == old(Pending()) && nBlock[size..size + i] == block[..i]
      {
        nBlock[size + i] := block[i];
      }
      assert nBlock[..] == nBlock[..size] + nBlock[size..size + |block|] && block[..|block|] == block;
      CleanAESBlock(nBlock, size + |block|);
    }

    method Reduce(bytes: nat)
      requires Valid()
      modifies this`aesBlock, this`aesBlock_curSize
      ensures Valid() && Value() == Keystream.Reduce(old(Value()), bytes)
      ensures aesBlock == null || fresh(aesBlock)
    {
      if bytes >= aesBlock_curSize {
        CleanAESBlock(null, 0);
      } else {
        var n := aesBlock_curSize - bytes;
        var nBlock := new octet[n];
        for i := 0 to n
          invariant aesBlock == old(aesBlock) && aesBlock_curSize == old(aesBlock_curSize)
          invariant nBlock[..i] == aesBlock[bytes..bytes + i]
        {
          nBlock[i] := aesBlock[bytes + i];
        }
        assert nBlock[..n] == nBlock[..] && aesBlock[bytes..bytes + n] == Pending()[bytes..];
        CleanAESBlock(nBlock, n);
      }
    }

    /** Masks the data in place with the first bytes of the buffer, unless the buffer is too short. */
    method CryptoXOR(dataBlock: array<octet>, dontreduce: bool) returns (ok: bool)
      requires Valid() && dataBlock != aesBlock
      modifies dataBlock, this`aesBlock, this`aesBlock_curSize
      ensures Valid() && (ok <==> dataBlock.Length <= |old(Pending())|)
      ensures ok ==> dataBlock[..] == Xor(old(dataBlock[..]), old(Pending()))
      ensures Value() == if ok && !dontreduce then Keystream.Reduce(old(Value()), dataBlock.Length) else old(Value())
      ensures !ok ==> dataBlock[..] == old(dataBlock[..])
      ensures aesBlock == old(aesBlock) || aesBlock == null || fresh(aesBlock)
    {
      if dataBlock.Length > aesBlock_curSize {
        return false;
      }
      ghost var plain, mask := dataBlock[..], Pending();
      for i := 0 to dataBlock.Length
        invariant aesBlock == old(aesBlock) && aesBlock_curSize == old(aesBlock_curSize) && Pending() == mask
        invariant forall k | 0 <= k < dataBlock.Length :: dataBlock[k] == if k < i then Xor(plain, mask)[k] else plain[k]
      {
        XorAt(plain, mask, i);
        dataBlock[i] := dataBlock[i] ^ aesBlock[i];
      }
      assert dataBlock[..] == Xor(plain, mask);
      if !dontreduce {
        Reduce(dataBlock.Length);
      }
      return true;
    }
  }

  /** What masking with a filled buffer means, for a side that has used `used` bytes of its keystream. */
  lemma MaskedWithKey(x: Session, s: Side, n: nat, used: nat, a: seq<octet>, b: seq<octet>, r: int)
    requires Usable(x) && |a| == n && b == Xor(a, Fill(x, s, n).pending) && r <= n
    ensures OnStream(x, s, used) ==>
      && (forall j | 0 <= j < n :: b[j] == a[j] ^ KeyByte(x, used + j))
      && OnStream(x, SenderAfter(x, s, n, r), if r > 0 then used + r else used)
  {
    if OnStream(x, s, used) {
      SenderStays(x, s, used, n, r);
      forall j | 0 <= j < n ensures b[j] == a[j] ^ KeyByte(x, used + j) {
        XorAt(a, Fill(x, s, n).pending, j);
        PendingAt(x, Fill(x, s, n), used, j);
      }
    }
  }

  class SocketChainAES {
    const suite: Suite
    const aesRegenBlockSize: nat
    const transport: Transport
    const readParams: SideParams
    const writeParams: SideParams

    ghost predicate Valid()
      reads this, readParams, writeParams
    {
      readParams != writeParams && readParams.Valid() && writeParams.Valid() && BlockCipher(suite) && aesRegenBlockSize > 0
    }

    ghost function SessionOf(params: SideParams): Session
      reads params
    {
      Session(suite, params.phase2Key, params.ivSeed, aesRegenBlockSize)
    }

    /** Both directions as the handshake leaves them. */
    constructor (suite: Suite, blockSize: nat, transport: Transport, local: Header, remote: Header)
      requires BlockCipher(suite) && blockSize > 0
      ensures Valid() && this.transport == transport
      ensures SessionOf(writeParams) == Session(suite, local.phase2Key, local.ivSeed, blockSize) && writeParams.Value() == START
      ensures SessionOf(readParams) == Session(suite, remote.phase2Key, remote.ivSeed, blockSize) && readParams.Value() == START
    {
      this.suite, aesRegenBlockSize, this.transport := suite, blockSize, transport;
      writeParams := new SideParams(local.phase2Key, local.ivSeed);
      readParams := new SideParams(remote.phase2Key, remote.ivSeed);
    }

    method RegenIV(params: SideParams)
      modifies params`currentIV, params`drawn
      ensures params.currentIV == suite.iv(params.ivSeed, old(params.drawn)) && params.drawn == old(params.drawn) + 1
    {
      params.currentIV := suite.iv(params.ivSeed, params.drawn);
      params.drawn := params.drawn + 1;
    }

    /** Generates blocks until the buffer covers `n` bytes. */
    method Enlarge(params: SideParams, n: nat)
      requires Valid() && params.Valid()
      modifies params
      ensures params.Valid() && SessionOf(params) == old(SessionOf(params))
      ensures params.Value() == Fill(SessionOf(params), old(params.Value()), n)
      ensures params.aesBlock == old(params.aesBlock) || fresh(params.aesBlock)
    {
      while params.aesBlock_curSize < n
        invariant params.Valid() && SessionOf(params) == old(SessionOf(params))
        invariant Fill(SessionOf(params), params.Value(), n) == Fill(SessionOf(params), old(params.Value()), n)
        invariant params.aesBlock == old(params.aesBlock) || fresh(params.aesBlock)
        decreases n - params.aesBlock_curSize
      {
        RegenIV(params);
        params.AppendAESBlock(suite.encrypt(params.phase2Key, params.currentIV, aesRegenBlockSize));
      }
    }

    /** `used` is how much of the keystream this side has used before. */
    method PartialRead(datalen: nat, ghost used: nat) returns (r: int, data: seq<octet>)
      requires Valid()
      modifies transport`inbound, readParams
      ensures Valid() && SessionOf(readParams) == old(SessionOf(readParams))
      ensures r <= datalen && r <= |old(transport.inbound)| && transport.inbound == old(transport.inbound)[if r > 0 then r else 0..]
      ensures readParams.Value() == ReceiverAfter(SessionOf(readParams), old(readParams.Value()), r)
      ensures if r > 0 then data == Xor(old(transport.inbound)[..r], Fill(SessionOf(readParams), old(readParams.Value()), r).pending)
        else data == []
      ensures old(OnStream(SessionOf(readParams), readParams.Value(), used)) && r > 0 ==>
        && OnStream(SessionOf(readParams), readParams.Value(), used + r)
        && forall j | 0 <= j < r :: data[j] == old(transport.inbound)[j] ^ KeyByte(SessionOf(readParams), used + j)
    {
      ghost var x, before := SessionOf(readParams), readParams.Value();
      var cipherText;
      r, cipherText := transport.PartialRead(datalen);
      if r <= 0 {
        return r, [];
      }
      Enlarge(readParams, r);
      var buf := new octet[|cipherText|](i requires 0 <= i < |cipherText| => cipherText[i]);
      assert buf[..] == cipherText == old(transport.inbound)[..r];
      var ok := readParams.CryptoXOR(buf, false);
      data := buf[..];
      MaskedWithKey(x, before, r, used, cipherText, data, r);
    }

    /** A copy of the data masked with the buffer, which is made to cover it and not reduced yet. */
    method MaskForWrite(data: seq<octet>) returns (masked: seq<octet>)
      requires Valid()
      modifies writeParams
      ensures Valid() && SessionOf(writeParams) == old(SessionOf(writeParams))
      ensures writeParams.Value() == Fill(SessionOf(writeParams), old(writeParams.Value()), |data|)
      ensures masked == Xor(data, writeParams.Value().pending)
    {
      var edata := new octet[|data|](i requires 0 <= i < |data| => data[i]);
      assert edata[..] == data;
      Enlarge(writeParams, |data|);
      var ok := writeParams.CryptoXOR(edata, true);
      masked := edata[..];
    }

    /** Each byte the transport takes is the plaintext byte masked with the cipher's byte for its position. */
    method PartialWrite(data: seq<octet>, ghost used: nat) returns (r: int)
      requires Valid()
      modifies transport`outbound, writeParams
      ensures Valid() && SessionOf(writeParams) == old(SessionOf(writeParams)) && r <= |data|
      ensures writeParams.Value() == SenderAfter(SessionOf(writeParams), old(writeParams.Value()), |data|, r)
      ensures transport.outbound == old(transport.outbound)
        + Xor(data, Fill(SessionOf(writeParams), old(writeParams.Value()), |data|).pending)[..if r > 0 then r else 0]
      ensures old(OnStream(SessionOf(writeParams), writeParams.Value(), used)) ==>
        && OnStream(SessionOf(writeParams), writeParams.Value(), used + if r > 0 then r else 0)
        && forall j | 0 <= j < r ::
             transport.outbound[|old(transport.outbound)| + j] == data[j] ^ KeyByte(SessionOf(writeParams), used + j)
    {
      ghost var x, before := SessionOf(writeParams), writeParams.Value();
      var masked := MaskForWrite(data);
      r := transport.PartialWrite(masked);
      MaskedWithKey(x, before, |data|, used, data, masked, r);
      if r > 0 {
        writeParams.Reduce(r);
      }
    }
  }

  // ---- The objects on a link -------------------------------------------------------------------

  /** One write on the object is the link's write, whatever the transport answers. */
  method Send(s: SocketChainAES, data: seq<octet>, ghost x: Session, ghost l: Link) returns (r: int, ghost next: Link)
    requires s.Valid() && x == s.SessionOf(s.writeParams) && s.writeParams.Value() == l.sender && InStep(x, l)
    modifies s.transport`outbound, s.writeParams
    ensures s.Valid() && x == s.SessionOf(s.writeParams) && s.writeParams.Value() == next.sender
    ensures Possible(l, TryWrite(data, r)) && next == Next(x, l, TryWrite(data, r)) && InStep(x, next)
    ensures l.wire <= next.wire && s.transport.outbound == old(s.transport.outbound) + next.wire[|l.wire|..]
  {
    r := s.PartialWrite(data, |l.accepted|);
    next := Next(x, l, TryWrite(data, r));
    StepInStep(x, l, TryWrite(data, r));
  }

  /** One read on the object is the link's read, and hands out what the link delivers. */
  method Receive(s: SocketChainAES, datalen: nat, ghost x: Session, ghost l: Link) returns (r: int, data: seq<octet>, ghost next: Link)
    requires s.Valid() && x == s.SessionOf(s.readParams) && s.readParams.Value() == l.receiver && InStep(x, l)
    requires s.transport.inbound <= l.wire
    modifies s.transport`inbound, s.readParams
    ensures s.Valid() && x == s.SessionOf(s.readParams) && s.readParams.Value() == next.receiver
    ensures Possible(l, TryRead(r)) && next == Next(x, l, TryRead(r)) && InStep(x, next)
    ensures next.delivered == l.delivered + data && s.transport.inbound <= next.wire
  {
    ghost var arrived := s.transport.inbound;
    r, data := s.PartialRead(datalen, |l.delivered|);
    next := Next(x, l, TryRead(r));
    StepInStep(x, l, TryRead(r));
    if r > 0 {
      assert arrived[..r] == l.wire[..r];
    } else {
      assert l.delivered + [] == l.delivered;
    }
  }
}
