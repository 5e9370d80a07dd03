/** The version 2 PROXY header over TCP and IPv4: reading it off the front of a stream, and building it. */
module ProxyProtocol {
  import opened Common
  import opened Text
  import opened ByteOrder

  const SIGNATURE: Bytes := [13, 10, 13, 10, 0, 13, 10, 81, 85, 73, 84, 10]
  const HEADER_BYTES := 16
  const INET_BYTES := 12
  const VER_CMD_PROXY: byte := 0x21
  const FAM_INET_STREAM: byte := 0x11
  const MAX_ADDR_BLOCK := 536

  /** An IPv4 address as its four bytes, and a port. */
  datatype Peer = Peer(address: Bytes, port: nat)

  datatype Problem = Truncated(wanted: nat, got: nat) | BadSignature | BadVersion | BadCommand | BadFamily | BadLength(length: nat)

  function Least(a: nat, b: nat): nat {
    if a < b then a else b
  }

  /** What is wrong with the first sixteen bytes, in the order they are looked at. */
  function HeaderProblem(header: Bytes): Option<Problem>
    requires |header| == HEADER_BYTES
  {
    if header[..12] != SIGNATURE then Some(BadSignature)
    else if header[12] as nat / 16 != 2 then Some(BadVersion)
    else if header[12] != VER_CMD_PROXY then Some(BadCommand)
    else if header[13] != FAM_INET_STREAM then Some(BadFamily)
    else
      var length := FromBig(header[14..16]);
      if length < INET_BYTES || length > MAX_ADDR_BLOCK then Some(BadLength(length)) else None
  }

  /** The source in an address block; the destination and what follows are not looked at. */
  function PeerOf(block: Bytes): Peer
    requires |block| >= INET_BYTES
  {
    Peer(block[0..4], FromBig(block[8..10]))
  }

  /** The outcome on a stream with `b` still to come, and how much of it is consumed. */
  function ReadOf(b: Bytes): (Result<Peer, Problem>, nat) {
    if |b| < HEADER_BYTES then (Err(Truncated(HEADER_BYTES, |b|)), |b|)
    else
      var header, rest := b[..HEADER_BYTES], b[HEADER_BYTES..];
      match HeaderProblem(header)
      case Some(p) => (Err(p), HEADER_BYTES)
      case None =>
        var length := FromBig(header[14..16]);
        if |rest| < length then (Err(Truncated(length, |rest|)), |b|)
        else (Ok(PeerOf(rest[..length])), HEADER_BYTES + length)
  }

  class Stream {
    const data: Bytes
    var pos: nat

    constructor (data: Bytes)
      ensures this.data == data && pos == 0
    {
      this.data, pos := data, 0;
    }

    ghost predicate Valid()
      reads this
    {
      pos <= |data|
    }

    ghost function Rest(): Bytes
      reads this
      requires Valid()
    {
      data[pos..]
    }

    /** A short read takes what there is. */
    method ReadExactly(count: nat) returns (r: Result<Bytes, Problem>)
      requires Valid()
      modifies this
      ensures Valid() && pos == old(pos) + Least(count, old(|Rest()|))
      ensures r == if count <= old(|Rest()|) then Ok(old(Rest())[..count]) else Err(Truncated(count, old(|Rest()|)))
    {
      var end := if pos + count <= |data| then pos + count else |data|;
      var chunk := data[pos..end];
      pos := end;
      if |chunk| != count {
        return Err(Truncated(count, |chunk|));
      }
      assert chunk == old(Rest())[..count];
      return Ok(chunk);
    }

    method ReadHeader() returns (r: Result<Peer, Problem>)
      requires Valid()
      modifies this
      ensures Valid() && old(pos) <= pos && (r, pos - old(pos)) == ReadOf(old(Rest()))
    {
      ghost var rest := Rest();
      var header := ReadExactly(HEADER_BYTES);
      if header.Err? {
        return Err(header.error);
      }
      var h := header.value;
      if h[..12] != SIGNATURE {
        return Err(BadSignature);
      }
      if h[12] as nat / 16 != 2 {
        return Err(BadVersion);
      }
      if h[12] != VER_CMD_PROXY {
        return Err(BadCommand);
      }
      if h[13] != FAM_INET_STREAM {
        return Err(BadFamily);
      }
      var length := FromBig(h[14..16]);
      if length < INET_BYTES || length > MAX_ADDR_BLOCK {
        return Err(BadLength(length));
      }
      assert Rest() == rest[HEADER_BYTES..];
      var block := ReadExactly(length);
      if block.Err? {
        return Err(block.error);
      }
      return Ok(Peer(block.value[0..4], FromBig(block.value[8..10])));
    }
  }

  /** The addresses a header carries; `extra` are further bytes nobody looks at. */
  datatype Addresses = Addresses(src: Bytes, srcPort: nat, dst: Bytes, dstPort: nat, extra: Bytes)

  predicate Sendable(a: Addresses) {
    |a.src| == 4 && |a.dst| == 4 && a.srcPort < 0x1_0000 && a.dstPort < 0x1_0000 && |a.extra| <= MAX_ADDR_BLOCK - INET_BYTES
  }

  function Block(a: Addresses): Bytes {
    a.src + a.dst + Big(a.srcPort, 2) + Big(a.dstPort, 2) + a.extra
  }

  function HeaderFor(length: nat): (b: Bytes)
    ensures |b| == HEADER_BYTES
  {
    SIGNATURE + [VER_CMD_PROXY, FAM_INET_STREAM] + Big(length, 2)
  }

  /** The whole header; with no extra bytes it is what the builder emits. */
  function Built(a: Addresses): Bytes {
    HeaderFor(|Block(a)|) + Block(a)
  }

  lemma TwoBytes()
    ensures Power256(2) == 0x1_0000
  {
    assert Power256(1) == 256;
  }

  lemma HeaderAccepted(length: nat)
    requires INET_BYTES <= length <= MAX_ADDR_BLOCK
    ensures HeaderProblem(HeaderFor(length)) == None && FromBig(HeaderFor(length)[14..16]) == length
  {
    TwoBytes();
    FromOfBig(length, 2);
    var h := HeaderFor(length);
    assert h[..12] == SIGNATURE;
    assert h[14..16] == Big(length, 2);
  }

  lemma Pieces(h: Bytes, i: nat, j: nat)
    requires i <= j <= |h|
    ensures h == h[..i] + h[i..j] + h[j..]
  {
  }

  lemma AcceptedHeader(h: Bytes)
    requires |h| == HEADER_BYTES && HeaderProblem(h) == None
    ensures h == HeaderFor(FromBig(h[14..16]))
  {
    var kind := h[12..14];
    Pieces(h, 12, 14);
    BigOfFrom(h[14..]);
    assert h[14..] == h[14..16];
    assert kind == [h[12], h[13]];
  }

  lemma SplitConcat(a: Bytes, b: Bytes)
    ensures (a + b)[..|a|] == a && (a + b)[|a|..] == b
  {
  }

  lemma BlockPeer(a: Addresses)
    requires Sendable(a)
    ensures PeerOf(Block(a)) == Peer(a.src, a.srcPort)
  {
    TwoBytes();
    FromOfBig(a.srcPort, 2);
    assert Block(a)[0..4] == a.src;
    assert Block(a)[8..10] == Big(a.srcPort, 2);
  }

  /** Whatever follows, a built header is read back as its source, and exactly it is consumed. */
  lemma ReadOfBuilt(a: Addresses, rest: Bytes)
    requires Sendable(a)
    ensures ReadOf(Built(a) + rest) == (Ok(Peer(a.src, a.srcPort)), |Built(a)|)
  {
    var block := Block(a);
    BlockPeer(a);
    HeaderAccepted(|block|);
    assert Built(a) + rest == HeaderFor(|block|) + (block + rest);
    SplitConcat(HeaderFor(|block|), block + rest);
    SplitConcat(block, rest);
  }

  /** Any block of a plausible length is some addresses. */
  lemma BlockIsAddresses(block: Bytes)
    requires INET_BYTES <= |block| <= MAX_ADDR_BLOCK
    ensures var a := Addresses(block[0..4], FromBig(block[8..10]), block[4..8], FromBig(block[10..12]), block[12..]);
      Sendable(a) && Block(a) == block
  {
    TwoBytes();
    BigOfFrom(block[8..10]);
    BigOfFrom(block[10..12]);
    assert block == block[0..4] + block[4..8] + block[8..10] + block[10..12] + block[12..];
  }

  ghost predicate StartsWithHeader(b: Bytes, peer: Peer, n: nat, a: Addresses) {
    Sendable(a) && peer == Peer(a.src, a.srcPort) && n == |Built(a)| && Built(a) <= b
  }

  lemma AcceptedStartsWithHeader(b: Bytes, peer: Peer, n: nat)
    requires ReadOf(b) == (Ok(peer), n)
    ensures exists a :: StartsWithHeader(b, peer, n, a)
  {
    var header, block := b[..HEADER_BYTES], b[HEADER_BYTES..][..n - HEADER_BYTES];
    AcceptedHeader(header);
    BlockIsAddresses(block);
    var a := Addresses(block[0..4], FromBig(block[8..10]), block[4..8], FromBig(block[10..12]), block[12..]);
    assert b == header + block + b[n..];
    assert StartsWithHeader(b, peer, n, a);
  }

  /** Exactly the streams that begin with a header are accepted, as its source, and exactly it is consumed. */
  lemma AcceptedIffHeader(b: Bytes, peer: Peer, n: nat)
    ensures ReadOf(b) == (Ok(peer), n) <==> exists a :: StartsWithHeader(b, peer, n, a)
  {
    if ReadOf(b) == (Ok(peer), n) {
      AcceptedStartsWithHeader(b, peer, n);
    }
    if a :| StartsWithHeader(b, peer, n, a) {
      assert b == Built(a) + b[n..];
      ReadOfBuilt(a, b[n..]);
    }
  }

  /** What comes after the consumed bytes makes no difference. */
  lemma RestMakesNoDifference(b: Bytes, rest: Bytes)
    requires ReadOf(b).0.Ok?
    ensures ReadOf(b).1 <= |b| && ReadOf(b[..ReadOf(b).1] + rest) == ReadOf(b)
  {
    var (r, n) := ReadOf(b);
    AcceptedStartsWithHeader(b, r.value, n);
    var a :| StartsWithHeader(b, r.value, n, a);
    assert b[..n] == Built(a);
    ReadOfBuilt(a, rest);
  }

  /** What is refused, and how, in the order of the bytes, and which bytes are the source of a header that is not. */
  lemma OutcomeIs(b: Bytes)
    ensures |b| < 16 ==> ReadOf(b) == (Err(Truncated(16, |b|)), |b|)
    ensures |b| >= 16 ==>
      && (b[..12] != [13, 10, 13, 10, 0, 13, 10, 81, 85, 73, 84, 10] ==> ReadOf(b) == (Err(BadSignature), 16))
      && (b[..12] == [13, 10, 13, 10, 0, 13, 10, 81, 85, 73, 84, 10] ==>
            && (!(0x20 <= b[12] < 0x30) ==> ReadOf(b) == (Err(BadVersion), 16))
            && (0x20 <= b[12] < 0x30 && b[12] != 0x21 ==> ReadOf(b) == (Err(BadCommand), 16))
            && (b[12] == 0x21 && b[13] != 0x11 ==> ReadOf(b) == (Err(BadFamily), 16))
            && (b[12] == 0x21 && b[13] == 0x11 ==>
                  var length := b[14] as nat * 256 + b[15] as nat;
                  && (length < 12 || length > 536 ==> ReadOf(b) == (Err(BadLength(length)), 16))
                  && (12 <= length <= 536 && |b| < 16 + length ==> ReadOf(b) == (Err(Truncated(length, |b| - 16)), |b|))
                  && (12 <= length <= 536 && |b| >= 16 + length ==>
                        ReadOf(b) == (Ok(Peer(b[16..20], b[24] as nat * 256 + b[25] as nat)), 16 + length))))
  {
    if |b| >= 16 {
      var h := b[..HEADER_BYTES];
      assert h[..12] == b[..12] && h[12] == b[12] && h[13] == b[13];
      TwoByteLength(h[14..16]);
      var length := b[14] as nat * 256 + b[15] as nat;
      if INET_BYTES <= length <= |b| - 16 {
        PeerIs(b, b[HEADER_BYTES..][..length]);
      }
    }
  }

  lemma PeerIs(b: Bytes, block: Bytes)
    requires |b| >= 16 + |block| && |block| >= INET_BYTES && block == b[HEADER_BYTES..][..|block|]
    ensures PeerOf(block) == Peer(b[16..20], b[24] as nat * 256 + b[25] as nat)
  {
    assert block[0..4] == b[16..20];
    TwoByteLength(block[8..10]);
    assert block[8] == b[24] && block[9] == b[25];
  }

  lemma TwoByteLength(b: Bytes)
    requires |b| == 2
    ensures FromBig(b) == b[0] as nat * 256 + b[1] as nat
  {
    assert b[..1] == [b[0]] && b[..1][..0] == [];
    assert FromBig(b[..1]) == b[0] as nat;
  }
}
