/** The datagrams of a BEP 15 announce: the request the client writes and the
    tracker takes apart, the reply the tracker writes and the client parses. */
module TrackerUdp {
  import opened Device
  import opened Text
  import opened BigEndian
  import opened Tracker

  const ACTION_ANNOUNCE: nat := 1

  function EventCode(e: Event): nat {
    match e
    case NoEvent => 0
    case Completed => 1
    case Started => 2
    case Stopped => 3
  }

  // --- The request -----------------------------------------------------------------

  /** The fields of an announce request, in wire order. */
  function RequestParts(connection: nat, transaction: nat, a: Announce): (parts: seq<seq<byte>>)
    ensures |parts| == 13
  {
    [Encoded(connection, 8), Encoded(ACTION_ANNOUNCE, 4), Encoded(transaction, 4), a.infoHash, a.peerId,
     Encoded(a.downloaded, 8), Encoded(LeftSent(a), 8), Encoded(a.uploaded, 8), Encoded(EventCode(a.event), 4),
     Encoded(0, 4), Encoded(a.key, 4), Encoded(a.numwant, 4), Encoded(a.port, 2)]
  }

  method AnnounceRequest(connection: nat, transaction: nat, a: Announce) returns (out: seq<byte>)
    ensures out == Cat(RequestParts(connection, transaction, a))
  {
    hide Encoded, Cat, EventCode, LeftSent, RequestParts;
    ghost var parts := RequestParts(connection, transaction, a);
    PartsAre(connection, transaction, a);
    NoParts(parts);
    out := [];
    out := Extend(parts, 0, out, Encoded(connection, 8));
    out := Extend(parts, 1, out, Encoded(ACTION_ANNOUNCE, 4));
    out := Extend(parts, 2, out, Encoded(transaction, 4));
    out := Extend(parts, 3, out, a.infoHash);
    out := Extend(parts, 4, out, a.peerId);
    out := Extend(parts, 5, out, Encoded(a.downloaded, 8));
    out := Extend(parts, 6, out, Encoded(LeftSent(a), 8));
    out := Extend(parts, 7, out, Encoded(a.uploaded, 8));
    out := Extend(parts, 8, out, Encoded(EventCode(a.event), 4));
    out := Extend(parts, 9, out, Encoded(0, 4));
    out := Extend(parts, 10, out, Encoded(a.key, 4));
    out := Extend(parts, 11, out, Encoded(a.numwant, 4));
    out := Extend(parts, 12, out, Encoded(a.port, 2));
    assert parts[..13] == parts;
  }

  method Extend(ghost parts: seq<seq<byte>>, ghost i: nat, out: seq<byte>, part: seq<byte>) returns (longer: seq<byte>)
    requires i < |parts| && parts[i] == part && out == Cat(parts[..i])
    ensures longer == Cat(parts[..i + 1])
  {
    CatAdd(parts[..i], part);
    assert parts[..i + 1] == parts[..i] + [part];
    longer := out + part;
  }

  lemma PartsAre(connection: nat, transaction: nat, a: Announce)
    ensures var parts := RequestParts(connection, transaction, a);
            && parts[0] == Encoded(connection, 8) && parts[1] == Encoded(ACTION_ANNOUNCE, 4)
            && parts[2] == Encoded(transaction, 4) && parts[3] == a.infoHash && parts[4] == a.peerId
            && parts[5] == Encoded(a.downloaded, 8) && parts[6] == Encoded(LeftSent(a), 8)
            && parts[7] == Encoded(a.uploaded, 8) && parts[8] == Encoded(EventCode(a.event), 4)
            && parts[9] == Encoded(0, 4) && parts[10] == Encoded(a.key, 4) && parts[11] == Encoded(a.numwant, 4)
            && parts[12] == Encoded(a.port, 2)
  {
    hide Encoded, LeftSent, EventCode;
  }

  lemma NoParts(parts: seq<seq<byte>>)
    ensures Cat(parts[..0]) == []
  {
  }

  /** What the tracker takes out of an announce request. */
  datatype Received =
    | TooShort
    | Received(connection: nat, action: nat, transaction: nat, infoHash: seq<byte>, peerId: seq<byte>,
               downloaded: nat, left: nat, uploaded: nat, event: Event, key: nat, numwant: nat, port: nat)

  function EventOf(code: nat): Event {
    if code == 1 then Completed else if code == 2 then Started else if code == 3 then Stopped else NoEvent
  }

  function ReadRequest(request: seq<byte>): Received {
    if |request| < 98 then TooShort
    else
      Received(Value(request[0..8]), Value(request[8..12]), Value(request[12..16]), request[16..36], request[36..56],
               Value(request[56..64]), Value(request[64..72]), Value(request[72..80]),
               EventOf(Value(request[80..84])), Value(request[88..92]), Value(request[92..96]),
               Value(request[96..98]))
  }

  /** Where each field of a request starts. */
  function StartOf(i: nat): nat {
    match i
    case 0 => 0 case 1 => 8 case 2 => 12 case 3 => 16 case 4 => 36 case 5 => 56 case 6 => 64
    case 7 => 72 case 8 => 80 case 9 => 84 case 10 => 88 case 11 => 92 case 12 => 96 case _ => 98
  }

  lemma {:induction false} StartsAt(connection: nat, transaction: nat, a: Announce, i: nat)
    requires Sized(a) && i <= 13
    ensures |Cat(RequestParts(connection, transaction, a)[..i])| == StartOf(i)
  {
    hide Cat, Encoded;
    var parts := RequestParts(connection, transaction, a);
    if i == 0 {
      NoParts(parts);
    } else {
      StartsAt(connection, transaction, a, i - 1);
      FieldAt(parts, i - 1);
    }
  }

  lemma FieldIs(connection: nat, transaction: nat, a: Announce, i: nat)
    requires Sized(a) && i < 13
    ensures var parts := RequestParts(connection, transaction, a);
            && |Cat(parts)| == 98 && StartOf(i) <= StartOf(i + 1) <= 98
            && Cat(parts)[StartOf(i)..StartOf(i + 1)] == parts[i]
  {
    hide Cat, Encoded, RequestParts;
    var parts := RequestParts(connection, transaction, a);
    StartsAt(connection, transaction, a, i);
    StartsAt(connection, transaction, a, i + 1);
    StartsAt(connection, transaction, a, 13);
    assert parts[..13] == parts;
    FieldAt(parts, i);
  }

  lemma NumberIs(connection: nat, transaction: nat, a: Announce, i: nat, n: nat, width: nat)
    requires Sized(a) && i < 13 && RequestParts(connection, transaction, a)[i] == Encoded(n, width) && n < Pow256(width)
    ensures var request := Cat(RequestParts(connection, transaction, a));
            |request| == 98 && StartOf(i) <= StartOf(i + 1) <= 98 && Value(request[StartOf(i)..StartOf(i + 1)]) == n
  {
    hide Cat, Encoded, Value, RequestParts, StartOf;
    FieldIs(connection, transaction, a, i);
    ValueOfEncoded(n, width);
  }

  /** A request is 98 bytes, and the tracker recovers every field of it. */
  lemma RequestReadsBack(connection: nat, transaction: nat, a: Announce)
    requires Sized(a) && connection <= U64_MAX && transaction <= U32_MAX
    ensures ReadRequest(Cat(RequestParts(connection, transaction, a)))
         == Received(connection, ACTION_ANNOUNCE, transaction, a.infoHash, a.peerId, a.downloaded, LeftSent(a),
                     a.uploaded, a.event, a.key, a.numwant, a.port)
  {
    hide Cat, Encoded, Value, Pow256;
    Widths();
    NumberIs(connection, transaction, a, 0, connection, 8);
    NumberIs(connection, transaction, a, 1, ACTION_ANNOUNCE, 4);
    NumberIs(connection, transaction, a, 2, transaction, 4);
    FieldIs(connection, transaction, a, 3);
    FieldIs(connection, transaction, a, 4);
    NumberIs(connection, transaction, a, 5, a.downloaded, 8);
    NumberIs(connection, transaction, a, 6, LeftSent(a), 8);
    NumberIs(connection, transaction, a, 7, a.uploaded, 8);
    NumberIs(connection, transaction, a, 8, EventCode(a.event), 4);
    NumberIs(connection, transaction, a, 10, a.key, 4);
    NumberIs(connection, transaction, a, 11, a.numwant, 4);
    NumberIs(connection, transaction, a, 12, a.port, 2);
  }

  /** Each field of the request at its place on the wire, with the numbers of
      BEP 15 for the action and the event. */
  lemma RequestOnWire(connection: nat, transaction: nat, a: Announce)
    requires Sized(a) && connection <= U64_MAX && transaction <= U32_MAX
    ensures var q := Cat(RequestParts(connection, transaction, a));
            && |q| == 98 && Value(q[0..8]) == connection && Value(q[8..12]) == 1 && Value(q[12..16]) == transaction
            && q[16..36] == a.infoHash && q[36..56] == a.peerId && Value(q[56..64]) == a.downloaded
            && Value(q[64..72]) == (if a.left.Known? then a.left.bytes else 9223372036854775807)
            && Value(q[72..80]) == a.uploaded
            && Value(q[80..84]) == (if a.event.Completed? then 1 else if a.event.Started? then 2
                                    else if a.event.Stopped? then 3 else 0)
            && Value(q[84..88]) == 0 && Value(q[88..92]) == a.key && Value(q[92..96]) == a.numwant
            && Value(q[96..98]) == a.port
  {
    hide Cat, Encoded, Value, Pow256;
    Widths();
    RequestReadsBack(connection, transaction, a);
    NumberIs(connection, transaction, a, 8, EventCode(a.event), 4);
    NumberIs(connection, transaction, a, 9, 0, 4);
  }

  /** Two announces share a request only when they differ in nothing but a
      left of unknown against one of the number that says unknown. */
  lemma RequestsTellApart(connection: nat, transaction: nat, a: Announce, b: Announce)
    requires Sized(a) && Sized(b) && connection <= U64_MAX && transaction <= U32_MAX
    ensures Cat(RequestParts(connection, transaction, a)) == Cat(RequestParts(connection, transaction, b))
            <==> a.(left := Known(LeftSent(a))) == b.(left := Known(LeftSent(b)))
  {
    hide Cat, Encoded, Value;
    RequestReadsBack(connection, transaction, a);
    RequestReadsBack(connection, transaction, b);
    if a.(left := Known(LeftSent(a))) == b.(left := Known(LeftSent(b))) {
      assert a.infoHash == b.infoHash && a.peerId == b.peerId && a.event == b.event && a.port == b.port;
      assert a.downloaded == b.downloaded && a.uploaded == b.uploaded && a.key == b.key && a.numwant == b.numwant;
      assert RequestParts(connection, transaction, a) == RequestParts(connection, transaction, b);
    }
  }

  // --- The reply -----------------------------------------------------------------------

  datatype Peer = V4(ip: seq<byte>, port: nat) | V6

  predicate GoodPeer(p: Peer) {
    p.V4? ==> |p.ip| == 4 && p.port <= U16_MAX
  }

  function PeerBytes(p: Peer): seq<byte> {
    if p.V4? then p.ip + Encoded(p.port, 2) else []
  }

  function PeersBytes(peers: seq<Peer>): seq<byte> {
    if peers == [] then [] else PeerBytes(peers[0]) + PeersBytes(peers[1..])
  }

  function ReplyHead(transaction: nat, interval: nat, incomplete: nat, complete: nat): (head: seq<byte>)
    ensures |head| == 20
  {
    Encoded(ACTION_ANNOUNCE, 4) + Encoded(transaction, 4) + Encoded(interval % 0x1_0000_0000, 4)
    + Encoded(incomplete % 0x1_0000_0000, 4) + Encoded(complete % 0x1_0000_0000, 4)
  }

  /** The fixture's reply: five words, then six bytes for each IPv4 peer. A
      peer of the other family is not offered. */
  method BuildReply(transaction: nat, interval: nat, incomplete: nat, complete: nat, peers: seq<Peer>)
    returns (out: seq<byte>)
    ensures out == ReplyHead(transaction, interval, incomplete, complete) + PeersBytes(peers)
  {
    hide Encoded, PeerBytes;
    out := ReplyHead(transaction, interval, incomplete, complete);
    ghost var head := out;
    for i := 0 to |peers|
      invariant head + PeersBytes(peers) == out + PeersBytes(peers[i..])
    {
      assert peers[i..][0] == peers[i] && peers[i..][1..] == peers[i + 1..];
      out := out + PeerBytes(peers[i]);
    }
  }

  datatype Answered = Short | Answered(interval: nat, leechers: nat, seeders: nat, peers: seq<Peer>)

  /** Six bytes a peer; a trailing partial entry is dropped. */
  function Chunks(bytes: seq<byte>): seq<Peer> {
    if |bytes| < 6 then [] else [V4(bytes[..4], Value(bytes[4..6]))] + Chunks(bytes[6..])
  }

  function ParseReply(reply: seq<byte>): Answered {
    if |reply| < 20 then Short
    else Answered(Value(reply[8..12]), Value(reply[12..16]), Value(reply[16..20]), Chunks(reply[20..]))
  }

  function OnlyV4(peers: seq<Peer>): seq<Peer> {
    if peers == [] then [] else (if peers[0].V4? then [peers[0]] else []) + OnlyV4(peers[1..])
  }

  lemma ChunkFirst(p: Peer, rest: seq<byte>)
    requires p.V4? && GoodPeer(p)
    ensures Chunks(PeerBytes(p) + rest) == [p] + Chunks(rest)
  {
    Widths();
    ValueOfEncoded(p.port, 2);
    var bytes := PeerBytes(p) + rest;
    assert bytes[..4] == p.ip && bytes[4..6] == Encoded(p.port, 2) && bytes[6..] == rest;
  }

  lemma {:induction false} ChunksOfPeers(peers: seq<Peer>)
    requires forall p <- peers :: GoodPeer(p)
    ensures Chunks(PeersBytes(peers)) == OnlyV4(peers)
  {
    hide Chunks;
    if peers == [] {
      NoChunks();
    } else {
      assert peers[0] in peers;
      ChunksOfPeers(peers[1..]);
      if peers[0].V4? {
        ChunkFirst(peers[0], PeersBytes(peers[1..]));
      } else {
        assert PeersBytes(peers) == PeersBytes(peers[1..]);
      }
    }
  }

  lemma NoChunks()
    ensures Chunks([]) == []
  {
  }

  lemma HeadWords(transaction: nat, interval: nat, incomplete: nat, complete: nat, rest: seq<byte>)
    ensures var reply := ReplyHead(transaction, interval, incomplete, complete) + rest;
            && reply[8..12] == Encoded(interval % 0x1_0000_0000, 4)
            && reply[12..16] == Encoded(incomplete % 0x1_0000_0000, 4)
            && reply[16..20] == Encoded(complete % 0x1_0000_0000, 4)
            && reply[20..] == rest
  {
    hide Encoded;
  }

  /** The words of a reply at their places, with the number of BEP 15 for the
      action. */
  lemma ReplyOnWire(transaction: nat, interval: nat, incomplete: nat, complete: nat)
    requires transaction <= U32_MAX && interval <= U32_MAX && incomplete <= U32_MAX && complete <= U32_MAX
    ensures var head := ReplyHead(transaction, interval, incomplete, complete);
            && Value(head[0..4]) == 1 && Value(head[4..8]) == transaction && Value(head[8..12]) == interval
            && Value(head[12..16]) == incomplete && Value(head[16..20]) == complete
  {
    hide Encoded, Value, Pow256;
    Widths();
    ValueOfEncoded(1, 4);
    ValueOfEncoded(transaction, 4);
    ValueOfEncoded(interval, 4);
    ValueOfEncoded(incomplete, 4);
    ValueOfEncoded(complete, 4);
    HeadWords(transaction, interval, incomplete, complete, []);
    var head := ReplyHead(transaction, interval, incomplete, complete);
    assert head + [] == head;
    assert head[0..4] == Encoded(ACTION_ANNOUNCE, 4) && head[4..8] == Encoded(transaction, 4);
  }

  /** The client reads from the reply the interval, both counts, each cut to 32
      bits, and exactly the IPv4 peers, in order. */
  lemma ReplyReadsBack(transaction: nat, interval: nat, incomplete: nat, complete: nat, peers: seq<Peer>)
    requires forall p <- peers :: GoodPeer(p)
    ensures ParseReply(ReplyHead(transaction, interval, incomplete, complete) + PeersBytes(peers))
         == Answered(interval % 0x1_0000_0000, incomplete % 0x1_0000_0000, complete % 0x1_0000_0000, OnlyV4(peers))
  {
    hide Encoded, Chunks, PeersBytes, ReplyHead, Value;
    Widths();
    HeadWords(transaction, interval, incomplete, complete, PeersBytes(peers));
    ValueOfEncoded(interval % 0x1_0000_0000, 4);
    ValueOfEncoded(incomplete % 0x1_0000_0000, 4);
    ValueOfEncoded(complete % 0x1_0000_0000, 4);
    ChunksOfPeers(peers);
  }

  lemma {:induction false} PeersOfChunks(bytes: seq<byte>) returns (tail: seq<byte>)
    ensures |tail| < 6 && bytes == PeersBytes(Chunks(bytes)) + tail
    ensures forall p <- Chunks(bytes) :: p.V4? && GoodPeer(p)
    decreases |bytes|
  {
    if |bytes| < 6 {
      tail := bytes;
    } else {
      tail := PeersOfChunks(bytes[6..]);
      var p := V4(bytes[..4], Value(bytes[4..6]));
      EncodedOfValue(bytes[4..6]);
      Widths();
      assert bytes == bytes[..4] + bytes[4..6] + bytes[6..];
      assert Chunks(bytes)[1..] == Chunks(bytes[6..]);
    }
  }

  /** A reply of any bytes says nothing the parse does not keep, but its first
      eight bytes and less than one entry at its end. */
  lemma ReplyRebuilds(reply: seq<byte>) returns (tail: seq<byte>)
    requires |reply| >= 20
    ensures |tail| < 6
    ensures var r := ParseReply(reply);
            && r.Answered?
            && reply == reply[..8] + Encoded(r.interval, 4) + Encoded(r.leechers, 4) + Encoded(r.seeders, 4)
                        + PeersBytes(r.peers) + tail
  {
    hide Encoded, Chunks, PeersBytes, Value;
    EncodedOfValue(reply[8..12]);
    EncodedOfValue(reply[12..16]);
    EncodedOfValue(reply[16..20]);
    tail := PeersOfChunks(reply[20..]);
    assert reply == reply[..8] + reply[8..12] + reply[12..16] + reply[16..20] + reply[20..];
  }
}
