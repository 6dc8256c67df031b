/**
 * The TCP side of src/core/network.py: the frame a sender writes (a 4-byte
 * big-endian body length, then the body), the message builders of the two
 * send operations, and the per-connection reader of `_handle_client`, which
 * reads a length prefix, gathers the body, decodes it, stamps the peer's
 * address on it and routes it.
 *
 * A connection is a byte stream. `recv(n)` returns at most `n` of the unread
 * bytes, and returns nothing only at end of stream; how many it returns is set
 * by a schedule of grants that stands for the transport's segmentation.
 */
module Network {
  import opened Wrappers
  import opened Json
  import opened Protocol
  import Utf8

  type byte = Utf8.byte

  const PrefixLength := 4
  /** The first length `to_bytes(4, 'big')` cannot represent. */
  const FrameLimit := 0x1_0000_0000

  function Min(a: int, b: int): int {
    if a <= b then a else b
  }

  // ---------------------------------------------------------------------
  // Frame layout

  /** `int.from_bytes(bs, byteorder='big')`, for any number of bytes. */
  function BigEndian(bs: seq<byte>): nat {
    if bs == [] then 0 else BigEndian(bs[..|bs| - 1]) * 256 + bs[|bs| - 1]
  }

  /** `n.to_bytes(4, byteorder='big')`, which raises OverflowError from 2^32 on. */
  function LengthPrefix(n: nat): (bs: seq<byte>)
    requires n < FrameLimit
    ensures |bs| == PrefixLength
  {
    var q1 := n / 256;
    var q2 := q1 / 256;
    var q3 := q2 / 256;
    assert q1 < 0x100_0000 && q2 < 0x1_0000;
    [q3, q2 % 256, q1 % 256, n % 256]
  }

  lemma Split256(v: int, q: int, r: int)
    requires 0 <= r < 256 && v == q * 256 + r
    ensures v / 256 == q && v % 256 == r
  {
  }

  lemma BigEndianFour(bs: seq<byte>)
    requires |bs| == PrefixLength
    ensures BigEndian(bs) == ((bs[0] as int * 256 + bs[1]) * 256 + bs[2]) * 256 + bs[3]
  {
    assert BigEndian(bs[..1]) == bs[0] by {
      assert bs[..1][..0] == [];
    }
    assert bs[..2][..1] == bs[..1] && bs[..3][..2] == bs[..2] && bs[..|bs| - 1] == bs[..3];
    assert BigEndian(bs[..2]) == bs[0] as int * 256 + bs[1];
    assert BigEndian(bs[..3]) == (bs[0] as int * 256 + bs[1]) * 256 + bs[2];
  }

  /** The receiver's decoding inverts the sender's encoding for every length that can be framed. */
  lemma PrefixRoundTrip(n: nat)
    requires n < FrameLimit
    ensures BigEndian(LengthPrefix(n)) == n
  {
    var q1 := n / 256;
    var q2 := q1 / 256;
    assert n == q1 * 256 + n % 256;
    assert q1 == q2 * 256 + q1 % 256;
    assert q2 == q2 / 256 * 256 + q2 % 256;
    BigEndianFour(LengthPrefix(n));
  }

  /** Every four bytes are the encoding of the length they decode to. */
  lemma PrefixOfValue(bs: seq<byte>)
    requires |bs| == PrefixLength
    ensures BigEndian(bs) < FrameLimit && LengthPrefix(BigEndian(bs)) == bs
  {
    BigEndianFour(bs);
    var v := BigEndian(bs);
    var hi := bs[0] as int * 256 + bs[1];
    var mid := hi * 256 + bs[2];
    Split256(v, mid, bs[3]);
    Split256(mid, hi, bs[2]);
    Split256(hi, bs[0], bs[1]);
    Split256(bs[0], 0, bs[0]);
  }

  /** Why `_send_to_peer` raised: `connect` failed, the body needs more than four length bytes, or `sendall`/`close` failed. */
  datatype SendError = ConnectFailed | LengthOverflow | WriteFailed

  /** `length_bytes + data` as `_send_to_peer` hands it to `sendall`. */
  function Frame(body: seq<byte>): (r: Result<seq<byte>, SendError>)
    ensures r.Ok? <==> |body| < FrameLimit
    ensures r.Err? ==> r.error == LengthOverflow
    ensures r.Ok? ==> |r.value| == PrefixLength + |body|
    ensures r.Ok? ==> BigEndian(r.value[..PrefixLength]) == |body| && r.value[PrefixLength..] == body
  {
    if |body| >= FrameLimit then Err(LengthOverflow)
    else
      PrefixRoundTrip(|body|);
      var f := LengthPrefix(|body|) + body;
      assert f[..PrefixLength] == LengthPrefix(|body|);
      Ok(f)
  }

  /**
   * `_send_to_peer(ip, msg)`: the bytes written to the peer, or the exception
   * it re-raises. `connected` says whether `connect` reached the peer and
   * `written` whether `sendall` and `close` returned without raising. The
   * errors come in the order the source meets them.
   */
  function SendToPeer(msg: Message, connected: bool, written: bool): (r: Result<seq<byte>, SendError>)
    ensures r == Err(ConnectFailed) <==> !connected
    ensures r == Err(LengthOverflow) <==> connected && |ToBytes(msg)| >= FrameLimit
    ensures r == Err(WriteFailed) <==> connected && |ToBytes(msg)| < FrameLimit && !written
    ensures r.Ok? ==> |r.value| >= PrefixLength && BigEndian(r.value[..PrefixLength]) == |r.value| - PrefixLength
    ensures r.Ok? ==> r.value[PrefixLength..] == ToBytes(msg)
    ensures r.Ok? && WellFormedMessage(msg) ==> FromBytes(r.value[PrefixLength..]) == Ok(msg)
  {
    if !connected then Err(ConnectFailed)
    else match Frame(ToBytes(msg))
      case Err(e) => Err(e)
      case Ok(f) =>
        if !written then Err(WriteFailed)
        else if WellFormedMessage(msg) then FromBytesToBytes(msg); Ok(f)
        else Ok(f)
  }

  /** The message `send_message` builds; it survives encoding and decoding. */
  function TextMessage(username: string, text: string): (m: Message)
    ensures m.msgType == Text && WellFormedMessage(m)
    ensures FromBytes(ToBytes(m)) == Ok(m)
  {
    assert WellFormedMessage(Message(Text, Str(username), Str(""), Obj([Member("text", Str(text))])));
    FromBytesToBytes(Message(Text, Str(username), Str(""), Obj([Member("text", Str(text))])));
    Message(Text, Str(username), Str(""), Obj([Member("text", Str(text))]))
  }

  /** The message `send_file_offer` builds, from the file's base name and size; it survives encoding and decoding. */
  function FileOfferMessage(username: string, filename: string, filesize: nat): (m: Message)
    ensures m.msgType == FileOffer && WellFormedMessage(m)
    ensures FromBytes(ToBytes(m)) == Ok(m)
  {
    var m := Message(FileOffer, Str(username), Str(""),
                     Obj([Member("filename", Str(filename)), Member("filesize", Int(filesize))]));
    assert DistinctKeys(m.payload.fields);
    assert WellFormedMessage(m);
    FromBytesToBytes(m);
    m
  }

  // ---------------------------------------------------------------------
  // The connection as a byte stream

  /** What the peer has written and this side has not yet received, and the cap on each coming `recv` (none once the schedule runs out). */
  datatype Wire = Wire(unread: seq<byte>, grants: seq<nat>)

  /** `sock.recv(n)`: the next at most `n` unread bytes; nothing only at end of stream. */
  function RecvOn(w: Wire, n: nat): (r: (seq<byte>, Wire))
    ensures |r.0| <= n && |r.0| <= |w.unread|
    ensures r.0 == w.unread[..|r.0|] && r.1.unread == w.unread[|r.0|..]
    ensures n > 0 ==> (r.0 == [] <==> w.unread == [])
    ensures forall g :: g in r.1.grants ==> g in w.grants
  {
    var cap := if w.grants == [] then n else if w.grants[0] == 0 then 1 else w.grants[0];
    var k := Min(Min(n, cap), |w.unread|);
    (w.unread[..k], Wire(w.unread[k..], if w.grants == [] then [] else w.grants[1..]))
  }

  /** The next `recv` is not cut below four bytes. */
  predicate WholeFirstRead(grants: seq<nat>) {
    grants == [] || grants[0] >= PrefixLength
  }

  /** When the next `recv` is not cut below four bytes, a `recv(4)` with four bytes waiting returns all four. */
  lemma WholePrefixRead(w: Wire)
    requires WholeFirstRead(w.grants) && |w.unread| >= PrefixLength
    ensures RecvOn(w, PrefixLength).0 == w.unread[..PrefixLength]
  {
  }

  lemma SliceSplit(s: seq<byte>, c: nat, k: nat)
    requires c <= k <= |s|
    ensures s[..c] + s[c..][..k - c] == s[..k] && s[c..][k - c..] == s[k..]
  {
  }

  /** The body loop: `recv(min(msg_len - len(data), BUFFER_SIZE))` until `data` holds `msg_len` bytes or the peer has closed. */
  function ReadBody(w: Wire, msgLen: nat, data: seq<byte>): (r: (seq<byte>, Wire))
    requires |data| <= msgLen
    ensures |r.0| <= msgLen
    ensures forall g :: g in r.1.grants ==> g in w.grants
    decreases msgLen - |data|
  {
    if |data| == msgLen then (data, w)
    else
      var got := RecvOn(w, Min(msgLen - |data|, BufferSize));
      if got.0 == [] then (data, got.1)
      else ReadBody(got.1, msgLen, data + got.0)
  }

  /**
   * However the transport splits the stream, the body loop takes exactly the
   * next `msg_len - len(data)` bytes, or all that is left.
   */
  lemma {:induction false} ReadBodyTakes(w: Wire, msgLen: nat, data: seq<byte>)
    requires |data| <= msgLen
    ensures var k := Min(msgLen - |data|, |w.unread|);
      ReadBody(w, msgLen, data).0 == data + w.unread[..k] && ReadBody(w, msgLen, data).1.unread == w.unread[k..]
    decreases msgLen - |data|
  {
    if |data| < msgLen {
      var got := RecvOn(w, Min(msgLen - |data|, BufferSize));
      var chunk := got.0;
      if chunk != [] {
        ReadBodyTakes(got.1, msgLen, data + chunk);
        TakeInTwo(w.unread, chunk, got.1.unread, data, msgLen - |data|);
      }
    }
  }

  /** Taking a first chunk of the next `need` bytes, then the rest of them, takes the next `need` bytes. */
  lemma TakeInTwo(unread: seq<byte>, chunk: seq<byte>, later: seq<byte>, data: seq<byte>, need: nat)
    requires 0 < |chunk| <= need && |chunk| <= |unread| && chunk == unread[..|chunk|] && later == unread[|chunk|..]
    ensures var k := Min(need, |unread|); var j := Min(need - |chunk|, |later|);
      data + chunk + later[..j] == data + unread[..k] && later[j..] == unread[k..]
  {
    var k := Min(need, |unread|);
    assert Min(need - |chunk|, |later|) == k - |chunk|;
    SliceSplit(unread, |chunk|, k);
    assert data + chunk + later[..k - |chunk|] == data + (chunk + later[..k - |chunk|]);
  }

  // ---------------------------------------------------------------------
  // Routing one complete body

  datatype Dispatch = ToConsumer(msg: Message) | ToFileHandler(msg: Message)

  /** What a routed message adds to `on_message`'s calls. */
  function HandedOn(d: Dispatch): seq<Message> {
    if d.ToConsumer? then [d.msg] else []
  }

  datatype HandlerError = Undecodable(cause: DecodeError) | FileDataFailed

  /** `payload.get('filename')` and `payload.get('data').encode('latin1')` both succeed. */
  predicate FileDataHandled(payload: Json) {
    && payload.Obj?
    && Lookup(payload.fields, "data").Some?
    && Lookup(payload.fields, "data").value.Str?
    && forall i :: 0 <= i < |Lookup(payload.fields, "data").value.s| ==> Lookup(payload.fields, "data").value.s[i] as int < 256
  }

  /**
   * `from_bytes`, then the peer's address in place of `sender_ip`, then
   * FILE_DATA to the file handler and every other type to `on_message`. An
   * error here is an exception that ends the connection.
   */
  function Route(body: seq<byte>, ip: string): (r: Result<Dispatch, HandlerError>)
    ensures r.Ok? ==> r.value.msg.senderIp == Str(ip)
    ensures r.Ok? ==> (r.value.ToConsumer? <==> r.value.msg.msgType != FileData)
  {
    match FromBytes(body)
    case Err(e) => Err(Undecodable(e))
    case Ok(decoded) =>
      var msg := decoded.(senderIp := Str(ip));
      if msg.msgType != FileData then Ok(ToConsumer(msg))
      else if FileDataHandled(msg.payload) then Ok(ToFileHandler(msg))
      else Err(FileDataFailed)
  }

  /**
   * A body is passed on exactly when it decodes and, for FILE_DATA, its
   * payload survives the file handler; what is passed on is the decoded
   * message with the peer's address in place of `sender_ip`.
   */
  lemma RouteDecodes(body: seq<byte>, ip: string)
    ensures Route(body, ip).Ok? <==> (FromBytes(body).Ok? &&
      (FromBytes(body).value.msgType == FileData ==> FileDataHandled(FromBytes(body).value.payload)))
    ensures Route(body, ip).Ok? ==> Route(body, ip).value.msg == FromBytes(body).value.(senderIp := Str(ip))
  {
  }

  // ---------------------------------------------------------------------
  // The connection handler

  datatype Outcome = EndOfStream | ShortBody | HandlerFailed | Stopped

  /** One pass of the handler's loop: it ends the connection, or hands on zero or one message and goes on. */
  datatype Pass = Ended(outcome: Outcome, rest: Wire) | Continued(delivered: seq<Message>, rest: Wire)

  /** Every message carries the peer's address and none is FILE_DATA. */
  predicate FromPeer(ms: seq<Message>, ip: string) {
    forall i :: 0 <= i < |ms| ==> ms[i].senderIp == Str(ip) && ms[i].msgType != FileData
  }

  /** One frame whose length is known: its body is gathered, then decoded and routed. */
  function FrameStep(msgLen: nat, w: Wire, ip: string): (s: Pass)
    ensures |s.rest.unread| <= |w.unread|
    ensures s.Continued? ==> FromPeer(s.delivered, ip)
    ensures s.Ended? ==> s.outcome == ShortBody || s.outcome == HandlerFailed
    ensures s == Ended(ShortBody, s.rest) ==> s.rest.unread == []
  {
    var got := ReadBody(w, msgLen, []);
    ReadBodyTakes(w, msgLen, []);
    if |got.0| != msgLen then Ended(ShortBody, got.1)
    else
      match Route(got.0, ip)
      case Err(_) => Ended(HandlerFailed, got.1)
      case Ok(d) => Continued(HandedOn(d), got.1)
  }

  /**
   * How a pass reads the length prefix: `AsWritten` is the handler's single
   * `recv(4)`, taken whatever it returns; `Gathered` keeps reading, like the
   * body loop, until four bytes have arrived or the peer has closed.
   */
  datatype PrefixRead = AsWritten | Gathered

  /** What a pass reads as the length prefix, and what is left. */
  function PrefixBytes(w: Wire, how: PrefixRead): (seq<byte>, Wire) {
    if how == AsWritten then RecvOn(w, PrefixLength) else ReadBody(w, PrefixLength, [])
  }

  /** One pass of the loop: the prefix, then the frame it announces. */
  function Step(w: Wire, ip: string, how: PrefixRead): (s: Pass)
    ensures |s.rest.unread| <= |w.unread|
    ensures s.Continued? ==> |s.rest.unread| < |w.unread|
    ensures s.Continued? ==> FromPeer(s.delivered, ip)
    ensures s.Ended? ==> s.outcome != Stopped
    ensures s.Ended? && (s.outcome == EndOfStream || s.outcome == ShortBody) ==> s.rest.unread == []
  {
    var got := PrefixBytes(w, how);
    ReadBodyTakes(w, PrefixLength, []);
    if got.0 == [] then Ended(EndOfStream, got.1)
    else if |got.0| < PrefixLength && how == Gathered then Ended(ShortBody, got.1)
    else FrameStep(BigEndian(got.0), got.1, ip)
  }

  /**
   * The handler's loop on a connection from `ip` while `running` is set: the
   * messages handed to `on_message` in order, why the loop ended, and what is
   * left of the connection.
   */
  function Session(w: Wire, ip: string, how: PrefixRead): (r: (seq<Message>, Outcome, Wire))
    ensures |r.2.unread| <= |w.unread|
    decreases |w.unread|
  {
    match Step(w, ip, how)
    case Ended(outcome, rest) => ([], outcome, rest)
    case Continued(delivered, rest) =>
      var r := Session(rest, ip, how);
      (delivered + r.0, r.1, r.2)
  }

  function Extend(ms: seq<Message>, r: (seq<Message>, Outcome, Wire)): (seq<Message>, Outcome, Wire) {
    (ms + r.0, r.1, r.2)
  }

  lemma ExtendNothing(r: (seq<Message>, Outcome, Wire))
    ensures Extend([], r) == r
  {
    assert [] + r.0 == r.0;
  }

  lemma ExtendTwice(a: seq<Message>, b: seq<Message>, r: (seq<Message>, Outcome, Wire))
    ensures Extend(a, Extend(b, r)) == Extend(a + b, r)
  {
    assert a + (b + r.0) == a + b + r.0;
  }

  lemma SessionUnfold(w: Wire, ip: string, how: PrefixRead)
    ensures var s := Step(w, ip, how);
      Session(w, ip, how) == if s.Ended? then ([], s.outcome, s.rest) else Extend(s.delivered, Session(s.rest, ip, how))
  {
  }

  lemma Associate(a: seq<Message>, b: seq<Message>, c: seq<Message>)
    ensures a + (b + c) == a + b + c
  {
  }

  /** The loop's bookkeeping across one pass: what is left of the session after `w`, extended by what came before. */
  lemma SessionAdvance(w0: Wire, w: Wire, ip: string, how: PrefixRead, delivered: seq<Message>)
    requires Session(w0, ip, how) == Extend(delivered, Session(w, ip, how))
    ensures var s := Step(w, ip, how);
      && (s.Ended? ==> Session(w0, ip, how) == (delivered, s.outcome, s.rest))
      && (s.Continued? ==> Session(w0, ip, how) == Extend(delivered + s.delivered, Session(s.rest, ip, how)))
  {
    var s := Step(w, ip, how);
    SessionUnfold(w, ip, how);
    if s.Continued? {
      ExtendTwice(delivered, s.delivered, Session(s.rest, ip, how));
    } else {
      assert delivered + [] == delivered;
    }
  }

  /** Every message the handler passes on carries the peer's address, and none is FILE_DATA. */
  lemma {:induction false} SessionFromPeer(w: Wire, ip: string, how: PrefixRead)
    ensures FromPeer(Session(w, ip, how).0, ip)
    decreases |w.unread|
  {
    var st := Step(w, ip, how);
    SessionUnfold(w, ip, how);
    if st.Continued? {
      SessionFromPeer(st.rest, ip, how);
      FromPeerConcat(st.delivered, Session(st.rest, ip, how).0, ip);
    }
  }

  lemma FromPeerConcat(a: seq<Message>, b: seq<Message>, ip: string)
    requires FromPeer(a, ip) && FromPeer(b, ip)
    ensures FromPeer(a + b, ip)
  {
    forall i | 0 <= i < |a + b| ensures (a + b)[i].senderIp == Str(ip) && (a + b)[i].msgType != FileData {
      if i >= |a| {
        assert (a + b)[i] == b[i - |a|];
      }
    }
  }

  /** The loop ends only at the end of the stream, on a short read or on a rejected body; the first two leave nothing unread. */
  lemma {:induction false} SessionEnds(w: Wire, ip: string, how: PrefixRead)
    ensures var r := Session(w, ip, how);
      r.1 != Stopped && (r.1 == EndOfStream || r.1 == ShortBody ==> r.2.unread == [])
    decreases |w.unread|
  {
    match Step(w, ip, how)
    case Ended(_, _) =>
    case Continued(_, rest) =>
      SessionEnds(rest, ip, how);
  }

  /** The bytes a peer writes for a series of bodies, each as one frame. */
  function Stream(bodies: seq<seq<byte>>): seq<byte>
    requires forall i :: 0 <= i < |bodies| ==> |bodies[i]| < FrameLimit
  {
    if bodies == [] then [] else LengthPrefix(|bodies[0]|) + bodies[0] + Stream(bodies[1..])
  }

  /** Each body routed in turn: what `on_message` receives, up to the first body the handler rejects. */
  function RouteAll(bodies: seq<seq<byte>>, ip: string): (seq<Message>, Outcome) {
    if bodies == [] then ([], EndOfStream)
    else
      match Route(bodies[0], ip)
      case Err(_) => ([], HandlerFailed)
      case Ok(d) =>
        var rest := RouteAll(bodies[1..], ip);
        (HandedOn(d) + rest.0, rest.1)
  }

  /**
   * Every pass of the handler as written finds its `recv(4)` not cut below
   * four bytes while bytes remain. The body reads in between may be cut to
   * any size.
   */
  predicate PrefixesWhole(w: Wire, ip: string)
    decreases |w.unread|
  {
    && (w.unread != [] ==> WholeFirstRead(w.grants))
    && var s := Step(w, ip, AsWritten);
       s.Continued? ==> PrefixesWhole(s.rest, ip)
  }

  /** A closed connection with nothing left unread ends the loop. */
  lemma StepAtEnd(w: Wire, ip: string, how: PrefixRead)
    requires w.unread == []
    ensures Step(w, ip, how).Ended? && Step(w, ip, how).outcome == EndOfStream
  {
    if how == Gathered {
      var got := RecvOn(w, PrefixLength);
      assert ReadBody(w, PrefixLength, []) == ([], got.1);
    }
  }

  /** Four whole prefix bytes decode to the length of the frame they head. */
  lemma PrefixThenBody(w: Wire, b: seq<byte>, tail: seq<byte>, ip: string, how: PrefixRead) returns (rest: Wire)
    requires |b| < FrameLimit && w.unread == LengthPrefix(|b|) + b + tail
    requires how == Gathered || WholeFirstRead(w.grants)
    ensures rest.unread == tail
    ensures Step(w, ip, how) == match Route(b, ip)
      case Err(_) => Ended(HandlerFailed, rest)
      case Ok(d) => Continued(HandedOn(d), rest)
  {
    var got;
    got, rest := FrameReads(w, b, tail, how);
    assert Step(w, ip, how) == FrameStep(|b|, got, ip);
  }

  /** The reads of one frame: the prefix comes back whole and announces the body, which is then read in full. */
  lemma FrameReads(w: Wire, b: seq<byte>, tail: seq<byte>, how: PrefixRead) returns (got: Wire, rest: Wire)
    requires |b| < FrameLimit && w.unread == LengthPrefix(|b|) + b + tail
    requires how == Gathered || WholeFirstRead(w.grants)
    ensures PrefixBytes(w, how) == (LengthPrefix(|b|), got)
    ensures BigEndian(LengthPrefix(|b|)) == |b|
    ensures ReadBody(got, |b|, []) == (b, rest) && rest.unread == tail
  {
    assert w.unread[..PrefixLength] == LengthPrefix(|b|);
    assert w.unread[PrefixLength..] == b + tail;
    PrefixRoundTrip(|b|);
    PrefixComesWhole(w, how);
    got := PrefixBytes(w, how).1;
    BodyComesWhole(got, |b|);
    assert (b + tail)[..|b|] == b && (b + tail)[|b|..] == tail;
    rest := ReadBody(got, |b|, []).1;
  }

  /** With four bytes waiting, and the first `recv` not cut short when read as written, the prefix read returns them. */
  lemma PrefixComesWhole(w: Wire, how: PrefixRead)
    requires |w.unread| >= PrefixLength
    requires how == Gathered || WholeFirstRead(w.grants)
    ensures PrefixBytes(w, how).0 == w.unread[..PrefixLength]
    ensures PrefixBytes(w, how).1.unread == w.unread[PrefixLength..]
  {
    if how == AsWritten {
      WholePrefixRead(w);
    } else {
      ReadBodyTakes(w, PrefixLength, []);
      assert [] + w.unread[..PrefixLength] == w.unread[..PrefixLength];
    }
  }

  /** With the whole body waiting, the body loop returns exactly it. */
  lemma BodyComesWhole(w: Wire, n: nat)
    requires n <= |w.unread|
    ensures ReadBody(w, n, []).0 == w.unread[..n]
    ensures ReadBody(w, n, []).1.unread == w.unread[n..]
  {
    ReadBodyTakes(w, n, []);
    assert [] + w.unread[..n] == w.unread[..n];
  }

  /**
   * Frames written back to back are read one by one, however the transport
   * splits the bodies: each body is decoded once, in stream order, and the
   * connection ends at the end of the stream or at the first rejected body.
   * The handler as written needs each pass's `recv(4)` to return four bytes;
   * with the prefix gathered, this holds under every segmentation.
   */
  lemma {:induction false} SessionOfFrames(bodies: seq<seq<byte>>, grants: seq<nat>, ip: string, how: PrefixRead)
    requires forall i :: 0 <= i < |bodies| ==> |bodies[i]| < FrameLimit
    requires how == Gathered || PrefixesWhole(Wire(Stream(bodies), grants), ip)
    ensures var r := Session(Wire(Stream(bodies), grants), ip, how); (r.0, r.1) == RouteAll(bodies, ip)
    decreases |bodies|
  {
    var w := Wire(Stream(bodies), grants);
    if bodies == [] {
      StepAtEnd(w, ip, how);
      assert Session(w, ip, how).0 == [] && Session(w, ip, how).1 == EndOfStream;
    } else {
      var b := bodies[0];
      var tail := Stream(bodies[1..]);
      assert w.unread == LengthPrefix(|b|) + b + tail;
      assert how == Gathered || WholeFirstRead(w.grants);
      var rest := PrefixThenBody(w, b, tail, ip, how);
      match Route(b, ip)
      case Err(_) =>
        assert Step(w, ip, how) == Ended(HandlerFailed, rest);
        assert Session(w, ip, how).0 == [] && Session(w, ip, how).1 == HandlerFailed;
      case Ok(d) =>
        assert rest == Wire(tail, rest.grants);
        var delivered := HandedOn(d);
        assert Step(w, ip, how) == Continued(delivered, rest);
        SessionOfFrames(bodies[1..], rest.grants, ip, how);
        var later := Session(rest, ip, how);
        assert Session(w, ip, how).0 == delivered + later.0 && Session(w, ip, how).1 == later.1;
    }
  }

  /** A frame cut short by the peer closing is neither decoded nor dispatched. */
  lemma TruncatedFrame(body: seq<byte>, cut: nat, grants: seq<nat>, ip: string)
    requires |body| < FrameLimit && cut < |body|
    requires WholeFirstRead(grants)
    ensures var r := Session(Wire(LengthPrefix(|body|) + body[..cut], grants), ip, AsWritten);
      r.0 == [] && r.1 == ShortBody
  {
    var w := Wire(LengthPrefix(|body|) + body[..cut], grants);
    WholePrefixRead(w);
    var got := RecvOn(w, PrefixLength);
    assert got.0 == LengthPrefix(|body|) && got.1.unread == body[..cut];
    PrefixRoundTrip(|body|);
    ReadBodyTakes(got.1, |body|, []);
    assert Step(w, ip, AsWritten) == Ended(ShortBody, ReadBody(got.1, |body|, []).1);
  }

  lemma EmptyBodyRejected(ip: string)
    ensures Route([], ip).Err?
  {
    assert Utf8.Decode([]) == Some([]);
    assert ParseValue([]).None?;
  }

  /**
   * The handler as written: when the transport returns only two bytes of a
   * prefix, a body shorter than 65536 bytes is taken to be empty, fails to
   * decode, and the connection is dropped with the message lost.
   */
  lemma SplitPrefixLosesMessage(body: seq<byte>, rest: seq<nat>, ip: string)
    requires |body| < 0x1_0000
    requires Route(body, ip).Ok? && Route(body, ip).value.ToConsumer?
    ensures RouteAll([body], ip).0 == [Route(body, ip).value.msg]
    ensures var r := Session(Wire(Stream([body]), [2] + rest), ip, AsWritten); r.0 == [] && r.1 == HandlerFailed
  {
    RouteOne(body, ip);
    OneFrame(body);
    SmallPrefix(|body|);
    var w := Wire(Stream([body]), [2] + rest);
    var after := TwoBytePrefix(w, ip);
    ZeroLengthFrame(after, ip);
  }

  /** A length below 65536 has two zero bytes at the head of its prefix. */
  lemma SmallPrefix(n: nat)
    requires n < 0x1_0000
    ensures LengthPrefix(n)[0] == 0 && LengthPrefix(n)[1] == 0
  {
    assert n / 256 < 256 && n / 256 / 256 == 0;
  }

  /** A `recv(4)` cut to two zero bytes is read, as written, as the length 0. */
  lemma TwoBytePrefix(w: Wire, ip: string) returns (after: Wire)
    requires |w.unread| >= 2 && w.unread[0] == 0 && w.unread[1] == 0
    requires w.grants != [] && w.grants[0] == 2
    ensures after == Wire(w.unread[2..], w.grants[1..])
    ensures Step(w, ip, AsWritten) == FrameStep(0, after, ip)
  {
    var got := RecvOn(w, PrefixLength);
    assert got.0 == [0, 0];
    assert got.0[..|got.0| - 1] == got.0[..1] && got.0[..1][..|got.0[..1]| - 1] == [];
    assert BigEndian(got.0[..1]) == 0;
    assert BigEndian(got.0) == 0;
    after := got.1;
  }

  /** A frame announced as empty is rejected: an empty body does not decode. */
  lemma ZeroLengthFrame(w: Wire, ip: string)
    ensures FrameStep(0, w, ip) == Ended(HandlerFailed, w)
  {
    EmptyBodyRejected(ip);
    assert ReadBody(w, 0, []) == ([], w);
  }

  lemma OneFrame(body: seq<byte>)
    requires |body| < FrameLimit
    ensures Stream([body]) == LengthPrefix(|body|) + body
  {
    assert [body][1..] == [];
  }

  /** A single frame needs only its own prefix read to be whole. */
  lemma OneFramePrefixWhole(body: seq<byte>, grants: seq<nat>, ip: string)
    requires |body| < FrameLimit && WholeFirstRead(grants)
    ensures PrefixesWhole(Wire(Stream([body]), grants), ip)
  {
    OneFrame(body);
    var w := Wire(Stream([body]), grants);
    assert w.unread == LengthPrefix(|body|) + body + [];
    var rest := PrefixThenBody(w, body, [], ip, AsWritten);
    StepAtEnd(rest, ip, AsWritten);
  }

  lemma RouteOne(body: seq<byte>, ip: string)
    ensures RouteAll([body], ip) == match Route(body, ip)
      case Err(_) => ([], HandlerFailed)
      case Ok(d) => (HandedOn(d), EndOfStream)
  {
    assert [body][1..] == [];
    if Route(body, ip).Ok? {
      assert HandedOn(Route(body, ip).value) + [] == HandedOn(Route(body, ip).value);
    }
  }

  /** A message sent on its own connection reaches the peer's `on_message` unchanged but for the sender's address. */
  lemma MessageArrives(m: Message, grants: seq<nat>, ip: string)
    requires WellFormedMessage(m) && m.msgType != FileData
    requires SendToPeer(m, true, true).Ok?
    requires WholeFirstRead(grants)
    ensures Session(Wire(SendToPeer(m, true, true).value, grants), ip, AsWritten).0 == [m.(senderIp := Str(ip))]
  {
    var body := ToBytes(m);
    FromBytesToBytes(m);
    RouteDecodes(body, ip);
    assert Route(body, ip) == Ok(ToConsumer(m.(senderIp := Str(ip))));
    RouteOne(body, ip);
    OneFrame(body);
    OneFramePrefixWhole(body, grants, ip);
    SessionOfFrames([body], grants, ip, AsWritten);
  }

  /** What `send_message` writes reaches the peer's `on_message` as the same message, stamped with the sender's address. */
  lemma TextMessageArrives(username: string, text: string, grants: seq<nat>, ip: string)
    requires SendToPeer(TextMessage(username, text), true, true).Ok?
    requires WholeFirstRead(grants)
    ensures var wire := SendToPeer(TextMessage(username, text), true, true).value;
      Session(Wire(wire, grants), ip, AsWritten).0 == [TextMessage(username, text).(senderIp := Str(ip))]
  {
    MessageArrives(TextMessage(username, text), grants, ip);
  }

  /** Likewise for the message `send_file_offer` writes. */
  lemma FileOfferArrives(username: string, filename: string, filesize: nat, grants: seq<nat>, ip: string)
    requires SendToPeer(FileOfferMessage(username, filename, filesize), true, true).Ok?
    requires WholeFirstRead(grants)
    ensures var wire := SendToPeer(FileOfferMessage(username, filename, filesize), true, true).value;
      Session(Wire(wire, grants), ip, AsWritten).0 == [FileOfferMessage(username, filename, filesize).(senderIp := Str(ip))]
  {
    MessageArrives(FileOfferMessage(username, filename, filesize), grants, ip);
  }

  // ---------------------------------------------------------------------
  // Objects

  /** The accepted socket of one connection. */
  class Socket {
    var unread: seq<byte>
    var grants: seq<nat>

    constructor(unread: seq<byte>, grants: seq<nat>)
      ensures this.unread == unread && this.grants == grants
    {
      this.unread := unread;
      this.grants := grants;
    }

    function State(): Wire
      reads this
    {
      Wire(unread, grants)
    }

    method Recv(n: nat) returns (chunk: seq<byte>)
      modifies this
      ensures (chunk, State()) == RecvOn(old(State()), n)
    {
      var r := RecvOn(State(), n);
      chunk := r.0;
      unread := r.1.unread;
      grants := r.1.grants;
    }
  }

  class NetworkManager {
    const username: string
    var running: bool
    /** `server_socket` is open. */
    var serverOpen: bool
    /** Accept-loop threads started. */
    var acceptLoops: nat
    /** Every message handed to `on_message`, in order. */
    var received: seq<Message>

    constructor(username: string)
      ensures this.username == username
      ensures !running && !serverOpen && acceptLoops == 0 && received == []
    {
      this.username := username;
      running := false;
      serverOpen := false;
      acceptLoops := 0;
      received := [];
    }

    /** `start`: the server socket is opened; only a successful bind keeps `running` set and starts the accept loop. */
    method Start(bindOk: bool)
      modifies this
      ensures running == bindOk && serverOpen
      ensures acceptLoops == old(acceptLoops) + (if bindOk then 1 else 0)
      ensures received == old(received)
    {
      running := true;
      serverOpen := true;
      if bindOk {
        acceptLoops := acceptLoops + 1;
      } else {
        running := false;
      }
    }

    method Stop()
      modifies this
      ensures !running && !serverOpen
      ensures acceptLoops == old(acceptLoops) && received == old(received)
    {
      running := false;
      serverOpen := false;
    }

    /** `send_message`: the frame written to the peer, or the error re-raised to the caller. */
    function SendMessage(message: string, connected: bool, written: bool): (r: Result<seq<byte>, SendError>)
      ensures r == Err(ConnectFailed) <==> !connected
      ensures r == Err(LengthOverflow) <==> connected && |ToBytes(TextMessage(username, message))| >= FrameLimit
      ensures r == Err(WriteFailed) <==> connected && |ToBytes(TextMessage(username, message))| < FrameLimit && !written
      ensures r.Ok? ==> |r.value| >= PrefixLength && BigEndian(r.value[..PrefixLength]) == |r.value| - PrefixLength
      ensures r.Ok? ==> FromBytes(r.value[PrefixLength..]) == Ok(TextMessage(username, message))
    {
      SendToPeer(TextMessage(username, message), connected, written)
    }

    /** `send_file_offer`, given the file's base name and size. */
    function SendFileOffer(filename: string, filesize: nat, connected: bool, written: bool): (r: Result<seq<byte>, SendError>)
      ensures r == Err(ConnectFailed) <==> !connected
      ensures r == Err(LengthOverflow) <==> connected && |ToBytes(FileOfferMessage(username, filename, filesize))| >= FrameLimit
      ensures r == Err(WriteFailed) <==> connected && |ToBytes(FileOfferMessage(username, filename, filesize))| < FrameLimit && !written
      ensures r.Ok? ==> |r.value| >= PrefixLength && BigEndian(r.value[..PrefixLength]) == |r.value| - PrefixLength
      ensures r.Ok? ==> FromBytes(r.value[PrefixLength..]) == Ok(FileOfferMessage(username, filename, filesize))
    {
      SendToPeer(FileOfferMessage(username, filename, filesize), connected, written)
    }

    /** The body loop of `_handle_client`: `data` grows by each chunk until it holds `msgLen` bytes or the peer closes. */
    method GatherBody(sock: Socket, msgLen: nat) returns (data: seq<byte>)
      modifies sock
      ensures (data, sock.State()) == ReadBody(old(sock.State()), msgLen, [])
    {
      ghost var w1 := sock.State();
      data := [];
      while |data| < msgLen
        invariant |data| <= msgLen
        invariant ReadBody(w1, msgLen, []) == ReadBody(sock.State(), msgLen, data)
        decreases msgLen - |data|
      {
        ghost var wb := sock.State();
        var chunk := sock.Recv(Min(msgLen - |data|, BufferSize));
        if chunk == [] {
          assert ReadBody(wb, msgLen, data) == (data, sock.State());
          break;
        }
        data := data + chunk;
      }
    }

    /** The prefix read of one pass. */
    method ReadPrefix(sock: Socket, how: PrefixRead) returns (lengthBytes: seq<byte>)
      modifies sock
      ensures (lengthBytes, sock.State()) == PrefixBytes(old(sock.State()), how)
    {
      if how == AsWritten {
        lengthBytes := sock.Recv(PrefixLength);
      } else {
        lengthBytes := GatherBody(sock, PrefixLength);
      }
    }

    /**
     * One pass of `_handle_client`'s loop: a length prefix (from one
     * `recv(4)` as written, or gathered like the body), the body it
     * announces, then decoding and routing. Gives the reason the connection
     * ends, if it does.
     */
    method ServeFrame(sock: Socket, ip: string, how: PrefixRead) returns (ended: Option<Outcome>)
      modifies this, sock
      ensures running == old(running) && serverOpen == old(serverOpen) && acceptLoops == old(acceptLoops)
      ensures var s := Step(old(sock.State()), ip, how);
        && sock.State() == s.rest
        && (s.Ended? ==> ended == Some(s.outcome) && received == old(received))
        && (s.Continued? ==> ended == None && received == old(received) + s.delivered)
    {
      ghost var w := sock.State();
      var lengthBytes := ReadPrefix(sock, how);
      if lengthBytes == [] {
        return Some(EndOfStream);
      }
      if |lengthBytes| < PrefixLength && how == Gathered {
        return Some(ShortBody);
      }
      var msgLen := BigEndian(lengthBytes);
      assert Step(w, ip, how) == FrameStep(msgLen, sock.State(), ip);
      ended := ServeBody(sock, msgLen, ip);
    }

    /** The rest of a pass once the length is known: gather the body, then decode and route it. */
    method ServeBody(sock: Socket, msgLen: nat, ip: string) returns (ended: Option<Outcome>)
      modifies this, sock
      ensures running == old(running) && serverOpen == old(serverOpen) && acceptLoops == old(acceptLoops)
      ensures var s := FrameStep(msgLen, old(sock.State()), ip);
        && sock.State() == s.rest
        && (s.Ended? ==> ended == Some(s.outcome) && received == old(received))
        && (s.Continued? ==> ended == None && received == old(received) + s.delivered)
    {
      var data := GatherBody(sock, msgLen);
      if |data| != msgLen {
        return Some(ShortBody);
      }
      var routed := Route(data, ip);
      if routed.Err? {
        return Some(HandlerFailed);
      }
      if routed.value.ToConsumer? {
        received := received + [routed.value.msg];
      }
      ended := None;
    }

    /**
     * One pass of the handler as written, accounted against the whole session
     * from `w0`: `delivered` is what earlier passes handed on, `more` what
     * this one does.
     */
    method ServeNext(sock: Socket, ip: string, ghost w0: Wire, ghost delivered: seq<Message>)
        returns (ended: Option<Outcome>, ghost more: seq<Message>)
      requires Session(w0, ip, AsWritten) == Extend(delivered, Session(sock.State(), ip, AsWritten))
      modifies this, sock
      ensures running == old(running) && serverOpen == old(serverOpen) && acceptLoops == old(acceptLoops)
      ensures ended.Some? ==> received == old(received) && Session(w0, ip, AsWritten) == (delivered, ended.value, sock.State())
      ensures ended.None? ==>
        && received == old(received) + more
        && |sock.unread| < old(|sock.unread|)
        && Session(w0, ip, AsWritten) == Extend(delivered + more, Session(sock.State(), ip, AsWritten))
    {
      ghost var w := sock.State();
      SessionAdvance(w0, w, ip, AsWritten, delivered);
      ended := ServeFrame(sock, ip, AsWritten);
      ghost var st := Step(w, ip, AsWritten);
      more := if st.Continued? then st.delivered else [];
    }

    /**
     * `_handle_client(sock, (ip, port))` as written: frames are read,
     * decoded and routed until the stream ends, a body comes up short or a
     * body is rejected.
     */
    method HandleClient(sock: Socket, ip: string) returns (outcome: Outcome)
      modifies this, sock
      ensures running == old(running) && serverOpen == old(serverOpen) && acceptLoops == old(acceptLoops)
      ensures old(running) ==>
        var r := Session(old(sock.State()), ip, AsWritten);
        received == old(received) + r.0 && outcome == r.1 && sock.State() == r.2
      ensures !old(running) ==> outcome == Stopped && received == old(received) && sock.State() == old(sock.State())
    {
      outcome := Stopped;
      ghost var w0 := sock.State();
      ghost var delivered: seq<Message> := [];
      ExtendNothing(Session(w0, ip, AsWritten));
      while running
        invariant running == old(running) && serverOpen == old(serverOpen) && acceptLoops == old(acceptLoops)
        invariant received == old(received) + delivered
        invariant !old(running) ==> delivered == [] && sock.State() == w0
        invariant old(running) ==> Session(w0, ip, AsWritten) == Extend(delivered, Session(sock.State(), ip, AsWritten))
        decreases |sock.unread|
      {
        ghost var more;
        var ended;
        ended, more := ServeNext(sock, ip, w0, delivered);
        if ended.Some? {
          outcome := ended.value;
          break;
        }
        Associate(old(received), delivered, more);
        delivered := delivered + more;
      }
    }
  }
}
