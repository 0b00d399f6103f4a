/**
 The byte stream between server and client: a two-byte big-endian length, the
 body, and then one marker byte with a group of file descriptors attached for
 every part of the reply that announces some.
 */
module WireFraming {
  import opened Base
  import RpcChannel

  type Byte = x: int | 0 <= x < 256

  const MARKER: Byte := 33  // the '!' that carries a group of file descriptors

  /** What is in flight: bytes, and the descriptor groups attached to the markers. */
  datatype Connection = Connection(bytes: seq<Byte>, groups: seq<seq<int>>)

  /** The parts of a reply that can hold descriptors; None where the part is absent. */
  datatype Fds = Fds(surface: Option<seq<int>>, buffer: Option<seq<int>>, platform: Option<seq<int>>)
  datatype Message = Message(body: seq<Byte>, fds: Fds)

  /** The descriptor counts announced in a body, part by part. */
  datatype Shape = Shape(surface: Option<nat>, buffer: Option<nat>, platform: Option<nat>)

  /** What parsing a body yields: the number of the call it answers, and its shape. */
  datatype Envelope = Envelope(id: nat, shape: Shape)
  type Parser = seq<Byte> -> Envelope

  /** A reply to a pending call arrives with its descriptors; any other is logged. */
  datatype Delivery = Delivered(message: Message) | Orphaned(body: seq<Byte>)

  // ----- Sending ------------------------------------------------------------------

  function Header(size: nat): seq<Byte> {
    [(size / 256) % 256, size % 256]
  }

  function Encode(body: seq<Byte>): seq<Byte> {
    Header(|body|) + body
  }

  /** send_message: resize the buffer, copy the header, copy the body. */
  method SendMessage(body: seq<Byte>) returns (buffer: array<Byte>)
    ensures buffer[..] == Encode(body)
    ensures buffer.Length == 2 + |body| && buffer[2..] == body
    ensures |body| < 65536 ==> buffer[0] == |body| / 256 && buffer[1] == |body| % 256
  {
    var size := |body|;
    buffer := new Byte[2 + size];
    buffer[0], buffer[1] := (size / 256) % 256, size % 256;
    var i := 0;
    while i < size
      invariant 0 <= i <= size
      invariant buffer[0] == (size / 256) % 256 && buffer[1] == size % 256
      invariant forall k :: 0 <= k < i ==> buffer[2 + k] == body[k]
    {
      buffer[2 + i] := body[i];
      i := i + 1;
    }
    assert buffer[..] == Encode(body);
  }

  /** A group goes out only if it is not empty. */
  function Group(fd: Option<seq<int>>): Connection {
    if fd.Some? && fd.value != [] then Connection([MARKER], [fd.value]) else Connection([], [])
  }

  function Then(a: Connection, b: Connection): Connection {
    Connection(a.bytes + b.bytes, a.groups + b.groups)
  }

  function FdGroups(fds: Fds): Connection {
    Then(Group(fds.surface), Then(Group(fds.buffer), Group(fds.platform)))
  }

  function Sent(m: Message): Connection {
    Then(Connection(Encode(m.body), []), FdGroups(m.fds))
  }

  function SentAll(ms: seq<Message>): Connection {
    if ms == [] then Connection([], []) else Then(Sent(ms[0]), SentAll(ms[1..]))
  }

  // ----- Receiving ------------------------------------------------------------------

  function BodySize(h0: Byte, h1: Byte): nat {
    h0 * 256 + h1
  }

  /** Header, then exactly that many bytes; None while they are not all there. */
  function ReadBody(bytes: seq<Byte>): (r: Option<(seq<Byte>, seq<Byte>)>)
    ensures r.Some? ==> |r.value.1| < |bytes|
  {
    if |bytes| < 2 then None
    else
      var size := BodySize(bytes[0], bytes[1]);
      if |bytes| < 2 + size then None else Some((bytes[2..2 + size], bytes[2 + size..]))
  }

  /** One part of receive_file_descriptors: an absent part is skipped, a present
      part is cleared, and a positive count waits for one group. */
  function ReadGroup(c: Connection, announced: Option<nat>): (r: Option<(Option<seq<int>>, Connection)>)
    ensures r.Some? ==> |r.value.1.bytes| <= |c.bytes|
  {
    match announced
    case None => Some((None, c))
    case Some(n) =>
      if n == 0 then Some((Some([]), c))
      else if c.bytes == [] || c.groups == [] then None
      else Some((Some(c.groups[0]), Connection(c.bytes[1..], c.groups[1..])))
  }

  /** Surface, then buffer, then platform. */
  function ReadFds(c: Connection, shape: Shape): (r: Option<(Fds, Connection)>)
    ensures r.Some? ==> |r.value.1.bytes| <= |c.bytes|
  {
    var surface := ReadGroup(c, shape.surface);
    if surface.None? then None else
    var buffer := ReadGroup(surface.value.1, shape.buffer);
    if buffer.None? then None else
    var platform := ReadGroup(buffer.value.1, shape.platform);
    if platform.None? then None else
    Some((Fds(surface.value.0, buffer.value.0, platform.value.0), platform.value.1))
  }

  datatype Reading = Reading(delivery: Delivery, left: Connection, pending: set<nat>)

  /** read_message: descriptors are read by the completion of a pending call only, so
      an orphaned reply leaves whatever follows its body in the stream. */
  function Receive(c: Connection, parse: Parser, pending: set<nat>): (r: Option<Reading>)
    ensures r.Some? ==> |r.value.left.bytes| < |c.bytes|
  {
    var read := ReadBody(c.bytes);
    if read.None? then None else
    var (body, rest) := read.value;
    var e := parse(body);
    if e.id !in pending then Some(Reading(Orphaned(body), Connection(rest, c.groups), pending)) else
    var fds := ReadFds(Connection(rest, c.groups), e.shape);
    if fds.None? then None else Some(Reading(Delivered(Message(body, fds.value.0)), fds.value.1, pending - {e.id}))
  }

  function ReceiveAll(c: Connection, parse: Parser, pending: set<nat>): (seq<Delivery>, Connection, set<nat>)
    decreases |c.bytes|
  {
    var r := Receive(c, parse, pending);
    if r.None? then ([], c, pending)
    else
      var (rest, left, open) := ReceiveAll(r.value.left, parse, r.value.pending);
      ([r.value.delivery] + rest, left, open)
  }

  /** The re-arming read loop of on_header_read. */
  method ReadLoop(c: Connection, parse: Parser, pending: set<nat>)
    returns (deliveries: seq<Delivery>, left: Connection, open: set<nat>)
    ensures (deliveries, left, open) == ReceiveAll(c, parse, pending)
  {
    hide Receive;
    deliveries, left, open := [], c, pending;
    assert deliveries + ReceiveAll(left, parse, open).0 == ReceiveAll(left, parse, open).0;
    var r := Receive(left, parse, open);
    while r.Some?
      invariant r == Receive(left, parse, open)
      invariant ReceiveAll(c, parse, pending).0 == deliveries + ReceiveAll(left, parse, open).0
      invariant ReceiveAll(c, parse, pending).1 == ReceiveAll(left, parse, open).1
      invariant ReceiveAll(c, parse, pending).2 == ReceiveAll(left, parse, open).2
      decreases |left.bytes|
    {
      ghost var later := ReceiveAll(r.value.left, parse, r.value.pending).0;
      assert deliveries + ([r.value.delivery] + later) == (deliveries + [r.value.delivery]) + later;
      deliveries := deliveries + [r.value.delivery];
      left, open := r.value.left, r.value.pending;
      r := Receive(left, parse, open);
    }
    assert deliveries + [] == deliveries;
  }

  // ----- Round trips -------------------------------------------------------------------

  /** A body comes back, with the stream aligned behind it, exactly when its size
      fits the two header bytes. */
  lemma BodyRoundTrip(body: seq<Byte>, rest: seq<Byte>)
    ensures ReadBody(Encode(body) + rest) == Some((body, rest)) <==> |body| < 65536
  {
    var bytes := Encode(body) + rest;
    var size := BodySize(bytes[0], bytes[1]);
    assert size == |body| % 65536 by {
      HeaderSize(|body|);
    }
    if |body| < 65536 {
      assert bytes[2..2 + size] == body;
      assert bytes[2 + size..] == rest;
    } else {
      assert size < |body|;
    }
  }

  lemma HeaderSize(size: nat)
    ensures BodySize(Header(size)[0], Header(size)[1]) == size % 65536
  {
    var q, r := size / 256, size % 256;
    assert size == q * 256 + r;
    assert q == (q / 256) * 256 + q % 256;
    assert size == (q / 256) * 65536 + (q % 256) * 256 + r;
    assert 0 <= (q % 256) * 256 + r < 65536;
  }

  /** The body announces the descriptors that follow it. */
  predicate Announces(shape: Shape, fds: Fds) {
    && AnnouncesPart(shape.surface, fds.surface)
    && AnnouncesPart(shape.buffer, fds.buffer)
    && AnnouncesPart(shape.platform, fds.platform)
  }

  predicate AnnouncesPart(n: Option<nat>, fd: Option<seq<int>>) {
    if fd.Some? then n == Some(|fd.value|) else n == None
  }

  predicate WellFormed(m: Message, parse: Parser) {
    |m.body| < 65536 && Announces(parse(m.body).shape, m.fds)
  }

  predicate NoFds(fds: Fds) {
    && (fds.surface.Some? ==> fds.surface.value == [])
    && (fds.buffer.Some? ==> fds.buffer.value == [])
    && (fds.platform.Some? ==> fds.platform.value == [])
  }

  /** The reply's call is pending, or no descriptors follow it. */
  predicate InTurn(m: Message, parse: Parser, pending: set<nat>) {
    parse(m.body).id in pending || NoFds(m.fds)
  }

  function Expected(m: Message, parse: Parser, pending: set<nat>): Delivery {
    if parse(m.body).id in pending then Delivered(m) else Orphaned(m.body)
  }

  lemma GroupRoundTrip(fd: Option<seq<int>>, n: Option<nat>, rest: Connection)
    requires AnnouncesPart(n, fd)
    ensures ReadGroup(Then(Group(fd), rest), n) == Some((fd, rest))
  {
    var c := Then(Group(fd), rest);
    if fd.Some? && fd.value != [] {
      assert c.bytes[1..] == rest.bytes;
      assert c.groups[1..] == rest.groups;
    } else {
      assert c == rest;
    }
  }

  lemma ThenAssociates(a: Connection, b: Connection, c: Connection)
    ensures Then(Then(a, b), c) == Then(a, Then(b, c))
  {
    assert Then(Then(a, b), c).bytes == Then(a, Then(b, c)).bytes;
    assert Then(Then(a, b), c).groups == Then(a, Then(b, c)).groups;
  }

  /** Groups go out in the order surface, buffer, platform, one marker byte for each. */
  lemma GroupOrder(fds: Fds)
    ensures var g := FdGroups(fds).groups;
            var s, b, p := Group(fds.surface).groups, Group(fds.buffer).groups, Group(fds.platform).groups;
            && (s != [] ==> |g| > 0 && g[0] == fds.surface.value)
            && (b != [] ==> |g| > |s| && g[|s|] == fds.buffer.value)
            && (p != [] ==> |g| > |s| + |b| && g[|s| + |b|] == fds.platform.value)
            && |g| == |s| + |b| + |p|
    ensures FdGroups(fds).bytes == seq(|FdGroups(fds).groups|, i => '!' as int)
  {
  }

  lemma FdsRoundTrip(fds: Fds, shape: Shape, rest: Connection)
    requires Announces(shape, fds)
    ensures ReadFds(Then(FdGroups(fds), rest), shape) == Some((fds, rest))
  {
    var s, b, p := Group(fds.surface), Group(fds.buffer), Group(fds.platform);
    ThenAssociates(s, Then(b, p), rest);
    ThenAssociates(b, p, rest);
    GroupRoundTrip(fds.surface, shape.surface, Then(b, Then(p, rest)));
    GroupRoundTrip(fds.buffer, shape.buffer, Then(p, rest));
    GroupRoundTrip(fds.platform, shape.platform, rest);
  }

  lemma FirstMessage(m: Message, rest: Connection)
    requires |m.body| < 65536
    ensures var c, after := Then(Sent(m), rest), Then(FdGroups(m.fds), rest);
            ReadBody(c.bytes) == Some((m.body, after.bytes)) && c.groups == after.groups
  {
    var c, after := Then(Sent(m), rest), Then(FdGroups(m.fds), rest);
    ThenAssociates(Connection(Encode(m.body), []), FdGroups(m.fds), rest);
    BodyRoundTrip(m.body, after.bytes);
    assert c.bytes == Encode(m.body) + after.bytes;
    assert c.groups == after.groups;
  }

  /** Groups take no room in the stream exactly when there are none. */
  lemma NoGroups(fds: Fds, rest: Connection)
    ensures Then(FdGroups(fds), rest) == rest <==> NoFds(fds)
  {
    var g := FdGroups(fds);
    assert |g.bytes| == 0 <==> NoFds(fds);
    if NoFds(fds) {
      assert g.bytes + rest.bytes == rest.bytes;
      assert g.groups + rest.groups == rest.groups;
    } else {
      assert |g.bytes + rest.bytes| > |rest.bytes|;
    }
  }

  /** One reply is read, and the stream is aligned behind it if and only if its call
      is pending or no descriptors follow; a pending call gets exactly what was sent. */
  lemma MessageRoundTrip(m: Message, parse: Parser, pending: set<nat>, rest: Connection)
    requires WellFormed(m, parse)
    ensures var r := Receive(Then(Sent(m), rest), parse, pending);
            && r.Some? && r.value.delivery == Expected(m, parse, pending)
            && r.value.pending == pending - {parse(m.body).id}
            && (r.value.left == rest <==> InTurn(m, parse, pending))
  {
    FirstMessage(m, rest);
    var after := Then(FdGroups(m.fds), rest);
    assert Connection(after.bytes, after.groups) == after;
    if parse(m.body).id in pending {
      FdsRoundTrip(m.fds, parse(m.body).shape, rest);
    } else {
      assert pending - {parse(m.body).id} == pending;
      NoGroups(m.fds, rest);
    }
  }

  // ----- Streams of replies ---------------------------------------------------------------

  function Ids(ms: seq<Message>, parse: Parser): set<nat> {
    set m | m in ms :: parse(m.body).id
  }

  predicate AllInTurn(ms: seq<Message>, parse: Parser, pending: set<nat>) {
    ms == [] || (InTurn(ms[0], parse, pending) && AllInTurn(ms[1..], parse, pending - {parse(ms[0].body).id}))
  }

  function AllExpected(ms: seq<Message>, parse: Parser, pending: set<nat>): seq<Delivery> {
    if ms == [] then []
    else [Expected(ms[0], parse, pending)] + AllExpected(ms[1..], parse, pending - {parse(ms[0].body).id})
  }

  /** Every read starts at the beginning of a reply. */
  predicate StaysAligned(ms: seq<Message>, parse: Parser, pending: set<nat>) {
    ms == [] ||
    var r := Receive(SentAll(ms), parse, pending);
    r.Some? && r.value.left == SentAll(ms[1..]) && StaysAligned(ms[1..], parse, r.value.pending)
  }

  /** The reader stays aligned if and only if every reply comes in turn. */
  lemma {:induction false} AlignedExactly(ms: seq<Message>, parse: Parser, pending: set<nat>)
    requires forall m :: m in ms ==> WellFormed(m, parse)
    ensures StaysAligned(ms, parse, pending) <==> AllInTurn(ms, parse, pending)
  {
    if ms != [] {
      hide Receive;
      MessageRoundTrip(ms[0], parse, pending, SentAll(ms[1..]));
      AlignedExactly(ms[1..], parse, pending - {parse(ms[0].body).id});
    }
  }

  /** Any list of replies in turn, sent back to back, is read back exactly, bodies and
      descriptor groups, and the reader ends aligned at the end of the stream. */
  lemma {:induction false} StreamRoundTrip(ms: seq<Message>, parse: Parser, pending: set<nat>)
    requires forall m :: m in ms ==> WellFormed(m, parse)
    requires AllInTurn(ms, parse, pending)
    ensures ReceiveAll(SentAll(ms), parse, pending) ==
            (AllExpected(ms, parse, pending), Connection([], []), pending - Ids(ms, parse))
  {
    if ms == [] {
      assert pending - Ids(ms, parse) == pending;
    } else {
      hide Receive;
      var id := parse(ms[0].body).id;
      MessageRoundTrip(ms[0], parse, pending, SentAll(ms[1..]));
      StreamRoundTrip(ms[1..], parse, pending - {id});
      IdsOf(ms, parse);
      assert pending - {id} - Ids(ms[1..], parse) == pending - Ids(ms, parse);
    }
  }

  lemma IdsOf(ms: seq<Message>, parse: Parser)
    requires ms != []
    ensures Ids(ms, parse) == {parse(ms[0].body).id} + Ids(ms[1..], parse)
  {
    assert ms == [ms[0]] + ms[1..];
  }

  function AllDelivered(ms: seq<Message>): seq<Delivery> {
    seq(|ms|, i requires 0 <= i < |ms| => Delivered(ms[i]))
  }

  lemma {:induction false} PendingAreInTurn(ms: seq<Message>, parse: Parser, pending: set<nat>)
    requires forall m :: m in ms ==> parse(m.body).id in pending
    requires forall i, j :: 0 <= i < j < |ms| ==> parse(ms[i].body).id != parse(ms[j].body).id
    ensures AllInTurn(ms, parse, pending) && AllExpected(ms, parse, pending) == AllDelivered(ms)
  {
    if ms != [] {
      var id := parse(ms[0].body).id;
      forall m | m in ms[1..] ensures parse(m.body).id in pending - {id} {
        var i :| 0 <= i < |ms| - 1 && ms[1..][i] == m;
        assert ms[i + 1] == m && m in ms;
      }
      PendingAreInTurn(ms[1..], parse, pending - {id});
      assert ms[0] in ms;
    }
  }

  /** A server that answers each call once, in any interleaving with the callers: all
      replies on the wire are delivered, descriptors and all, to calls that are pending. */
  lemma HonestStream(steps: seq<RpcChannel.Step>, n: nat, ms: seq<Message>, parse: Parser)
    requires n <= |steps| && RpcChannel.Honest(steps, n)
    requires forall m :: m in ms ==> WellFormed(m, parse)
    requires |ms| == |RpcChannel.Run(steps, n).wire|
    requires forall i :: 0 <= i < |ms| ==> parse(ms[i].body).id == RpcChannel.Run(steps, n).wire[i].id
    ensures var pending := RpcChannel.Run(steps, n).pending.Keys;
            ReceiveAll(SentAll(ms), parse, pending) ==
            (AllDelivered(ms), Connection([], []), pending - Ids(ms, parse))
  {
    hide RpcChannel.Run;
    RpcChannel.HonestServerNeverOrphans(steps, n);
    var s := RpcChannel.Run(steps, n);
    forall m | m in ms ensures parse(m.body).id in s.pending.Keys {
      var i :| 0 <= i < |ms| && ms[i] == m;
      assert s.wire[i] in s.wire;
    }
    PendingAreInTurn(ms, parse, s.pending.Keys);
    StreamRoundTrip(ms, parse, s.pending.Keys);
  }
}
