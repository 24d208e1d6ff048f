/**
 * Packet framing of the chat server (hw5/src/protocol.c) over a byte stream whose reads and
 * writes may stop short.
 */
module Protocol {
  import opened Common

  // The header struct is 20 bytes long: the type byte, three bytes of padding, and four
  // 32-bit fields, the payload length first.
  const HEADER_SIZE: nat := 20
  const LENGTH_AT: nat := 4

  // `ntohl` of the length field.
  function PayloadLength(header: seq<Byte>): (n: nat)
    requires |header| == HEADER_SIZE
    ensures n < 0x1_0000_0000
  {
    var b: seq<int> := header[LENGTH_AT..LENGTH_AT + 4];
    0x100_0000 * b[0] + 0x1_0000 * b[1] + 0x100 * b[2] + b[3]
  }

  // Bytes 4 to 7 of a stream hold n, most significant byte first.
  predicate Announces(stream: seq<Byte>, n: nat) {
    && |stream| >= 20 && n < 0x1_0000_0000
    && stream[4] == n / 0x100_0000 && stream[5] == n / 0x1_0000 % 0x100
    && stream[6] == n / 0x100 % 0x100 && stream[7] == n % 0x100
  }

  lemma AnnouncedLength(stream: seq<Byte>, n: nat)
    requires Announces(stream, n)
    ensures PayloadLength(stream[..HEADER_SIZE]) == n
  {
    var header := stream[..HEADER_SIZE];
    var a := n / 0x100;
    assert n / 0x1_0000 == a / 0x100 && n / 0x100_0000 == a / 0x100 / 0x100;
    assert header[LENGTH_AT..LENGTH_AT + 4] == stream[4..8];
  }

  // Headers are fixed-length and carry the exact payload length.
  predicate WellFormed(p: Packet) {
    |p.header| == HEADER_SIZE && |p.payload| == PayloadLength(p.header)
  }

  datatype Packet = Packet(header: seq<Byte>, payload: seq<Byte>)

  function Wire(packets: seq<Packet>): seq<Byte> {
    if packets == [] then [] else packets[0].header + packets[0].payload + Wire(packets[1..])
  }

  // The packet at the front of a stream, if all of it is there.
  function First(stream: seq<Byte>): (r: Option<Packet>)
    ensures r.Some? ==> WellFormed(r.value) && r.value.header + r.value.payload <= stream
  {
    if |stream| < HEADER_SIZE then None
    else
      var n := PayloadLength(stream[..HEADER_SIZE]);
      if |stream| < HEADER_SIZE + n then None
      else Some(Packet(stream[..HEADER_SIZE], stream[HEADER_SIZE..HEADER_SIZE + n]))
  }

  // The packet a stream announces is its first 20 bytes with as many bytes behind them, once
  // these are there.
  lemma FirstAnnounced(stream: seq<Byte>, n: nat)
    requires Announces(stream, n)
    ensures First(stream) == if |stream| < 20 + n then None else Some(Packet(stream[..20], stream[20..20 + n]))
  {
    AnnouncedLength(stream, n);
  }

  function Size(p: Packet): nat { |p.header| + |p.payload| }

  // What receiving until the first failure returns.
  function Received(stream: seq<Byte>): seq<Packet>
    decreases |stream|
  {
    match First(stream)
    case None => []
    case Some(p) => [p] + Received(stream[Size(p)..])
  }

  // How many of `packets` lie wholly within the first `k` bytes of their wire form.
  function Whole(packets: seq<Packet>, k: nat): (n: nat)
    ensures n <= |packets|
  {
    if packets == [] || k < Size(packets[0]) then 0
    else 1 + Whole(packets[1..], k - Size(packets[0]))
  }

  lemma FirstOfWire(p: Packet, rest: seq<Byte>, k: nat)
    requires WellFormed(p) && k <= Size(p) + |rest|
    ensures First((p.header + p.payload + rest)[..k]) == if k < Size(p) then None else Some(p)
    ensures k >= Size(p) ==> (p.header + p.payload + rest)[..k][Size(p)..] == rest[..k - Size(p)]
  {
    var all := p.header + p.payload + rest;
    var stream := all[..k];
    if k >= HEADER_SIZE {
      assert stream[..HEADER_SIZE] == p.header;
      if k >= Size(p) {
        assert stream[HEADER_SIZE..Size(p)] == p.payload;
        assert all[Size(p)..] == rest;
        assert stream[Size(p)..] == all[Size(p)..][..k - Size(p)];
      }
    }
  }

  /**
   * Framing: a stream cut anywhere yields, in order, exactly the packets sent that are whole
   * in it; and the uncut stream yields them all.
   */
  lemma {:induction false} ReceivedAsSent(packets: seq<Packet>, k: nat)
    requires forall p :: p in packets ==> WellFormed(p)
    requires k <= |Wire(packets)|
    ensures Received(Wire(packets)[..k]) == packets[..Whole(packets, k)]
    ensures Whole(packets, |Wire(packets)|) == |packets|
    decreases |packets|
  {
    if packets != [] {
      var p, rest := packets[0], packets[1..];
      assert forall q :: q in rest ==> q in packets;
      FirstOfWire(p, Wire(rest), k);
      ReceivedAsSent(rest, if k < Size(p) then 0 else k - Size(p));
      if k >= Size(p) {
        assert packets[..Whole(packets, k)] == [p] + rest[..Whole(rest, k - Size(p))];
      }
    }
  }

  lemma AllReceived(packets: seq<Packet>)
    requires forall p :: p in packets ==> WellFormed(p)
    ensures Received(Wire(packets)) == packets
  {
    ReceivedAsSent(packets, |Wire(packets)|);
    assert Wire(packets)[..|Wire(packets)|] == Wire(packets);
    assert packets[..|packets|] == packets;
  }

  // Two different sequences of packets never look alike on the wire.
  lemma WireIsInjective(a: seq<Packet>, b: seq<Packet>)
    requires forall p :: p in a ==> WellFormed(p)
    requires forall p :: p in b ==> WellFormed(p)
    requires Wire(a) == Wire(b)
    ensures a == b
  {
    AllReceived(a);
    AllReceived(b);
  }

  // The packet types a client may send: login, logout, users and send.
  predicate Handled(p: Packet) {
    |p.header| > 0 && 1 <= p.header[0] <= 4
  }

  // What the service loop sees of `packets` when its payload pointer still has `left`.
  function Seen(packets: seq<Packet>, left: seq<Byte>): (r: seq<Packet>)
    ensures |r| == |packets|
  {
    if packets == [] then []
    else
      var p := packets[0];
      var payload := if p.payload == [] then left else p.payload;
      [Packet(p.header, payload)] + Seen(packets[1..], if Handled(p) then [] else payload)
  }

  // A packet of none of the types 1 to 4 with a payload, and an empty one.
  predicate Stale(p: Packet, q: Packet) {
    (p.header == [] || p.header[0] == 0 || p.header[0] > 4) && p.payload != [] && q.payload == []
  }

  predicate NoStale(packets: seq<Packet>) {
    |packets| < 2 || (!Stale(packets[0], packets[1]) && NoStale(packets[1..]))
  }

  /**
   * The loop sees the packets that were sent if and only if no unhandled packet with a payload
   * comes directly before an empty one.
   */
  lemma {:induction false} SeenAsSent(packets: seq<Packet>)
    ensures Seen(packets, []) == packets <==> NoStale(packets)
    decreases |packets|
  {
    if |packets| > 1 {
      var p, rest := packets[0], packets[1..];
      var left := if Handled(p) then [] else p.payload;
      SeenAsSent(rest);
      SeenFirst(rest, left);
      var seen := Seen(rest, left);
      assert Seen(packets, []) == [p] + seen && packets == [p] + rest;
      if Stale(p, rest[0]) {
        assert seen[0] != rest[0];
        assert Seen(packets, [])[1] == seen[0];
      } else {
        assert seen == Seen(rest, []);
        assert Seen(packets, [])[1..] == seen;
      }
    }
  }

  // Two packets of an unhandled type, the second empty: it is seen with the first one's payload.
  lemma StalePayload() returns (packets: seq<Packet>)
    ensures (forall p :: p in packets ==> WellFormed(p)) && Seen(packets, []) != packets
  {
    var rest: seq<Byte> := seq(HEADER_SIZE - LENGTH_AT - 4, _ => 0);
    var p := Packet([9, 0, 0, 0] + [0, 0, 0, 1] + rest, [7]);
    var q := Packet([9, 0, 0, 0] + [0, 0, 0, 0] + rest, []);
    assert p.header[LENGTH_AT..LENGTH_AT + 4] == [0, 0, 0, 1];
    assert q.header[LENGTH_AT..LENGTH_AT + 4] == [0, 0, 0, 0];
    packets := [p, q];
    assert Stale(p, q);
    SeenAsSent(packets);
  }

  // What is left in the pointer shows exactly if the first packet is empty.
  lemma SeenFirst(packets: seq<Packet>, left: seq<Byte>)
    requires packets != []
    ensures packets[0].payload != [] ==> Seen(packets, left) == Seen(packets, [])
    ensures packets[0].payload == [] ==> Seen(packets, left)[0].payload == left
  {
  }

  /**
   * One end of a connection.  `sent` is what the kernel has accepted from this end,
   * `incoming` what the other end has sent and this one has not read; `failures` counts the
   * calls refused by the kernel or the allocator.
   */
  class Connection {
    ghost var sent: seq<Byte>
    var incoming: seq<Byte>
    var failures: nat

    constructor (incoming: seq<Byte>)
      ensures sent == [] && this.incoming == incoming && failures == 0
    {
      sent := [];
      this.incoming := incoming;
      failures := 0;
    }

    // `write` takes any non-empty front part of the buffer, or fails.
    method Write(buffer: seq<Byte>) returns (n: int)
      requires buffer != []
      modifies this`sent, this`failures
      ensures n <= |buffer|
      ensures n > 0 ==> sent == old(sent) + buffer[..n] && failures == old(failures)
      ensures n <= 0 ==> sent == old(sent) && failures == old(failures) + 1
    {
      n :| -1 <= n <= |buffer|;
      if n > 0 {
        sent := sent + buffer[..n];
      } else {
        failures := failures + 1;
      }
    }

    // `was`, with `bytes` put over it from `at`.
    static function Overlaid(was: seq<Byte>, at: nat, bytes: seq<Byte>): (r: seq<Byte>)
      requires at + |bytes| <= |was|
      ensures |r| == |was|
    {
      was[..at] + bytes + was[at + |bytes|..]
    }

    static lemma OverlaidFurther(was: seq<Byte>, at: nat, bytes: seq<Byte>, i: nat)
      requires i < |bytes| && at + i < |was|
      ensures Overlaid(was, at, bytes[..i])[at + i := bytes[i]] == Overlaid(was, at, bytes[..i + 1])
    {
    }

    // `read` fills any non-empty front part of the buffer with what comes next, returns 0 at
    // the end of the stream, or fails.
    method Read(buffer: array<Byte>, at: nat, size: nat) returns (n: int)
      requires 0 < size && at + size <= buffer.Length
      modifies this`incoming, this`failures, buffer
      ensures n <= size
      ensures n > 0 ==>
        && n <= |old(incoming)| && incoming == old(incoming)[n..] && failures == old(failures)
        && buffer[..] == Overlaid(old(buffer[..]), at, old(incoming)[..n])
      ensures n <= 0 ==> incoming == old(incoming) && buffer[..] == old(buffer[..])
      ensures n == 0 ==> incoming == [] && failures == old(failures)
      ensures n < 0 ==> failures == old(failures) + 1
    {
      n :| -1 <= n <= size && n <= |incoming| && (n == 0 ==> incoming == []);
      if n < 0 {
        failures := failures + 1;
      } else {
        for i := 0 to n
          invariant incoming == old(incoming) && failures == old(failures)
          invariant buffer[..] == Overlaid(old(buffer[..]), at, old(incoming)[..i])
        {
          OverlaidFurther(old(buffer[..]), at, incoming, i);
          buffer[at + i] := incoming[i];
        }
        incoming := incoming[n..];
      }
    }

    // `malloc` of a non-zero size.
    method Allocate(size: nat) returns (buffer: array?<Byte>)
      modifies this`failures
      ensures buffer == null ==> failures == old(failures) + 1
      ensures buffer != null ==>
        failures == old(failures) && fresh(buffer) && buffer.Length == size
    {
      var refused: bool :| true;
      if refused {
        failures := failures + 1;
        return null;
      }
      buffer := new Byte[size](_ => 0);
    }

    // The writing loop: all of `data`, unless a call fails; then a proper front part.
    method WriteAll(data: seq<Byte>) returns (ok: bool)
      modifies this`sent, this`failures
      ensures ok <==> failures == old(failures)
      ensures ok ==> sent == old(sent) + data
      ensures !ok ==> exists k :: 0 <= k < |data| && sent == old(sent) + data[..k]
    {
      var left := |data|;
      while left != 0
        invariant 0 <= left <= |data| && failures == old(failures)
        invariant sent == old(sent) + data[..|data| - left]
      {
        ghost var done := |data| - left;
        var amount := Write(data[|data| - left..]);
        if amount <= 0 {
          return false;
        }
        assert data[..done] + data[done..][..amount] == data[..done + amount];
        left := left - amount;
      }
      assert data[..|data|] == data;
      return true;
    }

    // Storage that held `was`, after the first `k` bytes of `stream` were put over it.
    static function Filled(stream: seq<Byte>, was: seq<Byte>, k: nat): (r: seq<Byte>)
      requires k <= |stream| && k <= |was|
      ensures |r| == |was|
    {
      stream[..k] + was[k..]
    }

    // `k` bytes of `stream` have been read, leaving `rest`, into storage that held `was`.
    static ghost predicate ReadTo(stream: seq<Byte>, was: seq<Byte>, k: nat, rest: seq<Byte>, now: seq<Byte>) {
      k <= |stream| && k <= |was| && rest == stream[k..] && now == Filled(stream, was, k)
    }

    static lemma ReadFurther(stream: seq<Byte>, was: seq<Byte>, k: nat, n: nat, rest: seq<Byte>, now: seq<Byte>)
      requires ReadTo(stream, was, k, rest, now) && n <= |rest| && k + n <= |was|
      ensures ReadTo(stream, was, k + n, rest[n..], Overlaid(now, k, rest[..n]))
    {
      assert now[..k] == stream[..k] && now[k + n..] == was[k + n..];
      assert stream[..k] + stream[k..][..n] == stream[..k + n];
    }

    // How much of a header the first `n` bytes of a stream are.
    static function HeaderPart(n: nat): nat {
      if n < HEADER_SIZE then n else HEADER_SIZE
    }

    static function LengthOf(header: seq<Byte>): seq<Byte>
      requires |header| == HEADER_SIZE
    {
      header[LENGTH_AT..LENGTH_AT + 4]
    }

    // Of the length field, the first `n` bytes of the stream bring what `was` there already.
    static predicate LengthSurvives(stream: seq<Byte>, was: seq<Byte>, n: nat)
      requires n <= |stream| && |was| == HEADER_SIZE
    {
      forall i | LENGTH_AT <= i < LENGTH_AT + 4 && i < n :: stream[i] == was[i]
    }

    static lemma LengthField(stream: seq<Byte>, was: seq<Byte>, n: nat)
      requires n <= |stream| && |was| == HEADER_SIZE
      ensures LengthOf(Filled(stream, was, HeaderPart(n))) == LengthOf(was) <==>
        LengthSurvives(stream, was, n)
    {
      var now := Filled(stream, was, HeaderPart(n));
      forall i | LENGTH_AT <= i < LENGTH_AT + 4
        ensures LengthOf(now)[i - LENGTH_AT] == if i < n then stream[i] else was[i]
      {
      }
      if LengthOf(now) == LengthOf(was) {
        forall i | LENGTH_AT <= i < LENGTH_AT + 4 && i < n ensures stream[i] == was[i] {
          assert LengthOf(now)[i - LENGTH_AT] == LengthOf(was)[i - LENGTH_AT];
        }
      }
    }

    // A stream that ends inside the header, after a first length byte unlike the caller's.
    static lemma LengthLost() returns (stream: seq<Byte>, was: seq<Byte>)
      ensures |was| == HEADER_SIZE && LENGTH_AT < |stream| < HEADER_SIZE && First(stream).None?
      ensures LengthOf(Filled(stream, was, |stream|)) != LengthOf(was)
    {
      stream, was := [1, 0, 0, 0, 9], seq(HEADER_SIZE, _ => 0);
      assert stream[LENGTH_AT] != was[LENGTH_AT];
      LengthField(stream, was, |stream|);
    }

    // The reading loop: fills `buffer`, unless a call fails or the stream ends first; then the
    // front part read so far has been overwritten.
    method ReadAll(buffer: array<Byte>) returns (ok: bool)
      modifies this`incoming, this`failures, buffer
      ensures ok <==> failures == old(failures) && buffer.Length <= |old(incoming)|
      ensures ok ==> buffer[..] == old(incoming)[..buffer.Length]
      ensures ok ==> incoming == old(incoming)[buffer.Length..]
      ensures var k := |old(incoming)| - |incoming|;
        && 0 <= k <= buffer.Length && (ok <==> k == buffer.Length)
        && ReadTo(old(incoming), old(buffer[..]), k, incoming, buffer[..])
      ensures !ok && failures == old(failures) ==> incoming == []
    {
      ghost var stream, was := incoming, buffer[..];
      var left := buffer.Length;
      while left != 0
        invariant 0 <= left <= buffer.Length && failures == old(failures)
        invariant ReadTo(stream, was, buffer.Length - left, incoming, buffer[..])
      {
        ghost var done, now, rest := buffer.Length - left, buffer[..], incoming;
        var amount := Read(buffer, buffer.Length - left, left);
        if amount <= 0 {
          assert buffer[..] == now;
          return false;
        }
        assert buffer[..] == Overlaid(now, done, rest[..amount]);
        ReadFurther(stream, was, done, amount, rest, now);
        left := left - amount;
      }
      return true;
    }

    /**
     * Sends a packet, however the writes are cut: 0 exactly when nothing failed, and then the
     * whole packet is on the wire; after -1 a proper front part of it is.
     */
    method SendPacket(header: seq<Byte>, payload: seq<Byte>) returns (r: int)
      requires |header| == HEADER_SIZE && |payload| >= PayloadLength(header)
      modifies this`sent, this`failures
      ensures r == if failures == old(failures) then 0 else -1
      ensures var wire := header + payload[..PayloadLength(header)];
        if r == 0 then sent == old(sent) + wire
        else exists k :: 0 <= k < |wire| && sent == old(sent) + wire[..k]
      ensures forall n: nat | r == 0 && Announces(header, n) :: n <= |payload| && sent == old(sent) + header + payload[..n]
    {
      forall n: nat | Announces(header, n) ensures PayloadLength(header) == n {
        assert header[..HEADER_SIZE] == header;
        AnnouncedLength(header, n);
      }
      ghost var wire := header + payload[..PayloadLength(header)];
      var ok := WriteAll(header);
      if !ok {
        ghost var k :| 0 <= k < |header| && sent == old(sent) + header[..k];
        assert wire[..k] == header[..k];
        return -1;
      }
      ghost var before := sent;
      ok := WriteAll(payload[..PayloadLength(header)]);
      if !ok {
        ghost var k :| 0 <= k < PayloadLength(header) && sent == before + payload[..PayloadLength(header)][..k];
        assert wire[..|header| + k] == header + payload[..PayloadLength(header)][..k];
        return -1;
      }
      return 0;
    }

    /**
     * Receives a packet into caller storage.  The answer is 0 exactly when nothing failed and
     * a whole packet was there; then the packet is the first one of the stream and is used up.
     * With -1, or with an empty payload, the payload pointer is what it was.  Either way the
     * bytes consumed are a front part of the stream, and those that belong to a header have
     * overwritten the caller's; with -1 and no failed call that is the whole stream.
     */
    method RecvPacket(header: array<Byte>, payload: array?<Byte>)
      returns (r: int, newPayload: array?<Byte>)
      requires header.Length == HEADER_SIZE
      modifies this`incoming, this`failures, header
      ensures r == if failures == old(failures) && First(old(incoming)).Some? then 0 else -1
      ensures r == 0 ==> var p := First(old(incoming)).value;
        && header[..] == p.header && incoming == old(incoming)[Size(p)..]
        && (p.payload == [] ==> newPayload == payload)
        && (p.payload != [] ==>
             newPayload != null && fresh(newPayload) && newPayload[..] == p.payload)
      ensures r == -1 ==> newPayload == payload
      ensures var n := |old(incoming)| - |incoming|;
        && 0 <= n && incoming == old(incoming)[n..]
        && header[..] == Filled(old(incoming), old(header[..]), HeaderPart(n))
        && (LengthOf(header[..]) == LengthOf(old(header[..])) <==>
             LengthSurvives(old(incoming), old(header[..]), n))
      ensures r == -1 && failures == old(failures) ==> incoming == []
    {
      ghost var stream, was := incoming, header[..];
      newPayload := payload;
      var ok := ReadAll(header);
      ghost var n := |stream| - |incoming|;
      LengthField(stream, was, n);
      if !ok {
        return -1, payload;
      }
      var size := PayloadLength(header[..]);
      if size != 0 {
        var buffer := Allocate(size);
        if buffer == null {
          return -1, payload;
        }
        ghost var after := incoming;
        ok := ReadAll(buffer);
        ghost var k := |after| - |incoming|;
        assert incoming == after[k..] == stream[HEADER_SIZE + k..];
        LengthField(stream, was, HEADER_SIZE + k);
        if !ok {
          return -1, payload;
        }
        newPayload := buffer;
      }
      return 0, newPayload;
    }

    /**
     * The receiving loop of a client's service thread, which hands each packet to the branch for
     * its type.  It sees what `Seen` says of the packets in the stream, in order, until a call
     * fails or the stream ends.
     */
    method ServiceLoop() returns (seen: seq<Packet>)
      modifies this`incoming, this`failures
      ensures seen <= Seen(Received(old(incoming)), [])
      ensures failures == old(failures) ==> |seen| == |Received(old(incoming))|
    {
      ghost var all := Seen(Received(incoming), []);
      var header := new Byte[HEADER_SIZE](_ => 0);
      var payload: array?<Byte> := null;
      seen := [];
      while true
        invariant failures == old(failures) && payload != header
        invariant all == seen + Seen(Received(incoming), Content(payload))
        decreases |incoming|
      {
        ghost var stream, left := incoming, Content(payload);
        var r, newPayload := RecvPacket(header, payload);
        if r == -1 {
          assert failures == old(failures) ==> First(stream).None?;
          return;
        }
        payload := newPayload;
        ghost var p := First(stream).value;
        assert Content(payload) == if p.payload == [] then left else p.payload;
        SeenNext(seen, p, Received(incoming), left);
        assert Received(stream) == [p] + Received(incoming);
        seen := seen + [Packet(header[..], Content(payload))];
        if 1 <= header[0] <= 4 {
          payload := null;
        }
      }
    }

    // The bytes behind a payload pointer.
    static function Content(payload: array?<Byte>): seq<Byte>
      reads payload
    {
      if payload == null then [] else payload[..]
    }

    static lemma SeenNext(seen: seq<Packet>, p: Packet, rest: seq<Packet>, left: seq<Byte>)
      ensures var payload := if p.payload == [] then left else p.payload;
        seen + Seen([p] + rest, left)
        == seen + [Packet(p.header, payload)] + Seen(rest, if Handled(p) then [] else payload)
    {
      assert ([p] + rest)[1..] == rest;
    }
  }
}
