/** The WebSocket server's framing: RFC 6455, sections 5.2 and 5.3, as far as the server
    speaks it (single masked text, ping and pong frames from the client). */
module WebSocket {
  import opened Arithmetic
  import opened Sequences

  type Octet = x: int | 0 <= x < 256

  const FIN: Octet := 0x80
  const MASKED: Octet := 0x80
  const PAYLOAD_LEN_EXT16: Octet := 0x7e
  const PAYLOAD_LEN_EXT64: Octet := 0x7f

  const OPCODE_CONTINUATION: Octet := 0x0
  const OPCODE_TEXT: Octet := 0x1
  const OPCODE_BINARY: Octet := 0x2
  const OPCODE_CLOSE_CONN: Octet := 0x8
  const OPCODE_PING: Octet := 0x9
  const OPCODE_PONG: Octet := 0xA

  // A byte cut into fields: top bit (FIN, MASKED), low four bits (OPCODE), low seven bits
  // (PAYLOAD_LEN).
  predicate TopBit(b: Octet) { b >= 0x80 }

  function Low4(b: Octet): Octet { b % 0x10 }

  function Low7(b: Octet): Octet { b % 0x80 }

  /** Exclusive or, bit by bit from the lowest. */
  function Xor(a: nat, b: nat, bits: nat): nat {
    if bits == 0 then 0 else (a + b) % 2 + 2 * Xor(a / 2, b / 2, bits - 1)
  }

  lemma SumParity(x: nat, a: nat, b: nat)
    requires x % 2 == (a + b) % 2
    ensures (x + b) % 2 == a % 2
  {
  }

  function Pow2(k: nat): (r: nat)
    ensures r > 0
  {
    if k == 0 then 1 else 2 * Pow2(k - 1)
  }

  /** Bit k of x, by its place value. */
  function Bit(x: nat, k: nat): (r: nat)
    ensures r <= 1
  {
    x / Pow2(k) % 2
  }

  lemma BitOfHalf(x: nat, k: nat)
    ensures Bit(x, k + 1) == Bit(x / 2, k)
  {
    HalfFirst(x, Pow2(k));
  }

  lemma LowestBit(x: nat)
    ensures Bit(x, 0) == x % 2
  {
    assert Pow2(0) == 1;
  }

  lemma XorStep(a: nat, b: nat, bits: nat)
    requires bits > 0
    ensures Xor(a, b, bits) % 2 == (a + b) % 2 && Xor(a, b, bits) / 2 == Xor(a / 2, b / 2, bits - 1)
  {
  }

  /** A bit of the result is set exactly where the two numbers differ. */
  lemma {:induction false} XorBits(a: nat, b: nat, bits: nat, k: nat)
    requires k < bits
    ensures Bit(Xor(a, b, bits), k) == 1 <==> Bit(a, k) != Bit(b, k)
  {
    XorStep(a, b, bits);
    if k == 0 {
      LowestBit(a);
      LowestBit(b);
      LowestBit(Xor(a, b, bits));
    } else {
      XorBits(a / 2, b / 2, bits - 1, k - 1);
      BitOfHalf(Xor(a, b, bits), k - 1);
      BitOfHalf(a, k - 1);
      BitOfHalf(b, k - 1);
    }
  }

  lemma {:induction false} XorZero(a: nat, bits: nat)
    requires a < Pow2(bits)
    ensures Xor(a, 0, bits) == a
  {
    if bits > 0 {
      XorZero(a / 2, bits - 1);
    }
  }

  lemma {:induction false} XorBound(a: nat, b: nat, bits: nat)
    ensures Xor(a, b, bits) < Pow2(bits)
  {
    if bits > 0 {
      XorBound(a / 2, b / 2, bits - 1);
    }
  }

  lemma {:induction false} XorTwice(a: nat, b: nat, bits: nat)
    requires a < Pow2(bits)
    ensures Xor(Xor(a, b, bits), b, bits) == a
  {
    if bits > 0 {
      var x := Xor(a, b, bits);
      XorTwice(a / 2, b / 2, bits - 1);
      assert x / 2 == Xor(a / 2, b / 2, bits - 1) && x % 2 == (a + b) % 2;
      assert Xor(x, b, bits) == (x + b) % 2 + 2 * (a / 2);
      SumParity(x, a, b);
    }
  }

  lemma Pow2Of8()
    ensures Pow2(8) == 256
  {
    assert Pow2(4) == 16;
  }

  function XorByte(a: Octet, b: Octet): Octet {
    XorBound(a, b, 8);
    Pow2Of8();
    Xor(a, b, 8)
  }

  const TOO_BIG := 18446744073709551616

  // ---- Big-endian numbers ----

  function Pow256(k: nat): (r: nat)
    ensures r > 0
  {
    if k == 0 then 1 else 256 * Pow256(k - 1)
  }

  /** struct.pack: n in k bytes, most significant first. */
  function BigEndian(n: nat, k: nat): (r: seq<Octet>)
    ensures |r| == k
  {
    if k == 0 then [] else BigEndian(n / 256, k - 1) + [n % 256]
  }

  /** struct.unpack */
  function FromBigEndian(bs: seq<Octet>): nat {
    if bs == [] then 0 else FromBigEndian(bs[..|bs| - 1]) * 256 + bs[|bs| - 1]
  }

  lemma {:induction false} BigEndianRoundTrip(n: nat, k: nat)
    requires n < Pow256(k)
    ensures FromBigEndian(BigEndian(n, k)) == n
  {
    if k > 0 {
      BigEndianRoundTrip(n / 256, k - 1);
      FromBigEndianSnoc(BigEndian(n / 256, k - 1), n % 256);
    }
  }

  lemma FromBigEndianSnoc(bs: seq<Octet>, b: Octet)
    ensures FromBigEndian(bs + [b]) == FromBigEndian(bs) * 256 + b
  {
    assert (bs + [b])[..|bs|] == bs;
  }

  /** The first byte is the most significant. */
  lemma {:induction false} FromBigEndianFirst(bs: seq<Octet>)
    requires bs != []
    ensures FromBigEndian(bs) == bs[0] * Pow256(|bs| - 1) + FromBigEndian(bs[1..])
  {
    var init, last := bs[..|bs| - 1], bs[|bs| - 1];
    if |bs| == 1 {
      assert bs[1..] == [] && init == [];
    } else {
      FromBigEndianFirst(init);
      assert init[1..] == bs[1..][..|bs| - 2];
      var p := Pow256(|bs| - 2);
      assert bs[0] * (256 * p) == bs[0] * p * 256;
    }
  }

  lemma {:induction false} FromBigEndianBound(bs: seq<Octet>)
    ensures FromBigEndian(bs) < Pow256(|bs|)
  {
    if bs != [] {
      FromBigEndianBound(bs[..|bs| - 1]);
    }
  }

  lemma Pow256Values()
    ensures Pow256(2) == 65536 && Pow256(8) == TOO_BIG
  {
    assert Pow256(1) == 256 && Pow256(2) == 65536 && Pow256(3) == 16777216 && Pow256(4) == 4294967296;
    assert Pow256(5) == 1099511627776 && Pow256(6) == 281474976710656 && Pow256(7) == 72057594037927936;
  }

  // ---- Sending ----

  /** The header send_text chooses; mask is 0 from the server, MASKED from a client. */
  function Header(opcode: Octet, length: nat, mask: Octet): seq<Octet>
    requires opcode < 0x10 && length < TOO_BIG && (mask == 0 || mask == MASKED)
  {
    if length <= 125 then [FIN + opcode, mask + length]
    else if length <= 65535 then [FIN + opcode, mask + PAYLOAD_LEN_EXT16] + BigEndian(length, 2)
    else [FIN + opcode, mask + PAYLOAD_LEN_EXT64] + BigEndian(length, 8)
  }

  /** A payload under a four-byte masking key, starting at position i; also the way back. */
  function Masked(payload: seq<Octet>, key: seq<Octet>, i: nat): (r: seq<Octet>)
    requires payload == [] || |key| == 4
    ensures |r| == |payload|
  {
    if payload == [] then [] else [XorByte(payload[0], key[i % 4])] + Masked(payload[1..], key, i + 1)
  }

  lemma {:induction false} MaskedAt(payload: seq<Octet>, key: seq<Octet>, start: nat, i: nat)
    requires i < |payload| && |key| == 4
    ensures Masked(payload, key, start)[i] == XorByte(payload[i], key[(start + i) % 4])
  {
    if i > 0 {
      MaskedAt(payload[1..], key, start + 1, i - 1);
    }
  }

  /** Bit by bit, and byte by byte with the key repeated, as section 5.3 of RFC 6455 has it. */
  lemma MaskedBits(payload: seq<Octet>, key: seq<Octet>, i: nat, k: nat)
    requires i < |payload| && |key| == 4 && k < 8
    ensures Bit(Masked(payload, key, 0)[i], k) == 1 <==> Bit(payload[i], k) != Bit(key[i % 4], k)
  {
    MaskedAt(payload, key, 0, i);
    XorBits(payload[i], key[i % 4], 8, k);
  }

  /** A key of zeros changes nothing. */
  lemma ZeroKey(payload: seq<Octet>)
    ensures Masked(payload, [0, 0, 0, 0], 0) == payload
  {
    var r := Masked(payload, [0, 0, 0, 0], 0);
    forall i | 0 <= i < |payload|
      ensures r[i] == payload[i]
    {
      MaskedAt(payload, [0, 0, 0, 0], 0, i);
      Pow2Of8();
      XorZero(payload[i], 8);
    }
  }

  lemma MaskedHead(payload: seq<Octet>, key: seq<Octet>, i: nat)
    requires payload != [] && |key| == 4
    ensures Masked(payload, key, i) == [XorByte(payload[0], key[i % 4])] + Masked(payload[1..], key, i + 1)
  {
  }

  lemma {:induction false} MaskedTwice(payload: seq<Octet>, key: seq<Octet>, i: nat)
    requires |key| == 4
    ensures Masked(Masked(payload, key, i), key, i) == payload
  {
    if payload != [] {
      MaskedTwice(payload[1..], key, i + 1);
      Pow2Of8();
      XorTwice(payload[0], key[i % 4], 8);
    }
  }

  datatype Message = Message(opcode: Octet, payload: seq<Octet>)

  /** What a client puts on the wire: the header with the mask bit, key, masked payload. */
  function ClientFrame(m: Message, key: seq<Octet>): seq<Octet>
    requires m.opcode < 0x10 && |m.payload| < TOO_BIG && |key| == 4
  {
    Header(m.opcode, |m.payload|, MASKED) + key + Masked(m.payload, key, 0)
  }

  // ---- Receiving ----

  datatype Outcome =
    | Delivered(message: Message)  // a handler is called
    | Refused                      // nothing delivered; the unsupported frame's rest is not consumed
    | Raised                       // struct.error: the length bytes are missing

  datatype Read = Read(outcome: Outcome, rest: seq<Octet>, keepAlive: bool)

  /** rfile.read: up to n bytes. */
  function Taken(input: seq<Octet>, n: nat): seq<Octet> {
    if n <= |input| then input[..n] else input
  }

  function Left(input: seq<Octet>, n: nat): seq<Octet> {
    if n <= |input| then input[n..] else []
  }

  /** Nothing is read twice or skipped, and as much as there is of what is asked for. */
  lemma TakenLeft(input: seq<Octet>, n: nat)
    ensures Taken(input, n) + Left(input, n) == input
    ensures |Taken(input, n)| == n || (|input| < n && Left(input, n) == [])
  {
  }

  predicate HasHandler(opcode: Octet) {
    opcode == OPCODE_TEXT || opcode == OPCODE_PING || opcode == OPCODE_PONG
  }

  /** Key and payload of a frame whose length is known. */
  function ReadPayload(opcode: Octet, length: nat, input: seq<Octet>): Read {
    var key, rest := Taken(input, 4), Left(input, 4);
    Read(Delivered(Message(opcode, Masked(Taken(rest, length), key, 0))), Left(rest, length), true)
  }

  /** The decisions of read_next_message on the first two bytes of a frame. */
  function Dispatch(b1: Octet, b2: Octet, rest: seq<Octet>): Read {
    var opcode, length := Low4(b1), Low7(b2);
    if opcode == OPCODE_CLOSE_CONN then Read(Refused, rest, false)
    else if !TopBit(b2) then Read(Refused, rest, false)
    else if opcode == OPCODE_CONTINUATION || opcode == OPCODE_BINARY then Read(Refused, rest, true)
    else if !HasHandler(opcode) then Read(Refused, rest, false)
    else if length == 126 then
      if |rest| < 2 then Read(Raised, [], true) else ReadPayload(opcode, FromBigEndian(rest[..2]), rest[2..])
    else if length == 127 then
      if |rest| < 8 then Read(Raised, [], true) else ReadPayload(opcode, FromBigEndian(rest[..8]), rest[8..])
    else ReadPayload(opcode, length, rest)
  }

  /** read_next_message on what is left of the input; at its end both bytes count as 0. */
  function ReadNext(input: seq<Octet>): Read {
    if |input| >= 2 then Dispatch(input[0], input[1], input[2..]) else Dispatch(0, 0, [])
  }

  /** Each read either ends the connection or consumes input. */
  lemma ReadConsumes(input: seq<Octet>)
    ensures var r := ReadNext(input);
            && |r.rest| <= |input|
            && (r.keepAlive && !r.outcome.Raised? ==> |r.rest| <= |input| - 2)
  {
  }

  /** handle, once the handshake is done: the messages delivered and what is left unread. */
  function Serve(input: seq<Octet>): (seq<Message>, seq<Octet>)
    decreases |input|
  {
    var r := ReadNext(input);
    var first := if r.outcome.Delivered? then [r.outcome.message] else [];
    if !r.keepAlive || r.outcome.Raised? then (first, r.rest)
    else
      ReadConsumes(input);
      var (later, rest) := Serve(r.rest);
      (first + later, rest)
  }

  lemma ServeFirst(input: seq<Octet>)
    ensures var r := ReadNext(input);
            var first := if r.outcome.Delivered? then [r.outcome.message] else [];
            Serve(input) == if !r.keepAlive || r.outcome.Raised? then (first, r.rest)
                            else (first + Serve(r.rest).0, Serve(r.rest).1)
  {
  }

  /** Serve, one read at a time, in front of what has been received already. */
  lemma ServeStep(before: seq<Message>, input: seq<Octet>)
    ensures var r := ReadNext(input);
            var after := before + if r.outcome.Delivered? then [r.outcome.message] else [];
            if !r.keepAlive || r.outcome.Raised?
            then after == before + Serve(input).0 && r.rest == Serve(input).1
            else after + Serve(r.rest).0 == before + Serve(input).0 && Serve(r.rest).1 == Serve(input).1
  {
    var r := ReadNext(input);
    var first := if r.outcome.Delivered? then [r.outcome.message] else [];
    ServeFirst(input);
    Regrouped(before, first, Serve(r.rest).0);
  }

  // ---- Round trip ----

  lemma ReadPayloadOfFrame(m: Message, key: seq<Octet>, tail: seq<Octet>)
    requires |key| == 4
    ensures ReadPayload(m.opcode, |m.payload|, key + Masked(m.payload, key, 0) + tail) == Read(Delivered(m), tail, true)
  {
    var body := Masked(m.payload, key, 0);
    var input := key + body + tail;
    assert input[..4] == key && input[4..] == body + tail;
    assert (body + tail)[..|body|] == body && (body + tail)[|body|..] == tail;
    MaskedTwice(m.payload, key, 0);
  }

  lemma ReadNextOf(b1: Octet, b2: Octet, rest: seq<Octet>)
    ensures ReadNext([b1, b2] + rest) == Dispatch(b1, b2, rest)
  {
    assert ([b1, b2] + rest)[2..] == rest;
  }

  lemma DispatchShort(m: Message, key: seq<Octet>, tail: seq<Octet>)
    requires HasHandler(m.opcode) && |m.payload| <= 125 && |key| == 4
    ensures Dispatch(FIN + m.opcode, MASKED + |m.payload|, key + Masked(m.payload, key, 0) + tail)
            == Read(Delivered(m), tail, true)
  {
    FirstBytes(m.opcode, |m.payload|);
    ReadPayloadOfFrame(m, key, tail);
  }

  lemma FirstBytes(opcode: Octet, low: nat)
    requires opcode < 0x10 && low < 0x80
    ensures Low4(FIN + opcode) == opcode
    ensures TopBit(MASKED + low) && Low7(MASKED + low) == low
    ensures !TopBit(low) && Low7(low) == low
  {
  }

  /** A text, ping or pong frame with an extended length. */
  lemma DispatchExtended(b1: Octet, b2: Octet, size: seq<Octet>, body: seq<Octet>)
    requires HasHandler(Low4(b1)) && TopBit(b2)
    requires (Low7(b2) == PAYLOAD_LEN_EXT16 && |size| == 2) || (Low7(b2) == PAYLOAD_LEN_EXT64 && |size| == 8)
    ensures Dispatch(b1, b2, size + body) == ReadPayload(Low4(b1), FromBigEndian(size), body)
  {
    Cut(size, body);
  }

  lemma DispatchLong(m: Message, key: seq<Octet>, tail: seq<Octet>, low: Octet, k: nat)
    requires HasHandler(m.opcode) && |m.payload| < Pow256(k) && |key| == 4
    requires (low == PAYLOAD_LEN_EXT16 && k == 2) || (low == PAYLOAD_LEN_EXT64 && k == 8)
    ensures Dispatch(FIN + m.opcode, MASKED + low, BigEndian(|m.payload|, k) + (key + Masked(m.payload, key, 0) + tail))
            == Read(Delivered(m), tail, true)
  {
    var size, body := BigEndian(|m.payload|, k), key + Masked(m.payload, key, 0) + tail;
    FirstBytes(m.opcode, low);
    DispatchExtended(FIN + m.opcode, MASKED + low, size, body);
    BigEndianRoundTrip(|m.payload|, k);
    ReadPayloadOfFrame(m, key, tail);
  }

  lemma Cut<T>(a: seq<T>, b: seq<T>)
    ensures (a + b)[..|a|] == a && (a + b)[|a|..] == b
  {
  }

  lemma FrameBytes(head: seq<Octet>, size: seq<Octet>, key: seq<Octet>, body: seq<Octet>, tail: seq<Octet>)
    ensures (head + size) + key + body + tail == head + (size + (key + body + tail))
  {
    Regrouped(head + size, key, body);
    Regrouped(head + size, key + body, tail);
    Regrouped(head, size, key + body + tail);
  }

  /** The reader on a frame with the two first bytes known. */
  lemma ReadFrame(m: Message, key: seq<Octet>, tail: seq<Octet>, low: nat, size: seq<Octet>)
    requires HasHandler(m.opcode) && |m.payload| < TOO_BIG && |key| == 4 && low < 0x80
    requires Header(m.opcode, |m.payload|, MASKED) == [FIN + m.opcode, MASKED + low] + size
    ensures ReadNext(ClientFrame(m, key) + tail) ==
            Dispatch(FIN + m.opcode, MASKED + low, size + (key + Masked(m.payload, key, 0) + tail))
  {
    var body := Masked(m.payload, key, 0);
    FrameBytes([FIN + m.opcode, MASKED + low], size, key, body, tail);
    ReadNextOf(FIN + m.opcode, MASKED + low, size + (key + body + tail));
  }

  lemma ShortFrameRoundTrip(m: Message, key: seq<Octet>, tail: seq<Octet>)
    requires HasHandler(m.opcode) && |m.payload| <= 125 && |key| == 4
    ensures ReadNext(ClientFrame(m, key) + tail) == Read(Delivered(m), tail, true)
  {
    var rest := key + Masked(m.payload, key, 0) + tail;
    ReadFrame(m, key, tail, |m.payload|, []);
    assert [] + rest == rest;
    DispatchShort(m, key, tail);
  }

  lemma LongFrameRoundTrip(m: Message, key: seq<Octet>, tail: seq<Octet>, low: Octet, k: nat)
    requires HasHandler(m.opcode) && 125 < |m.payload| < TOO_BIG && |key| == 4
    requires if |m.payload| <= 65535 then low == PAYLOAD_LEN_EXT16 && k == 2 else low == PAYLOAD_LEN_EXT64 && k == 8
    ensures ReadNext(ClientFrame(m, key) + tail) == Read(Delivered(m), tail, true)
  {
    LengthFits(|m.payload|, k);
    ReadFrame(m, key, tail, low, BigEndian(|m.payload|, k));
    DispatchLong(m, key, tail, low, k);
  }

  lemma LengthFits(length: nat, k: nat)
    requires if length <= 65535 then k == 2 else length < TOO_BIG && k == 8
    ensures length < Pow256(k)
  {
    Pow256Values();
  }

  /** A framed message at the head of the input is delivered as it was, and the rest of the
      input is untouched. */
  lemma FrameRoundTrip(m: Message, key: seq<Octet>, tail: seq<Octet>)
    requires HasHandler(m.opcode) && |m.payload| < TOO_BIG && |key| == 4
    ensures ReadNext(ClientFrame(m, key) + tail) == Read(Delivered(m), tail, true)
  {
    if |m.payload| <= 125 {
      ShortFrameRoundTrip(m, key, tail);
    } else if |m.payload| <= 65535 {
      LongFrameRoundTrip(m, key, tail, PAYLOAD_LEN_EXT16, 2);
    } else {
      LongFrameRoundTrip(m, key, tail, PAYLOAD_LEN_EXT64, 8);
    }
  }

  predicate Sendable(m: Message, key: seq<Octet>) {
    HasHandler(m.opcode) && |m.payload| < TOO_BIG && |key| == 4
  }

  function Stream(ms: seq<Message>, keys: seq<seq<Octet>>): seq<Octet>
    requires |keys| == |ms|
    requires forall i :: 0 <= i < |ms| ==> Sendable(ms[i], keys[i])
  {
    if ms == [] then []
    else
      assert Sendable(ms[0], keys[0]);
      ClientFrame(ms[0], keys[0]) + Stream(ms[1..], keys[1..])
  }

  /** Any list of text, ping and pong messages, each framed under any key, comes out of the
      reader as the same list, with nothing left over. */
  lemma {:induction false} StreamRoundTrip(ms: seq<Message>, keys: seq<seq<Octet>>)
    requires |keys| == |ms|
    requires forall i :: 0 <= i < |ms| ==> Sendable(ms[i], keys[i])
    ensures Serve(Stream(ms, keys)) == (ms, [])
    decreases |ms|
  {
    if ms == [] {
      assert ReadNext([]) == Read(Refused, [], false);
    } else {
      var tail := Stream(ms[1..], keys[1..]);
      FrameRoundTrip(ms[0], keys[0], tail);
      StreamRoundTrip(ms[1..], keys[1..]);
      assert [ms[0]] + ms[1..] == ms;
    }
  }

  /** The server's own frames carry no mask bit: its reader refuses them and hangs up. */
  lemma UnmaskedIsRefused(opcode: Octet, payload: seq<Octet>, tail: seq<Octet>)
    requires opcode < 0x10 && |payload| < TOO_BIG
    ensures var r := ReadNext(Header(opcode, |payload|, 0) + payload + tail);
            r.outcome == Refused && !r.keepAlive
  {
    var header := Header(opcode, |payload|, 0);
    var input := header + payload + tail;
    assert input[0] == header[0] && input[1] == header[1];
  }

  /** What becomes of a frame with a mask bit, by its opcode: text, ping and pong are read; a
      continuation or binary frame is passed over with its payload unread; a close frame, like
      any other, ends the connection. */
  lemma FrameByOpcode(m: Message, key: seq<Octet>, tail: seq<Octet>)
    requires m.opcode < 0x10 && |m.payload| < TOO_BIG && |key| == 4
    ensures var input := ClientFrame(m, key) + tail;
            var r := ReadNext(input);
            && (m.opcode == 1 || m.opcode == 9 || m.opcode == 10 ==> r == Read(Delivered(m), tail, true))
            && (m.opcode == 0 || m.opcode == 2 ==>
                  r == Read(Refused, input[2..], true) && Serve(input) == Serve(input[2..]))
            && (m.opcode == 8 ==> r == Read(Refused, input[2..], false) && Serve(input) == ([], input[2..]))
            && (3 <= m.opcode < 8 || m.opcode > 10 ==> r == Read(Refused, input[2..], false))
  {
    var head := Header(m.opcode, |m.payload|, MASKED);
    var input := ClientFrame(m, key) + tail;
    HeaderAnnounces(m.opcode, |m.payload|, MASKED);
    assert input[0] == head[0] && input[1] == head[1];
    if HasHandler(m.opcode) {
      FrameRoundTrip(m, key, tail);
    } else {
      ServeFirst(input);
      assert [] + Serve(input[2..]).0 == Serve(input[2..]).0;
    }
  }

  /** A frame without mask bit ends the connection whatever its opcode, and so does the end of
      the input. */
  lemma UnmaskedByFirstBytes(b1: Octet, b2: Octet, rest: seq<Octet>)
    requires b2 < 0x80
    ensures ReadNext([b1, b2] + rest) == Read(Refused, rest, false)
    ensures ReadNext([]) == ReadNext([b1]) == Read(Refused, [], false)
  {
    ReadNextOf(b1, b2, rest);
  }

  // ---- The length form is minimal ----

  /** The bytes a header takes, by its seven length bits. */
  function HeaderSize(b2: Octet): nat {
    var length := Low7(b2);
    if length == 126 then 4 else if length == 127 then 10 else 2
  }

  /** The payload length a complete header announces. */
  function Announced(header: seq<Octet>): nat
    requires |header| >= 2 && |header| == HeaderSize(header[1])
  {
    if |header| == 2 then Low7(header[1]) else FromBigEndian(header[2..])
  }

  /** No header that announces the length is shorter than the one chosen, and the one chosen
      announces it. */
  lemma HeaderIsMinimal(header: seq<Octet>, opcode: Octet, mask: Octet)
    requires |header| >= 2 && |header| == HeaderSize(header[1])
    requires opcode < 0x10 && (mask == 0 || mask == MASKED)
    ensures Announced(header) < TOO_BIG
    ensures |Header(opcode, Announced(header), mask)| <= |header|
  {
    Pow256Values();
    FromBigEndianBound(header[2..]);
  }

  lemma HeaderAnnounces(opcode: Octet, length: nat, mask: Octet)
    requires opcode < 0x10 && length < TOO_BIG && (mask == 0 || mask == MASKED)
    ensures var h := Header(opcode, length, mask);
            && |h| >= 2 && |h| == HeaderSize(h[1]) && Announced(h) == length
            && h[0] == 0x80 + opcode && Low4(h[0]) == opcode && (TopBit(h[1]) <==> mask == MASKED)
  {
    var h := Header(opcode, length, mask);
    Pow256Values();
    if length <= 125 {
      FirstBytes(opcode, length);
    } else {
      var low, k := if length <= 65535 then PAYLOAD_LEN_EXT16 else PAYLOAD_LEN_EXT64, if length <= 65535 then 2 else 8;
      FirstBytes(opcode, low);
      BigEndianRoundTrip(length, k);
      assert h[0] == FIN + opcode && h[1] == mask + low && h[2..] == BigEndian(length, k);
    }
  }

  // ---- The handler ----

  class WebSocketHandler {
    var rfile: seq<Octet>   // input not yet read
    var sent: seq<Octet>    // output so far
    var keepAlive: bool
    var received: seq<Message>

    constructor (input: seq<Octet>)
      ensures rfile == input && sent == [] && keepAlive && received == []
    {
      rfile, sent, keepAlive, received := input, [], true, [];
    }

    /** send_text; false stands for the exception on a payload that is too long. */
    method SendText(payload: seq<Octet>, opcode: Octet) returns (ok: bool)
      requires opcode < 0x10
      modifies this`sent
      ensures ok <==> |payload| < TOO_BIG
      ensures sent == old(sent) + if ok then Header(opcode, |payload|, 0) + payload else []
    {
      var header: seq<Octet> := [];
      if |payload| <= 125 {
        header := header + [FIN + opcode];
        header := header + [|payload|];
      } else if |payload| >= 126 && |payload| <= 65535 {
        header := header + [FIN + opcode];
        header := header + [PAYLOAD_LEN_EXT16];
        header := header + BigEndian(|payload|, 2);
      } else if |payload| < TOO_BIG {
        header := header + [FIN + opcode];
        header := header + [PAYLOAD_LEN_EXT64];
        header := header + BigEndian(|payload|, 8);
      } else {
        assert sent + [] == sent;
        return false;
      }
      assert header == Header(opcode, |payload|, 0);
      sent := sent + (header + payload);
      return true;
    }

    method ReadBytes(n: nat) returns (bs: seq<Octet>)
      modifies this`rfile
      ensures bs == Taken(old(rfile), n) && rfile == Left(old(rfile), n)
    {
      if n <= |rfile| {
        bs, rfile := rfile[..n], rfile[n..];
      } else {
        bs, rfile := rfile, [];
      }
    }

    /** The exclusive-or loop. */
    method Unmask(bytes: seq<Octet>, masks: seq<Octet>) returns (message: seq<Octet>)
      requires bytes == [] || |masks| == 4
      ensures message == Masked(bytes, masks, 0)
      ensures forall i, k :: 0 <= i < |bytes| && 0 <= k < 8 ==>
                (Bit(message[i], k) == 1 <==> Bit(bytes[i], k) != Bit(masks[i % 4], k))
    {
      forall i, k | 0 <= i < |bytes| && 0 <= k < 8
        ensures Bit(Masked(bytes, masks, 0)[i], k) == 1 <==> Bit(bytes[i], k) != Bit(masks[i % 4], k)
      {
        MaskedBits(bytes, masks, i, k);
      }
      message := [];
      var i := 0;
      while i < |bytes|
        invariant 0 <= i <= |bytes| && |message| == i
        invariant Masked(bytes, masks, 0) == message + Masked(bytes[i..], masks, i)
      {
        var b := XorByte(bytes[i], masks[|message| % 4]);
        MaskedHead(bytes[i..], masks, i);
        assert bytes[i..][1..] == bytes[i + 1..];
        Regrouped(message, [b], Masked(bytes[i + 1..], masks, i + 1));
        message := message + [b];
        i := i + 1;
      }
    }

    /** read_next_message */
    method ReadNextMessage() returns (outcome: Outcome)
      modifies this`rfile, this`keepAlive, this`received
      ensures var r := ReadNext(old(rfile));
              && outcome == r.outcome && rfile == r.rest
              && keepAlive == (old(keepAlive) && r.keepAlive)
              && received == old(received) + if outcome.Delivered? then [outcome.message] else []
    {
      var b1: Octet, b2: Octet := 0, 0;
      var first := ReadBytes(2);
      if |first| == 2 {
        b1, b2 := first[0], first[1];
      }
      var opcode, masked, payloadLength: nat := Low4(b1), TopBit(b2), Low7(b2);
      outcome := Refused;
      if opcode == OPCODE_CLOSE_CONN {
        keepAlive := false;
        return;
      }
      if !masked {
        keepAlive := false;
        return;
      }
      if opcode == OPCODE_CONTINUATION {
        return;
      } else if opcode == OPCODE_BINARY {
        return;
      } else if opcode != OPCODE_TEXT && opcode != OPCODE_PING && opcode != OPCODE_PONG {
        keepAlive := false;
        return;
      }
      if payloadLength == 126 {
        var size := ReadBytes(2);
        if |size| < 2 {
          return Raised;
        }
        payloadLength := FromBigEndian(size);
      } else if payloadLength == 127 {
        var size := ReadBytes(8);
        if |size| < 8 {
          return Raised;
        }
        payloadLength := FromBigEndian(size);
      }
      var masks := ReadBytes(4);
      var bytes := ReadBytes(payloadLength);
      var message := Unmask(bytes, masks);
      received := received + [Message(opcode, message)];
      return Delivered(Message(opcode, message));
    }

    /** One turn of handle: as much of Serve as one read does. */
    method ServeOne() returns (failed: bool)
      requires keepAlive
      modifies this`rfile, this`keepAlive, this`received
      ensures failed || !keepAlive ==>
                received == old(received) + Serve(old(rfile)).0 && rfile == Serve(old(rfile)).1
      ensures |rfile| <= |old(rfile)|
      ensures !failed && keepAlive ==>
                && |rfile| < |old(rfile)|
                && received + Serve(rfile).0 == old(received) + Serve(old(rfile)).0
                && Serve(rfile).1 == Serve(old(rfile)).1
    {
      ReadConsumes(rfile);
      ServeStep(received, rfile);
      var outcome := ReadNextMessage();
      failed := outcome.Raised?;
    }

    /** handle after the handshake: read until the connection is to be closed. */
    method Handle()
      requires keepAlive
      modifies this
      ensures received == old(received) + Serve(old(rfile)).0
      ensures rfile == Serve(old(rfile)).1
    {
      ghost var all := received + Serve(rfile).0;
      ghost var unread := Serve(rfile).1;
      var failed := false;
      while keepAlive && !failed
        invariant keepAlive && !failed ==> received + Serve(rfile).0 == all && Serve(rfile).1 == unread
        invariant !keepAlive || failed ==> received == all && rfile == unread
        decreases |rfile|, keepAlive && !failed
      {
        failed := ServeOne();
      }
    }
  }
}
