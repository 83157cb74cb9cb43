/** Packets on the wire: framing with a checksum, and the receive loop that reassembles them. */
module GdbLink {
  import Bytes
  import opened GdbCodec
  import opened Results

  const PLUS: Bytes.byte := 43   // '+'

  type bytes = seq<Bytes.byte>

  /** A lower-case hexadecimal digit. */
  function HexDigit(n: int): Bytes.byte
    requires 0 <= n < 16
  {
    if n < 10 then 48 + n else 87 + n
  }

  function ParseHex(c: Bytes.byte): Option<int> {
    if 48 <= c <= 57 then Some(c - 48)
    else if 97 <= c <= 102 then Some(c - 87)
    else if 65 <= c <= 70 then Some(c - 55)
    else None
  }

  function Hex2(n: int): (r: bytes)
    requires 0 <= n < 256
    ensures |r| == 2
  {
    [HexDigit(n / 16), HexDigit(n % 16)]
  }

  function FrameWith(body: bytes, sum: int): bytes
    requires 0 <= sum < 256
  {
    [DOLLAR] + body + [HASH] + Hex2(sum)
  }

  function Frame(body: bytes): bytes {
    FrameWith(body, Checksum(body))
  }

  /** What send puts on the wire for a reply. */
  function Packet(d: bytes): bytes {
    Frame(Encode(d))
  }

  /** Position of the first '#', or the length if there is none. */
  function FirstHash(s: bytes): (k: nat)
    ensures k <= |s|
    ensures forall i :: 0 <= i < k ==> s[i] != HASH
    ensures k < |s| ==> s[k] == HASH
  {
    if s == [] || s[0] == HASH then 0 else 1 + FirstHash(s[1..])
  }

  datatype Match = Match(body: bytes, checksum: int)

  /** The packet pattern at the start of the buffer: a dollar, no hash, a hash, two hexadecimal digits. */
  function FindPacket(buffer: bytes): Option<Match> {
    if buffer == [] || buffer[0] != DOLLAR then None
    else
      var h := FirstHash(buffer);
      if h + 2 >= |buffer| then None
      else
        var hi, lo := ParseHex(buffer[h + 1]), ParseHex(buffer[h + 2]);
        if hi.None? || lo.None? then None else Some(Match(buffer[1..h], 16 * hi.value + lo.value))
  }

  function StripAck(buffer: bytes): bytes {
    if buffer != [] && buffer[0] == PLUS then buffer[1..] else buffer
  }

  /** One round of the loop: the new buffer, and the packet yielded or the error raised. */
  function Receive(buffer: bytes, incoming: bytes): (bytes, Result<Option<bytes>>) {
    var b := StripAck(buffer + incoming);
    var found := FindPacket(b);
    if found.None? then (b, Ok(None))
    else if found.value.checksum != Checksum(found.value.body) then (b, Err(ChecksumError))
    else ([], Ok(Some(Decode(found.value.body))))
  }

  /** Buffer, what each receive yielded, and the error that ended the loop. */
  datatype Session = Session(buffer: bytes, outputs: seq<Option<bytes>>, err: Option<Error>)

  /** What the loop does with a buffer and one receive. */
  type Step = (bytes, bytes) -> (bytes, Result<Option<bytes>>)

  /** The loop over received chunks; an empty one means the connection was closed. */
  function LinkBy(step: Step, buffer: bytes, chunks: seq<bytes>): Session
    decreases |chunks|
  {
    if chunks == [] || chunks[0] == [] then Session(buffer, [], None)
    else
      var (b, r) := step(buffer, chunks[0]);
      if r.Err? then Session(b, [], Some(r.error)) else Prefixed([r.value], LinkBy(step, b, chunks[1..]))
  }

  function Link(buffer: bytes, chunks: seq<bytes>): Session {
    LinkBy(Receive, buffer, chunks)
  }

  function Prefixed(outputs: seq<Option<bytes>>, s: Session): Session {
    s.(outputs := outputs + s.outputs)
  }

  /** The body of the loop for one non-empty receive. */
  method Round(buffer: bytes, incoming: bytes) returns (rest: bytes, r: Result<Option<bytes>>)
    ensures (rest, r) == Receive(buffer, incoming)
  {
    rest := buffer + incoming;
    if rest != [] && rest[0] == PLUS {
      rest := rest[1..];
    }
    var packet := FindPacket(rest);
    if packet.None? {
      return rest, Ok(None);
    }
    if packet.value.checksum != Checksum(packet.value.body) {
      return rest, Err(ChecksumError);
    }
    var data := RleDecode(packet.value.body);
    return [], Ok(Some(Unescape(data)));
  }

  method ReadPackets(chunks: seq<bytes>) returns (s: Session)
    ensures s == Link([], chunks)
  {
    var buffer: bytes := [];
    var outputs: seq<Option<bytes>> := [];
    for i := 0 to |chunks|
      invariant Link([], chunks) == Prefixed(outputs, Link(buffer, chunks[i..]))
    {
      var incoming := chunks[i];
      if incoming == [] {
        return Session(buffer, outputs, None);
      }
      var rest, r := Round(buffer, incoming);
      buffer := rest;
      if r.Err? {
        return Session(buffer, outputs, Some(r.error));
      }
      outputs := outputs + [r.value];
    }
    return Session(buffer, outputs, None);
  }

  // ----- one frame -----

  lemma FirstHashOfFrame(body: bytes, sum: int, rest: bytes)
    requires Unstructured(body) && 0 <= sum < 256
    ensures FirstHash(FrameWith(body, sum) + rest) == |body| + 1
  {
    var s := FrameWith(body, sum) + rest;
    var k := FirstHash(s);
    assert s[|body| + 1] == HASH;
    assert forall i :: 1 <= i < |body| + 1 ==> s[i] == body[i - 1];
  }

  /** A complete frame is recognised whatever follows it. */
  lemma FrameFound(body: bytes, sum: int, rest: bytes)
    requires Unstructured(body) && 0 <= sum < 256
    ensures FindPacket(FrameWith(body, sum) + rest) == Some(Match(body, sum))
  {
    var s := FrameWith(body, sum) + rest;
    FirstHashOfFrame(body, sum, rest);
    assert s[1..|body| + 1] == body;
    assert s[|body| + 2] == Hex2(sum)[0] && s[|body| + 3] == Hex2(sum)[1];
  }

  /** No proper prefix of a frame is taken for a packet. */
  lemma PrefixNotFound(body: bytes, sum: int, n: nat)
    requires Unstructured(body) && 0 <= sum < 256 && n < |FrameWith(body, sum)|
    ensures FindPacket(FrameWith(body, sum)[..n]).None?
  {
    var p := FrameWith(body, sum)[..n];
    var k := FirstHash(p);
    if n > |body| + 1 {
      assert p[|body| + 1] == HASH;
    }
    assert forall i :: 1 <= i < |body| + 1 && i < n ==> p[i] == body[i - 1];
  }

  /** Digits are lower-case on the way out, and of either case on the way in. */
  lemma HexDigits(c: Bytes.byte)
    ensures forall n :: 0 <= n < 16 ==> HexDigit(n) == "0123456789abcdef"[n] as int
    ensures forall n :: 0 <= n < 16 ==> ParseHex("0123456789abcdef"[n] as int) == Some(n)
    ensures forall n :: 0 <= n < 16 ==> ParseHex("0123456789ABCDEF"[n] as int) == Some(n)
    ensures (forall n :: 0 <= n < 16 ==> c != "0123456789abcdef"[n] as int && c != "0123456789ABCDEF"[n] as int) ==>
            ParseHex(c) == None
  {
    if ParseHex(c).Some? {
      var n := ParseHex(c).value;
      assert c == "0123456789abcdef"[n] as int || c == "0123456789ABCDEF"[n] as int;
    }
  }

  /** A frame at the very start: a dollar, a body without a hash, a hash and two hexadecimal digits. */
  predicate StartsFrame(buffer: bytes, body: bytes, hi: Bytes.byte, lo: Bytes.byte) {
    && [36] + body + [35, hi, lo] <= buffer && 35 !in body
    && ParseHex(hi).Some? && ParseHex(lo).Some?
  }

  /** What is found is there, and what is there is found. */
  lemma FindPacketExact(buffer: bytes, body: bytes, hi: Bytes.byte, lo: Bytes.byte)
    ensures StartsFrame(buffer, body, hi, lo) ==>
            FindPacket(buffer) == Some(Match(body, 16 * ParseHex(hi).value + ParseHex(lo).value))
    ensures FindPacket(buffer).Some? ==>
            exists b: bytes, h: Bytes.byte, l: Bytes.byte :: StartsFrame(buffer, b, h, l)
  {
    if StartsFrame(buffer, body, hi, lo) {
      FindStarted(buffer, body, hi, lo);
    }
    if FindPacket(buffer).Some? {
      var h := FirstHash(buffer);
      var b := buffer[1..h];
      assert [36] + b + [35, buffer[h + 1], buffer[h + 2]] == buffer[..h + 3];
      assert StartsFrame(buffer, b, buffer[h + 1], buffer[h + 2]);
    }
  }

  lemma FindStarted(buffer: bytes, body: bytes, hi: Bytes.byte, lo: Bytes.byte)
    requires StartsFrame(buffer, body, hi, lo)
    ensures FindPacket(buffer) == Some(Match(body, 16 * ParseHex(hi).value + ParseHex(lo).value))
  {
    var f := [36] + body + [35, hi, lo];
    var n := |body|;
    assert buffer[..n + 4] == f;
    assert buffer[0] == f[0] && buffer[n + 1] == f[n + 1] && buffer[n + 2] == f[n + 2] && buffer[n + 3] == f[n + 3];
    assert forall i :: 1 <= i < n + 1 ==> buffer[i] == f[i] == body[i - 1];
    assert FirstHash(buffer) == n + 1;
    assert buffer[1..n + 1] == body;
  }

  /** One acknowledgement at the start is dropped; without a frame behind it nothing else happens. */
  lemma ReceiveCases(buffer: bytes, incoming: bytes, b: bytes)
    requires buffer + incoming == [43] + b || (buffer + incoming == b && (b == [] || b[0] != 43))
    ensures FindPacket(b).None? ==> Receive(buffer, incoming) == (b, Ok(None))
    ensures FindPacket(b).Some? ==>
              var found := FindPacket(b).value;
              Receive(buffer, incoming) ==
              if found.checksum == Sum(found.body) % 256 then ([], Ok(Some(Unescape(RleDecode(found.body)))))
              else (b, Err(ChecksumError))
  {
    assert ([43] + b)[1..] == b;
  }

  /** The loop ends with the connection, at the first error, or when nothing more arrives. */
  lemma LinkCases(buffer: bytes, chunks: seq<bytes>)
    ensures chunks == [] || chunks[0] == [] ==> Link(buffer, chunks) == Session(buffer, [], None)
    ensures chunks != [] && chunks[0] != [] ==>
              var (b, r) := Receive(buffer, chunks[0]);
              && (r.Err? ==> Link(buffer, chunks) == Session(b, [], Some(r.error)))
              && (r.Ok? ==>
                  var rest := Link(b, chunks[1..]);
                  Link(buffer, chunks) == Session(rest.buffer, [r.value] + rest.outputs, rest.err))
  {
  }

  // ----- one frame in chunks -----

  function Concat(chunks: seq<bytes>): bytes {
    if chunks == [] then [] else chunks[0] + Concat(chunks[1..])
  }

  ghost predicate NonEmptyAll(chunks: seq<bytes>) {
    forall i :: 0 <= i < |chunks| ==> chunks[i] != []
  }

  /** A frame, with or without an acknowledgement before it. */
  function Sent(ack: bool, body: bytes, sum: int): bytes
    requires 0 <= sum < 256
  {
    (if ack then [PLUS] else []) + FrameWith(body, sum)
  }

  /** The buffer after the first n bytes of it, n short of all of them. */
  function Pending(ack: bool, body: bytes, sum: int, n: nat): bytes
    requires 0 <= sum < 256 && n < |Sent(ack, body, sum)|
  {
    StripAck(Sent(ack, body, sum)[..n])
  }

  lemma PendingShape(ack: bool, body: bytes, sum: int, n: nat) returns (k: nat)
    requires 0 <= sum < 256 && n < |Sent(ack, body, sum)|
    ensures k < |FrameWith(body, sum)| && Pending(ack, body, sum, n) == FrameWith(body, sum)[..k]
  {
    var a, f := Sent(ack, body, sum), FrameWith(body, sum);
    k := if ack && n > 0 then n - 1 else n;
    assert ack && n > 0 ==> a[..n] == [PLUS] + f[..n - 1];
    assert !ack && n > 0 ==> a[..n] == f[..n] && a[..n][0] == DOLLAR;
    assert Pending(ack, body, sum, n) == f[..k];
  }

  lemma StripGrows(ack: bool, body: bytes, sum: int, n: nat, chunk: bytes)
    requires 0 <= sum < 256 && chunk != [] && n + |chunk| <= |Sent(ack, body, sum)|
    requires chunk == Sent(ack, body, sum)[n..n + |chunk|]
    ensures StripAck(StripAck(Sent(ack, body, sum)[..n]) + chunk) == StripAck(Sent(ack, body, sum)[..n + |chunk|])
  {
    var a := Sent(ack, body, sum);
    var p := a[..n];
    assert a[..n + |chunk|] == p + chunk;
    assert a[0] == if ack then PLUS else DOLLAR;
    assert ack ==> a[1] == DOLLAR;
    if n > 0 {
      assert p[0] == a[0];
      if ack {
        assert p == [PLUS] + p[1..] && StripAck(p) == p[1..];
        assert n > 1 ==> p[1..][0] == DOLLAR;
        assert n == 1 ==> chunk[0] == DOLLAR;
        assert StripAck(p[1..] + chunk) == p[1..] + chunk;
        assert (p + chunk)[1..] == p[1..] + chunk;
      }
    }
  }

  /** A receive that does not complete the frame only grows the buffer. */
  lemma ReceivePart(ack: bool, body: bytes, sum: int, n: nat, chunk: bytes)
    requires Unstructured(body) && 0 <= sum < 256 && chunk != [] && n + |chunk| < |Sent(ack, body, sum)|
    requires chunk == Sent(ack, body, sum)[n..n + |chunk|]
    ensures Receive(Pending(ack, body, sum, n), chunk) == (Pending(ack, body, sum, n + |chunk|), Ok(None))
  {
    StripGrows(ack, body, sum, n, chunk);
    var k := PendingShape(ack, body, sum, n + |chunk|);
    PrefixNotFound(body, sum, k);
  }

  lemma StripAppend(x: bytes, rest: bytes)
    requires x != []
    ensures StripAck(x + rest) == StripAck(x) + rest
  {
  }

  lemma CompletedBuffer(ack: bool, body: bytes, sum: int, n: nat, chunk: bytes, rest: bytes)
    requires 0 <= sum < 256 && n < |Sent(ack, body, sum)| && chunk == Sent(ack, body, sum)[n..]
    ensures StripAck(Pending(ack, body, sum, n) + (chunk + rest)) == FrameWith(body, sum) + rest
  {
    var a, p := Sent(ack, body, sum), Pending(ack, body, sum, n);
    assert chunk == a[n..n + |chunk|] && a[..n + |chunk|] == a;
    StripGrows(ack, body, sum, n, chunk);
    assert StripAck(a) == FrameWith(body, sum);
    Assoc(p, chunk, rest);
    StripAppend(p + chunk, rest);
  }

  /** The receive that completes it yields the body or rejects the checksum, and drops whatever came with it. */
  lemma ReceiveEnd(ack: bool, body: bytes, sum: int, n: nat, chunk: bytes, rest: bytes)
    requires Unstructured(body) && 0 <= sum < 256
    requires n < |Sent(ack, body, sum)| && chunk == Sent(ack, body, sum)[n..]
    ensures var r := Receive(Pending(ack, body, sum, n), chunk + rest);
            && (sum == Checksum(body) ==> r == ([], Ok(Some(Decode(body)))))
            && (sum != Checksum(body) ==> r.1 == Err(ChecksumError))
  {
    CompletedBuffer(ack, body, sum, n, chunk, rest);
    FrameFound(body, sum, rest);
  }

  /** Receives that yield nothing. */
  function Nothing(n: nat): (r: seq<Option<bytes>>)
    ensures |r| == n && forall i :: 0 <= i < n ==> r[i] == None
  {
    seq(n, i => None)
  }

  lemma FirstChunk(a: bytes, n: nat, chunks: seq<bytes>)
    requires n < |a| && Concat(chunks) == a[n..] && NonEmptyAll(chunks)
    ensures chunks != []
    ensures var c, tail := chunks[0], chunks[1..];
            && n + |c| <= |a| && c == a[n..n + |c|] && Concat(tail) == a[n + |c|..]
            && (tail == [] <==> n + |c| == |a|)
  {
    var c, tail := chunks[0], chunks[1..];
    assert a[n..] == c + Concat(tail);
    if tail != [] {
      assert tail[0] == chunks[1] && Concat(tail) == tail[0] + Concat(tail[1..]);
    }
  }

  /** Receives short of the end only take pending(k), the buffer after k bytes of a, further. */
  ghost predicate Grows(step: Step, a: bytes, pending: int -> bytes) {
    forall k, c {:trigger step(pending(k), c)} ::
      0 <= k && c != [] && k + |c| < |a| && c == a[k..k + |c|] ==> step(pending(k), c) == (pending(k + |c|), Ok(None))
  }

  lemma PrefixedTwice(xs: seq<Option<bytes>>, ys: seq<Option<bytes>>, s: Session)
    ensures Prefixed(xs, Prefixed(ys, s)) == Prefixed(xs + ys, s)
  {
    assert xs + (ys + s.outputs) == (xs + ys) + s.outputs;
  }

  lemma PrefixedNothing(s: Session)
    ensures Prefixed(Nothing(0), s) == s
  {
    assert |Nothing(0)| == 0;
    assert Nothing(0) + s.outputs == s.outputs;
  }

  /** All but the last chunk are taken in silence. */
  lemma {:induction false} QuietUntilLast(step: Step, a: bytes, pending: int -> bytes, n: nat, chunks: seq<bytes>)
    returns (m: nat)
    requires Grows(step, a, pending) && n < |a| && Concat(chunks) == a[n..] && NonEmptyAll(chunks)
    ensures chunks != [] && m < |a| && chunks[|chunks| - 1] == a[m..]
    ensures LinkBy(step, pending(n), chunks) ==
            Prefixed(Nothing(|chunks| - 1), LinkBy(step, pending(m), [a[m..]]))
    decreases |chunks|
  {
    FirstChunk(a, n, chunks);
    var c, tail := chunks[0], chunks[1..];
    if tail == [] {
      m := n;
      assert |chunks| == 1 && c == a[n..];
      assert chunks == [a[m..]];
      PrefixedNothing(LinkBy(step, pending(m), chunks));
    } else {
      assert step(pending(n), c) == (pending(n + |c|), Ok(None));
      m := QuietUntilLast(step, a, pending, n + |c|, tail);
      PrefixedTwice([None], Nothing(|tail| - 1), LinkBy(step, pending(m), [a[m..]]));
      assert [None] + Nothing(|tail| - 1) == Nothing(|tail|);
    }
  }

  function PendingOf(ack: bool, body: bytes, sum: int): int -> bytes
    requires 0 <= sum < 256
  {
    (k: int) => if 0 <= k < |Sent(ack, body, sum)| then Pending(ack, body, sum, k) else []
  }

  lemma SentGrows(ack: bool, body: bytes, sum: int)
    requires Unstructured(body) && 0 <= sum < 256
    ensures Grows(Receive, Sent(ack, body, sum), PendingOf(ack, body, sum))
  {
    var a, pending := Sent(ack, body, sum), PendingOf(ack, body, sum);
    forall k, c | 0 <= k && c != [] && k + |c| < |a| && c == a[k..k + |c|]
      ensures Receive(pending(k), c) == (pending(k + |c|), Ok(None))
    {
      assert pending(k) == Pending(ack, body, sum, k) && pending(k + |c|) == Pending(ack, body, sum, k + |c|);
      ReceivePart(ack, body, sum, k, c);
    }
  }

  lemma SentInChunks(ack: bool, body: bytes, sum: int, chunks: seq<bytes>) returns (m: nat)
    requires Unstructured(body) && 0 <= sum < 256 && Concat(chunks) == Sent(ack, body, sum) && NonEmptyAll(chunks)
    ensures chunks != [] && m < |Sent(ack, body, sum)|
    ensures var a := Sent(ack, body, sum);
            Link([], chunks) ==
            Prefixed(Nothing(|chunks| - 1), LinkBy(Receive, Pending(ack, body, sum, m), [a[m..]]))
  {
    var a, pending := Sent(ack, body, sum), PendingOf(ack, body, sum);
    SentGrows(ack, body, sum);
    assert a[0..] == a && pending(0) == [];
    m := QuietUntilLast(Receive, a, pending, 0, chunks);
  }

  lemma LinkOne(step: Step, buffer: bytes, c: bytes)
    requires c != []
    ensures var (b, r) := step(buffer, c);
            LinkBy(step, buffer, [c]) == if r.Err? then Session(b, [], Some(r.error)) else Session(b, [r.value], None)
  {
    var none: seq<bytes> := [c][1..];
    assert none == [];
  }

  /** What arrives for one message: a frame, with or without an acknowledgement before it. */
  function Arrival(ack: bool, d: bytes): bytes {
    Sent(ack, Encode(d), Checksum(Encode(d)))
  }

  lemma EndOf(ack: bool, body: bytes, sum: int, n: nat)
    requires Unstructured(body) && 0 <= sum < 256 && n < |Sent(ack, body, sum)|
    ensures var r := Receive(Pending(ack, body, sum, n), Sent(ack, body, sum)[n..]);
            && (sum == Checksum(body) ==> r == ([], Ok(Some(Decode(body)))))
            && (sum != Checksum(body) ==> r.1 == Err(ChecksumError))
  {
    var c := Sent(ack, body, sum)[n..];
    assert c + [] == c;
    ReceiveEnd(ack, body, sum, n, c, []);
  }

  /**
    However one arrival is cut into non-empty chunks, the loop yields the message
    exactly once, at the last chunk, and leaves an empty buffer.
  */
  lemma Reassembled(ack: bool, d: bytes, chunks: seq<bytes>)
    requires Concat(chunks) == Arrival(ack, d) && NonEmptyAll(chunks)
    ensures chunks != []
    ensures Link([], chunks) == Session([], Nothing(|chunks| - 1) + [Some(d)], None)
  {
    var body := Encode(d);
    EncodeUnstructured(d);
    var m := SentInChunks(ack, body, Checksum(body), chunks);
    EndOf(ack, body, Checksum(body), m);
    DecodeEncode(d);
    LinkOne(Receive, Pending(ack, body, Checksum(body), m), Arrival(ack, d)[m..]);
  }

  /** However a frame with a wrong checksum is cut, it ends the loop at its last chunk with nothing delivered. */
  lemma WrongChecksumRaises(ack: bool, body: bytes, sum: int, chunks: seq<bytes>)
    requires Unstructured(body) && 0 <= sum < 256 && sum != Checksum(body)
    requires Concat(chunks) == Sent(ack, body, sum) && NonEmptyAll(chunks)
    ensures chunks != []
    ensures Link([], chunks).outputs == Nothing(|chunks| - 1) && Link([], chunks).err == Some(ChecksumError)
  {
    var m := SentInChunks(ack, body, sum, chunks);
    EndOf(ack, body, sum, m);
    LinkOne(Receive, Pending(ack, body, sum, m), Sent(ack, body, sum)[m..]);
  }

  // ----- a conversation -----

  /** A message and whether the peer acknowledges the previous one before it. */
  datatype Message = Message(ack: bool, data: bytes) {
    function Bytes(): (a: bytes)
      ensures |a| > 0
    {
      Arrival(ack, data)
    }
  }

  /** What arrives for a conversation. */
  function Stream(ms: seq<Message>): bytes {
    if ms == [] then [] else ms[0].Bytes() + Stream(ms[1..])
  }

  /** Where the first i arrivals end. */
  function End(ms: seq<Message>, i: nat): nat
    requires i <= |ms|
  {
    if i == 0 then 0 else |ms[0].Bytes()| + End(ms[1..], i - 1)
  }

  /** Some receive ends at offset t. */
  predicate CutAt(chunks: seq<bytes>, t: int) {
    t == 0 || (chunks != [] && |chunks[0]| <= t && CutAt(chunks[1..], t - |chunks[0]|))
  }

  /** A receive ends where arrival i ends, or just behind the acknowledgement that the next one starts with. */
  predicate CleanAt(ms: seq<Message>, chunks: seq<bytes>, n: nat, i: nat)
    requires i < |ms|
  {
    var t := End(ms, i + 1) - n;
    CutAt(chunks, t) || (i + 1 < |ms| && ms[i + 1].ack && CutAt(chunks, t + 1))
  }

  /** ... for every arrival, n bytes of the conversation being received already. */
  ghost predicate Clean(ms: seq<Message>, chunks: seq<bytes>, n: nat) {
    forall i {:trigger CleanAt(ms, chunks, n, i)} :: 0 <= i < |ms| ==> CleanAt(ms, chunks, n, i)
  }

  function Delivered(outputs: seq<Option<bytes>>): seq<bytes> {
    if outputs == [] then []
    else if outputs[0].Some? then [outputs[0].value] + Delivered(outputs[1..])
    else Delivered(outputs[1..])
  }

  function Payloads(ms: seq<Message>): seq<bytes> {
    if ms == [] then [] else [ms[0].data] + Payloads(ms[1..])
  }

  lemma {:induction false} PayloadsLength(ms: seq<Message>)
    ensures |Payloads(ms)| == |ms|
  {
    if ms != [] {
      PayloadsLength(ms[1..]);
    }
  }

  /** A receive before the end of the first arrival. */
  lemma {:induction false} CleanPart(ms: seq<Message>, chunks: seq<bytes>, n: nat)
    requires ms != [] && chunks != [] && n + |chunks[0]| < |ms[0].Bytes()|
    ensures Clean(ms, chunks, n) <==> Clean(ms, chunks[1..], n + |chunks[0]|)
  {
    var m := n + |chunks[0]|;
    forall i | 0 <= i < |ms| ensures CleanAt(ms, chunks, n, i) <==> CleanAt(ms, chunks[1..], m, i) {
      assert End(ms, i + 1) > m;
    }
  }

  /** The ends of a conversation's arrivals are those of the rest of it, counted from behind the first chunk. */
  predicate EndShifts(ms: seq<Message>, rest: seq<Message>, chunks: seq<bytes>, n: nat, i: nat)
    requires i < |rest| == |ms| - 1 && chunks != []
  {
    End(ms, i + 2) == End(rest, i + 1) + n + |chunks[0]|
  }

  lemma {:induction false} CleanShift(ms: seq<Message>, rest: seq<Message>, chunks: seq<bytes>, n: nat, i: nat)
    requires ms != [] && chunks != [] && |rest| == |ms| - 1 && i < |rest| && n <= |ms[0].Bytes()|
    requires EndShifts(ms, rest, chunks, n, i)
    requires i + 1 < |rest| ==> rest[i + 1].ack == ms[i + 2].ack
    ensures CleanAt(ms, chunks, n, i + 1) <==> CleanAt(rest, chunks[1..], 0, i)
  {
    assert End(rest, i + 1) > 0;
  }

  lemma {:induction false} CleanRest(ms: seq<Message>, rest: seq<Message>, chunks: seq<bytes>, n: nat)
    requires ms != [] && chunks != [] && |rest| == |ms| - 1 && n <= |ms[0].Bytes()| && CleanAt(ms, chunks, n, 0)
    requires forall i :: 0 <= i < |rest| ==> EndShifts(ms, rest, chunks, n, i)
    requires forall i :: 1 <= i < |rest| ==> rest[i].ack == ms[i + 1].ack
    ensures Clean(ms, chunks, n) <==> Clean(rest, chunks[1..], 0)
  {
    forall i | 0 <= i < |rest| ensures CleanAt(ms, chunks, n, i + 1) <==> CleanAt(rest, chunks[1..], 0, i) {
      CleanShift(ms, rest, chunks, n, i);
    }
    if Clean(rest, chunks[1..], 0) {
      forall j | 0 <= j < |ms| ensures CleanAt(ms, chunks, n, j) {
        assert j > 0 ==> CleanAt(rest, chunks[1..], 0, j - 1);
      }
    }
    if Clean(ms, chunks, n) {
      forall i | 0 <= i < |rest| ensures CleanAt(rest, chunks[1..], 0, i) {
        assert CleanAt(ms, chunks, n, i + 1);
      }
    }
  }

  /** A receive that ends with the first arrival. */
  lemma {:induction false} CleanEnd(ms: seq<Message>, chunks: seq<bytes>, n: nat)
    requires ms != [] && chunks != [] && n + |chunks[0]| == |ms[0].Bytes()|
    ensures Clean(ms, chunks, n) <==> Clean(ms[1..], chunks[1..], 0)
  {
    assert CutAt(chunks, End(ms, 1) - n);
    assert forall i :: 0 <= i < |ms[1..]| ==> EndShifts(ms, ms[1..], chunks, n, i);
    CleanRest(ms, ms[1..], chunks, n);
  }

  /** What is left of a conversation whose first byte, an acknowledgement, has been dropped. */
  function Unacked(ms: seq<Message>): (r: seq<Message>)
    requires ms != []
    ensures |r| == |ms| && r[0] == ms[0].(ack := false) && r[1..] == ms[1..]
  {
    [ms[0].(ack := false)] + ms[1..]
  }

  /** A receive that runs over by just the next acknowledgement. */
  lemma {:induction false} CleanAck(ms: seq<Message>, chunks: seq<bytes>, n: nat)
    requires |ms| > 1 && ms[1].ack && chunks != [] && n + |chunks[0]| == |ms[0].Bytes()| + 1
    requires n < |ms[0].Bytes()|
    ensures Clean(ms, chunks, n) <==> Clean(Unacked(ms[1..]), chunks[1..], 0)
  {
    var rest := Unacked(ms[1..]);
    assert CutAt(chunks, End(ms, 1) - n + 1);
    assert |rest[0].Bytes()| == |ms[1].Bytes()| - 1;
    forall i | 0 <= i < |rest| ensures EndShifts(ms, rest, chunks, n, i) {
      assert End(ms, i + 2) == |ms[0].Bytes()| + End(ms[1..], i + 1);
      assert rest[1..] == ms[1..][1..];
    }
    CleanRest(ms, rest, chunks, n);
  }

  /** A receive that runs over by more is not clean. */
  lemma {:induction false} NotClean(ms: seq<Message>, chunks: seq<bytes>, n: nat)
    requires ms != [] && chunks != [] && n < |ms[0].Bytes()| < n + |chunks[0]|
    requires |ms| > 1 && ms[1].ack ==> n + |chunks[0]| > |ms[0].Bytes()| + 1
    ensures !Clean(ms, chunks, n)
  {
    assert End(ms, 1) == |ms[0].Bytes()|;
    assert !CleanAt(ms, chunks, n, 0);
  }

  // ----- counting packet starts -----

  function Dollars(s: bytes): nat {
    if s == [] then 0 else (if s[0] == DOLLAR then 1 else 0) + Dollars(s[1..])
  }

  lemma {:induction false} DollarsConcat(x: bytes, y: bytes)
    ensures Dollars(x + y) == Dollars(x) + Dollars(y)
  {
    if x == [] {
      assert x + y == y;
    } else {
      assert (x + y)[1..] == x[1..] + y;
      DollarsConcat(x[1..], y);
    }
  }

  lemma {:induction false} NoDollars(s: bytes)
    requires forall i :: 0 <= i < |s| ==> s[i] != DOLLAR
    ensures Dollars(s) == 0
  {
    if s != [] {
      NoDollars(s[1..]);
    }
  }

  lemma FrameDollars(body: bytes, sum: int)
    requires Unstructured(body) && 0 <= sum < 256
    ensures Dollars(FrameWith(body, sum)) == 1
  {
    var s := FrameWith(body, sum);
    assert s[1..] == body + [HASH] + Hex2(sum);
    NoDollars(s[1..]);
  }

  lemma ArrivalDollars(m: Message)
    ensures Dollars(m.Bytes()) == 1
  {
    EncodeUnstructured(m.data);
    FrameDollars(Encode(m.data), Checksum(Encode(m.data)));
    if m.ack {
      assert m.Bytes()[1..] == Packet(m.data);
    } else {
      assert m.Bytes() == Packet(m.data);
    }
  }

  lemma {:induction false} StreamDollars(ms: seq<Message>)
    ensures Dollars(Stream(ms)) == |ms|
  {
    if ms != [] {
      ArrivalDollars(ms[0]);
      StreamDollars(ms[1..]);
      DollarsConcat(ms[0].Bytes(), Stream(ms[1..]));
    }
  }

  /** A step yields at most as many packets as it uses up packet starts. */
  ghost predicate SpendsDollars(step: Step) {
    forall b, c {:trigger step(b, c)} ::
      var (b', r) := step(b, c);
      Dollars(b') + (if r.Ok? && r.value.Some? then 1 else 0) <= Dollars(b) + Dollars(c)
  }

  lemma ReceiveSpends(b: bytes, c: bytes)
    ensures var (b', r) := Receive(b, c);
            Dollars(b') + (if r.Ok? && r.value.Some? then 1 else 0) <= Dollars(b) + Dollars(c)
  {
    DollarsConcat(b, c);
    var s := StripAck(b + c);
    assert Dollars(s) == Dollars(b + c);
    if FindPacket(s).Some? {
      assert s[0] == DOLLAR;
    }
  }

  lemma ReceiveSpendsDollars()
    ensures SpendsDollars(Receive)
  {
    forall b, c
      ensures var (b', r) := Receive(b, c);
              Dollars(b') + (if r.Ok? && r.value.Some? then 1 else 0) <= Dollars(b) + Dollars(c)
    {
      ReceiveSpends(b, c);
    }
  }

  lemma DeliveredFirst(y: Option<bytes>, ys: seq<Option<bytes>>)
    ensures Delivered([y] + ys) == (if y.Some? then [y.value] else []) + Delivered(ys)
  {
    assert ([y] + ys)[1..] == ys;
  }

  /** The loop delivers at most one packet for each packet start it is given. */
  lemma {:induction false} DeliveredBound(step: Step, b: bytes, chunks: seq<bytes>)
    requires SpendsDollars(step)
    ensures |Delivered(LinkBy(step, b, chunks).outputs)| <= Dollars(b) + Dollars(Concat(chunks))
    decreases |chunks|
  {
    if chunks != [] && chunks[0] != [] {
      var (b', r) := step(b, chunks[0]);
      DollarsConcat(chunks[0], Concat(chunks[1..]));
      if r.Ok? {
        DeliveredBound(step, b', chunks[1..]);
        DeliveredFirst(r.value, LinkBy(step, b', chunks[1..]).outputs);
      }
    }
  }

  // ----- the loop over a conversation -----

  /** The buffer when k bytes of a message's arrival are in. */
  function Kept(m: Message, k: int): bytes {
    if 0 <= k < |m.Bytes()| then Pending(m.ack, Encode(m.data), Checksum(Encode(m.data)), k) else []
  }

  /** Receives short of the end of an arrival only grow the buffer. */
  ghost predicate TakesPart(step: Step) {
    forall m: Message, k, c {:trigger step(Kept(m, k), c)} ::
      0 <= k && c != [] && k + |c| < |m.Bytes()| && c == m.Bytes()[k..k + |c|] ==>
      step(Kept(m, k), c) == (Kept(m, k + |c|), Ok(None))
  }

  /** The one that completes it delivers the message and drops what came with it. */
  ghost predicate TakesEnd(step: Step) {
    forall m: Message, k, c, rest {:trigger step(Kept(m, k), c + rest)} ::
      0 <= k < |m.Bytes()| && c == m.Bytes()[k..] ==> step(Kept(m, k), c + rest) == ([], Ok(Some(m.data)))
  }

  lemma ReceiveTakesPart()
    ensures TakesPart(Receive)
  {
    forall m: Message, k, c | 0 <= k && c != [] && k + |c| < |m.Bytes()| && c == m.Bytes()[k..k + |c|]
      ensures Receive(Kept(m, k), c) == (Kept(m, k + |c|), Ok(None))
    {
      EncodeUnstructured(m.data);
      ReceivePart(m.ack, Encode(m.data), Checksum(Encode(m.data)), k, c);
    }
  }

  lemma ReceiveTakesEnd()
    ensures TakesEnd(Receive)
  {
    forall m: Message, k, c, rest | 0 <= k < |m.Bytes()| && c == m.Bytes()[k..]
      ensures Receive(Kept(m, k), c + rest) == ([], Ok(Some(m.data)))
    {
      EncodeUnstructured(m.data);
      ReceiveEnd(m.ack, Encode(m.data), Checksum(Encode(m.data)), k, c, rest);
      DecodeEncode(m.data);
    }
  }

  /** A chunk and the rest against an arrival and what follows it. */
  lemma SplitChunk(a: bytes, s: bytes, n: nat, c: bytes, tail: bytes)
    requires n < |a| && c + tail == (a + s)[n..]
    ensures n + |c| < |a| ==> c == a[n..n + |c|] && tail == (a + s)[n + |c|..]
    ensures n + |c| >= |a| ==>
            var over := n + |c| - |a|; over <= |s| && c == a[n..] + s[..over] && tail == s[over..]
  {
    var x := (a + s)[n..];
    assert c == x[..|c|] && tail == x[|c|..];
  }

  /** Delivering in order, and what else holds when that happens or does not. */
  ghost predicate DeliversIff(s: Session, ms: seq<Message>, clean: bool) {
    && (clean ==> Delivered(s.outputs) == Payloads(ms) && s.buffer == [] && s.err == None)
    && (!clean ==> |Delivered(s.outputs)| < |ms|)
  }

  lemma {:induction false} AfterPart(step: Step, ms: seq<Message>, chunks: seq<bytes>, n: nat)
    requires TakesPart(step) && ms != [] && chunks != [] && chunks[0] != []
    requires n + |chunks[0]| < |ms[0].Bytes()| && chunks[0] == ms[0].Bytes()[n..n + |chunks[0]|]
    ensures var s := LinkBy(step, Kept(ms[0], n + |chunks[0]|), chunks[1..]);
            DeliversIff(s, ms, Clean(ms, chunks[1..], n + |chunks[0]|)) ==>
            DeliversIff(LinkBy(step, Kept(ms[0], n), chunks), ms, Clean(ms, chunks, n))
  {
    CleanPart(ms, chunks, n);
    var s := LinkBy(step, Kept(ms[0], n + |chunks[0]|), chunks[1..]);
    assert LinkBy(step, Kept(ms[0], n), chunks) == Prefixed([None], s);
    DeliveredFirst(None, s.outputs);
  }

  lemma {:induction false} AfterEnd(
    step: Step, ms: seq<Message>, rest: seq<Message>, chunks: seq<bytes>, n: nat, c: bytes, over: bytes)
    requires TakesEnd(step) && ms != [] && chunks != [] && n < |ms[0].Bytes()|
    requires c == ms[0].Bytes()[n..] && chunks[0] == c + over
    requires |rest| == |ms| - 1 && Payloads(rest) == Payloads(ms[1..])
    requires Clean(ms, chunks, n) <==> Clean(rest, chunks[1..], 0)
    requires DeliversIff(LinkBy(step, [], chunks[1..]), rest, Clean(rest, chunks[1..], 0))
    ensures DeliversIff(LinkBy(step, Kept(ms[0], n), chunks), ms, Clean(ms, chunks, n))
  {
    var s := LinkBy(step, [], chunks[1..]);
    assert LinkBy(step, Kept(ms[0], n), chunks) == Prefixed([Some(ms[0].data)], s);
    DeliveredFirst(Some(ms[0].data), s.outputs);
  }

  /** Once a packet start is dropped, one message too few can be delivered. */
  lemma {:induction false} AfterDrop(step: Step, ms: seq<Message>, chunks: seq<bytes>, n: nat, c: bytes, over: bytes)
    requires TakesEnd(step) && SpendsDollars(step) && ms != [] && chunks != [] && n < |ms[0].Bytes()|
    requires c == ms[0].Bytes()[n..] && chunks[0] == c + over && Dollars(over) > 0
    requires over + Concat(chunks[1..]) == Stream(ms[1..])
    ensures |Delivered(LinkBy(step, Kept(ms[0], n), chunks).outputs)| < |ms|
  {
    var s := LinkBy(step, [], chunks[1..]);
    assert LinkBy(step, Kept(ms[0], n), chunks) == Prefixed([Some(ms[0].data)], s);
    DeliveredFirst(Some(ms[0].data), s.outputs);
    DeliveredBound(step, [], chunks[1..]);
    StreamDollars(ms[1..]);
    DollarsConcat(over, Concat(chunks[1..]));
  }

  lemma AckedBytes(m: Message)
    requires m.ack
    ensures m.Bytes() == [PLUS] + m.(ack := false).Bytes()
  {
  }

  lemma DropFirst(x: Bytes.byte, a: bytes, s: bytes)
    ensures (([x] + a) + s)[1..] == a + s && (([x] + a) + s)[0] == x
  {
  }

  lemma {:induction false} UnackedStream(ms: seq<Message>)
    requires ms != [] && ms[0].ack
    ensures Stream(Unacked(ms)) == Stream(ms)[1..] && Stream(ms)[0] == PLUS
    ensures Payloads(Unacked(ms)) == Payloads(ms)
  {
    var us := Unacked(ms);
    AckedBytes(ms[0]);
    assert Stream(us) == us[0].Bytes() + Stream(ms[1..]);
    DropFirst(PLUS, us[0].Bytes(), Stream(ms[1..]));
  }

  /** An overrun that is more than the next acknowledgement takes a packet start with it. */
  lemma {:induction false} OverrunDollars(ms: seq<Message>, k: nat)
    requires ms != [] && k <= |Stream(ms)| && k > if ms[0].ack then 1 else 0
    ensures Dollars(Stream(ms)[..k]) > 0
  {
    var s := Stream(ms)[..k];
    var j := if ms[0].ack then 1 else 0;
    assert ms[0].Bytes()[j] == DOLLAR;
    assert s[j] == DOLLAR && s[0] == ms[0].Bytes()[0];
    assert j == 1 ==> s[1..][0] == DOLLAR;
  }

  lemma FirstOfStream(a: bytes, s: bytes, chunks: seq<bytes>, n: nat)
    requires n < |a| && Concat(chunks) == (a + s)[n..] && NonEmptyAll(chunks)
    ensures chunks != [] && NonEmptyAll(chunks[1..])
    ensures var c, tail := chunks[0], Concat(chunks[1..]);
            && (n + |c| < |a| ==> c == a[n..n + |c|] && tail == (a + s)[n + |c|..])
            && (n + |c| >= |a| ==>
                var k := n + |c| - |a|; k <= |s| && c == a[n..] + s[..k] && tail == s[k..])
  {
    SplitChunk(a, s, n, chunks[0], Concat(chunks[1..]));
  }

  /** The loop in the middle of an arrival. */
  lemma {:induction false} DeliversFrom(step: Step, ms: seq<Message>, chunks: seq<bytes>, n: nat)
    requires TakesPart(step) && TakesEnd(step) && SpendsDollars(step) && NonEmptyAll(chunks)
    requires ms != [] && n < |ms[0].Bytes()| && Concat(chunks) == Stream(ms)[n..]
    ensures DeliversIff(LinkBy(step, Kept(ms[0], n), chunks), ms, Clean(ms, chunks, n))
    decreases |chunks|, 0
  {
    FirstOfStream(ms[0].Bytes(), Stream(ms[1..]), chunks, n);
    if n + |chunks[0]| < |ms[0].Bytes()| {
      DeliversFrom(step, ms, chunks[1..], n + |chunks[0]|);
      AfterPart(step, ms, chunks, n);
    } else {
      DeliversPast(step, ms, chunks, n, n + |chunks[0]| - |ms[0].Bytes()|);
    }
  }

  /** The loop at a receive that completes an arrival and runs over by k bytes. */
  lemma {:induction false} DeliversPast(step: Step, ms: seq<Message>, chunks: seq<bytes>, n: nat, k: nat)
    requires TakesPart(step) && TakesEnd(step) && SpendsDollars(step)
    requires ms != [] && n < |ms[0].Bytes()| && chunks != [] && NonEmptyAll(chunks[1..])
    requires k <= |Stream(ms[1..])| && n + |chunks[0]| == |ms[0].Bytes()| + k
    requires chunks[0] == ms[0].Bytes()[n..] + Stream(ms[1..])[..k] && Concat(chunks[1..]) == Stream(ms[1..])[k..]
    ensures DeliversIff(LinkBy(step, Kept(ms[0], n), chunks), ms, Clean(ms, chunks, n))
    decreases |chunks| - 1, 2
  {
    var rest := ms[1..];
    var c, over := ms[0].Bytes()[n..], Stream(rest)[..k];
    if k == 0 {
      CleanEnd(ms, chunks, n);
      DeliversRest(step, rest, chunks[1..]);
      AfterEnd(step, ms, rest, chunks, n, c, over);
    } else if rest[0].ack && k == 1 {
      CleanAck(ms, chunks, n);
      UnackedStream(rest);
      DeliversRest(step, Unacked(rest), chunks[1..]);
      AfterEnd(step, ms, Unacked(rest), chunks, n, c, over);
    } else {
      NotClean(ms, chunks, n);
      OverrunDollars(rest, k);
      AfterDrop(step, ms, chunks, n, c, over);
    }
  }

  /** The loop between arrivals. */
  lemma {:induction false} DeliversRest(step: Step, ms: seq<Message>, chunks: seq<bytes>)
    requires TakesPart(step) && TakesEnd(step) && SpendsDollars(step) && NonEmptyAll(chunks)
    requires Concat(chunks) == Stream(ms)
    ensures DeliversIff(LinkBy(step, [], chunks), ms, Clean(ms, chunks, 0))
    decreases |chunks|, 1
  {
    if ms == [] {
      assert chunks == [];
    } else {
      assert Stream(ms)[0..] == Stream(ms);
      DeliversFrom(step, ms, chunks, 0);
    }
  }

  /**
    However the arrivals of a conversation are cut into non-empty chunks, all messages are delivered
    in order exactly if every chunk that completes an arrival ends there or runs over by just the
    acknowledgement the next one starts with; then the buffer is empty in the end.
  */
  lemma {:induction false} ConversationDelivered(ms: seq<Message>, chunks: seq<bytes>)
    requires Concat(chunks) == Stream(ms) && NonEmptyAll(chunks)
    ensures Delivered(Link([], chunks).outputs) == Payloads(ms) <==> Clean(ms, chunks, 0)
    ensures Clean(ms, chunks, 0) ==> Link([], chunks).buffer == [] && Link([], chunks).err == None
  {
    ReceiveTakesPart();
    ReceiveTakesEnd();
    ReceiveSpendsDollars();
    DeliversRest(Receive, ms, chunks);
    PayloadsLength(ms);
  }

  /** Otherwise messages are lost. */
  lemma {:induction false} PipelinedIsLost(ms: seq<Message>, chunks: seq<bytes>)
    requires Concat(chunks) == Stream(ms) && NonEmptyAll(chunks) && !Clean(ms, chunks, 0)
    ensures |Delivered(Link([], chunks).outputs)| < |ms|
  {
    ReceiveTakesPart();
    ReceiveTakesEnd();
    ReceiveSpendsDollars();
    DeliversRest(Receive, ms, chunks);
  }

  /** Of two packets that arrive in one receive the second is lost. */
  lemma SecondPacketIsLost(d: bytes, e: bytes)
    ensures Link([], [Packet(d) + Packet(e)]) == Session([], [Some(d)], None)
  {
    var body := Encode(d);
    EncodeUnstructured(d);
    assert Sent(false, body, Checksum(body))[0..] == Packet(d);
    assert Pending(false, body, Checksum(body), 0) == [];
    ReceiveEnd(false, body, Checksum(body), 0, Packet(d), Packet(e));
    DecodeEncode(d);
    LinkOne(Receive, [], Packet(d) + Packet(e));
  }
}
