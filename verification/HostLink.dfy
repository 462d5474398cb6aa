/**
 * The link from the host: frames of two leading bytes, a message type, a payload size and the
 * payload. Payloads of install messages go byte by byte to the install receiver, other payloads are
 * collected and dispatched.
 */
module HostLink {
  import opened Words
  import opened RestfulPacket
  import Aot = AotSections
  import Install = InstallReceiver

  const LEADING_0: byte := 0x12
  const LEADING_1: byte := 0x34
  const REQUEST_PACKET := 2
  const INSTALL_WASM_APP := 4
  /** The sender every request from the link is given. */
  const ID_HOST := -3

  datatype Phase = NonStart | Leading | Type | Size | Payload | Ignoring

  /**
   * The receive context. word holds the bytes of payload_size while they arrive, payload the bytes of
   * the payload buffer received so far. inner is the install receiver's own context.
   */
  datatype Link = Link(phase: Phase, size: nat, msgType: uint16, payloadSize: uint32, word: seq<byte>,
                       payload: Option<seq<byte>>, inner: Install.Ctx)

  /** What the outside sees: a request dispatched to a module, an app handed to the app manager. */
  datatype Event = Dispatch(r: Request) | InstallApp(msg: Install.Message)

  /** The context as memset leaves it; the install receiver is not touched. */
  function Cleared(inner: Install.Ctx): Link {
    Link(NonStart, 0, 0, 0, [], None, inner)
  }

  /** ch or-ed into the high byte of the type, then ntohs. */
  function TypeWord(msgType: uint16, ch: byte): uint16 {
    msgType % 0x100 * 0x100 + OrByte(msgType / 0x100, ch) as int
  }

  predicate InnerReady(l: Link) {
    Install.Ready(l.inner)
  }

  /** on_imrt_link_byte_arrive; the flag is its return value, the event what the install receiver hands over. */
  function ByteArrive(l: Link, ch: byte, env: Install.Env): (r: (Link, bool, Option<Install.Message>))
    requires InnerReady(l)
    ensures InnerReady(r.0)
  {
    match l.phase
    case NonStart =>
      var l := l.(payloadSize := 0, word := [], payload := None);
      (if ch == LEADING_0 then l.(phase := Leading) else l, false, None)
    case Leading =>
      (l.(phase := if ch == LEADING_1 then Type else NonStart), false, None)
    case Type =>
      if l.size == 0 then (l.(size := 1, msgType := ch), false, None)
      else (l.(phase := Size, size := 0, msgType := TypeWord(l.msgType, ch)), false, None)
    case Size =>
      var word := l.word + [ch];
      if |word| != 4 then (l.(word := word, size := l.size + 1), false, None)
      else
        var n := FromBE32(word);
        var l := l.(payloadSize := n, word := []);
        if n == 0 then (l.(phase := NonStart, size := 4, payload := None), true, None)
        else (l.(phase := Payload, size := 0,
                 payload := if l.msgType == INSTALL_WASM_APP then None else Some([])), false, None)
    case Payload =>
      if l.msgType == INSTALL_WASM_APP then PayloadToInstaller(l.(size := l.size + 1), ch, env)
      else
        var payload := (if l.payload.Some? then l.payload.value else []) + [ch];
        var l := l.(payload := Some(payload), size := l.size + 1);
        if l.size == l.payloadSize then (l.(phase := NonStart), true, None) else (l, false, None)
    case Ignoring =>
      (if l.size + 1 == l.payloadSize then Cleared(l.inner) else l.(size := l.size + 1), false, None)
  }

  /** received_size as the install receiver reports it for its next byte. */
  function Received(c: Install.Ctx): nat {
    if c.phase.ReqVer? then 1 else c.total + 1
  }

  function PayloadToInstaller(l: Link, ch: byte, env: Install.Env): (r: (Link, bool, Option<Install.Message>))
    requires InnerReady(l)
    ensures InnerReady(r.0)
  {
    var (inner, o) := Install.Step(l.inner, ch, l.payloadSize, env);
    var received, l := Received(l.inner), l.(inner := inner);
    match o
    case Refused =>
      (if l.size < l.payloadSize then l.(phase := Ignoring) else l.(phase := NonStart, size := 0), false, None)
    case Accepted =>
      if received == l.payloadSize then (l.(phase := NonStart), true, None) else (l, false, None)
    case Installed(msg) =>
      if received == l.payloadSize then (l.(phase := NonStart), true, Some(msg)) else (l, false, Some(msg))
  }

  /** One round of aee_host_msg_callback's loop. */
  function Receive(l: Link, ch: byte, env: Install.Env): (r: (Link, seq<Event>))
    requires InnerReady(l)
    ensures InnerReady(r.0)
  {
    var (l, complete, installed) := ByteArrive(l, ch, env);
    var events := if installed.Some? then [InstallApp(installed.value)] else [];
    if !complete then (l, events)
    else if l.payload.Some? && l.msgType == REQUEST_PACKET && l.payload.value != [] then
      match Unpack(l.payload.value)
      case Taken(r) => (Cleared(l.inner), events + [Dispatch(r.(sender := ID_HOST))])
      // The request is dispatched with a URL that depends on what lies behind the packet.
      case Unterminated => (Cleared(l.inner), events)
      case _ => (l, events)
    else (Cleared(l.inner), events)
  }

  function Feed(l: Link, bytes: seq<byte>, env: Install.Env): (r: (Link, seq<Event>))
    requires InnerReady(l)
    ensures InnerReady(r.0)
    decreases |bytes|
  {
    if bytes == [] then (l, [])
    else
      var (l1, e1) := Receive(l, bytes[0], env);
      var (l2, e2) := Feed(l1, bytes[1..], env);
      (l2, e1 + e2)
  }

  // ---- Pieces of the stream ----

  /** The callback, once per piece. */
  function FeedChunks(l: Link, chunks: seq<seq<byte>>, env: Install.Env): (r: (Link, seq<Event>))
    requires InnerReady(l)
    ensures InnerReady(r.0)
    decreases |chunks|
  {
    if chunks == [] then (l, [])
    else
      var (l1, e1) := Feed(l, chunks[0], env);
      var (l2, e2) := FeedChunks(l1, chunks[1..], env);
      (l2, e1 + e2)
  }

  function Flatten(chunks: seq<seq<byte>>): seq<byte> {
    if chunks == [] then [] else chunks[0] + Flatten(chunks[1..])
  }

  lemma {:induction false} FeedAppend(l: Link, xs: seq<byte>, ys: seq<byte>, env: Install.Env)
    requires InnerReady(l)
    ensures
      var (l1, e1) := Feed(l, xs, env);
      var (l2, e2) := Feed(l1, ys, env);
      Feed(l, xs + ys, env) == (l2, e1 + e2)
    decreases |xs|
  {
    if xs == [] {
      assert xs + ys == ys;
      assert [] + Feed(l, ys, env).1 == Feed(l, ys, env).1;
    } else {
      assert (xs + ys)[0] == xs[0] && (xs + ys)[1..] == xs[1..] + ys;
      var (l1, e1) := Receive(l, xs[0], env);
      FeedAppend(l1, xs[1..], ys, env);
      var (l2, e2) := Feed(l1, xs[1..], env);
      var e3 := Feed(l2, ys, env).1;
      assert e1 + (e2 + e3) == e1 + e2 + e3;
    }
  }

  /** How the stream is cut into pieces makes no difference. */
  lemma {:induction false} ChunksDoNotMatter(l: Link, chunks: seq<seq<byte>>, env: Install.Env)
    requires InnerReady(l)
    ensures FeedChunks(l, chunks, env) == Feed(l, Flatten(chunks), env)
    decreases |chunks|
  {
    if chunks != [] {
      FeedAppend(l, chunks[0], Flatten(chunks[1..]), env);
      ChunksDoNotMatter(Feed(l, chunks[0], env).0, chunks[1..], env);
    }
  }

  /** Receiving xs takes the link from l to l' and nothing is seen outside. */
  ghost predicate Quiet(l: Link, xs: seq<byte>, l': Link, env: Install.Env) {
    InnerReady(l) && InnerReady(l') && Feed(l, xs, env) == (l', [])
  }

  lemma FeedOne(l: Link, b: byte, env: Install.Env)
    requires InnerReady(l)
    ensures Feed(l, [b], env) == Receive(l, b, env)
  {
    var (l1, e1) := Receive(l, b, env);
    assert [b][1..] == [];
    assert e1 + [] == e1;
  }

  lemma QuietThen(l: Link, xs: seq<byte>, l1: Link, ys: seq<byte>, env: Install.Env)
    requires Quiet(l, xs, l1, env)
    ensures Feed(l, xs + ys, env) == Feed(l1, ys, env)
  {
    hide Receive;
    FeedAppend(l, xs, ys, env);
    assert [] + Feed(l1, ys, env).1 == Feed(l1, ys, env).1;
  }

  // ---- Frames ----

  /** A frame as app_manager_host_send_msg puts it on the wire. */
  function Frame(msgType: uint16, payload: seq<byte>): seq<byte>
    requires |payload| < 0x8000_0000
  {
    Header(msgType, |payload|) + payload
  }

  function Header(msgType: uint16, size: uint32): seq<byte> {
    [LEADING_0, LEADING_1] + BE16(msgType) + BE32(size)
  }

  /** exchange32: the byte order of a word, turned round in place. */
  method Exchange32(data: array<byte>, at: nat)
    requires at + 4 <= data.Length
    modifies data
    ensures data[at..at + 4] == [old(data[at + 3]), old(data[at + 2]), old(data[at + 1]), old(data[at])]
    ensures forall k :: 0 <= k < data.Length && !(at <= k < at + 4) ==> data[k] == old(data[k])
  {
    var value := data[at];
    data[at] := data[at + 3];
    data[at + 3] := value;
    value := data[at + 1];
    data[at + 1] := data[at + 2];
    data[at + 2] := value;
  }

  /** app_manager_host_send_msg on a little-endian host whose interface takes all bytes. */
  method SendMsg(msgType: int, buf: seq<byte>) returns (wire: seq<byte>)
    requires |buf| < 0x8000_0000
    ensures wire == Frame(msgType % 0x1_0000, buf)
  {
    var header := new byte[16];
    Store(header, 0, [LEADING_0, LEADING_1]);
    Store(header, 2, BE16(msgType % 0x1_0000));
    var size := new byte[4];
    Store(size, 0, LE32(|buf|));
    Exchange32(size, 0);
    assert size[0..4] == BE32(|buf|);
    Store(header, 4, size[..]);
    wire := header[..8] + buf;
    assert header[..8] == Header(msgType % 0x1_0000, |buf|);
  }

  /** Between frames; the other fields may be left from before. */
  predicate Idle(l: Link) {
    l.phase.NonStart? && l.size == 0
  }

  function InPayload(msgType: uint16, n: uint32, payload: Option<seq<byte>>, size: nat, inner: Install.Ctx): Link {
    Link(Payload, size, msgType, n, [], payload, inner)
  }

  lemma LeadingReceived(l: Link, env: Install.Env) returns (l': Link)
    requires l.phase.NonStart? && InnerReady(l)
    ensures l' == l.(phase := Type, payloadSize := 0, word := [], payload := None)
    ensures Quiet(l, [LEADING_0, LEADING_1], l', env)
  {
    FeedOne(l, LEADING_0, env);
    var l1 := Receive(l, LEADING_0, env).0;
    FeedOne(l1, LEADING_1, env);
    l' := Receive(l1, LEADING_1, env).0;
    QuietThen(l, [LEADING_0], l1, [LEADING_1], env);
    assert [LEADING_0] + [LEADING_1] == [LEADING_0, LEADING_1];
  }

  lemma TypeReceived(l: Link, msgType: uint16, env: Install.Env) returns (l': Link)
    requires l.phase.Type? && l.size == 0 && InnerReady(l)
    ensures l' == l.(phase := Size, msgType := msgType)
    ensures Quiet(l, BE16(msgType), l', env)
  {
    var b0, b1 := msgType / 0x100, msgType % 0x100;
    FeedOne(l, b0, env);
    var l1 := Receive(l, b0, env).0;
    FeedOne(l1, b1, env);
    l' := Receive(l1, b1, env).0;
    QuietThen(l, [b0], l1, [b1], env);
    assert [b0] + [b1] == BE16(msgType);
  }

  lemma {:induction false} SizeBytesReceived(l: Link, xs: seq<byte>, env: Install.Env) returns (l': Link)
    requires l.phase.Size? && l.size == |l.word| && |l.word| + |xs| < 4 && InnerReady(l)
    ensures l' == l.(size := l.size + |xs|, word := l.word + xs)
    ensures Quiet(l, xs, l', env)
    decreases |xs|
  {
    if xs == [] {
      l' := l;
      assert l.word + xs == l.word;
    } else {
      FeedOne(l, xs[0], env);
      var l1 := Receive(l, xs[0], env).0;
      l' := SizeBytesReceived(l1, xs[1..], env);
      QuietThen(l, [xs[0]], l1, xs[1..], env);
      assert [xs[0]] + xs[1..] == xs && l1.word + xs[1..] == l.word + xs;
    }
  }

  /** The payload size: an empty message ends here. */
  lemma SizeReceived(l: Link, w: seq<byte>, env: Install.Env)
    requires l.phase.Size? && l.size == 0 && l.word == [] && l.payload == None && |w| == 4 && InnerReady(l)
    ensures
      var n := FromBE32(w);
      Quiet(l, w, if n == 0 then Cleared(l.inner)
                  else InPayload(l.msgType, n, if l.msgType == INSTALL_WASM_APP then None else Some([]), 0, l.inner),
            env)
  {
    var l1 := SizeBytesReceived(l, w[..3], env);
    assert [] + w[..3] == w[..3] && w[..3] + [w[3]] == w;
    QuietThen(l, w[..3], l1, [w[3]], env);
    FeedOne(l1, w[3], env);
  }

  lemma HeaderReceived(l: Link, msgType: uint16, n: uint32, env: Install.Env)
    requires Idle(l) && InnerReady(l)
    ensures Quiet(l, Header(msgType, n),
                  if n == 0 then Cleared(l.inner)
                  else InPayload(msgType, n, if msgType == INSTALL_WASM_APP then None else Some([]), 0, l.inner), env)
  {
    var l1 := LeadingReceived(l, env);
    var l2 := TypeReceived(l1, msgType, env);
    BigEndianRoundTrip(msgType, n);
    SizeReceived(l2, BE32(n), env);
    QuietThen(l, [LEADING_0, LEADING_1], l1, BE16(msgType), env);
    QuietThen(l, [LEADING_0, LEADING_1] + BE16(msgType), l2, BE32(n), env);
  }

  // ---- Requests ----

  lemma {:induction false} PayloadCollected(l: Link, xs: seq<byte>, env: Install.Env) returns (l': Link)
    requires l.phase.Payload? && l.msgType != INSTALL_WASM_APP && l.payload.Some? && l.size == |l.payload.value|
    requires l.size + |xs| < l.payloadSize && InnerReady(l)
    ensures l' == l.(size := l.size + |xs|, payload := Some(l.payload.value + xs))
    ensures Quiet(l, xs, l', env)
    decreases |xs|
  {
    if xs == [] {
      l' := l;
      assert l.payload.value + xs == l.payload.value;
    } else {
      FeedOne(l, xs[0], env);
      var l1 := Receive(l, xs[0], env).0;
      l' := PayloadCollected(l1, xs[1..], env);
      QuietThen(l, [xs[0]], l1, xs[1..], env);
      assert [xs[0]] + xs[1..] == xs && l1.payload.value + xs[1..] == l.payload.value + xs;
    }
  }

  /** The packet is read within its bounds; RestfulPacket.BeyondWhen and UnterminatedWhen say when it is not. */
  predicate ReadInside(msgType: uint16, payload: seq<byte>)
    requires payload != []
  {
    msgType == REQUEST_PACKET ==> !ReadsPast(Unpack(payload))
  }

  /** What a complete message that is not an install message does. */
  function Delivered(msgType: uint16, payload: seq<byte>, inner: Install.Ctx): (Link, seq<Event>)
    requires 0 < |payload| < 0x8000_0000 && ReadInside(msgType, payload)
  {
    if msgType != REQUEST_PACKET then (Cleared(inner), [])
    else
      match Unpack(payload)
      case Taken(r) => (Cleared(inner), [Dispatch(r.(sender := ID_HOST))])
      case Refused => (InPayload(msgType, |payload|, Some(payload), |payload|, inner).(phase := NonStart), [])
  }

  /** A frame of another type is collected; what becomes of the message is up to its last byte. */
  lemma FrameCollected(l: Link, msgType: uint16, payload: seq<byte>, env: Install.Env)
    requires Idle(l) && InnerReady(l) && msgType != INSTALL_WASM_APP && 0 < |payload| < 0x8000_0000
    ensures
      var n := |payload|;
      Feed(l, Frame(msgType, payload), env)
      == Receive(InPayload(msgType, n, Some(payload[..n - 1]), n - 1, l.inner), payload[n - 1], env)
  {
    hide Receive;
    hide Unpack;
    var n := |payload|;
    HeaderReceived(l, msgType, n, env);
    var l1 := InPayload(msgType, n, Some([]), 0, l.inner);
    QuietThen(l, Header(msgType, n), l1, payload, env);
    var xs, y := payload[..n - 1], payload[n - 1];
    var l2 := PayloadCollected(l1, xs, env);
    assert [] + xs == xs && xs + [y] == payload;
    QuietThen(l1, xs, l2, [y], env);
    FeedOne(l2, y, env);
  }

  lemma FrameReceived(l: Link, msgType: uint16, payload: seq<byte>, env: Install.Env)
    requires Idle(l) && InnerReady(l) && msgType != INSTALL_WASM_APP && 0 < |payload| < 0x8000_0000
    requires ReadInside(msgType, payload)
    ensures Feed(l, Frame(msgType, payload), env) == Delivered(msgType, payload, l.inner)
    ensures
      Feed(l, Frame(msgType, payload), env) ==
        if msgType != REQUEST_PACKET then (Link(NonStart, 0, 0, 0, [], None, l.inner), [])
        else if Unpack(payload).Taken? then
          (Link(NonStart, 0, 0, 0, [], None, l.inner), [Dispatch(Unpack(payload).r.(sender := -3))])
        else (Link(NonStart, |payload|, msgType, |payload|, [], Some(payload), l.inner), [])
  {
    hide Receive;
    FrameCollected(l, msgType, payload, env);
    LastByte(msgType, payload, l.inner, env);
  }

  lemma LastByte(msgType: uint16, payload: seq<byte>, inner: Install.Ctx, env: Install.Env)
    requires Install.Ready(inner) && msgType != INSTALL_WASM_APP && 0 < |payload| < 0x8000_0000
    requires ReadInside(msgType, payload)
    ensures
      var n := |payload|;
      Receive(InPayload(msgType, n, Some(payload[..n - 1]), n - 1, inner), payload[n - 1], env)
      == Delivered(msgType, payload, inner)
  {
    assert payload[..|payload| - 1] + [payload[|payload| - 1]] == payload;
    var none: seq<Event>, one := [], Delivered(msgType, payload, inner).1;
    assert none + one == one;
  }

  /** A whole frame, byte for byte: a request for "a" with a payload of one byte. */
  lemma RequestExample(l: Link, env: Install.Env)
    requires Idle(l) && InnerReady(l)
    ensures
      var header: seq<byte> := [0x12, 0x34, 0, 2, 0, 0, 0, 21];
      var packet: seq<byte> := [1, 1, 0, 2, 0, 0, 0, 7, 0, 0, 0, 9, 0, 2, 0, 0, 0, 1, 97, 0, 5];
      Feed(l, header + packet, env) == (Cleared(l.inner), [Dispatch(Request(7, [97], 1, 2, [5], -3))])
  {
    var r := Request(7, [97], 1, 2, [5], 9);
    PackExample();
    UnpackPack(r);
    hide Feed;
    hide Receive;
    hide Unpack;
    hide Pack;
    hide Frame;
    FrameReceived(l, REQUEST_PACKET, Pack(r), env);
    ExampleFrame(Pack(r));
  }

  lemma ExampleFrame(payload: seq<byte>)
    requires |payload| == 21
    ensures Frame(2, payload) == [0x12, 0x34, 0, 2, 0, 0, 0, 21] + payload
  {
    assert BE16(2) == [0, 2] && BE32(21) == [0, 0, 0, 21];
  }

  /**
   * After a request frame the link is ready for the next frame if and only if the request could be unpacked;
   * only for a packet that unpack_request itself reads past its end this depends on what lies there.
   */
  lemma ReadyAfterRequest(l: Link, payload: seq<byte>, env: Install.Env)
    requires Idle(l) && InnerReady(l) && 0 < |payload| < 0x8000_0000 && !Unpack(payload).BeyondPacket?
    ensures Idle(Feed(l, Frame(REQUEST_PACKET, payload), env).0) <==> !Unpack(payload).Refused?
  {
    hide Unpack;
    FrameCollected(l, REQUEST_PACKET, payload, env);
    assert payload[..|payload| - 1] + [payload[|payload| - 1]] == payload;
  }

  /** The size that is read for a header with type t and size s when its first type byte is taken for the second. */
  function MisreadSize(t: uint16, s: uint32): uint32 {
    t % 0x100 * 0x100_0000 + s / 0x100
  }

  /**
   * After a request that could not be unpacked the next header, of any type and size, is misread: a byte
   * of its type is taken for the start of the size. If the misread size is n > 0, nothing comes of the
   * last byte of the header and the n - 1 bytes behind it, whatever they are; only then is the link
   * ready again. If it is 0 the link is ready with the last byte of the header.
   */
  lemma NextFrameLost(l: Link, bad: seq<byte>, t: uint16, s: uint32, rest: seq<byte>, env: Install.Env)
    requires Idle(l) && InnerReady(l) && 0 < |bad| < 0x8000_0000 && Unpack(bad).Refused?
    requires if MisreadSize(t, s) == 0 then rest == [] else |rest| < MisreadSize(t, s)
    ensures
      var n, swallowed := MisreadSize(t, s), [(s % 0x100) as byte] + rest;
      Feed(l, Frame(REQUEST_PACKET, bad) + (Header(t, s) + rest), env) ==
        (if n == 0 then Receive(Cleared(l.inner), s % 0x100, env).0
         else if |swallowed| == n then Cleared(l.inner)
         else InPayload(0x200 + t / 0x100, n, Some(swallowed), |swallowed|, l.inner), [])
  {
    hide Receive;
    hide Unpack;
    FrameReceived(l, REQUEST_PACKET, bad, env);
    var l1 := Delivered(REQUEST_PACKET, bad, l.inner).0;
    QuietThen(l, Frame(REQUEST_PACKET, bad), l1, Header(t, s) + rest, env);
    var xs := HeaderMisread(l1, t, s, env);
    var ys := [(s % 0x100) as byte] + rest;
    var n := MisreadSize(t, s);
    assert Header(t, s) + rest == xs + ys;
    if n == 0 {
      QuietThen(l1, xs, Cleared(l.inner), ys, env);
      assert ys == [s % 0x100];
      ClearedByte(l.inner, s % 0x100, env);
    } else {
      QuietThen(l1, xs, InPayload(0x200 + t / 0x100, n, Some([]), 0, l.inner), ys, env);
      Swallowed(0x200 + t / 0x100, n, l.inner, ys, env);
    }
  }

  /** One byte is no packet: whatever request follows it in a frame of its own is not dispatched. */
  lemma RequestLostExample(l: Link, r: Request, env: Install.Env)
    requires Idle(l) && InnerReady(l) && Packable(r) && |Pack(r)| < 0x200_0000
    ensures Feed(l, Frame(REQUEST_PACKET, [0]) + Frame(REQUEST_PACKET, Pack(r)), env).1 == []
  {
    NextFrameLost(l, [0], REQUEST_PACKET, |Pack(r)|, Pack(r), env);
  }

  lemma ClearedByte(inner: Install.Ctx, b: byte, env: Install.Env)
    requires Install.Ready(inner)
    ensures Quiet(Cleared(inner), [b], Receive(Cleared(inner), b, env).0, env)
  {
    FeedOne(Cleared(inner), b, env);
  }

  /** The first seven bytes of the header. */
  lemma HeaderMisread(l: Link, t: uint16, s: uint32, env: Install.Env) returns (xs: seq<byte>)
    requires l.phase.NonStart? && l.size > 0 && l.msgType == REQUEST_PACKET && InnerReady(l)
    ensures xs + [s % 0x100] == Header(t, s)
    ensures
      var n := MisreadSize(t, s);
      Quiet(l, xs, if n == 0 then Cleared(l.inner) else InPayload(0x200 + t / 0x100, n, Some([]), 0, l.inner), env)
  {
    hide Receive;
    hide FromBE32;
    var l1 := LeadingReceived(l, env);
    var l2 := TypeMisread(l1, t / 0x100, env);
    var w := [(t % 0x100) as byte] + BE32(s)[..3];
    MisreadWord(t, s);
    SizeReceived(l2, w, env);
    QuietThen(l, [LEADING_0, LEADING_1], l1, [t / 0x100], env);
    QuietThen(l, [LEADING_0, LEADING_1] + [t / 0x100], l2, w, env);
    xs := [LEADING_0, LEADING_1] + [t / 0x100] + w;
  }

  /** The first type byte is or-ed in as the second. */
  lemma TypeMisread(l: Link, b: byte, env: Install.Env) returns (l': Link)
    requires l.phase.Type? && l.size > 0 && l.msgType == REQUEST_PACKET && InnerReady(l)
    ensures l' == l.(phase := Size, size := 0, msgType := 0x200 + b as int)
    ensures Quiet(l, [b], l', env)
  {
    FeedOne(l, b, env);
    l' := Receive(l, b, env).0;
  }

  lemma MisreadWord(t: uint16, s: uint32)
    ensures FromBE32([(t % 0x100) as byte] + BE32(s)[..3]) == MisreadSize(t, s)
    ensures BE32(s)[3] == s % 0x100
  {
    LE32Digits(s);
  }

  /** A payload of a type that nothing is done with. */
  lemma Swallowed(msgType: uint16, n: uint32, inner: Install.Ctx, xs: seq<byte>, env: Install.Env)
    requires msgType != INSTALL_WASM_APP && msgType != REQUEST_PACKET && Install.Ready(inner) && 0 < |xs| <= n
    ensures Quiet(InPayload(msgType, n, Some([]), 0, inner), xs,
                  if |xs| == n then Cleared(inner) else InPayload(msgType, n, Some(xs), |xs|, inner), env)
  {
    var l, zs, y := InPayload(msgType, n, Some([]), 0, inner), xs[..|xs| - 1], xs[|xs| - 1];
    assert zs + [y] == xs && [] + zs == zs;
    var l1 := PayloadCollected(l, zs, env);
    QuietThen(l, zs, l1, [y], env);
    FeedOne(l1, y, env);
  }

  // ---- Install messages ----

  /** The install receiver stands in front of a request. */
  predicate Fresh(c: Install.Ctx) {
    c.phase.ReqVer? && c.msg == Install.INIT.msg
  }

  /** Ready for a frame of any type. */
  predicate Synced(l: Link) {
    Idle(l) && Fresh(l.inner)
  }

  lemma FreshIsInit(c: Install.Ctx, xs: seq<byte>, n: nat, env: Install.Env)
    requires Fresh(c) && xs != []
    ensures Install.Run(c, xs, n, env) == Install.Run(Install.INIT, xs, n, env)
  {
    assert Install.Step(c, xs[0], n, env) == Install.Step(Install.INIT, xs[0], n, env);
  }

  /** The install receiver has seen the first k bytes of a request. */
  predicate Seen(c: Install.Ctx, k: nat) {
    Install.Ready(c) && if k == 0 then Fresh(c) else !c.phase.ReqVer? && c.total == k
  }

  predicate SeenAfter(r: (Install.Ctx, Install.Outcome), k: nat, n: nat, env: Install.Env) {
    match r
    case (c', Accepted) => Seen(c', k + 1)
    case (c', Refused) => env.handlerOk ==> Fresh(c')
    case (c', Installed(_)) => c' == Install.INIT && k + 1 == n
  }

  lemma SeenInRequest(c: Install.Ctx, ch: byte, n: nat, env: Install.Env)
    requires Install.ForRequest(c.phase)
    requires c.total > 0
    ensures SeenAfter(Install.StepRequest(c, ch), c.total - 1, n, env)
  {}

  lemma SeenInWasm(c: Install.Ctx, ch: byte, n: nat, env: Install.Env)
    requires Install.ForWasm(c.phase)
    requires Install.Ready(c) && c.total > 0
    ensures SeenAfter(Install.StepWasm(c, ch, n, env), c.total - 1, n, env)
  {}

  lemma SeenInAot(c: Install.Ctx, ch: byte, n: nat, env: Install.Env)
    requires Install.ForAot(c.phase)
    requires Install.Ready(c) && c.total > 0
    ensures SeenAfter(Install.StepAot(c, ch, n, env), c.total - 1, n, env)
  {}

  lemma StepSeen(c: Install.Ctx, ch: byte, k: nat, n: nat, env: Install.Env)
    requires Seen(c, k)
    ensures Received(c) == k + 1 && SeenAfter(Install.Step(c, ch, n, env), k, n, env)
  {
    if k > 0 {
      var c1 := c.(total := k + 1);
      if Install.ForWasm(c.phase) {
        SeenInWasm(c1, ch, n, env);
      } else if Install.ForAot(c.phase) {
        SeenInAot(c1, ch, n, env);
      } else if !c.phase.ReqAction? {
        SeenInRequest(c1, ch, n, env);
      }
    }
  }

  /**
   * When an install payload of n bytes starts, the install receiver has counted d bytes and counts on. The link
   * takes the payload for complete when the count is n: after this many bytes, or not at all if d >= n.
   */
  function Window(d: nat, n: nat): nat {
    if d < n then n - d else n
  }

  /** Where the link stands after k bytes of an install payload of n bytes, by what became of them. */
  function AfterInstall(d: nat, n: nat, k: nat, r: Install.Result): (Link, seq<Event>)
    requires 0 < n < 0x1_0000_0000
  {
    match r
    case Pending(c) => if d + k == n then (Cleared(c), []) else (InPayload(INSTALL_WASM_APP, n, None, k, c), [])
    case Stopped(c, left) =>
      var l := InPayload(INSTALL_WASM_APP, n, None, k, c);
      if k < n then (l.(phase := Ignoring), [])
      else if left == 0 then (l.(phase := NonStart, size := 0), [])
      else (Cleared(c), [])
    case Done(c, msg, _) => (Cleared(c), [InstallApp(msg)])
  }

  lemma {:induction false} Ignored(l: Link, xs: seq<byte>, env: Install.Env)
    requires l.phase.Ignoring? && l.size + |xs| <= l.payloadSize && l.size < l.payloadSize && InnerReady(l)
    ensures Quiet(l, xs, if l.size + |xs| < l.payloadSize then l.(size := l.size + |xs|) else Cleared(l.inner), env)
    decreases |xs|
  {
    if xs != [] {
      FeedOne(l, xs[0], env);
      var l1 := Receive(l, xs[0], env).0;
      QuietThen(l, [xs[0]], l1, xs[1..], env);
      assert [xs[0]] + xs[1..] == xs;
      if l1.phase.Ignoring? { Ignored(l1, xs[1..], env); }
    }
  }

  /** Byte k of an install payload of n bytes. */
  lemma InstallByte(d: nat, k: nat, n: nat, c: Install.Ctx, b: byte, env: Install.Env)
    requires Seen(c, d + k) && k < Window(d, n) && n < 0x1_0000_0000
    ensures
      var l := InPayload(INSTALL_WASM_APP, n, None, k, c);
      Receive(l, b, env) == AfterInstall(d, n, k + 1, Install.AfterStep(Install.Step(c, b, n, env)))
  {
    hide Install.Step;
    hide ByteArrive;
    hide PayloadToInstaller;
    hide Unpack;
    StepSeen(c, b, d + k, n, env);
    InstallPassedOn(k, n, c, b, env);
    PassedOn(InPayload(INSTALL_WASM_APP, n, None, k + 1, c), b, env);
    var (c', o) := Install.Step(c, b, n, env);
    match o
    case Accepted =>
    case Refused =>
    case Installed(msg) => assert d + k + 1 == n;
  }

  lemma InstallPassedOn(k: nat, n: nat, c: Install.Ctx, b: byte, env: Install.Env)
    requires Install.Ready(c) && n < 0x1_0000_0000
    ensures ByteArrive(InPayload(INSTALL_WASM_APP, n, None, k, c), b, env)
         == PayloadToInstaller(InPayload(INSTALL_WASM_APP, n, None, k + 1, c), b, env)
  {
    hide PayloadToInstaller;
  }

  /** What the link makes of the install receiver's outcome. */
  lemma PassedOn(l: Link, b: byte, env: Install.Env)
    requires InnerReady(l)
    ensures
      var (c', o) := Install.Step(l.inner, b, l.payloadSize, env);
      var (l', complete, installed) := PayloadToInstaller(l, b, env);
      && complete == (!o.Refused? && Received(l.inner) == l.payloadSize)
      && installed == (if o.Installed? then Some(o.msg) else None)
      && l' == l.(inner := c', size := if o.Refused? && l.size >= l.payloadSize then 0 else l.size,
                  phase := if complete then NonStart
                           else if !o.Refused? then l.phase
                           else if l.size < l.payloadSize then Ignoring else NonStart)
  {
    hide Install.Step;
  }

  /** A run of the install receiver in two parts: r1 on the first, then r2 on m more bytes. */
  function Joined(r1: Install.Result, r2: Install.Result, m: nat): Install.Result {
    match r1
    case Pending(_) => r2
    case Stopped(c, left) => Install.Stopped(c, left + m)
    case Done(c, msg, left) => Install.Done(c, msg, left + m)
  }

  /** Bytes k to k + |xs| of an install payload, what the install receiver and what the link make of them. */
  ghost predicate Fed(d: nat, k: nat, n: nat, c: Install.Ctx, xs: seq<byte>, r: Install.Result, env: Install.Env) {
    && Seen(c, d + k) && 0 < |xs| && k + |xs| <= Window(d, n) && n < 0x1_0000_0000
    && r == Install.Run(c, xs, n, env)
    && Feed(InPayload(INSTALL_WASM_APP, n, None, k, c), xs, env) == AfterInstall(d, n, k + |xs|, r)
    && match r
       case Pending(c') => Seen(c', d + k + |xs|)
       case Stopped(c', _) => Install.Ready(c') && (env.handlerOk ==> Fresh(c'))
       case Done(c', _, left) => c' == Install.INIT && left == 0 && d + k + |xs| == n
  }

  /** The link's half of FedJoined. */
  lemma InstallJoined(d: nat, k: nat, n: nat, l: Link, xs: seq<byte>, r1: Install.Result, ys: seq<byte>,
                      r2: Install.Result, env: Install.Env)
    requires InnerReady(l) && (r1.Pending? || r1.Stopped? ==> Install.Ready(r1.c))
    requires ys != [] && 0 < k && k + |ys| <= Window(d, n) && n < 0x1_0000_0000
    requires Feed(l, xs, env) == AfterInstall(d, n, k, r1) && !r1.Done? && (r1.Stopped? ==> r1.left == 0)
    requires r1.Pending? ==>
      Feed(InPayload(INSTALL_WASM_APP, n, None, k, r1.c), ys, env) == AfterInstall(d, n, k + |ys|, r2)
    ensures Feed(l, xs + ys, env) == AfterInstall(d, n, k + |ys|, Joined(r1, r2, |ys|))
  {
    hide Receive;
    var l1 := InPayload(INSTALL_WASM_APP, n, None, k, r1.c);
    if r1.Pending? {
      QuietThen(l, xs, l1, ys, env);
    } else {
      QuietThen(l, xs, l1.(phase := Ignoring), ys, env);
      Ignored(l1.(phase := Ignoring), ys, env);
    }
  }

  /** The install receiver's half of FedJoined. */
  lemma RunJoined(c: Install.Ctx, xs: seq<byte>, r1: Install.Result, ys: seq<byte>, r2: Install.Result, n: nat,
                  env: Install.Env)
    requires Install.Ready(c) && r1 == Install.Run(c, xs, n, env)
    requires r1.Pending? ==> Install.Ready(r1.c) && r2 == Install.Run(r1.c, ys, n, env)
    ensures Joined(r1, r2, |ys|) == Install.Run(c, xs + ys, n, env)
  {
    Install.RunAppend(c, xs, ys, n, env);
  }

  lemma FedJoined(d: nat, k: nat, n: nat, c: Install.Ctx, xs: seq<byte>, r1: Install.Result, ys: seq<byte>,
                  r2: Install.Result, env: Install.Env)
    requires Fed(d, k, n, c, xs, r1, env) && (r1.Stopped? ==> r1.left == 0)
    requires 0 < |ys| && k + |xs| + |ys| <= Window(d, n)
    requires r1.Pending? ==> Fed(d, k + |xs|, n, r1.c, ys, r2, env)
    ensures Fed(d, k, n, c, xs + ys, Joined(r1, r2, |ys|), env)
  {
    hide Receive;
    hide Install.Step;
    RunJoined(c, xs, r1, ys, r2, n, env);
    InstallJoined(d, k + |xs|, n, InPayload(INSTALL_WASM_APP, n, None, k, c), xs, r1, ys, r2, env);
  }

  lemma FedOne(d: nat, k: nat, n: nat, c: Install.Ctx, b: byte, env: Install.Env) returns (r: Install.Result)
    requires Seen(c, d + k) && k < Window(d, n) && n < 0x1_0000_0000
    ensures Fed(d, k, n, c, [b], r, env) && (r.Stopped? ==> r.left == 0) && (r.Done? ==> d + k + 1 == n)
  {
    hide ByteArrive;
    hide Install.Step;
    var o := Install.Step(c, b, n, env);
    r := Install.AfterStep(o);
    Install.Run1(c, b, n, env);
    StepSeen(c, b, d + k, n, env);
    InstallByte(d, k, n, c, b, env);
    FeedOne(InPayload(INSTALL_WASM_APP, n, None, k, c), b, env);
  }

  lemma FedCons(d: nat, k: nat, n: nat, c: Install.Ctx, r1: Install.Result, xs: seq<byte>, r2: Install.Result,
                env: Install.Env)
    requires 1 < |xs| && k + |xs| <= Window(d, n) && Fed(d, k, n, c, [xs[0]], r1, env) && (r1.Stopped? ==> r1.left == 0)
    requires r1.Pending? ==> Fed(d, k + 1, n, r1.c, xs[1..], r2, env)
    ensures Fed(d, k, n, c, xs, Joined(r1, r2, |xs| - 1), env)
  {
    hide Install.Step;
    assert [xs[0]] + xs[1..] == xs;
    FedJoined(d, k, n, c, [xs[0]], r1, xs[1..], r2, env);
  }

  lemma FedNext(d: nat, k: nat, n: nat, c: Install.Ctx, b: byte, r: Install.Result, env: Install.Env)
    requires Fed(d, k, n, c, [b], r, env) && r.Pending?
    ensures Seen(r.c, d + k + 1)
  {}

  lemma {:induction false} InstallFed(d: nat, k: nat, n: nat, c: Install.Ctx, xs: seq<byte>, env: Install.Env)
    returns (r: Install.Result)
    requires Seen(c, d + k) && 0 < |xs| && k + |xs| <= Window(d, n) && n < 0x1_0000_0000
    ensures Fed(d, k, n, c, xs, r, env)
    decreases |xs|
  {
    hide Install.Step;
    var r1 := FedOne(d, k, n, c, xs[0], env);
    if |xs| == 1 {
      assert xs == [xs[0]];
      r := r1;
    } else {
      var r2 := r1;
      if r1.Pending? {
        FedNext(d, k, n, c, xs[0], r1, env);
        r2 := InstallFed(d, k + 1, n, r1.c, xs[1..], env);
      }
      r := Joined(r1, r2, |xs| - 1);
      FedCons(d, k, n, c, r1, xs, r2, env);
    }
  }

  /** The install receiver's verdict on a whole install payload. */
  function Verdict(payload: seq<byte>, env: Install.Env): Install.Result {
    Install.Run(Install.INIT, payload, |payload|, env)
  }

  /**
   * An install frame: the app is handed over if the receiver installs it, and the pair of machines is
   * ready for the next frame unless the receiver is still waiting for bytes at the payload's end.
   */
  lemma InstallFrameReceived(l: Link, payload: seq<byte>, env: Install.Env)
    requires Synced(l) && env.handlerOk && 0 < |payload| < 0x8000_0000
    ensures
      var (l', events) := Feed(l, Frame(INSTALL_WASM_APP, payload), env);
      var v := Verdict(payload, env);
      && events == (if v.Done? then [InstallApp(v.msg)] else [])
      && Idle(l') && if v.Pending? then Seen(l'.inner, |payload|) else Fresh(l'.inner)
  {
    hide Install.Step;
    hide Receive;
    var n := |payload|;
    HeaderReceived(l, INSTALL_WASM_APP, n, env);
    var l1 := InPayload(INSTALL_WASM_APP, n, None, 0, l.inner);
    QuietThen(l, Header(INSTALL_WASM_APP, n), l1, payload, env);
    FreshIsInit(l.inner, payload, n, env);
    var r := InstallFed(0, 0, n, l.inner, payload, env);
  }

  /** A whole frame, byte for byte: the bytecode app of InstallReceiver.BytecodeExample. */
  lemma InstallExample(l: Link, env: Install.Env)
    requires Synced(l) && env.handlerOk && env.sectionTypeMax >= 1
    ensures
      var header: seq<byte> := [0x12, 0x34, 0, 4, 0, 0, 0, 31];
      var request: seq<byte> := [1, 2, 0, 3, 0, 0, 0, 7, 0, 0, 0, 9, 0, 2, 0, 0, 0, 11, 97, 0,
                                 0, 0x61, 0x73, 0x6D, 1, 0, 0, 0, 1, 1, 5];
      Feed(l, header + request, env).1 == [InstallApp(
        Install.Message(2, 3, 7, 9, 2, 11, [97, 0], [0, 0x61, 0x73, 0x6D], [Install.Section(1, 1, [5])]))]
  {
    hide Feed;
    hide Install.Run;
    var request: seq<byte> := [1, 2, 0, 3, 0, 0, 0, 7, 0, 0, 0, 9, 0, 2, 0, 0, 0, 11, 97, 0,
                               0, 0x61, 0x73, 0x6D, 1, 0, 0, 0, 1, 1, 5];
    Install.BytecodeExample(env);
    hide Frame;
    InstallFrameReceived(l, request, env);
    ExampleInstallFrame(request);
  }

  lemma ExampleInstallFrame(payload: seq<byte>)
    requires |payload| == 31
    ensures Frame(INSTALL_WASM_APP, payload) == [0x12, 0x34, 0, 4, 0, 0, 0, 31] + payload
  {
    assert BE16(4) == [0, 4] && BE32(31) == [0, 0, 0, 31];
  }

  /**
   * Byte k of an install payload of n bytes is rejected: the link discards bytes k + 1 to n - 1, whatever
   * they are, and with the last of them both machines are back in their first phase.
   */
  lemma RejectionRecovers(l: Link, payload: seq<byte>, k: nat, j: nat, env: Install.Env)
    requires Synced(l) && env.handlerOk && |payload| < 0x8000_0000 && k < j <= |payload|
    requires Install.Run(Install.INIT, payload[..k + 1], |payload|, env).Stopped?
    ensures
      var (l', events) := Feed(l, Header(INSTALL_WASM_APP, |payload|) + payload[..j], env);
      && events == []
      && if j < |payload| then l'.phase.Ignoring? && l'.size == j else Synced(l')
  {
    hide Install.Step;
    hide Receive;
    var n, xs, ys := |payload|, payload[..k + 1], payload[k + 1..j];
    HeaderReceived(l, INSTALL_WASM_APP, n, env);
    var l1 := InPayload(INSTALL_WASM_APP, n, None, 0, l.inner);
    QuietThen(l, Header(INSTALL_WASM_APP, n), l1, payload[..j], env);
    FreshIsInit(l.inner, xs, n, env);
    var r := InstallFed(0, 0, n, l.inner, xs, env);
    assert xs + ys == payload[..j];
    if ys != [] {
      QuietThen(l1, xs, InPayload(INSTALL_WASM_APP, n, None, k + 1, r.c).(phase := Ignoring), ys, env);
      Ignored(InPayload(INSTALL_WASM_APP, n, None, k + 1, r.c).(phase := Ignoring), ys, env);
    } else {
      assert xs == payload[..j];
    }
  }

  /**
   * An install frame of n bytes while the receiver still waits, with d bytes behind it: its bytes go into the
   * phase that is waiting, and the receiver counts on. With a count of n, somewhere inside the frame if d < n,
   * the link takes the message for complete, and an app is installed if the receiver is done with that byte;
   * what is left of the frame is then read as if between frames. If d >= n the count is n never, and the link is
   * in the payload still when the frame is over. In both cases a byte that is refused ends the waiting.
   */
  lemma WaitingReceiverFed(l: Link, d: nat, payload: seq<byte>, env: Install.Env)
    requires Idle(l) && 0 < d && Seen(l.inner, d) && 0 < |payload| < 0x8000_0000
    ensures
      var n, w := |payload|, Window(d, |payload|);
      var (l', events) := Feed(l, Header(INSTALL_WASM_APP, n) + payload[..w], env);
      match Install.Run(l.inner, payload[..w], n, env)
      case Pending(c) =>
        events == [] && l' == if d < n then Cleared(c) else InPayload(INSTALL_WASM_APP, n, None, n, c)
      case Stopped(c, left) =>
        && events == [] && (env.handlerOk ==> Fresh(l'.inner))
        && if d < n then l' == InPayload(INSTALL_WASM_APP, n, None, w, c).(phase := Ignoring) else Idle(l')
      case Done(_, msg, left) => d < n && left == 0 && events == [InstallApp(msg)] && l' == Cleared(Install.INIT)
  {
    hide Install.Step;
    hide Receive;
    var n, xs := |payload|, payload[..Window(d, |payload|)];
    HeaderReceived(l, INSTALL_WASM_APP, n, env);
    QuietThen(l, Header(INSTALL_WASM_APP, n), InPayload(INSTALL_WASM_APP, n, None, 0, l.inner), xs, env);
    var r := InstallFed(d, 0, n, l.inner, xs, env);
  }

  // ---- Any stream of messages ----

  datatype Item = Req(r: Request) | App(payload: seq<byte>)

  /** Requests that fit a packet; install payloads the receiver installs or rejects before their end. */
  predicate Sendable(i: Item, env: Install.Env) {
    match i
    case Req(r) => Packable(r)
    case App(payload) => 0 < |payload| < 0x8000_0000 && !Verdict(payload, env).Pending?
  }

  function Wire(i: Item, env: Install.Env): seq<byte>
    requires Sendable(i, env)
  {
    match i
    case Req(r) => Frame(REQUEST_PACKET, Pack(r))
    case App(payload) => Frame(INSTALL_WASM_APP, payload)
  }

  function Outcome(i: Item, env: Install.Env): seq<Event> {
    match i
    case Req(r) => [Dispatch(r.(sender := ID_HOST))]
    case App(payload) =>
      var v := Verdict(payload, env);
      if v.Done? then [InstallApp(v.msg)] else []
  }

  predicate AllSendable(items: seq<Item>, env: Install.Env) {
    forall i <- items :: Sendable(i, env)
  }

  function Stream(items: seq<Item>, env: Install.Env): seq<byte>
    requires AllSendable(items, env)
  {
    if items == [] then [] else Wire(items[0], env) + Stream(items[1..], env)
  }

  function Outcomes(items: seq<Item>, env: Install.Env): seq<Event> {
    if items == [] then [] else Outcome(items[0], env) + Outcomes(items[1..], env)
  }

  lemma ItemReceived(l: Link, i: Item, env: Install.Env)
    requires Synced(l) && env.handlerOk && Sendable(i, env)
    ensures
      var (l', events) := Feed(l, Wire(i, env), env);
      Synced(l') && events == Outcome(i, env)
  {
    match i
    case Req(r) =>
      UnpackPack(r);
      FrameReceived(l, REQUEST_PACKET, Pack(r), env);
    case App(payload) =>
      InstallFrameReceived(l, payload, env);
  }

  lemma {:induction false} ItemsReceived(l: Link, items: seq<Item>, env: Install.Env)
    requires Synced(l) && env.handlerOk && AllSendable(items, env)
    ensures
      var (l', events) := Feed(l, Stream(items, env), env);
      Synced(l') && events == Outcomes(items, env)
    decreases |items|
  {
    if items != [] {
      ItemReceived(l, items[0], env);
      ItemsReceived(Feed(l, Wire(items[0], env), env).0, items[1..], env);
      FeedAppend(l, Wire(items[0], env), Stream(items[1..], env), env);
    }
  }

  /**
   * Any list of requests and apps, sent as frames and cut into any pieces: every request is dispatched
   * once, in order and unchanged but for its sender, every app the receiver accepts is installed once,
   * and the link ends ready for more.
   */
  lemma StreamDelivered(l: Link, items: seq<Item>, chunks: seq<seq<byte>>, env: Install.Env)
    requires Synced(l) && env.handlerOk && AllSendable(items, env) && Flatten(chunks) == Stream(items, env)
    ensures
      var (l', events) := FeedChunks(l, chunks, env);
      Synced(l') && events == Outcomes(items, env)
  {
    ChunksDoNotMatter(l, chunks, env);
    ItemsReceived(l, items, env);
  }

  /** A bytecode request without empty sections is such an app, and it is installed as it was sent. */
  lemma BytecodeDelivered(action: byte, fmt: uint16, mid: uint32, sender: uint32, appSize: uint32, url: seq<byte>,
                          fs: seq<Install.Framed>, env: Install.Env)
    requires 0 < |url| < 0x1_0000 && fs != [] && env.handlerOk && forall f <- fs :: Install.ValidFrame(f, env)
    requires Install.NoEmptyBody(fs)
    requires
      |Install.Preamble(action, fmt, mid, sender, appSize, url, Install.WASM_MAGIC) + Install.Encode(fs)| < 0x8000_0000
    ensures
      var request := Install.Preamble(action, fmt, mid, sender, appSize, url, Install.WASM_MAGIC) + Install.Encode(fs);
      var msg := Install.Message(action, fmt, mid, sender, |url|, appSize, url, Install.WASM_MAGIC,
                                 Install.SectionsOf(fs));
      Sendable(App(request), env) && Outcome(App(request), env) == [InstallApp(msg)]
  {
    hide Install.Run;
    Install.BytecodeInstalled(action, fmt, mid, sender, appSize, url, fs, env);
  }

  /** So is an AOT file that the loader accepts, unless it is one of those on which receiver and loader differ. */
  lemma AotDelivered(action: byte, fmt: uint16, mid: uint32, sender: uint32, appSize: uint32, url: seq<byte>,
                     tail: seq<byte>, list: seq<Install.Section>, env: Install.Env)
    requires 0 < |url| < 0x1_0000 && env.handlerOk
    requires
      var file := Install.AOT_MAGIC + Install.AOT_VERSION + tail;
      Aot.Split(file, env.pltSize) == Some(list) && !Aot.Differ(file, env.pltSize)
    requires |Install.RequestHeader(action, fmt, mid, sender, appSize, url)| + 8 + |tail| < 0x8000_0000
    ensures
      var request := Install.RequestHeader(action, fmt, mid, sender, appSize, url)
                     + (Install.AOT_MAGIC + Install.AOT_VERSION + tail);
      var msg := Install.Message(action, fmt, mid, sender, |url|, appSize, url, Install.AOT_MAGIC, list);
      Sendable(App(request), env) && Outcome(App(request), env) == [InstallApp(msg)]
  {
    hide Install.Run;
    hide Aot.Split;
    hide Aot.Differ;
    hide Install.RequestHeader;
    Aot.AotInstalled(action, fmt, mid, sender, appSize, url, tail, list, env);
  }

  // ---- Noise between frames ----

  /** The pair of leading bytes does not occur. */
  predicate NoLeadings(noise: seq<byte>) {
    forall k :: 0 < k < |noise| ==> !(noise[k - 1] == LEADING_0 && noise[k] == LEADING_1)
  }

  /** How many bytes LEADING_0 there are at the end. */
  function TrailingLeads(noise: seq<byte>): nat {
    if noise == [] || noise[|noise| - 1] != LEADING_0 then 0 else 1 + TrailingLeads(noise[..|noise| - 1])
  }

  function AfterNoise(l: Link, noise: seq<byte>): Link
    requires noise != []
  {
    l.(phase := if TrailingLeads(noise) % 2 == 0 then NonStart else Leading,
       payloadSize := 0, word := [], payload := None)
  }

  /** A second LEADING_0 drops the first instead of taking its place. */
  lemma {:induction false} NoiseReceived(l: Link, noise: seq<byte>, env: Install.Env)
    requires Idle(l) && InnerReady(l) && NoLeadings(noise) && noise != []
    ensures Quiet(l, noise, AfterNoise(l, noise), env)
    decreases |noise|
  {
    var xs, y := noise[..|noise| - 1], noise[|noise| - 1];
    assert xs + [y] == noise;
    if xs == [] {
      assert noise == [y];
      assert TrailingLeads(xs) == 0;
      FeedOne(l, y, env);
    } else {
      NoiseReceived(l, xs, env);
      QuietThen(l, xs, AfterNoise(l, xs), [y], env);
      FeedOne(AfterNoise(l, xs), y, env);
      if TrailingLeads(xs) > 0 { assert noise[|noise| - 2] == xs[|xs| - 1] == LEADING_0; }
    }
  }

  /** How far a frame's header has been read. */
  function Progress(l: Link): nat {
    match l.phase
    case NonStart => 0
    case Leading => 1
    case Type => if l.size == 0 then 2 else 3
    case Size => 4 + |l.word|
    case _ => 8
  }

  lemma {:induction false} ProgressBound(l: Link, xs: seq<byte>, env: Install.Env)
    requires InnerReady(l) && Progress(l) + |xs| < 8
    requires l.phase.NonStart? || l.phase.Leading? ==> l.size == 0
    requires l.phase.Leading? || l.phase.Type? ==> l.word == []
    requires l.phase.Size? ==> l.size == |l.word|
    ensures !Feed(l, xs, env).0.phase.Payload?
    decreases |xs|
  {
    if xs != [] {
      var l1 := Receive(l, xs[0], env).0;
      assert Progress(l1) <= Progress(l) + 1;
      ProgressBound(l1, xs[1..], env);
    }
  }

  /**
   * A frame after noise that holds no pair of leading bytes: its header is read as one if and only if the
   * noise ends in an even number of LEADING_0 bytes.
   */
  lemma HeaderAfterNoise(l: Link, noise: seq<byte>, msgType: uint16, n: uint32, env: Install.Env)
    requires Idle(l) && InnerReady(l) && NoLeadings(noise) && noise != [] && n > 0
    ensures
      Feed(l, noise + Header(msgType, n), env).0.phase.Payload? <==> TrailingLeads(noise) % 2 == 0
  {
    var l1, h := AfterNoise(l, noise), Header(msgType, n);
    NoiseReceived(l, noise, env);
    QuietThen(l, noise, l1, h, env);
    if TrailingLeads(noise) % 2 == 0 {
      HeaderReceived(l1, msgType, n, env);
    } else {
      var rest := h[2..];
      assert h == [LEADING_0] + ([LEADING_1] + rest);
      var l2 := l1.(phase := NonStart);
      FeedOne(l1, LEADING_0, env);
      FeedOne(l2, LEADING_1, env);
      QuietThen(l1, [LEADING_0], l2, [LEADING_1] + rest, env);
      QuietThen(l2, [LEADING_1], l2, rest, env);
      ProgressBound(l2, rest, env);
    }
  }

  /** A single LEADING_0 in front of it, and the frame is missed. */
  lemma NoiseExample(l: Link, msgType: uint16, n: uint32, env: Install.Env)
    requires Idle(l) && InnerReady(l) && n > 0
    ensures !Feed(l, [LEADING_0] + Header(msgType, n), env).0.phase.Payload?
  {
    assert [LEADING_0][..0] == [];
    HeaderAfterNoise(l, [LEADING_0], msgType, n, env);
  }

  // ---- Where the install receiver's writes stay in bounds ----

  predicate ToInstaller(l: Link) {
    l.phase.Payload? && l.msgType == INSTALL_WASM_APP
  }

  /** With byte ch a request is complete that is then read past its packet's end. */
  predicate Overreads(l: Link, ch: byte) {
    && l.phase.Payload? && l.msgType == REQUEST_PACKET && l.payload.Some? && l.size + 1 == l.payloadSize
    && ReadsPast(Unpack(l.payload.value + [ch]))
  }

  lemma CompleteReadInside(l: Link, ch: byte, env: Install.Env)
    requires InnerReady(l) && !Overreads(l, ch)
    requires l.phase.Payload? && l.msgType != INSTALL_WASM_APP ==> l.payload.Some?
    ensures
      var (l', complete, _) := ByteArrive(l, ch, env);
      complete && l'.payload.Some? && l'.payload.value != [] ==> ReadInside(l'.msgType, l'.payload.value)
  {
    hide Install.Step;
    hide Unpack;
  }

  /** No byte of the piece is written past the end of a URL or a section body, or makes a read leave a packet. */
  predicate Safe(l: Link, bytes: seq<byte>, env: Install.Env)
    requires InnerReady(l)
    decreases |bytes|
  {
    || bytes == []
    || (&& (ToInstaller(l) ==> Install.Roomy(l.inner)) && !Overreads(l, bytes[0])
        && Safe(Receive(l, bytes[0], env).0, bytes[1..], env))
  }

  lemma {:induction false} SafeAppend(l: Link, xs: seq<byte>, ys: seq<byte>, env: Install.Env)
    requires InnerReady(l)
    ensures Safe(l, xs + ys, env) <==> Safe(l, xs, env) && Safe(Feed(l, xs, env).0, ys, env)
    decreases |xs|
  {
    hide ByteArrive;
    if xs == [] {
      assert xs + ys == ys;
    } else {
      assert (xs + ys)[0] == xs[0] && (xs + ys)[1..] == xs[1..] + ys;
      SafeAppend(Receive(l, xs[0], env).0, xs[1..], ys, env);
    }
  }

  lemma {:induction false} HeaderSafe(l: Link, xs: seq<byte>, env: Install.Env)
    requires InnerReady(l) && Progress(l) + |xs| <= 8
    requires l.phase.NonStart? || l.phase.Leading? ==> l.size == 0
    requires l.phase.Leading? || l.phase.Type? ==> l.word == []
    requires l.phase.Size? ==> l.size == |l.word|
    ensures Safe(l, xs, env)
    decreases |xs|
  {
    if |xs| == 1 {
      assert Safe(Receive(l, xs[0], env).0, [], env);
      assert xs[1..] == [];
    } else if xs != [] {
      var l1 := Receive(l, xs[0], env).0;
      assert Progress(l1) <= Progress(l) + 1;
      HeaderSafe(l1, xs[1..], env);
    }
  }

  lemma {:induction false} RequestSafe(l: Link, xs: seq<byte>, env: Install.Env)
    requires InnerReady(l) && l.phase.Payload? && l.msgType == REQUEST_PACKET && l.payload.Some?
    requires xs != [] && l.size == |l.payload.value| && l.size + |xs| == l.payloadSize
    requires !ReadsPast(Unpack(l.payload.value + xs))
    ensures Safe(l, xs, env)
    decreases |xs|
  {
    hide Unpack;
    if |xs| == 1 {
      assert xs == [xs[0]];
      assert Safe(Receive(l, xs[0], env).0, [], env);
      assert xs[1..] == [];
    } else {
      var l1 := Receive(l, xs[0], env).0;
      assert l1.payload.value + xs[1..] == l.payload.value + xs;
      RequestSafe(l1, xs[1..], env);
    }
  }

  lemma {:induction false} IgnoredSafe(l: Link, xs: seq<byte>, env: Install.Env)
    requires l.phase.Ignoring? && l.size + |xs| <= l.payloadSize && InnerReady(l)
    ensures Safe(l, xs, env)
    decreases |xs|
  {
    if |xs| == 1 {
      assert Safe(Receive(l, xs[0], env).0, [], env);
      assert xs[1..] == [];
    } else if xs != [] {
      IgnoredSafe(Receive(l, xs[0], env).0, xs[1..], env);
    }
  }

  lemma {:induction false} InstallSafe(k: nat, n: nat, c: Install.Ctx, xs: seq<byte>, env: Install.Env)
    requires Seen(c, k) && k + |xs| == n < 0x1_0000_0000 && !Install.Run(c, xs, n, env).Pending?
    ensures Safe(InPayload(INSTALL_WASM_APP, n, None, k, c), xs, env)
    decreases |xs|
  {
    hide ByteArrive;
    hide Install.Step;
    var l := InPayload(INSTALL_WASM_APP, n, None, k, c);
    Install.RoomyUnlessHanging(c, xs, n, env);
    if xs != [] {
      var (c', o) := Install.Step(c, xs[0], n, env);
      StepSeen(c, xs[0], k, n, env);
      InstallByte(0, k, n, c, xs[0], env);
      if o.Accepted? {
        if k + 1 < n { InstallSafe(k + 1, n, c', xs[1..], env); }
      } else if o.Refused? && k + 1 < n {
        IgnoredSafe(InPayload(INSTALL_WASM_APP, n, None, k + 1, c').(phase := Ignoring), xs[1..], env);
      }
    }
  }

  lemma ItemSafe(l: Link, i: Item, env: Install.Env)
    requires Synced(l) && env.handlerOk && Sendable(i, env)
    ensures Safe(l, Wire(i, env), env)
  {
    hide Receive;
    hide Unpack;
    var (msgType, payload) := if i.Req? then (REQUEST_PACKET, Pack(i.r)) else (INSTALL_WASM_APP, i.payload);
    var n := |payload|;
    HeaderReceived(l, msgType, n, env);
    HeaderSafe(l, Header(msgType, n), env);
    SafeAppend(l, Header(msgType, n), payload, env);
    match i
    case Req(r) =>
      UnpackPack(r);
      assert [] + payload == payload;
      RequestSafe(InPayload(msgType, n, Some([]), 0, l.inner), payload, env);
    case App(_) =>
      FreshIsInit(l.inner, payload, n, env);
      InstallSafe(0, n, l.inner, payload, env);
  }

  /** Receiving a stream of sendable messages never leaves a buffer. */
  lemma {:induction false} StreamSafe(l: Link, items: seq<Item>, env: Install.Env)
    requires Synced(l) && env.handlerOk && AllSendable(items, env)
    ensures Safe(l, Stream(items, env), env)
    decreases |items|
  {
    if items != [] {
      ItemSafe(l, items[0], env);
      ItemReceived(l, items[0], env);
      StreamSafe(Feed(l, Wire(items[0], env), env).0, items[1..], env);
      SafeAppend(l, Wire(items[0], env), Stream(items[1..], env), env);
    }
  }
}
