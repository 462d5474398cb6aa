/** The host link's receive context as the object its callback updates in place. */
module HostReceivers {
  import opened Words
  import opened RestfulPacket
  import opened HostLink
  import opened InstallContexts
  import Install = InstallReceiver

  class HostReceiver {
    var phase: Phase
    var sizeInPhase: nat
    var messageType: uint16
    var payloadSize: uint32
    /** The bytes of payloadSize as they arrive. */
    const sizeBytes: array<byte>
    var payload: array?<byte>
    const inner: InstallContext
    ghost var word: seq<byte>
    /** What of the payload has been received. */
    ghost var got: seq<byte>

    ghost function Value(): Link
      reads this, inner
    {
      Link(phase, sizeInPhase, messageType, payloadSize, word, if payload == null then None else Some(got),
           inner.Value())
    }

    ghost function Repr(): set<object>
      reads this, inner
    {
      {this, sizeBytes, inner, inner.word, inner.block} + PayloadBlock()
    }

    ghost function PayloadBlock(): set<object>
      reads this
    {
      if payload == null then {} else {payload}
    }

    ghost predicate Valid()
      reads this, sizeBytes, payload, inner, inner.word, inner.block
    {
      && inner.Valid() && sizeBytes.Length == 4 && sizeBytes != inner.word && sizeBytes != inner.block
      && payload !in {sizeBytes, inner.word, inner.block}
      && (if phase.Size? then sizeInPhase == |word| < 4 && sizeBytes[..|word|] == word else word == [])
      && (payload == null ==> got == [])
      && (payload != null ==> |got| <= payload.Length && payload[..|got|] == got)
      && (phase.Payload? && messageType != INSTALL_WASM_APP ==>
           payload != null && sizeInPhase == |got| < payload.Length == payloadSize)
      && (ToInstaller(Value()) ==> payload == null)
    }

    /** The install receiver can take a byte if one is passed on to it. */
    ghost predicate Able(env: Install.Env)
      requires InnerReady(Value())
      reads this, inner, inner.word, inner.block
    {
      inner.Allocated(env) && (ToInstaller(Value()) ==> Install.Roomy(inner.Value()))
    }

    constructor ()
      ensures Valid() && Synced(Value()) && fresh(Repr())
      ensures forall env :: inner.Allocated(env)
    {
      phase, sizeInPhase, messageType, payloadSize := NonStart, 0, 0, 0;
      sizeBytes := new byte[4];
      payload, word, got := null, [], [];
      inner := new InstallContext();
    }

    /** memset of the context. */
    method Clear()
      requires Valid()
      modifies this
      ensures Valid() && Value() == Cleared(old(inner.Value())) && payload == null
    {
      phase, sizeInPhase, messageType, payloadSize := NonStart, 0, 0, 0;
      payload, word, got := null, [], [];
    }

    /** A byte between frames, or of the leading bytes or the type. */
    method StartByte(ch: byte, env: Install.Env)
      requires Valid() && (phase.NonStart? || phase.Leading? || phase.Type?)
      modifies this
      ensures Valid() && (payload == old(payload) || payload == null)
      ensures (Value(), false, None) == ByteArrive(old(Value()), ch, env)
    {
      hide PayloadToInstaller;
      match phase
      case NonStart =>
        payloadSize, word := 0, [];
        payload, got := null, [];
        if ch == LEADING_0 { phase := Leading; }
      case Leading =>
        phase := if ch == LEADING_1 then Type else NonStart;
      case Type =>
        if sizeInPhase == 0 {
          sizeInPhase, messageType := 1, ch;
        } else {
          messageType := TypeWord(messageType, ch);
          phase, sizeInPhase := Size, 0;
        }
    }

    method SizeByte(ch: byte, env: Install.Env) returns (complete: bool)
      requires Valid() && phase.Size?
      modifies this, sizeBytes
      ensures Valid() && (payload == null || payload == old(payload) || fresh(payload))
      ensures (Value(), complete, None) == ByteArrive(old(Value()), ch, env)
      ensures complete ==> payload == null
    {
      hide PayloadToInstaller;
      hide TypeWord;
      hide FromBE32;
      sizeBytes[sizeInPhase] := ch;
      sizeInPhase, word := sizeInPhase + 1, word + [ch];
      complete := false;
      if sizeInPhase == 4 {
        assert sizeBytes[..4] == word;
        payloadSize, word := FromBE32(sizeBytes[..4]), [];
        complete := StartPayload();
      }
    }

    /** The payload's size is known: an empty message is complete, another gets its block. */
    method StartPayload() returns (complete: bool)
      requires phase.Size? && sizeInPhase == 4 && word == [] && inner.Valid() && sizeBytes.Length == 4
      requires sizeBytes != inner.word && sizeBytes != inner.block
      modifies this
      ensures Valid() && (payload == null || fresh(payload)) && complete == (old(payloadSize) == 0)
      ensures complete ==> payload == null
      ensures Value() ==
        if complete then Link(NonStart, 4, old(messageType), 0, [], None, old(inner.Value()))
        else InPayload(old(messageType), old(payloadSize),
                       if old(messageType) == INSTALL_WASM_APP then None else Some([]), 0, old(inner.Value()))
    {
      payload, got := null, [];
      complete := payloadSize == 0;
      if complete {
        phase := NonStart;
        return;
      }
      if messageType != INSTALL_WASM_APP { payload := new byte[payloadSize]; }
      phase, sizeInPhase := Payload, 0;
    }

    method PayloadByte(ch: byte, env: Install.Env) returns (complete: bool)
      requires Valid() && phase.Payload? && messageType != INSTALL_WASM_APP
      modifies this, payload
      ensures Valid() && payload == old(payload)
      ensures (Value(), complete, None) == ByteArrive(old(Value()), ch, env)
      ensures complete ==> payload[..] == got
    {
      hide TypeWord;
      hide PayloadToInstaller;
      payload[sizeInPhase] := ch;
      sizeInPhase, got := sizeInPhase + 1, got + [ch];
      complete := sizeInPhase == payloadSize;
      if complete { phase := NonStart; }
    }

    /** The byte goes on to the install receiver. */
    method PassOn(ch: byte, env: Install.Env) returns (complete: bool, installed: Option<Install.Message>)
      requires Valid() && ToInstaller(Value()) && inner.Fits() && inner.Allocated(env)
      modifies this, inner, inner.word, inner.block
      ensures Valid() && payload == old(payload) && (inner.block == old(inner.block) || fresh(inner.block))
      ensures (Value(), complete, installed) == ByteArrive(old(Value()), ch, env)
      ensures inner.Allocated(env) || !env.handlerOk
    {
      hide TypeWord;
      hide Install.Step;
      sizeInPhase := sizeInPhase + 1;
      var o, received := inner.ByteArrive(ch, payloadSize, env);
      installed := if o.Installed? then Some(o.msg) else None;
      complete := !o.Refused? && received == payloadSize;
      if complete {
        phase := NonStart;
      } else if o.Refused? {
        if sizeInPhase < payloadSize { phase := Ignoring; } else { phase, sizeInPhase := NonStart, 0; }
      }
    }

    /** on_imrt_link_byte_arrive */
    method OnByte(ch: byte, env: Install.Env) returns (complete: bool, installed: Option<Install.Message>)
      requires Valid() && Able(env)
      modifies Repr()
      ensures Valid() && fresh(Repr() - old(Repr()))
      ensures (Value(), complete, installed) == ByteArrive(old(Value()), ch, env)
      ensures complete && payload != null ==> payload[..] == got
      ensures inner.Allocated(env) || !env.handlerOk
    {
      complete, installed := false, None;
      match phase
      case Size => complete := SizeByte(ch, env);
      case Payload =>
        if messageType == INSTALL_WASM_APP {
          inner.RoomyFits(env);
          complete, installed := PassOn(ch, env);
        } else {
          complete := PayloadByte(ch, env);
        }
      case Ignoring =>
        sizeInPhase := sizeInPhase + 1;
        if sizeInPhase == payloadSize { Clear(); }
      case _ => StartByte(ch, env);
    }

    /** One round of the callback's loop: a complete request is unpacked and dispatched. */
    method Round(ch: byte, env: Install.Env) returns (events: seq<Event>)
      requires Valid() && Able(env) && !Overreads(Value(), ch)
      modifies Repr()
      ensures Valid() && fresh(Repr() - old(Repr()))
      ensures (Value(), events) == Receive(old(Value()), ch, env)
      ensures inner.Allocated(env) || !env.handlerOk
    {
      hide ByteArrive;
      CompleteReadInside(Value(), ch, env);
      var complete, installed := OnByte(ch, env);
      events := if installed.Some? then [InstallApp(installed.value)] else [];
      if complete {
        if payload != null && messageType == REQUEST_PACKET && payload.Length > 0 {
          var unpacked := Unpack(payload[..]);
          if unpacked.Refused? { return; }
          events := events + [Dispatch(unpacked.r.(sender := ID_HOST))];
        }
        Clear();
      }
    }

    /** aee_host_msg_callback on a piece of the stream. */
    method Callback(msg: seq<byte>, env: Install.Env) returns (events: seq<Event>)
      requires Valid() && env.handlerOk && inner.Allocated(env) && Safe(Value(), msg, env)
      modifies Repr()
      ensures Valid() && fresh(Repr() - old(Repr())) && inner.Allocated(env)
      ensures (Value(), events) == Feed(old(Value()), msg, env)
    {
      events := [];
      assert msg[0..] == msg;
      for i := 0 to |msg|
        invariant Valid() && fresh(Repr() - old(Repr())) && inner.Allocated(env)
        invariant Safe(Value(), msg[i..], env)
        invariant (Value(), events) == Feed(old(Value()), msg[..i], env)
      {
        hide Receive;
        hide Safe;
        hide Feed;
        ghost var before := Value();
        SafeNext(before, msg, i, env);
        var more := Round(msg[i], env);
        FeedNext(old(Value()), msg, i, before, events, env);
        events := events + more;
      }
      assert msg[..|msg|] == msg;
    }
  }

  lemma SafeNext(l: Link, msg: seq<byte>, i: nat, env: Install.Env)
    requires InnerReady(l) && i < |msg| && Safe(l, msg[i..], env)
    ensures (ToInstaller(l) ==> Install.Roomy(l.inner)) && !Overreads(l, msg[i])
    ensures Safe(Receive(l, msg[i], env).0, msg[i + 1..], env)
  {
    assert msg[i..][1..] == msg[i + 1..];
  }

  lemma FeedNext(l0: Link, msg: seq<byte>, i: nat, l: Link, events: seq<Event>, env: Install.Env)
    requires InnerReady(l0) && i < |msg| && Feed(l0, msg[..i], env) == (l, events)
    ensures
      var (l', more) := Receive(l, msg[i], env);
      Feed(l0, msg[..i + 1], env) == (l', events + more)
  {
    hide Receive;
    assert msg[..i] + [msg[i]] == msg[..i + 1];
    FeedAppend(l0, msg[..i], [msg[i]], env);
    FeedOne(l, msg[i], env);
  }
}
