/** The install receiver's context as the object its code updates in place, byte after byte. */
module InstallContexts {
  import opened Words
  import opened InstallReceiver

  /** In these phases the byte goes to a block of its own: the URL or a section's body. */
  predicate ToBlock(p: Phase) {
    p.ReqUrl? || p.WasmSectionContent? || p.AotSectionContent?
  }

  /** In these phases no byte is kept. */
  predicate KeepsNothing(p: Phase) {
    p.ReqVer? || p.ReqAction? || p.WasmSectionType? || p.WasmSectionSize?
  }

  /** The space a section's body gets: text leaves room for the PLT behind it. */
  function BodySpace(s: Section, env: Env): (r: nat)
    ensures if s.kind == 2 && s.size > 0 then r % 4 == 0 && s.size + env.pltSize <= r < s.size + env.pltSize + 4
            else r == s.size
  {
    if s.size > 0 && s.kind == AOT_SECTION_TYPE_TEXT then TextSize(s.size, env.pltSize) else s.size
  }

  class InstallContext {
    var phase: Phase
    var sizeInPhase: nat
    var totalReceived: nat
    var msg: Message
    /** The bytes of the integer being received. */
    const word: array<byte>
    /** The URL or the body of the last section. */
    var block: array<byte>
    /** All bytes of this phase. */
    ghost var part: seq<byte>

    ghost function Value(): Ctx
      reads this
    {
      Ctx(phase, part, totalReceived, msg)
    }

    function Target(): array<byte>
      reads this
    {
      if ToBlock(phase) then block else word
    }

    ghost predicate Valid()
      reads this, word, block
    {
      && word != block && word.Length == 4
      && |part| == sizeInPhase && Ready(Value())
      && (!KeepsNothing(phase) ==> sizeInPhase <= Target().Length && Target()[..sizeInPhase] == part)
    }

    /** The next byte's place is there. */
    ghost predicate Fits()
      reads this
    {
      KeepsNothing(phase) || sizeInPhase < Target().Length
    }

    /** The blocks have the sizes they were allocated with, and no phase has run past its end. */
    ghost predicate Allocated(env: Env)
      requires Ready(Value())
      reads this
    {
      && (phase.ReqPayloadLen? || phase.ReqUrl? ==> block.Length == msg.urlLen + 1)
      && (phase.WasmVersion? || phase.AotVersion? ==> sizeInPhase < 4)
      && (phase.WasmSectionContent? ==> block.Length == Last(msg.sections).size)
      && (phase.AotSectionContent? ==> block.Length == BodySpace(Last(msg.sections), env))
    }

    lemma RoomyFits(env: Env)
      requires Valid() && Allocated(env) && Roomy(Value())
      ensures Fits()
    {}

    constructor ()
      ensures Valid() && Value() == INIT && fresh(word) && fresh(block)
    {
      phase, sizeInPhase, totalReceived, msg := ReqVer, 0, 0, INIT.msg;
      word := new byte[4];
      block := new byte[0];
      part := [];
    }

    /** p[size_in_phase++] = ch */
    method Keep(ch: byte)
      requires Valid() && Fits() && !KeepsNothing(phase) && (phase.AotSectionId? ==> msg.sections != [])
      modifies this`sizeInPhase, this`part, word, block
      ensures Valid() && Value() == old(Value()).(part := old(part) + [ch])
    {
      var target := Target();
      target[sizeInPhase] := ch;
      sizeInPhase, part := sizeInPhase + 1, part + [ch];
    }

    method Enter(next: Phase, m: Message)
      requires Valid() && Ready(Ctx(next, [], totalReceived, m))
      modifies this
      ensures block == old(block)
      ensures Valid() && Value() == Ctx(next, [], old(totalReceived), m)
    {
      phase, sizeInPhase, msg, part := next, 0, m, [];
    }

    /** memset of the context: the receiver starts over. */
    method Clear()
      requires Valid()
      modifies this
      ensures block == old(block)
      ensures Valid() && Value() == INIT
    {
      phase, sizeInPhase, totalReceived, msg, part := ReqVer, 0, 0, INIT.msg, [];
    }

    /** The length of the URL; with its last byte the URL gets a block. */
    method UrlLenByte(ch: byte, ghost env: Env)
      requires Valid() && Fits() && phase.ReqUrlLen?
      modifies this, word, block
      ensures Valid() && (block == old(block) || fresh(block))
      ensures (Value(), Accepted) == StepRequest(old(Value()), ch)
      ensures old(Allocated(env)) ==> Allocated(env)
    {
      hide FromBE16;
      Keep(ch);
      if sizeInPhase == 2 {
        Enter(ReqPayloadLen, msg.(urlLen := FromBE16(word[..2])));
        block := new byte[msg.urlLen + 1](_ => 0);
      }
    }

    /** RECV_INTEGER on a field of the request's header. */
    method HeaderByte(ch: byte, ghost env: Env)
      requires Valid() && Fits()
      requires phase.ReqFmt? || phase.ReqMid? || phase.ReqSender? || phase.ReqUrlLen? || phase.ReqPayloadLen?
      modifies this, word, block
      ensures Valid() && (block == old(block) || fresh(block))
      ensures (Value(), Accepted) == StepRequest(old(Value()), ch)
      ensures old(Allocated(env)) ==> Allocated(env)
    {
      hide FromBE16;
      hide FromBE32;
      if phase.ReqUrlLen? {
        UrlLenByte(ch, env);
        return;
      }
      Keep(ch);
      match phase
      case ReqFmt =>
        if sizeInPhase == 2 { Enter(ReqMid, msg.(fmt := FromBE16(word[..2]))); }
      case ReqMid =>
        if sizeInPhase == 4 { Enter(ReqSender, msg.(mid := FromBE32(word[..4]))); }
      case ReqSender =>
        if sizeInPhase == 4 { Enter(ReqUrlLen, msg.(sender := FromBE32(word[..4]))); }
      case ReqPayloadLen =>
        if sizeInPhase == 4 { Enter(ReqUrl, msg.(appSize := FromBE32(word[..4]))); }
    }

    /** A byte of the URL or of the file's magic. */
    method UrlOrMagicByte(ch: byte, ghost env: Env) returns (o: Outcome)
      requires Valid() && Fits() && (phase.ReqUrl? || phase.AppMagic?)
      modifies this, word, block
      ensures Valid() && block == old(block)
      ensures (Value(), o) == StepRequest(old(Value()), ch)
      ensures old(Allocated(env)) ==> Allocated(env)
    {
      Keep(ch);
      o := Accepted;
      if phase.ReqUrl? {
        if sizeInPhase == msg.urlLen { Enter(AppMagic, msg.(url := block[..sizeInPhase])); }
      } else if sizeInPhase == 4 {
        var magic := word[..4];
        if magic == WASM_MAGIC { Enter(WasmVersion, msg.(magic := magic)); }
        else if magic == AOT_MAGIC { Enter(AotVersion, msg.(magic := magic)); }
        else { Clear(); o := Refused; }
      }
    }

    method VersionByte(ch: byte, version: seq<byte>, next: Phase) returns (o: Outcome)
      requires Valid() && Fits() && |version| == 4
      requires (phase.WasmVersion? && next == WasmSectionType) || (phase.AotVersion? && next == AotSectionId)
      modifies this, word, block
      ensures Valid() && block == old(block) && (Value(), o) == StepVersion(old(Value()), ch, version, next)
    {
      if ch != version[sizeInPhase] {
        Clear();
        return Refused;
      }
      Keep(ch);
      if sizeInPhase == 4 { Enter(next, msg); }
      o := Accepted;
    }

    method SectionType(ch: byte, env: Env) returns (o: Outcome)
      requires Valid() && phase.WasmSectionType?
      modifies this, word, block
      ensures Valid() && block == old(block) && (Value(), o) == StepWasm(old(Value()), ch, 0, env)
    {
      if ch > env.sectionTypeMax {
        Clear();
        return Refused;
      }
      Enter(WasmSectionSize, msg.(sections := msg.sections + [Section(ch, 0, [])]));
      o := Accepted;
    }

    /** The size as LEB128: seven bits at a time are or-ed into the section's size. */
    method SectionSize(ch: byte, env: Env) returns (o: Outcome)
      requires Valid() && phase.WasmSectionSize?
      modifies this, word, block
      ensures Valid() && (block == old(block) || fresh(block)) && (Value(), o) == StepWasm(old(Value()), ch, 0, env)
      ensures phase.WasmSectionContent? ==> block.Length == Last(msg.sections).size
    {
      var s := Last(msg.sections);
      s := s.(size := Or(s.size, SizeBits(ch, sizeInPhase)));
      sizeInPhase, part := sizeInPhase + 1, part + [ch];
      msg := msg.(sections := WithLast(msg.sections, s));
      if sizeInPhase > 5 {
        Clear();
        return Refused;
      }
      if ch < 0x80 {
        Enter(WasmSectionContent, msg);
        block := new byte[s.size];
      }
      o := Accepted;
    }

    /** A byte of a section's body, and with the last one the hand-over to the app manager. */
    method Content(ch: byte, n: nat, env: Env) returns (o: Outcome)
      requires Valid() && Fits() && phase.WasmSectionContent?
      modifies this, word, block
      ensures Valid() && block == old(block) && (Value(), o) == StepWasm(old(Value()), ch, n, env)
    {
      Keep(ch);
      if sizeInPhase == Last(msg.sections).size {
        o := Complete(block[..sizeInPhase], WasmSectionType, n, env);
      } else {
        o := Accepted;
      }
    }

    /** The last section is complete, with this body. */
    method Complete(body: seq<byte>, next: Phase, n: nat, env: Env) returns (o: Outcome)
      requires Valid() && (phase.WasmSectionContent? || phase.AotSectionContent?)
      requires next.WasmSectionType? || next.AotSectionId?
      modifies this, word, block
      ensures Valid() && block == old(block) && (Value(), o) == SectionDone(old(Value()), old(part), body, next, n, env)
    {
      msg := msg.(sections := WithLast(msg.sections, Last(msg.sections).(size := |body|, body := body)));
      if totalReceived != n {
        Enter(next, msg);
        o := Accepted;
      } else if env.handlerOk {
        o := Installed(msg);
        Clear();
      } else {
        o := Refused;
      }
    }

    /** A byte in front of a section: padding, or a byte of its type. */
    method SectionId(ch: byte, env: Env) returns (o: Outcome)
      requires Valid() && Fits() && phase.AotSectionId?
      modifies this, word, block
      ensures Valid() && block == old(block) && (Value(), o) == StepAot(old(Value()), ch, 0, env)
    {
      o := Accepted;
      if sizeInPhase == 0 {
        if (totalReceived - 1 - REQUEST_FIX_PART - msg.urlLen) % 4 != 0 { return; }
        msg := msg.(sections := msg.sections + [Section(0, 0, [])]);
      }
      Keep(ch);
      if sizeInPhase == 4 {
        var kind := Signed(FromLE32(word[..4]));
        if kind < AOT_SECTION_TYPE_SIGANATURE || kind == AOT_SECTION_TYPE_CUSTOM {
          Enter(AotSectionSize, msg.(sections := WithLast(msg.sections, Last(msg.sections).(kind := kind))));
        } else {
          Clear();
          o := Refused;
        }
      }
    }

    method AotSize(ch: byte, env: Env) returns (o: Outcome)
      requires Valid() && Fits() && phase.AotSectionSize?
      modifies this, word, block
      ensures Valid() && (block == old(block) || fresh(block)) && (Value(), o) == StepAot(old(Value()), ch, 0, env)
      ensures phase.AotSectionContent? ==> block.Length == BodySpace(Last(msg.sections), env)
    {
      Keep(ch);
      o := Accepted;
      if sizeInPhase == 4 {
        var s := Last(msg.sections).(size := FromLE32(word[..4]));
        if s.size > 0 && s.kind == AOT_SECTION_TYPE_TEXT && TextSize(s.size, env.pltSize) >= UINT32_MAX {
          Clear();
          return Refused;
        }
        Enter(AotSectionContent, msg.(sections := WithLast(msg.sections, s)));
        block := new byte[BodySpace(s, env)];
      }
    }

    method AotContent(ch: byte, n: nat, env: Env) returns (o: Outcome)
      requires Valid() && Fits() && phase.AotSectionContent? && block.Length == BodySpace(Last(msg.sections), env)
      modifies this, word, block
      ensures Valid() && block == old(block) && (Value(), o) == StepAot(old(Value()), ch, n, env)
    {
      Keep(ch);
      o := Accepted;
      var s := Last(msg.sections);
      if sizeInPhase == s.size {
        var total := s.size;
        if s.kind == AOT_SECTION_TYPE_TEXT {
          total := TextSize(s.size, env.pltSize);
          for i := s.size to total
            invariant block == old(block) && sizeInPhase == s.size && Valid()
            invariant Value() == old(Value()).(part := old(part) + [ch])
            invariant forall k :: s.size <= k < i ==> block[k] == 0
          {
            block[i] := 0;
          }
        }
        assert block[..total] == Body(s.kind, part, env.pltSize);
        o := Complete(block[..total], AotSectionId, n, env);
      }
    }

    method WasmByte(ch: byte, n: nat, env: Env) returns (o: Outcome)
      requires Valid() && Fits() && Allocated(env)
      requires ForWasm(phase)
      modifies this, word, block
      ensures Valid() && (block == old(block) || fresh(block)) && (Value(), o) == StepWasm(old(Value()), ch, n, env)
      ensures Allocated(env) || (o == Refused && !env.handlerOk)
    {
      match phase
      case WasmVersion => o := VersionByte(ch, WASM_VERSION, WasmSectionType);
      case WasmSectionType => o := SectionType(ch, env);
      case WasmSectionSize => o := SectionSize(ch, env);
      case WasmSectionContent => o := Content(ch, n, env);
    }

    method AotByte(ch: byte, n: nat, env: Env) returns (o: Outcome)
      requires Valid() && Fits() && Allocated(env)
      requires ForAot(phase)
      modifies this, word, block
      ensures Valid() && (block == old(block) || fresh(block)) && (Value(), o) == StepAot(old(Value()), ch, n, env)
      ensures Allocated(env) || (o == Refused && !env.handlerOk)
    {
      match phase
      case AotVersion => o := VersionByte(ch, AOT_VERSION, AotSectionId);
      case AotSectionId => o := SectionId(ch, env);
      case AotSectionSize => o := AotSize(ch, env);
      case AotSectionContent => o := AotContent(ch, n, env);
    }

    /** wasm_app_module_on_install_request_byte_arrive on byte ch of a request of n bytes. */
    method ByteArrive(ch: byte, n: nat, env: Env) returns (o: Outcome, received: nat)
      requires Valid() && Fits() && Allocated(env)
      modifies this, word, block
      ensures Valid() && (block == old(block) || fresh(block))
      ensures (Value(), o) == Step(old(Value()), ch, n, env)
      ensures received == (if old(phase).ReqVer? then 1 else old(totalReceived) + 1)
      ensures Allocated(env) || (o == Refused && !env.handlerOk)
    {
      hide StepWasm;
      hide StepAot;
      hide StepRequest;
      if phase.ReqVer? { sizeInPhase, totalReceived, part := 0, 0, []; }
      totalReceived := totalReceived + 1;
      received := totalReceived;
      if phase.ReqVer? {
        if ch != 1 { return Refused, received; }
        Enter(ReqAction, msg);
        o := Accepted;
      } else if phase.ReqAction? {
        Enter(ReqFmt, msg.(action := ch));
        o := Accepted;
      } else if phase.ReqFmt? || phase.ReqMid? || phase.ReqSender? || phase.ReqUrlLen? || phase.ReqPayloadLen? {
        HeaderByte(ch, env);
        o := Accepted;
      } else if phase.ReqUrl? || phase.AppMagic? {
        o := UrlOrMagicByte(ch, env);
      } else if ForWasm(phase) {
        o := WasmByte(ch, n, env);
      } else {
        o := AotByte(ch, n, env);
      }
    }
  }
}
