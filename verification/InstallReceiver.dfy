/**
 * The byte-at-a-time receiver of install requests: request header, URL, file magic, then the
 * sections of a bytecode or AOT file. This module gives the receiver's step as a function of its
 * context; InstallContext.dfy has the object that is updated in place.
 */
module InstallReceiver {
  import opened Words

  datatype Phase =
    | ReqVer | ReqAction | ReqFmt | ReqMid | ReqSender | ReqUrlLen | ReqPayloadLen | ReqUrl
    | AppMagic
    | WasmVersion | WasmSectionType | WasmSectionSize | WasmSectionContent
    | AotVersion | AotSectionId | AotSectionSize | AotSectionContent

  datatype Section = Section(kind: int, size: nat, body: seq<byte>)

  datatype Message = Message(action: byte, fmt: uint16, mid: uint32, sender: uint32, urlLen: uint16,
                             appSize: uint32, url: seq<byte>, magic: seq<byte>, sections: seq<Section>)

  /** part holds the bytes received in the current phase; total counts the bytes of the request. */
  datatype Ctx = Ctx(phase: Phase, part: seq<byte>, total: nat, msg: Message)

  /** A cleared context, as memset leaves it. */
  const INIT := Ctx(ReqVer, [], 0, Message(0, 0, 0, 0, 0, 0, [], [], []))

  /** Accepted: keep going. Refused: false is returned. Installed: the message went to the handler. */
  datatype Outcome = Accepted | Refused | Installed(msg: Message)

  /** What the receiver cannot know: PLT size, bulk-memory build, whether the handler takes the message. */
  datatype Env = Env(pltSize: nat, sectionTypeMax: byte, handlerOk: bool)

  const REQUEST_FIX_PART := 18
  const WASM_MAGIC: seq<byte> := [0, 0x61, 0x73, 0x6D]
  const AOT_MAGIC: seq<byte> := [0, 0x61, 0x6F, 0x74]
  const WASM_VERSION: seq<byte> := [1, 0, 0, 0]
  const AOT_VERSION: seq<byte> := [2, 0, 0, 0]

  const AOT_SECTION_TYPE_TEXT := 2
  const AOT_SECTION_TYPE_SIGANATURE := 6
  const AOT_SECTION_TYPE_CUSTOM := 100

  /** The contribution of a size byte received after k others, as a 32-bit word. */
  function SizeBits(ch: byte, k: nat): uint32 {
    var bits := ch % 0x80;
    match k
    case 0 => bits
    case 1 => bits * 0x80
    case 2 => bits * 0x4000
    case 3 => bits * 0x20_0000
    case _ => bits % 0x10 * 0x1000_0000
  }

  /** Section sizes and types in AOT files are little-endian; the type is a signed int. */
  function Signed(v: uint32): int {
    if v < 0x8000_0000 then v else v - 0x1_0000_0000
  }

  /** Text size with its PLT, rounded up to 4 bytes. */
  function TextSize(size: nat, pltSize: nat): (r: nat)
    ensures r % 4 == 0 && size + pltSize <= r < size + pltSize + 4
  {
    (size + pltSize + 3) / 4 * 4
  }

  function Zeros(n: int): seq<byte> {
    if n <= 0 then [] else seq(n, _ => 0)
  }

  /** An AOT section body once it is complete: text is extended with zeros. */
  function Body(kind: int, bytes: seq<byte>, pltSize: nat): seq<byte> {
    if kind == AOT_SECTION_TYPE_TEXT then bytes + Zeros(TextSize(|bytes|, pltSize) - |bytes|) else bytes
  }

  function WithLast(ss: seq<Section>, s: Section): seq<Section>
    requires ss != []
  {
    ss[..|ss| - 1] + [s]
  }

  function Last(ss: seq<Section>): Section
    requires ss != []
  {
    ss[|ss| - 1]
  }

  // ---- One byte ----

  predicate ForRequest(p: Phase) {
    p.ReqFmt? || p.ReqMid? || p.ReqSender? || p.ReqUrlLen? || p.ReqPayloadLen? || p.ReqUrl? || p.AppMagic?
  }

  predicate ForWasm(p: Phase) {
    p.WasmVersion? || p.WasmSectionType? || p.WasmSectionSize? || p.WasmSectionContent?
  }

  predicate ForAot(p: Phase) {
    p.AotVersion? || p.AotSectionId? || p.AotSectionSize? || p.AotSectionContent?
  }

  /** The size and content phases work on the last section of the list. */
  predicate Ready(c: Ctx) {
    c.phase.WasmSectionSize? || c.phase.WasmSectionContent? || c.phase.AotSectionSize? || c.phase.AotSectionContent?
    || (c.phase.AotSectionId? && c.part != [])
    ==> c.msg.sections != []
  }

  function Fail(): (Ctx, Outcome) {
    (INIT, Refused)
  }

  function Go(c: Ctx, next: Phase, msg: Message): (Ctx, Outcome) {
    (c.(phase := next, part := [], msg := msg), Accepted)
  }

  function Stay(c: Ctx, part: seq<byte>): (Ctx, Outcome) {
    (c.(part := part), Accepted)
  }

  /** A section is complete: hand over after the request's last byte, else on to the next section. */
  function SectionDone(c: Ctx, part: seq<byte>, body: seq<byte>, next: Phase, n: nat, env: Env): (Ctx, Outcome)
    requires c.msg.sections != []
  {
    var s := Last(c.msg.sections);
    var msg := c.msg.(sections := WithLast(c.msg.sections, s.(size := |body|, body := body)));
    if c.total != n then Go(c, next, msg)
    else if env.handlerOk then (INIT, Installed(msg))
    else (c.(part := part, msg := msg), Refused)
  }

  function StepRequest(c: Ctx, ch: byte): (Ctx, Outcome)
    requires ForRequest(c.phase)
  {
    var part := c.part + [ch];
    match c.phase
    case ReqFmt =>
      if |part| == 2 then Go(c, ReqMid, c.msg.(fmt := FromBE16(part))) else Stay(c, part)
    case ReqMid =>
      if |part| == 4 then Go(c, ReqSender, c.msg.(mid := FromBE32(part))) else Stay(c, part)
    case ReqSender =>
      if |part| == 4 then Go(c, ReqUrlLen, c.msg.(sender := FromBE32(part))) else Stay(c, part)
    case ReqUrlLen =>
      if |part| == 2 then Go(c, ReqPayloadLen, c.msg.(urlLen := FromBE16(part))) else Stay(c, part)
    case ReqPayloadLen =>
      if |part| == 4 then Go(c, ReqUrl, c.msg.(appSize := FromBE32(part))) else Stay(c, part)
    case ReqUrl =>
      if |part| == c.msg.urlLen then Go(c, AppMagic, c.msg.(url := part)) else Stay(c, part)
    case AppMagic =>
      if |part| != 4 then Stay(c, part)
      else if part == WASM_MAGIC then Go(c, WasmVersion, c.msg.(magic := part))
      else if part == AOT_MAGIC then Go(c, AotVersion, c.msg.(magic := part))
      else Fail()
  }

  function StepVersion(c: Ctx, ch: byte, version: seq<byte>, next: Phase): (Ctx, Outcome)
    requires |version| == 4
  {
    if |c.part| < 4 && ch == version[|c.part|] then
      if |c.part| == 3 then Go(c, next, c.msg) else Stay(c, c.part + [ch])
    else Fail()
  }

  function StepWasm(c: Ctx, ch: byte, n: nat, env: Env): (Ctx, Outcome)
    requires ForWasm(c.phase) && Ready(c)
  {
    var part := c.part + [ch];
    match c.phase
    case WasmVersion => StepVersion(c, ch, WASM_VERSION, WasmSectionType)
    case WasmSectionType =>
      if ch <= env.sectionTypeMax then
        Go(c, WasmSectionSize, c.msg.(sections := c.msg.sections + [Section(ch, 0, [])]))
      else Fail()
    case WasmSectionSize =>
      var s := Last(c.msg.sections);
      var msg := c.msg.(sections := WithLast(c.msg.sections, s.(size := Or(s.size, SizeBits(ch, |c.part|)))));
      if |part| > 5 then Fail()
      else if ch < 0x80 then Go(c, WasmSectionContent, msg)
      else (c.(part := part, msg := msg), Accepted)
    case WasmSectionContent =>
      if |part| == Last(c.msg.sections).size then SectionDone(c, part, part, WasmSectionType, n, env)
      else Stay(c, part)
  }

  function StepAot(c: Ctx, ch: byte, n: nat, env: Env): (Ctx, Outcome)
    requires ForAot(c.phase) && Ready(c)
  {
    var part := c.part + [ch];
    match c.phase
    case AotVersion => StepVersion(c, ch, AOT_VERSION, AotSectionId)
    case AotSectionId =>
      if c.part == [] && (c.total - 1 - REQUEST_FIX_PART - c.msg.urlLen) % 4 != 0 then (c, Accepted)
      else
        var sections := if c.part == [] then c.msg.sections + [Section(0, 0, [])] else c.msg.sections;
        var c := c.(msg := c.msg.(sections := sections));
        if |part| != 4 then Stay(c, part)
        else
          var kind := Signed(FromLE32(part));
          if kind < AOT_SECTION_TYPE_SIGANATURE || kind == AOT_SECTION_TYPE_CUSTOM then
            Go(c, AotSectionSize, c.msg.(sections := WithLast(sections, Last(sections).(kind := kind))))
          else Fail()
    case AotSectionSize =>
      if |part| != 4 then Stay(c, part)
      else
        var s := Last(c.msg.sections).(size := FromLE32(part));
        if s.size > 0 && s.kind == AOT_SECTION_TYPE_TEXT && TextSize(s.size, env.pltSize) >= UINT32_MAX then Fail()
        else Go(c, AotSectionContent, c.msg.(sections := WithLast(c.msg.sections, s)))
    case AotSectionContent =>
      if |part| == Last(c.msg.sections).size then
        SectionDone(c, part, Body(Last(c.msg.sections).kind, part, env.pltSize), AotSectionId, n, env)
      else Stay(c, part)
  }

  /** wasm_app_module_on_install_request_byte_arrive on byte ch of a request of n bytes. */
  function Step(c: Ctx, ch: byte, n: nat, env: Env): (r: (Ctx, Outcome))
    requires Ready(c)
    ensures Ready(r.0)
  {
    if c.phase.ReqVer? then
      var c := c.(part := [], total := 1);
      if ch != 1 then (c, Refused) else Go(c, ReqAction, c.msg)
    else
      var c := c.(total := c.total + 1);
      if c.phase.ReqAction? then Go(c, ReqFmt, c.msg.(action := ch))
      else if ForWasm(c.phase) then
        StepWasm(c, ch, n, env)
      else if ForAot(c.phase) then
        StepAot(c, ch, n, env)
      else
        StepRequest(c, ch)
  }

  // ---- Many bytes ----

  /** Waiting for more, refused with bytes left over, or installed with bytes left over. */
  datatype Result = Pending(c: Ctx) | Stopped(c: Ctx, left: nat) | Done(c: Ctx, msg: Message, left: nat)

  function Run(c: Ctx, bytes: seq<byte>, n: nat, env: Env): Result
    requires Ready(c)
    decreases |bytes|
  {
    if bytes == [] then Pending(c)
    else
      var (c', o) := Step(c, bytes[0], n, env);
      match o
      case Accepted => Run(c', bytes[1..], n, env)
      case Refused => Stopped(c', |bytes| - 1)
      case Installed(msg) => Done(c', msg, |bytes| - 1)
  }

  /** Bytes may come in any pieces. */
  lemma {:induction false} RunAppend(c: Ctx, xs: seq<byte>, ys: seq<byte>, n: nat, env: Env)
    requires Ready(c)
    ensures Run(c, xs, n, env).Pending? ==> Ready(Run(c, xs, n, env).c)
    ensures
      Run(c, xs + ys, n, env) ==
        match Run(c, xs, n, env)
        case Pending(c') => Run(c', ys, n, env)
        case Stopped(c', k) => Stopped(c', k + |ys|)
        case Done(c', msg, k) => Done(c', msg, k + |ys|)
    decreases |xs|
  {
    if xs == [] {
      assert xs + ys == ys;
    } else {
      assert (xs + ys)[1..] == xs[1..] + ys;
      var (c', o) := Step(c, xs[0], n, env);
      if o == Accepted { RunAppend(c', xs[1..], ys, n, env); }
    }
  }

  // ---- The request header ----

  /** The request packet in front of the file, as pack_request lays it out; url includes its NUL. */
  function RequestHeader(action: byte, fmt: uint16, mid: uint32, sender: uint32, appSize: uint32,
                         url: seq<byte>): seq<byte>
    requires |url| < 0x1_0000
  {
    [1, action] + BE16(fmt) + BE32(mid) + BE32(sender) + BE16(|url|) + BE32(appSize) + url
  }

  /** Receiving xs takes context c to c'. */
  ghost predicate Leads(c: Ctx, xs: seq<byte>, c': Ctx, n: nat, env: Env) {
    Ready(c) && Ready(c') && Run(c, xs, n, env) == Pending(c')
  }

  lemma LeadsStep(c: Ctx, b: byte, n: nat, env: Env)
    requires Ready(c) && Step(c, b, n, env).1 == Accepted
    ensures Leads(c, [b], Step(c, b, n, env).0, n, env)
  {
    Run1(c, b, n, env);
  }

  lemma LeadsTrans(c: Ctx, xs: seq<byte>, c1: Ctx, ys: seq<byte>, c2: Ctx, n: nat, env: Env)
    requires Leads(c, xs, c1, n, env) && Leads(c1, ys, c2, n, env)
    ensures Leads(c, xs + ys, c2, n, env)
  {
    hide Step;
    RunAppend(c, xs, ys, n, env);
  }

  function AfterStep(r: (Ctx, Outcome)): Result {
    match r
    case (c, Accepted) => Pending(c)
    case (c, Refused) => Stopped(c, 0)
    case (c, Installed(msg)) => Done(c, msg, 0)
  }

  lemma Run1(c: Ctx, b: byte, n: nat, env: Env)
    requires Ready(c)
    ensures Run(c, [b], n, env) == AfterStep(Step(c, b, n, env))
  {
    var c' := Step(c, b, n, env).0;
    assert [b][1..] == [];
    assert Run(c', [], n, env) == Pending(c');
  }

  /** In these phases bytes are only kept until there are enough of them. */
  predicate Collecting(c: Ctx) {
    || ForRequest(c.phase) || c.phase.WasmSectionContent? || c.phase.AotSectionSize? || c.phase.AotSectionContent?
    || (c.phase.AotSectionId? && c.part != [])
  }

  function Width(c: Ctx): nat
    requires Collecting(c) && Ready(c)
  {
    match c.phase
    case ReqFmt => 2
    case ReqUrlLen => 2
    case ReqUrl => c.msg.urlLen
    case WasmSectionContent => Last(c.msg.sections).size
    case AotSectionContent => Last(c.msg.sections).size
    case _ => 4
  }

  lemma StepCollects(c: Ctx, ch: byte, n: nat, env: Env)
    requires Ready(c) && Collecting(c) && |c.part| + 1 != Width(c)
    ensures Step(c, ch, n, env) == (c.(part := c.part + [ch], total := c.total + 1), Accepted)
  {}

  /** As long as the count is not hit, bytes pile up: forever, once it was overshot. */
  lemma {:induction false} RunCollects(c: Ctx, bytes: seq<byte>, n: nat, env: Env)
    requires Ready(c) && Collecting(c)
    requires |c.part| + |bytes| < Width(c) || Width(c) <= |c.part|
    ensures Run(c, bytes, n, env) == Pending(c.(part := c.part + bytes, total := c.total + |bytes|))
    decreases |bytes|
  {
    if bytes == [] {
      assert c.part + bytes == c.part;
    } else {
      StepCollects(c, bytes[0], n, env);
      var c' := c.(part := c.part + [bytes[0]], total := c.total + 1);
      RunCollects(c', bytes[1..], n, env);
      assert c'.part + bytes[1..] == c.part + bytes;
    }
  }

  /** The phase has not run past its end; a URL or body of length zero is run past with its first byte. */
  predicate Roomy(c: Ctx)
    requires Ready(c)
  {
    Collecting(c) ==> |c.part| < Width(c)
  }

  /** A receiver that does not wait for ever has not run past a phase's end. */
  lemma RoomyUnlessHanging(c: Ctx, bytes: seq<byte>, n: nat, env: Env)
    requires Ready(c) && !Run(c, bytes, n, env).Pending?
    ensures Roomy(c)
  {
    if !Roomy(c) { RunCollects(c, bytes, n, env); }
  }

  /** The count is hit exactly by y: what happens is up to that byte's step. */
  lemma RunFills(c: Ctx, xs: seq<byte>, y: byte, n: nat, env: Env)
    requires Ready(c) && Collecting(c) && |c.part| + |xs| + 1 == Width(c)
    ensures
      var c' := c.(part := c.part + xs, total := c.total + |xs|);
      Ready(c') && Run(c, xs + [y], n, env) == AfterStep(Step(c', y, n, env))
  {
    RunCollects(c, xs, n, env);
    RunAppend(c, xs, [y], n, env);
    Run1(c.(part := c.part + xs, total := c.total + |xs|), y, n, env);
  }

  /** The context after a whole field of the request header. */
  function AfterField(c: Ctx, w: seq<byte>): Ctx
    requires InField(c) && |w| == Width(c)
  {
    var c := c.(part := [], total := c.total + |w|);
    match c.phase
    case ReqFmt => c.(phase := ReqMid, msg := c.msg.(fmt := FromBE16(w)))
    case ReqMid => c.(phase := ReqSender, msg := c.msg.(mid := FromBE32(w)))
    case ReqSender => c.(phase := ReqUrlLen, msg := c.msg.(sender := FromBE32(w)))
    case ReqUrlLen => c.(phase := ReqPayloadLen, msg := c.msg.(urlLen := FromBE16(w)))
    case ReqPayloadLen => c.(phase := ReqUrl, msg := c.msg.(appSize := FromBE32(w)))
    case ReqUrl => c.(phase := AppMagic, msg := c.msg.(url := w))
  }

  predicate InField(c: Ctx) {
    ForRequest(c.phase) && !c.phase.AppMagic?
  }

  lemma StepEndsField(c: Ctx, xs: seq<byte>, y: byte, n: nat, env: Env)
    requires InField(c) && |xs| + 1 == Width(c)
    ensures Step(c.(part := xs, total := c.total + |xs|), y, n, env) == (AfterField(c, xs + [y]), Accepted)
  {}

  lemma FieldReceived(c: Ctx, w: seq<byte>, n: nat, env: Env)
    requires InField(c) && c.part == [] && |w| == Width(c) && w != []
    ensures Leads(c, w, AfterField(c, w), n, env)
  {
    hide Run;
    var xs, y := w[..|w| - 1], w[|w| - 1];
    assert w == xs + [y] && c.part + xs == xs;
    RunFills(c, xs, y, n, env);
    StepEndsField(c, xs, y, n, env);
  }

  lemma HeaderToSender(action: byte, fmt: uint16, mid: uint32, sender: uint32, n: nat, env: Env)
    ensures Leads(INIT, [1, action] + BE16(fmt) + BE32(mid) + BE32(sender),
                  Ctx(ReqUrlLen, [], 12, INIT.msg.(action := action, fmt := fmt, mid := mid, sender := sender)), n, env)
  {
    hide Step;
    hide Run;
    BigEndianRoundTrip(fmt, mid);
    BigEndianRoundTrip(fmt, sender);
    var c0 := VersionAndAction(action, n, env);
    FieldReceived(c0, BE16(fmt), n, env);
    var c1 := AfterField(c0, BE16(fmt));
    LeadsTrans(INIT, [1, action], c0, BE16(fmt), c1, n, env);
    FieldReceived(c1, BE32(mid), n, env);
    var c2 := AfterField(c1, BE32(mid));
    LeadsTrans(INIT, [1, action] + BE16(fmt), c1, BE32(mid), c2, n, env);
    FieldReceived(c2, BE32(sender), n, env);
    LeadsTrans(INIT, [1, action] + BE16(fmt) + BE32(mid), c2, BE32(sender), AfterField(c2, BE32(sender)), n, env);
  }

  lemma LengthsAndUrl(c: Ctx, appSize: uint32, url: seq<byte>, n: nat, env: Env)
    requires c.phase.ReqUrlLen? && c.part == [] && 0 < |url| < 0x1_0000
    ensures Leads(c, BE16(|url|) + BE32(appSize) + url,
                  Ctx(AppMagic, [], c.total + 6 + |url|, c.msg.(urlLen := |url|, appSize := appSize, url := url)),
                  n, env)
  {
    hide Step;
    hide Run;
    BigEndianRoundTrip(|url|, appSize);
    FieldReceived(c, BE16(|url|), n, env);
    var c1 := AfterField(c, BE16(|url|));
    FieldReceived(c1, BE32(appSize), n, env);
    var c2 := AfterField(c1, BE32(appSize));
    LeadsTrans(c, BE16(|url|), c1, BE32(appSize), c2, n, env);
    FieldReceived(c2, url, n, env);
    LeadsTrans(c, BE16(|url|) + BE32(appSize), c2, url, AfterField(c2, url), n, env);
  }

  /** The whole header, when the URL is not empty. */
  lemma HeaderReceived(action: byte, fmt: uint16, mid: uint32, sender: uint32, appSize: uint32, url: seq<byte>,
                       n: nat, env: Env)
    requires 0 < |url| < 0x1_0000
    ensures Leads(INIT, RequestHeader(action, fmt, mid, sender, appSize, url),
                  Ctx(AppMagic, [], REQUEST_FIX_PART + |url|,
                      Message(action, fmt, mid, sender, |url|, appSize, url, [], [])), n, env)
  {
    HeaderToSender(action, fmt, mid, sender, n, env);
    var c := Ctx(ReqUrlLen, [], 12, INIT.msg.(action := action, fmt := fmt, mid := mid, sender := sender));
    LengthsAndUrl(c, appSize, url, n, env);
    var c' := Ctx(AppMagic, [], 18 + |url|, c.msg.(urlLen := |url|, appSize := appSize, url := url));
    var h := [1, action] + BE16(fmt) + BE32(mid) + BE32(sender);
    var t := BE16(|url|) + BE32(appSize) + url;
    LeadsTrans(INIT, h, c, t, c', n, env);
    assert h + t == RequestHeader(action, fmt, mid, sender, appSize, url);
  }

  lemma VersionAndAction(action: byte, n: nat, env: Env) returns (c: Ctx)
    ensures c == Ctx(ReqFmt, [], 2, INIT.msg.(action := action))
    ensures Leads(INIT, [1, action], c, n, env)
  {
    var c1 := Step(INIT, 1, n, env).0;
    c := Step(c1, action, n, env).0;
    LeadsStep(INIT, 1, n, env);
    LeadsStep(c1, action, n, env);
    LeadsTrans(INIT, [1], c1, [action], c, n, env);
    assert [1] + [action] == [1, action];
  }

  // ---- File magic and version ----

  lemma MagicReceived(c: Ctx, magic: seq<byte>, n: nat, env: Env)
    requires c.phase.AppMagic? && c.part == [] && (magic == WASM_MAGIC || magic == AOT_MAGIC)
    ensures
      var next := if magic == WASM_MAGIC then WasmVersion else AotVersion;
      Leads(c, magic, Ctx(next, [], c.total + 4, c.msg.(magic := magic)), n, env)
  {
    hide Run;
    hide StepWasm;
    hide StepAot;
    assert c.part + magic[..3] == magic[..3] && magic == magic[..3] + [magic[3]];
    RunFills(c, magic[..3], magic[3], n, env);
  }

  predicate AtVersion(c: Ctx, version: seq<byte>) {
    && ((c.phase.WasmVersion? && version == WASM_VERSION) || (c.phase.AotVersion? && version == AOT_VERSION))
    && |c.part| < 4
  }

  /** The context behind the version. */
  function AfterVersion(c: Ctx): Ctx
    requires |c.part| <= 4
  {
    Ctx(if c.phase.WasmVersion? then WasmSectionType else AotSectionId, [], c.total + 4 - |c.part|, c.msg)
  }

  lemma VersionByte(c: Ctx, version: seq<byte>, n: nat, env: Env) returns (c': Ctx)
    requires AtVersion(c, version)
    ensures Step(c, version[|c.part|], n, env) == (c', Accepted)
    ensures if |c.part| == 3 then c' == AfterVersion(c)
            else AtVersion(c', version) && |c'.part| == |c.part| + 1 && AfterVersion(c') == AfterVersion(c)
  {
    c' := Step(c, version[|c.part|], n, env).0;
  }

  lemma {:induction false} VersionReceived(c: Ctx, version: seq<byte>, n: nat, env: Env)
    requires AtVersion(c, version)
    ensures Leads(c, version[|c.part|..], AfterVersion(c), n, env)
    decreases 4 - |c.part|
  {
    hide Step;
    var k := |c.part|;
    var b := version[k];
    var c1 := VersionByte(c, version, n, env);
    LeadsStep(c, b, n, env);
    if k < 3 {
      VersionReceived(c1, version, n, env);
      LeadsTrans(c, [b], c1, version[k + 1..], AfterVersion(c), n, env);
      assert [b] + version[k + 1..] == version[k..];
    } else {
      assert [b] == version[k..];
    }
  }

  /** Header, magic and version: everything in front of the sections. */
  function Preamble(action: byte, fmt: uint16, mid: uint32, sender: uint32, appSize: uint32, url: seq<byte>,
                    magic: seq<byte>): seq<byte>
    requires |url| < 0x1_0000
  {
    RequestHeader(action, fmt, mid, sender, appSize, url) + magic
    + (if magic == WASM_MAGIC then WASM_VERSION else AOT_VERSION)
  }

  lemma PreambleReceived(action: byte, fmt: uint16, mid: uint32, sender: uint32, appSize: uint32, url: seq<byte>,
                         magic: seq<byte>, n: nat, env: Env)
    requires 0 < |url| < 0x1_0000 && (magic == WASM_MAGIC || magic == AOT_MAGIC)
    ensures
      var msg := Message(action, fmt, mid, sender, |url|, appSize, url, magic, []);
      Leads(INIT, Preamble(action, fmt, mid, sender, appSize, url, magic),
            Ctx(if magic == WASM_MAGIC then WasmSectionType else AotSectionId, [], REQUEST_FIX_PART + |url| + 8, msg),
            n, env)
  {
    hide Step;
    HeaderReceived(action, fmt, mid, sender, appSize, url, n, env);
    var h := RequestHeader(action, fmt, mid, sender, appSize, url);
    var c := Ctx(AppMagic, [], REQUEST_FIX_PART + |url|,
                 Message(action, fmt, mid, sender, |url|, appSize, url, [], []));
    MagicReceived(c, magic, n, env);
    var wasm := magic == WASM_MAGIC;
    var c1 := Ctx(if wasm then WasmVersion else AotVersion, [], c.total + 4, c.msg.(magic := magic));
    LeadsTrans(INIT, h, c, magic, c1, n, env);
    var version := if wasm then WASM_VERSION else AOT_VERSION;
    VersionReceived(c1, version, n, env);
    assert version[0..] == version;
    LeadsTrans(INIT, h + magic, c1, version,
               Ctx(if wasm then WasmSectionType else AotSectionId, [], c1.total + 4, c1.msg), n, env);
  }

  // ---- Refusals ----

  lemma RunStops(c: Ctx, b: byte, rest: seq<byte>, n: nat, env: Env)
    requires Ready(c) && Step(c, b, n, env).1 == Refused
    ensures Run(c, [b] + rest, n, env) == Stopped(Step(c, b, n, env).0, |rest|)
  {
    assert ([b] + rest)[1..] == rest;
    hide Step;
  }

  /** Only version 1 of the request packet is taken; the receiver stands where it stood. */
  lemma RequestVersionRefused(b: byte, rest: seq<byte>, n: nat, env: Env)
    requires b != 1
    ensures Run(INIT, [b] + rest, n, env).Stopped? && Run(INIT, [b] + rest, n, env).left == |rest|
    ensures Run(INIT, [b] + rest, n, env).c.phase.ReqVer? && Run(INIT, [b] + rest, n, env).c.msg == INIT.msg
  {
    RunStops(INIT, b, rest, n, env);
  }

  /** A file that is neither bytecode nor AOT is refused with the fourth byte of its magic. */
  lemma MagicRefused(c: Ctx, w: seq<byte>, rest: seq<byte>, n: nat, env: Env)
    requires c.phase.AppMagic? && c.part == [] && |w| == 4
    requires w != [0, 0x61, 0x73, 0x6D] && w != [0, 0x61, 0x6F, 0x74]
    ensures Run(c, w + rest, n, env) == Stopped(INIT, |rest|)
  {
    hide StepWasm;
    hide StepAot;
    assert c.part + w[..3] == w[..3] && w == w[..3] + [w[3]];
    RunFills(c, w[..3], w[3], n, env);
    RunAppend(c, w, rest, n, env);
    hide Run;
  }

  /** So is another version than 1 of bytecode and 2 of AOT files, with its first wrong byte. */
  lemma FileVersionRefused(c: Ctx, b: byte, rest: seq<byte>, n: nat, env: Env)
    requires |c.part| < 4
    requires || (c.phase.WasmVersion? && b != [1, 0, 0, 0][|c.part|])
             || (c.phase.AotVersion? && b != [2, 0, 0, 0][|c.part|])
    ensures Run(c, [b] + rest, n, env) == Stopped(INIT, |rest|)
  {
    RunStops(c, b, rest, n, env);
  }

  /** A section of bytecode of a type above the highest. */
  lemma SectionTypeRefused(c: Ctx, b: byte, rest: seq<byte>, n: nat, env: Env)
    requires c.phase.WasmSectionType? && b > env.sectionTypeMax
    ensures Run(c, [b] + rest, n, env) == Stopped(INIT, |rest|)
  {
    RunStops(c, b, rest, n, env);
  }

  /** A section's size of more than five bytes. */
  lemma LongSizeRefused(c: Ctx, b: byte, rest: seq<byte>, n: nat, env: Env)
    requires c.phase.WasmSectionSize? && Ready(c) && |c.part| == 5
    ensures Run(c, [b] + rest, n, env) == Stopped(INIT, |rest|)
  {
    RunStops(c, b, rest, n, env);
  }

  // ---- LEB128 sizes ----

  /** The unsigned LEB128 grammar of section 5.2.2 of the WebAssembly Core Specification. */
  ghost predicate IsU(bits: int, bs: seq<byte>) {
    && bs != []
    && if |bs| == 1 then bs[0] < 0x80 && (bits < 7 ==> bits >= 0 && bs[0] < Pow2(bits))
       else bs[0] >= 0x80 && bits > 7 && IsU(bits - 7, bs[1..])
  }

  ghost function LebValue(bs: seq<byte>): nat {
    if bs == [] then 0
    else if |bs| == 1 then bs[0]
    else bs[0] % 0x80 + 0x80 * LebValue(bs[1..])
  }

  /** Every number that fits the bits has an encoding. */
  lemma {:induction false} LebExists(v: nat, bits: nat) returns (bs: seq<byte>)
    requires v < Pow2(bits) && bits > 0
    ensures IsU(bits, bs) && LebValue(bs) == v
    decreases bits
  {
    if v < 0x80 {
      bs := [v];
    } else {
      assert Pow2(0) == 1 && bits > 7 by {
        if bits <= 7 { Pow2Grows(bits, 7); SevenBits(0); }
      }
      SevenBits(bits - 7);
      var rest := LebExists(v / 0x80, bits - 7);
      bs := [v % 0x80 + 0x80] + rest;
      assert bs[1..] == rest;
    }
  }

  lemma {:induction false} Pow2Grows(a: nat, b: nat)
    requires a <= b
    ensures Pow2(a) <= Pow2(b)
  {
    if a < b { Pow2Grows(a, b - 1); }
  }

  /** v moved up by k groups of 7 bits. */
  function Shifted(v: nat, k: nat): nat {
    match k
    case 0 => v
    case 1 => v * 0x80
    case 2 => v * 0x4000
    case 3 => v * 0x20_0000
    case _ => v * 0x1000_0000
  }

  lemma SevenBits(n: nat)
    ensures Pow2(n + 7) == 0x80 * Pow2(n)
  {
    assert Pow2(n + 7) == 2 * Pow2(n + 6) == 4 * Pow2(n + 5) == 8 * Pow2(n + 4);
    assert Pow2(n + 4) == 2 * Pow2(n + 3) == 4 * Pow2(n + 2) == 8 * Pow2(n + 1);
  }

  lemma ShiftedIsPow2(k: nat)
    requires k < 5
    ensures Shifted(1, k) == Pow2(7 * k)
  {
    assert Pow2(0) == 1;
    SevenBits(0);
    SevenBits(7);
    SevenBits(14);
    SevenBits(21);
    hide Pow2;
  }

  /** The bits of a size byte lie above those received before, so or-ing them in is adding them. */
  lemma SizeSum(s: nat, ch: byte, k: nat)
    requires k < 5 && s < Shifted(1, k) && (k == 4 ==> ch % 0x80 < 0x10)
    ensures Or(s, SizeBits(ch, k)) == s + Shifted(ch % 0x80, k) < Shifted(1, k) * 0x80
  {
    ShiftedIsPow2(k);
    var bits := ch % 0x80;
    ShiftedTimes(ch, k);
    hide Pow2;
    hide Or;
    hide Shifted;
    hide SizeBits;
    OrAbove(s, bits, 7 * k);
  }

  lemma ShiftedTimes(ch: byte, k: nat)
    requires k < 5 && (k == 4 ==> ch % 0x80 < 0x10)
    ensures Shifted(1, k) * (ch % 0x80) == Shifted(ch % 0x80, k) == SizeBits(ch, k)
    ensures Shifted(1, k) + Shifted(ch % 0x80, k) <= Shifted(1, k) * 0x80
  {}

  lemma ShiftedSum(low: nat, v: nat, k: nat)
    requires k < 4
    ensures Shifted(low + 0x80 * v, k) == Shifted(low, k) + Shifted(v, k + 1)
    ensures Shifted(1, k + 1) == Shifted(1, k) * 0x80
  {}

  lemma LastReplaced(ss: seq<Section>, s: Section, t: Section)
    ensures Last(ss + [s]) == s && WithLast(ss + [s], t) == ss + [t]
  {}

  /** A request whose last section so far is s. */
  function Ending(msg: Message, ss: seq<Section>, s: Section): Message {
    msg.(sections := ss + [s])
  }

  lemma SizeByte(part: seq<byte>, total: nat, msg: Message, ss: seq<Section>, s: Section, ch: byte, n: nat, env: Env)
    requires |part| < 5 && s.size < Shifted(1, |part|) && (|part| == 4 ==> ch % 0x80 < 0x10)
    ensures
      var s' := s.(size := s.size + Shifted(ch % 0x80, |part|));
      Step(Ctx(WasmSectionSize, part, total, Ending(msg, ss, s)), ch, n, env) ==
        (if ch < 0x80 then Ctx(WasmSectionContent, [], total + 1, Ending(msg, ss, s'))
         else Ctx(WasmSectionSize, part + [ch], total + 1, Ending(msg, ss, s')), Accepted)
  {
    SizeSum(s.size, ch, |part|);
    LastReplaced(ss, s, s.(size := s.size + Shifted(ch % 0x80, |part|)));
  }

  function Sizing(part: seq<byte>, total: nat, msg: Message, ss: seq<Section>, kind: int, size: nat): Ctx {
    Ctx(WasmSectionSize, part, total, msg.(sections := ss + [Section(kind, size, [])]))
  }

  function Sized(total: nat, msg: Message, ss: seq<Section>, kind: int, size: nat): Ctx {
    Ctx(WasmSectionContent, [], total, msg.(sections := ss + [Section(kind, size, [])]))
  }

  lemma SizeByteLeads(part: seq<byte>, total: nat, msg: Message, ss: seq<Section>, kind: int, size: nat, b: byte,
                      n: nat, env: Env)
    requires |part| < 5 && size < Shifted(1, |part|) && (|part| == 4 ==> b % 0x80 < 0x10)
    ensures
      var size' := size + Shifted(b % 0x80, |part|);
      Leads(Sizing(part, total, msg, ss, kind, size), [b],
            if b < 0x80 then Sized(total + 1, msg, ss, kind, size')
            else Sizing(part + [b], total + 1, msg, ss, kind, size'), n, env)
  {
    hide Step;
    hide Run;
    SizeByte(part, total, msg, ss, Section(kind, size, []), b, n, env);
    LeadsStep(Sizing(part, total, msg, ss, kind, size), b, n, env);
  }

  lemma LebSum(size: nat, bs: seq<byte>, k: nat)
    requires k < 5 && size < Shifted(1, k) && IsU(32 - 7 * k, bs)
    ensures k == 4 ==> bs[0] % 0x80 < 0x10
    ensures |bs| == 1 ==> bs[0] < 0x80 && LebValue(bs) == bs[0] % 0x80
    ensures |bs| > 1 ==>
      var size1 := size + Shifted(bs[0] % 0x80, k);
      && k < 4 && bs[0] >= 0x80 && IsU(32 - 7 * (k + 1), bs[1..]) && size1 < Shifted(1, k + 1)
      && size1 + Shifted(LebValue(bs[1..]), k + 1) == size + Shifted(LebValue(bs), k)
  {
    assert Pow2(4) == 16;
    if |bs| > 1 {
      SizeSum(size, bs[0], k);
      ShiftedSum(bs[0] % 0x80, LebValue(bs[1..]), k);
    }
  }

  /** A valid encoding with 32 - 7k bits to go, read after k size bytes. */
  lemma {:induction false} SizeReceived(part: seq<byte>, total: nat, msg: Message, ss: seq<Section>, kind: int,
                                        size: nat, bs: seq<byte>, n: nat, env: Env)
    requires |part| < 5 && size < Shifted(1, |part|) && IsU(32 - 7 * |part|, bs)
    ensures Leads(Sizing(part, total, msg, ss, kind, size), bs,
                  Sized(total + |bs|, msg, ss, kind, size + Shifted(LebValue(bs), |part|)), n, env)
    decreases |bs|
  {
    hide Run;
    hide Step;
    var k, b := |part|, bs[0];
    LebSum(size, bs, k);
    SizeByteLeads(part, total, msg, ss, kind, size, b, n, env);
    if |bs| == 1 {
      assert bs == [b];
    } else {
      var size1 := size + Shifted(b % 0x80, k);
      SizeReceived(part + [b], total + 1, msg, ss, kind, size1, bs[1..], n, env);
      LeadsTrans(Sizing(part, total, msg, ss, kind, size), [b],
                 Sizing(part + [b], total + 1, msg, ss, kind, size1), bs[1..],
                 Sized(total + |bs|, msg, ss, kind, size + Shifted(LebValue(bs), k)), n, env);
      assert [b] + bs[1..] == bs;
    }
  }

  // ---- The sections of a bytecode file ----

  /** A section as section 5.5.2 of the WebAssembly Core Specification frames it; leb encodes the body's size. */
  datatype Framed = Framed(kind: byte, leb: seq<byte>, body: seq<byte>)

  ghost predicate ValidFrame(f: Framed, env: Env) {
    f.kind <= env.sectionTypeMax && IsU(32, f.leb) && LebValue(f.leb) == |f.body|
  }

  function Encode(fs: seq<Framed>): seq<byte> {
    if fs == [] then [] else FrameBytes(fs[0]) + Encode(fs[1..])
  }

  function SectionsOf(fs: seq<Framed>): seq<Section> {
    seq(|fs|, i requires 0 <= i < |fs| => Section(fs[i].kind, |fs[i].body|, fs[i].body))
  }

  ghost predicate NoEmptyBody(fs: seq<Framed>) {
    forall f <- fs :: f.body != []
  }

  lemma TypeAndSize(total: nat, msg: Message, f: Framed, n: nat, env: Env)
    requires ValidFrame(f, env)
    ensures Leads(Ctx(WasmSectionType, [], total, msg), [f.kind] + f.leb,
                  Sized(total + 1 + |f.leb|, msg, msg.sections, f.kind, |f.body|), n, env)
  {
    var c, c1 := Ctx(WasmSectionType, [], total, msg), Sizing([], total + 1, msg, msg.sections, f.kind, 0);
    assert Step(c, f.kind, n, env) == (c1, Accepted);
    LeadsStep(c, f.kind, n, env);
    SizeReceived([], total + 1, msg, msg.sections, f.kind, 0, f.leb, n, env);
    LeadsTrans(c, [f.kind], c1, f.leb, Sized(total + 1 + |f.leb|, msg, msg.sections, f.kind, |f.body|), n, env);
  }

  lemma BodyReceived(total: nat, msg: Message, kind: int, body: seq<byte>, n: nat, env: Env)
    requires body != []
    ensures
      var msg' := msg.(sections := msg.sections + [Section(kind, |body|, body)]);
      Run(Sized(total, msg, msg.sections, kind, |body|), body, n, env) ==
        if total + |body| != n then Pending(Ctx(WasmSectionType, [], total + |body|, msg'))
        else if env.handlerOk then Done(INIT, msg', 0)
        else Stopped(Ctx(WasmSectionContent, body, n, msg'), 0)
  {
    hide StepAot;
    hide StepRequest;
    hide Run;
    var c, xs, y := Sized(total, msg, msg.sections, kind, |body|), body[..|body| - 1], body[|body| - 1];
    assert body == xs + [y] && c.part + xs == xs;
    RunFills(c, xs, y, n, env);
    LastReplaced(msg.sections, Section(kind, |body|, []), Section(kind, |body|, body));
  }

  /** A zero-length section never ends: whatever follows is taken for its body. */
  lemma EmptyBodyHangs(total: nat, msg: Message, kind: int, rest: seq<byte>, n: nat, env: Env)
    ensures Run(Sized(total, msg, msg.sections, kind, 0), rest, n, env).Pending?
  {
    RunCollects(Sized(total, msg, msg.sections, kind, 0), rest, n, env);
  }

  /** One section: type and size, then the body. */
  lemma SectionReceived(total: nat, msg: Message, f: Framed, n: nat, env: Env)
    requires ValidFrame(f, env) && f.body != []
    ensures
      var total' := total + |FrameBytes(f)|;
      Run(Ctx(WasmSectionType, [], total, msg), FrameBytes(f), n, env) ==
        if total' != n then Pending(Ctx(WasmSectionType, [], total', WithSection(msg, f)))
        else if env.handlerOk then Done(INIT, WithSection(msg, f), 0)
        else Stopped(Ctx(WasmSectionContent, f.body, n, WithSection(msg, f)), 0)
  {
    hide Step;
    hide Run;
    TypeAndSize(total, msg, f, n, env);
    RunAppend(Ctx(WasmSectionType, [], total, msg), [f.kind] + f.leb, f.body, n, env);
    BodyReceived(total + 1 + |f.leb|, msg, f.kind, f.body, n, env);
  }

  function FrameBytes(f: Framed): seq<byte> {
    [f.kind] + f.leb + f.body
  }

  function WithSection(msg: Message, f: Framed): Message {
    msg.(sections := msg.sections + [Section(f.kind, |f.body|, f.body)])
  }

  lemma SectionThen(total: nat, msg: Message, f: Framed, rest: seq<byte>, n: nat, env: Env)
    requires ValidFrame(f, env) && f.body != [] && total + |FrameBytes(f)| != n
    ensures Run(Ctx(WasmSectionType, [], total, msg), FrameBytes(f) + rest, n, env)
         == Run(Ctx(WasmSectionType, [], total + |FrameBytes(f)|, WithSection(msg, f)), rest, n, env)
  {
    SectionReceived(total, msg, f, n, env);
    RunAppend(Ctx(WasmSectionType, [], total, msg), FrameBytes(f), rest, n, env);
  }

  lemma EmptySectionHangs(total: nat, msg: Message, f: Framed, rest: seq<byte>, n: nat, env: Env)
    requires ValidFrame(f, env) && f.body == []
    ensures Run(Ctx(WasmSectionType, [], total, msg), FrameBytes(f) + rest, n, env).Pending?
  {
    TypeAndSize(total, msg, f, n, env);
    assert FrameBytes(f) == [f.kind] + f.leb;
    RunAppend(Ctx(WasmSectionType, [], total, msg), [f.kind] + f.leb, rest, n, env);
    EmptyBodyHangs(total + 1 + |f.leb|, msg, f.kind, rest, n, env);
  }

  /**
   * The sections of a bytecode file, from the first type byte on: they are installed with the last
   * byte if none is empty, and the receiver waits for ever if one is.
   */
  lemma {:induction false} SectionsReceived(total: nat, msg: Message, fs: seq<Framed>, n: nat, env: Env)
    requires forall f <- fs :: ValidFrame(f, env)
    requires fs != [] && n == total + |Encode(fs)| && env.handlerOk
    ensures
      var r := Run(Ctx(WasmSectionType, [], total, msg), Encode(fs), n, env);
      if NoEmptyBody(fs) then r == Done(INIT, msg.(sections := msg.sections + SectionsOf(fs)), 0) else r.Pending?
    decreases |fs|
  {
    hide *;
    var f, fs' := fs[0], fs[1..];
    assert fs == [f] + fs';
    SectionsCons(msg, f, fs');
    if f.body == [] {
      EmptySectionHangs(total, msg, f, Encode(fs'), n, env);
    } else if fs' == [] {
      SectionReceived(total, msg, f, n, env);
    } else {
      EncodeNotEmpty(fs');
      SectionThen(total, msg, f, Encode(fs'), n, env);
      SectionsReceived(total + |FrameBytes(f)|, WithSection(msg, f), fs', n, env);
    }
  }

  lemma SectionsCons(msg: Message, f: Framed, fs: seq<Framed>)
    ensures Encode([f] + fs) == FrameBytes(f) + Encode(fs)
    ensures WithSection(msg, f).(sections := WithSection(msg, f).sections + SectionsOf(fs))
         == msg.(sections := msg.sections + SectionsOf([f] + fs))
    ensures NoEmptyBody([f] + fs) <==> f.body != [] && NoEmptyBody(fs)
    ensures fs == [] ==>
      NoEmptyBody(fs) && FrameBytes(f) + Encode(fs) == FrameBytes(f)
      && msg.(sections := msg.sections + SectionsOf([f] + fs)) == WithSection(msg, f)
  {
    assert SectionsOf([f] + fs) == [Section(f.kind, |f.body|, f.body)] + SectionsOf(fs);
    assert forall g :: g in [f] + fs <==> g == f || g in fs;
  }

  lemma EncodeNotEmpty(fs: seq<Framed>)
    requires fs != []
    ensures Encode(fs) != []
  {}

  /** A URL of length zero never ends: whatever follows is taken for it. */
  lemma EmptyUrlHangs(action: byte, fmt: uint16, mid: uint32, sender: uint32, appSize: uint32, rest: seq<byte>,
                      n: nat, env: Env)
    ensures Run(INIT, RequestHeader(action, fmt, mid, sender, appSize, []) + rest, n, env).Pending?
  {
    hide Step;
    hide Run;
    HeaderToSender(action, fmt, mid, sender, n, env);
    BigEndianRoundTrip(0, appSize);
    var c := Ctx(ReqUrlLen, [], 12, INIT.msg.(action := action, fmt := fmt, mid := mid, sender := sender));
    FieldReceived(c, BE16(0), n, env);
    var c1 := AfterField(c, BE16(0));
    FieldReceived(c1, BE32(appSize), n, env);
    var c2 := AfterField(c1, BE32(appSize));
    var h := [1, action] + BE16(fmt) + BE32(mid) + BE32(sender);
    LeadsTrans(INIT, h, c, BE16(0), c1, n, env);
    LeadsTrans(INIT, h + BE16(0), c1, BE32(appSize), c2, n, env);
    var header := RequestHeader(action, fmt, mid, sender, appSize, []);
    assert h + BE16(0) + BE32(appSize) == header;
    RunAppend(INIT, header, rest, n, env);
    RunCollects(c2, rest, n, env);
  }

  /**
   * A bytecode install request, fed byte by byte: exactly the sections sent are handed over, exactly
   * with the last byte, and the context is cleared, if and only if there is a URL, there are sections,
   * and every section has a body.
   */
  lemma BytecodeInstalled(action: byte, fmt: uint16, mid: uint32, sender: uint32, appSize: uint32, url: seq<byte>,
                          fs: seq<Framed>, env: Env)
    requires |url| < 0x1_0000 && env.handlerOk && forall f <- fs :: ValidFrame(f, env)
    ensures
      var request := Preamble(action, fmt, mid, sender, appSize, url, WASM_MAGIC) + Encode(fs);
      var msg := Message(action, fmt, mid, sender, |url|, appSize, url, WASM_MAGIC, SectionsOf(fs));
      Run(INIT, request, |request|, env) == Done(INIT, msg, 0) <==> url != [] && fs != [] && NoEmptyBody(fs)
  {
    hide Step;
    var p := Preamble(action, fmt, mid, sender, appSize, url, WASM_MAGIC);
    var n := |p + Encode(fs)|;
    if url == [] {
      EmptyUrlHangs(action, fmt, mid, sender, appSize, WASM_MAGIC + WASM_VERSION + Encode(fs), n, env);
      assert p + Encode(fs) == RequestHeader(action, fmt, mid, sender, appSize, [])
                               + (WASM_MAGIC + WASM_VERSION + Encode(fs));
    } else {
      var msg := Message(action, fmt, mid, sender, |url|, appSize, url, WASM_MAGIC, []);
      PreambleReceived(action, fmt, mid, sender, appSize, url, WASM_MAGIC, n, env);
      RunAppend(INIT, p, Encode(fs), n, env);
      if fs != [] { SectionsReceived(|p|, msg, fs, n, env); }
      assert [] + SectionsOf(fs) == SectionsOf(fs);
    }
  }

  /** A whole request, byte for byte: request "a", and a file with one section of type 1 and one byte. */
  lemma BytecodeExample(env: Env)
    requires env.handlerOk && env.sectionTypeMax >= 1
    ensures
      var request: seq<byte> := [1, 2, 0, 3, 0, 0, 0, 7, 0, 0, 0, 9, 0, 2, 0, 0, 0, 11, 97, 0,
                                 0, 0x61, 0x73, 0x6D, 1, 0, 0, 0, 1, 1, 5];
      Run(INIT, request, 31, env)
      == Done(INIT, Message(2, 3, 7, 9, 2, 11, [97, 0], [0, 0x61, 0x73, 0x6D], [Section(1, 1, [5])]), 0)
  {
    hide *;
    var f := ExampleFrame(env);
    ExamplePreamble();
    BytecodeInstalled(2, 3, 7, 9, 11, [97, 0], [f], env);
  }

  lemma ExampleFrame(env: Env) returns (f: Framed)
    requires env.sectionTypeMax >= 1
    ensures ValidFrame(f, env) && Encode([f]) == [1, 1, 5] && SectionsOf([f]) == [Section(1, 1, [5])]
    ensures NoEmptyBody([f]) && WASM_MAGIC == [0, 0x61, 0x73, 0x6D]
  {
    f := Framed(1, [1], [5]);
    assert SectionsOf([f])[0] == Section(1, 1, [5]);
  }

  lemma ExampleHeader(appSize: byte)
    ensures RequestHeader(2, 3, 7, 9, appSize, [97, 0])
         == [1, 2, 0, 3, 0, 0, 0, 7, 0, 0, 0, 9, 0, 2, 0, 0, 0, appSize, 97, 0]
  {
    assert BE32(appSize) == [0, 0, 0, appSize] && BE32(7) == [0, 0, 0, 7] && BE32(9) == [0, 0, 0, 9];
  }

  lemma ExamplePreamble()
    ensures Preamble(2, 3, 7, 9, 11, [97, 0], WASM_MAGIC) + [1, 1, 5]
         == [1, 2, 0, 3, 0, 0, 0, 7, 0, 0, 0, 9, 0, 2, 0, 0, 0, 11, 97, 0,
             0, 0x61, 0x73, 0x6D, 1, 0, 0, 0, 1, 1, 5]
  {
    ExampleHeader(11);
    hide RequestHeader;
  }
}
