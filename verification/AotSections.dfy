/**
 * Two readers of the sections of an AOT file: the byte-at-a-time receiver and the loader's batch
 * splitter (create_sections with resolve_execute_mode), and exactly where they agree.
 */
module AotSections {
  import opened Words
  import opened InstallReceiver

  const AOT_SECTION_TYPE_TARGET_INFO := 0
  const E_TYPE_XIP := 4

  // ---- Section headers ----

  function Align4(p: nat): nat {
    (p + 3) / 4 * 4
  }

  /** A section's type as the file has it, where its content starts, and the content's size. */
  datatype Head = Head(word: uint32, at: nat, size: uint32)

  /** The header from pos on, with the offset behind the content; nothing if the file ends before that. */
  function HeadAt(file: seq<byte>, pos: nat): (r: Option<(Head, nat)>)
    ensures r.Some? ==> pos < r.value.1 == r.value.0.at + r.value.0.size <= |file|
  {
    var p := Align4(pos);
    if p + 8 > |file| || p + 8 + GetLE32(file, p + 4) > |file| then None
    else
      var h := Head(GetLE32(file, p), p + 8, GetLE32(file, p + 4));
      Some((h, p + 8 + h.size))
  }

  function Prepend<T>(x: T, r: Option<seq<T>>): Option<seq<T>> {
    match r
    case None => None
    case Some(xs) => Some([x] + xs)
  }

  function HeadsFrom(file: seq<byte>, pos: nat): Option<seq<Head>>
    decreases |file| - pos
  {
    if pos >= |file| then Some([])
    else
      match HeadAt(file, pos)
      case None => None
      case Some((h, next)) => Prepend(h, HeadsFrom(file, next))
  }

  // ---- The sections a reader makes of a file ----

  /** The receiver, or the loader on a file that it executes in place or not. */
  datatype Reader = Receiver | Loader(inPlace: bool)

  predicate KnownKind(kind: int) {
    kind < AOT_SECTION_TYPE_SIGANATURE || kind == AOT_SECTION_TYPE_CUSTOM
  }

  predicate TextTooBig(kind: int, size: nat, pltSize: nat) {
    kind == AOT_SECTION_TYPE_TEXT && size > 0 && TextSize(size, pltSize) >= UINT32_MAX
  }

  /** A section with its content; text that is not executed in place gets zeros behind it. */
  function Complete(kind: int, bytes: seq<byte>, inPlace: bool, pltSize: nat): Section {
    var body := if bytes != [] && !inPlace then Body(kind, bytes, pltSize) else bytes;
    Section(kind, |body|, body)
  }

  /** The type as the reader compares it: the receiver has it in an int. */
  function Kind(r: Reader, word: uint32): int {
    if r.Receiver? then Signed(word) else word
  }

  /** A reader gets through this section; the receiver never gets through an empty one. */
  predicate Takes(r: Reader, h: Head, pltSize: nat) {
    && KnownKind(Kind(r, h.word))
    && (r.Receiver? ==> h.size > 0)
    && (r != Loader(true) ==> !TextTooBig(Kind(r, h.word), h.size, pltSize))
  }

  function SectionOf(r: Reader, h: Head, file: seq<byte>, pltSize: nat): Section
    requires h.at + h.size <= |file|
  {
    Complete(Kind(r, h.word), file[h.at..h.at + h.size], r == Loader(true), pltSize)
  }

  function SectionsFrom(r: Reader, file: seq<byte>, pos: nat, pltSize: nat): Option<seq<Section>>
    decreases |file| - pos
  {
    if pos >= |file| then Some([])
    else
      match HeadAt(file, pos)
      case None => None
      case Some((h, next)) =>
        if !Takes(r, h, pltSize) then None
        else Prepend(SectionOf(r, h, file, pltSize), SectionsFrom(r, file, next, pltSize))
  }

  /** A file without any section is refused. */
  function NotEmpty(r: Option<seq<Section>>): Option<seq<Section>> {
    if r == Some([]) then None else r
  }

  // ---- The loader ----

  /** From pos on: is the file executed in place? Nothing if that cannot be told. */
  function ExecuteModeFrom(file: seq<byte>, pos: nat): Option<bool>
    decreases |file| - pos
  {
    var p := Align4(pos);
    if pos >= |file| then Some(false)
    else if p + 4 > |file| then None
    else if GetLE32(file, p) > AOT_SECTION_TYPE_SIGANATURE then Some(false)
    else
      match HeadAt(file, pos)
      case None => None
      case Some((h, next)) =>
        if h.word != AOT_SECTION_TYPE_TARGET_INFO then ExecuteModeFrom(file, next)
        else if h.at + 6 > |file| then None
        else Some(GetLE16(file, h.at + 4) == E_TYPE_XIP)
  }

  function ExecuteMode(file: seq<byte>): Option<bool> {
    ExecuteModeFrom(file, 8)
  }

  /** A whole section of a type from 1 to 6, which the search for the mode skips. */
  predicate Skipped(file: seq<byte>, pos: nat) {
    pos < |file| && HeadAt(file, pos).Some? && 1 <= HeadAt(file, pos).value.0.word <= 6
  }

  /** Where sections start, from pos on; all but the last are skipped. */
  ghost predicate Walk(file: seq<byte>, pos: nat, starts: seq<nat>) {
    && starts != [] && starts[0] == pos
    && forall i :: 0 <= i < |starts| - 1 ==>
         Skipped(file, starts[i]) && starts[i + 1] == HeadAt(file, starts[i]).value.1
  }

  /** TARGET_INFO at pos, of a file to be executed in place. */
  predicate InPlaceInfo(file: seq<byte>, pos: nat) {
    && pos < |file| && HeadAt(file, pos).Some?
    && var h := HeadAt(file, pos).value.0;
       h.word == 0 && h.at + 6 <= |file| && GetLE16(file, h.at + 4) == 4
  }

  /** The file ends in the first word of a section, in one of a type up to 6, or before the mode in TARGET_INFO. */
  predicate CutOff(file: seq<byte>, pos: nat) {
    && pos < |file|
    && (|| Align4(pos) + 4 > |file|
        || (GetLE32(file, Align4(pos)) <= 6 && HeadAt(file, pos).None?)
        || (GetLE32(file, Align4(pos)) == 0 && HeadAt(file, pos).value.0.at + 6 > |file|))
  }

  lemma {:induction false} ModeAlong(file: seq<byte>, pos: nat, starts: seq<nat>)
    requires Walk(file, pos, starts)
    ensures ExecuteModeFrom(file, pos) == ExecuteModeFrom(file, starts[|starts| - 1])
    decreases |starts|
  {
    if |starts| > 1 {
      assert Skipped(file, starts[0]);
      ModeAlong(file, starts[1], starts[1..]);
    }
  }

  lemma {:induction false} WalkEnds(file: seq<byte>, pos: nat) returns (starts: seq<nat>)
    ensures Walk(file, pos, starts) && !Skipped(file, starts[|starts| - 1])
    decreases |file| - pos
  {
    starts := [pos];
    if Skipped(file, pos) {
      var rest := WalkEnds(file, HeadAt(file, pos).value.1);
      starts := [pos] + rest;
      assert forall i :: 0 < i < |starts| ==> starts[i] == rest[i - 1];
    }
  }

  /**
   * What the search finds, by the first section that it does not skip: a file is executed in place if this is
   * TARGET_INFO that says so, the mode cannot be told if the file is cut off there, and any other file is not.
   */
  lemma ExecuteModeWhen(file: seq<byte>)
    ensures ExecuteMode(file) == Some(true) <==>
      exists starts :: Walk(file, 8, starts) && InPlaceInfo(file, starts[|starts| - 1])
    ensures ExecuteMode(file) == None <==>
      exists starts :: Walk(file, 8, starts) && CutOff(file, starts[|starts| - 1])
  {
    var starts := WalkEnds(file, 8);
    forall xs | Walk(file, 8, xs) ensures ExecuteMode(file) == ExecuteModeFrom(file, xs[|xs| - 1]) {
      ModeAlong(file, 8, xs);
    }
    hide Walk;
  }

  /** The loader's sections of a whole file. */
  function Split(file: seq<byte>, pltSize: nat): Option<seq<Section>> {
    match ExecuteMode(file)
    case None => None
    case Some(inPlace) => NotEmpty(SectionsFrom(Loader(inPlace), file, 8, pltSize))
  }

  /** resolve_execute_mode on a file at a 4-aligned address. */
  method ResolveExecuteMode(file: seq<byte>) returns (mode: Option<bool>)
    requires 8 <= |file|
    ensures mode == ExecuteMode(file)
  {
    var p := 8;
    while p < |file|
      invariant ExecuteMode(file) == ExecuteModeFrom(file, p)
      decreases |file| - p
    {
      ghost var pos := p;
      p := Align4(p);
      if p + 4 > |file| { return None; }
      var kind := GetLE32(file, p);
      p := p + 4;
      if kind > AOT_SECTION_TYPE_SIGANATURE { return Some(false); }
      if p + 4 > |file| { return None; }
      var size := GetLE32(file, p);
      p := p + 4;
      if p + size > |file| { return None; }
      assert HeadAt(file, pos) == Some((Head(kind, p, size), p + size));
      if kind == AOT_SECTION_TYPE_TARGET_INFO {
        p := p + 4;
        if p + 2 > |file| { return None; }
        return Some(GetLE16(file, p) == E_TYPE_XIP);
      }
      p := p + size;
    }
    mode := Some(false);
  }

  /** One round of the splitter's loop: the section, and the offset behind it. */
  method ReadSection(file: seq<byte>, pos: nat, inPlace: bool, pltSize: nat) returns (r: Option<(Section, nat)>)
    ensures
      var loader, head := Loader(inPlace), HeadAt(file, pos);
      r == if head.Some? && Takes(loader, head.value.0, pltSize)
           then Some((SectionOf(loader, head.value.0, file, pltSize), head.value.1)) else None
  {
    hide Complete;
    hide TextTooBig;
    hide GetLE32;
    var p := Align4(pos);
    if p + 4 > |file| { return None; }
    var kind: int := GetLE32(file, p);
    p := p + 4;
    if !KnownKind(kind) { return None; }
    if p + 4 > |file| { return None; }
    var size: int := GetLE32(file, p);
    p := p + 4;
    if p + size > |file| { return None; }
    if !inPlace && TextTooBig(kind, size, pltSize) { return None; }
    r := Some((Complete(kind, file[p..p + size], inPlace, pltSize), p + size));
  }

  function Joined(list: seq<Section>, r: Option<seq<Section>>): Option<seq<Section>> {
    match r
    case None => None
    case Some(ss) => Some(list + ss)
  }

  lemma JoinedPrepend(list: seq<Section>, s: Section, r: Option<seq<Section>>)
    ensures Joined(list, Prepend(s, r)) == Joined(list + [s], r)
    ensures Joined([], r) == r && Joined(list, Some([])) == Some(list)
  {
    if r.Some? {
      assert list + ([s] + r.value) == list + [s] + r.value;
      assert [] + r.value == r.value;
    }
    assert list + [] == list;
  }

  /** create_sections on a file at a 4-aligned address. */
  method CreateSections(file: seq<byte>, pltSize: nat) returns (r: Option<seq<Section>>)
    requires 8 <= |file|
    ensures r == Split(file, pltSize)
  {
    var mode := ResolveExecuteMode(file);
    if mode.None? { return None; }
    var loader, p, list: seq<Section> := Loader(mode.value), 8, [];
    ghost var left := SectionsFrom(loader, file, 8, pltSize);
    JoinedPrepend([], Section(0, 0, []), left);
    while p < |file|
      invariant left == SectionsFrom(loader, file, p, pltSize)
      invariant SectionsFrom(loader, file, 8, pltSize) == Joined(list, left)
      decreases |file| - p
    {
      var read := ReadSection(file, p, mode.value, pltSize);
      if read.None? { return None; }
      var (section, next) := read.value;
      left := SectionsFrom(loader, file, next, pltSize);
      JoinedPrepend(list, section, left);
      list, p := list + [section], next;
    }
    JoinedPrepend(list, Section(0, 0, []), left);
    r := if list == [] then None else Some(list);
  }

  // ---- What the lists are ----

  /** The file from pos on, cut into sections: each starts at the next multiple of 4, the last ends the file. */
  ghost predicate CutInto(file: seq<byte>, pos: nat, hs: seq<Head>) {
    && (if hs == [] then pos >= |file|
        else pos < |file| && hs[0].at % 4 == 0 && pos + 8 <= hs[0].at < pos + 12)
    && forall i :: 0 <= i < |hs| ==> CutAt(file, hs, i)
  }

  ghost predicate CutAt(file: seq<byte>, hs: seq<Head>, i: nat)
    requires i < |hs|
  {
    var h := hs[i];
    && 8 <= h.at && h.at + h.size <= |file|
    && h.word == GetLE32(file, h.at - 8) && h.size == GetLE32(file, h.at - 4)
    && if i + 1 == |hs| then h.at + h.size == |file|
       else
         var at := hs[i + 1].at;
         h.at + h.size < |file| && at % 4 == 0 && h.at + h.size + 8 <= at < h.at + h.size + 12
  }

  /**
   * A reader gets through the section and makes s of it. Types are those below 6 and 100, for the receiver also
   * the negative ones; text that is copied has room for the PLT behind it, in whole words below 4 GiB, all zero.
   */
  ghost predicate MadeOf(r: Reader, file: seq<byte>, h: Head, s: Section, pltSize: nat)
    requires h.at + h.size <= |file|
  {
    var bytes := file[h.at..h.at + h.size];
    && (h.word < 6 || h.word == 100 || (r == Receiver && h.word >= 0x8000_0000))
    && (r == Receiver ==> h.size > 0)
    && s.kind == (if h.word < 0x8000_0000 then h.word else h.word - 0x1_0000_0000) && s.size == |s.body|
    && if h.word == 2 && h.size > 0 && r != Loader(true) then
         && h.size + pltSize <= 0xFFFF_FFFC
         && |s.body| % 4 == 0 && h.size + pltSize <= |s.body| < h.size + pltSize + 4
         && s.body[..h.size] == bytes && forall k :: h.size <= k < |s.body| ==> s.body[k] == 0
       else s.body == bytes
  }

  lemma MadeWhen(r: Reader, file: seq<byte>, h: Head, s: Section, pltSize: nat)
    requires h.at + h.size <= |file|
    ensures MadeOf(r, file, h, s, pltSize) <==> Takes(r, h, pltSize) && s == SectionOf(r, h, file, pltSize)
  {
    var made := SectionOf(r, h, file, pltSize);
    if MadeOf(r, file, h, s, pltSize) || (Takes(r, h, pltSize) && s == made) {
      assert |s.body| == |made.body|;
      assert forall k :: 0 <= k < |s.body| ==> s.body[k] == made.body[k];
      assert s.body == made.body;
    }
  }

  /** The list a reader makes of a file that is cut into sections. */
  ghost predicate ListOf(r: Reader, file: seq<byte>, hs: seq<Head>, list: seq<Section>, pltSize: nat) {
    |list| == |hs| && forall i :: 0 <= i < |hs| ==>
      hs[i].at + hs[i].size <= |file| && MadeOf(r, file, hs[i], list[i], pltSize)
  }

  lemma HeadWhen(file: seq<byte>, pos: nat, h: Head)
    ensures HeadAt(file, pos) == Some((h, h.at + h.size)) <==>
      && h.at % 4 == 0 && pos + 8 <= h.at < pos + 12 && h.at + h.size <= |file|
      && h.word == GetLE32(file, h.at - 8) && h.size == GetLE32(file, h.at - 4)
  {
    hide GetLE32;
  }

  lemma CutCons(file: seq<byte>, pos: nat, hs: seq<Head>)
    requires hs != []
    ensures CutInto(file, pos, hs) <==>
      && pos < |file| && HeadAt(file, pos) == Some((hs[0], hs[0].at + hs[0].size))
      && CutInto(file, hs[0].at + hs[0].size, hs[1..])
  {
    var h, tail, next := hs[0], hs[1..], hs[0].at + hs[0].size;
    HeadWhen(file, pos, h);
    hide HeadAt;
    hide GetLE32;
    assert forall i :: 0 <= i < |tail| ==> (CutAt(file, tail, i) <==> CutAt(file, hs, i + 1));
    if CutInto(file, pos, hs) {
      assert CutAt(file, hs, 0);
      forall i | 0 <= i < |tail| ensures CutAt(file, tail, i) { assert CutAt(file, hs, i + 1); }
    }
    if CutInto(file, next, tail) && pos < |file| && HeadAt(file, pos) == Some((h, next)) {
      forall i | 0 <= i < |hs| ensures CutAt(file, hs, i) {
        if i > 0 { assert CutAt(file, tail, i - 1); }
      }
    }
  }

  lemma {:induction false} HeadsWhen(file: seq<byte>, pos: nat, hs: seq<Head>)
    ensures HeadsFrom(file, pos) == Some(hs) <==> CutInto(file, pos, hs)
    decreases |hs|
  {
    if hs != [] {
      CutCons(file, pos, hs);
      HeadsWhen(file, hs[0].at + hs[0].size, hs[1..]);
      assert [hs[0]] + hs[1..] == hs;
    }
    hide CutInto;
    hide HeadAt;
  }

  lemma ListCons(r: Reader, file: seq<byte>, hs: seq<Head>, list: seq<Section>, pltSize: nat)
    requires hs != [] && list != []
    ensures ListOf(r, file, hs, list, pltSize) <==>
      && hs[0].at + hs[0].size <= |file| && MadeOf(r, file, hs[0], list[0], pltSize)
      && ListOf(r, file, hs[1..], list[1..], pltSize)
  {
    hide MadeOf;
    if ListOf(r, file, hs[1..], list[1..], pltSize) {
      assert forall i :: 0 < i < |hs| ==> hs[i] == hs[1..][i - 1] && (i < |list| ==> list[i] == list[1..][i - 1]);
    }
  }

  lemma {:induction false} ListWhen(r: Reader, file: seq<byte>, pos: nat, hs: seq<Head>, list: seq<Section>,
                                    pltSize: nat)
    requires CutInto(file, pos, hs)
    ensures SectionsFrom(r, file, pos, pltSize) == Some(list) <==> ListOf(r, file, hs, list, pltSize)
    decreases |hs|
  {
    hide MadeOf;
    hide Takes;
    hide SectionOf;
    hide HeadAt;
    if hs != [] {
      CutCons(file, pos, hs);
      var next, rest := hs[0].at + hs[0].size, if list == [] then [] else list[1..];
      ListWhen(r, file, next, hs[1..], rest, pltSize);
      if list != [] {
        ListCons(r, file, hs, list, pltSize);
        MadeWhen(r, file, hs[0], list[0], pltSize);
        assert [list[0]] + rest == list;
      }
      hide CutInto;
    }
  }

  /**
   * Exactly which list the receiver makes of a file: there are sections, cut at multiples of 4, and each is one
   * it gets through, with the file's bytes in its body.
   */
  lemma ReceivedWhen(file: seq<byte>, list: seq<Section>, pltSize: nat)
    ensures Received(file, pltSize) == Some(list) <==>
      exists hs :: hs != [] && CutInto(file, 8, hs) && ListOf(Receiver, file, hs, list, pltSize)
  {
    WholeList(Receiver, file, list, pltSize);
    hide CutInto;
    hide ListOf;
    hide SectionsFrom;
  }

  /** Exactly which list the loader makes of a file: it must find the mode, which may tell it to leave text alone. */
  lemma SplitWhen(file: seq<byte>, list: seq<Section>, pltSize: nat)
    ensures Split(file, pltSize) == Some(list) <==>
      var mode := ExecuteMode(file);
      && mode.Some?
      && exists hs :: hs != [] && CutInto(file, 8, hs) && ListOf(Loader(mode.value), file, hs, list, pltSize)
  {
    hide ExecuteMode;
    hide CutInto;
    hide ListOf;
    hide SectionsFrom;
    if ExecuteMode(file).Some? { WholeList(Loader(ExecuteMode(file).value), file, list, pltSize); }
  }

  lemma WholeList(r: Reader, file: seq<byte>, list: seq<Section>, pltSize: nat)
    ensures NotEmpty(SectionsFrom(r, file, 8, pltSize)) == Some(list) <==>
      exists hs :: hs != [] && CutInto(file, 8, hs) && ListOf(r, file, hs, list, pltSize)
  {
    if SectionsFrom(r, file, 8, pltSize).Some? {
      SectionsWhen(r, file, 8, pltSize);
      var hs := HeadsFrom(file, 8).value;
      HeadsWhen(file, 8, hs);
      ListWhen(r, file, 8, hs, list, pltSize);
    }
    forall hs | CutInto(file, 8, hs) && ListOf(r, file, hs, list, pltSize)
      ensures SectionsFrom(r, file, 8, pltSize) == Some(list) && |list| == |hs|
    {
      ListWhen(r, file, 8, hs, list, pltSize);
    }
    hide CutInto;
    hide ListOf;
    hide SectionsFrom;
  }

  // ---- Exactly where they agree ----

  /** What the receiver makes of a whole file. */
  function Received(file: seq<byte>, pltSize: nat): Option<seq<Section>> {
    NotEmpty(SectionsFrom(Receiver, file, 8, pltSize))
  }

  ghost predicate HasEmpty(hs: seq<Head>) {
    exists h <- hs :: h.size == 0
  }

  /** Some type is negative as an int. */
  ghost predicate HasNegative(hs: seq<Head>) {
    exists h <- hs :: h.word >= 0x8000_0000
  }

  ghost predicate HasTooBig(hs: seq<Head>, pltSize: nat) {
    exists h <- hs :: TextTooBig(h.word, h.size, pltSize)
  }

  predicate Extended(h: Head, pltSize: nat) {
    h.word == AOT_SECTION_TYPE_TEXT && h.size > 0 && TextSize(h.size, pltSize) != h.size
  }

  ghost predicate HasExtended(hs: seq<Head>, pltSize: nat) {
    exists h <- hs :: Extended(h, pltSize)
  }

  /** Some type is refused by the receiver, and then by the loader as well. */
  ghost predicate HasUnknown(hs: seq<Head>) {
    exists h <- hs :: !KnownKind(Signed(h.word))
  }

  /**
   * Receiver and loader come to different results. The file is cut into sections, and all types are
   * known as ints; then it depends on the mode. If it cannot be resolved, the loader refuses what the
   * receiver takes. If text is copied, empty sections stop the receiver only and negative types the
   * loader only. If text is executed in place, oversized text stops the receiver only as well, and
   * the two lists differ in text that the receiver extends.
   */
  ghost predicate Differ(file: seq<byte>, pltSize: nat) {
    var heads := HeadsFrom(file, 8);
    && heads.Some? && heads.value != [] && !HasUnknown(heads.value)
    && var hs := heads.value;
       var stopped := HasEmpty(hs) || HasTooBig(hs, pltSize);
       match ExecuteMode(file)
       case None => !stopped
       case Some(false) => !HasTooBig(hs, pltSize) && (HasEmpty(hs) <==> !HasNegative(hs))
       case Some(true) => if stopped then !HasNegative(hs) else HasNegative(hs) || HasExtended(hs, pltSize)
  }

  ghost predicate AllTaken(r: Reader, hs: seq<Head>, pltSize: nat) {
    forall h <- hs :: Takes(r, h, pltSize)
  }

  lemma AllTakenCons(r: Reader, h: Head, hs: seq<Head>, pltSize: nat)
    ensures AllTaken(r, [h] + hs, pltSize) <==> Takes(r, h, pltSize) && AllTaken(r, hs, pltSize)
  {
    assert forall g :: g in [h] + hs <==> g == h || g in hs;
  }

  lemma {:induction false} SectionsWhen(r: Reader, file: seq<byte>, pos: nat, pltSize: nat)
    ensures
      var hs, ss := HeadsFrom(file, pos), SectionsFrom(r, file, pos, pltSize);
      && (ss.Some? <==> hs.Some? && AllTaken(r, hs.value, pltSize))
      && (ss.Some? ==> |ss.value| == |hs.value|)
    decreases |file| - pos
  {
    hide Takes;
    if pos < |file| && HeadAt(file, pos).Some? {
      var (h, next) := HeadAt(file, pos).value;
      SectionsWhen(r, file, next, pltSize);
      if HeadsFrom(file, next).Some? { AllTakenCons(r, h, HeadsFrom(file, next).value, pltSize); }
    }
  }

  lemma SameSection(h: Head, inPlace: bool, file: seq<byte>, pltSize: nat)
    requires h.at + h.size <= |file| && Takes(Receiver, h, pltSize) && Takes(Loader(inPlace), h, pltSize)
    ensures SectionOf(Receiver, h, file, pltSize) == SectionOf(Loader(inPlace), h, file, pltSize)
       <==> (inPlace ==> !Extended(h, pltSize))
  {
    var bytes := file[h.at..h.at + h.size];
    assert bytes + [] == bytes;
  }

  lemma ExtendedCons(h: Head, hs: seq<Head>, pltSize: nat)
    ensures HasExtended([h] + hs, pltSize) <==> Extended(h, pltSize) || HasExtended(hs, pltSize)
  {
    assert forall g :: g in [h] + hs <==> g == h || g in hs;
  }

  lemma {:induction false} SameList(file: seq<byte>, pos: nat, inPlace: bool, pltSize: nat)
    requires SectionsFrom(Receiver, file, pos, pltSize).Some? && SectionsFrom(Loader(inPlace), file, pos, pltSize).Some?
    ensures HeadsFrom(file, pos).Some?
    ensures SectionsFrom(Receiver, file, pos, pltSize) == SectionsFrom(Loader(inPlace), file, pos, pltSize)
       <==> (inPlace ==> !HasExtended(HeadsFrom(file, pos).value, pltSize))
    decreases |file| - pos
  {
    hide Takes;
    hide SectionOf;
    if pos < |file| {
      var (h, next) := HeadAt(file, pos).value;
      SameList(file, next, inPlace, pltSize);
      SameSection(h, inPlace, file, pltSize);
      ExtendedCons(h, HeadsFrom(file, next).value, pltSize);
      var loader := Loader(inPlace);
      var r, l := SectionsFrom(Receiver, file, next, pltSize).value, SectionsFrom(loader, file, next, pltSize).value;
      ConsEqual(SectionOf(Receiver, h, file, pltSize), r, SectionOf(loader, h, file, pltSize), l);
    }
  }

  lemma ConsEqual<T>(x: T, xs: seq<T>, y: T, ys: seq<T>)
    ensures [x] + xs == [y] + ys <==> x == y && xs == ys
  {
    if [x] + xs == [y] + ys {
      assert ([x] + xs)[0] == ([y] + ys)[0] && ([x] + xs)[1..] == xs && ([y] + ys)[1..] == ys;
    }
  }

  lemma TakenWhen(hs: seq<Head>, pltSize: nat)
    ensures AllTaken(Receiver, hs, pltSize) <==> !HasUnknown(hs) && !HasEmpty(hs) && !HasTooBig(hs, pltSize)
    ensures AllTaken(Loader(false), hs, pltSize) <==> !HasUnknown(hs) && !HasNegative(hs) && !HasTooBig(hs, pltSize)
    ensures AllTaken(Loader(true), hs, pltSize) <==> !HasUnknown(hs) && !HasNegative(hs)
  {
    hide TextSize;
  }

  /**
   * The exact set of files on which the two differ.
   * Of the files that load and are not executed in place, these are the ones with an empty section.
   */
  lemma DifferWhen(file: seq<byte>, pltSize: nat)
    ensures Received(file, pltSize) != Split(file, pltSize) <==> Differ(file, pltSize)
    ensures ExecuteMode(file) == Some(false) && Split(file, pltSize).Some? ==>
      HeadsFrom(file, 8).Some? && (Differ(file, pltSize) <==> HasEmpty(HeadsFrom(file, 8).value))
  {
    var heads, mode := HeadsFrom(file, 8), ExecuteMode(file);
    SectionsWhen(Receiver, file, 8, pltSize);
    if mode.Some? { SectionsWhen(Loader(mode.value), file, 8, pltSize); }
    if heads.Some? {
      TakenWhen(heads.value, pltSize);
      if mode.Some? && AllTaken(Receiver, heads.value, pltSize) && AllTaken(Loader(mode.value), heads.value, pltSize) {
        SameList(file, 8, mode.value, pltSize);
      }
    }
  }

  // ---- The receiver between two sections ----

  /** The receiver with pos bytes of the file behind it, before a section. */
  function Between(pos: nat, msg: Message): Ctx {
    Ctx(AotSectionId, [], REQUEST_FIX_PART + msg.urlLen + pos, msg)
  }

  function Building(phase: Phase, part: seq<byte>, pos: nat, msg: Message, kind: int, size: nat): Ctx {
    Ctx(phase, part, REQUEST_FIX_PART + msg.urlLen + pos, msg.(sections := msg.sections + [Section(kind, size, [])]))
  }

  /** Up to the next multiple of 4 bytes are skipped. */
  lemma {:induction false} PaddingReceived(pos: nat, bytes: seq<byte>, msg: Message, n: nat, env: Env)
    requires pos + |bytes| <= Align4(pos)
    ensures Leads(Between(pos, msg), bytes, Between(pos + |bytes|, msg), n, env)
    decreases |bytes|
  {
    var c := Between(pos, msg);
    if bytes != [] {
      assert Step(c, bytes[0], n, env) == (Between(pos + 1, msg), Accepted);
      LeadsStep(c, bytes[0], n, env);
      PaddingReceived(pos + 1, bytes[1..], msg, n, env);
      LeadsTrans(c, [bytes[0]], Between(pos + 1, msg), bytes[1..], Between(pos + |bytes|, msg), n, env);
      assert [bytes[0]] + bytes[1..] == bytes;
    }
  }

  /** The first bytes of a section's type. */
  lemma TypeStarted(pos: nat, bytes: seq<byte>, msg: Message, n: nat, env: Env)
    requires pos % 4 == 0 && 0 < |bytes| < 4
    ensures Leads(Between(pos, msg), bytes, Building(AotSectionId, bytes, pos + |bytes|, msg, 0, 0), n, env)
  {
    var c, b, rest := Between(pos, msg), bytes[0], bytes[1..];
    var c1 := Building(AotSectionId, [b], pos + 1, msg, 0, 0);
    assert c.part + [b] == [b];
    assert Step(c, b, n, env) == (c1, Accepted);
    LeadsStep(c, b, n, env);
    RunCollects(c1, rest, n, env);
    assert [b] + rest == bytes;
    LeadsTrans(c, [b], c1, rest, Building(AotSectionId, bytes, pos + |bytes|, msg, 0, 0), n, env);
  }

  /** A whole type word: it is checked as a signed number. */
  lemma TypeReceived(pos: nat, w: seq<byte>, msg: Message, n: nat, env: Env)
    requires pos % 4 == 0 && |w| == 4
    ensures
      var kind := Signed(FromLE32(w));
      if KnownKind(kind) then Leads(Between(pos, msg), w, Building(AotSectionSize, [], pos + 4, msg, kind, 0), n, env)
      else Run(Between(pos, msg), w, n, env).Stopped?
  {
    var c, xs, y := Between(pos, msg), w[..3], w[3];
    TypeStarted(pos, xs, msg, n, env);
    var c1 := Building(AotSectionId, xs, pos + 3, msg, 0, 0);
    assert w == xs + [y];
    LastReplaced(msg.sections, Section(0, 0, []), Section(Signed(FromLE32(w)), 0, []));
    RunAppend(c, xs, [y], n, env);
    Run1(c1, y, n, env);
  }

  lemma SizeReceivedAot(pos: nat, w: seq<byte>, msg: Message, kind: int, n: nat, env: Env)
    requires |w| == 4
    ensures
      var c, size := Building(AotSectionSize, [], pos, msg, kind, 0), FromLE32(w);
      if TextTooBig(kind, size, env.pltSize) then Run(c, w, n, env).Stopped?
      else Leads(c, w, Building(AotSectionContent, [], pos + 4, msg, kind, size), n, env)
  {
    hide Run;
    hide StepWasm;
    hide StepRequest;
    var c, xs, y := Building(AotSectionSize, [], pos, msg, kind, 0), w[..3], w[3];
    assert w == xs + [y] && c.part + xs == xs;
    LastReplaced(msg.sections, Section(kind, 0, []), Section(kind, FromLE32(w), []));
    RunFills(c, xs, y, n, env);
  }

  lemma BodyReceivedAot(pos: nat, msg: Message, kind: int, bytes: seq<byte>, n: nat, env: Env)
    requires bytes != []
    ensures
      var body := Body(kind, bytes, env.pltSize);
      var msg' := msg.(sections := msg.sections + [Section(kind, |body|, body)]);
      var r := Run(Building(AotSectionContent, [], pos, msg, kind, |bytes|), bytes, n, env);
      if REQUEST_FIX_PART + msg.urlLen + pos + |bytes| != n then r == Pending(Between(pos + |bytes|, msg'))
      else if env.handlerOk then r == Done(INIT, msg', 0)
      else r.Stopped?
  {
    hide Run;
    hide StepWasm;
    hide StepRequest;
    var c, xs, y := Building(AotSectionContent, [], pos, msg, kind, |bytes|), bytes[..|bytes| - 1], bytes[|bytes| - 1];
    assert bytes == xs + [y] && c.part + xs == xs;
    var body := Body(kind, bytes, env.pltSize);
    LastReplaced(msg.sections, Section(kind, |bytes|, []), Section(kind, |body|, body));
    RunFills(c, xs, y, n, env);
  }

  // ---- From one section to the next ----

  lemma ThroughType(pos: nat, p: nat, w: seq<byte>, pad: seq<byte>, msg: Message, n: nat, env: Env)
    requires p == Align4(pos) && |pad| == p - pos && |w| == 4
    ensures
      var kind := Signed(FromLE32(w));
      if KnownKind(kind) then
        Leads(Between(pos, msg), pad + w, Building(AotSectionSize, [], p + 4, msg, kind, 0), n, env)
      else Run(Between(pos, msg), pad + w, n, env).Stopped?
  {
    hide Step;
    PaddingReceived(pos, pad, msg, n, env);
    TypeReceived(p, w, msg, n, env);
    RunAppend(Between(pos, msg), pad, w, n, env);
  }

  lemma ThroughSize(pos: nat, p: nat, pad: seq<byte>, w: seq<byte>, v: seq<byte>, msg: Message, n: nat, env: Env)
    requires p == Align4(pos) && |pad| == p - pos && |w| == |v| == 4
    ensures
      var kind, size := Signed(FromLE32(w)), FromLE32(v);
      var r := Run(Between(pos, msg), pad + w + v, n, env);
      if KnownKind(kind) && !TextTooBig(kind, size, env.pltSize) then
        r == Pending(Building(AotSectionContent, [], p + 8, msg, kind, size))
      else r.Stopped?
  {
    ThroughType(pos, p, w, pad, msg, n, env);
    RunAppend(Between(pos, msg), pad + w, v, n, env);
    if KnownKind(Signed(FromLE32(w))) { SizeReceivedAot(p + 4, v, msg, Signed(FromLE32(w)), n, env); }
  }

  /** A file that ends before the size word of a section. */
  lemma CutShort(pos: nat, bytes: seq<byte>, msg: Message, n: nat, env: Env)
    requires pos + |bytes| < Align4(pos) + 8
    ensures !Run(Between(pos, msg), bytes, n, env).Done?
  {
    hide Step;
    hide Run;
    var c, k := Between(pos, msg), Align4(pos) - pos;
    if |bytes| <= k {
      PaddingReceived(pos, bytes, msg, n, env);
    } else if |bytes| < k + 4 {
      PaddingReceived(pos, bytes[..k], msg, n, env);
      TypeStarted(pos + k, bytes[k..], msg, n, env);
      RunAppend(c, bytes[..k], bytes[k..], n, env);
      assert bytes[..k] + bytes[k..] == bytes;
    } else {
      SizeCutShort(pos, bytes[..k], bytes[k..k + 4], bytes[k + 4..], msg, n, env);
      assert bytes[..k + 4] == bytes[..k] + bytes[k..k + 4] && bytes == bytes[..k + 4] + bytes[k + 4..];
    }
  }

  lemma SizeCutShort(pos: nat, pad: seq<byte>, w: seq<byte>, v: seq<byte>, msg: Message, n: nat, env: Env)
    requires |pad| == Align4(pos) - pos && |w| == 4 && |v| < 4
    ensures !Run(Between(pos, msg), pad + w + v, n, env).Done?
  {
    hide Step;
    var kind := Signed(FromLE32(w));
    ThroughType(pos, pos + |pad|, w, pad, msg, n, env);
    RunAppend(Between(pos, msg), pad + w, v, n, env);
    if KnownKind(kind) { RunCollects(Building(AotSectionSize, [], pos + |pad| + 4, msg, kind, 0), v, n, env); }
  }

  function WithSection(msg: Message, s: Section): Message {
    msg.(sections := msg.sections + [s])
  }

  /** What becomes of a section's content: rest is what the file has from its first byte on. */
  lemma ContentReceived(p: nat, msg: Message, kind: int, size: nat, rest: seq<byte>, n: nat, env: Env)
    requires n == REQUEST_FIX_PART + msg.urlLen + p + |rest| && env.handlerOk
    ensures
      var r := Run(Building(AotSectionContent, [], p, msg, kind, size), rest, n, env);
      if size == 0 || size > |rest| then r.Pending?
      else
        var msg' := WithSection(msg, Complete(kind, rest[..size], false, env.pltSize));
        if size == |rest| then r == Done(INIT, msg', 0)
        else r == Run(Between(p + size, msg'), rest[size..], n, env)
  {
    hide Step;
    hide Body;
    var c := Building(AotSectionContent, [], p, msg, kind, size);
    if size == 0 || size > |rest| {
      RunCollects(c, rest, n, env);
    } else {
      BodyReceivedAot(p, msg, kind, rest[..size], n, env);
      RunAppend(c, rest[..size], rest[size..], n, env);
      assert rest[..size] + rest[size..] == rest;
    }
  }

  /** The file from pos on, cut at the words of the section that starts there. */
  lemma SectionBytes(file: seq<byte>, pos: nat, p: nat)
    requires p == Align4(pos) && p + 8 <= |file|
    ensures file[pos..] == file[pos..p] + file[p..p + 4] + file[p + 4..p + 8] + file[p + 8..]
    ensures FromLE32(file[p..p + 4]) == GetLE32(file, p) && FromLE32(file[p + 4..p + 8]) == GetLE32(file, p + 4)
  {}

  /** Padding, type and size: then the content follows, or the section was refused. */
  lemma HeadReceived(file: seq<byte>, pos: nat, p: nat, msg: Message, n: nat, env: Env)
    requires p == Align4(pos) && p + 8 <= |file|
    ensures
      var kind, size := Signed(GetLE32(file, p)), GetLE32(file, p + 4);
      var r := Run(Between(pos, msg), file[pos..], n, env);
      if KnownKind(kind) && !TextTooBig(kind, size, env.pltSize) then
        r == Run(Building(AotSectionContent, [], p + 8, msg, kind, size), file[p + 8..], n, env)
      else r.Stopped?
  {
    SectionBytes(file, pos, p);
    ThroughSize(pos, p, file[pos..p], file[p..p + 4], file[p + 4..p + 8], msg, n, env);
    RunAppend(Between(pos, msg), file[pos..p] + file[p..p + 4] + file[p + 4..p + 8], file[p + 8..], n, env);
  }

  /** Where no section is cut off the file, the receiver installs nothing. */
  lemma NoHead(file: seq<byte>, pos: nat, msg: Message, n: nat, env: Env)
    requires pos < |file| && n == REQUEST_FIX_PART + msg.urlLen + |file| && env.handlerOk
    requires HeadAt(file, pos) == None
    ensures !Run(Between(pos, msg), file[pos..], n, env).Done?
  {
    hide Run;
    hide Step;
    var p := Align4(pos);
    if p + 8 > |file| {
      CutShort(pos, file[pos..], msg, n, env);
    } else {
      HeadReceived(file, pos, p, msg, n, env);
      ContentReceived(p + 8, msg, Signed(GetLE32(file, p)), GetLE32(file, p + 4), file[p + 8..], n, env);
    }
  }

  lemma ContentSlice(file: seq<byte>, at: nat, size: nat)
    requires at + size <= |file|
    ensures file[at..][..size] == file[at..at + size] && file[at..][size..] == file[at + size..]
  {}

  /** The receiver on one section. */
  lemma HeadRead(file: seq<byte>, pos: nat, h: Head, next: nat, msg: Message, n: nat, env: Env)
    requires pos < |file| && n == REQUEST_FIX_PART + msg.urlLen + |file| && env.handlerOk
    requires HeadAt(file, pos) == Some((h, next))
    ensures
      var r := Run(Between(pos, msg), file[pos..], n, env);
      if !Takes(Receiver, h, env.pltSize) then !r.Done?
      else
        var msg' := WithSection(msg, SectionOf(Receiver, h, file, env.pltSize));
        if next == |file| then r == Done(INIT, msg', 0) else r == Run(Between(next, msg'), file[next..], n, env)
  {
    hide Run;
    hide TextSize;
    hide Body;
    var kind := Signed(h.word);
    HeadReceived(file, pos, h.at - 8, msg, n, env);
    ContentReceived(h.at, msg, kind, h.size, file[h.at..], n, env);
    ContentSlice(file, h.at, h.size);
  }

  lemma SectionsPut(msg: Message, s: Section, ss: seq<Section>)
    ensures WithSection(msg, s).sections + ss == msg.sections + ([s] + ss)
    ensures WithSection(msg, s).sections == msg.sections + [s] + []
  {}

  /** The receiver on the file from a section boundary on: it installs what SectionsFrom says, or nothing. */
  lemma {:induction false} ReceiverReads(file: seq<byte>, pos: nat, msg: Message, n: nat, env: Env)
    requires pos < |file| && n == REQUEST_FIX_PART + msg.urlLen + |file| && env.handlerOk
    ensures
      var r := Run(Between(pos, msg), file[pos..], n, env);
      var read := SectionsFrom(Receiver, file, pos, env.pltSize);
      if read.Some? then r == Done(INIT, msg.(sections := msg.sections + read.value), 0) else !r.Done?
    decreases |file| - pos
  {
    hide Step;
    hide Takes;
    hide SectionOf;
    match HeadAt(file, pos)
    case None =>
      NoHead(file, pos, msg, n, env);
    case Some((h, next)) =>
      HeadRead(file, pos, h, next, msg, n, env);
      if Takes(Receiver, h, env.pltSize) {
        var s := SectionOf(Receiver, h, file, env.pltSize);
        if next < |file| { ReceiverReads(file, next, WithSection(msg, s), n, env); }
        var tail := SectionsFrom(Receiver, file, next, env.pltSize);
        if tail.Some? { SectionsPut(msg, s, tail.value); }
      }
  }

  /**
   * An AOT install request, fed byte by byte: the receiver installs a list of sections, with the last
   * byte, exactly if there is a URL and the list is what a receiver makes of the file; unless the two
   * differ, that is the list the loader makes of it. The context is then cleared.
   */
  lemma AotInstalled(action: byte, fmt: uint16, mid: uint32, sender: uint32, appSize: uint32, url: seq<byte>,
                     tail: seq<byte>, list: seq<Section>, env: Env)
    requires |url| < 0x1_0000 && env.handlerOk
    ensures
      var file := AOT_MAGIC + AOT_VERSION + tail;
      var request := RequestHeader(action, fmt, mid, sender, appSize, url) + file;
      var msg := Message(action, fmt, mid, sender, |url|, appSize, url, AOT_MAGIC, list);
      var installed := Run(INIT, request, |request|, env) == Done(INIT, msg, 0);
      && (installed <==> url != [] && Received(file, env.pltSize) == Some(list))
      && (url != [] && !Differ(file, env.pltSize) ==> (installed <==> Split(file, env.pltSize) == Some(list)))
  {
    hide *;
    var file := AOT_MAGIC + AOT_VERSION + tail;
    var n := |RequestHeader(action, fmt, mid, sender, appSize, url) + file|;
    DifferWhen(file, env.pltSize);
    if url == [] {
      EmptyUrlHangs(action, fmt, mid, sender, appSize, file, n, env);
    } else {
      var msg := Message(action, fmt, mid, sender, |url|, appSize, url, AOT_MAGIC, []);
      BehindPreamble(action, fmt, mid, sender, appSize, url, tail, n, env);
      WholeFileReceived(file, msg, list, n, env);
    }
  }

  /** With the version of the file the receiver stands in front of the first section. */
  lemma BehindPreamble(action: byte, fmt: uint16, mid: uint32, sender: uint32, appSize: uint32, url: seq<byte>,
                       tail: seq<byte>, n: nat, env: Env)
    requires 0 < |url| < 0x1_0000
    ensures
      var file := AOT_MAGIC + AOT_VERSION + tail;
      var msg := Message(action, fmt, mid, sender, |url|, appSize, url, AOT_MAGIC, []);
      var header := RequestHeader(action, fmt, mid, sender, appSize, url);
      && Run(INIT, header + file, n, env) == Run(Between(8, msg), file[8..], n, env)
      && |header + file| == REQUEST_FIX_PART + |url| + |file| && 8 <= |file|
  {
    hide Run;
    var file := AOT_MAGIC + AOT_VERSION + tail;
    var h := Preamble(action, fmt, mid, sender, appSize, url, AOT_MAGIC);
    assert RequestHeader(action, fmt, mid, sender, appSize, url) + file == h + tail && file[8..] == tail;
    PreambleReceived(action, fmt, mid, sender, appSize, url, AOT_MAGIC, n, env);
    RunAppend(INIT, h, tail, n, env);
  }

  lemma WholeFileReceived(file: seq<byte>, msg: Message, list: seq<Section>, n: nat, env: Env)
    requires 8 <= |file| && n == REQUEST_FIX_PART + msg.urlLen + |file| && env.handlerOk && msg.sections == []
    ensures Run(Between(8, msg), file[8..], n, env) == Done(INIT, msg.(sections := list), 0)
       <==> Received(file, env.pltSize) == Some(list)
  {
    if |file| > 8 {
      ReceiverReads(file, 8, msg, n, env);
      SectionsWhen(Receiver, file, 8, env.pltSize);
      var read := SectionsFrom(Receiver, file, 8, env.pltSize);
      if read.Some? { assert [] + read.value == read.value; }
    }
  }

  // ---- One file for each way of differing ----

  ghost predicate OneSection(file: seq<byte>, w: seq<byte>, body: seq<byte>) {
    |w| == 4 && |body| < 0x1_0000_0000 && file == AOT_MAGIC + AOT_VERSION + w + LE32(|body|) + body
  }

  /** The last section of a file. */
  lemma LastSection(r: Reader, file: seq<byte>, pos: nat, h: Head, pltSize: nat)
    requires pos < |file| && HeadAt(file, pos) == Some((h, |file|))
    ensures SectionsFrom(r, file, pos, pltSize)
         == if Takes(r, h, pltSize) then Some([SectionOf(r, h, file, pltSize)]) else None
  {
    assert SectionsFrom(r, file, |file|, pltSize) == Some([]);
    assert [SectionOf(r, h, file, pltSize)] + [] == [SectionOf(r, h, file, pltSize)];
  }

  lemma TwoSections(r: Reader, file: seq<byte>, h: Head, pos: nat, h': Head, pltSize: nat)
    requires 8 < pos < |file| && HeadAt(file, 8) == Some((h, pos)) && HeadAt(file, pos) == Some((h', |file|))
    requires Takes(r, h, pltSize) && Takes(r, h', pltSize)
    ensures SectionsFrom(r, file, 8, pltSize)
         == Some([SectionOf(r, h, file, pltSize), SectionOf(r, h', file, pltSize)])
  {
    hide HeadAt;
    hide Takes;
    hide SectionOf;
    LastSection(r, file, pos, h', pltSize);
    var s, s' := SectionOf(r, h, file, pltSize), SectionOf(r, h', file, pltSize);
    assert [s] + [s'] == [s, s'];
  }

  lemma OnlySection(file: seq<byte>, w: seq<byte>, body: seq<byte>, r: Reader, pltSize: nat) returns (h: Head)
    requires OneSection(file, w, body)
    ensures h == Head(FromLE32(w), 16, |body|) && HeadAt(file, 8) == Some((h, |file|)) && GetLE32(file, 8) == h.word
    ensures SectionsFrom(r, file, 8, pltSize)
         == if Takes(r, h, pltSize) then Some([Complete(Kind(r, h.word), body, r == Loader(true), pltSize)]) else None
  {
    assert file[8..12] == w && file[12..16] == LE32(|body|) && file[16..] == body;
    LE32At(file, 12, |body|);
    h := Head(FromLE32(w), 16, |body|);
    LastSection(r, file, 8, h, pltSize);
    assert file[16..16 + |body|] == body;
  }

  /** A negative type: the signed comparison of the receiver is seen from outside. */
  lemma NegativeTypeDiverges(w: seq<byte>, body: seq<byte>, file: seq<byte>, pltSize: nat)
    requires OneSection(file, w, body) && Signed(FromLE32(w)) < 0 && body != []
    ensures Received(file, pltSize) == Some([Section(Signed(FromLE32(w)), |body|, body)])
    ensures Split(file, pltSize) == None
  {
    var _ := OnlySection(file, w, body, Receiver, pltSize);
    var _ := OnlySection(file, w, body, Loader(false), pltSize);
  }

  /** A TARGET_INFO section that is too short for the mode: resolve_execute_mode fails. */
  lemma ShortTargetInfoDiverges(body: seq<byte>, file: seq<byte>, pltSize: nat)
    requires OneSection(file, [0, 0, 0, 0], body) && 0 < |body| < 6
    ensures Received(file, pltSize) == Some([Section(AOT_SECTION_TYPE_TARGET_INFO, |body|, body)])
    ensures Split(file, pltSize) == None
  {
    var _ := OnlySection(file, [0, 0, 0, 0], body, Receiver, pltSize);
  }

  /** An empty section: the receiver waits for its body. */
  lemma EmptySectionDiverges(w: seq<byte>, file: seq<byte>, pltSize: nat)
    requires OneSection(file, w, []) && KnownKind(FromLE32(w)) && FromLE32(w) != AOT_SECTION_TYPE_TARGET_INFO
    ensures Received(file, pltSize) == None
    ensures Split(file, pltSize) == Some([Section(FromLE32(w), 0, [])])
  {
    var _ := OnlySection(file, w, [], Receiver, pltSize);
    var h := OnlySection(file, w, [], Loader(false), pltSize);
    assert ExecuteModeFrom(file, |file|) == Some(false);
  }

  /** TARGET_INFO of a file that is executed in place, and one byte of text. */
  const IN_PLACE: seq<byte> := AOT_MAGIC + AOT_VERSION + [0, 0, 0, 0, 6, 0, 0, 0, 0, 0, 0, 0, 4, 0]
                               + [0, 0] + [2, 0, 0, 0, 1, 0, 0, 0, 9]

  lemma InPlaceHeads()
    ensures HeadAt(IN_PLACE, 8) == Some((Head(0, 16, 6), 22)) && HeadAt(IN_PLACE, 22) == Some((Head(2, 32, 1), 33))
    ensures |IN_PLACE| == 33 && IN_PLACE[16..22] == [0, 0, 0, 0, 4, 0] && IN_PLACE[32..33] == [9]
    ensures GetLE32(IN_PLACE, 8) == 0 && GetLE16(IN_PLACE, 20) == 4
  {
    var f := IN_PLACE;
    hide HeadsFrom;
    hide SectionsFrom;
    assert f[8..16] == [0, 0, 0, 0, 6, 0, 0, 0] && f[16..24] == [0, 0, 0, 0, 4, 0, 0, 0];
    assert f[24..] == [2, 0, 0, 0, 1, 0, 0, 0, 9];
  }

  lemma InPlaceMode()
    ensures ExecuteMode(IN_PLACE) == Some(true)
  {
    InPlaceHeads();
    hide HeadAt;
    hide GetLE32;
    hide GetLE16;
  }

  /** Text that is executed in place: only the receiver extends it. */
  lemma InPlaceDiverges(pltSize: nat)
    requires TextSize(1, pltSize) < UINT32_MAX
    ensures
      var info, n := Section(AOT_SECTION_TYPE_TARGET_INFO, 6, [0, 0, 0, 0, 4, 0]), TextSize(1, pltSize);
      && Received(IN_PLACE, pltSize) == Some([info, Section(AOT_SECTION_TYPE_TEXT, n, [9] + Zeros(n - 1))])
      && Split(IN_PLACE, pltSize) == Some([info, Section(AOT_SECTION_TYPE_TEXT, 1, [9])])
  {
    InPlaceHeads();
    InPlaceMode();
    TwoSections(Receiver, IN_PLACE, Head(0, 16, 6), 22, Head(2, 32, 1), pltSize);
    TwoSections(Loader(true), IN_PLACE, Head(0, 16, 6), 22, Head(2, 32, 1), pltSize);
  }

  /** A whole request, byte for byte: request "a", and a file with one section of type 1 and one byte. */
  lemma AotExample(env: Env)
    requires env.handlerOk
    ensures
      var request: seq<byte> := [1, 2, 0, 3, 0, 0, 0, 7, 0, 0, 0, 9, 0, 2, 0, 0, 0, 17, 97, 0,
                                 0, 0x61, 0x6F, 0x74, 2, 0, 0, 0, 1, 0, 0, 0, 1, 0, 0, 0, 5];
      Run(INIT, request, 37, env)
      == Done(INIT, Message(2, 3, 7, 9, 2, 17, [97, 0], [0, 0x61, 0x6F, 0x74], [Section(1, 1, [5])]), 0)
  {
    hide *;
    var tail: seq<byte> := [1, 0, 0, 0, 1, 0, 0, 0, 5];
    ExampleFile(env.pltSize);
    ExampleRequest();
    AotInstalled(2, 3, 7, 9, 17, [97, 0], tail, [Section(1, 1, [5])], env);
  }

  lemma ExampleFile(pltSize: nat)
    ensures AOT_MAGIC == [0, 0x61, 0x6F, 0x74]
    ensures Received(AOT_MAGIC + AOT_VERSION + [1, 0, 0, 0, 1, 0, 0, 0, 5], pltSize) == Some([Section(1, 1, [5])])
  {
    var file := AOT_MAGIC + AOT_VERSION + [1, 0, 0, 0, 1, 0, 0, 0, 5];
    assert LE32(1) == [1, 0, 0, 0];
    assert OneSection(file, [1, 0, 0, 0], [5]);
    var _ := OnlySection(file, [1, 0, 0, 0], [5], Receiver, pltSize);
    hide SectionsFrom;
  }

  lemma ExampleRequest()
    ensures RequestHeader(2, 3, 7, 9, 17, [97, 0]) + (AOT_MAGIC + AOT_VERSION + [1, 0, 0, 0, 1, 0, 0, 0, 5])
         == [1, 2, 0, 3, 0, 0, 0, 7, 0, 0, 0, 9, 0, 2, 0, 0, 0, 17, 97, 0,
             0, 0x61, 0x6F, 0x74, 2, 0, 0, 0, 1, 0, 0, 0, 1, 0, 0, 0, 5]
  {
    ExampleHeader(17);
    hide RequestHeader;
  }
}
