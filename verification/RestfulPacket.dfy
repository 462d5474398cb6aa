/** Request packets: pack_request and unpack_request. */
module RestfulPacket {
  import opened Words

  const PACKET_VER: byte := 1
  const FIX_PART := 18

  /** action and fmt are C ints, sender an unsigned long; the url is a C string without its NUL. */
  datatype Request = Request(mid: uint32, url: seq<byte>, action: int, fmt: int, payload: seq<byte>, sender: int)

  /** What a packet can carry unchanged. */
  predicate Packable(r: Request) {
    && 0 <= r.action < 0x100 && 0 <= r.fmt < 0x1_0000 && 0 <= r.sender < 0x1_0000_0000
    && 0 !in r.url && |r.url| + 1 < 0x1_0000
    && FIX_PART + |r.url| + 1 + |r.payload| < 0x8000_0000
  }

  /** pack_request; fields are cut to the width they have on the wire. */
  function Pack(r: Request): seq<byte>
    requires |r.payload| < 0x1_0000_0000
  {
    [PACKET_VER, r.action % 0x100] + BE16(r.fmt % 0x1_0000) + BE32(r.mid) + BE32(Wrap32(r.sender))
    + BE16((|r.url| + 1) % 0x1_0000) + BE32(|r.payload|) + (r.url + [0]) + r.payload
  }

  /** The C string at the start of s. */
  function CStringOf(s: seq<byte>): seq<byte> {
    if s == [] || s[0] == 0 then [] else [s[0]] + CStringOf(s[1..])
  }

  /**
   * Refused, or taken. BeyondPacket: the 32-bit length check lets the read of the URL's last byte go past the
   * packet's end. Unterminated: the packet is taken with a URL that has no end inside it, so that whoever
   * looks for the end reads past the packet's.
   */
  datatype Unpacked = Refused | Taken(r: Request) | BeyondPacket | Unterminated

  /** unpack_request on a packet that is not empty; its size is passed as a C int, so 2^31 and more read as negative. */
  function Unpack(packet: seq<byte>): Unpacked
    requires packet != []
  {
    if packet[0] != PACKET_VER then Refused
    else if |packet| < FIX_PART || |packet| >= 0x8000_0000 then Refused
    else
      var urlLen: int := FromBE16(packet[12..14]);
      var payloadLen: int := FromBE32(packet[14..18]);
      if |packet| != Wrap32(FIX_PART + urlLen + payloadLen) then Refused
      else if FIX_PART + urlLen > |packet| then BeyondPacket
      else if packet[FIX_PART + urlLen - 1] != 0 then Refused
      else if 0 !in packet[FIX_PART..] then Unterminated
      else Taken(Request(FromBE32(packet[4..8]), CStringOf(packet[FIX_PART..]), packet[1], FromBE16(packet[2..4]),
                         packet[FIX_PART + urlLen..], FromBE32(packet[8..12])))
  }

  /** The read leaves the packet exactly if the lengths add up to its size only after the sum has wrapped around. */
  lemma BeyondWhen(packet: seq<byte>)
    requires packet != []
    ensures Unpack(packet).BeyondPacket? <==>
      && packet[0] == PACKET_VER && FIX_PART <= |packet| < 0x8000_0000
      && FIX_PART + FromBE16(packet[12..14]) + FromBE32(packet[14..18]) == |packet| + 0x1_0000_0000
  {
    if FIX_PART <= |packet| < 0x8000_0000 {
      WrappedSum(FIX_PART + FromBE16(packet[12..14]) + FromBE32(packet[14..18]), |packet|);
    }
  }

  lemma WrappedSum(sum: nat, n: nat)
    requires sum < 0x2_0000_0000 && n < 0x1_0000_0000
    ensures n == Wrap32(sum) <==> sum == n || sum == n + 0x1_0000_0000
  {}

  /** 18 bytes whose lengths are 5 and 2^32 - 5: the last byte of the URL would be byte 22. */
  lemma BeyondExample()
    ensures Unpack([1, 0, 0, 0, 0, 0, 0, 0, 0, 0, 0, 0, 0, 5, 255, 255, 255, 251]) == BeyondPacket
  {
    var p: seq<byte> := [1, 0, 0, 0, 0, 0, 0, 0, 0, 0, 0, 0, 0, 5, 255, 255, 255, 251];
    assert p[12..14] == [0, 5] && p[14..18] == [255, 255, 255, 251];
    BeyondWhen(p);
  }

  /**
   * Past the length check and the check of the last byte, the URL has no end inside the packet exactly if its
   * length is 0 and no byte behind the fixed part is; the last byte looked at is then that of the payload's length.
   */
  lemma UnterminatedWhen(packet: seq<byte>)
    requires packet != []
    ensures Unpack(packet).Unterminated? <==>
      && packet[0] == PACKET_VER && FIX_PART <= |packet| < 0x8000_0000
      && FromBE16(packet[12..14]) == 0 && FIX_PART + FromBE32(packet[14..18]) == |packet|
      && FromBE32(packet[14..18]) % 0x100 == 0 && 0 !in packet[FIX_PART..]
  {
    if FIX_PART <= |packet| < 0x8000_0000 {
      var urlLen: int := FromBE16(packet[12..14]);
      WrappedSum(FIX_PART + urlLen + FromBE32(packet[14..18]), |packet|);
      assert packet[14..18][3] == packet[17];
      if 0 < urlLen && FIX_PART + urlLen <= |packet| {
        assert packet[FIX_PART..][urlLen - 1] == packet[FIX_PART + urlLen - 1];
      }
    }
  }

  /** No URL and no payload: the packet ends where the URL is said to start. */
  lemma UnterminatedExample()
    ensures Unpack([1, 1, 0, 0, 0, 0, 0, 7, 0, 0, 0, 0, 0, 0, 0, 0, 0, 0]) == Unterminated
  {
    var p: seq<byte> := [1, 1, 0, 0, 0, 0, 0, 7, 0, 0, 0, 0, 0, 0, 0, 0, 0, 0];
    assert p[12..14] == [0, 0] && p[14..18] == [0, 0, 0, 0];
    UnterminatedWhen(p);
  }

  /** The number that the bytes from i on are the digits of, base 256. */
  function Digits16(p: seq<byte>, i: nat): nat
    requires i + 2 <= |p|
  {
    0x100 * p[i] as int + p[i + 1] as int
  }

  function Digits32(p: seq<byte>, i: nat): nat
    requires i + 4 <= |p|
  {
    0x1_0000 * Digits16(p, i) + Digits16(p, i + 2)
  }

  lemma FixedFields(p: seq<byte>)
    requires 18 <= |p|
    ensures FromBE16(p[2..4]) == Digits16(p, 2) && FromBE16(p[12..14]) == Digits16(p, 12)
    ensures FromBE32(p[4..8]) == Digits32(p, 4) && FromBE32(p[8..12]) == Digits32(p, 8)
    ensures FromBE32(p[14..18]) == Digits32(p, 14)
  {}

  /** Exactly which packets are taken, and the request's fields that come from the fixed part. */
  lemma TakenWhen(packet: seq<byte>)
    requires packet != []
    ensures Unpack(packet).Taken? <==>
      && packet[0] == 1 && 18 <= |packet| < 0x8000_0000
      && 18 + Digits16(packet, 12) + Digits32(packet, 14) == |packet|
      && packet[17 + Digits16(packet, 12)] == 0 && 0 in packet[18..]
    ensures Unpack(packet).Taken? ==>
      var r := Unpack(packet).r;
      && r.action == packet[1] as int && r.fmt == Digits16(packet, 2)
      && r.mid == Digits32(packet, 4) && r.sender == Digits32(packet, 8)
  {
    hide FromBE16;
    hide FromBE32;
    hide Digits16;
    hide Digits32;
    hide CStringOf;
    hide Wrap32;
    if 18 <= |packet| < 0x8000_0000 {
      WrappedSum(FIX_PART + FromBE16(packet[12..14]) + FromBE32(packet[14..18]), |packet|);
      FixedFields(packet);
    }
  }

  lemma {:induction false} CStringEnds(s: seq<byte>)
    requires 0 in s
    ensures |CStringOf(s)| < |s| && s[..|CStringOf(s)|] == CStringOf(s) && s[|CStringOf(s)|] == 0 && 0 !in CStringOf(s)
  {
    if s[0] != 0 {
      assert s == [s[0]] + s[1..];
      CStringEnds(s[1..]);
    }
  }

  /** A packet, byte for byte: a request for "a" with a payload of one byte. */
  lemma PackExample()
    ensures Pack(Request(7, [97], 1, 2, [5], 9))
         == [1, 1, 0, 2, 0, 0, 0, 7, 0, 0, 0, 9, 0, 2, 0, 0, 0, 1, 97, 0, 5]
  {
    assert BE32(7) == [0, 0, 0, 7] && BE32(9) == [0, 0, 0, 9] && BE32(1) == [0, 0, 0, 1] && BE16(2) == [0, 2];
  }

  /** The URL and the payload of a request that was taken lie inside the packet, the URL with its NUL. */
  lemma TakenInside(packet: seq<byte>)
    requires packet != [] && Unpack(packet).Taken?
    ensures
      var r := Unpack(packet).r;
      && FIX_PART + |r.url| < |packet| && packet[FIX_PART..FIX_PART + |r.url|] == r.url
      && packet[FIX_PART + |r.url|] == 0 && 0 !in r.url
      && |r.payload| == FromBE32(packet[14..18]) && packet[|packet| - |r.payload|..] == r.payload
  {
    var rest := packet[FIX_PART..];
    WrappedSum(FIX_PART + FromBE16(packet[12..14]) + FromBE32(packet[14..18]), |packet|);
    CStringEnds(rest);
    var n := |CStringOf(rest)|;
    assert rest[..n] == packet[FIX_PART..FIX_PART + n] && rest[n] == packet[FIX_PART + n];
  }

  /** Unpacking or looking for the URL's end leaves the packet. */
  predicate ReadsPast(u: Unpacked) {
    u.BeyondPacket? || u.Unterminated?
  }

  /** pack_request, field after field into an allocated packet. */
  method PackRequest(r: Request) returns (packet: array<byte>)
    requires Packable(r)
    ensures fresh(packet) && packet[..] == Pack(r)
  {
    hide BE16;
    hide BE32;
    var urlLen := |r.url| + 1;
    packet := new byte[FIX_PART + urlLen + |r.payload|];
    packet[0] := PACKET_VER;
    packet[1] := r.action % 0x100;
    assert packet[..2] == [PACKET_VER, r.action % 0x100];
    Append(packet, 2, BE16(r.fmt % 0x1_0000));
    Append(packet, 4, BE32(r.mid));
    Append(packet, 8, BE32(Wrap32(r.sender)));
    Append(packet, 12, BE16(urlLen));
    Append(packet, 14, BE32(|r.payload|));
    Append(packet, FIX_PART, r.url + [0]);
    Append(packet, FIX_PART + urlLen, r.payload);
    assert packet[..] == packet[..packet.Length];
  }

  lemma {:induction false} CStringOfUrl(url: seq<byte>, rest: seq<byte>)
    requires 0 !in url
    ensures CStringOf(url + [0] + rest) == url
  {
    if url != [] {
      assert (url + [0] + rest)[1..] == url[1..] + [0] + rest;
      CStringOfUrl(url[1..], rest);
    }
  }

  /** Whatever a packet can carry comes out of it unchanged. */
  lemma UnpackPack(r: Request)
    requires Packable(r)
    ensures Unpack(Pack(r)) == Taken(r)
  {
    hide Pack;
    hide BE16;
    hide BE32;
    var p, urlLen := Pack(r), |r.url| + 1;
    BigEndianRoundTrip(r.fmt, r.mid);
    BigEndianRoundTrip(urlLen, r.sender);
    BigEndianRoundTrip(0, |r.payload|);
    PackSlices(r);
    assert p[FIX_PART..] == r.url + [0] + r.payload;
    assert p[FIX_PART..][|r.url|] == 0;
    CStringOfUrl(r.url, r.payload);
  }

  /** And nothing else does: Packable is exactly what comes out of its packet unchanged. */
  lemma PackableWhen(r: Request)
    requires |r.payload| < 0x1_0000_0000
    ensures Unpack(Pack(r)) == Taken(r) <==> Packable(r)
  {
    if Packable(r) { UnpackPack(r); }
    PackSize(r);
    hide Pack;
    hide CStringOf;
    TakenWhen(Pack(r));
    if Unpack(Pack(r)) == Taken(r) {
      TakenInside(Pack(r));
      FixedFields(Pack(r));
    }
  }

  lemma PackSize(r: Request)
    requires |r.payload| < 0x1_0000_0000
    ensures |Pack(r)| == FIX_PART + |r.url| + 1 + |r.payload|
  {}

  lemma PackSlices(r: Request)
    requires Packable(r)
    ensures
      var p, urlLen := Pack(r), |r.url| + 1;
      && |p| == FIX_PART + urlLen + |r.payload|
      && p[0] == PACKET_VER && p[1] == r.action && p[2..4] == BE16(r.fmt) && p[4..8] == BE32(r.mid)
      && p[8..12] == BE32(r.sender) && p[12..14] == BE16(urlLen) && p[14..18] == BE32(|r.payload|)
      && p[18..18 + urlLen] == r.url + [0] && p[18 + urlLen..] == r.payload
  {
    hide BE16;
    hide BE32;
    var urlLen := |r.url| + 1;
    var s1 := [PACKET_VER, r.action] + BE16(r.fmt);
    var s2 := s1 + BE32(r.mid);
    var s3 := s2 + BE32(r.sender);
    var s4 := s3 + BE16(urlLen);
    var s5 := s4 + BE32(|r.payload|);
    var s6 := s5 + (r.url + [0]);
    var p := s6 + r.payload;
    assert p == Pack(r);
    Suffix(s5, r.url + [0], r.payload);
    FixedPart(r.action, r.fmt, r.mid, r.sender, urlLen, |r.payload|, s5);
    forall i, j | 0 <= i <= j <= 18 ensures p[i..j] == s5[i..j] {}
  }

  lemma Suffix(a: seq<byte>, b: seq<byte>, c: seq<byte>)
    ensures (a + b + c)[|a|..|a| + |b|] == b && (a + b + c)[|a| + |b|..] == c
  {}

  lemma FixedPart(action: byte, fmt: uint16, mid: uint32, sender: uint32, urlLen: uint16, payloadLen: uint32,
                  s: seq<byte>)
    requires s == [PACKET_VER, action] + BE16(fmt) + BE32(mid) + BE32(sender) + BE16(urlLen) + BE32(payloadLen)
    ensures s[0] == PACKET_VER && s[1] == action && s[2..4] == BE16(fmt) && s[4..8] == BE32(mid)
    ensures s[8..12] == BE32(sender) && s[12..14] == BE16(urlLen) && s[14..18] == BE32(payloadLen)
  {}
}
