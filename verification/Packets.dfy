/** Packet framing: a header followed by exactly the metadata and body it declares. */
module Packets {
  import opened Wire
  import opened Header

  datatype Parsed = Parsed(header: CommonHeader, metadata: seq<byte>, body: seq<byte>)

  function PacketLen(h: CommonHeader): Result<nat, NnrpError> {
    if h.metaLen + h.bodyLen > U32_MAX then Err(MessageLengthOverflow)
    else Ok(COMMON_HEADER_LEN + h.metaLen + h.bodyLen)
  }

  /** Cut a packet into the parts its header declares. */
  function SplitPacket(h: CommonHeader, source: seq<byte>): Result<Parsed, NnrpError> {
    if PacketLen(h).Err? then Err(PacketLen(h).error)
    else if PacketLen(h).value != |source| then Err(PacketLengthMismatch(PacketLen(h).value, |source|))
    else
      var metaEnd := COMMON_HEADER_LEN + h.metaLen;
      Ok(Parsed(h, source[COMMON_HEADER_LEN..metaEnd], source[metaEnd..]))
  }

  function ParsePacket(source: seq<byte>): Result<Parsed, NnrpError> {
    var header := Parse(source);
    if header.Err? then Err(header.error) else SplitPacket(header.value, source)
  }

  /** The header's own bytes followed by metadata and body of the declared lengths, with a current
      version and wire format and no length overflow. */
  ghost predicate Framed(source: seq<byte>, p: Parsed) {
    && ToBytes(p.header).Ok? && source == ToBytes(p.header).value + p.metadata + p.body
    && p.header.versionMajor == CURRENT_VERSION_MAJOR && p.header.wireFormat == CURRENT_WIRE_FORMAT
    && |p.metadata| == p.header.metaLen && |p.body| == p.header.bodyLen
    && |p.metadata| + |p.body| <= 0xffff_ffff
  }

  /** A split succeeds exactly on the declared lengths, and puts together to the packet. */
  lemma {:induction false} SplitIff(h: CommonHeader, source: seq<byte>, p: Parsed)
    requires |source| >= COMMON_HEADER_LEN
    ensures SplitPacket(h, source) == Ok(p) <==>
      && p.header == h && |p.metadata| == h.metaLen && |p.body| == h.bodyLen && PacketLen(h).Ok?
      && source == source[..COMMON_HEADER_LEN] + p.metadata + p.body
  {
    var b := source[..COMMON_HEADER_LEN];
    if SplitPacket(h, source) == Ok(p) {
      assert source == b + p.metadata + p.body;
    } else if source == b + p.metadata + p.body && |p.metadata| == h.metaLen && |p.body| == h.bodyLen {
      var metaEnd := COMMON_HEADER_LEN + h.metaLen;
      assert source[COMMON_HEADER_LEN..metaEnd] == p.metadata && source[metaEnd..] == p.body;
    }
  }

  lemma {:induction false} ParsedIsFramed(source: seq<byte>)
    requires ParsePacket(source).Ok?
    ensures Framed(source, ParsePacket(source).value)
  {
    var p := ParsePacket(source).value;
    ParsedIsCurrent(source);
    ParseThenWrite(source);
    SplitIff(Parse(source).value, source, p);
  }

  lemma {:induction false} HeaderFirst(h: CommonHeader, rest: seq<byte>)
    requires ToBytes(h).Ok? && h.versionMajor == CURRENT_VERSION_MAJOR && h.wireFormat == CURRENT_WIRE_FORMAT
    ensures var source := ToBytes(h).value + rest;
      |source| >= COMMON_HEADER_LEN && source[..COMMON_HEADER_LEN] == ToBytes(h).value && Parse(source) == Ok(h)
  {
    WriteThenParse(h, rest);
  }

  lemma {:induction false} FramedParses(source: seq<byte>, p: Parsed)
    requires Framed(source, p)
    ensures ParsePacket(source) == Ok(p)
  {
    HeaderFirst(p.header, p.metadata + p.body);
    Regroup(ToBytes(p.header).value, p.metadata, p.body);
    SplitIff(p.header, source, p);
  }

  /** A packet parses to a triple exactly when it frames that triple. */
  lemma {:induction false} PacketIff(source: seq<byte>, p: Parsed)
    ensures ParsePacket(source) == Ok(p) <==> Framed(source, p)
  {
    if ParsePacket(source) == Ok(p) { ParsedIsFramed(source); }
    if Framed(source, p) { FramedParses(source, p); }
  }

  ghost predicate Accepted(source: seq<byte>) { ParsePacket(source).Ok? }

  /** No accepted packet is a proper prefix of another. */
  lemma {:induction false} PrefixFree(a: seq<byte>, b: seq<byte>)
    requires Accepted(a) && Accepted(b) && a <= b
    ensures a == b
  {
    assert a[..COMMON_HEADER_LEN] == b[..COMMON_HEADER_LEN];
    assert Parse(a) == Parse(b);
  }

  function Join(packets: seq<seq<byte>>): seq<byte> {
    if packets == [] then [] else packets[0] + Join(packets[1..])
  }

  lemma {:induction false} JoinFirst(ps: seq<seq<byte>>)
    requires ps != []
    ensures ps[0] <= Join(ps) && Join(ps)[|ps[0]|..] == Join(ps[1..])
  {
  }

  lemma {:induction false} SamePacket(a: seq<byte>, b: seq<byte>, s: seq<byte>)
    requires Accepted(a) && Accepted(b) && a <= s && b <= s
    ensures a == b
  {
    assert a == s[..|a|] && b == s[..|b|];
    if |a| <= |b| { PrefixFree(a, b); } else { PrefixFree(b, a); }
  }

  /** A byte stream splits into accepted packets in at most one way. */
  lemma {:induction false} UniqueSplit(ps: seq<seq<byte>>, qs: seq<seq<byte>>)
    requires (forall p | p in ps :: Accepted(p)) && (forall q | q in qs :: Accepted(q)) && Join(ps) == Join(qs)
    ensures ps == qs
    decreases |ps|
  {
    if ps == [] || qs == [] {
      NonEmpty(ps);
      NonEmpty(qs);
    } else {
      var a, b := ps[0], qs[0];
      assert a in ps && b in qs;
      JoinFirst(ps);
      JoinFirst(qs);
      SamePacket(a, b, Join(ps));
      UniqueSplit(ps[1..], qs[1..]);
      assert ps == [a] + ps[1..] && qs == [b] + qs[1..];
    }
  }

  lemma {:induction false} NonEmpty(ps: seq<seq<byte>>)
    requires forall p | p in ps :: Accepted(p)
    ensures Join(ps) == [] ==> ps == []
  {
    if ps != [] { assert ps[0] in ps; }
  }

  // ---------------------------------------------------------------- sending

  /** The packet a sender builds: the header takes its lengths from the parts. */
  function NewPacket(h: CommonHeader, metadata: seq<byte>, body: seq<byte>): Result<Parsed, NnrpError> {
    if |metadata| > U32_MAX || |body| > U32_MAX then Err(MessageLengthOverflow)
    else
      var sized := h.(metaLen := |metadata|, bodyLen := |body|);
      if PacketLen(sized).Err? then Err(PacketLen(sized).error) else Ok(Parsed(sized, metadata, body))
  }

  function PacketToBytes(p: Parsed): Result<seq<byte>, NnrpError> {
    if PacketLen(p.header).Err? then Err(PacketLen(p.header).error)
    else
      var header := ToBytes(p.header);
      if header.Err? then header else Ok(header.value + p.metadata + p.body)
  }

  /** A packet built with a writable header of the current version is read back as it was built. */
  lemma {:induction false} NewPacketRoundTrip(h: CommonHeader, metadata: seq<byte>, body: seq<byte>)
    requires NewPacket(h, metadata, body).Ok? && ToBytes(h).Ok?
    requires h.versionMajor == CURRENT_VERSION_MAJOR && h.wireFormat == CURRENT_WIRE_FORMAT
    ensures var p := NewPacket(h, metadata, body).value;
      PacketToBytes(p).Ok? && ParsePacket(PacketToBytes(p).value) == Ok(p)
  {
    var p := NewPacket(h, metadata, body).value;
    FramedParses(PacketToBytes(p).value, p);
  }
}
