/** The fixed-layout records of an input file: the 16-byte big-endian
    envelope every file starts with, and the 74-byte little-endian packet
    metadata record that follows it in data records, with its 32-byte
    user-packet-info (UPI) buffer. */
module Container {
  import opened Bytes

  /** The four ASCII bytes "SVS " (with the trailing space). */
  const Magic: seq<byte> := [0x53, 0x56, 0x53, 0x20]

  const EnvelopeSize: nat := 16
  const MetadataSize: nat := 74

  /** The envelope sequence counter that marks an introductory record. */
  const IntroSequence: nat := 1

  type Tag = s: seq<byte> | |s| == 4 witness [0, 0, 0, 0]
  type UpiBuffer = s: seq<byte> | |s| == 32 witness seq(32, _ => 0)

  /** The envelope: a 4-byte tag, a u32 sequence counter and a u64 tick,
      all big-endian. */
  datatype Envelope = Envelope(tag: Tag, sequence: u32, when: u64)

  /** `binary.Read` of the envelope in big-endian order. Every one of the 16
      bytes is read: they are the layout of the envelope they decode to. */
  function DecodeEnvelope(b: seq<byte>): (e: Envelope)
    requires |b| == EnvelopeSize
    ensures e.tag == b[..4] && ToBE(e.sequence, 4) == b[4..8] && ToBE(e.when, 8) == b[8..16]
    ensures EncodeEnvelope(e) == b
  {
    assert b == b[..4] + b[4..8] + b[8..16];
    Envelope(b[..4], U32BE(b[4..8]), U64BE(b[8..16]))
  }

  function EncodeEnvelope(e: Envelope): (b: seq<byte>)
    ensures |b| == EnvelopeSize
  {
    e.tag + ToBE(e.sequence, 4) + ToBE(e.when, 8)
  }

  lemma DecodeEncodeEnvelope(e: Envelope)
    ensures DecodeEnvelope(EncodeEnvelope(e)) == e
  {
    var b := EncodeEnvelope(e);
    assert b[..4] == e.tag && b[4..8] == ToBE(e.sequence, 4) && b[8..16] == ToBE(e.when, 8);
    ReadsBack(0, e.sequence, e.when);
  }

  /** The packet metadata record, in the declaration order of its fields.
      `magic` is read but never serialized. */
  datatype Metadata = Metadata(
    magic: u8,
    acquisition: u64,
    sequence: u32,
    auxiliary: u64,
    source: u8,
    x: u16,
    y: u16,
    format: u8,
    drop: u16,
    offsetX: u16,
    sizeX: u16,
    offsetY: u16,
    sizeY: u16,
    scaleX: u16,
    scaleY: u16,
    ratio: u8,
    upi: UpiBuffer)

  /** `binary.Read` of the record in little-endian order: the fields one
      after the other at their declared widths. The layout has no padding:
      the 74 bytes are exactly the layout of the record they decode to. */
  function DecodeMetadata(b: seq<byte>): (m: Metadata)
    requires |b| == MetadataSize
    ensures EncodeMetadata(m) == b
  {
    assert b[..22] == [b[0]] + b[1..9] + b[9..13] + b[13..21] + [b[21]];
    assert b[22..29] == b[22..24] + b[24..26] + [b[26]] + b[27..29];
    assert b[29..41] == b[29..31] + b[31..33] + b[33..35] + b[35..37] + b[37..39] + b[39..41];
    assert b == b[..22] + b[22..29] + b[29..41] + [b[41]] + b[42..];
    Metadata(
      b[0], U64LE(b[1..9]), U32LE(b[9..13]), U64LE(b[13..21]), b[21],
      U16LE(b[22..24]), U16LE(b[24..26]), b[26], U16LE(b[27..29]),
      U16LE(b[29..31]), U16LE(b[31..33]), U16LE(b[33..35]), U16LE(b[35..37]),
      U16LE(b[37..39]), U16LE(b[39..41]), b[41], b[42..74])
  }

  /** The record's layout, in three groups: the identifying fields (22
      bytes), the source geometry (7 bytes) and the region of interest with
      its scaling (12 bytes), then the scale ratio and the UPI buffer. */
  function EncodeMetadata(m: Metadata): (b: seq<byte>)
    ensures |b| == MetadataSize
  {
    Identity(m) + Geometry(m) + Region(m) + [m.ratio] + m.upi
  }

  function Identity(m: Metadata): (b: seq<byte>)
    ensures |b| == 22
  {
    [m.magic] + ToLE(m.acquisition, 8) + ToLE(m.sequence, 4) + ToLE(m.auxiliary, 8) + [m.source]
  }

  function Geometry(m: Metadata): (b: seq<byte>)
    ensures |b| == 7
  {
    ToLE(m.x, 2) + ToLE(m.y, 2) + [m.format] + ToLE(m.drop, 2)
  }

  function Region(m: Metadata): (b: seq<byte>)
    ensures |b| == 12
  {
    ToLE(m.offsetX, 2) + ToLE(m.sizeX, 2) + ToLE(m.offsetY, 2) + ToLE(m.sizeY, 2)
      + ToLE(m.scaleX, 2) + ToLE(m.scaleY, 2)
  }

  lemma IdentityDecodes(m: Metadata, b: seq<byte>)
    requires |b| == MetadataSize && b[..22] == Identity(m)
    ensures b[0] == m.magic && U64LE(b[1..9]) == m.acquisition && U32LE(b[9..13]) == m.sequence
    ensures U64LE(b[13..21]) == m.auxiliary && b[21] == m.source
  {
    var i := Identity(m);
    SliceOfSlice(b, 0, 22, 1, 9);
    SliceOfSlice(b, 0, 22, 9, 13);
    SliceOfSlice(b, 0, 22, 13, 21);
    assert b[1..9] == i[1..9] == ToLE(m.acquisition, 8);
    assert b[9..13] == i[9..13] == ToLE(m.sequence, 4);
    assert b[13..21] == i[13..21] == ToLE(m.auxiliary, 8);
    ReadsBack(0, m.sequence, m.acquisition);
    ReadsBack(0, 0, m.auxiliary);
  }

  lemma GeometryDecodes(m: Metadata, b: seq<byte>)
    requires |b| == MetadataSize && b[22..29] == Geometry(m)
    ensures U16LE(b[22..24]) == m.x && U16LE(b[24..26]) == m.y && b[26] == m.format
    ensures U16LE(b[27..29]) == m.drop
  {
    var g := Geometry(m);
    SliceOfSlice(b, 22, 29, 0, 2);
    SliceOfSlice(b, 22, 29, 2, 4);
    SliceOfSlice(b, 22, 29, 5, 7);
    assert b[22..24] == g[..2] == ToLE(m.x, 2);
    assert b[24..26] == g[2..4] == ToLE(m.y, 2);
    assert b[27..29] == g[5..] == ToLE(m.drop, 2);
    ReadsBack(m.x, 0, 0);
    ReadsBack(m.y, 0, 0);
    ReadsBack(m.drop, 0, 0);
  }

  lemma RegionDecodes(m: Metadata, b: seq<byte>)
    requires |b| == MetadataSize && b[29..41] == Region(m)
    ensures U16LE(b[29..31]) == m.offsetX && U16LE(b[31..33]) == m.sizeX
    ensures U16LE(b[33..35]) == m.offsetY && U16LE(b[35..37]) == m.sizeY
    ensures U16LE(b[37..39]) == m.scaleX && U16LE(b[39..41]) == m.scaleY
  {
    var r := Region(m);
    SliceOfSlice(b, 29, 41, 2, 4);
    SliceOfSlice(b, 29, 41, 4, 6);
    SliceOfSlice(b, 29, 41, 6, 8);
    SliceOfSlice(b, 29, 41, 8, 10);
    assert b[29..31] == r[..2] == ToLE(m.offsetX, 2);
    assert b[31..33] == r[2..4] == ToLE(m.sizeX, 2);
    assert b[33..35] == r[4..6] == ToLE(m.offsetY, 2);
    assert b[35..37] == r[6..8] == ToLE(m.sizeY, 2);
    assert b[37..39] == r[8..10] == ToLE(m.scaleX, 2);
    assert b[39..41] == r[10..] == ToLE(m.scaleY, 2);
    ReadsBack(m.offsetX, 0, 0);
    ReadsBack(m.sizeX, 0, 0);
    ReadsBack(m.offsetY, 0, 0);
    ReadsBack(m.sizeY, 0, 0);
    ReadsBack(m.scaleX, 0, 0);
    ReadsBack(m.scaleY, 0, 0);
  }

  lemma DecodeEncodeMetadata(m: Metadata)
    ensures DecodeMetadata(EncodeMetadata(m)) == m
  {
    var b := EncodeMetadata(m);
    assert b[..22] == Identity(m) && b[22..29] == Geometry(m) && b[29..41] == Region(m);
    assert b[41] == m.ratio && b[42..74] == m.upi;
    IdentityDecodes(m, b);
    GeometryDecodes(m, b);
    RegionDecodes(m, b);
  }

  /** `bytes.Trim(u, "\x00")`: the UPI buffer without its leading and
      trailing zero bytes. */
  function TrimZeros(s: seq<byte>): (r: seq<byte>)
    ensures exists i, j ::
      && 0 <= i <= j <= |s| && r == s[i..j]
      && (forall k :: 0 <= k < i ==> s[k] == 0) && (forall k :: j <= k < |s| ==> s[k] == 0)
    ensures r != [] ==> r[0] != 0 && r[|r| - 1] != 0
  {
    var l := TrimLeading(s);
    var r := TrimTrailing(l);
    assert r == s[|s| - |l|..|s| - |l| + |r|];
    r
  }

  function TrimLeading(s: seq<byte>): (r: seq<byte>)
    ensures |r| <= |s| && r == s[|s| - |r|..]
    ensures forall k :: 0 <= k < |s| - |r| ==> s[k] == 0
    ensures r != [] ==> r[0] != 0
  {
    if s != [] && s[0] == 0 then TrimLeading(s[1..]) else s
  }

  function TrimTrailing(s: seq<byte>): (r: seq<byte>)
    ensures |r| <= |s| && r == s[..|r|]
    ensures forall k :: |r| <= k < |s| ==> s[k] == 0
    ensures r != [] ==> r[|r| - 1] != 0
  {
    if s != [] && s[|s| - 1] == 0 then TrimTrailing(s[..|s| - 1]) else s
  }

  function ZeroBytes(k: nat): (s: seq<byte>)
    ensures |s| == k && forall i :: 0 <= i < k ==> s[i] == 0
  {
    seq(k, _ => 0)
  }

  /** Padding on either side is removed, and nothing else: a text whose
      first and last bytes are not zero survives any zero padding around it
      (inner zero bytes included). */
  lemma TrimZerosOfPadded(lead: nat, text: seq<byte>, trail: nat)
    requires text == [] || (text[0] != 0 && text[|text| - 1] != 0)
    ensures TrimZeros(ZeroBytes(lead) + text + ZeroBytes(trail)) == text
  {
    var s := ZeroBytes(lead) + text + ZeroBytes(trail);
    if text == [] {
      assert s == ZeroBytes(lead + trail) + [];
      TrimLeadingOfPadded(lead + trail, []);
    } else {
      assert (text + ZeroBytes(trail))[0] == text[0];
      TrimLeadingOfPadded(lead, text + ZeroBytes(trail));
      assert s == ZeroBytes(lead) + (text + ZeroBytes(trail));
      TrimTrailingOfPadded(text, trail);
    }
  }

  lemma {:induction false} TrimLeadingOfPadded(lead: nat, rest: seq<byte>)
    requires rest == [] || rest[0] != 0
    ensures TrimLeading(ZeroBytes(lead) + rest) == rest
  {
    if lead > 0 {
      assert (ZeroBytes(lead) + rest)[1..] == ZeroBytes(lead - 1) + rest;
      TrimLeadingOfPadded(lead - 1, rest);
    } else {
      assert ZeroBytes(0) + rest == rest;
    }
  }

  lemma {:induction false} TrimTrailingOfPadded(text: seq<byte>, trail: nat)
    requires text == [] || text[|text| - 1] != 0
    ensures TrimTrailing(text + ZeroBytes(trail)) == text
  {
    var s := text + ZeroBytes(trail);
    if trail > 0 {
      assert s[..|s| - 1] == text + ZeroBytes(trail - 1);
      TrimTrailingOfPadded(text, trail - 1);
    } else {
      assert s == text;
    }
  }

  /** The trimmed UPI as text: each byte as the character of that code. */
  function UpiText(u: UpiBuffer): (t: string)
    ensures |t| == |TrimZeros(u)|
    ensures forall i :: 0 <= i < |t| ==> t[i] as int == TrimZeros(u)[i]
  {
    var r := TrimZeros(u);
    seq(|r|, i requires 0 <= i < |r| => r[i] as char)
  }
}
