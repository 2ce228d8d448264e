/** The message shapes of X-Plane's UDP data-exchange protocol as the client
    builds and reads them: the 5-byte headers, the request layouts, the
    decimal names `name[i]`, the 1472-byte send buffer and the 64-byte
    PlaneInfo record. */
module Protocol {
  import opened Bytes
  import opened Codec

  /** 4 letters and a NUL. */
  const HEADER_LENGTH: nat := 5
  const DATAREF_GET_HEAD: seq<byte> := [82, 82, 69, 70, 0]   // "RREF\0"
  const DATAREF_SET_HEAD: seq<byte> := [68, 82, 69, 70, 0]   // "DREF\0"
  const BASIC_INFO_HEAD: seq<byte> := [82, 80, 79, 83, 0]    // "RPOS\0"
  const BECON_HEAD: seq<byte> := [66, 69, 67, 78, 0]         // "BECN\0"

  /** Capacity of every pooled buffer, and the lengths sent for requests. */
  const BUFFER_SIZE: nat := 1472
  const RREF_SEND_LENGTH: nat := 413
  const DREF_SEND_LENGTH: nat := 509

  /** `compareHead`: byte by byte over the first four. */
  function CompareHead(templateHead: seq<byte>, data: seq<byte>): bool
    requires |templateHead| >= 4 && |data| >= 4
  {
    templateHead[0] == data[0] && templateHead[1] == data[1]
    && templateHead[2] == data[2] && templateHead[3] == data[3]
  }

  /** A buffer matches a header exactly when its first four bytes spell the
      header's tag; the NUL and the rest of the buffer do not matter. */
  lemma CompareHeadMeansTag(templateHead: seq<byte>, data: seq<byte>)
    requires |templateHead| >= 4 && |data| >= 4
    ensures CompareHead(templateHead, data) <==> templateHead[..4] == data[..4]
  {
    if templateHead[..4] == data[..4] {
      assert templateHead[..4][3] == data[..4][3];
    }
  }

  /** A buffer matches at most one of the three tags the receiver dispatches on. */
  lemma TagsExclusive(data: seq<byte>)
    requires |data| >= 4
    ensures CompareHead(DATAREF_GET_HEAD, data) ==> !CompareHead(BASIC_INFO_HEAD, data) && !CompareHead(BECON_HEAD, data)
    ensures CompareHead(BASIC_INFO_HEAD, data) ==> !CompareHead(BECON_HEAD, data)
  {
  }

  /** Decimal digits of n, as `std::format("{}", n)` writes them: no leading
      zero unless n is 0. */
  function NatDigits(n: nat): (r: seq<byte>)
    ensures |r| >= 1
    ensures forall k :: 0 <= k < |r| ==> 48 <= r[k] <= 57
    ensures r[0] == 48 ==> n == 0
  {
    if n < 10 then [(48 + n) as byte] else NatDigits(n / 10) + [(48 + n % 10) as byte]
  }

  /** The number a run of decimal digits spells. */
  function DigitsValue(ds: seq<byte>): nat
    requires forall k :: 0 <= k < |ds| ==> 48 <= ds[k] <= 57
  {
    if ds == [] then 0 else 10 * DigitsValue(ds[..|ds| - 1]) + (ds[|ds| - 1] as int - 48)
  }

  /** Reading the digits back gives n: the rendering loses nothing. */
  lemma {:induction false} NatDigitsRoundTrip(n: nat)
    ensures DigitsValue(NatDigits(n)) == n
  {
    if n >= 10 {
      var ds := NatDigits(n);
      assert ds[..|ds| - 1] == NatDigits(n / 10);
      NatDigitsRoundTrip(n / 10);
    }
  }

  /** An optional minus sign, then at least one decimal digit. */
  predicate IsDecimal(ds: seq<byte>) {
    |ds| >= 1 && (ds[0] == 45 ==> |ds| >= 2)
    && forall k :: (if ds[0] == 45 then 1 else 0) <= k < |ds| ==> 48 <= ds[k] <= 57
  }

  /** The integer a decimal rendering spells. */
  function DecimalValue(ds: seq<byte>): int
    requires IsDecimal(ds)
  {
    if ds[0] == 45 then -(DigitsValue(ds[1..]) as int) else DigitsValue(ds) as int
  }

  /** `std::format("{}", n)` for a signed integer: a minus sign, then the
      digits of the magnitude. It reads back as n and ends in a digit. */
  function Decimal(n: int): (r: seq<byte>)
    ensures IsDecimal(r) && DecimalValue(r) == n
    ensures r[0] == 45 <==> n < 0
    ensures 48 <= r[|r| - 1] <= 57
  {
    if n < 0 then
      NatDigitsRoundTrip(-n);
      assert ([45] + NatDigits(-n))[1..] == NatDigits(-n);
      [45] + NatDigits(-n)
    else
      NatDigitsRoundTrip(n);
      NatDigits(n)
  }

  /** Different integers render differently. */
  lemma DecimalInjective(i: int, j: int)
    requires Decimal(i) == Decimal(j)
    ensures i == j
  {
  }

  /** `std::format("{}[{}]", name, i)`: the name, then the index in
      brackets, which reads back as i. */
  function Indexed(name: seq<byte>, i: int): (r: seq<byte>)
    ensures |r| >= |name| + 3
    ensures r[..|name|] == name && r[|name|] == 91 && r[|r| - 1] == 93
    ensures IsDecimal(r[|name| + 1..|r| - 1]) && DecimalValue(r[|name| + 1..|r| - 1]) == i
  {
    assert (name + [91] + Decimal(i) + [93])[|name| + 1..|name| + 1 + |Decimal(i)|] == Decimal(i);
    name + [91] + Decimal(i) + [93]
  }

  /** The element names `name[0]`, `name[1]`, ... of one array are pairwise
      distinct: the index can be read back from the name. */
  lemma IndexedInjective(name: seq<byte>, i: int, j: int)
    requires Indexed(name, i) == Indexed(name, j)
    ensures i == j
  {
    DecimalInjective(i, j);
  }

  /** The 32-bit two's-complement field of an `int` (or `int32_t`); a value
      outside that range wraps as the conversion to `int` does. */
  function I32(v: int): (f: Field)
    ensures ValidField(f) && f.Word? && f.width == 4
    ensures -0x8000_0000 <= v < 0x8000_0000 ==> ToInt32(f.bits) == v
  {
    Word(4, v % 0x1_0000_0000)
  }

  /** An in-range `int` is packed as its two's-complement pattern. */
  lemma I32Pattern(v: int)
    requires -0x8000_0000 <= v < 0x8000_0000
    ensures I32(v).bits == FromInt32(v)
  {
  }

  /** The 64-bit field of a `size_t`; a negative `int` converts modulo 2^64. */
  function U64(v: int): (f: Field)
    ensures ValidField(f) && f.Word? && f.width == 8
    ensures 0 <= v < 0x1_0000_0000_0000_0000 ==> f.bits == v
  {
    Word(8, v % 0x1_0000_0000_0000_0000)
  }

  /** The field of a `float`, given by its bit pattern: its four bytes on the
      wire read back as that pattern. */
  function F32(bits: nat): (f: Field)
    requires bits < 0x1_0000_0000
    ensures ValidField(f) && f.Word? && f.width == 4 && f.bits == bits
    ensures |FieldBytes(f)| == 4 && WordValue(FieldBytes(f)) == bits
  {
    WordRoundTrip(4, bits);
    Word(4, bits)
  }

  /** A float pattern compares equal to 0 when it is +0.0 or -0.0. */
  predicate FloatIsZero(bits: nat) {
    bits == 0 || bits == 0x8000_0000
  }

  /** The pattern of the float -1.0, the `track` sentinel of a fresh PlaneInfo. */
  const FLOAT_MINUS_ONE: nat := 0xBF80_0000

  /** What is sent for a request: a zeroed 1472-byte buffer holding the packed
      payload, of which the first `sendLength` bytes go out. */
  function Datagram(payload: seq<byte>, sendLength: nat): (r: seq<byte>)
    requires sendLength <= BUFFER_SIZE
    ensures |r| == sendLength
    ensures forall k :: 0 <= k < sendLength ==> r[k] == if k < |payload| then payload[k] else 0
  {
    if |payload| >= sendLength then payload[..sendLength]
    else payload + Zeros(sendLength - |payload|)
  }

  /** An `RREF` request: header, frequency, slot index, name. */
  function RrefFrame(freq: Field, index: Field, name: seq<byte>): (r: seq<byte>)
    ensures |r| == RREF_SEND_LENGTH
  {
    Datagram(Encoded([Str(DATAREF_GET_HEAD), freq, index, Str(name)]), RREF_SEND_LENGTH)
  }

  /** A `DREF` request: header, float value, name, then a NUL. */
  function DrefFrame(value: Field, name: seq<byte>): (r: seq<byte>)
    ensures |r| == DREF_SEND_LENGTH
  {
    Datagram(Encoded([Str(DATAREF_SET_HEAD), value, Str(name), Word(1, 0)]), DREF_SEND_LENGTH)
  }

  /** The `RPOS` subscription sentence `std::format("{}{}\x00", head, freq)`.
      The format string ends at its embedded NUL, so the sentence is the
      header and the frequency in decimal, ending in a digit rather than a
      NUL; the bytes after the header read back as the frequency. */
  function InfoSentence(freq: int): (r: seq<byte>)
    ensures |r| > HEADER_LENGTH && r[..HEADER_LENGTH] == BASIC_INFO_HEAD
    ensures IsDecimal(r[HEADER_LENGTH..]) && DecimalValue(r[HEADER_LENGTH..]) == freq
    ensures 48 <= r[|r| - 1] <= 57
  {
    HeadThenBody(BASIC_INFO_HEAD, Decimal(freq));
    BASIC_INFO_HEAD + Decimal(freq)
  }

  /** A message `head + body`: the body starts right after the head. */
  lemma HeadThenBody(head: seq<byte>, body: seq<byte>)
    requires body != []
    ensures (head + body)[..|head|] == head && (head + body)[|head|..] == body
  {
  }

  /** How a request is put on the wire: a fresh zeroed 1472-byte buffer, the
      fields packed from offset 0, and the first `sendLength` bytes taken.
      The frame is exactly the datagram of the fields' encoding. */
  method BuildFrame(fields: seq<Field>, sendLength: nat) returns (frame: seq<byte>)
    requires PackSize(0, fields) <= BUFFER_SIZE && sendLength <= BUFFER_SIZE
    ensures frame == Datagram(Encoded(fields), sendLength)
  {
    var buf := new byte[BUFFER_SIZE](_ => 0);
    assert buf[..] == Zeros(BUFFER_SIZE);
    var next := Pack(buf, 0, fields);
    frame := buf[..sendLength];
    PackedDatagram(Encoded(fields), sendLength);
  }

  /** A payload spliced into zeros at offset 0, cut to the send length, is its datagram. */
  lemma PackedDatagram(payload: seq<byte>, sendLength: nat)
    requires |payload| <= BUFFER_SIZE && sendLength <= BUFFER_SIZE
    ensures Spliced(Zeros(BUFFER_SIZE), 0, payload)[..sendLength] == Datagram(payload, sendLength)
  {
    var lhs := Spliced(Zeros(BUFFER_SIZE), 0, payload)[..sendLength];
    forall k | 0 <= k < sendLength
      ensures lhs[k] == Datagram(payload, sendLength)[k]
    {
      if k < |payload| {
        assert lhs[k] == payload[k];
      }
    }
  }

  /** A datagram the client sends, by kind and arguments. */
  datatype Request =
    | Rref(freq: Field, index: Field, name: seq<byte>)
    | Dref(value: Field, name: seq<byte>)
    | Info(rate: int)

  /** The bytes that go out for a request. */
  function Wire(q: Request): (r: seq<byte>)
    ensures q.Rref? ==> |r| == RREF_SEND_LENGTH
    ensures q.Dref? ==> |r| == DREF_SEND_LENGTH
  {
    match q
    case Rref(freq, index, name) => RrefFrame(freq, index, name)
    case Dref(value, name) => DrefFrame(value, name)
    case Info(freq) => InfoSentence(freq)
  }

  /** The 64-byte PlaneInfo record: three doubles, then ten floats, every one
      kept as its bit pattern. */
  datatype PlaneInfo = PlaneInfo(
    lon: nat, lat: nat, alt: nat,
    agl: nat, pitch: nat, track: nat, roll: nat,
    vX: nat, vY: nat, vZ: nat, rollRate: nat, pitchRate: nat, yawRate: nat)

  /** `PlaneInfo info{.track = -1}`. */
  const INITIAL_INFO: PlaneInfo := PlaneInfo(0, 0, 0, 0, 0, FLOAT_MINUS_ONE, 0, 0, 0, 0, 0, 0, 0)

  const INFO_WIDTHS: seq<nat> := [8, 8, 8, 4, 4, 4, 4, 4, 4, 4, 4, 4, 4]
  const INFO_SIZE: nat := 64

  lemma InfoWidthsSum()
    ensures Sum(INFO_WIDTHS) == INFO_SIZE
  {
    assert INFO_WIDTHS[1..][1..][1..] == [4, 4, 4, 4, 4, 4, 4, 4, 4, 4];
  }

  /** `unpack(data, offset, info)`: the record is copied member by member. */
  function DecodeInfo(data: seq<byte>, offset: nat): (r: PlaneInfo)
    requires offset + INFO_SIZE <= |data|
  {
    InfoWidthsSum();
    var w := Unpack(data, offset, INFO_WIDTHS);
    PlaneInfo(w[0], w[1], w[2], w[3], w[4], w[5], w[6], w[7], w[8], w[9], w[10], w[11], w[12])
  }

  /** Where each PlaneInfo member starts in the record. */
  lemma InfoLayout()
    ensures Sum(INFO_WIDTHS) == INFO_SIZE && INFO_SIZE == 64 && |INFO_WIDTHS| == 13
    ensures INFO_WIDTHS[0] == 8 && INFO_WIDTHS[1] == 8 && INFO_WIDTHS[2] == 8
    ensures INFO_WIDTHS[3] == 4 && INFO_WIDTHS[4] == 4 && INFO_WIDTHS[5] == 4 && INFO_WIDTHS[6] == 4
    ensures INFO_WIDTHS[7] == 4 && INFO_WIDTHS[8] == 4 && INFO_WIDTHS[9] == 4 && INFO_WIDTHS[10] == 4
    ensures INFO_WIDTHS[11] == 4 && INFO_WIDTHS[12] == 4
    ensures Start(0, INFO_WIDTHS, 0) == 0 && Start(0, INFO_WIDTHS, 1) == 8
    ensures Start(0, INFO_WIDTHS, 2) == 16 && Start(0, INFO_WIDTHS, 3) == 24
    ensures Start(0, INFO_WIDTHS, 4) == 28 && Start(0, INFO_WIDTHS, 5) == 32
    ensures Start(0, INFO_WIDTHS, 6) == 36 && Start(0, INFO_WIDTHS, 7) == 40
    ensures Start(0, INFO_WIDTHS, 8) == 44 && Start(0, INFO_WIDTHS, 9) == 48
    ensures Start(0, INFO_WIDTHS, 10) == 52 && Start(0, INFO_WIDTHS, 11) == 56
    ensures Start(0, INFO_WIDTHS, 12) == 60
  {
    InfoWidthsSum();
    var ws := INFO_WIDTHS;
    assert INFO_SIZE == 64 && |ws| == 13 && ws[0] == 8 && ws[1] == 8 && ws[2] == 8;
    assert ws[3] == 4 && ws[4] == 4 && ws[5] == 4 && ws[6] == 4 && ws[7] == 4;
    assert ws[8] == 4 && ws[9] == 4 && ws[10] == 4 && ws[11] == 4 && ws[12] == 4;
    hide *;
    StartNext(0, ws, 0);
    StartNext(0, ws, 1);
    StartNext(0, ws, 2);
    StartNext(0, ws, 3);
    StartNext(0, ws, 4);
    StartNext(0, ws, 5);
    StartNext(0, ws, 6);
    StartNext(0, ws, 7);
    StartNext(0, ws, 8);
    StartNext(0, ws, 9);
    StartNext(0, ws, 10);
    StartNext(0, ws, 11);
    StartZero(ws);
  }

  /** The members of a decoded PlaneInfo are the words `unpack` reads, in order. */
  lemma DecodeInfoMembers(data: seq<byte>, offset: nat)
    requires offset + INFO_SIZE <= |data|
    ensures Sum(INFO_WIDTHS) == INFO_SIZE
    ensures var w, r := Unpack(data, offset, INFO_WIDTHS), DecodeInfo(data, offset);
            r == PlaneInfo(w[0], w[1], w[2], w[3], w[4], w[5], w[6], w[7], w[8], w[9], w[10], w[11], w[12])
  {
    InfoWidthsSum();
  }

  /** Each PlaneInfo member comes from its own bytes: the three doubles from
      bytes 0..24 of the record, the ten floats four bytes each after them. */
  lemma DecodeInfoFields(data: seq<byte>, offset: nat)
    requires offset + INFO_SIZE <= |data|
    ensures var r := DecodeInfo(data, offset);
            r.lon == WordValue(data[offset..offset + 8])
            && r.lat == WordValue(data[offset + 8..offset + 16])
            && r.alt == WordValue(data[offset + 16..offset + 24])
            && r.agl == WordValue(data[offset + 24..offset + 28])
            && r.pitch == WordValue(data[offset + 28..offset + 32])
            && r.track == WordValue(data[offset + 32..offset + 36])
            && r.roll == WordValue(data[offset + 36..offset + 40])
            && r.vX == WordValue(data[offset + 40..offset + 44])
            && r.vY == WordValue(data[offset + 44..offset + 48])
            && r.vZ == WordValue(data[offset + 48..offset + 52])
            && r.rollRate == WordValue(data[offset + 52..offset + 56])
            && r.pitchRate == WordValue(data[offset + 56..offset + 60])
            && r.yawRate == WordValue(data[offset + 60..offset + 64])
  {
    InfoLayout();
    DecodeInfoMembers(data, offset);
    var ws := INFO_WIDTHS;
    hide *;
    UnpackAt(data, offset, ws, 0, 0);
    UnpackAt(data, offset, ws, 1, 8);
    UnpackAt(data, offset, ws, 2, 16);
    UnpackAt(data, offset, ws, 3, 24);
    UnpackAt(data, offset, ws, 4, 28);
    UnpackAt(data, offset, ws, 5, 32);
    UnpackAt(data, offset, ws, 6, 36);
    UnpackAt(data, offset, ws, 7, 40);
    UnpackAt(data, offset, ws, 8, 44);
    UnpackAt(data, offset, ws, 9, 48);
    UnpackAt(data, offset, ws, 10, 52);
    UnpackAt(data, offset, ws, 11, 56);
    UnpackAt(data, offset, ws, 12, 60);
  }

  /** The beacon fields after the header: major and minor version (u8),
      software id and simulator version (i32), role (u32), port (u16). */
  const BEACON_WIDTHS: seq<nat> := [1, 1, 4, 4, 4, 2]

  /** The unicast port a beacon announces, from bytes 19 and 20. */
  function BeaconPort(data: seq<byte>): (port: nat)
    requires |data| >= 21
    ensures port < 0x1_0000
    ensures port == data[19] as int + 256 * data[20] as int
  {
    BeaconPortBytes(data);
    Unpack(data, HEADER_LENGTH, BEACON_WIDTHS)[5]
  }

  /** The sixth beacon field is the two bytes 19 and 20. */
  lemma BeaconPortBytes(data: seq<byte>)
    requires |data| >= 21
    ensures HEADER_LENGTH + Sum(BEACON_WIDTHS) <= |data|
    ensures Unpack(data, HEADER_LENGTH, BEACON_WIDTHS)[5] == data[19] as int + 256 * data[20] as int
  {
    hide *;
    BeaconLayout();
    UnpackReadsConsecutive(data, HEADER_LENGTH, BEACON_WIDTHS, 5);
    WordValuePair(data[19..21]);
  }

  /** The beacon fields take 16 bytes after the header; the port starts at byte 19. */
  lemma BeaconLayout()
    ensures Sum(BEACON_WIDTHS) == 16
    ensures HEADER_LENGTH == 5 && |BEACON_WIDTHS| == 6 && BEACON_WIDTHS[5] == 2
    ensures Start(HEADER_LENGTH, BEACON_WIDTHS, 5) == 19
  {
  }

}
