/** UFI command blocks, the allowlist, sense data and the Flexible Disk page
    (src/ufi.c). Error texts are not modelled: a rejection is `None` or false. */
module Ufi {
  import opened Wrappers
  import opened Bytes

  // ----- commands -----

  const TEST_UNIT_READY: byte := 0x00
  const REQUEST_SENSE: byte := 0x03
  const INQUIRY: byte := 0x12
  const READ_FORMAT_CAPACITIES: byte := 0x23
  const READ_CAPACITY_10: byte := 0x25
  const READ_10: byte := 0x28
  const MODE_SELECT_10: byte := 0x55
  const MODE_SENSE_10: byte := 0x5a

  const BLOCK_SIZE: nat := 512
  const FLEXIBLE_DISK_PAGE: byte := 0x05
  const FLEX_PAGE_LENGTH: nat := 32

  datatype Direction = NoData | DataIn | DataOut

  /** A buffer pointer with its length: the pointer may be null. */
  datatype Buffer = Null(length: nat) | Bytes(bytes: seq<byte>)

  function Zeros(n: nat): (r: seq<byte>)
    ensures |r| == n && forall i :: 0 <= i < n ==> r[i] == 0
  {
    seq(n, i => 0)
  }

  type CdbBuffer = s: seq<byte> | |s| == 16 witness Zeros(16)

  datatype Command = Command(cdb: CdbBuffer, cdbLength: nat, direction: Direction, data: Buffer) {
    function DataLength(): nat {
      match data
      case Null(n) => n
      case Bytes(b) => |b|
    }
  }

  function Cdb(bytes: seq<byte>): CdbBuffer
    requires |bytes| <= 16
  {
    bytes + Zeros(16 - |bytes|)
  }

  function CdbTestUnitReady(): CdbBuffer { Cdb([TEST_UNIT_READY]) }

  function CdbRequestSense(allocation: byte): CdbBuffer {
    Cdb([REQUEST_SENSE, 0, 0, 0, allocation])
  }

  function CdbInquiry(allocation: byte): CdbBuffer { Cdb([INQUIRY, 0, 0, 0, allocation]) }

  function CdbReadCapacity10(): CdbBuffer { Cdb([READ_CAPACITY_10]) }

  function CdbReadFormatCapacities(allocation: nat): CdbBuffer
    requires allocation < 0x1_0000
  {
    Cdb([READ_FORMAT_CAPACITIES, 0, 0, 0, 0, 0, 0] + Be16(allocation))
  }

  function CdbModeSense10(changeable: bool, allocation: nat): CdbBuffer
    requires allocation < 0x1_0000
  {
    Cdb([MODE_SENSE_10, 0, if changeable then 0x45 else 0x05, 0, 0, 0, 0] + Be16(allocation))
  }

  function CdbModeSelect10(parameterLength: nat): CdbBuffer
    requires parameterLength < 0x1_0000
  {
    Cdb([MODE_SELECT_10, 0x10, 0, 0, 0, 0, 0] + Be16(parameterLength))
  }

  function CdbRead10(lba: nat, blocks: nat): CdbBuffer
    requires lba < 0x1_0000_0000 && blocks < 0x1_0000
  {
    Cdb([READ_10, 0] + Be32(lba) + [0] + Be16(blocks))
  }

  // ----- the allowlist -----

  predicate DataValid(c: Command, direction: Direction) {
    && c.direction == direction
    && if direction == NoData then c.data == Null(0) else c.data.Bytes? && c.data.bytes != []
  }

  predicate RequestSenseValid(c: Command) {
    && c.cdbLength == 6 && DataValid(c, DataIn)
    && c.cdb[1] == 0 && c.cdb[2] == 0 && c.cdb[3] == 0 && c.cdb[5] == 0
    && c.cdb[4] != 0 && c.DataLength() == c.cdb[4]
  }

  predicate Read10Valid(c: Command) {
    && c.cdbLength == 10 && DataValid(c, DataIn)
    && var encoded := ReadBe16(c.cdb[..10], 7);
    && encoded.Some? && encoded.value != 0 && c.DataLength() == encoded.value * BLOCK_SIZE
  }

  predicate ModeSelectValid(c: Command) {
    && c.cdbLength == 10 && DataValid(c, DataOut)
    && c.cdb[1] == 0x10 && c.cdb[2] == 0 && c.cdb[3] == 0 && c.cdb[4] == 0
    && c.cdb[5] == 0 && c.cdb[6] == 0 && c.cdb[9] == 0
    && var encoded := ReadBe16(c.cdb[..10], 7);
    && encoded.Some? && encoded.value == c.DataLength() == 40
    && (forall i :: 0 <= i < 8 ==> c.data.bytes[i] == 0)
    && c.data.bytes[8] == FLEXIBLE_DISK_PAGE && c.data.bytes[9] == 30
  }

  predicate Validate(c: Command) {
    var opcode := c.cdb[0];
    if opcode == TEST_UNIT_READY then c.cdbLength == 6 && DataValid(c, NoData)
    else if opcode == REQUEST_SENSE then RequestSenseValid(c)
    else if opcode == INQUIRY then c.cdbLength == 6 && DataValid(c, DataIn)
    else if opcode == READ_FORMAT_CAPACITIES || opcode == READ_CAPACITY_10 || opcode == MODE_SENSE_10
    then c.cdbLength == 10 && DataValid(c, DataIn)
    else if opcode == READ_10 then Read10Valid(c)
    else if opcode == MODE_SELECT_10 then ModeSelectValid(c)
    else false
  }

  /** What the containment section of the design promises of data-out: an
      empty header and the single Flexible Disk page, 40 bytes in all. */
  ghost predicate ContainedPayload(payload: seq<byte>) {
    exists body: seq<byte> :: |body| == 30 && payload == [0, 0, 0, 0, 0, 0, 0, 0, 0x05, 30] + body
  }

  ghost predicate AllowlistedOpcode(opcode: byte) {
    opcode in {0x00, 0x03, 0x12, 0x23, 0x25, 0x28, 0x55, 0x5a}
  }

  /** Only MODE SELECT may carry data out, and then only the contained
      payload; every accepted command fits the 12-byte command block. */
  lemma ValidateContains(c: Command)
    requires Validate(c)
    ensures AllowlistedOpcode(c.cdb[0]) && (c.cdbLength == 6 || c.cdbLength == 10)
    ensures c.direction == DataOut <==> c.cdb[0] == MODE_SELECT_10
    ensures c.direction == DataOut ==> c.data.Bytes? && ContainedPayload(c.data.bytes)
    ensures c.direction == DataIn ==> c.data.Bytes? && c.data.bytes != []
    ensures c.direction == NoData ==> c.data == Null(0)
    ensures c.cdb[0] == READ_10 ==> c.direction == DataIn && c.DataLength() % BLOCK_SIZE == 0
  {
    if c.direction == DataOut {
      var payload := c.data.bytes;
      assert payload == [0, 0, 0, 0, 0, 0, 0, 0, 0x05, 30] + payload[10..];
    }
    if c.cdb[0] == READ_10 {
      var encoded := ReadBe16(c.cdb[..10], 7);
      assert encoded.value * BLOCK_SIZE % BLOCK_SIZE == 0;
    }
  }

  /** What the allowlist asks of the fields of the commands that carry them: a
      READ (10) buffer is the encoded number of 512-byte blocks, a MODE SELECT
      buffer the encoded 40 bytes behind a set PF bit, a REQUEST SENSE buffer
      the allocation length; and nothing else of a READ (10). */
  lemma AcceptedFields(c: Command)
    ensures c.cdb[0] == 0x28 ==>
              (Validate(c) <==>
                 c.cdbLength == 10 && c.direction == DataIn && c.data.Bytes?
                 && |c.data.bytes| == 512 * (256 * c.cdb[7] as nat + c.cdb[8] as nat) != 0)
    ensures c.cdb[0] == 0x55 && Validate(c) ==>
              c.cdb[1] == 0x10 && 256 * c.cdb[7] as nat + c.cdb[8] as nat == |c.data.bytes| == 40
    ensures c.cdb[0] == 0x03 && Validate(c) ==> c.cdb[4] == |c.data.bytes| != 0 && c.cdbLength == 6
  {
    if |c.cdb[..10]| == 10 {
      FieldIs(c.cdb[..10], 7);
    }
  }

  lemma FieldIs(d: seq<byte>, offset: nat)
    requires offset + 2 <= |d|
    ensures ReadBe16(d, offset) == Some(256 * d[offset] as nat + d[offset + 1] as nat)
  {
    Be16Injective(ReadBe16(d, offset).value, 256 * d[offset] as nat + d[offset + 1] as nat);
  }

  /** The bytes of every command the program sends. */
  lemma CommandBytes(changeable: bool, lba: nat, blocks: nat)
    requires lba < 0x1_0000_0000 && blocks < 0x1_0000
    ensures CdbTestUnitReady()[..6] == [0x00, 0, 0, 0, 0, 0]
    ensures CdbRequestSense(18)[..6] == [0x03, 0, 0, 0, 18, 0]
    ensures CdbInquiry(96)[..6] == [0x12, 0, 0, 0, 96, 0]
    ensures CdbReadFormatCapacities(252)[..10] == [0x23, 0, 0, 0, 0, 0, 0, 0, 252, 0]
    ensures CdbReadCapacity10()[..10] == [0x25, 0, 0, 0, 0, 0, 0, 0, 0, 0]
    ensures CdbRead10(lba, blocks)[..10]
            == [0x28, 0, lba / 0x100_0000, lba / 0x1_0000 % 256, lba / 256 % 256, lba % 256, 0,
                blocks / 256, blocks % 256, 0]
    ensures CdbModeSelect10(40)[..10] == [0x55, 0x10, 0, 0, 0, 0, 0, 0, 40, 0]
    ensures CdbModeSense10(changeable, 256)[..10]
            == [0x5a, 0, if changeable then 0x45 else 0x05, 0, 0, 0, 0, 1, 0, 0]
  {
  }

  /** MODE SENSE asks for the Flexible Disk page, with page control 1, the
      changeable mask, or 0, the current values. */
  lemma ModeSenseAsks(changeable: bool)
    ensures var cdb := ModeSenseCommand(changeable).cdb;
            cdb[0] == 0x5a && cdb[2] % 0x40 == 0x05 && cdb[2] / 0x40 == if changeable then 1 else 0
  {
  }

  // ----- sense data -----

  datatype Sense = Sense(valid: bool, responseCode: byte, key: byte, asc: byte, ascq: byte)

  const NO_SENSE := Sense(false, 0, 0, 0, 0)

  function ParseSense(data: seq<byte>): (r: Option<Sense>)
    ensures r.Some? ==> r.value.valid && r.value.key < 16 && r.value.responseCode < 128
  {
    if |data| == 0 then None
    else
      var code: byte := data[0] % 0x80;
      if (code == 0x70 || code == 0x71) && |data| >= 14 then
        Some(Sense(true, code, data[2] % 0x10, data[12], data[13]))
      else if (code == 0x72 || code == 0x73) && |data| >= 4 then
        Some(Sense(true, code, data[1] % 0x10, data[2], data[3]))
      else None
  }

  /** The sense record the parser leaves, also when it rejects: then it holds
      only the response code, if there was a first byte at all. */
  function SenseRecord(data: seq<byte>): (r: Sense)
    ensures r.valid <==> ParseSense(data).Some?
    ensures ParseSense(data).Some? ==> r == ParseSense(data).value
  {
    if ParseSense(data).Some? then ParseSense(data).value
    else if |data| == 0 then NO_SENSE
    else NO_SENSE.(responseCode := data[0] % 0x80)
  }

  /** Sense data in the fixed format: `segment` and `between` are the bytes the
      parser skips, `high` the upper half of the key's byte. */
  ghost function FixedSense(s: Sense, flag: bool, segment: byte, high: nat, between: seq<byte>, rest: seq<byte>): seq<byte>
    requires s.responseCode < 128 && s.key < 16 && high < 16
  {
    [s.responseCode + if flag then 128 else 0, segment, high * 16 + s.key] + between + [s.asc, s.ascq] + rest
  }

  /** And in the descriptor format. */
  ghost function DescriptorSense(s: Sense, flag: bool, high: nat, rest: seq<byte>): seq<byte>
    requires s.responseCode < 128 && s.key < 16 && high < 16
  {
    [s.responseCode + if flag then 128 else 0, high * 16 + s.key, s.asc, s.ascq] + rest
  }

  /** Parsing returns what either printing holds. */
  lemma SenseInvertsPrint(s: Sense, flag: bool, segment: byte, high: nat, between: seq<byte>, rest: seq<byte>)
    requires s.valid && s.key < 16 && high < 16 && |between| == 9
    ensures s.responseCode in {0x70, 0x71} ==>
              ParseSense(FixedSense(s, flag, segment, high, between, rest)) == Some(s)
    ensures s.responseCode in {0x72, 0x73} ==> ParseSense(DescriptorSense(s, flag, high, rest)) == Some(s)
  {
    if s.responseCode in {0x70, 0x71} {
      var d := FixedSense(s, flag, segment, high, between, rest);
      assert d[12] == s.asc && d[13] == s.ascq;
    }
  }

  /** And it accepts nothing but such printings. */
  lemma SenseIsPrinted(data: seq<byte>)
    requires ParseSense(data).Some?
    ensures var s := ParseSense(data).value;
            || (s.responseCode in {0x70, 0x71} && |data| >= 14
                && data == FixedSense(s, data[0] >= 128, data[1], data[2] / 16, data[3..12], data[14..]))
            || (s.responseCode in {0x72, 0x73} && |data| >= 4
                && data == DescriptorSense(s, data[0] >= 128, data[1] / 16, data[4..]))
  {
  }

  // ----- INQUIRY and READ CAPACITY -----

  /** m65_parse_inquiry, as far as accepting the data goes. */
  predicate InquiryAccepted(data: seq<byte>) { |data| >= 36 }

  datatype Capacity = Capacity(blocks: nat, blockSize: nat)

  /** m65_parse_read_capacity_10: the device reports its last block. */
  function ParseReadCapacity(data: seq<byte>): (r: Option<Capacity>)
    ensures r.Some? <==> |data| >= 8 && data[..4] != [0xff, 0xff, 0xff, 0xff]
    ensures r.Some? ==>
              1 <= r.value.blocks < 0x1_0000_0000 && r.value.blockSize < 0x1_0000_0000
              && data[..8] == Be32(r.value.blocks - 1) + Be32(r.value.blockSize)
  {
    var last, size := ReadBe32(data, 0), ReadBe32(data, 4);
    if last.None? || size.None? then None
    else
      LastBlock(data);
      if last.value == 0xffff_ffff then None else Some(Capacity(last.value + 1, size.value))
  }

  lemma LastBlock(data: seq<byte>)
    requires |data| >= 8
    ensures ReadBe32(data, 0) == Some(0xffff_ffff) <==> data[..4] == [0xff, 0xff, 0xff, 0xff]
    ensures data[..8] == Be32(ReadBe32(data, 0).value) + Be32(ReadBe32(data, 4).value)
  {
    assert data[..4] == data[0..4] && data[..8] == data[0..4] + data[4..8];
    assert Be32(0xffff_ffff) == [0xff, 0xff, 0xff, 0xff];
    if data[..4] == [0xff, 0xff, 0xff, 0xff] {
      Be32Injective(ReadBe32(data, 0).value, 0xffff_ffff);
    }
  }

  // ----- the Flexible Disk page -----

  type PageBytes = s: seq<byte> | |s| == FLEX_PAGE_LENGTH witness Zeros(32)

  datatype FlexiblePage = FlexiblePage(
    page: PageBytes, transferRate: nat, heads: nat, sectorsPerTrack: nat,
    bytesPerSector: nat, cylinders: nat, rotationRate: nat, fieldChangeable: seq<bool>)

  /** Offset and length of each named field. */
  const FLEX_FIELDS: seq<(nat, nat)> := [
    (2, 2), (4, 1), (5, 1), (6, 2), (8, 2), (10, 2), (12, 2), (14, 2), (16, 1), (17, 2),
    (19, 1), (20, 1), (21, 1), (22, 1), (23, 1), (24, 1), (25, 1), (26, 1), (27, 1), (28, 2)]

  const FLEX_FIELD_COUNT: nat := 20

  /** The fields the 1581 geometry sets. */
  const REQUIRED_FIELDS: seq<nat> := [0, 1, 2, 3, 4, 19]

  /** The page bytes those fields occupy. */
  predicate GeometryByte(i: nat) { 2 <= i < 10 || 28 <= i < 30 }

  function PageType(first: byte): byte { first % 0x40 }

  predicate Subpage(first: byte) { first / 0x40 % 2 == 1 }

  /** A page's first byte: the savable bit, the subpage bit and the page code. */
  lemma PageByte(savable: bool, subpage: bool, code: nat)
    requires code < 64
    ensures var first: byte := (if savable then 128 else 0) + (if subpage then 64 else 0) + code;
            PageType(first) == code && (Subpage(first) <==> subpage)
  {
  }

  function DecodeFlexible(page: seq<byte>): (r: Option<FlexiblePage>)
    ensures r.Some? ==> |page| >= FLEX_PAGE_LENGTH && r.value.page == page[..FLEX_PAGE_LENGTH]
    ensures r.Some? ==> FieldsMatchPage(r.value)
  {
    if |page| < FLEX_PAGE_LENGTH then None
    else if PageType(page[0]) != FLEXIBLE_DISK_PAGE || Subpage(page[0]) then None
    else if page[1] < 30 || page[1] + 2 > |page| then None
    else
      assert page[..32][2..4] == page[2..4] && page[..32][6..8] == page[6..8];
      assert page[..32][8..10] == page[8..10] && page[..32][28..30] == page[28..30];
      Some(FlexiblePage(
             page[..FLEX_PAGE_LENGTH], ReadBe16(page, 2).value, page[4], page[5],
             ReadBe16(page, 6).value, ReadBe16(page, 8).value, ReadBe16(page, 28).value,
             seq(FLEX_FIELD_COUNT, i => false)))
  }

  /** The decoded fields agree with the page bytes they came from. */
  ghost predicate FieldsMatchPage(p: FlexiblePage) {
    && p.transferRate < 0x1_0000 && p.page[2..4] == Be16(p.transferRate)
    && p.heads == p.page[4] && p.sectorsPerTrack == p.page[5]
    && p.bytesPerSector < 0x1_0000 && p.page[6..8] == Be16(p.bytesPerSector)
    && p.cylinders < 0x1_0000 && p.page[8..10] == Be16(p.cylinders)
    && p.rotationRate < 0x1_0000 && p.page[28..30] == Be16(p.rotationRate)
  }

  function Set1581Geometry(p: FlexiblePage): (r: FlexiblePage)
    ensures FieldsMatchPage(r)
    ensures forall i: nat :: i < FLEX_PAGE_LENGTH && !GeometryByte(i) ==> r.page[i] == p.page[i]
  {
    var page: PageBytes := p.page[..2] + Be16(250) + [2, 10] + Be16(512) + Be16(80)
                           + p.page[10..28] + Be16(300) + p.page[30..];
    assert page[2..4] == Be16(250) && page[6..8] == Be16(512);
    assert page[8..10] == Be16(80) && page[28..30] == Be16(300);
    p.(page := page, transferRate := 250, heads := 2, sectorsPerTrack := 10,
       bytesPerSector := 512, cylinders := 80, rotationRate := 300)
  }

  /** The ten bytes the request sets: 250 kbit/s, 2 heads, 10 sectors of 512
      bytes, 80 cylinders, 300 rpm. */
  lemma RequestedBytes(p: FlexiblePage)
    ensures Set1581Geometry(p).page
            == p.page[..2] + [0x00, 0xfa, 2, 10, 0x02, 0x00, 0x00, 80] + p.page[10..28] + [0x01, 0x2c] + p.page[30..]
  {
    assert Be16(250) == [0x00, 0xfa] && Be16(512) == [0x02, 0x00] && Be16(80) == [0x00, 80] && Be16(300) == [0x01, 0x2c];
  }

  predicate GeometryIs1581(p: FlexiblePage) {
    && p.transferRate == 250 && p.heads == 2 && p.sectorsPerTrack == 10
    && p.bytesPerSector == 512 && p.cylinders == 80 && p.rotationRate == 300
  }

  /** The readback check on decoded fields is the check that every geometry
      byte is the one the change asked for. */
  lemma GeometryIs1581MeansBytes(p: FlexiblePage)
    requires FieldsMatchPage(p)
    ensures GeometryIs1581(p) <==>
            forall i: nat :: i < FLEX_PAGE_LENGTH && GeometryByte(i) ==>
              p.page[i] == Set1581Geometry(p).page[i]
  {
    var want := Set1581Geometry(p);
    if GeometryIs1581(p) {
      assert p.page[2..10] == p.page[2..4] + [p.page[4], p.page[5]] + p.page[6..8] + p.page[8..10];
      assert want.page[2..10] == Be16(250) + [2, 10] + Be16(512) + Be16(80);
      forall i: nat | i < FLEX_PAGE_LENGTH && GeometryByte(i)
        ensures p.page[i] == want.page[i]
      {
        if i < 10 {
          assert p.page[i] == p.page[2..10][i - 2] && want.page[i] == want.page[2..10][i - 2];
        } else {
          assert p.page[i] == p.page[28..30][i - 28] && want.page[i] == want.page[28..30][i - 28];
        }
      }
    }
    if forall i: nat :: i < FLEX_PAGE_LENGTH && GeometryByte(i) ==> p.page[i] == want.page[i] {
      assert p.page[2..4] == want.page[2..4] && p.page[6..8] == want.page[6..8];
      assert p.page[8..10] == want.page[8..10] && p.page[28..30] == want.page[28..30];
      Be16Injective(p.transferRate, 250);
      Be16Injective(p.bytesPerSector, 512);
      Be16Injective(p.cylinders, 80);
      Be16Injective(p.rotationRate, 300);
      assert GeometryByte(4) && GeometryByte(5);
    }
  }

  // ----- changeable fields -----

  /** Field f is changeable when the mask has a bit in one of its bytes. */
  ghost predicate FieldChangeable(mask: PageBytes, f: nat)
    requires f < FLEX_FIELD_COUNT
  {
    exists i: nat :: InField(f, i) && mask[i] != 0
  }

  ghost predicate InField(f: nat, i: nat)
    requires f < FLEX_FIELD_COUNT
    ensures InField(f, i) ==> i < FLEX_PAGE_LENGTH
  {
    FLEX_FIELDS[f].0 <= i < FLEX_FIELDS[f].0 + FLEX_FIELDS[f].1
  }

  /** Each field is flagged changeable exactly if the mask has a bit in it. */
  ghost predicate FlagsOf(p: FlexiblePage, mask: PageBytes) {
    && |p.fieldChangeable| == FLEX_FIELD_COUNT
    && forall f :: 0 <= f < FLEX_FIELD_COUNT ==> (p.fieldChangeable[f] <==> FieldChangeable(mask, f))
  }

  /** The named fields divide bytes 2 to 29 of the page among them: each byte is
      in exactly one. */
  lemma FieldsDividePage(i: nat) returns (f: nat)
    requires 2 <= i < 30
    ensures f < FLEX_FIELD_COUNT && InField(f, i)
    ensures forall g: nat :: g < FLEX_FIELD_COUNT && InField(g, i) ==> g == f
  {
    f := if i < 4 then 0 else if i < 6 then i - 3 else if i < 16 then i / 2
         else if i < 17 then 8 else if i < 19 then 9 else if i < 28 then i - 9 else 19;
  }

  method ApplyChangeability(current: FlexiblePage, mask: FlexiblePage) returns (r: FlexiblePage)
    ensures r == current.(fieldChangeable := r.fieldChangeable)
    ensures |r.fieldChangeable| == FLEX_FIELD_COUNT
    ensures forall f :: 0 <= f < FLEX_FIELD_COUNT ==>
              (r.fieldChangeable[f] <==> FieldChangeable(mask.page, f))
  {
    var flags: seq<bool> := [];
    for field := 0 to FLEX_FIELD_COUNT
      invariant |flags| == field
      invariant forall f :: 0 <= f < field ==> (flags[f] <==> FieldChangeable(mask.page, f))
    {
      var (offset, length) := FLEX_FIELDS[field];
      assert forall i: nat :: InField(field, i) <==> offset <= i < offset + length;
      var changeable := false;
      for k := 0 to length
        invariant changeable <==> exists i: nat :: offset <= i < offset + k && mask.page[i] != 0
      {
        assert InField(field, offset + k);
        if mask.page[offset + k] != 0 {
          changeable := true;
        }
      }
      flags := flags + [changeable];
    }
    r := current.(fieldChangeable := flags);
  }

  /** The mask check of one byte: `(current ^ desired) & ~mask` is zero. */
  predicate ByteChangeAllowed(current: PageBytes, desired: PageBytes, mask: PageBytes, i: nat)
    requires i < FLEX_PAGE_LENGTH
  {
    AndNot(Xor(current[i], desired[i]), mask[i]) == 0
  }

  method GeometryChangesAllowed(current: FlexiblePage, desired: FlexiblePage, mask: FlexiblePage)
    returns (allowed: bool)
    ensures allowed <==> forall i: nat :: i < FLEX_PAGE_LENGTH && GeometryByte(i) ==>
                           ByteChangeAllowed(current.page, desired.page, mask.page, i)
  {
    for index := 0 to |REQUIRED_FIELDS|
      invariant forall j, i: nat :: 0 <= j < index && InField(REQUIRED_FIELDS[j], i) ==>
                  ByteChangeAllowed(current.page, desired.page, mask.page, i)
    {
      var (start, length) := FLEX_FIELDS[REQUIRED_FIELDS[index]];
      for k := 0 to length
        invariant forall i: nat :: start <= i < start + k ==>
                    ByteChangeAllowed(current.page, desired.page, mask.page, i)
      {
        var offset := start + k;
        assert GeometryByte(offset);
        if AndNot(Xor(current.page[offset], desired.page[offset]), mask.page[offset]) != 0 {
          return false;
        }
      }
    }
    forall i: nat | i < FLEX_PAGE_LENGTH && GeometryByte(i)
      ensures ByteChangeAllowed(current.page, desired.page, mask.page, i)
    {
      var j := RequiredFieldOf(i);
    }
    return true;
  }

  /** Every geometry byte belongs to a required field. */
  lemma RequiredFieldOf(i: nat) returns (j: nat)
    requires GeometryByte(i)
    ensures j < |REQUIRED_FIELDS| && InField(REQUIRED_FIELDS[j], i)
  {
    j := if i < 4 then 0 else if i < 5 then 1 else if i < 6 then 2
         else if i < 8 then 3 else if i < 10 then 4 else 5;
  }

  /** When the check passes, the request differs from the original only in
      geometry bytes, only in bits the controller's mask grants, and every
      field that differs is one ApplyChangeability reports as changeable. And
      the check refuses nothing else. */
  lemma AllowedChangeIsContained(original: FlexiblePage, mask: FlexiblePage)
    ensures var requested := Set1581Geometry(original);
            (forall i: nat :: i < FLEX_PAGE_LENGTH && GeometryByte(i) ==>
               ByteChangeAllowed(original.page, requested.page, mask.page, i))
            <==> forall i: nat :: i < FLEX_PAGE_LENGTH ==>
                   Covers(original.page[i], requested.page[i], mask.page[i])
    ensures var requested := Set1581Geometry(original);
            (forall i: nat :: i < FLEX_PAGE_LENGTH && GeometryByte(i) ==>
               ByteChangeAllowed(original.page, requested.page, mask.page, i))
            ==> forall f: nat, i: nat :: f < FLEX_FIELD_COUNT && InField(f, i)
                                         && original.page[i] != requested.page[i] ==>
                  GeometryByte(i) && FieldChangeable(mask.page, f)
  {
    var requested := Set1581Geometry(original);
    forall i: nat | i < FLEX_PAGE_LENGTH
      ensures GeometryByte(i) ==>
                (ByteChangeAllowed(original.page, requested.page, mask.page, i) <==>
                 Covers(original.page[i], requested.page[i], mask.page[i]))
      ensures !GeometryByte(i) ==> Covers(original.page[i], requested.page[i], mask.page[i])
    {
      MaskCoversChange(original.page[i], requested.page[i], mask.page[i]);
    }
    if forall i: nat :: i < FLEX_PAGE_LENGTH && GeometryByte(i) ==>
         ByteChangeAllowed(original.page, requested.page, mask.page, i)
    {
      forall f: nat, i: nat | f < FLEX_FIELD_COUNT && InField(f, i)
                              && original.page[i] != requested.page[i]
        ensures GeometryByte(i) && FieldChangeable(mask.page, f)
      {
        assert ByteChangeAllowed(original.page, requested.page, mask.page, i);
        if mask.page[i] == 0 {
          ZeroMaskForbidsChange(original.page[i], requested.page[i]);
        }
      }
    }
  }

  // ----- the MODE SELECT payload -----

  function BuildModeSelectPayload(p: FlexiblePage): (r: Option<seq<byte>>)
    ensures r.Some? ==> |r.value| == 40 && ContainedPayload(r.value)
  {
    if PageType(p.page[0]) != FLEXIBLE_DISK_PAGE || Subpage(p.page[0]) || p.page[1] != 30 then None
    else
      var payload := Zeros(8) + [PageType(p.page[0])] + p.page[1..];
      assert payload == [0, 0, 0, 0, 0, 0, 0, 0, 0x05, 30] + p.page[2..];
      Some(payload)
  }

  /** The page a payload installs: the saved page with the two flag bits of
      its first byte cleared. */
  function WithoutFlags(page: PageBytes): PageBytes { [PageType(page[0])] + page[1..] }

  /** The change and the restore are built from pages that agree in their
      first two bytes, so either both payloads exist or neither does; and each
      installs its page up to the flag bits. */
  lemma ChangeAndRestoreBuildTogether(p: FlexiblePage)
    ensures BuildModeSelectPayload(p).Some? <==> BuildModeSelectPayload(Set1581Geometry(p)).Some?
    ensures BuildModeSelectPayload(p).Some? ==>
              && BuildModeSelectPayload(p).value[8..] == WithoutFlags(p.page)
              && BuildModeSelectPayload(Set1581Geometry(p)).value[8..]
                 == WithoutFlags(Set1581Geometry(p).page)
  {
    assert !GeometryByte(0) && !GeometryByte(1);
    assert Set1581Geometry(p).page[0] == p.page[0] && Set1581Geometry(p).page[1] == p.page[1];
  }

  /** A payload holds the whole page exactly if the page's top bit is clear;
      with the other flag bit set there is no payload. */
  lemma WholePageExactly(p: FlexiblePage)
    ensures BuildModeSelectPayload(p).Some? ==>
              (BuildModeSelectPayload(p).value[8..] == p.page <==> p.page[0] < 128)
    ensures p.page[0] / 0x40 % 2 == 1 ==> BuildModeSelectPayload(p).None?
  {
    ChangeAndRestoreBuildTogether(p);
    assert p.page == [p.page[0]] + p.page[1..];
  }

  /** A page for which it does not: the one controllers send that mark their
      pages as savable. */
  lemma FlaggedPage() returns (p: FlexiblePage)
    ensures DecodeFlexible([0x85, 30] + Zeros(30)) == Some(p)
    ensures BuildModeSelectPayload(p).Some? && BuildModeSelectPayload(p).value[8..] != p.page
  {
    var page: seq<byte> := [0x85, 30] + Zeros(30);
    assert page[0] == 0x85 && page[1] == 30 && |page| == 32;
    p := DecodeFlexible(page).value;
    WholePageExactly(p);
  }

  // ----- the workflows' commands -----

  function SimpleCommand(cdb: CdbBuffer, cdbLength: nat, direction: Direction, data: Buffer): Command {
    Command(cdb, cdbLength, direction, data)
  }

  function ModeSenseCommand(changeable: bool): Command {
    SimpleCommand(CdbModeSense10(changeable, 256), 10, DataIn, Bytes(Zeros(256)))
  }

  function ModeSelectCommand(payload: seq<byte>): Command
    requires |payload| < 0x1_0000
  {
    SimpleCommand(CdbModeSelect10(|payload|), 10, DataOut, Bytes(payload))
  }

  function Read10Command(lba: nat, blocks: nat, buffer: seq<byte>): Command
    requires lba < 0x1_0000_0000 && blocks < 0x1_0000
  {
    SimpleCommand(CdbRead10(lba, blocks), 10, DataIn, Bytes(buffer))
  }

  lemma ModeSelectValidates(p: FlexiblePage)
    requires BuildModeSelectPayload(p).Some?
    ensures Validate(ModeSelectCommand(BuildModeSelectPayload(p).value))
  {
    var c := ModeSelectCommand(BuildModeSelectPayload(p).value);
    assert c.cdb[..10][7..9] == Be16(40);
    Be16Injective(ReadBe16(c.cdb[..10], 7).value, 40);
  }

  /** Every command the workflows build passes the validator. */
  lemma WorkflowCommandsValidate(changeable: bool, p: FlexiblePage, lba: nat, blocks: nat, buffer: seq<byte>)
    requires lba < 0x1_0000_0000 && 0 < blocks < 0x1_0000 && |buffer| == blocks * BLOCK_SIZE
    ensures Validate(ModeSenseCommand(changeable))
    ensures BuildModeSelectPayload(p).Some? ==>
              Validate(ModeSelectCommand(BuildModeSelectPayload(p).value))
    ensures Validate(Read10Command(lba, blocks, buffer))
    ensures Validate(SimpleCommand(CdbTestUnitReady(), 6, NoData, Null(0)))
    ensures Validate(SimpleCommand(CdbInquiry(96), 6, DataIn, Bytes(Zeros(96))))
    ensures Validate(SimpleCommand(CdbReadCapacity10(), 10, DataIn, Bytes(Zeros(8))))
    ensures Validate(SimpleCommand(CdbReadFormatCapacities(252), 10, DataIn, Bytes(Zeros(252))))
    ensures Validate(SimpleCommand(CdbRequestSense(18), 6, DataIn, Bytes(Zeros(18))))
  {
    hide BuildModeSelectPayload, ModeSelectCommand, Read10Command, Be16, Be32;
    ReadValidates(lba, blocks, buffer);
    if BuildModeSelectPayload(p).Some? {
      ModeSelectValidates(p);
    }
  }

  lemma ReadValidates(lba: nat, blocks: nat, buffer: seq<byte>)
    requires lba < 0x1_0000_0000 && 0 < blocks < 0x1_0000 && |buffer| == blocks * BLOCK_SIZE
    ensures Validate(Read10Command(lba, blocks, buffer))
    ensures ReadBe32(CdbRead10(lba, blocks), 2) == Some(lba)
    ensures ReadBe16(CdbRead10(lba, blocks), 7) == Some(blocks)
  {
    var cdb := CdbRead10(lba, blocks);
    assert cdb[..10][7..9] == cdb[7..9] == Be16(blocks);
    Be16Injective(ReadBe16(cdb[..10], 7).value, blocks);
    Be16Injective(ReadBe16(cdb, 7).value, blocks);
    assert cdb[2..6] == Be32(lba);
    Be32Injective(ReadBe32(cdb, 2).value, lba);
  }
}
