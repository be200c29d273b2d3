/** The 1581 sector layout (src/layout.c): 256-byte logical sectors, numbered
    by track and sector, are the halves of 512-byte physical blocks. */
module Layout {
  import opened Wrappers
  import opened Bytes
  import opened Ufi
  import opened ProbeCommands
  import opened Probe
  import opened ProbeSafety

  const TRACK_COUNT: nat := 80
  const PHYSICAL_SECTORS_PER_HEAD: nat := 10
  const PHYSICAL_SECTORS_PER_TRACK: nat := 20
  const LOGICAL_SECTORS_PER_TRACK: nat := 40
  const LOGICAL_SECTOR_SIZE: nat := 256

  datatype PhysicalAddress = PhysicalAddress(
    cylinder: byte, head: byte, sectorIndex: byte, lba: nat, byteOffset: nat, imageOffset: nat)

  datatype LogicalAddress = LogicalAddress(track: byte, sector: byte, imageOffset: nat)

  /** m65_1581_logical_to_physical. */
  function LogicalToPhysical(track: byte, sector: byte): (r: Option<PhysicalAddress>)
    ensures r.Some? <==> 1 <= track <= TRACK_COUNT && sector < LOGICAL_SECTORS_PER_TRACK
  {
    if track == 0 || track > TRACK_COUNT || sector >= LOGICAL_SECTORS_PER_TRACK then None
    else
      var cylinder := track - 1;
      var physicalSector := sector / 2;
      var lba := cylinder * PHYSICAL_SECTORS_PER_TRACK + physicalSector;
      var byteOffset := sector % 2 * LOGICAL_SECTOR_SIZE;
      Some(PhysicalAddress(
             cylinder, physicalSector / PHYSICAL_SECTORS_PER_HEAD, physicalSector % PHYSICAL_SECTORS_PER_HEAD,
             lba, byteOffset, lba * BLOCK_SIZE + byteOffset))
  }

  /** m65_1581_lba_to_logical. */
  function LbaToLogical(lba: nat, byteOffset: nat): (r: Option<LogicalAddress>)
    ensures r.Some? <==> lba < IMAGE_BLOCKS && (byteOffset == 0 || byteOffset == LOGICAL_SECTOR_SIZE)
  {
    if lba >= IMAGE_BLOCKS || (byteOffset != 0 && byteOffset != LOGICAL_SECTOR_SIZE) then None
    else
      var cylinder := lba / PHYSICAL_SECTORS_PER_TRACK;
      var physicalSector := lba % PHYSICAL_SECTORS_PER_TRACK;
      var half := byteOffset / LOGICAL_SECTOR_SIZE;
      Some(LogicalAddress(cylinder + 1, physicalSector * 2 + half, lba * BLOCK_SIZE + byteOffset))
  }

  /** The geometry the probe asks for and accepts is that of the disk it reads
      and of the sectors laid out here. */
  lemma GeometryFitsDisk(p: FlexiblePage)
    requires GeometryIs1581(p)
    ensures p.cylinders == TRACK_COUNT == 80
    ensures p.heads * p.sectorsPerTrack == PHYSICAL_SECTORS_PER_TRACK && p.sectorsPerTrack == PHYSICAL_SECTORS_PER_HEAD
    ensures p.cylinders * p.heads * p.sectorsPerTrack == IMAGE_BLOCKS == 1600
    ensures p.bytesPerSector == BLOCK_SIZE == 2 * LOGICAL_SECTOR_SIZE
    ensures IMAGE_BLOCKS * p.bytesPerSector == IMAGE_SIZE == 819200
    ensures PHYSICAL_SECTORS_PER_TRACK * p.bytesPerSector == LOGICAL_SECTORS_PER_TRACK * LOGICAL_SECTOR_SIZE
    ensures p.transferRate == 250 && p.rotationRate == 300
  {
  }

  /** The two maps undo each other and agree on the image offset, which is the
      sector's place in track and sector order. */
  lemma AddressesAgree(track: byte, sector: byte)
    requires LogicalToPhysical(track, sector).Some?
    ensures var p := LogicalToPhysical(track, sector).value;
            && LbaToLogical(p.lba, p.byteOffset) == Some(LogicalAddress(track, sector, p.imageOffset))
            && p.imageOffset == ((track as nat - 1) * 40 + sector as nat) * 256
            && p.lba < 1600 && p.imageOffset + 256 <= 819200
            && p.imageOffset == p.lba * 512 + p.byteOffset && (p.byteOffset == 0 || p.byteOffset == 256)
            && p.lba == (p.cylinder as nat * 2 + p.head as nat) * 10 + p.sectorIndex as nat
            && p.cylinder < 80 && p.head < 2 && p.sectorIndex < 10
  {
  }

  /** The bytes of a logical sector, if the image holds them all. */
  ghost function Sector(image: seq<byte>, track: byte, sector: byte): Option<seq<byte>> {
    var p := LogicalToPhysical(track, sector);
    if p.None? || p.value.imageOffset + LOGICAL_SECTOR_SIZE > |image| then None
    else Some(image[p.value.imageOffset..p.value.imageOffset + LOGICAL_SECTOR_SIZE])
  }

  /** m65_1581_copy_logical_sector. */
  method CopyLogicalSector(image: array<byte>, track: byte, sector: byte, destination: array<byte>)
    returns (copied: bool)
    requires destination.Length == LOGICAL_SECTOR_SIZE && image != destination
    modifies destination
    ensures copied <==> Sector(image[..], track, sector).Some?
    ensures copied ==> destination[..] == Sector(image[..], track, sector).value
    ensures !copied ==> destination[..] == old(destination[..])
  {
    var physical := LogicalToPhysical(track, sector);
    if physical.None? || physical.value.imageOffset > image.Length
       || image.Length - physical.value.imageOffset < LOGICAL_SECTOR_SIZE {
      return false;
    }
    var start := physical.value.imageOffset;
    forall i | 0 <= i < LOGICAL_SECTOR_SIZE {
      destination[i] := image[start + i];
    }
    assert destination[..] == image[start..start + LOGICAL_SECTOR_SIZE];
    return true;
  }

  /** The n-th logical sector in track and sector order, counted from 0. */
  ghost function NthSector(image: seq<byte>, n: nat): Option<seq<byte>>
    requires n < TRACK_COUNT * LOGICAL_SECTORS_PER_TRACK
  {
    Sector(image, n / LOGICAL_SECTORS_PER_TRACK + 1, n % LOGICAL_SECTORS_PER_TRACK)
  }

  /** The first n of them, one after the other. */
  ghost function FirstSectors(image: seq<byte>, n: nat): seq<byte>
    requires n <= TRACK_COUNT * LOGICAL_SECTORS_PER_TRACK
  {
    if n == 0 then []
    else FirstSectors(image, n - 1) + if NthSector(image, n - 1).Some? then NthSector(image, n - 1).value else []
  }

  lemma NthSectorAt(image: seq<byte>, n: nat)
    requires |image| == IMAGE_SIZE && n < TRACK_COUNT * LOGICAL_SECTORS_PER_TRACK
    ensures NthSector(image, n) == Some(image[n * LOGICAL_SECTOR_SIZE..n * LOGICAL_SECTOR_SIZE + LOGICAL_SECTOR_SIZE])
  {
    AddressesAgree(n / LOGICAL_SECTORS_PER_TRACK + 1, n % LOGICAL_SECTORS_PER_TRACK);
    hide LogicalToPhysical, LbaToLogical;
  }

  lemma JoinSlices(image: seq<byte>, i: nat, n: nat)
    requires i + n <= |image|
    ensures image[..i] + image[i..i + n] == image[..i + n]
  {
  }

  lemma {:induction false} SectorsAreInOrder(image: seq<byte>, n: nat)
    requires |image| == IMAGE_SIZE && n <= TRACK_COUNT * LOGICAL_SECTORS_PER_TRACK
    ensures FirstSectors(image, n) == image[..n * LOGICAL_SECTOR_SIZE]
  {
    hide NthSector;
    if n > 0 {
      NthSectorAt(image, n - 1);
      SectorsAreInOrder(image, n - 1);
      JoinSlices(image, (n - 1) * LOGICAL_SECTOR_SIZE, LOGICAL_SECTOR_SIZE);
    }
  }

  /** Every logical sector, read in order, gives the image back. */
  lemma SectorsMakeTheImage(image: seq<byte>)
    requires |image| == IMAGE_SIZE
    ensures FirstSectors(image, TRACK_COUNT * LOGICAL_SECTORS_PER_TRACK) == image
  {
    SectorsAreInOrder(image, TRACK_COUNT * LOGICAL_SECTORS_PER_TRACK);
  }

  lemma SectorIsHalfABlock(image: seq<byte>, track: byte, sector: byte)
    requires |image| == IMAGE_SIZE && LogicalToPhysical(track, sector).Some?
    ensures var p := LogicalToPhysical(track, sector).value;
            && |Block(image, p.lba)| == BLOCK_SIZE && p.byteOffset + LOGICAL_SECTOR_SIZE <= BLOCK_SIZE
            && Sector(image, track, sector)
               == Some(Block(image, p.lba)[p.byteOffset..p.byteOffset + LOGICAL_SECTOR_SIZE])
  {
    AddressesAgree(track, sector);
    var p := LogicalToPhysical(track, sector).value;
    hide LogicalToPhysical, LbaToLogical;
    assert image[p.lba * BLOCK_SIZE..(p.lba + 1) * BLOCK_SIZE][p.byteOffset..p.byteOffset + LOGICAL_SECTOR_SIZE]
        == image[p.imageOffset..p.imageOffset + LOGICAL_SECTOR_SIZE];
  }

  /** On an image the probe read, a logical sector is the matching half of the
      block that the one read covering its address returned. */
  lemma SectorIsWhatWasRead(pass: seq<Call>, track: byte, sector: byte) returns (k: nat)
    requires ReadsAll(pass, IMAGE_BLOCKS, CHUNK_BLOCKS) && LogicalToPhysical(track, sector).Some?
    ensures var p := LogicalToPhysical(track, sector).value;
            && k < |pass| && pass[k].Executed?
            && InChunk(k, p.lba, IMAGE_BLOCKS, CHUNK_BLOCKS)
            && var block := Block(pass[k].data, p.lba - Covered(k, IMAGE_BLOCKS, CHUNK_BLOCKS));
               && |block| == BLOCK_SIZE && p.byteOffset + LOGICAL_SECTOR_SIZE <= BLOCK_SIZE
               && Sector(Delivered(pass), track, sector)
                  == Some(block[p.byteOffset..p.byteOffset + LOGICAL_SECTOR_SIZE])
  {
    var p := LogicalToPhysical(track, sector).value;
    AddressesAgree(track, sector);
    PassIsImage(pass);
    SectorIsHalfABlock(Delivered(pass), track, sector);
    k := EachBlockOnce(IMAGE_BLOCKS, CHUNK_BLOCKS, |pass|, p.lba);
    BlockIsFromItsRead(pass, IMAGE_BLOCKS, CHUNK_BLOCKS, k, p.lba);
  }
}
