/** The disk as the file system sees it through filesys/synchdisk.cc: an array
    of sectors that are read and written whole. */
module SectorDisk {
  import opened Bytes

  const SECTOR_SIZE := 128
  const NUM_SECTORS := 1024
  const BLANK: seq<Byte> := seq(SECTOR_SIZE, _ => 0)

  type SectorNumber = n: int | 0 <= n < 1024
  type Sector = s: seq<Byte> | |s| == SECTOR_SIZE witness BLANK
  type DiskImage = d: seq<Sector> | |d| == NUM_SECTORS
    witness seq<Sector>(NUM_SECTORS, _ => BLANK)

  class SynchDisk {
    var sectors: DiskImage

    constructor (image: DiskImage)
      ensures sectors == image
    {
      sectors := image;
    }

    method ReadSector(sectorNumber: int) returns (data: Sector)
      requires 0 <= sectorNumber < NUM_SECTORS
      ensures data == sectors[sectorNumber]
    {
      data := sectors[sectorNumber];
    }

    method WriteSector(sectorNumber: int, data: Sector)
      requires 0 <= sectorNumber < NUM_SECTORS
      modifies this
      ensures sectors == old(sectors)[sectorNumber := data]
    {
      sectors := sectors[sectorNumber := data];
    }
  }
}
