/** The SD card as the storage stack sees it: an array of 512-byte blocks behind fallible transfers. */
module SdCard {
  import opened Bytes

  const SECTOR_SIZE := 512

  type Sector = s: seq<byte> | |s| == SECTOR_SIZE witness Zeros(SECTOR_SIZE)
  type Disk = seq<Sector>

  datatype Error = Sd | NotFound | NoSpace

  datatype Result<+T> = Ok(value: T) | Err(error: Error)

  /** The card as one run of bytes. */
  function CardByte(d: Disk, a: nat): byte
    requires a < 512 * |d|
  {
    d[a / 512][a % 512]
  }

  /** The little-endian 32-bit word at byte `a`. */
  function CardWord(d: Disk, a: nat): nat
    requires a + 4 <= 512 * |d|
  {
    CardByte(d, a) + 0x100 * CardByte(d, a + 1) + 0x1_0000 * CardByte(d, a + 2) + 0x100_0000 * CardByte(d, a + 3)
  }

  lemma ByteOfBlock(d: Disk, b: nat, o: nat)
    requires b < |d| && o < 512
    ensures 512 * b + o < 512 * |d| && CardByte(d, 512 * b + o) == d[b][o]
  {
    assert (512 * b + o) / 512 == b && (512 * b + o) % 512 == o;
  }

  lemma WordOfBlock(d: Disk, b: nat, o: nat)
    requires b < |d| && o + 4 <= 512
    ensures 512 * b + o + 4 <= 512 * |d| && CardWord(d, 512 * b + o) == U32(d[b][o..o + 4])
  {
    ByteOfBlock(d, b, o);
    ByteOfBlock(d, b, o + 1);
    ByteOfBlock(d, b, o + 2);
    ByteOfBlock(d, b, o + 3);
    var s := d[b][o..o + 4];
    LittleEndian(s + Zeros(4));
    assert (s + Zeros(4))[..4] == s;
  }

  /** Writing one block changes no byte outside what was patched. */
  lemma PatchedBlock(d: Disk, b: nat, o: nat, piece: seq<byte>, a: nat)
    requires b < |d| && o + |piece| <= 512 && a < 512 * |d|
    requires a < 512 * b + o || 512 * b + o + |piece| <= a
    ensures CardByte(d[b := Patch(d[b], o, piece)], a) == CardByte(d, a)
  {
  }

  const ZERO_SECTOR: Sector := Zeros(SECTOR_SIZE)

  /** How many card faults a result reports: a driver operation stops at its first. */
  function Faulted<T>(r: Result<T>): nat {
    if r.Err? && r.error == Sd then 1 else 0
  }

  /**
   * Any transfer may fail, at any time; `faults` counts the times the card itself did. A failed write
   * leaves its block either as it was or fully written, so a caller that returns the error leaves the
   * card in exactly the states a power cut could leave behind after some prefix of the writes. A
   * transfer outside the card is refused without being a fault of the card's.
   */
  class Card {
    var disk: Disk
    ghost var faults: nat

    constructor (blocks: Disk)
      ensures disk == blocks && faults == 0
    {
      disk := blocks;
      faults := 0;
    }

    method ReadBlock(lba: nat) returns (r: Result<Sector>)
      modifies this`faults
      ensures r.Ok? ==> lba < |disk| && r.value == disk[lba]
      ensures r.Err? ==> r.error == Sd
      ensures faults == old(faults) + (if lba < |disk| then Faulted(r) else 0)
    {
      var fault: bool := *;
      if lba >= |disk| {
        return Err(Sd);
      }
      if fault {
        faults := faults + 1;
        return Err(Sd);
      }
      return Ok(disk[lba]);
    }

    method WriteBlock(lba: nat, data: Sector) returns (r: Result<()>)
      modifies this
      ensures r.Ok? ==> lba < |old(disk)| && disk == old(disk)[lba := data]
      ensures r.Err? ==> r.error == Sd
      ensures r.Err? ==> disk == old(disk) || (lba < |old(disk)| && disk == old(disk)[lba := data])
      ensures faults == old(faults) + (if lba < |old(disk)| then Faulted(r) else 0)
    {
      var fault: bool := *;
      var landed: bool := *;
      if lba >= |disk| {
        return Err(Sd);
      }
      if fault {
        faults := faults + 1;
      }
      if fault && !landed {
        return Err(Sd);
      }
      disk := disk[lba := data];
      return if fault then Err(Sd) else Ok(());
    }
  }
}
