/** The disk behind the AHCI port: sector transfers of at most eight sectors.
    A transfer may fail at any time. A failed write may already have stored some
    of its leading sectors, so what a caller guarantees about its own failure
    exits holds after every prefix of the sector writes it makes. */
module BlockDevice {
  import opened Bytes

  const MAX_SECTORS: nat := 8

  class Disk {
    var bytes: seq<byte>
    /** Set once the device has refused a transfer. */
    var faulted: bool

    constructor (image: seq<byte>)
      ensures bytes == image && !faulted
    {
      bytes := image;
      faulted := false;
    }

    method ReadSectors(lba: nat, count: nat) returns (r: Option<seq<byte>>)
      requires (lba + count) * 512 <= |bytes|
      modifies this`faulted
      ensures r.Some? ==> r.value == bytes[lba * 512..(lba + count) * 512] && faulted == old(faulted)
      ensures r.None? ==> faulted || count > MAX_SECTORS
    {
      if count == 0 {
        return Some([]);
      }
      if count > MAX_SECTORS {
        return None;
      }
      if * {
        faulted := true;
        return None;
      }
      return Some(bytes[lba * 512..(lba + count) * 512]);
    }

    /** `done` is the number of sectors that reached the medium. */
    method WriteSectors(lba: nat, count: nat, buf: seq<byte>) returns (ok: bool, ghost done: nat)
      requires (lba + count) * 512 <= |bytes|
      modifies this
      ensures done <= count && done * 512 <= |buf|
      ensures bytes == Overwrite(old(bytes), lba * 512, buf[..done * 512])
      ensures ok ==> done == count && faulted == old(faulted)
      ensures !ok ==> faulted || count > MAX_SECTORS || |buf| < count * 512
    {
      if count == 0 || count > MAX_SECTORS || |buf| < count * 512 {
        return count == 0, 0;
      }
      var stored := count;
      if * {
        stored :| 0 <= stored <= count;
        faulted := true;
        ok := false;
      } else {
        ok := true;
      }
      bytes := Overwrite(bytes, lba * 512, buf[..stored * 512]);
      done := stored;
    }
  }
}
