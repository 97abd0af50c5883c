/** The virtio block device's file backend (virtio_block_device.c:16-141). In snapshot mode
    writes go to private sector buffers and the image file stays as it is; in read-write mode
    they go through to the file, whose number of sectors was fixed when it was opened. */
module BlockDevice {

  type Byte = b: nat | b < 256

  const SECTOR_SIZE := 512
  const WORD: nat := 0x1_0000_0000_0000_0000

  datatype Mode = ReadOnly | ReadWrite | Snapshot

  // ---------- a flat disk ----------

  /** The disk after writing `data` from sector `at` on; a write that does not fit is rejected. */
  function FlatWrite(disk: seq<seq<Byte>>, at: nat, data: seq<seq<Byte>>): (r: seq<seq<Byte>>)
    ensures |r| == |disk|
  {
    if at + |data| > |disk| then disk else disk[..at] + data + disk[at + |data|..]
  }

  /** The disk after data has been laid over it, of which only the part that fits is seen. */
  function Overlay(disk: seq<seq<Byte>>, at: nat, data: seq<seq<Byte>>): (r: seq<seq<Byte>>)
    ensures |r| == |disk|
  {
    seq(|disk|, i requires 0 <= i < |disk| => if at <= i < at + |data| then data[i - at] else disk[i])
  }

  /** A write that fits is the same in both modes. */
  lemma FittingAlike(disk: seq<seq<Byte>>, at: nat, data: seq<seq<Byte>>)
    requires at + |data| <= |disk|
    ensures Overlay(disk, at, data) == FlatWrite(disk, at, data)
  {
  }

  datatype Write = Write(at: nat, data: seq<seq<Byte>>)

  predicate Covers(w: Write, size: nat, i: nat) {
    w.at + |w.data| <= size && w.at <= i < w.at + |w.data|
  }

  /** The disk after a sequence of writes. */
  function Replay(disk: seq<seq<Byte>>, writes: seq<Write>): (r: seq<seq<Byte>>)
    ensures |r| == |disk|
  {
    if writes == [] then disk
    else
      var w := writes[|writes| - 1];
      FlatWrite(Replay(disk, writes[..|writes| - 1]), w.at, w.data)
  }

  /** A sector holds what the last accepted write that covers it put there, and the base
      image if there is none. */
  lemma {:induction false} LastWriteWins(disk: seq<seq<Byte>>, writes: seq<Write>, i: nat, last: int)
    requires i < |disk| && -1 <= last < |writes|
    requires last >= 0 ==> Covers(writes[last], |disk|, i)
    requires forall k :: last < k < |writes| ==> !Covers(writes[k], |disk|, i)
    ensures Replay(disk, writes)[i] == if last < 0 then disk[i] else writes[last].data[i - writes[last].at]
    decreases |writes|
  {
    if writes != [] {
      var rest := writes[..|writes| - 1];
      if last == |writes| - 1 {
      } else {
        assert !Covers(writes[|writes| - 1], |disk|, i);
        assert forall k :: 0 <= k < |rest| ==> rest[k] == writes[k];
        LastWriteWins(disk, rest, i, last);
      }
    }
  }

  // ---------- the device ----------

  /** `size` consecutive sectors of a byte sequence. */
  function Sectors(s: seq<Byte>, size: nat): (r: seq<seq<Byte>>)
    requires size * SECTOR_SIZE <= |s|
    ensures |r| == size
  {
    seq(size, k requires 0 <= k < size => s[k * SECTOR_SIZE..k * SECTOR_SIZE + SECTOR_SIZE])
  }

  // ---------- the range check of a snapshot write ----------

  /** `(sector_num + size) > nb_sectors` does not hold, in 64 bits. */
  predicate CheckPasses(at: nat, size: nat, nb: nat) {
    (at + size) % WORD <= nb
  }

  /** The check lets through exactly the writes that fit, unless the sum wraps around to a
      number in range. */
  lemma CheckIff(at: nat, size: nat, nb: nat)
    requires at < WORD && size < 0x8000_0000 && nb < 0x8000_0000_0000_0000
    ensures (CheckPasses(at, size, nb) <==> at + size <= nb) <==> !Wraps(at, size, nb)
  {
  }

  predicate Wraps(at: nat, size: nat, nb: nat) {
    at + size >= WORD && at + size - WORD <= nb
  }

  /** One sector at the last sector number, for a disk of any size. */
  lemma CheckFailsExample(nb: nat)
    requires nb < 0x8000_0000_0000_0000
    ensures CheckPasses(WORD - 1, 1, nb) && WORD - 1 + 1 > nb
  {
  }

  /** How a request ends: with an answer, or by indexing the sector table at `index`, outside it. */
  datatype Outcome = Answered(ret: int) | Stray(index: nat)

  /** How a request on the sector table that passes its checks ends: the loop goes through the
      sectors in order until it leaves the table. */
  function TableOutcome(at: nat, size: nat, nb: nat): Outcome {
    if size == 0 || at + size <= nb then Answered(0) else Stray(if at >= nb then at else nb)
  }

  // ---------- the file ----------

  /** `sector_num * SECTOR_SIZE`, in 64 bits. */
  function Offset(at: nat): nat {
    at * SECTOR_SIZE % WORD
  }

  /** Where fseek leaves the file: its `long` offset is refused if it is negative. */
  function Sought(pos: nat, at: nat): nat {
    if Offset(at) < 0x8000_0000_0000_0000 then Offset(at) else pos
  }

  /** A sector number is counted modulo 2^55, and of those the upper half is refused. */
  lemma OffsetIs(at: nat)
    ensures Offset(at) == at % 0x80_0000_0000_0000 * SECTOR_SIZE
    ensures Offset(at) < 0x8000_0000_0000_0000 <==> at % 0x80_0000_0000_0000 < 0x40_0000_0000_0000
  {
  }

  /** The file is put where the sector is if and only if its number is below 2^54. */
  lemma SeekIff(at: nat)
    requires at < WORD
    ensures Offset(at) < 0x8000_0000_0000_0000 && Offset(at) == at * SECTOR_SIZE <==> at < 0x40_0000_0000_0000
  {
  }

  /** Sector 2^55 is taken for sector 0; a seek to sector 2^54 leaves the file where it was. */
  lemma SeekExample(pos: nat)
    ensures Sought(pos, 0x80_0000_0000_0000) == 0 && Sought(pos, 0x40_0000_0000_0000) == pos
  {
  }

  /** What fread delivers: the bytes there are. */
  function Available(file: seq<Byte>, off: nat, n: nat): (s: seq<Byte>)
    ensures |s| <= n && (off + n <= |file| ==> s == file[off..off + n])
  {
    if off >= |file| then [] else if off + n <= |file| then file[off..off + n] else file[off..]
  }

  /** The file after fwrite. A gap between the old end and the data reads as zeros. */
  function Written(file: seq<Byte>, off: nat, data: seq<Byte>): (t: seq<Byte>)
    ensures |t| >= |file| && |t| >= off + |data|
    ensures t[off..off + |data|] == data
    ensures forall i :: 0 <= i < |file| && !(off <= i < off + |data|) ==> t[i] == file[i]
  {
    if off + |data| <= |file| then file[..off] + data + file[off + |data|..]
    else if off <= |file| then file[..off] + data
    else file + seq(off - |file|, _ => 0) + data
  }

  class FileDevice {
    const mode: Mode
    const nbSectors: nat
    /** The image file, and the position in it. */
    var file: seq<Byte>
    var pos: nat
    const sectorTable: array<array?<Byte>>
    ghost var buffers: set<array<Byte>>

    ghost predicate Valid()
      reads `file, `buffers, sectorTable, buffers
    {
      && nbSectors * SECTOR_SIZE <= |file| && nbSectors < 0x40_0000_0000_0000
      && sectorTable.Length == nbSectors
      && (forall b :: b in buffers ==> b.Length == SECTOR_SIZE)
      && (forall i :: 0 <= i < nbSectors && sectorTable[i] != null ==> sectorTable[i] in buffers)
      && (forall i, j :: 0 <= i < j < nbSectors && sectorTable[i] != null ==> sectorTable[i] != sectorTable[j])
      && (mode != Snapshot ==> forall i :: 0 <= i < nbSectors ==> sectorTable[i] == null)
    }

    /** What sector `i` reads as. */
    ghost function Sector(i: nat): (s: seq<Byte>)
      requires Valid() && i < nbSectors
      reads `file, `buffers, sectorTable, buffers
    {
      if sectorTable[i] != null then sectorTable[i][..]
      else file[i * SECTOR_SIZE..i * SECTOR_SIZE + SECTOR_SIZE]
    }

    /** The disk the guest sees. */
    ghost function Disk(): (d: seq<seq<Byte>>)
      requires Valid()
      reads `file, `buffers, sectorTable, buffers
      ensures |d| == nbSectors && forall i :: 0 <= i < nbSectors ==> d[i] == Sector(i)
    {
      Below(nbSectors)
    }

    ghost function Below(n: nat): (d: seq<seq<Byte>>)
      requires Valid() && n <= nbSectors
      reads `file, `buffers, sectorTable, buffers
      ensures |d| == n && forall i :: 0 <= i < n ==> d[i] == Sector(i)
    {
      if n == 0 then [] else Below(n - 1) + [Sector(n - 1)]
    }

    /** block_device_init, once the image is open. */
    constructor (image: seq<Byte>, m: Mode)
      requires |image| < 0x8000_0000_0000_0000
      ensures Valid() && file == image && mode == m && nbSectors == |image| / SECTOR_SIZE
      ensures buffers == {} && fresh(sectorTable) && pos == |image|
      ensures forall i :: 0 <= i < nbSectors ==>
                Sector(i) == image[i * SECTOR_SIZE..i * SECTOR_SIZE + SECTOR_SIZE]
    {
      mode := m;
      file := image;
      pos := |image|;
      nbSectors := |image| / SECTOR_SIZE;
      sectorTable := new array?<Byte>[|image| / SECTOR_SIZE](_ => null);
      buffers := {};
    }

    /** fseek to a sector. */
    method Seek(sectorNum: nat)
      modifies `pos
      ensures pos == Sought(old(pos), sectorNum)
    {
      var off := sectorNum * SECTOR_SIZE % WORD;
      if off < 0x8000_0000_0000_0000 {
        pos := off;
      }
    }

    /** fread: buffer bytes beyond the end of the file stay as they are. */
    method FRead(buf: array<Byte>, at: nat, n: nat)
      requires at + n <= buf.Length
      modifies `pos, buf
      ensures var d := Available(file, old(pos), n);
        buf[..] == old(buf[..])[..at] + d + old(buf[..])[at + |d|..] && pos == old(pos) + |d|
    {
      var d := Available(file, pos, n);
      var i := 0;
      while i < |d|
        invariant 0 <= i <= |d| && pos == old(pos)
        invariant buf[..] == old(buf[..])[..at] + d[..i] + old(buf[..])[at + i..]
      {
        buf[at + i] := d[i];
        i := i + 1;
      }
      assert d[..i] == d;
      pos := pos + |d|;
    }

    static method MemCpy(dst: array<Byte>, at: nat, src: array<Byte>, from: nat, n: nat)
      requires dst != src && at + n <= dst.Length && from + n <= src.Length
      modifies dst
      ensures dst[..] == old(dst[..])[..at] + src[..][from..from + n] + old(dst[..])[at + n..]
    {
      var i := 0;
      while i < n
        invariant 0 <= i <= n
        invariant dst[..] == old(dst[..])[..at] + src[..][from..from + i] + old(dst[..])[at + i..]
      {
        dst[at + i] := src[from + i];
        i := i + 1;
      }
    }

    /** One turn of the snapshot read loop. */
    method ReadSector(sectorNum: nat, buf: array<Byte>, at: nat)
      requires Valid() && buf !in buffers
      requires sectorNum < nbSectors && at + SECTOR_SIZE <= buf.Length
      modifies `pos, buf
      ensures buf[..] == old(buf[..])[..at] + Sector(sectorNum) + old(buf[..])[at + SECTOR_SIZE..]
    {
      var s := sectorTable[sectorNum];
      if s == null {
        Seek(sectorNum);
        FRead(buf, at, SECTOR_SIZE);
      } else {
        MemCpy(buf, at, s, 0, SECTOR_SIZE);
        assert s[..][0..SECTOR_SIZE] == s[..];
      }
    }

    /** bf_read_async. No range is checked: a snapshot reads the sectors there are and then
        leaves its table; the other modes deliver what the file has from where the seek left
        it, sectors beyond the announced count included. */
    method ReadAsync(sectorNum: nat, buf: array<Byte>, size: nat) returns (o: Outcome)
      requires Valid() && buf !in buffers && size * SECTOR_SIZE <= buf.Length
      modifies `pos, buf
      ensures Valid() && Disk() == old(Disk())
      ensures o == if mode == Snapshot then TableOutcome(sectorNum, size, nbSectors) else Answered(0)
      ensures sectorNum + size <= nbSectors ==>
                && Sectors(buf[..], size) == Disk()[sectorNum..sectorNum + size]
                && buf[..][size * SECTOR_SIZE..] == old(buf[..])[size * SECTOR_SIZE..]
      ensures mode != Snapshot ==>
                var from := Sought(old(pos), sectorNum);
                var d := Available(file, from, size * SECTOR_SIZE);
                buf[..] == d + old(buf[..])[|d|..] && pos == from + |d|
      ensures o.Stray? ==>
                var n := o.index - sectorNum;
                && Sectors(buf[..], n) == (if n == 0 then [] else Disk()[sectorNum..])
                && buf[..][n * SECTOR_SIZE..] == old(buf[..])[n * SECTOR_SIZE..]
    {
      hide Valid;
      hide Disk;
      hide Sectors;
      hide Available;
      hide Sought;
      if mode == Snapshot {
        o := ReadSnapshot(sectorNum, buf, size);
        assert o.Stray? ==> o.index == if sectorNum >= nbSectors then sectorNum else nbSectors;
        assert Disk()[..nbSectors] == Disk();
      } else {
        ReadFile(sectorNum, buf, size);
        o := Answered(0);
      }
    }

    method ReadFile(sectorNum: nat, buf: array<Byte>, size: nat)
      requires Valid() && mode != Snapshot && buf !in buffers && size * SECTOR_SIZE <= buf.Length
      modifies `pos, buf
      ensures var from := Sought(old(pos), sectorNum);
        var d := Available(file, from, size * SECTOR_SIZE);
        buf[..] == d + old(buf[..])[|d|..] && pos == from + |d|
      ensures sectorNum + size <= nbSectors ==>
                && Sectors(buf[..], size) == Disk()[sectorNum..sectorNum + size]
                && buf[..][size * SECTOR_SIZE..] == old(buf[..])[size * SECTOR_SIZE..]
    {
      hide Valid;
      hide Sought;
      hide Available;
      hide Sectors;
      hide Disk;
      Seek(sectorNum);
      FRead(buf, 0, size * SECTOR_SIZE);
      assert buf[..] == Available(file, Sought(old(pos), sectorNum), size * SECTOR_SIZE)
                        + old(buf[..])[|Available(file, Sought(old(pos), sectorNum), size * SECTOR_SIZE)|..];
      if sectorNum + size <= nbSectors {
        InFile(sectorNum, size, old(pos));
        Placed(file, sectorNum * SECTOR_SIZE, size * SECTOR_SIZE, old(buf[..]), buf[..]);
        SectorsRead(sectorNum, size, buf[..]);
      }
    }

    lemma InFile(sectorNum: nat, size: nat, from: nat)
      requires Valid() && sectorNum + size <= nbSectors
      ensures Sought(from, sectorNum) == sectorNum * SECTOR_SIZE && (sectorNum + size) * SECTOR_SIZE <= |file|
    {
    }

    lemma SectorsRead(sectorNum: nat, size: nat, b: seq<Byte>)
      requires Valid() && mode != Snapshot && sectorNum + size <= nbSectors && size * SECTOR_SIZE <= |b|
      requires (sectorNum + size) * SECTOR_SIZE <= |file|
      requires b[..size * SECTOR_SIZE] == file[sectorNum * SECTOR_SIZE..(sectorNum + size) * SECTOR_SIZE]
      ensures Sectors(b, size) == Disk()[sectorNum..sectorNum + size]
    {
      hide Sectors;
      hide Below;
      WholeRead(b, file, sectorNum, size);
      forall k | 0 <= k < size
        ensures Sectors(b, size)[k] == Disk()[sectorNum + k]
      {
        assert Disk()[sectorNum + k] == Sector(sectorNum + k);
      }
    }

    /** The snapshot read loop. */
    method ReadSnapshot(sectorNum: nat, buf: array<Byte>, size: nat) returns (o: Outcome)
      requires Valid() && buf !in buffers && size * SECTOR_SIZE <= buf.Length
      modifies `pos, buf
      ensures o == TableOutcome(sectorNum, size, nbSectors)
      ensures var n := if o.Stray? then o.index - sectorNum else size;
        && Sectors(buf[..], n) == (if n == 0 then [] else Disk()[sectorNum..sectorNum + n])
        && buf[..][n * SECTOR_SIZE..] == old(buf[..])[n * SECTOR_SIZE..]
    {
      hide Sectors;
      hide Sector;
      ghost var disk := Disk();
      NoSectors(buf[..]);
      var i := 0;
      while i < size
        invariant 0 <= i <= size && Valid() && Disk() == disk
        invariant i == 0 || sectorNum + i <= nbSectors
        invariant Sectors(buf[..], i) == if i == 0 then [] else disk[sectorNum..sectorNum + i]
        invariant buf[..][i * SECTOR_SIZE..] == old(buf[..])[i * SECTOR_SIZE..]
      {
        if sectorNum + i >= nbSectors {
          return Stray(sectorNum + i);
        }
        ghost var b := buf[..];
        assert disk[sectorNum + i] == Sector(sectorNum + i);
        ReadSector(sectorNum + i, buf, i * SECTOR_SIZE);
        SectorAppended(b, buf[..], i, disk[sectorNum + i]);
        TailStays(old(buf[..]), b, i);
        OneMore(disk, sectorNum, i);
        i := i + 1;
      }
      o := Answered(0);
    }

    /** One turn of the write loop: a sector without a buffer gets a new one. */
    method WriteSector(sectorNum: nat, buf: array<Byte>, at: nat)
      requires Valid() && mode == Snapshot && buf !in buffers
      requires sectorNum < nbSectors && at + SECTOR_SIZE <= buf.Length
      modifies `buffers, sectorTable, buffers
      ensures Valid() && fresh(buffers - old(buffers)) && file == old(file) && buf[..] == old(buf[..])
      ensures Disk() == old(Disk())[sectorNum := buf[..][at..at + SECTOR_SIZE]]
    {
      if sectorTable[sectorNum] == null {
        var b := new Byte[SECTOR_SIZE];
        buffers := buffers + {b};
        sectorTable[sectorNum] := b;
      }
      var b := sectorTable[sectorNum];
      MemCpy(b, 0, buf, at, SECTOR_SIZE);
      ghost var data := buf[..][at..at + SECTOR_SIZE];
      assert b[..] == data;
      forall i | 0 <= i < nbSectors
        ensures Sector(i) == if i == sectorNum then data else old(Sector(i))
      {
      }
    }

    /** bf_write_async. */
    method WriteAsync(sectorNum: nat, buf: array<Byte>, size: nat) returns (o: Outcome)
      requires Valid() && buf !in buffers
      requires size * SECTOR_SIZE <= buf.Length && sectorNum < WORD && size < 0x8000_0000
      modifies `buffers, `file, `pos, sectorTable, buffers
      ensures Valid() && fresh(buffers - old(buffers)) && buf[..] == old(buf[..])
      ensures var disk, data := old(Disk()), Sectors(buf[..], size);
        match mode
        case ReadOnly => o == Answered(-1) && Disk() == disk && file == old(file)
        case ReadWrite =>
          var at := Sought(old(pos), sectorNum);
          && o == Answered(0) && file == Written(old(file), at, buf[..size * SECTOR_SIZE])
          && pos == at + size * SECTOR_SIZE
          && (at % SECTOR_SIZE == 0 ==> Disk() == Overlay(disk, at / SECTOR_SIZE, data))
          && (sectorNum < 0x40_0000_0000_0000 ==> Disk() == Overlay(disk, sectorNum, data))
        case Snapshot =>
          && o == (if sectorNum + size <= nbSectors then Answered(0)
                   else if Wraps(sectorNum, size, nbSectors) then Stray(sectorNum) else Answered(-1))
          && Disk() == FlatWrite(disk, sectorNum, data) && file == old(file)
    {
      hide Valid;
      hide Disk;
      hide FlatWrite;
      hide Overlay;
      hide Sectors;
      hide Written;
      match mode {
        case ReadOnly => o := Answered(-1);
        case ReadWrite =>
          SeekIff(sectorNum);
          WriteThrough(sectorNum, buf, size);
          o := Answered(0);
        case Snapshot => o := WriteSnapshot(sectorNum, buf, size);
      }
    }

    /** fseek and fwrite, and what they do to the disk. */
    method WriteThrough(sectorNum: nat, buf: array<Byte>, size: nat)
      requires Valid() && mode == ReadWrite && size * SECTOR_SIZE <= buf.Length
      modifies `file, `pos
      ensures var at := Sought(old(pos), sectorNum);
        && Valid() && file == Written(old(file), at, buf[..size * SECTOR_SIZE])
        && pos == at + size * SECTOR_SIZE
        && (at % SECTOR_SIZE == 0 ==> Disk() == Overlay(old(Disk()), at / SECTOR_SIZE, Sectors(buf[..], size)))
    {
      hide Written;
      hide Sought;
      hide Sectors;
      hide Below;
      hide Disk;
      ghost var was, disk := file, Disk();
      assert Unbuffered(was, disk);
      Seek(sectorNum);
      file := Written(file, pos, buf[..size * SECTOR_SIZE]);
      if pos % SECTOR_SIZE == 0 {
        Laid(was, disk, pos / SECTOR_SIZE, buf[..], size);
      }
      pos := pos + size * SECTOR_SIZE;
    }

    /** Without buffers the disk is the file. */
    ghost predicate Unbuffered(image: seq<Byte>, disk: seq<seq<Byte>>) {
      && |disk| == nbSectors && nbSectors * SECTOR_SIZE <= |image|
      && forall i :: 0 <= i < nbSectors ==> disk[i] == image[i * SECTOR_SIZE..i * SECTOR_SIZE + SECTOR_SIZE]
    }

    lemma Laid(was: seq<Byte>, disk: seq<seq<Byte>>, first: nat, b: seq<Byte>, size: nat)
      requires Valid() && mode == ReadWrite && Unbuffered(was, disk) && size * SECTOR_SIZE <= |b|
      requires file == Written(was, first * SECTOR_SIZE, b[..size * SECTOR_SIZE])
      ensures Disk() == Overlay(disk, first, Sectors(b, size))
    {
      hide Written;
      hide Sectors;
      hide Below;
      forall i | 0 <= i < nbSectors
        ensures Sector(i) == if first <= i < first + size then Sectors(b, size)[i - first] else disk[i]
      {
        WrittenSector(was, first, b, size, i);
      }
    }

    /** The snapshot branch: the check in 64 bits, then the loop. */
    method WriteSnapshot(sectorNum: nat, buf: array<Byte>, size: nat) returns (o: Outcome)
      requires Valid() && buf !in buffers && mode == Snapshot && size * SECTOR_SIZE <= buf.Length
      requires sectorNum < WORD && size < 0x8000_0000
      modifies `buffers, sectorTable, buffers
      ensures Valid() && fresh(buffers - old(buffers))
      ensures o == if sectorNum + size <= nbSectors then Answered(0)
                   else if Wraps(sectorNum, size, nbSectors) then Stray(sectorNum) else Answered(-1)
      ensures Disk() == FlatWrite(old(Disk()), sectorNum, Sectors(buf[..], size))
      ensures file == old(file) && buf[..] == old(buf[..])
    {
      hide Disk;
      hide FlatWrite;
      hide Sectors;
      CheckIff(sectorNum, size, nbSectors);
      FlatSize(old(Disk()), sectorNum, Sectors(buf[..], size));
      hide Valid;
      if (sectorNum + size) % WORD > nbSectors {
        return Answered(-1);
      }
      FlatNone(Disk(), sectorNum, buf[..]);
      var i := 0;
      while i < size
        invariant 0 <= i <= size && Valid() && buf !in buffers && fresh(buffers - old(buffers))
        invariant file == old(file) && buf[..] == old(buf[..]) && (i > 0 ==> sectorNum + size <= nbSectors)
        invariant Disk() == FlatWrite(old(Disk()), sectorNum, Sectors(buf[..], i))
      {
        if sectorNum + i >= nbSectors {
          return Stray(sectorNum + i);
        }
        FlatStep(old(Disk()), sectorNum, buf[..], i);
        WriteSector(sectorNum + i, buf, i * SECTOR_SIZE);
        i := i + 1;
      }
      o := Answered(0);
    }
  }

  lemma SectorAppended(b: seq<Byte>, c: seq<Byte>, i: nat, s: seq<Byte>)
    requires |s| == SECTOR_SIZE && (i + 1) * SECTOR_SIZE <= |b|
    requires c == b[..i * SECTOR_SIZE] + s + b[i * SECTOR_SIZE + SECTOR_SIZE..]
    ensures Sectors(c, i + 1) == Sectors(b, i) + [s]
    ensures c[(i + 1) * SECTOR_SIZE..] == b[(i + 1) * SECTOR_SIZE..]
  {
    forall k | 0 <= k < i
      ensures Sectors(c, i + 1)[k] == Sectors(b, i)[k]
    {
      var at := k * SECTOR_SIZE;
      assert c[at..at + SECTOR_SIZE] == b[at..at + SECTOR_SIZE];
    }
    var at := i * SECTOR_SIZE;
    assert c[at..at + SECTOR_SIZE] == s;
  }

  lemma TailStays(b: seq<Byte>, c: seq<Byte>, i: nat)
    requires |b| == |c| >= (i + 1) * SECTOR_SIZE && b[i * SECTOR_SIZE..] == c[i * SECTOR_SIZE..]
    ensures b[(i + 1) * SECTOR_SIZE..] == c[(i + 1) * SECTOR_SIZE..]
  {
    assert b[i * SECTOR_SIZE..][SECTOR_SIZE..] == b[(i + 1) * SECTOR_SIZE..];
    assert c[i * SECTOR_SIZE..][SECTOR_SIZE..] == c[(i + 1) * SECTOR_SIZE..];
  }

  lemma OneMore(disk: seq<seq<Byte>>, at: nat, i: nat)
    requires at + i < |disk|
    ensures disk[at..at + i + 1] == (if i == 0 then [] else disk[at..at + i]) + [disk[at + i]]
  {
  }

  lemma NoSectors(b: seq<Byte>)
    ensures Sectors(b, 0) == [] && b[0 * SECTOR_SIZE..] == b
  {
  }

  lemma FlatSize(disk: seq<seq<Byte>>, at: nat, data: seq<seq<Byte>>)
    ensures at + |data| > |disk| ==> FlatWrite(disk, at, data) == disk
  {
  }

  lemma FlatNone(disk: seq<seq<Byte>>, at: nat, buf: seq<Byte>)
    ensures FlatWrite(disk, at, Sectors(buf, 0)) == disk
  {
  }

  lemma FlatStep(disk: seq<seq<Byte>>, at: nat, buf: seq<Byte>, i: nat)
    requires at + i < |disk| && (i + 1) * SECTOR_SIZE <= |buf|
    ensures FlatWrite(disk, at, Sectors(buf, i + 1))
         == FlatWrite(disk, at, Sectors(buf, i))[at + i := buf[i * SECTOR_SIZE..i * SECTOR_SIZE + SECTOR_SIZE]]
  {
    var x := buf[i * SECTOR_SIZE..i * SECTOR_SIZE + SECTOR_SIZE];
    assert Sectors(buf, i + 1) == Sectors(buf, i) + [x];
    FlatExtend(disk, at, Sectors(buf, i), x);
  }

  lemma FlatExtend(disk: seq<seq<Byte>>, at: nat, data: seq<seq<Byte>>, x: seq<Byte>)
    requires at + |data| < |disk|
    ensures FlatWrite(disk, at, data + [x]) == FlatWrite(disk, at, data)[at + |data| := x]
  {
  }

  /** A read that ends within the file fills its part of the buffer. */
  lemma Placed(file: seq<Byte>, m: nat, n: nat, was: seq<Byte>, b: seq<Byte>)
    requires m + n <= |file| && n <= |was|
    requires var d := Available(file, m, n); b == d + was[|d|..]
    ensures |b| == |was| && b[..n] == file[m..m + n] && b[n..] == was[n..]
  {
    assert Available(file, m, n) == file[m..m + n];
    hide Available;
  }

  lemma WholeRead(b: seq<Byte>, file: seq<Byte>, from: nat, size: nat)
    requires (from + size) * SECTOR_SIZE <= |file| && size * SECTOR_SIZE <= |b|
    requires b[..size * SECTOR_SIZE] == file[from * SECTOR_SIZE..(from + size) * SECTOR_SIZE]
    ensures forall k :: 0 <= k < size ==>
              Sectors(b, size)[k] == file[(from + k) * SECTOR_SIZE..(from + k) * SECTOR_SIZE + SECTOR_SIZE]
  {
    forall k | 0 <= k < size
      ensures Sectors(b, size)[k] == file[(from + k) * SECTOR_SIZE..(from + k) * SECTOR_SIZE + SECTOR_SIZE]
    {
      var at, n, m := k * SECTOR_SIZE, size * SECTOR_SIZE, from * SECTOR_SIZE;
      SubSlice(b, 0, n, at, at + SECTOR_SIZE);
      SubSlice(file, m, (from + size) * SECTOR_SIZE, at, at + SECTOR_SIZE);
    }
  }

  /** A sector of the file after a write-through: its data if covered, what it was otherwise. */
  lemma WrittenSector(file: seq<Byte>, at: nat, buf: seq<Byte>, size: nat, i: nat)
    requires size * SECTOR_SIZE <= |buf| && (i + 1) * SECTOR_SIZE <= |file|
    ensures var t := Written(file, at * SECTOR_SIZE, buf[..size * SECTOR_SIZE]);
      t[i * SECTOR_SIZE..i * SECTOR_SIZE + SECTOR_SIZE]
      == if at <= i < at + size then Sectors(buf, size)[i - at] else file[i * SECTOR_SIZE..i * SECTOR_SIZE + SECTOR_SIZE]
  {
    hide Written;
    var n, off := size * SECTOR_SIZE, at * SECTOR_SIZE;
    var t := Written(file, off, buf[..n]);
    if at <= i < at + size {
      var k := (i - at) * SECTOR_SIZE;
      SubSlice(t, off, off + n, k, k + SECTOR_SIZE);
      SubSlice(buf, 0, n, k, k + SECTOR_SIZE);
    } else {
      var x, y := t[i * SECTOR_SIZE..i * SECTOR_SIZE + SECTOR_SIZE], file[i * SECTOR_SIZE..i * SECTOR_SIZE + SECTOR_SIZE];
      forall k | 0 <= k < SECTOR_SIZE
        ensures x[k] == y[k]
      {
        assert x[k] == t[i * SECTOR_SIZE + k];
      }
    }
  }

  lemma SubSlice(s: seq<Byte>, m: nat, e: nat, i: nat, j: nat)
    requires m <= e <= |s| && i <= j <= e - m
    ensures s[m..e][i..j] == s[m + i..m + j]
  {
    var x, y := s[m..e][i..j], s[m + i..m + j];
    assert |x| == |y|;
    forall k | 0 <= k < |x|
      ensures x[k] == y[k]
    {
      assert x[k] == s[m..e][i + k];
    }
  }

  // ---------- a run of requests ----------

  function Flat(data: seq<seq<Byte>>): (s: seq<Byte>)
    requires forall k :: 0 <= k < |data| ==> |data[k]| == SECTOR_SIZE
    ensures |s| == |data| * SECTOR_SIZE
  {
    if data == [] then [] else Flat(data[..|data| - 1]) + data[|data| - 1]
  }

  lemma {:induction false} SectorsOfFlat(data: seq<seq<Byte>>, rest: seq<Byte>)
    requires forall k :: 0 <= k < |data| ==> |data[k]| == SECTOR_SIZE
    ensures Sectors(Flat(data) + rest, |data|) == data
    decreases |data|
  {
    if data != [] {
      var n := |data| - 1;
      SectorsOfFlat(data[..n], data[n] + rest);
      assert Flat(data) + rest == Flat(data[..n]) + (data[n] + rest);
      var b := Flat(data) + rest;
      var at := n * SECTOR_SIZE;
      assert b[at..at + SECTOR_SIZE] == data[n];
      assert forall k :: 0 <= k < n ==> Sectors(b, |data|)[k] == Sectors(b, n)[k];
    }
  }

  /** A request a guest can make. */
  predicate Sendable(w: Write) {
    w.at < WORD && |w.data| < 0x8000_0000 && forall k :: 0 <= k < |w.data| ==> |w.data[k]| == SECTOR_SIZE
  }

  /** Write requests one after the other on a snapshot. The disk is the replay of those served:
      all of them, or all before the first whose sector numbers wrap around the check. */
  method RunWrites(dev: FileDevice, writes: seq<Write>) returns (served: nat)
    requires dev.Valid() && dev.mode == Snapshot && forall k :: 0 <= k < |writes| ==> Sendable(writes[k])
    modifies dev`buffers, dev`file, dev`pos, dev.sectorTable, dev.buffers
    ensures dev.Valid() && fresh(dev.buffers - old(dev.buffers)) && dev.file == old(dev.file)
    ensures served <= |writes| && dev.Disk() == Replay(old(dev.Disk()), writes[..served])
    ensures forall k :: 0 <= k < served ==> !Wraps(writes[k].at, |writes[k].data|, dev.nbSectors)
    ensures served < |writes| ==> Wraps(writes[served].at, |writes[served].data|, dev.nbSectors)
  {
    ghost var disk := dev.Disk();
    served := 0;
    while served < |writes|
      invariant served <= |writes| && dev.Valid() && fresh(dev.buffers - old(dev.buffers))
      invariant dev.file == old(dev.file) && dev.Disk() == Replay(disk, writes[..served])
      invariant forall k :: 0 <= k < served ==> !Wraps(writes[k].at, |writes[k].data|, dev.nbSectors)
    {
      var w := writes[served];
      var o := SendWrite(dev, w);
      if o.Stray? {
        return;
      }
      assert writes[..served + 1][..served] == writes[..served];
      served := served + 1;
    }
    assert writes[..served] == writes;
  }

  method SendWrite(dev: FileDevice, w: Write) returns (o: Outcome)
    requires dev.Valid() && dev.mode == Snapshot && Sendable(w)
    modifies dev`buffers, dev`file, dev`pos, dev.sectorTable, dev.buffers
    ensures dev.Valid() && fresh(dev.buffers - old(dev.buffers)) && dev.file == old(dev.file)
    ensures dev.Disk() == FlatWrite(old(dev.Disk()), w.at, w.data)
    ensures o.Stray? <==> Wraps(w.at, |w.data|, dev.nbSectors)
  {
    var bytes := Flat(w.data);
    var buf := new Byte[|bytes|](i requires 0 <= i < |bytes| => bytes[i]);
    assert buf[..] == bytes;
    SectorsOfFlat(w.data, []);
    assert bytes + [] == bytes;
    o := dev.WriteAsync(w.at, buf, |w.data|);
  }
}
