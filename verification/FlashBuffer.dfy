/** mtd/flash.c as it runs: the static buffer `flash_buf`, the SPI driver and the index store. */
module FlashBuffer {
  import opened Bytes
  import opened SpiNor
  import opened FlashJournal
  import opened FlashCache
  import opened FlashCommands

  class Buffer {
    const cfg: Config
    const nor: SpiFlash
    const fbuf: array<byte>
    var dev: Dev
    var sec: int
    var dirty: nat
    var intm: seq<byte>
    var rec: Option<int>
    /** What rtc_GetTimet reads. */
    var rtc: nat
    /** Every command sent to the SPI flash and the index store, oldest first. */
    ghost var trace: seq<Step>

    ghost function Now(): State
      requires nor.Flattens()
      reads this, nor, fbuf
    {
      State(dev, sec, dirty, fbuf[..], intm, Flat(nor.chips, nor.csid), rec)
    }

    ghost predicate Valid()
      reads this, nor, fbuf
    {
      nor.Flattens() && Wf(cfg, Now())
    }

    lemma ValidMeans()
      requires Valid()
      ensures nor.Flattens() && Wf(cfg, Now())
    {
    }

    lemma WriteBackPlaces()
      requires Valid() && dev == Spi
      ensures nor.Flattens() && fbuf.Length == SECTOR
      ensures cfg.protect.Some? ==> cfg.protect.value * SECTOR + SECTOR <= |Now().spi|
      ensures 0 <= sec && sec * SECTOR + SECTOR <= |Now().spi|
    {
    }

    lemma SectorExists(s: nat)
      requires Valid() && HasSec(cfg, Spi, s)
      ensures nor.Flattens() && nor.Valid() && nor.HasSector(s)
      ensures fbuf.Length == SECTOR && s * SECTOR + SECTOR <= |Flat(nor.chips, nor.csid)|
      ensures Start(cfg, Spi, s) == s * SECTOR
    {
    }

    /** Power-up: the static buffer is all zeroes. */
    constructor (cfg: Config, nor: SpiFlash, intm: seq<byte>, rec: Option<int>, rtc: nat)
      ensures this.cfg == cfg && this.nor == nor && this.intm == intm && this.rec == rec && this.rtc == rtc
      ensures dev == Null && sec == 0 && dirty == 0 && fresh(fbuf) && fbuf[..] == Fill(SECTOR, 0)
    {
      this.cfg, this.nor, this.intm, this.rec, this.rtc := cfg, nor, intm, rec, rtc;
      dev, sec, dirty := Null, 0, 0;
      fbuf := new byte[SECTOR](_ => 0);
      trace := [];
    }

    /** What flash_Init needs: devices of the configured sizes, a sector number in range. */
    ghost predicate PoweredUp()
      reads this, nor, fbuf
    {
      && cfg.Valid() && nor.Flattens() && fbuf.Length == SECTOR
      && |intm| == cfg.intSize && |Flat(nor.chips, nor.csid)| == cfg.spiSecs * SECTOR
      && (cfg.protect.Some? ==> 0 <= sec < cfg.spiSecs)
    }

    /** What flash_Init, with its guard as written, sends to the SPI flash. */
    ghost function InitSteps(): seq<Step>
      requires PoweredUp()
      reads this, nor, fbuf
    {
      match cfg.protect
      case Some(p) => BootSteps(DiskOf(Now()), p, sec)
      case None => []
    }

    method Init()
      requires PoweredUp()
      modifies this`dev, this`sec, this`dirty, this`rec, this`trace, nor, fbuf
      ensures Valid() && dev == Null && sec == -1 && dirty == 0
      ensures trace == old(trace) + old(InitSteps())
      ensures AllFit(old(InitSteps()), |old(DiskOf(Now())).secs|)
      ensures DiskOf(Now()) == ApplyAll(old(DiskOf(Now())), old(InitSteps()))
    {
      if cfg.protect.Some? {
        if rec.Some? {
          sec := rec.value;
        } else {
          ReplayShadow(cfg.protect.value);
        }
      }
      dev, sec, dirty := Null, -1, 0;
    }

    /** The body of the replay: the shadow onto sector `sec`, then the record deleted. */
    method ReplayShadow(p: nat)
      requires PoweredUp() && cfg.protect == Some(p) && rec.None?
      modifies this`rec, this`trace, nor, fbuf
      ensures PoweredUp()
      ensures trace == old(trace) + old(InitSteps())
      ensures AllFit(old(InitSteps()), |old(DiskOf(Now())).secs|)
      ensures DiskOf(Now()) == ApplyAll(old(DiskOf(Now())), old(InitSteps()))
    {
      hide Aligned, Flat, SpiFlash.Flattens, SpiFlash.Valid, SpiFlash.HasSector, Config.Valid, Apply, ApplyAll, Sectors;
      ShadowExists(p);
      ghost var d := DiskOf(Now());
      BootCommands(d, p, sec);
      var shadow := nor.ReadLen(p, 0, SECTOR);
      CopyWhole(fbuf[..], shadow);
      CopyIn(0, shadow);
      assert DiskOf(Now()) == d;
      StoreSpi(sec);
      rec := None;
      trace := trace + [Forget];
      ForgetRecord(DiskOf(Now()));
    }

    lemma ShadowExists(p: nat)
      requires PoweredUp() && cfg.protect == Some(p)
      ensures nor.Flattens() && nor.Valid() && nor.HasSector(p)
      ensures |DiskOf(Now()).secs| == cfg.spiSecs && p < cfg.spiSecs
      ensures p * SECTOR + SECTOR <= |Now().spi|
      ensures DiskOf(Now()).secs[p] == Now().spi[p * SECTOR..p * SECTOR + SECTOR]
      ensures 0 <= sec && sec * SECTOR + SECTOR <= |Now().spi|
    {
    }

    /** memcpy into the buffer. */
    method CopyIn(off: nat, d: seq<byte>)
      requires off + |d| <= fbuf.Length
      modifies fbuf
      ensures fbuf[..] == Splice(old(fbuf[..]), off, d)
    {
      forall i | 0 <= i < |d| {
        fbuf[off + i] := d[i];
      }
    }

    // ---- Devices ----

    method EraseSpi(s: nat)
      requires nor.Flattens() && fbuf.Length == SECTOR && s * SECTOR + SECTOR <= |Now().spi|
      modifies this`trace, nor
      ensures nor.Flattens() && trace == old(trace) + [Erase(s)]
      ensures Now() == old(Now()).(spi := Splice(old(Now()).spi, s * SECTOR, Blank(SECTOR)))
      ensures DiskOf(Now()) == Apply(old(DiskOf(Now())), Erase(s))
    {
      hide Aligned, Flat;
      nor.SecErase(s);
      trace := trace + [Erase(s)];
      SectorsSplice(old(Now()).spi, s, Blank(SECTOR));
    }

    method ProgramSpi(s: nat)
      requires nor.Flattens() && fbuf.Length == SECTOR && s * SECTOR + SECTOR <= |Now().spi|
      modifies this`trace, nor
      ensures nor.Flattens() && trace == old(trace) + [Prog(s, fbuf[..])]
      ensures Now() == old(Now()).(spi := Programmed(old(Now()).spi, s * SECTOR, fbuf[..]))
      ensures DiskOf(Now()) == Apply(old(DiskOf(Now())), Prog(s, fbuf[..]))
    {
      hide Aligned, Flat;
      ghost var m := old(Now()).spi;
      nor.Program(s, fbuf[..]);
      trace := trace + [Prog(s, fbuf[..])];
      SectorsSplice(m, s, And(m[s * SECTOR..s * SECTOR + SECTOR], fbuf[..]));
    }

    /** spif_SecErase and spif_Program of the buffer: the sector ends up holding it. */
    method StoreSpi(s: nat)
      requires nor.Flattens() && fbuf.Length == SECTOR && s * SECTOR + SECTOR <= |Now().spi|
      modifies this`trace, nor
      ensures nor.Flattens() && trace == old(trace) + [Erase(s), Prog(s, fbuf[..])]
      ensures Now() == old(Now()).(spi := Splice(old(Now()).spi, s * SECTOR, fbuf[..]))
      ensures s < |old(DiskOf(Now())).secs|
      ensures DiskOf(Now()) == Apply(Apply(old(DiskOf(Now())), Erase(s)), Prog(s, fbuf[..]))
    {
      assert s < |DiskOf(Now()).secs|;
      hide Aligned, Flat, Programmed, Splice, DiskOf, Apply;
      ghost var m := Now().spi;
      EraseSpi(s);
      ProgramSpi(s);
      ProgramBlank(m, s * SECTOR, fbuf[..]);
    }

    method EraseInt(adr: nat)
      requires cfg.intBase <= adr && adr - cfg.intBase + cfg.intBlk <= |intm|
      modifies this`intm
      ensures intm == Splice(old(intm), adr - cfg.intBase, Blank(cfg.intBlk))
    {
      intm := Splice(intm, adr - cfg.intBase, Blank(cfg.intBlk));
    }

    method ProgramInt(adr: nat, d: seq<byte>)
      requires cfg.intBase <= adr && adr - cfg.intBase + |d| <= |intm|
      modifies this`intm
      ensures intm == Programmed(old(intm), adr - cfg.intBase, d)
    {
      intm := Programmed(intm, adr - cfg.intBase, d);
    }

    // ---- _flash_Flush ----

    method WriteBackInt()
      requires Valid() && dev == Int
      modifies this`intm
      ensures Now() == WriteBack(cfg, old(Now()))
    {
      hide Aligned, Flat, Programmed, Splice;
      ghost var m := intm;
      var adr := sec * cfg.intBlk;
      if cfg.intBase <= adr < cfg.intBase + cfg.intSize {
        EraseInt(adr);
        ProgramInt(adr, fbuf[..cfg.intBlk]);
        ProgramBlank(m, adr - cfg.intBase, fbuf[..cfg.intBlk]);
      }
    }

    method WriteBackSpi()
      requires Valid() && dev == Spi
      modifies this`rec, this`trace, nor
      ensures nor.Flattens() && Now() == WriteBack(cfg, old(Now()))
      ensures trace == old(trace) + FlushSteps(cfg.protect, sec, fbuf[..])
    {
      hide Aligned, Flat, Splice, DiskOf, Apply, Start, HasSec, Wf, SpiFlash.Flattens, SpiFlash.Valid;
      WriteBackPlaces();
      assert fbuf[..] == Now().fbuf;
      if cfg.protect.Some? {
        StoreSpi(cfg.protect.value);
        rec := Some(UNNAMED);
        trace := trace + [Open];
        rec := Some(sec);
        trace := trace + [Name(sec)];
      }
      StoreSpi(sec);
      if cfg.protect.Some? {
        rec := None;
        trace := trace + [Forget];
      }
    }

    method WriteBackBuffer(delay0: nat)
      requires Valid()
      modifies this`dirty, this`intm, this`rec, this`trace, nor
      ensures Valid() && Now() == Flush(cfg, old(Now()), delay0, rtc)
      ensures trace == old(trace) + FlushCommands(cfg, old(Now()), delay0, rtc)
    {
      hide Aligned, Flat, WriteBack, FlushSteps;
      var delay := delay0;
      if sec == -1 || dirty == 0 {
        return;
      }
      if dirty > rtc {
        delay := 0;
      } else if rtc - dirty >= delay {
        delay := 0;
      }
      if delay == 0 {
        match dev {
          case Null =>
          case Int =>
            WriteBackInt();
          case Spi =>
            WriteBackSpi();
        }
        dirty := 0;
        assert Now() == Flush(cfg, old(Now()), delay0, rtc);
      }
    }

    /** flash_Flush. */
    method FlushDelayed(delay: nat)
      requires Valid()
      modifies this`dirty, this`intm, this`rec, this`trace, nor
      ensures Valid() && Now() == Flush(cfg, old(Now()), delay, rtc)
      ensures trace == old(trace) + FlushCommands(cfg, old(Now()), delay, rtc)
      ensures forall x: Dev :: View(cfg, Now(), x) == View(cfg, old(Now()), x)
    {
      WriteBackBuffer(delay);
      forall x: Dev
        ensures View(cfg, Now(), x) == View(cfg, old(Now()), x)
      {
        FlushKeepsView(cfg, old(Now()), delay, rtc, x);
      }
    }

    // ---- Reads ----

    /** One sector's part of a read. */
    method IntReadPart(adr: nat, n: nat) returns (part: seq<byte>)
      requires Valid() && InRange(cfg, Int, adr, n) && OneSector(cfg, Int, adr, n)
      ensures part == ReadChunk(cfg, Now(), Int, adr, n)
    {
      hide Aligned, Flat;
      var s, off := adr / cfg.intBlk, adr % cfg.intBlk;
      if dev == Int && s == sec {
        part := fbuf[off..off + n];
      } else {
        part := intm[adr - cfg.intBase..adr - cfg.intBase + n];
      }
    }

    method IntRead(adr0: nat, len0: nat) returns (data: seq<byte>)
      requires Valid() && InRange(cfg, Int, adr0, len0)
      ensures data == ViewAt(cfg, Now(), Int, adr0, len0)
    {
      hide *;
      ValidMeans();
      ghost var s := Now();
      data := [];
      var adr: nat, len: nat := adr0, len0;
      ReadStarts(cfg, s, Int, adr0, len0);
      while len != 0
        invariant ReadSoFar(cfg, s, Int, adr0, len0, adr, len, data)
      {
        ReadPart(cfg, s, Int, adr0, len0, adr, len, data);
        var n := Chunk(cfg, Int, adr, len);
        var part := IntReadPart(adr, n);
        data := data + part;
        len, adr := len - n, adr + n;
      }
      ReadEnds(cfg, s, Int, adr0, len0, adr, data);
    }

    method SpiReadPart(adr: nat, n: nat) returns (part: seq<byte>)
      requires Valid() && InRange(cfg, Spi, adr, n) && OneSector(cfg, Spi, adr, n) && n > 0
      modifies nor`sel
      ensures Valid() && nor.Flattens() && Now() == old(Now())
      ensures part == ReadChunk(cfg, Now(), Spi, adr, n)
    {
      hide Aligned, Flat, ReadChunk, InRange, OneSector, HasSec, Start, Wf, SpiFlash.Flattens, SpiFlash.Valid,
           SpiFlash.HasSector;
      ValidMeans();
      SpiChunk(cfg, Now(), adr, n);
      var s, off := adr / SECTOR, adr % SECTOR;
      SectorExists(s);
      if dev == Spi && s == sec {
        part := fbuf[off..off + n];
      } else {
        part := nor.ReadLen(s, off, n);
      }
    }

    method SpiRead(adr0: nat, len0: nat) returns (data: seq<byte>)
      requires Valid() && InRange(cfg, Spi, adr0, len0)
      modifies nor`sel
      ensures Valid() && Now() == old(Now())
      ensures data == ViewAt(cfg, Now(), Spi, adr0, len0)
    {
      hide *;
      ValidMeans();
      ghost var s := Now();
      data := [];
      var adr: nat, len: nat := adr0, len0;
      ReadStarts(cfg, s, Spi, adr0, len0);
      while len != 0
        invariant Valid() && nor.Flattens() && Now() == s
        invariant ReadSoFar(cfg, s, Spi, adr0, len0, adr, len, data)
      {
        ReadPart(cfg, s, Spi, adr0, len0, adr, len, data);
        var n := Chunk(cfg, Spi, adr, len);
        var part := SpiReadPart(adr, n);
        data := data + part;
        len, adr := len - n, adr + n;
      }
      ReadEnds(cfg, s, Spi, adr0, len0, adr, data);
    }

    method SpiSecRead(s: nat) returns (data: seq<byte>)
      requires Valid() && HasSec(cfg, Spi, s)
      modifies nor`sel
      ensures Valid() && Now() == old(Now())
      ensures InRange(cfg, Spi, s * SECTOR, SECTOR) && data == ViewAt(cfg, Now(), Spi, s * SECTOR, SECTOR)
    {
      hide Aligned, Flat, View, ViewAt, SpiFlash.Flattens, SpiFlash.Valid, SpiFlash.HasSector, InRange, HasSec;
      SectorExists(s);
      SectorRange(cfg, s);
      ReadChunkView(cfg, Now(), Spi, s * SECTOR, SECTOR);
      if dev == Spi && sec == s {
        data := fbuf[..];
      } else {
        data := nor.ReadLen(s, 0, SECTOR);
      }
    }

    // ---- Writes ----

    /** The sector of a write is brought into the buffer, the one there written back first. */
    method IntLoad(s: nat)
      requires Valid() && HasSec(cfg, Int, s)
      modifies this`dev, this`sec, this`dirty, this`intm, this`rec, this`trace, nor, fbuf
      ensures Valid() && Now() == Load(cfg, old(Now()), Int, s, rtc)
      ensures trace == old(trace) + FlushCommands(cfg, old(Now()), 0, rtc)
    {
      hide Aligned, Flat, SpiFlash.Flattens, Flush, Splice;
      WriteBackBuffer(0);
      CopyIn(0, intm[s * cfg.intBlk - cfg.intBase..s * cfg.intBlk - cfg.intBase + cfg.intBlk]);
      sec := s;
      dev := Int;
      assert Now() == Load(cfg, old(Now()), Int, s, rtc);
    }

    method SpiLoad(s: nat)
      requires Valid() && HasSec(cfg, Spi, s)
      modifies this`dev, this`sec, this`dirty, this`intm, this`rec, this`trace, nor, fbuf
      ensures Valid() && Now() == Load(cfg, old(Now()), Spi, s, rtc)
      ensures trace == old(trace) + FlushCommands(cfg, old(Now()), 0, rtc)
    {
      hide Aligned, Flat, Flush, Splice, SpiFlash.Flattens, SpiFlash.Valid, SpiFlash.HasSector;
      WriteBackBuffer(0);
      SectorExists(s);
      var data := nor.ReadLen(s, 0, SECTOR);
      CopyIn(0, data);
      sec := s;
      dev := Spi;
      assert Now() == Load(cfg, old(Now()), Spi, s, rtc);
    }

    /** One sector's part of a write. */
    method IntWritePart(adr: nat, d: seq<byte>)
      requires Valid() && InRange(cfg, Int, adr, |d|) && d != [] && OneSector(cfg, Int, adr, |d|)
      modifies this`dev, this`sec, this`dirty, this`intm, this`rec, this`trace, nor, fbuf
      ensures Valid() && nor.Flattens() && Now() == WriteChunk(cfg, old(Now()), Int, adr, d, rtc)
      ensures trace == old(trace) + ChunkCommands(cfg, old(Now()), Int, adr, rtc)
    {
      SectorOf(cfg, Int, adr, |d|);
      hide Aligned, Flat, SpiFlash.Flattens, Load, Splice, HasSec, Start;
      var s, off := adr / cfg.intBlk, adr % cfg.intBlk;
      if dev != Int || s != sec {
        IntLoad(s);
      }
      CopyIn(off, d);
      dirty := rtc;
      assert Now() == WriteChunk(cfg, old(Now()), Int, adr, d, rtc);
    }

    method SpiWritePart(adr: nat, d: seq<byte>)
      requires Valid() && InRange(cfg, Spi, adr, |d|) && d != [] && OneSector(cfg, Spi, adr, |d|)
      modifies this`dev, this`sec, this`dirty, this`intm, this`rec, this`trace, nor, fbuf
      ensures Valid() && nor.Flattens() && Now() == WriteChunk(cfg, old(Now()), Spi, adr, d, rtc)
      ensures trace == old(trace) + ChunkCommands(cfg, old(Now()), Spi, adr, rtc)
    {
      SectorOf(cfg, Spi, adr, |d|);
      hide Aligned, Flat, SpiFlash.Flattens, Load, Splice, HasSec, Start;
      var s, off := adr / SECTOR, adr % SECTOR;
      if dev != Spi || s != sec {
        SpiLoad(s);
      }
      CopyIn(off, d);
      dirty := rtc;
      assert Now() == WriteChunk(cfg, old(Now()), Spi, adr, d, rtc);
    }

    method IntWrite(adr0: nat, data: seq<byte>)
      requires Valid() && InRange(cfg, Int, adr0, |data|)
      modifies this`dev, this`sec, this`dirty, this`intm, this`rec, this`trace, nor, fbuf
      ensures Valid() && Now() == Write(cfg, old(Now()), Int, adr0, data, rtc)
      ensures trace == old(trace) + WriteCommands(cfg, old(Now()), Int, adr0, data, rtc)
      ensures rtc != 0 && Synced(cfg, old(Now())) ==> Stored(cfg, old(Now()), Now(), Int, adr0, data)
    {
      hide *;
      ValidMeans();
      ghost var s, sent := Now(), [];
      var adr: nat, rest := adr0, data;
      WriteStarts(cfg, s, Int, adr0, data, rtc);
      while rest != []
        invariant Valid() && nor.Flattens()
        invariant WriteSoFar(cfg, s, sent, Now(), Int, adr0, data, adr, rest, rtc)
        invariant trace == old(trace) + sent
        decreases |rest|
      {
        WritePart(cfg, s, sent, Now(), Int, adr0, data, adr, rest, rtc);
        var n := Chunk(cfg, Int, adr, |rest|);
        sent := sent + ChunkCommands(cfg, Now(), Int, adr, rtc);
        IntWritePart(adr, rest[..n]);
        rest, adr := rest[n..], adr + n;
      }
      WriteEnds(cfg, s, sent, Now(), Int, adr0, data, adr, rtc);
    }

    method SpiWrite(adr0: nat, data: seq<byte>)
      requires Valid() && InRange(cfg, Spi, adr0, |data|)
      modifies this`dev, this`sec, this`dirty, this`intm, this`rec, this`trace, nor, fbuf
      ensures Valid() && Now() == Write(cfg, old(Now()), Spi, adr0, data, rtc)
      ensures trace == old(trace) + WriteCommands(cfg, old(Now()), Spi, adr0, data, rtc)
      ensures rtc != 0 && Synced(cfg, old(Now())) ==> Stored(cfg, old(Now()), Now(), Spi, adr0, data)
    {
      hide *;
      ValidMeans();
      ghost var s, sent := Now(), [];
      var adr: nat, rest := adr0, data;
      WriteStarts(cfg, s, Spi, adr0, data, rtc);
      while rest != []
        invariant Valid() && nor.Flattens()
        invariant WriteSoFar(cfg, s, sent, Now(), Spi, adr0, data, adr, rest, rtc)
        invariant trace == old(trace) + sent
        decreases |rest|
      {
        WritePart(cfg, s, sent, Now(), Spi, adr0, data, adr, rest, rtc);
        var n := Chunk(cfg, Spi, adr, |rest|);
        sent := sent + ChunkCommands(cfg, Now(), Spi, adr, rtc);
        SpiWritePart(adr, rest[..n]);
        rest, adr := rest[n..], adr + n;
      }
      WriteEnds(cfg, s, sent, Now(), Spi, adr0, data, adr, rtc);
    }

    method SpiFill(adr0: nat, val: byte, len0: nat)
      requires Valid() && InRange(cfg, Spi, adr0, len0)
      modifies this`dev, this`sec, this`dirty, this`intm, this`rec, this`trace, nor, fbuf
      ensures Valid() && Now() == WriteFill(cfg, old(Now()), adr0, val, len0, rtc)
      ensures trace == old(trace) + FillCommands(cfg, old(Now()), adr0, val, len0, rtc)
      ensures rtc != 0 && Synced(cfg, old(Now())) ==> Stored(cfg, old(Now()), Now(), Spi, adr0, Fill(len0, val))
    {
      hide *;
      ValidMeans();
      ghost var s, sent := Now(), [];
      var aBuf := Fill(64, val);
      var adr: nat, len: nat := adr0, len0;
      FillStarts(cfg, s, adr0, val, len0, rtc);
      while len != 0
        invariant Valid() && nor.Flattens()
        invariant FillSoFar(cfg, s, sent, Now(), adr0, val, len0, adr, len, rtc)
        invariant trace == old(trace) + sent
      {
        FillPart(cfg, s, sent, Now(), adr0, val, len0, adr, len, rtc);
        var n := Min(64, len);
        FillPrefix(val, n);
        sent := sent + WriteCommands(cfg, Now(), Spi, adr, Fill(n, val), rtc);
        SpiWrite(adr, aBuf[..n]);
        ValidMeans();
        len, adr := len - n, adr + n;
      }
      FillEnds(cfg, s, sent, Now(), adr0, val, len0, adr, rtc);
    }

    /** Scan for a word that is not blank; `w` is one past it. */
    method ScanWords(d: seq<byte>) returns (w: nat)
      requires |d| == SECTOR
      ensures w == Min(FirstWord(d, 0) + 1, WORDS)
    {
      hide FirstWord, Blank;
      NextWord(d, WORDS);
      w := 0;
      while w < WORDS
        invariant 0 <= w <= WORDS && FirstWord(d, 0) == FirstWord(d, w)
      {
        NextWord(d, w);
        w := w + 1;
        if d[4 * (w - 1)..4 * (w - 1) + 4] != Blank(4) {
          break;
        }
      }
    }

    method SpiSecWrite(s: nat, d: seq<byte>)
      requires Valid() && HasSec(cfg, Spi, s) && |d| == SECTOR
      modifies this`dev, this`sec, this`dirty, this`intm, this`rec, this`trace, nor, fbuf
      ensures Valid() && Now() == SecWrite(cfg, old(Now()), s, d, rtc)
      ensures trace == old(trace) + SecWriteCommands(cfg, old(Now()), s, d, rtc)
    {
      hide Aligned, Flat, Flush, Splice, FirstWord, SpiFlash.Flattens, SpiFlash.Valid, SpiFlash.HasSector, Start;
      ValidMeans();
      SectorExists(s);
      if dev == Spi && sec == s {
        CopyWhole(fbuf[..], d);
        CopyIn(0, d);
        dirty := rtc;
      } else {
        var w := ScanWords(d);
        if w < WORDS {
          WriteBackBuffer(0);
          CopyWhole(fbuf[..], d);
          CopyIn(0, d);
          sec := s;
          dev := Spi;
          dirty := rtc;
        } else {
          EraseSpi(s);
        }
      }
      assert Now() == SecWrite(cfg, old(Now()), s, d, rtc);
    }
  }

  lemma CopyWhole(m: seq<byte>, d: seq<byte>)
    requires |m| == |d|
    ensures Splice(m, 0, d) == d
  {
  }

  // ---- The chunking loops ----

  /** `data` is what the loop has read before the `n` bytes at `adr`. */
  ghost predicate ReadSoFar(cfg: Config, s: State, dev: Dev, adr0: nat, n0: nat, adr: nat, n: nat, data: seq<byte>) {
    && Wf(cfg, s) && InRange(cfg, dev, adr0, n0) && InRange(cfg, dev, adr, n)
    && data + Read(cfg, s, dev, adr, n) == ViewAt(cfg, s, dev, adr0, n0)
  }

  lemma ReadStarts(cfg: Config, s: State, dev: Dev, adr: nat, n: nat)
    requires Wf(cfg, s) && InRange(cfg, dev, adr, n)
    ensures ReadSoFar(cfg, s, dev, adr, n, adr, n, [])
  {
    hide Aligned, View, ViewAt, Read;
    ReadView(cfg, s, dev, adr, n);
    assert [] + Read(cfg, s, dev, adr, n) == Read(cfg, s, dev, adr, n);
  }

  lemma ReadUnfolds(cfg: Config, s: State, dev: Dev, adr: nat, n: nat)
    requires Wf(cfg, s) && InRange(cfg, dev, adr, n) && n > 0
    ensures cfg.Blk(dev) > 0
    ensures var k := Chunk(cfg, dev, adr, n);
            && InRange(cfg, dev, adr, k) && InRange(cfg, dev, adr + k, n - k)
            && Read(cfg, s, dev, adr, n) == ReadChunk(cfg, s, dev, adr, k) + Read(cfg, s, dev, adr + k, n - k)
  {
    hide Aligned, View, ReadChunk;
  }

  lemma ReadPart(cfg: Config, s: State, dev: Dev, adr0: nat, n0: nat, adr: nat, n: nat, data: seq<byte>)
    requires ReadSoFar(cfg, s, dev, adr0, n0, adr, n, data) && n > 0
    ensures Wf(cfg, s) && 0 < cfg.Blk(dev) && InRange(cfg, dev, adr, Chunk(cfg, dev, adr, n))
    ensures var k := Chunk(cfg, dev, adr, n);
            && OneSector(cfg, dev, adr, k)
            && ReadSoFar(cfg, s, dev, adr0, n0, adr + k, n - k, data + ReadChunk(cfg, s, dev, adr, k))
  {
    hide Aligned, View, ViewAt, Read, ReadChunk, Chunk, Wf, InRange;
    ReadUnfolds(cfg, s, dev, adr, n);
    var k := Chunk(cfg, dev, adr, n);
    var part, rest := ReadChunk(cfg, s, dev, adr, k), Read(cfg, s, dev, adr + k, n - k);
    assert data + (part + rest) == (data + part) + rest;
  }

  lemma ReadEnds(cfg: Config, s: State, dev: Dev, adr0: nat, n0: nat, adr: nat, data: seq<byte>)
    requires ReadSoFar(cfg, s, dev, adr0, n0, adr, 0, data)
    ensures Wf(cfg, s) && InRange(cfg, dev, adr0, n0) && data == ViewAt(cfg, s, dev, adr0, n0)
  {
    hide Aligned, View, ViewAt;
    assert data + [] == data;
  }

  /** What a write promises its caller: its range of its device, and nothing else. */
  ghost predicate Stored(cfg: Config, s: State, r: State, dev: Dev, adr: nat, d: seq<byte>) {
    && Wf(cfg, s) && Wf(cfg, r) && InRange(cfg, dev, adr, |d|)
    && forall x: Dev :: Wrote(cfg, s, r, dev, adr, d, x)
  }

  /** Finishing the rest of the write from state `c`, the commands `sent` having been sent, is
      the whole write from `s`. */
  ghost predicate WriteSoFar(cfg: Config, s: State, sent: seq<Step>, c: State, dev: Dev, adr0: nat, d0: seq<byte>,
                             adr: nat, d: seq<byte>, now: nat) {
    && Wf(cfg, s) && Wf(cfg, c) && InRange(cfg, dev, adr0, |d0|) && InRange(cfg, dev, adr, |d|)
    && Write(cfg, c, dev, adr, d, now) == Write(cfg, s, dev, adr0, d0, now)
    && sent + WriteCommands(cfg, c, dev, adr, d, now) == WriteCommands(cfg, s, dev, adr0, d0, now)
  }

  lemma WriteStarts(cfg: Config, s: State, dev: Dev, adr: nat, d: seq<byte>, now: nat)
    requires Wf(cfg, s) && InRange(cfg, dev, adr, |d|)
    ensures WriteSoFar(cfg, s, [], s, dev, adr, d, adr, d, now)
  {
    hide Aligned, Write, WriteCommands;
    assert [] + WriteCommands(cfg, s, dev, adr, d, now) == WriteCommands(cfg, s, dev, adr, d, now);
  }

  lemma WritePart(cfg: Config, s: State, sent: seq<Step>, c: State, dev: Dev, adr0: nat, d0: seq<byte>,
                  adr: nat, d: seq<byte>, now: nat)
    requires WriteSoFar(cfg, s, sent, c, dev, adr0, d0, adr, d, now) && d != []
    ensures Wf(cfg, c) && 0 < cfg.Blk(dev)
    ensures var k := Chunk(cfg, dev, adr, |d|);
            && InRange(cfg, dev, adr, k) && OneSector(cfg, dev, adr, k)
            && WriteSoFar(cfg, s, sent + ChunkCommands(cfg, c, dev, adr, now), WriteChunk(cfg, c, dev, adr, d[..k], now),
                          dev, adr0, d0, adr + k, d[k..], now)
  {
    hide Aligned, Write, WriteChunk, ChunkCommands, Chunk, Wf, InRange, OneSector;
    var first, rest, next := WriteUnfolds(cfg, c, dev, adr, d, now);
    var a, b := ChunkCommands(cfg, c, dev, adr, now), WriteCommands(cfg, next, dev, adr + |first|, rest, now);
    assert WriteCommands(cfg, c, dev, adr, d, now) == a + b;
    assert sent + (a + b) == (sent + a) + b;
  }

  lemma WriteEnds(cfg: Config, s: State, sent: seq<Step>, c: State, dev: Dev, adr0: nat, d0: seq<byte>, adr: nat, now: nat)
    requires WriteSoFar(cfg, s, sent, c, dev, adr0, d0, adr, [], now)
    ensures Wf(cfg, s) && Wf(cfg, c) && InRange(cfg, dev, adr0, |d0|) && c == Write(cfg, s, dev, adr0, d0, now)
    ensures sent == WriteCommands(cfg, s, dev, adr0, d0, now)
    ensures now != 0 && Synced(cfg, s) ==> Stored(cfg, s, c, dev, adr0, d0)
  {
    hide Aligned, Write, Wf, InRange, Synced, Wrote;
    WriteNothing(cfg, c, dev, adr, now);
    assert sent + [] == sent;
    if now != 0 && Synced(cfg, s) {
      forall x: Dev
        ensures Wrote(cfg, s, c, dev, adr0, d0, x)
      {
        WriteIsWrote(cfg, s, dev, adr0, d0, now, x);
      }
    }
  }

  ghost predicate FillSoFar(cfg: Config, s: State, sent: seq<Step>, c: State, adr0: nat, val: byte, n0: nat,
                            adr: nat, n: nat, now: nat) {
    && Wf(cfg, s) && Wf(cfg, c) && InRange(cfg, Spi, adr0, n0) && InRange(cfg, Spi, adr, n)
    && WriteFill(cfg, c, adr, val, n, now) == WriteFill(cfg, s, adr0, val, n0, now)
    && sent + FillCommands(cfg, c, adr, val, n, now) == FillCommands(cfg, s, adr0, val, n0, now)
  }

  lemma FillStarts(cfg: Config, s: State, adr: nat, val: byte, n: nat, now: nat)
    requires Wf(cfg, s) && InRange(cfg, Spi, adr, n)
    ensures FillSoFar(cfg, s, [], s, adr, val, n, adr, n, now)
  {
    hide WriteFill, FillCommands;
    assert [] + FillCommands(cfg, s, adr, val, n, now) == FillCommands(cfg, s, adr, val, n, now);
  }

  lemma FillPart(cfg: Config, s: State, sent: seq<Step>, c: State, adr0: nat, val: byte, n0: nat, adr: nat, n: nat, now: nat)
    requires FillSoFar(cfg, s, sent, c, adr0, val, n0, adr, n, now) && n > 0
    ensures Wf(cfg, c) && 0 < Min(64, n) <= n && Min(64, n) <= 64 && InRange(cfg, Spi, adr, Min(64, n))
    ensures var k := Min(64, n);
            FillSoFar(cfg, s, sent + WriteCommands(cfg, c, Spi, adr, Fill(k, val), now),
                      Write(cfg, c, Spi, adr, Fill(k, val), now), adr0, val, n0, adr + k, n - k, now)
  {
    hide Write, WriteCommands, Wf, InRange;
    var k := Min(64, n);
    InRangeSplit(cfg, Spi, adr, n, k);
    var a := WriteCommands(cfg, c, Spi, adr, Fill(k, val), now);
    var b := FillCommands(cfg, Write(cfg, c, Spi, adr, Fill(k, val), now), adr + k, val, n - k, now);
    assert sent + (a + b) == (sent + a) + b;
  }

  lemma FillPrefix(val: byte, n: nat)
    requires n <= 64
    ensures Fill(64, val)[..n] == Fill(n, val)
  {
  }

  lemma FillNothing(cfg: Config, s: State, adr: nat, val: byte, now: nat)
    requires Wf(cfg, s) && InRange(cfg, Spi, adr, 0)
    ensures WriteFill(cfg, s, adr, val, 0, now) == s && FillCommands(cfg, s, adr, val, 0, now) == []
  {
  }

  lemma FillEnds(cfg: Config, s: State, sent: seq<Step>, c: State, adr0: nat, val: byte, n0: nat, adr: nat, now: nat)
    requires FillSoFar(cfg, s, sent, c, adr0, val, n0, adr, 0, now)
    ensures Wf(cfg, s) && Wf(cfg, c) && InRange(cfg, Spi, adr0, n0) && c == WriteFill(cfg, s, adr0, val, n0, now)
    ensures sent == FillCommands(cfg, s, adr0, val, n0, now)
    ensures now != 0 && Synced(cfg, s) ==> Stored(cfg, s, c, Spi, adr0, Fill(n0, val))
  {
    hide Aligned, WriteFill, FillCommands, Wf, InRange, Synced, Wrote;
    FillNothing(cfg, c, adr, val, now);
    assert sent + [] == sent;
    if now != 0 && Synced(cfg, s) {
      forall x: Dev
        ensures Wrote(cfg, s, c, Spi, adr0, Fill(n0, val), x)
      {
        FillIsWrote(cfg, s, adr0, val, n0, now, x);
      }
    }
  }

  lemma NextWord(d: seq<byte>, w: nat)
    requires |d| == SECTOR && w <= WORDS
    ensures FirstWord(d, w) == if w == WORDS || d[4 * w..4 * w + 4] != Blank(4) then w else FirstWord(d, w + 1)
  {
  }

  /** The boot commands, one by one. */
  lemma BootCommands(d: Disk, p: nat, stale: nat)
    requires p < |d.secs| && d.rec.None? && stale < |d.secs|
    ensures AllFit(BootSteps(d, p, stale), |d.secs|)
    ensures BootSteps(d, p, stale) == [Erase(stale), Prog(stale, d.secs[p])] + [Forget]
    ensures ApplyAll(d, BootSteps(d, p, stale)) ==
            Apply(Apply(d, Erase(stale)), Prog(stale, d.secs[p])).(rec := None)
  {
    BootWithoutRecord(d, p, stale);
    ProgramErased(d, stale, d.secs[p]);
  }

  lemma ForgetRecord(d: Disk)
    ensures Apply(d, Forget) == d.(rec := None)
  {
  }
}
