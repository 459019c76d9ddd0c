/** The commands that mtd/flash.c sends to the SPI flash and the index store, call by call. */
module FlashCommands {
  import opened Bytes
  import opened SpiNor
  import opened FlashJournal
  import opened FlashCache

  function Sectors(m: seq<byte>): seq<Sector> {
    seq(|m| / SECTOR, i requires 0 <= i < |m| / SECTOR => m[i * SECTOR..i * SECTOR + SECTOR])
  }

  lemma SectorsSplice(m: seq<byte>, k: nat, d: Sector)
    requires k * SECTOR + SECTOR <= |m|
    ensures Sectors(Splice(m, k * SECTOR, d)) == Sectors(m)[k := d]
  {
    var l, r := Sectors(Splice(m, k * SECTOR, d)), Sectors(m)[k := d];
    forall i | 0 <= i < |l|
      ensures l[i] == r[i]
    {
      if i == k {
        SliceInside(m, k * SECTOR, d, 0, SECTOR);
        assert d[..SECTOR] == d;
      } else {
        SliceOutside(m, k * SECTOR, d, i * SECTOR, SECTOR);
      }
    }
  }

  /** The SPI flash and the index record, as the crash analysis sees them. */
  function DiskOf(s: State): Disk {
    Disk(Sectors(s.spi), s.rec)
  }

  lemma SectorsLength(m: seq<byte>)
    ensures |Sectors(m)| == |m| / SECTOR
  {
  }

  // ---- The commands of each call ----

  ghost function FlushCommands(cfg: Config, s: State, delay: nat, now: nat): seq<Step>
    requires Wf(cfg, s)
  {
    if FlushDue(s, delay, now) && s.dev == Spi then FlushSteps(cfg.protect, s.sec, s.fbuf) else []
  }

  /** A write into one sector: the write-back of the sector it evicts. */
  ghost function ChunkCommands(cfg: Config, s: State, dev: Dev, adr: nat, now: nat): seq<Step>
    requires Wf(cfg, s)
  {
    if s.dev != dev || s.sec != cfg.Sec(dev, adr) then FlushCommands(cfg, s, 0, now) else []
  }

  ghost function WriteCommands(cfg: Config, s: State, dev: Dev, adr: nat, d: seq<byte>, now: nat): seq<Step>
    requires Wf(cfg, s) && InRange(cfg, dev, adr, |d|)
    decreases |d|
  {
    if d == [] then []
    else
      var n := Chunk(cfg, dev, adr, |d|);
      ChunkCommands(cfg, s, dev, adr, now) +
      WriteCommands(cfg, WriteChunk(cfg, s, dev, adr, d[..n], now), dev, adr + n, d[n..], now)
  }

  ghost function FillCommands(cfg: Config, s: State, adr: nat, val: byte, n: nat, now: nat): seq<Step>
    requires Wf(cfg, s) && InRange(cfg, Spi, adr, n)
    decreases n
  {
    if n == 0 then []
    else
      var k := Min(64, n);
      WriteCommands(cfg, s, Spi, adr, Fill(k, val), now) +
      FillCommands(cfg, Write(cfg, s, Spi, adr, Fill(k, val), now), adr + k, val, n - k, now)
  }

  ghost function SecWriteCommands(cfg: Config, s: State, sec: nat, d: seq<byte>, now: nat): seq<Step>
    requires Wf(cfg, s) && |d| == SECTOR
  {
    if s.dev == Spi && s.sec == sec then []
    else if FirstWord(d, 0) + 1 < WORDS then FlushCommands(cfg, s, 0, now)
    else [Erase(sec)]
  }

  ghost function Commands(cfg: Config, s: State, op: Op): seq<Step>
    requires Wf(cfg, s) && Placed(cfg, op)
  {
    match op
    case DoRead(_, _, _) => []
    case DoWrite(dev, adr, data, now) => WriteCommands(cfg, s, dev, adr, data, now)
    case DoFill(adr, val, n, now) => FillCommands(cfg, s, adr, val, n, now)
    case DoSecRead(_) => []
    case DoSecWrite(sec, data, now) => SecWriteCommands(cfg, s, sec, data, now)
    case DoFlush(delay, now) => FlushCommands(cfg, s, delay, now)
  }

  // ---- When a flush does something ----

  /** The buffer holds a write that is younger than `delay` by the clock. */
  predicate Young(s: State, delay: nat, now: nat) {
    0 < s.dirty <= now && now - s.dirty < delay
  }

  /** flash_Flush does nothing exactly when there is nothing to write or it is too young: then
      the state is as it was and no command is sent.  Otherwise the buffer is clean, and an SPI
      sector has been sent, the shadow first if one is reserved. */
  lemma FlushWaits(cfg: Config, s: State, delay: nat, now: nat)
    requires Wf(cfg, s)
    ensures Flush(cfg, s, delay, now) == s <==> s.dev == Null || s.dirty == 0 || Young(s, delay, now)
    ensures s.dev == Null || s.dirty == 0 || Young(s, delay, now) ==> FlushCommands(cfg, s, delay, now) == []
    ensures s.dev != Null && s.dirty != 0 && !Young(s, delay, now) ==>
              && Flush(cfg, s, delay, now).dirty == 0
              && FlushCommands(cfg, s, delay, now) == if s.dev == Spi then FlushSteps(cfg.protect, s.sec, s.fbuf) else []
  {
    hide Aligned, Splice, WriteBack;
    WriteBackKeepsBuffer(cfg, s);
  }

  lemma WriteBackKeepsBuffer(cfg: Config, s: State)
    requires Wf(cfg, s)
    ensures WriteBack(cfg, s).dirty == s.dirty
  {
  }

  // ---- They account for every change of the disk ----

  /** Writing back an SPI sector is running the journal's commands to their end, so the
      crash analysis of FlashJournal speaks about every write-back of the buffer. */
  lemma WriteBackFollowsJournal(cfg: Config, s: State)
    requires Wf(cfg, s) && s.dev == Spi
    ensures s.sec < |DiskOf(s).secs|
    ensures AllFit(FlushSteps(cfg.protect, s.sec, s.fbuf), |DiskOf(s).secs|)
    ensures DiskOf(WriteBack(cfg, s)) == ApplyAll(DiskOf(s), FlushSteps(cfg.protect, s.sec, s.fbuf))
  {
    hide Aligned, Sectors, Splice, FlushSteps, ApplyAll;
    SectorsLength(s.spi);
    FlushCompletes(DiskOf(s), cfg.protect, s.sec, s.fbuf);
    if cfg.protect.Some? {
      var p := cfg.protect.value;
      SectorsSplice(s.spi, p, s.fbuf);
      SectorsSplice(Splice(s.spi, p * SECTOR, s.fbuf), s.sec, s.fbuf);
    } else {
      SectorsSplice(s.spi, s.sec, s.fbuf);
    }
  }

  /** `steps` lead from the disk of `s` to that of `r`. */
  ghost predicate Leads(s: State, steps: seq<Step>, r: State) {
    && AllFit(steps, |DiskOf(s).secs|)
    && ApplyAll(DiskOf(s), steps) == DiskOf(r)
  }

  lemma LeadsNowhere(s: State, r: State)
    requires DiskOf(s) == DiskOf(r)
    ensures Leads(s, [], r)
  {
  }

  lemma LeadsOn(s: State, a: seq<Step>, c: State, b: seq<Step>, r: State)
    requires Leads(s, a, c) && Leads(c, b, r)
    ensures Leads(s, a + b, r)
  {
    ApplyAllJoin(DiskOf(s), a, b);
  }

  lemma FlushLeads(cfg: Config, s: State, delay: nat, now: nat)
    requires Wf(cfg, s)
    ensures Leads(s, FlushCommands(cfg, s, delay, now), Flush(cfg, s, delay, now))
  {
    hide Aligned, Splice, Sectors, FlushSteps, ApplyAll, Start;
    if FlushDue(s, delay, now) && s.dev == Spi {
      WriteBackFollowsJournal(cfg, s);
    } else {
      LeadsNowhere(s, Flush(cfg, s, delay, now));
    }
  }

  lemma ChunkLeads(cfg: Config, s: State, dev: Dev, adr: nat, d: seq<byte>, now: nat)
    requires Wf(cfg, s) && InRange(cfg, dev, adr, |d|) && d != [] && OneSector(cfg, dev, adr, |d|)
    ensures Leads(s, ChunkCommands(cfg, s, dev, adr, now), WriteChunk(cfg, s, dev, adr, d, now))
  {
    hide Aligned, Config.Sec, Config.Off, Splice, Sectors, FlushCommands, Flush, Start, Leads;
    SectorOf(cfg, dev, adr, |d|);
    if s.dev != dev || s.sec != cfg.Sec(dev, adr) {
      FlushLeads(cfg, s, 0, now);
      SameDisk(s, FlushCommands(cfg, s, 0, now), Flush(cfg, s, 0, now), WriteChunk(cfg, s, dev, adr, d, now));
    } else {
      LeadsNowhere(s, WriteChunk(cfg, s, dev, adr, d, now));
    }
  }

  lemma SameDisk(s: State, steps: seq<Step>, c: State, r: State)
    requires Leads(s, steps, c) && c.spi == r.spi && c.rec == r.rec
    ensures Leads(s, steps, r)
  {
  }

  lemma {:induction false} WriteLeads(cfg: Config, s: State, dev: Dev, adr: nat, d: seq<byte>, now: nat)
    requires Wf(cfg, s) && InRange(cfg, dev, adr, |d|)
    ensures Wf(cfg, Write(cfg, s, dev, adr, d, now))
    ensures Leads(s, WriteCommands(cfg, s, dev, adr, d, now), Write(cfg, s, dev, adr, d, now))
    decreases |d|
  {
    hide Leads, Aligned, Write, WriteChunk, ChunkCommands, InRange, Wf, OneSector, Chunk;
    if d == [] {
      WriteNothing(cfg, s, dev, adr, now);
      LeadsNowhere(s, s);
    } else {
      var first, rest, c := WriteUnfolds(cfg, s, dev, adr, d, now);
      ChunkLeads(cfg, s, dev, adr, first, now);
      WriteLeads(cfg, c, dev, adr + |first|, rest, now);
      LeadsOn(s, ChunkCommands(cfg, s, dev, adr, now), c,
              WriteCommands(cfg, c, dev, adr + |first|, rest, now), Write(cfg, s, dev, adr, d, now));
    }
  }

  lemma {:induction false} FillLeads(cfg: Config, s: State, adr: nat, val: byte, n: nat, now: nat)
    requires Wf(cfg, s) && InRange(cfg, Spi, adr, n)
    ensures Leads(s, FillCommands(cfg, s, adr, val, n, now), WriteFill(cfg, s, adr, val, n, now))
    decreases n
  {
    hide Leads, Aligned, Write, WriteCommands, InRange, Wf;
    if n == 0 {
      LeadsNowhere(s, s);
    } else {
      var k := Min(64, n);
      InRangeSplit(cfg, Spi, adr, n, k);
      var c := Write(cfg, s, Spi, adr, Fill(k, val), now);
      WriteLeads(cfg, s, Spi, adr, Fill(k, val), now);
      FillLeads(cfg, c, adr + k, val, n - k, now);
      LeadsOn(s, WriteCommands(cfg, s, Spi, adr, Fill(k, val), now), c,
              FillCommands(cfg, c, adr + k, val, n - k, now), WriteFill(cfg, s, adr, val, n, now));
    }
  }

  lemma SecWriteLeads(cfg: Config, s: State, sec: nat, d: seq<byte>, now: nat)
    requires Wf(cfg, s) && HasSec(cfg, Spi, sec) && |d| == SECTOR
    ensures Leads(s, SecWriteCommands(cfg, s, sec, d, now), SecWrite(cfg, s, sec, d, now))
  {
    hide Leads, Aligned, Splice, Sectors, FlushCommands, Flush, Start, FirstWord;
    if s.dev == Spi && s.sec == sec {
      LeadsNowhere(s, SecWrite(cfg, s, sec, d, now));
    } else if FirstWord(d, 0) + 1 < WORDS {
      FlushLeads(cfg, s, 0, now);
      SameDisk(s, FlushCommands(cfg, s, 0, now), Flush(cfg, s, 0, now), SecWrite(cfg, s, sec, d, now));
    } else {
      SpiStart(cfg, sec);
      EraseLeads(cfg, s, sec);
    }
  }

  lemma EraseLeads(cfg: Config, s: State, sec: nat)
    requires sec * SECTOR + SECTOR <= |s.spi|
    ensures Leads(s, [Erase(sec)], s.(spi := Splice(s.spi, sec * SECTOR, Blank(SECTOR))))
  {
    hide Splice;
    SectorsLength(s.spi);
    SectorsSplice(s.spi, sec, Blank(SECTOR));
    assert Fits(Erase(sec), |DiskOf(s).secs|);
    assert [Erase(sec)][1..] == [];
    assert ApplyAll(DiskOf(s), [Erase(sec)]) == Apply(DiskOf(s), Erase(sec));
  }

  /** The commands of a call are all it does to the SPI flash and the index record. */
  lemma CallLeads(cfg: Config, s: State, op: Op)
    requires Wf(cfg, s) && Placed(cfg, op)
    ensures Leads(s, Commands(cfg, s, op), Do(cfg, s, op).0)
  {
    hide Leads, Aligned, Read, Write, WriteFill, SecWrite, Flush, WriteCommands, FillCommands, SecWriteCommands, FlushCommands;
    match op
    case DoRead(_, _, _) => LeadsNowhere(s, s);
    case DoWrite(dev, adr, data, now) => WriteLeads(cfg, s, dev, adr, data, now);
    case DoFill(adr, val, n, now) => FillLeads(cfg, s, adr, val, n, now);
    case DoSecRead(_) => LeadsNowhere(s, s);
    case DoSecWrite(sec, data, now) => SecWriteLeads(cfg, s, sec, data, now);
    case DoFlush(delay, now) => FlushLeads(cfg, s, delay, now);
  }
}
