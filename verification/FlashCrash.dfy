/** Power failing among the commands of mtd/flash.c, and what that costs a caller. */
module FlashCrash {
  import opened Bytes
  import opened SpiNor
  import opened FlashJournal
  import opened FlashCache
  import opened FlashCommands

  // ---- One write-back ----

  /** Memories with the same sectors but for the shadow look the same to callers. */
  lemma SameIsVisible(cfg: Config, m: seq<byte>, m': seq<byte>, p: nat)
    requires cfg.Valid() && cfg.protect == Some(p) && |m| == |m'| == cfg.Size(Spi)
    requires Same(Sectors(m), Sectors(m'), p)
    ensures Visible(cfg, Spi, m) == Visible(cfg, Spi, m')
  {
    var v, v' := Visible(cfg, Spi, m), Visible(cfg, Spi, m');
    forall i | 0 <= i < |m|
      ensures v[i] == v'[i]
    {
      var n := i / SECTOR;
      if n != p {
        assert Sectors(m)[n][i - n * SECTOR] == m[i];
        assert Sectors(m')[n][i - n * SECTOR] == m'[i];
      }
    }
  }

  /** Power failing during a write-back, and any number of times during the recoveries that
      follow, costs at most what was in the buffer: once recovery completes, callers see on
      the SPI flash what they saw before, or that without the buffered sector's changes. */
  lemma CrashCostsAtMostTheBuffer(cfg: Config, s: State, p: nat, boots: seq<Disk>, m: seq<byte>)
    requires Wf(cfg, s) && s.dev == Spi && cfg.protect == Some(p) && s.rec.None?
    requires Feasible(DiskOf(s), Crash(s.sec, s.fbuf, boots), p)
    requires |m| == |s.spi| && Sectors(m) == After(DiskOf(s), Crash(s.sec, s.fbuf, boots), p).secs
    ensures After(DiskOf(s), Crash(s.sec, s.fbuf, boots), p).rec.None?
    ensures Visible(cfg, Spi, m) == View(cfg, s, Spi) || Visible(cfg, Spi, m) == Visible(cfg, Spi, s.spi)
  {
    hide Aligned, Sectors, Splice, Visible, FlushSteps, After;
    EventIsAtomic(DiskOf(s), Crash(s.sec, s.fbuf, boots), p);
    SectorsSplice(s.spi, s.sec, s.fbuf);
    assert s.fbuf[..SECTOR] == s.fbuf;
    if Same(Sectors(s.spi), Sectors(m), p) {
      SameIsVisible(cfg, s.spi, m, p);
    } else {
      SameIsVisible(cfg, Splice(s.spi, s.sec * SECTOR, s.fbuf), m, p);
    }
  }

  // ---- Anywhere in a run ----

  ghost function RunCommands(cfg: Config, s: State, ops: seq<Op>): seq<Step>
    requires Wf(cfg, s) && PlacedRun(cfg, ops)
    decreases |ops|
  {
    if ops == [] then [] else Commands(cfg, s, ops[0]) + RunCommands(cfg, Do(cfg, s, ops[0]).0, ops[1..])
  }

  /** A call, or a write or fill that got no further than its first bytes. */
  predicate PartOf(part: Op, op: Op) {
    match (part, op)
    case (DoWrite(d1, a1, x1, t1), DoWrite(d, a, x, t)) => d1 == d && a1 == a && x1 <= x && t1 == t
    case (DoFill(a1, v1, n1, t1), DoFill(a, v, n, t)) => a1 == a && v1 == v && n1 <= n && t1 == t
    case _ => part == op
  }

  /** What was done of `ops`: some first calls, and perhaps part of the next. */
  ghost predicate Begun(done: seq<Op>, ops: seq<Op>) {
    || done <= ops
    || (done != [] && |done| <= |ops| && done[..|done| - 1] <= ops && PartOf(done[|done| - 1], ops[|done| - 1]))
  }

  /** The commands `d'` was cut in: none, the write-back of what `c` has in its buffer, or the
      erase of a sector that is not in the buffer. */
  datatype Where = Idle | WritingBack | Erasing(sec: nat)

  ghost predicate CutAt(cfg: Config, c: State, w: Where, d': Disk)
    requires Wf(cfg, c)
  {
    match w
    case Idle => d' == DiskOf(c)
    case WritingBack =>
      && c.dev == Spi && AllFit(FlushSteps(cfg.protect, c.sec, c.fbuf), |DiskOf(c).secs|)
      && Cut(DiskOf(c), FlushSteps(cfg.protect, c.sec, c.fbuf), d')
    case Erasing(sec) =>
      && HasSec(cfg, Spi, sec) && sec < |DiskOf(c).secs|
      && Cut(DiskOf(c), [Erase(sec)], d')
  }

  lemma {:induction false} CutJoin(d: Disk, a: seq<Step>, b: seq<Step>, d': Disk)
    requires AllFit(a, |d.secs|) && AllFit(b, |d.secs|) && AllFit(a + b, |d.secs|)
    requires Cut(d, a + b, d')
    ensures Cut(d, a, d') || Cut(ApplyAll(d, a), b, d')
    decreases |a|
  {
    hide Apply, Torn;
    if a == [] {
      assert a + b == b;
    } else if d' != d && !Torn(d, a[0], d') {
      assert (a + b)[0] == a[0] && (a + b)[1..] == a[1..] + b;
      CutJoin(Apply(d, a[0]), a[1..], b, d');
    }
  }

  lemma CutNothing(d: Disk, d': Disk)
    requires Cut(d, [], d')
    ensures d' == d
  {
  }

  lemma CutInFlush(cfg: Config, s: State, delay: nat, now: nat, d': Disk) returns (w: Where)
    requires Wf(cfg, s) && AllFit(FlushCommands(cfg, s, delay, now), |DiskOf(s).secs|)
    requires Cut(DiskOf(s), FlushCommands(cfg, s, delay, now), d')
    ensures !w.Erasing? && CutAt(cfg, s, w, d')
  {
    hide Cut, FlushSteps;
    if FlushDue(s, delay, now) && s.dev == Spi {
      return WritingBack;
    }
    CutNothing(DiskOf(s), d');
    return Idle;
  }

  lemma CutInChunk(cfg: Config, s: State, dev: Dev, adr: nat, now: nat, d': Disk) returns (w: Where)
    requires Wf(cfg, s) && AllFit(ChunkCommands(cfg, s, dev, adr, now), |DiskOf(s).secs|)
    requires Cut(DiskOf(s), ChunkCommands(cfg, s, dev, adr, now), d')
    ensures !w.Erasing? && CutAt(cfg, s, w, d')
  {
    hide Cut, FlushCommands;
    if s.dev != dev || s.sec != cfg.Sec(dev, adr) {
      w := CutInFlush(cfg, s, 0, now, d');
    } else {
      CutNothing(DiskOf(s), d');
      w := Idle;
    }
  }

  /** A write stopped after its first sectors is the write of their bytes. */
  lemma WriteStops(cfg: Config, s: State, dev: Dev, adr: nat, d: seq<byte>, k: nat, now: nat)
    requires Wf(cfg, s) && InRange(cfg, dev, adr, |d|) && d != []
    requires cfg.Blk(dev) > 0 && Chunk(cfg, dev, adr, |d|) <= k <= |d|
    ensures var n := Chunk(cfg, dev, adr, |d|);
            && InRange(cfg, dev, adr, k) && InRange(cfg, dev, adr, n) && InRange(cfg, dev, adr + n, k - n)
            && Wf(cfg, WriteChunk(cfg, s, dev, adr, d[..n], now))
            && Write(cfg, s, dev, adr, d[..k], now) ==
               Write(cfg, WriteChunk(cfg, s, dev, adr, d[..n], now), dev, adr + n, d[n..][..k - n], now)
  {
    hide Aligned, WriteChunk, Wf, InRange, OneSector, View, Write;
    var n := Chunk(cfg, dev, adr, |d|);
    InRangeSplit(cfg, dev, adr, |d|, k);
    InRangeSplit(cfg, dev, adr, k, n);
    assert Chunk(cfg, dev, adr, k) == n;
    var first, rest, c := WriteUnfolds(cfg, s, dev, adr, d[..k], now);
    assert first == d[..n] && rest == d[n..][..k - n];
  }

  lemma {:induction false} CutInWrite(cfg: Config, s: State, dev: Dev, adr: nat, d: seq<byte>, now: nat, d': Disk)
    returns (k: nat, w: Where)
    requires Wf(cfg, s) && InRange(cfg, dev, adr, |d|)
    requires AllFit(WriteCommands(cfg, s, dev, adr, d, now), |DiskOf(s).secs|)
    requires Cut(DiskOf(s), WriteCommands(cfg, s, dev, adr, d, now), d')
    ensures k <= |d| && InRange(cfg, dev, adr, k) && !w.Erasing?
    ensures Wf(cfg, Write(cfg, s, dev, adr, d[..k], now)) && CutAt(cfg, Write(cfg, s, dev, adr, d[..k], now), w, d')
    decreases |d|
  {
    hide Cut, CutAt, Aligned, Write, WriteChunk, ChunkCommands, InRange, Wf, OneSector, Chunk, Leads;
    InRangeSplit(cfg, dev, adr, |d|, 0);
    if d == [] {
      WriteNothing(cfg, s, dev, adr, now);
      CutNothing(DiskOf(s), d');
      CutIdle(cfg, s);
      return 0, Idle;
    }
    var first, rest, c := WriteUnfolds(cfg, s, dev, adr, d, now);
    ChunkLeads(cfg, s, dev, adr, first, now);
    WriteLeads(cfg, c, dev, adr + |first|, rest, now);
    var a, b := ChunkCommands(cfg, s, dev, adr, now), WriteCommands(cfg, c, dev, adr + |first|, rest, now);
    LeadsFits(s, a, c);
    LeadsFits(c, b, Write(cfg, c, dev, adr + |first|, rest, now));
    CutJoin(DiskOf(s), a, b, d');
    if Cut(DiskOf(s), a, d') {
      w := CutInChunk(cfg, s, dev, adr, now, d');
      WriteNothing(cfg, s, dev, adr, now);
      assert d[..0] == [];
      return 0, w;
    }
    var j;
    j, w := CutInWrite(cfg, c, dev, adr + |first|, rest, now, d');
    k := |first| + j;
    WriteStops(cfg, s, dev, adr, d, k, now);
    WriteKeepsWf(cfg, s, dev, adr, d[..k], now);
  }

  lemma CutIdle(cfg: Config, s: State)
    requires Wf(cfg, s)
    ensures CutAt(cfg, s, Idle, DiskOf(s))
  {
  }

  lemma LeadsFits(s: State, steps: seq<Step>, r: State)
    requires Leads(s, steps, r)
    ensures AllFit(steps, |DiskOf(s).secs|) && ApplyAll(DiskOf(s), steps) == DiskOf(r)
    ensures |DiskOf(r).secs| == |DiskOf(s).secs|
  {
  }

  lemma WriteKeepsWf(cfg: Config, s: State, dev: Dev, adr: nat, d: seq<byte>, now: nat)
    requires Wf(cfg, s) && InRange(cfg, dev, adr, |d|)
    ensures Wf(cfg, Write(cfg, s, dev, adr, d, now))
  {
  }

  /** A fill stopped early is the fill of fewer bytes. */
  lemma FillStops(cfg: Config, s: State, adr: nat, val: byte, n: nat, k: nat, now: nat)
    requires Wf(cfg, s) && InRange(cfg, Spi, adr, n) && k <= n
    ensures InRange(cfg, Spi, adr, k)
    ensures k <= 64 ==> WriteFill(cfg, s, adr, val, k, now) == Write(cfg, s, Spi, adr, Fill(k, val), now)
    ensures k >= Min(64, n) ==>
              var m := Min(64, n);
              && InRange(cfg, Spi, adr, m) && InRange(cfg, Spi, adr + m, k - m)
              && Wf(cfg, Write(cfg, s, Spi, adr, Fill(m, val), now))
              && WriteFill(cfg, s, adr, val, k, now) ==
                 WriteFill(cfg, Write(cfg, s, Spi, adr, Fill(m, val), now), adr + m, val, k - m, now)
  {
    hide Wf, InRange, Write;
    InRangeSplit(cfg, Spi, adr, n, k);
    InRangeSplit(cfg, Spi, adr, n, Min(64, k));
    WriteKeepsWf(cfg, s, Spi, adr, Fill(Min(64, k), val), now);
    if k == 0 {
      assert Fill<byte>(0, val) == [];
      WriteNothing(cfg, s, Spi, adr, now);
    }
    if k >= Min(64, n) {
      InRangeSplit(cfg, Spi, adr, k, Min(64, n));
    }
  }

  lemma {:induction false} CutInFill(cfg: Config, s: State, adr: nat, val: byte, n: nat, now: nat, d': Disk)
    returns (k: nat, w: Where)
    requires Wf(cfg, s) && InRange(cfg, Spi, adr, n)
    requires AllFit(FillCommands(cfg, s, adr, val, n, now), |DiskOf(s).secs|)
    requires Cut(DiskOf(s), FillCommands(cfg, s, adr, val, n, now), d')
    ensures k <= n && InRange(cfg, Spi, adr, k) && !w.Erasing?
    ensures CutAt(cfg, WriteFill(cfg, s, adr, val, k, now), w, d')
    decreases n
  {
    hide Cut, CutAt, Aligned, Write, WriteCommands, InRange, Wf, Leads;
    InRangeSplit(cfg, Spi, adr, n, 0);
    if n == 0 {
      CutNothing(DiskOf(s), d');
      CutIdle(cfg, s);
      return 0, Idle;
    }
    var m := Min(64, n);
    InRangeSplit(cfg, Spi, adr, n, m);
    var c := Write(cfg, s, Spi, adr, Fill(m, val), now);
    WriteLeads(cfg, s, Spi, adr, Fill(m, val), now);
    FillLeads(cfg, c, adr + m, val, n - m, now);
    var a, b := WriteCommands(cfg, s, Spi, adr, Fill(m, val), now), FillCommands(cfg, c, adr + m, val, n - m, now);
    LeadsFits(s, a, c);
    LeadsFits(c, b, WriteFill(cfg, c, adr + m, val, n - m, now));
    CutJoin(DiskOf(s), a, b, d');
    if Cut(DiskOf(s), a, d') {
      k, w := CutInWrite(cfg, s, Spi, adr, Fill(m, val), now, d');
      FillPrefix(m, val, k);
      FillStops(cfg, s, adr, val, n, k, now);
    } else {
      var j;
      j, w := CutInFill(cfg, c, adr + m, val, n - m, now, d');
      k := m + j;
      FillStops(cfg, s, adr, val, n, k, now);
    }
  }

  lemma FillPrefix(n: nat, val: byte, k: nat)
    requires k <= n
    ensures Fill(n, val)[..k] == Fill(k, val)
  {
  }

  lemma CutInSecWrite(cfg: Config, s: State, sec: nat, d: seq<byte>, now: nat, d': Disk) returns (w: Where)
    requires Wf(cfg, s) && HasSec(cfg, Spi, sec) && |d| == SECTOR
    requires AllFit(SecWriteCommands(cfg, s, sec, d, now), |DiskOf(s).secs|)
    requires Cut(DiskOf(s), SecWriteCommands(cfg, s, sec, d, now), d')
    ensures CutAt(cfg, s, w, d')
    ensures w.Erasing? ==> w.sec == sec && !(s.dev == Spi && s.sec == sec)
  {
    hide Cut, FlushCommands, FirstWord;
    if s.dev == Spi && s.sec == sec {
      CutNothing(DiskOf(s), d');
      w := Idle;
    } else if FirstWord(d, 0) + 1 < WORDS {
      w := CutInFlush(cfg, s, 0, now, d');
    } else {
      assert Fits([Erase(sec)][0], |DiskOf(s).secs|);
      w := Erasing(sec);
    }
  }

  /** Power failing in a call finds the state after none or part of it, sending the commands
      of one write-back or one erase, or none. */
  lemma CutInCall(cfg: Config, s: State, op: Op, d': Disk) returns (done: seq<Op>, w: Where)
    requires Wf(cfg, s) && Allowed(cfg, s, op) && AllFit(Commands(cfg, s, op), |DiskOf(s).secs|)
    requires Cut(DiskOf(s), Commands(cfg, s, op), d')
    ensures done == [] || (|done| == 1 && PartOf(done[0], op) && Allowed(cfg, s, done[0]))
    ensures PlacedRun(cfg, done) && CutAt(cfg, RunTo(cfg, s, done), w, d')
    ensures w.Erasing? ==> !(RunTo(cfg, s, done).dev == Spi && RunTo(cfg, s, done).sec == w.sec)
  {
    hide Cut, CutAt, Aligned, Write, WriteFill, WriteCommands, FillCommands, SecWriteCommands, FlushCommands, InRange, Wf;
    done, w := [], Idle;
    match op
    case DoRead(_, _, _) =>
      CutNothing(DiskOf(s), d');
      CutIdle(cfg, s);
    case DoSecRead(_) =>
      CutNothing(DiskOf(s), d');
      CutIdle(cfg, s);
    case DoWrite(dev, adr, data, now) =>
      var k;
      k, w := CutInWrite(cfg, s, dev, adr, data, now, d');
      done := [DoWrite(dev, adr, data[..k], now)];
      OneCall(cfg, s, done[0]);
    case DoFill(adr, val, n, now) =>
      var k;
      k, w := CutInFill(cfg, s, adr, val, n, now, d');
      done := [DoFill(adr, val, k, now)];
      OneCall(cfg, s, done[0]);
    case DoSecWrite(sec, data, now) =>
      w := CutInSecWrite(cfg, s, sec, data, now, d');
    case DoFlush(delay, now) =>
      w := CutInFlush(cfg, s, delay, now, d');
  }

  lemma OneCall(cfg: Config, s: State, op: Op)
    requires Wf(cfg, s) && Placed(cfg, op)
    ensures PlacedRun(cfg, [op]) && RunTo(cfg, s, [op]) == Do(cfg, s, op).0
  {
    hide Placed, Do, Wf;
    assert [op][1..] == [];
  }

  lemma {:induction false} RunLeads(cfg: Config, s: State, ops: seq<Op>)
    requires Wf(cfg, s) && PlacedRun(cfg, ops)
    ensures Leads(s, RunCommands(cfg, s, ops), RunTo(cfg, s, ops))
    decreases |ops|
  {
    hide Leads, Placed, Do, Wf, Commands;
    if ops == [] {
      LeadsNowhere(s, s);
    } else {
      CallLeads(cfg, s, ops[0]);
      var c := Do(cfg, s, ops[0]).0;
      RunLeads(cfg, c, ops[1..]);
      LeadsOn(s, Commands(cfg, s, ops[0]), c, RunCommands(cfg, c, ops[1..]), RunTo(cfg, s, ops));
    }
  }

  /** The same for a whole run. */
  lemma {:induction false} CutInRun(cfg: Config, s: State, ops: seq<Op>, d': Disk) returns (done: seq<Op>, w: Where)
    requires Wf(cfg, s) && PlacedRun(cfg, ops) && AllowedRun(cfg, s, ops)
    requires AllFit(RunCommands(cfg, s, ops), |DiskOf(s).secs|)
    requires Cut(DiskOf(s), RunCommands(cfg, s, ops), d')
    ensures Begun(done, ops) && PlacedRun(cfg, done) && AllowedRun(cfg, s, done)
    ensures CutAt(cfg, RunTo(cfg, s, done), w, d')
    ensures w.Erasing? ==> !(RunTo(cfg, s, done).dev == Spi && RunTo(cfg, s, done).sec == w.sec)
    decreases |ops|
  {
    hide Cut, CutAt, Allowed, Placed, Do, Wf, Commands, Leads, PartOf;
    if ops == [] {
      CutNothing(DiskOf(s), d');
      CutIdle(cfg, s);
      return [], Idle;
    }
    var c := Do(cfg, s, ops[0]).0;
    CallLeads(cfg, s, ops[0]);
    RunLeads(cfg, c, ops[1..]);
    var a, b := Commands(cfg, s, ops[0]), RunCommands(cfg, c, ops[1..]);
    LeadsFits(s, a, c);
    LeadsFits(c, b, RunTo(cfg, c, ops[1..]));
    CutJoin(DiskOf(s), a, b, d');
    if Cut(DiskOf(s), a, d') {
      done, w := CutInCall(cfg, s, ops[0], d');
      if done != [] {
        assert done[1..] == [] && done[..0] == [];
      }
    } else {
      var more;
      more, w := CutInRun(cfg, c, ops[1..], d');
      done := [ops[0]] + more;
      assert done[1..] == more;
      BegunOn(more, ops);
    }
  }

  lemma BegunOn(more: seq<Op>, ops: seq<Op>)
    requires ops != [] && Begun(more, ops[1..])
    ensures Begun([ops[0]] + more, ops)
  {
    hide PartOf;
    var done := [ops[0]] + more;
    if more <= ops[1..] {
      assert [ops[0]] + ops[1..] == ops;
    } else {
      assert done[..|done| - 1] == [ops[0]] + more[..|more| - 1];
      assert [ops[0]] + ops[1..] == ops;
      assert ops[1..][|more| - 1] == ops[|done| - 1];
    }
  }

  // ---- No call leaves a record ----

  lemma {:induction false} WriteLeavesNoRecord(cfg: Config, s: State, dev: Dev, adr: nat, d: seq<byte>, now: nat)
    requires Wf(cfg, s) && InRange(cfg, dev, adr, |d|) && s.rec.None?
    ensures Write(cfg, s, dev, adr, d, now).rec.None?
    decreases |d|
  {
    hide Aligned, Write, Splice, Wf, InRange, OneSector, Chunk, WriteChunk;
    if d == [] {
      WriteNothing(cfg, s, dev, adr, now);
    } else {
      var first, rest, c := WriteUnfolds(cfg, s, dev, adr, d, now);
      ChunkLeavesNoRecord(cfg, s, dev, adr, first, now);
      WriteLeavesNoRecord(cfg, c, dev, adr + |first|, rest, now);
    }
  }

  lemma ChunkLeavesNoRecord(cfg: Config, s: State, dev: Dev, adr: nat, d: seq<byte>, now: nat)
    requires Wf(cfg, s) && InRange(cfg, dev, adr, |d|) && d != [] && OneSector(cfg, dev, adr, |d|) && s.rec.None?
    ensures WriteChunk(cfg, s, dev, adr, d, now).rec.None?
  {
    hide Aligned, Splice, Config.Sec, Config.Off, Start, HasSec;
    SectorOf(cfg, dev, adr, |d|);
  }

  lemma {:induction false} FillLeavesNoRecord(cfg: Config, s: State, adr: nat, val: byte, n: nat, now: nat)
    requires Wf(cfg, s) && InRange(cfg, Spi, adr, n) && s.rec.None?
    ensures WriteFill(cfg, s, adr, val, n, now).rec.None?
    decreases n
  {
    hide Aligned, Write, Wf, InRange;
    if n > 0 {
      var k := Min(64, n);
      InRangeSplit(cfg, Spi, adr, n, k);
      WriteLeavesNoRecord(cfg, s, Spi, adr, Fill(k, val), now);
      WriteKeepsWf(cfg, s, Spi, adr, Fill(k, val), now);
      FillLeavesNoRecord(cfg, Write(cfg, s, Spi, adr, Fill(k, val), now), adr + k, val, n - k, now);
    }
  }

  lemma CallLeavesNoRecord(cfg: Config, s: State, op: Op)
    requires Wf(cfg, s) && Placed(cfg, op) && s.rec.None?
    ensures Do(cfg, s, op).0.rec.None?
  {
    hide Aligned, Write, WriteFill, Read, Splice, Start, FirstWord;
    match op
    case DoWrite(dev, adr, data, now) => WriteLeavesNoRecord(cfg, s, dev, adr, data, now);
    case DoFill(adr, val, n, now) => FillLeavesNoRecord(cfg, s, adr, val, n, now);
    case _ =>
  }

  lemma {:induction false} RunLeavesNoRecord(cfg: Config, s: State, ops: seq<Op>)
    requires Wf(cfg, s) && PlacedRun(cfg, ops) && s.rec.None?
    ensures RunTo(cfg, s, ops).rec.None?
    decreases |ops|
  {
    hide Placed, Do, Wf;
    if ops != [] {
      CallLeavesNoRecord(cfg, s, ops[0]);
      RunLeavesNoRecord(cfg, Do(cfg, s, ops[0]).0, ops[1..]);
    }
  }

  // ---- What callers see afterwards ----

  /** The disk after the last recovery. */
  ghost function Recovered(boots: seq<Disk>, p: nat, n: nat): (r: Disk)
    requires BootChain(boots, p, n)
    ensures |r.secs| == n
  {
    LastIsBootable(boots, p, n);
    ApplyAll(Last(boots), ReplaySteps(Last(boots), p))
  }

  lemma ChainBegins(boots: seq<Disk>, p: nat, n: nat)
    requires BootChain(boots, p, n)
    ensures boots != []
  {
  }

  lemma {:induction false} NothingToRecover(boots: seq<Disk>, p: nat, n: nat)
    requires BootChain(boots, p, n) && boots[0].rec.None?
    ensures Recovered(boots, p, n) == boots[0]
    decreases |boots|
  {
    if |boots| > 1 {
      CutNothing(boots[0], boots[1]);
      NothingToRecover(boots[1..], p, n);
    }
  }

  /** The memory callers see is the device's with the buffered sector over it. */
  lemma BufferOverDevice(cfg: Config, c: State)
    requires Wf(cfg, c)
    ensures c.dev != Spi ==> View(cfg, c, Spi) == Visible(cfg, Spi, c.spi)
    ensures c.dev == Spi ==>
              && 0 <= c.sec && c.sec * SECTOR + SECTOR <= |c.spi| && |c.fbuf| == SECTOR
              && View(cfg, c, Spi) == Splice(Visible(cfg, Spi, c.spi), c.sec * SECTOR, c.fbuf)
  {
    hide Aligned, Visible, Splice, Start;
    if c.dev == Spi {
      SpiStart(cfg, c.sec);
      assert c.fbuf[..SECTOR] == c.fbuf;
      VisibleSplice(cfg, Spi, c.spi, c.sec * SECTOR, c.fbuf);
    }
  }

  lemma ErasingCostsTheSector(cfg: Config, c: State, sec: nat, p: nat, d': Disk, m: seq<byte>) returns (junk: Sector)
    requires Wf(cfg, c) && cfg.protect == Some(p) && c.rec.None? && CutAt(cfg, c, Erasing(sec), d')
    requires |m| == |c.spi| && Sectors(m) == d'.secs
    ensures d'.rec.None?
    ensures sec * SECTOR + SECTOR <= |c.spi|
    ensures Visible(cfg, Spi, m) == Splice(Visible(cfg, Spi, c.spi), sec * SECTOR, junk)
  {
    hide Aligned, Sectors, Splice, Visible, Start;
    SpiStart(cfg, sec);
    assert [Erase(sec)][1..] == [];
    var d := DiskOf(c);
    assert d' == d || Torn(d, Erase(sec), d') || Cut(Apply(d, Erase(sec)), [], d');
    if d' == d {
      junk := d.secs[sec];
      assert d.secs[sec := junk] == d.secs;
    } else if Torn(d, Erase(sec), d') {
      junk :| d' == Scrambled(d, sec, junk);
    } else {
      junk := Blank(SECTOR);
    }
    assert d' == Scrambled(d, sec, junk);
    SectorsSplice(c.spi, sec, junk);
    SameIsVisible(cfg, Splice(c.spi, sec * SECTOR, junk), m, p);
    VisibleSplice(cfg, Spi, c.spi, sec * SECTOR, junk);
  }

  /** What a crash of state `c` leaves of the SPI memory callers saw: that memory, or that
      without what was in the buffer; a sector that was being erased may hold anything. */
  ghost predicate Survives(cfg: Config, c: State, w: Where, v: seq<byte>)
    requires Wf(cfg, c)
  {
    match w
    case Idle => v == Visible(cfg, Spi, c.spi)
    case WritingBack => v == View(cfg, c, Spi) || v == Visible(cfg, Spi, c.spi)
    case Erasing(sec) =>
      && sec * SECTOR + SECTOR <= |c.spi|
      && exists junk: Sector {:trigger Splice(Visible(cfg, Spi, c.spi), sec * SECTOR, junk)} ::
           v == Splice(Visible(cfg, Spi, c.spi), sec * SECTOR, junk)
  }

  /** Power failing at any command of any run of calls, and any number of times in the
      recoveries that follow: the run had got to some state `c`, whose memory is what plain
      byte arrays hold after the calls begun by then, and what callers see on the SPI flash
      after the last recovery is that memory, but for what was in the buffer (or for a sector
      then being erased).  A cut inside the index record must leave it harmless. */
  lemma PowerFailsInRun(cfg: Config, s: State, ops: seq<Op>, p: nat, boots: seq<Disk>, m: seq<byte>)
    returns (done: seq<Op>, c: State, w: Where)
    requires Wf(cfg, s) && Synced(cfg, s) && cfg.protect == Some(p) && s.rec.None?
    requires PlacedRun(cfg, ops) && AllowedRun(cfg, s, ops)
    requires AllFit(RunCommands(cfg, s, ops), |DiskOf(s).secs|)
    requires BootChain(boots, p, cfg.spiSecs) && Cut(DiskOf(s), RunCommands(cfg, s, ops), boots[0])
    requires |m| == cfg.Size(Spi) && Sectors(m) == Recovered(boots, p, cfg.spiSecs).secs
    ensures Begun(done, ops) && PlacedRun(cfg, done) && c == RunTo(cfg, s, done)
    ensures boots != [] && CutAt(cfg, c, w, boots[0])
    ensures Seen(cfg, c) == SpecTo(cfg, Seen(cfg, s), done)
    ensures (w.WritingBack? ==> Harmless(boots[0].rec, p, c.sec, DiskOf(c).secs, c.fbuf)) ==>
              Survives(cfg, c, w, Visible(cfg, Spi, m))
    ensures boots[0].rec.None? ==> Survives(cfg, c, w, Visible(cfg, Spi, m))
  {
    hide Aligned, Sectors, Splice, Visible, View, Cut, CutAt, AllowedRun, Leads, BootChain, Harmless, Feasible;
    ChainBegins(boots, p, cfg.spiSecs);
    done, w := CutInRun(cfg, s, ops, boots[0]);
    c := RunTo(cfg, s, done);
    RunRefinesMemory(cfg, s, done);
    RunLeavesNoRecord(cfg, s, done);
    SectorsLength(c.spi);
    match w
    case Idle =>
      AtRest(cfg, c, p, boots, m);
    case Erasing(sec) =>
      RecordAfterErase(cfg, c, sec, boots, p);
      var junk := ErasingCostsTheSector(cfg, c, sec, p, boots[0], m);
    case WritingBack =>
      WritingBackPlace(cfg, c, boots[0]);
      NoRecordIsHarmless(boots[0].rec, p, c.sec, DiskOf(c).secs, c.fbuf);
      if Harmless(boots[0].rec, p, c.sec, DiskOf(c).secs, c.fbuf) {
        WritingBackCosts(cfg, c, p, boots, m);
      }
  }

  /** Power off after a whole run, and one start, is such a case for every run. */
  lemma PowerOffAfterRun(cfg: Config, s: State, ops: seq<Op>, p: nat)
    requires Wf(cfg, s) && cfg.protect == Some(p) && s.rec.None? && PlacedRun(cfg, ops)
    ensures AllFit(RunCommands(cfg, s, ops), |DiskOf(s).secs|)
    ensures var d := DiskOf(RunTo(cfg, s, ops));
            && Cut(DiskOf(s), RunCommands(cfg, s, ops), d)
            && BootChain([d], p, cfg.spiSecs) && Recovered([d], p, cfg.spiSecs) == d
  {
    hide Aligned, Sectors, Cut, Leads, Placed, Do, Commands, Recovered;
    RunLeads(cfg, s, ops);
    LeadsFits(s, RunCommands(cfg, s, ops), RunTo(cfg, s, ops));
    CutAtEnd(DiskOf(s), RunCommands(cfg, s, ops));
    RunLeavesNoRecord(cfg, s, ops);
    SectorsLength(RunTo(cfg, s, ops).spi);
    NothingToRecover([DiskOf(RunTo(cfg, s, ops))], p, cfg.spiSecs);
  }

  lemma {:induction false} CutAtEnd(d: Disk, steps: seq<Step>)
    requires AllFit(steps, |d.secs|)
    ensures Cut(d, steps, ApplyAll(d, steps))
    decreases |steps|
  {
    if steps != [] {
      CutAtEnd(Apply(d, steps[0]), steps[1..]);
    }
  }

  lemma WritingBackPlace(cfg: Config, c: State, d': Disk)
    requires Wf(cfg, c) && CutAt(cfg, c, WritingBack, d')
    ensures c.dev == Spi && c.sec >= 0 && |c.fbuf| == SECTOR
  {
  }

  lemma NoRecordIsHarmless(rec: Option<int>, p: nat, sec: nat, was: seq<Sector>, data: Sector)
    ensures rec.None? ==> Harmless(rec, p, sec, was, data)
  {
  }

  lemma AtRest(cfg: Config, c: State, p: nat, boots: seq<Disk>, m: seq<byte>)
    requires Wf(cfg, c) && cfg.protect == Some(p) && c.rec.None?
    requires BootChain(boots, p, cfg.spiSecs) && CutAt(cfg, c, Idle, boots[0])
    requires |m| == |c.spi| && Sectors(m) == Recovered(boots, p, cfg.spiSecs).secs
    ensures Visible(cfg, Spi, m) == Visible(cfg, Spi, c.spi)
  {
    hide Aligned, Sectors, Splice, Visible, BootChain;
    NothingToRecover(boots, p, cfg.spiSecs);
    SameIsVisible(cfg, c.spi, m, p);
  }

  lemma RecordAfterErase(cfg: Config, c: State, sec: nat, boots: seq<Disk>, p: nat)
    requires Wf(cfg, c) && c.rec.None? && BootChain(boots, p, cfg.spiSecs) && CutAt(cfg, c, Erasing(sec), boots[0])
    ensures Recovered(boots, p, cfg.spiSecs) == boots[0]
  {
    hide BootChain, Aligned, Sectors, Cut, Start, Recovered, Config.Valid;
    ChainBegins(boots, p, cfg.spiSecs);
    var d := DiskOf(c);
    assert [Erase(sec)][0] == Erase(sec);
    RecordIsKept(d, [Erase(sec)], boots[0]);
    NothingToRecover(boots, p, cfg.spiSecs);
  }

  lemma WritingBackCosts(cfg: Config, c: State, p: nat, boots: seq<Disk>, m: seq<byte>)
    requires Wf(cfg, c) && cfg.protect == Some(p) && c.rec.None?
    requires BootChain(boots, p, cfg.spiSecs) && CutAt(cfg, c, WritingBack, boots[0])
    requires |DiskOf(c).secs| == cfg.spiSecs && Harmless(boots[0].rec, p, c.sec, DiskOf(c).secs, c.fbuf)
    requires |m| == |c.spi| && Sectors(m) == Recovered(boots, p, cfg.spiSecs).secs
    ensures Visible(cfg, Spi, m) == View(cfg, c, Spi) || Visible(cfg, Spi, m) == Visible(cfg, Spi, c.spi)
  {
    hide Aligned, Sectors, Splice, Visible, View, Cut, BootChain, Harmless;
    assert Feasible(DiskOf(c), Crash(c.sec, c.fbuf, boots), p);
    CrashCostsAtMostTheBuffer(cfg, c, p, boots, m);
  }
}
