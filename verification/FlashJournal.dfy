/** mtd/flash.c, the protected write-back: shadow sector, index record, target sector.

    A disk is the sectors of the SPI flash and the index record.  Power may fail at any
    point; an erase or program it interrupts leaves arbitrary bytes in its sector.  The
    store writes the record's header first and its data, the sector number, after it
    (fs/sfs/sfs.c:263-272): in between, and after a cut in the data, the record is there
    and names a wrong sector. */
module FlashJournal {
  import opened Bytes
  import LittleEndian
  import opened SpiNor

  type Sector = s: seq<byte> | |s| == SECTOR witness Fill(SECTOR, 0)

  /** `rec` is the number the index record holds, none if there is no record. */
  datatype Disk = Disk(secs: seq<Sector>, rec: Option<int>)

  /** What a record without data reads as: 0xFFFFFFFF in a signed int. */
  const UNNAMED: int := -1

  /** `Open` writes the record's header, `Name` its data. */
  datatype Step = Erase(sec: nat) | Prog(sec: nat, data: Sector) | Open | Name(sec: nat) | Forget

  predicate Fits(s: Step, n: nat) {
    match s
    case Erase(sec) => sec < n
    case Prog(sec, _) => sec < n
    case Name(sec) => sec < n
    case Open => true
    case Forget => true
  }

  predicate AllFit(steps: seq<Step>, n: nat) {
    forall i :: 0 <= i < |steps| ==> Fits(steps[i], n)
  }

  function Apply(d: Disk, s: Step): (r: Disk)
    requires Fits(s, |d.secs|)
    ensures |r.secs| == |d.secs|
  {
    match s
    case Erase(sec) => d.(secs := d.secs[sec := Blank(SECTOR)])
    case Prog(sec, data) => d.(secs := d.secs[sec := And(d.secs[sec], data)])
    case Open => d.(rec := Some(UNNAMED))
    case Name(sec) => d.(rec := Some(sec))
    case Forget => d.(rec := None)
  }

  function ApplyAll(d: Disk, steps: seq<Step>): (r: Disk)
    requires AllFit(steps, |d.secs|)
    ensures |r.secs| == |d.secs|
    decreases |steps|
  {
    if steps == [] then d else ApplyAll(Apply(d, steps[0]), steps[1..])
  }

  lemma {:induction false} ApplyAllJoin(d: Disk, a: seq<Step>, b: seq<Step>)
    requires AllFit(a, |d.secs|) && AllFit(b, |d.secs|)
    ensures AllFit(a + b, |d.secs|) && ApplyAll(d, a + b) == ApplyAll(ApplyAll(d, a), b)
    decreases |a|
  {
    if a == [] {
      assert a + b == b;
    } else {
      assert (a + b)[0] == a[0] && (a + b)[1..] == a[1..] + b;
      ApplyAllJoin(Apply(d, a[0]), a[1..], b);
    }
  }

  function Scrambled(d: Disk, sec: nat, junk: Sector): Disk
    requires sec < |d.secs|
  {
    d.(secs := d.secs[sec := junk])
  }

  /** `d'` is what step `s` leaves when power fails before it completes. */
  ghost predicate Torn(d: Disk, s: Step, d': Disk)
    requires Fits(s, |d.secs|)
  {
    match s
    case Erase(sec) => exists junk: Sector :: d' == Scrambled(d, sec, junk)
    case Prog(sec, _) => exists junk: Sector :: d' == Scrambled(d, sec, junk)
    case Open => d' == d || d' == d.(rec := None)   // an old record goes first
    case Name(_) => exists v: int :: d' == d.(rec := Some(v))
    case Forget => d' == d
  }

  /** `d'` is a disk found after power failed somewhere in `steps`. */
  ghost predicate Cut(d: Disk, steps: seq<Step>, d': Disk)
    requires AllFit(steps, |d.secs|)
    decreases |steps|
  {
    || d' == d
    || (steps != [] && Torn(d, steps[0], d'))
    || (steps != [] && Cut(Apply(d, steps[0]), steps[1..], d'))
  }

  // ---- The two protocols ----

  /** What _flash_Flush sends to the SPI flash and the index store. */
  function FlushSteps(protect: Option<nat>, sec: nat, data: Sector): seq<Step> {
    match protect
    case Some(p) => [Erase(p), Prog(p, data)] + [Open, Name(sec), Erase(sec), Prog(sec, data), Forget]
    case None => [Erase(sec), Prog(sec, data)]
  }

  /** The sector a record's number is taken for: the map divides it with truncation and
      masks it, so a small negative one means a sector of the first chip. */
  function Aim(v: int, n: nat): (t: Option<nat>)
    ensures t.Some? ==> t.value < n
  {
    if 0 <= v < n then Some(v)
    else if -CHIP_SECTORS < v < 0 && v + CHIP_SECTORS < n then Some(v + CHIP_SECTORS)
    else None
  }

  /** C's division by 1024. */
  function Truncated(v: int): int {
    if v >= 0 then v / 1024 else -(-v / 1024)
  }

  /** That is the sector map of the SPI driver: chip by truncated division, sector on the chip
      by the low ten bits. */
  lemma AimIsSectorMap(v: int, n: nat)
    ensures Aim(v, n).Some? <==> Truncated(v) >= 0 && Truncated(v) * 1024 + v % 1024 < n
    ensures Aim(v, n).Some? ==> Aim(v, n).value == Truncated(v) * 1024 + v % 1024
  {
    if v < 0 {
      assert -v / 1024 == 0 <==> v > -1024;
      if v > -1024 {
        assert v % 1024 == v + 1024;
      }
    }
  }

  /** Recovery finds no record, or one that means a sector of the disk. */
  predicate Recoverable(d: Disk) {
    d.rec.None? || Aim(d.rec.value, |d.secs|).Some?
  }

  /** What recovery sends when a record is found: the shadow replayed onto its target. */
  function ReplaySteps(d: Disk, p: nat): seq<Step>
    requires p < |d.secs| && Recoverable(d)
  {
    match d.rec
    case Some(v) =>
      var t := Aim(v, |d.secs|).value;
      [Erase(t), Prog(t, d.secs[p])] + [Forget]
    case None => []
  }

  lemma ProgramErased(d: Disk, sec: nat, data: Sector)
    requires sec < |d.secs|
    ensures Apply(Apply(d, Erase(sec)), Prog(sec, data)) == d.(secs := d.secs[sec := data])
  {
    forall i | 0 <= i < SECTOR
      ensures And(Blank(SECTOR), data)[i] == data[i]
    {
      AndErased(data[i]);
    }
    assert And(Blank(SECTOR), data) == data;
  }

  /** An undisturbed flush stores the data in the target sector and in the shadow. */
  lemma FlushCompletes(d: Disk, protect: Option<nat>, sec: nat, data: Sector)
    requires sec < |d.secs| && (protect.Some? ==> protect.value < |d.secs|)
    ensures AllFit(FlushSteps(protect, sec, data), |d.secs|)
    ensures ApplyAll(d, FlushSteps(protect, sec, data)) ==
            match protect
            case Some(p) => Disk(d.secs[p := data][sec := data], None)
            case None => d.(secs := d.secs[sec := data])
  {
    hide And, Blank;
    match protect
    case Some(p) =>
      var d2 := d.(secs := d.secs[p := data]);
      StoreCompletes(d, p, data, [Open, Name(sec), Erase(sec), Prog(sec, data), Forget]);
      var tail := [Erase(sec), Prog(sec, data)] + [Forget];
      assert [Open, Name(sec), Erase(sec), Prog(sec, data), Forget][1..] == [Name(sec)] + tail;
      assert ([Name(sec)] + tail)[1..] == tail;
      StoreCompletes(Apply(Apply(d2, Open), Name(sec)), sec, data, [Forget]);
    case None =>
      StoreCompletes(d, sec, data, []);
      assert [Erase(sec), Prog(sec, data)] + [] == FlushSteps(protect, sec, data);
  }

  /** An erase and a program, then the rest. */
  lemma StoreCompletes(d: Disk, sec: nat, data: Sector, rest: seq<Step>)
    requires sec < |d.secs| && AllFit(rest, |d.secs|)
    ensures AllFit([Erase(sec), Prog(sec, data)] + rest, |d.secs|)
    ensures ApplyAll(d, [Erase(sec), Prog(sec, data)] + rest) == ApplyAll(d.(secs := d.secs[sec := data]), rest)
  {
    hide And;
    ProgramErased(d, sec, data);
    var all := [Erase(sec), Prog(sec, data)] + rest;
    assert all[1..][1..] == rest;
  }

  // ---- Crash safety of one flush ----

  /** What a disk must be for recovery to end old or new.  Without a record the target is
      wholly old or wholly new.  With one, the sector it means is the shadow, or the shadow is
      complete and that sector is the target or held the same bytes before; all others are
      old. */
  ghost predicate Safe(d: Disk, p: nat, sec: nat, was: seq<Sector>, data: Sector) {
    && |d.secs| == |was| && p < |was| && sec < |was| && p != sec
    && match d.rec
       case None =>
         && (d.secs[sec] == was[sec] || d.secs[sec] == data)
         && forall n :: 0 <= n < |was| && n != p && n != sec ==> d.secs[n] == was[n]
       case Some(v) =>
         && Aim(v, |was|).Some?
         && var t := Aim(v, |was|).value;
            && (t == p || (d.secs[p] == data && (t == sec || was[t] == data)))
            && forall n :: 0 <= n < |was| && n != p && n != t ==> d.secs[n] == was[n]
  }

  /** The record is absent, or means the target, the shadow, or a sector that held the data
      anyway.  A cut that is not between the record's header and the end of its data leaves
      it absent or naming the target. */
  ghost predicate Harmless(rec: Option<int>, p: nat, sec: nat, was: seq<Sector>, data: Sector) {
    rec.Some? ==>
      && Aim(rec.value, |was|).Some?
      && var t := Aim(rec.value, |was|).value;
         t == sec || t == p || was[t] == data
  }

  /** A cut flush leaves a safe disk exactly when the record is harmless: always, but between
      the header of the index record and the end of its data. */
  lemma FlushCutIsSafe(was: seq<Sector>, p: nat, sec: nat, data: Sector, d': Disk)
    requires p < |was| && sec < |was| && p != sec
    requires AllFit(FlushSteps(Some(p), sec, data), |was|)
    requires Cut(Disk(was, None), FlushSteps(Some(p), sec, data), d')
    ensures Safe(d', p, sec, was, data) <==> Harmless(d'.rec, p, sec, was, data)
    ensures d'.rec.None? || d'.rec == Some(sec) ==> Safe(d', p, sec, was, data)
    ensures d'.rec.Some? && d'.rec != Some(sec) ==> d'.secs == was[p := data]
  {
    hide And;
    var s0 := FlushSteps(Some(p), sec, data);
    var d0 := Disk(was, None);
    var d1 := Apply(d0, s0[0]);
    var d2 := Apply(d1, s0[1]);
    ProgramErased(d0, p, data);
    assert s0[1..][0] == s0[1] && s0[1..][1..] == s0[2..];
    if Cut(d2, s0[2..], d') {
      assert s0[2..] == [Open, Name(sec), Erase(sec), Prog(sec, data), Forget];
      RecordingCutIsSafe(was, d2, p, sec, data, d');
    }
  }

  /** From the complete shadow on. */
  lemma RecordingCutIsSafe(was: seq<Sector>, d: Disk, p: nat, sec: nat, data: Sector, d': Disk)
    requires p < |was| && sec < |was| && p != sec
    requires d == Disk(was[p := data], None)
    requires AllFit([Open, Name(sec), Erase(sec), Prog(sec, data), Forget], |was|)
    requires Cut(d, [Open, Name(sec), Erase(sec), Prog(sec, data), Forget], d')
    ensures Safe(d', p, sec, was, data) <==> Harmless(d'.rec, p, sec, was, data)
    ensures d'.rec.None? || d'.rec == Some(sec) ==> Safe(d', p, sec, was, data)
    ensures d'.rec.Some? && d'.rec != Some(sec) ==> d'.secs == was[p := data]
  {
    hide And;
    var tail := [Erase(sec), Prog(sec, data), Forget];
    var all := [Open, Name(sec), Erase(sec), Prog(sec, data), Forget];
    assert all[1..] == [Name(sec)] + tail && ([Name(sec)] + tail)[1..] == tail;
    var named := d.(rec := Some(sec));
    assert Apply(Apply(d, Open), Name(sec)) == named;
    if Cut(named, tail, d') {
      assert ReplaySteps(named, p) == tail;
      ReplayCutIsSafe(named, p, sec, was, data, d');
      RecordIsKept(named, tail, d');
    } else {
      assert d' == d || d'.rec.Some?;
    }
  }

  /** Until it is forgotten the record is kept. */
  lemma {:induction false} RecordIsKept(d: Disk, steps: seq<Step>, d': Disk)
    requires AllFit(steps, |d.secs|) && Cut(d, steps, d')
    requires forall i :: 0 <= i < |steps| ==> steps[i].Erase? || steps[i].Prog? || steps[i].Forget?
    ensures d'.rec == d.rec || d'.rec.None?
    decreases |steps|
  {
    if d' != d && !Torn(d, steps[0], d') {
      RecordIsKept(Apply(d, steps[0]), steps[1..], d');
    }
  }

  /** Power failing during recovery leaves a disk recovery can start again from. */
  lemma ReplayCutIsSafe(d: Disk, p: nat, sec: nat, was: seq<Sector>, data: Sector, d': Disk)
    requires Safe(d, p, sec, was, data)
    requires AllFit(ReplaySteps(d, p), |was|) && Cut(d, ReplaySteps(d, p), d')
    ensures Safe(d', p, sec, was, data)
  {
    hide And;
    if d.rec.Some? {
      var t := Aim(d.rec.value, |was|).value;
      var s0 := ReplaySteps(d, p);
      var d1 := Apply(d, s0[0]);
      var d2 := Apply(d1, s0[1]);
      ProgramErased(d, t, d.secs[p]);
      assert s0[1..][0] == s0[1] && s0[1..][1..] == [Forget];
      assert [Forget][1..] == [];
      assert d2 == d.(secs := d.secs[t := d.secs[p]]);
      assert Cut(d2, [Forget], d') ==> d' == d2 || d' == Apply(d2, Forget);
    }
  }

  /** Recovery run to its end clears the record; the sector it means holds the shadow. */
  lemma ReplayCompletes(d: Disk, p: nat)
    requires p < |d.secs| && Recoverable(d)
    ensures AllFit(ReplaySteps(d, p), |d.secs|)
    ensures ApplyAll(d, ReplaySteps(d, p)) ==
            match d.rec
            case Some(v) => Disk(d.secs[Aim(v, |d.secs|).value := d.secs[p]], None)
            case None => d
  {
    if d.rec.Some? {
      StoreCompletes(d, Aim(d.rec.value, |d.secs|).value, d.secs[p], [Forget]);
    }
  }

  /** Recovery of a cut flush ends with the flush done or not done exactly when the record it
      finds is harmless. */
  lemma FlushIsCrashSafe(was: seq<Sector>, p: nat, sec: nat, data: Sector, d': Disk)
    requires p < |was| && sec < |was| && p != sec
    requires AllFit(FlushSteps(Some(p), sec, data), |was|)
    requires Cut(Disk(was, None), FlushSteps(Some(p), sec, data), d')
    ensures |d'.secs| == |was|
    ensures RecoversWhole(d', was, p, sec, data) <==> Harmless(d'.rec, p, sec, was, data)
  {
    hide Cut, Apply;
    FlushCutIsSafe(was, p, sec, data, d');
    CutLength(Disk(was, None), FlushSteps(Some(p), sec, data), d');
    if Recoverable(d') {
      ReplayCompletes(d', p);
      if !Harmless(d'.rec, p, sec, was, data) {
        var now := ApplyAll(d', ReplaySteps(d', p)).secs;
        var t := Aim(d'.rec.value, |was|).value;
        assert now[t] == data;
      }
    }
  }

  /** Recovery runs, and leaves the old memory or the new one, but for the shadow. */
  ghost predicate RecoversWhole(d: Disk, was: seq<Sector>, p: nat, sec: nat, data: Sector)
    requires sec < |was| && p < |d.secs|
  {
    && Recoverable(d) && AllFit(ReplaySteps(d, p), |d.secs|)
    && var now := ApplyAll(d, ReplaySteps(d, p)).secs;
       Same(was, now, p) || Same(was[sec := data], now, p)
  }

  lemma {:induction false} CutLength(d: Disk, steps: seq<Step>, d': Disk)
    requires AllFit(steps, |d.secs|) && Cut(d, steps, d')
    ensures |d'.secs| == |d.secs|
    decreases |steps|
  {
    if d' != d && !Torn(d, steps[0], d') {
      CutLength(Apply(d, steps[0]), steps[1..], d');
    }
  }

  /** The cut that is not safe: the record's header is written, its data is not.  Recovery
      takes the blank number for sector 1023 of the first chip and overwrites it. */
  lemma UnnamedRecordStrikes(was: seq<Sector>, p: nat, sec: nat, data: Sector) returns (d': Disk)
    requires CHIP_SECTORS <= |was| && p < |was| && sec < |was| && p != sec
    requires p != CHIP_SECTORS - 1 && sec != CHIP_SECTORS - 1 && was[CHIP_SECTORS - 1] != data
    ensures AllFit(FlushSteps(Some(p), sec, data), |was|)
    ensures Cut(Disk(was, None), FlushSteps(Some(p), sec, data), d') && d'.rec == Some(UNNAMED)
    ensures |d'.secs| == |was| && Recoverable(d') && AllFit(ReplaySteps(d', p), |was|)
    ensures ApplyAll(d', ReplaySteps(d', p)).secs[CHIP_SECTORS - 1] == data
    ensures !RecoversWhole(d', was, p, sec, data)
  {
    hide And;
    var s0 := FlushSteps(Some(p), sec, data);
    var d0 := Disk(was, None);
    FlushCompletes(d0, Some(p), sec, data);
    ProgramErased(d0, p, data);
    var d2 := Apply(Apply(d0, s0[0]), s0[1]);
    d' := Apply(d2, Open);
    CutNow(d', s0[3..]);
    CutLater(d2, s0[2..], d');
    CutLater(Apply(d0, s0[0]), s0[1..], d');
    CutLater(d0, s0, d');
    ReplayCompletes(d', p);
    FlushIsCrashSafe(was, p, sec, data, d');
  }

  /** The number read, as a signed int, when `j` of its four bytes were written. */
  function NumberRead(sec: nat, j: nat): (v: int)
    requires j <= 4
    ensures -0x8000_0000 <= v < 0x8000_0000 && v % 0x1_0000_0000 == LittleEndian.Torn(sec, 4, j)
  {
    LittleEndian.TornBelow(sec, 4, j);
    LittleEndian.BytePowers();
    var u := LittleEndian.Torn(sec, 4, j);
    if u >= 0x8000_0000 then u - 0x1_0000_0000 else u
  }

  /** The sector that is then meant: the bytes written, on top of the last sectors of the
      first chip; sector 1023 when there are none. */
  function MeantAfter(sec: nat, j: nat): int
    requires j <= 4
  {
    if j == 4 then sec else sec % LittleEndian.Power256(j) - LittleEndian.Power256(j) + CHIP_SECTORS
  }

  lemma NumberIsTorn(sec: nat, j: nat, n: nat)
    requires sec < n <= 0x8000_0000 && j <= 4
    ensures j == 4 ==> NumberRead(sec, j) == sec && Aim(NumberRead(sec, j), n) == Some(sec)
    ensures j < 4 ==>
              && NumberRead(sec, j) == MeantAfter(sec, j) - CHIP_SECTORS < 0
              && Aim(NumberRead(sec, j), n) == if 0 < MeantAfter(sec, j) < n then Some(MeantAfter(sec, j)) else None
  {
    LittleEndian.BytePowers();
    if j == 4 {
      LittleEndian.TornWhole(sec, 4);
    } else {
      assert sec % LittleEndian.Power256(j) < LittleEndian.Power256(j);
    }
  }

  /** Power failing after `j` bytes of the sector number: recovery is safe exactly when all four
      are written, or the sector then meant is on the disk and is the target, the shadow, or
      one that held the data anyway. */
  lemma NameCut(was: seq<Sector>, p: nat, sec: nat, data: Sector, j: nat) returns (d': Disk)
    requires p < |was| && sec < |was| <= 0x8000_0000 && p != sec && j <= 4
    ensures AllFit(FlushSteps(Some(p), sec, data), |was|)
    ensures Cut(Disk(was, None), FlushSteps(Some(p), sec, data), d') && |d'.secs| == |was|
    ensures d'.rec == Some(NumberRead(sec, j))
    ensures RecoversWhole(d', was, p, sec, data) <==>
            var t := MeantAfter(sec, j);
            j == 4 || (0 < t < |was| && (t == sec || t == p || was[t] == data))
  {
    hide And, NumberRead, MeantAfter, Apply, Cut, RecoversWhole, FlushSteps;
    d' := CutInName(was, p, sec, data, NumberRead(sec, j));
    FlushIsCrashSafe(was, p, sec, data, d');
    NumberIsTorn(sec, j, |was|);
    WholeIsMeant(sec);
  }

  lemma WholeIsMeant(sec: nat)
    ensures MeantAfter(sec, 4) == sec
  {
  }

  /** Power failing in the record's data, with any number left. */
  lemma CutInName(was: seq<Sector>, p: nat, sec: nat, data: Sector, v: int) returns (d': Disk)
    requires p < |was| && sec < |was| && p != sec
    ensures AllFit(FlushSteps(Some(p), sec, data), |was|)
    ensures Cut(Disk(was, None), FlushSteps(Some(p), sec, data), d') && d'.rec == Some(v) && |d'.secs| == |was|
  {
    hide And;
    var s0 := FlushSteps(Some(p), sec, data);
    var d0 := Disk(was, None);
    FlushCompletes(d0, Some(p), sec, data);
    var d1 := Apply(d0, s0[0]);
    var d2 := Apply(d1, s0[1]);
    var d3 := Apply(d2, Open);
    d' := d3.(rec := Some(v));
    assert s0[3..][0] == Name(sec);
    assert Torn(d3, Name(sec), d');
    CutLater(d2, s0[2..], d');
    CutLater(d1, s0[1..], d');
    CutLater(d0, s0, d');
  }

  lemma CutNow(d: Disk, steps: seq<Step>)
    requires AllFit(steps, |d.secs|)
    ensures Cut(d, steps, d)
  {
  }

  lemma CutLater(d: Disk, steps: seq<Step>, d': Disk)
    requires AllFit(steps, |d.secs|) && steps != [] && Cut(Apply(d, steps[0]), steps[1..], d')
    ensures Cut(d, steps, d')
  {
  }

  // ---- Whole histories ----

  /** A flush that completed, or one cut short: `boots[0]` is the disk the crash left, each
      next one what a further crash during recovery left; the last recovery completes. */
  datatype Event = Done(sec: nat, data: Sector) | Crash(sec: nat, data: Sector, boots: seq<Disk>)

  /** What can happen to disk `d`, a crash leaving a harmless record. */
  ghost predicate Feasible(d: Disk, e: Event, p: nat) {
    && p < |d.secs| && e.sec < |d.secs| && e.sec != p
    && AllFit(FlushSteps(Some(p), e.sec, e.data), |d.secs|)
    && (e.Crash? ==>
          && BootChain(e.boots, p, |d.secs|)
          && Cut(d, FlushSteps(Some(p), e.sec, e.data), e.boots[0])
          && Harmless(e.boots[0].rec, p, e.sec, d.secs, e.data))
  }

  predicate Bootable(d: Disk, p: nat, n: nat) {
    |d.secs| == n && p < n && Recoverable(d) && AllFit(ReplaySteps(d, p), n)
  }

  /** Each disk is what a crash during recovery of the one before left. */
  ghost predicate BootChain(boots: seq<Disk>, p: nat, n: nat)
    decreases |boots|
  {
    && boots != []
    && Bootable(boots[0], p, n)
    && (|boots| > 1 ==> BootChain(boots[1..], p, n) && Cut(boots[0], ReplaySteps(boots[0], p), boots[1]))
  }

  function Last(boots: seq<Disk>): Disk
    requires boots != []
  {
    boots[|boots| - 1]
  }

  lemma {:induction false} LastIsBootable(boots: seq<Disk>, p: nat, n: nat)
    requires BootChain(boots, p, n)
    ensures Bootable(Last(boots), p, n)
    decreases |boots|
  {
    if |boots| > 1 {
      LastIsBootable(boots[1..], p, n);
    }
  }

  ghost function After(d: Disk, e: Event, p: nat): (r: Disk)
    requires Feasible(d, e, p)
    ensures |r.secs| == |d.secs|
  {
    match e
    case Done(sec, data) => ApplyAll(d, FlushSteps(Some(p), sec, data))
    case Crash(_, _, boots) => 
      LastIsBootable(boots, p, |d.secs|);
      ApplyAll(Last(boots), ReplaySteps(Last(boots), p))
  }

  ghost predicate FeasibleRun(d: Disk, run: seq<Event>, p: nat)
    decreases |run|
  {
    run == [] || (Feasible(d, run[0], p) && FeasibleRun(After(d, run[0], p), run[1..], p))
  }

  ghost function RunAll(d: Disk, run: seq<Event>, p: nat): (r: Disk)
    requires FeasibleRun(d, run, p)
    ensures |r.secs| == |d.secs|
    decreases |run|
  {
    if run == [] then d else RunAll(After(d, run[0], p), run[1..], p)
  }

  /** Equal in every sector but the shadow. */
  ghost predicate Same(a: seq<Sector>, b: seq<Sector>, p: nat) {
    |a| == |b| && forall n :: 0 <= n < |a| && n != p ==> a[n] == b[n]
  }

  /** The atomic meaning of a history: a completed flush happens, a cut one happens
      entirely or not at all. */
  ghost predicate Atomic(was: seq<Sector>, run: seq<Event>, now: seq<Sector>, p: nat)
    decreases |run|
  {
    if run == [] then Same(was, now, p)
    else
      && run[0].sec < |was|
      && (|| Atomic(was[run[0].sec := run[0].data], run[1..], now, p)
          || (run[0].Crash? && Atomic(was, run[1..], now, p)))
  }

  lemma {:induction false} BootsAreSafe(boots: seq<Disk>, p: nat, sec: nat, was: seq<Sector>, data: Sector)
    requires BootChain(boots, p, |was|) && Safe(boots[0], p, sec, was, data)
    ensures Safe(Last(boots), p, sec, was, data)
    decreases |boots|
  {
    if |boots| > 1 {
      ReplayCutIsSafe(boots[0], p, sec, was, data, boots[1]);
      BootsAreSafe(boots[1..], p, sec, was, data);
    }
  }

  lemma EventIsAtomic(d: Disk, e: Event, p: nat)
    requires d.rec.None? && Feasible(d, e, p)
    ensures After(d, e, p).rec.None?
    ensures || Same(d.secs[e.sec := e.data], After(d, e, p).secs, p)
            || (e.Crash? && Same(d.secs, After(d, e, p).secs, p))
  {
    match e
    case Done(sec, data) =>
      FlushCompletes(d, Some(p), sec, data);
    case Crash(sec, data, boots) =>
      FlushCutIsSafe(d.secs, p, sec, data, boots[0]);
      BootsAreSafe(boots, p, sec, d.secs, data);
      ReplayCompletes(Last(boots), p);
  }

  lemma {:induction false} AtomicUpToShadow(was: seq<Sector>, was': seq<Sector>, run: seq<Event>, now: seq<Sector>, p: nat)
    requires Same(was, was', p) && Atomic(was, run, now, p)
    ensures Atomic(was', run, now, p)
    decreases |run|
  {
    if run != [] {
      var e := run[0];
      if Atomic(was[e.sec := e.data], run[1..], now, p) {
        AtomicUpToShadow(was[e.sec := e.data], was'[e.sec := e.data], run[1..], now, p);
      } else {
        AtomicUpToShadow(was, was', run[1..], now, p);
      }
    }
  }

  /** Over any history of flushes, crashes at any point of a flush that leave a harmless
      record, and any number of crashes during recovery, every flush is all or nothing. */
  lemma {:induction false} HistoryIsAtomic(d: Disk, run: seq<Event>, p: nat)
    requires d.rec.None? && FeasibleRun(d, run, p)
    ensures RunAll(d, run, p).rec.None?
    ensures Atomic(d.secs, run, RunAll(d, run, p).secs, p)
    decreases |run|
  {
    if run != [] {
      var e, d1 := run[0], After(d, run[0], p);
      EventIsAtomic(d, e, p);
      HistoryIsAtomic(d1, run[1..], p);
      var now := RunAll(d1, run[1..], p).secs;
      if Same(d.secs[e.sec := e.data], d1.secs, p) {
        AtomicUpToShadow(d1.secs, d.secs[e.sec := e.data], run[1..], now, p);
      } else {
        AtomicUpToShadow(d1.secs, d.secs, run[1..], now, p);
      }
    }
  }

  // ---- flash_Init as written ----

  /** The guard of flash_Init is inverted: it replays when there is NO record, onto the
      sector number that the static buffer happens to hold. */
  function BootSteps(d: Disk, p: nat, stale: nat): seq<Step>
    requires p < |d.secs|
  {
    match d.rec
    case None => [Erase(stale), Prog(stale, d.secs[p])] + [Forget]
    case Some(_) => []
  }

  /** Booting as written ends where recovery would exactly when there is no record and the
      sector it wrongly writes already equals the shadow.  For what the sectors hold, the
      shadow aside, it is enough that the sector wrongly written, or wrongly left alone, is
      the shadow or equals it. */
  lemma BootAsWritten(d: Disk, p: nat, stale: nat)
    requires p < |d.secs| && stale < |d.secs| && Recoverable(d)
    ensures AllFit(BootSteps(d, p, stale), |d.secs|) && AllFit(ReplaySteps(d, p), |d.secs|)
    ensures ApplyAll(d, BootSteps(d, p, stale)) == ApplyAll(d, ReplaySteps(d, p)) <==>
            d.rec.None? && d.secs[stale] == d.secs[p]
    ensures Same(ApplyAll(d, BootSteps(d, p, stale)).secs, ApplyAll(d, ReplaySteps(d, p)).secs, p) <==>
            var touched := if d.rec.Some? then Aim(d.rec.value, |d.secs|).value else stale;
            touched == p || d.secs[touched] == d.secs[p]
  {
    hide Apply, And;
    ReplayCompletes(d, p);
    if d.rec.None? {
      BootWithoutRecord(d, p, stale);
      OneSectorDiffers(d.secs, stale, d.secs[p], p);
    } else {
      OneSectorDiffers(d.secs, Aim(d.rec.value, |d.secs|).value, d.secs[p], p);
    }
  }

  lemma OneSectorDiffers(a: seq<Sector>, t: nat, data: Sector, p: nat)
    requires t < |a|
    ensures Same(a[t := data], a, p) <==> t == p || a[t] == data
    ensures Same(a, a[t := data], p) <==> t == p || a[t] == data
    ensures a[t := data] == a <==> a[t] == data
  {
    assert a[t := data][t] == data;
    if a[t] == data {
      assert a[t := data] == a;
    }
  }

  lemma BootWithoutRecord(d: Disk, p: nat, stale: nat)
    requires p < |d.secs| && stale < |d.secs| && d.rec.None?
    ensures AllFit(BootSteps(d, p, stale), |d.secs|)
    ensures ApplyAll(d, BootSteps(d, p, stale)) == d.(secs := d.secs[stale := d.secs[p]])
  {
    StoreCompletes(d, stale, d.secs[p], [Forget]);
  }

  /** A clean boot that loses sector 0: three sectors, shadow last, no crash at all. */
  lemma BootDestroysSectorZero()
    ensures var zero: Sector, one: Sector := Fill(SECTOR, 0), Fill(SECTOR, 1);
            var d := Disk([zero, zero, one], None);
            && AllFit(BootSteps(d, 2, 0), 3)
            && d.secs[0] == zero
            && ApplyAll(d, BootSteps(d, 2, 0)).secs[0] == one
            && zero != one
  {
    var zero: Sector, one: Sector := Fill(SECTOR, 0), Fill(SECTOR, 1);
    BootWithoutRecord(Disk([zero, zero, one], None), 2, 0);
    assert zero[0] != one[0];
  }
}
