/** drivers/swuart.c: the software UART, one timer tick at a time, in 8-bit mode. */
module SoftUart {
  import opened Bytes
  import opened Multiples

  const IDLE := 0
  const START_BIT := 1
  const DATA_1 := 2
  const DATA_7 := 8
  const DATA_8 := 9
  const DATA_9 := 10
  const STOP_1 := 11
  const STOP_2 := 12
  const WAIT_1 := 13
  const WAIT_4 := 16

  datatype Parity = NoParity | Even | Odd

  datatype Para = Para(pari: Parity, oneStop: bool)

  /** A port: the two machines, the timer and the start-edge interrupt, the level of the
      transmit pin, and the byte queues on either side. */
  datatype Port = Port(rxste: nat, rxdata: byte, txste: nat, txdata: byte, txpari: bool,
                       timer: bool, edge: bool, out: bool, txq: seq<byte>, rxq: seq<byte>)

  const AT_REST := Port(IDLE, 0, IDLE, 0, false, false, true, true, [], [])

  // ---- Bits ----

  function Pow2(k: nat): (r: nat)
    ensures r > 0
  {
    if k == 0 then 1 else 2 * Pow2(k - 1)
  }

  function Bit(x: nat, k: nat): (r: nat)
    ensures r <= 1
  {
    x / Pow2(k) % 2
  }

  /** x | 1 << k */
  function SetBit(x: byte, k: nat): (r: byte)
    requires k < 8
  {
    PowersUpTo7();
    if Bit(x, k) == 1 then x else (x + Pow2(k)) % 256
  }

  lemma PowersUpTo7()
    ensures Pow2(0) == 1 && Pow2(1) == 2 && Pow2(2) == 4 && Pow2(3) == 8
    ensures Pow2(4) == 16 && Pow2(5) == 32 && Pow2(6) == 64 && Pow2(7) == 128 && Pow2(8) == 256
  {
    assert Pow2(3) == 8;
    assert Pow2(6) == 64;
  }

  /** Whether the number of ones among the low `k` bits is odd. */
  predicate ParityOf(x: nat, k: nat) {
    k > 0 && ParityOf(x, k - 1) != (Bit(x, k - 1) == 1)
  }

  // ---- The machines ----

  /** The receiving half of swuart_RxTx; `pin` is the level read. */
  function RxTick(d: Port, para: Para, pin: bool): Port
    requires d.rxste != IDLE
  {
    if d.rxste == DATA_1 then
      d.(timer := true, rxdata := if pin then 1 else 0, rxste := DATA_1 + 1)
    else if d.rxste == DATA_8 then
      d.(rxdata := if pin then SetBit(d.rxdata, 7) else d.rxdata,
         rxste := if para.pari == NoParity then STOP_1 else DATA_9)
    else if d.rxste == DATA_9 then d.(rxste := STOP_1)
    else if d.rxste == STOP_1 then
      d.(edge := if d.txste == IDLE then true else d.edge,
         rxste := if para.oneStop then WAIT_1 else STOP_2,
         rxq := d.rxq + [d.rxdata])
    else if d.rxste == STOP_2 then d.(rxste := WAIT_1)
    else if WAIT_1 <= d.rxste < WAIT_4 then d.(rxste := d.rxste + 1)
    else if d.rxste == WAIT_4 then d.(timer := if d.txste == IDLE then false else d.timer, rxste := IDLE)
    else
      d.(rxdata := if pin && DATA_1 < d.rxste < DATA_8 then SetBit(d.rxdata, d.rxste - DATA_1) else d.rxdata,
         rxste := d.rxste + 1)
  }

  /** The transmitting half. */
  function TxTick(d: Port, para: Para): Port
    requires d.txste != IDLE
  {
    if d.txste == START_BIT then
      if d.txq == [] then
        if d.rxste == IDLE then d.(txste := IDLE, edge := true, timer := false) else d.(txste := IDLE)
      else d.(txdata := d.txq[0], txq := d.txq[1..], txpari := false, out := false, txste := DATA_1)
    else if d.txste == DATA_8 then
      d.(out := Bit(d.txdata, 7) == 1, txpari := d.txpari != (Bit(d.txdata, 7) == 1),
         txste := if para.pari == NoParity then STOP_1 else DATA_9)
    else if d.txste == DATA_9 then
      d.(out := if para.pari == Even then d.txpari else !d.txpari, txste := STOP_1)
    else if d.txste == STOP_1 then d.(out := true, txste := if para.oneStop then WAIT_1 else STOP_2)
    else if STOP_2 <= d.txste < WAIT_4 then d.(txste := d.txste + 1)
    else if d.txste == WAIT_4 then d.(txste := START_BIT)
    else
      d.(out := DATA_1 <= d.txste && Bit(d.txdata, d.txste - DATA_1) == 1,
         txpari := if DATA_1 <= d.txste then d.txpari != (Bit(d.txdata, d.txste - DATA_1) == 1) else d.txpari,
         txste := d.txste + 1)
  }

  /** swuart_RxTx: receiving comes first, transmitting only while nothing is received. */
  function Tick(d: Port, para: Para, pin: bool): Port {
    if d.rxste != IDLE then RxTick(d, para, pin)
    else if d.txste != IDLE then TxTick(d, para)
    else d.(timer := false)
  }

  /** swuart_RxStart: a falling edge while the edge interrupt is enabled. */
  function Edge(d: Port): Port {
    if d.rxste < DATA_1 || d.rxste > DATA_9 then d.(edge := false, rxste := DATA_1, timer := true) else d.(edge := false)
  }

  /** swuart_TxStart. */
  function TxStart(d: Port, para: Para, pin: bool): Port {
    if d.txste != IDLE then d
    else if d.rxste == IDLE then Tick(d.(txste := START_BIT, edge := false, timer := true), para, pin)
    else d.(txste := START_BIT)
  }

  // ---- A frame, by itself ----

  /** Cells from one start bit to the next: 14, 15 or 16. */
  function FrameLength(para: Para): nat {
    14 + (if para.pari == NoParity then 0 else 1) + (if para.oneStop then 0 else 1)
  }

  /** The level of cell `i` of the frame of `x`: start bit, data bits from the lowest,
      parity, then the line at rest. */
  function Cell(para: Para, x: byte, i: nat): bool {
    if i == 0 then false
    else if i <= 8 then Bit(x, i - 1) == 1
    else if i == 9 && para.pari == Even then ParityOf(x, 8)
    else if i == 9 && para.pari == Odd then !ParityOf(x, 8)
    else true
  }

  /** How many cells of its frame a transmitter in state `s` has sent. */
  function CellsSent(para: Para, s: nat): nat {
    if s < DATA_1 then 0
    else if s <= DATA_9 then s - 1
    else
      (if para.pari == NoParity then 9 else 10) +
      (if s == STOP_1 then 0 else if s == STOP_2 then 1 else s - WAIT_1 + (if para.oneStop then 1 else 2))
  }

  /** States the transmitter can be in. */
  predicate TxState(para: Para, s: nat) {
    s <= WAIT_4 && (para.pari == NoParity ==> s != DATA_9) && (para.oneStop ==> s != STOP_2)
  }

  /** One tick sends one cell: the level on the pin is that cell of the frame, and after
      FrameLength ticks the machine is back at the start bit, never earlier. */
  lemma TickSendsCell(d: Port, para: Para)
    requires TxState(para, d.txste) && d.txste >= START_BIT && (d.txste == START_BIT ==> d.txq != [])
    requires DATA_1 <= d.txste <= DATA_9 ==> d.txpari == ParityOf(d.txdata, d.txste - DATA_1)
    requires d.txste > STOP_1 ==> d.out
    ensures var t := TxTick(d, para);
            && TxState(para, t.txste)
            && t.out == Cell(para, t.txdata, CellsSent(para, d.txste))
            && (if t.txste == START_BIT then CellsSent(para, d.txste) + 1 == FrameLength(para)
                else CellsSent(para, t.txste) == CellsSent(para, d.txste) + 1 < FrameLength(para))
            && (DATA_1 <= t.txste <= DATA_9 ==> t.txpari == ParityOf(t.txdata, t.txste - DATA_1))
            && (t.txste > STOP_1 || t.txste == START_BIT ==> t.out)
  {
    hide Bit, Pow2, ParityOf;
    if DATA_1 <= d.txste <= DATA_8 {
      ParityStep(d.txdata, d.txste - DATA_1);
    }
    if d.txste == START_BIT {
      ParityStep(d.txq[0], 0);
    }
  }

  lemma ParityStep(x: nat, k: nat)
    ensures ParityOf(x, k + 1) == (ParityOf(x, k) != (Bit(x, k) == 1))
    ensures !ParityOf(x, 0)
  {
  }

  // ---- Two ports and a line ----

  /** Port `a` transmits to port `b`; both run at the same rate, `b` half a cell later. */
  datatype Link = Link(para: Para, a: Port, b: Port)

  /** What `b` makes of a cell in which the line goes from `was` to `now`. */
  function React(b: Port, para: Para, was: bool, now: bool): Port {
    if was && !now && b.edge then Edge(b)
    else if b.timer then Tick(b, para, now)
    else b
  }

  function NextCell(l: Link): Link {
    var a := if l.a.timer then Tick(l.a, l.para, true) else l.a;
    l.(a := a, b := React(l.b, l.para, l.a.out, a.out))
  }

  /** Bytes are queued for sending and the transmitter is started; starting it at rest is
      the first tick of a cell. */
  function Send(l: Link, bytes: seq<byte>): Link {
    var q := l.a.(txq := l.a.txq + bytes);
    if l.a.txste == IDLE then
      var a := TxStart(q, l.para, true);
      l.(a := a, b := React(l.b, l.para, l.a.out, a.out))
    else l.(a := TxStart(q, l.para, true))
  }

  /** The byte under way. */
  function Flying(a: Port): seq<byte> {
    if DATA_1 <= a.txste <= STOP_1 then [a.txdata] else []
  }

  /** Data bits the receiver has sampled when the transmitter is in state `s`. */
  function Sampled(s: nat): nat {
    if s <= DATA_1 then 0 else if s <= DATA_9 then s - DATA_1 else 8
  }

  /** The receiver runs in step with the transmitter, one state behind the same frame, and
      no byte is lost, altered, repeated or reordered: `sent` is what has arrived, the byte
      under way, and what is still queued. */
  ghost predicate InStep(l: Link, sent: seq<byte>) {
    && l.a.rxste == IDLE && l.b.txste == IDLE
    && TxState(l.para, l.a.txste)
    && (l.a.timer <==> l.a.txste != IDLE) && (l.a.edge <==> l.a.txste == IDLE)
    && l.b.rxste == (if l.a.txste <= START_BIT then IDLE else l.a.txste)
    && (l.b.timer <==> l.b.rxste != IDLE)
    && (l.b.edge <==> l.b.rxste == IDLE || l.b.rxste > STOP_1)
    && (l.a.txste <= START_BIT || l.a.txste > STOP_1 ==> l.a.out)
    && (DATA_1 <= l.a.txste <= DATA_9 ==> l.a.txpari == ParityOf(l.a.txdata, l.a.txste - DATA_1))
    && (DATA_1 < l.a.txste <= STOP_1 ==> l.b.rxdata == l.a.txdata % Pow2(Sampled(l.a.txste)))
    && (l.a.txste == IDLE ==> l.a.txq == [])
    && l.b.rxq + Flying(l.a) + l.a.txq == sent
  }

  /** One more bit on top of the low `k`. */
  lemma LowBits(x: byte, k: nat)
    requires k < 8
    ensures x % Pow2(k) < 256
    ensures x % Pow2(k + 1) == if Bit(x, k) == 1 then SetBit(x % Pow2(k), k) else x % Pow2(k)
  {
    PowersUpTo7();
    var n: nat, p := x, Pow2(k);
    assert Pow2(k + 1) == 2 * p;
    assert p <= 128;
    SplitBit(n, p);
    assert Bit(n % p, k) == 0;
  }

  lemma SplitBit(x: nat, p: nat)
    requires p > 0
    ensures x % (2 * p) == x % p + (if x / p % 2 == 1 then p else 0)
    ensures x % p < p && x % p / p == 0
  {
    DivideTwice(x, p, 2);
    SplitIsDivision(x % p, p, 0, x % p);
  }

  lemma CellKeepsStep(l: Link, sent: seq<byte>)
    requires InStep(l, sent)
    ensures InStep(NextCell(l), sent)
  {
    hide Bit, Pow2, SetBit, ParityOf, Cell, CellsSent;
    var s := l.a.txste;
    if s == START_BIT {
      StartCell(l, sent);
    } else if DATA_1 <= s <= DATA_8 {
      DataCell(l, sent);
    }
    WholeByte(l.a.txdata);
  }

  lemma StartCell(l: Link, sent: seq<byte>)
    requires InStep(l, sent) && l.a.txste == START_BIT
    ensures InStep(NextCell(l), sent)
  {
    hide Bit, Pow2, SetBit;
    if l.a.txq != [] {
      assert [l.a.txq[0]] + l.a.txq[1..] == l.a.txq;
      assert l.b.rxq + [] + l.a.txq == l.b.rxq + [l.a.txq[0]] + l.a.txq[1..];
    }
  }

  lemma DataCell(l: Link, sent: seq<byte>)
    requires InStep(l, sent) && DATA_1 <= l.a.txste <= DATA_8
    ensures InStep(NextCell(l), sent)
  {
    hide Bit, Pow2, SetBit;
    LowBits(l.a.txdata, l.a.txste - DATA_1);
    WholeByte(l.a.txdata);
    FirstBit(l.a.txdata);
  }

  lemma FirstBit(x: byte)
    ensures x % Pow2(1) == if Bit(x, 0) == 1 then 1 else 0
  {
    PowersUpTo7();
  }

  lemma WholeByte(x: byte)
    ensures x % Pow2(8) == x && x % Pow2(0) == 0
  {
    PowersUpTo7();
  }

  lemma SendKeepsStep(l: Link, sent: seq<byte>, bytes: seq<byte>)
    requires InStep(l, sent)
    ensures InStep(Send(l, bytes), sent + bytes)
  {
    hide Bit, Pow2, SetBit, ParityOf;
    if l.a.txste == IDLE {
      var q := l.a.(txq := bytes, txste := START_BIT, edge := false, timer := true);
      assert l.a.txq + bytes == bytes;
      assert InStep(l.(a := q), sent + bytes);
      StartCell(l.(a := q), sent + bytes);
    }
  }

  // ---- Runs ----

  datatype Event = Sends(bytes: seq<byte>) | Passes   // bytes are queued; a cell passes

  function Step(l: Link, e: Event): Link {
    match e
    case Sends(bytes) => Send(l, bytes)
    case Passes => NextCell(l)
  }

  function Run(l: Link, es: seq<Event>): Link
    decreases |es|
  {
    if es == [] then l else Run(Step(l, es[0]), es[1..])
  }

  function AllSent(es: seq<Event>): seq<byte>
    decreases |es|
  {
    if es == [] then []
    else (if es[0].Sends? then es[0].bytes else []) + AllSent(es[1..])
  }

  /** Whenever bytes are queued and however the cells fall, what has arrived is always what
      was sent, in order, but for the byte under way and those still queued. */
  lemma {:induction false} RunInStep(l: Link, sent: seq<byte>, es: seq<Event>)
    requires InStep(l, sent)
    ensures InStep(Run(l, es), sent + AllSent(es))
    decreases |es|
  {
    hide InStep, Send, NextCell;
    if es == [] {
      assert sent + [] == sent;
    } else {
      match es[0] {
        case Sends(bytes) =>
          SendKeepsStep(l, sent, bytes);
          RunInStep(Step(l, es[0]), sent + bytes, es[1..]);
          assert (sent + bytes) + AllSent(es[1..]) == sent + AllSent(es);
        case Passes =>
          CellKeepsStep(l, sent);
          RunInStep(Step(l, es[0]), sent, es[1..]);
          assert [] + AllSent(es[1..]) == AllSent(es[1..]);
      }
    }
  }

  function Cells(l: Link, n: nat): Link
    decreases n
  {
    if n == 0 then l else Cells(NextCell(l), n - 1)
  }

  /** Cells until the transmitter rests: the rest of this frame, a frame for each queued
      byte, and one more to find the queue empty. */
  function CellsToGo(l: Link): nat
    requires CellsSent(l.para, l.a.txste) <= FrameLength(l.para)
  {
    if l.a.txste == IDLE then 0
    else
      (if l.a.txste == START_BIT then 0 else FrameLength(l.para) - CellsSent(l.para, l.a.txste)) +
      |l.a.txq| * FrameLength(l.para) + 1
  }

  lemma CellCountsDown(l: Link, sent: seq<byte>)
    requires InStep(l, sent) && l.a.txste != IDLE
    ensures CellsSent(l.para, l.a.txste) <= FrameLength(l.para)
    ensures CellsSent(l.para, NextCell(l).a.txste) <= FrameLength(l.para)
    ensures CellsToGo(NextCell(l)) == CellsToGo(l) - 1
  {
    hide Bit, Pow2, SetBit, ParityOf, Cell;
    if l.a.txste != START_BIT || l.a.txq != [] {
      TickSendsCell(l.a, l.para);
    }
  }

  lemma SentFits(l: Link, sent: seq<byte>)
    requires InStep(l, sent)
    ensures CellsSent(l.para, l.a.txste) <= FrameLength(l.para)
  {
  }

  /** After exactly that many cells everything sent has arrived: FrameLength cells a byte. */
  lemma {:induction false} EverythingArrives(l: Link, sent: seq<byte>)
    requires InStep(l, sent)
    ensures CellsSent(l.para, l.a.txste) <= FrameLength(l.para)
    ensures var r := Cells(l, CellsToGo(l));
            r.a.txste == IDLE && r.b.rxq == sent && InStep(r, sent)
    decreases CellsSent(l.para, l.a.txste) <= FrameLength(l.para), CellsToGo(l)
  {
    SentFits(l, sent);
    if l.a.txste == IDLE {
      assert l.b.rxq + [] + [] == l.b.rxq;
    } else {
      CellCountsDown(l, sent);
      CellKeepsStep(l, sent);
      EverythingArrives(NextCell(l), sent);
    }
  }

  /** Two fresh ports with the same setting: every byte sequence sent arrives as it was. */
  lemma RoundTrip(para: Para, bytes: seq<byte>)
    ensures var l := Send(Link(para, AT_REST, AT_REST), bytes);
            && CellsSent(para, l.a.txste) <= FrameLength(para)
            && Cells(l, CellsToGo(l)).b.rxq == bytes
            && (bytes != [] ==> CellsToGo(l) == |bytes| * FrameLength(para))
  {
    hide Bit, Pow2, SetBit, ParityOf, Cell;
    var rest := Link(para, AT_REST, AT_REST);
    assert InStep(rest, []);
    SendKeepsStep(rest, [], bytes);
    assert [] + bytes == bytes;
    EverythingArrives(Send(rest, bytes), bytes);
  }

  // ---- Parity ----

  /** Cells at 1 among the first `n` after the start bit. */
  function Ones(para: Para, x: byte, n: nat): nat {
    if n == 0 then 0 else Ones(para, x, n - 1) + (if Cell(para, x, n) then 1 else 0)
  }

  lemma {:induction false} OnesAreCounted(para: Para, x: byte, n: nat)
    requires n <= 8
    ensures ParityOf(x, n) <==> Ones(para, x, n) % 2 == 1
  {
    hide Bit, Pow2;
    if n > 0 {
      OnesAreCounted(para, x, n - 1);
    }
  }

  /** With the parity bit the number of ones is what the setting names. */
  lemma ParityBalances(para: Para, x: byte)
    ensures para.pari == Even ==> Ones(para, x, 9) % 2 == 0
    ensures para.pari == Odd ==> Ones(para, x, 9) % 2 == 1
  {
    hide Bit, Pow2;
    OnesAreCounted(para, x, 8);
  }

  // ---- A receiver and any sender ----

  /** A byte as a sender puts it on the line, with the level of its parity bit, and the cells
      at rest up to the next start bit: the stop bits and any pause. */
  datatype Frame = Frame(x: byte, parity: bool, rest: nat)

  function DataCells(x: byte, k: nat): seq<bool>
    decreases 8 - k
  {
    if k >= 8 then [] else [Bit(x, k) == 1] + DataCells(x, k + 1)
  }

  function Rest(n: nat): (r: seq<bool>)
    ensures |r| == n && forall i :: 0 <= i < n ==> r[i]
  {
    if n == 0 then [] else [true] + Rest(n - 1)
  }

  function FrameCells(para: Para, f: Frame): seq<bool> {
    [false] + (DataCells(f.x, 0) + ((if para.pari == NoParity then [] else [f.parity]) + Rest(f.rest)))
  }

  function LineCells(para: Para, fs: seq<Frame>): seq<bool> {
    if fs == [] then [] else FrameCells(para, fs[0]) + LineCells(para, fs[1..])
  }

  function BytesOf(fs: seq<Frame>): seq<byte> {
    if fs == [] then [] else [fs[0].x] + BytesOf(fs[1..])
  }

  /** What a port makes of the levels on its line, `was` before the first of them. */
  function Hear(b: Port, para: Para, was: bool, line: seq<bool>): Port
    decreases |line|
  {
    if line == [] then b else Hear(React(b, para, was, line[0]), para, line[0], line[1..])
  }

  function Level(was: bool, line: seq<bool>): bool {
    if line == [] then was else line[|line| - 1]
  }

  lemma {:induction false} HearJoin(b: Port, para: Para, was: bool, x: seq<bool>, y: seq<bool>)
    ensures Hear(b, para, was, x + y) == Hear(Hear(b, para, was, x), para, Level(was, x), y)
    decreases |x|
  {
    hide React;
    if x == [] {
      assert x + y == y;
    } else {
      assert (x + y)[1..] == x[1..] + y;
      HearJoin(React(b, para, was, x[0]), para, x[0], x[1..], y);
    }
  }

  /** Ready for a start bit: nothing being sent, no frame under way, past its stop bit or idle. */
  predicate Ready(b: Port) {
    && b.txste == IDLE && b.edge && (b.timer <==> b.rxste != IDLE)
    && (b.rxste == IDLE || STOP_1 < b.rxste <= WAIT_4)
  }

  /** A line at rest keeps a port ready and brings it nothing. */
  lemma {:induction false} RestHeard(b: Port, para: Para, was: bool, n: nat)
    requires Ready(b)
    ensures Ready(Hear(b, para, was, Rest(n))) && Hear(b, para, was, Rest(n)).rxq == b.rxq
    decreases n
  {
    hide Bit, Pow2, SetBit;
    if n > 0 {
      assert Rest(n)[1..] == Rest(n - 1);
      RestHeard(React(b, para, was, true), para, true, n - 1);
    }
  }

  /** The low `k` bits of `x` are in, the next one is awaited. */
  predicate Taking(b: Port, x: byte, k: nat) {
    && b.txste == IDLE && !b.edge && b.timer && b.rxste == DATA_1 + k && k <= 8
    && (k > 0 ==> b.rxdata == x % Pow2(k))
  }

  lemma BitTaken(b: Port, para: Para, was: bool, x: byte, k: nat)
    requires Taking(b, x, k) && k < 8
    ensures var r := React(b, para, was, Bit(x, k) == 1);
            && r.rxq == b.rxq && r.rxdata == x % Pow2(k + 1)
            && r.rxste == (if k < 7 then b.rxste + 1 else if para.pari == NoParity then STOP_1 else DATA_9)
            && r.txste == IDLE && !r.edge && r.timer
  {
    hide Bit, Pow2, SetBit;
    LowBits(x, k);
    WholeByte(x);
    FirstBit(x);
  }

  lemma {:induction false} DataHeard(b: Port, para: Para, was: bool, x: byte, k: nat)
    requires Taking(b, x, k) && k < 8
    ensures var r := Hear(b, para, was, DataCells(x, k));
            && r.rxq == b.rxq && r.rxdata == x && r.rxste == (if para.pari == NoParity then STOP_1 else DATA_9)
            && r.txste == IDLE && !r.edge && r.timer
    decreases 8 - k
  {
    hide Bit, Pow2, SetBit, React;
    var now := Bit(x, k) == 1;
    BitTaken(b, para, was, x, k);
    assert DataCells(x, k)[1..] == DataCells(x, k + 1);
    if k < 7 {
      DataHeard(React(b, para, was, now), para, now, x, k + 1);
    } else {
      assert DataCells(x, 8) == [];
      WholeByte(x);
    }
  }

  /** After the data bits, one cell at rest behind the parity bit delivers the byte. */
  lemma TailHeard(b: Port, para: Para, was: bool, parity: bool, rest: nat)
    requires b.rxste == (if para.pari == NoParity then STOP_1 else DATA_9) && rest >= 1
    requires b.txste == IDLE && !b.edge && b.timer
    ensures var tail := (if para.pari == NoParity then [] else [parity]) + Rest(rest);
            Ready(Hear(b, para, was, tail)) && Hear(b, para, was, tail).rxq == b.rxq + [b.rxdata]
  {
    hide Bit, Pow2, SetBit;
    var mark := if para.pari == NoParity then [] else [parity];
    HearJoin(b, para, was, mark, Rest(rest));
    var level := Level(was, mark);
    var c := if para.pari == NoParity then b else React(b, para, was, parity);
    assert para.pari != NoParity ==> mark[1..] == [];
    assert Hear(b, para, was, mark) == c;
    assert Rest(rest)[1..] == Rest(rest - 1);
    RestHeard(React(c, para, level, true), para, true, rest - 1);
  }

  lemma FrameHeard(b: Port, para: Para, f: Frame)
    requires Ready(b) && f.rest >= 1
    ensures Ready(Hear(b, para, true, FrameCells(para, f)))
    ensures Hear(b, para, true, FrameCells(para, f)).rxq == b.rxq + [f.x]
  {
    hide Bit, Pow2, SetBit, DataCells, Ready;
    var c := StartHeard(b, para, f.x);
    var tail := (if para.pari == NoParity then [] else [f.parity]) + Rest(f.rest);
    assert FrameCells(para, f)[1..] == DataCells(f.x, 0) + tail;
    HearJoin(c, para, false, DataCells(f.x, 0), tail);
    DataHeard(c, para, false, f.x, 0);
    TailHeard(Hear(c, para, false, DataCells(f.x, 0)), para, Level(false, DataCells(f.x, 0)), f.parity, f.rest);
  }

  lemma StartHeard(b: Port, para: Para, x: byte) returns (c: Port)
    requires Ready(b)
    ensures c == React(b, para, true, false) && Taking(c, x, 0) && c.rxq == b.rxq
  {
    hide Bit, Pow2, SetBit;
    c := React(b, para, true, false);
  }

  /** Whatever the setting, the bytes, the levels of the parity bits and the pauses, and with
      one stop bit as with two: from a line whose frames follow each other without a pause or
      after one, exactly the bytes sent are received, in order. */
  lemma {:induction false} LineHeard(b: Port, para: Para, lead: nat, fs: seq<Frame>)
    requires Ready(b) && forall i :: 0 <= i < |fs| ==> fs[i].rest >= 1
    ensures var r := Hear(b, para, true, Rest(lead) + LineCells(para, fs));
            Ready(r) && r.rxq == b.rxq + BytesOf(fs)
  {
    hide Ready, FrameCells;
    RestHeard(b, para, true, lead);
    HearJoin(b, para, true, Rest(lead), LineCells(para, fs));
    FramesHeard(Hear(b, para, true, Rest(lead)), para, fs);
  }

  lemma {:induction false} FramesHeard(b: Port, para: Para, fs: seq<Frame>)
    requires Ready(b) && forall i :: 0 <= i < |fs| ==> fs[i].rest >= 1
    ensures var r := Hear(b, para, true, LineCells(para, fs));
            Ready(r) && r.rxq == b.rxq + BytesOf(fs)
    decreases |fs|
  {
    if fs == [] {
      assert b.rxq + [] == b.rxq;
    } else {
      hide Ready, FrameCells, React, Hear, Level;
      var one := FrameCells(para, fs[0]);
      var c := Hear(b, para, true, one);
      FrameHeard(b, para, fs[0]);
      EndsAtRest(para, fs[0]);
      HearJoin(b, para, true, one, LineCells(para, fs[1..]));
      FramesHeard(c, para, fs[1..]);
      AppendTwice(b.rxq, fs[0].x, BytesOf(fs[1..]));
    }
  }

  lemma AppendTwice(q: seq<byte>, x: byte, r: seq<byte>)
    ensures (q + [x]) + r == q + ([x] + r)
  {
  }

  lemma EndsAtRest(para: Para, f: Frame)
    requires f.rest >= 1
    ensures Level(true, FrameCells(para, f))
  {
  }

  /** The transmitter's own frame is one of these, its parity bit as set and its stop bits
      followed by four cells of pause. */
  lemma TransmittedFrame(para: Para, x: byte)
    ensures var rest := (if para.oneStop then 1 else 2) + 4;
            FrameCells(para, Frame(x, Cell(para, x, 9), rest)) ==
            seq(FrameLength(para), i requires 0 <= i < FrameLength(para) => Cell(para, x, i))
  {
    hide Bit, Pow2, ParityOf;
    var rest := (if para.oneStop then 1 else 2) + 4;
    var cells := FrameCells(para, Frame(x, Cell(para, x, 9), rest));
    assert |DataCells(x, 0)| == 8 by { DataCellAt(x, 0, 0); }
    forall i | 0 <= i < FrameLength(para)
      ensures cells[i] == Cell(para, x, i)
    {
      if 1 <= i <= 8 {
        DataCellAt(x, 0, i - 1);
      }
    }
  }

  lemma {:induction false} DataCellAt(x: byte, k: nat, i: nat)
    requires k + i < 8
    ensures |DataCells(x, k)| == 8 - k && DataCells(x, k)[i] == (Bit(x, k + i) == 1)
    decreases 8 - k
  {
    hide Bit;
    if k < 7 {
      DataCellAt(x, k + 1, if i > 0 then i - 1 else 0);
    } else {
      assert DataCells(x, 8) == [];
    }
  }

  // ---- A reply ----

  function Ticks(d: Port, para: Para, pins: seq<bool>): Port
    decreases |pins|
  {
    if pins == [] then d else Ticks(Tick(d, para, pins[0]), para, pins[1..])
  }

  /** Ticks until a receiver in state `s` is idle. */
  function RxLeft(para: Para, s: nat): (n: nat) {
    if s == IDLE || CellsSent(para, s) > FrameLength(para) then 0 else FrameLength(para) - CellsSent(para, s)
  }

  /** What holds of a port with a reply marked while it receives. */
  predicate ReplyWaiting(d: Port, was: Port) {
    d.txste == START_BIT && d.timer && d.txq == was.txq && d.out == was.out && d.edge == was.edge
  }

  lemma {:induction false} MarkedWaits(d: Port, para: Para, pins: seq<bool>)
    requires d.rxste != START_BIT && TxState(para, d.rxste) && |pins| <= RxLeft(para, d.rxste)
    requires d.txste == START_BIT && d.timer
    ensures ReplyWaiting(Ticks(d, para, pins), d)
    ensures Ticks(d, para, pins).rxste == IDLE <==> |pins| == RxLeft(para, d.rxste)
    decreases |pins|
  {
    hide Bit, Pow2, SetBit;
    if pins != [] {
      ReceiveCountsDown(d, para, pins[0]);
      MarkedWaits(Tick(d, para, pins[0]), para, pins[1..]);
    }
  }

  lemma ReceiveCountsDown(d: Port, para: Para, pin: bool)
    requires d.rxste > START_BIT && TxState(para, d.rxste) && d.txste == START_BIT && d.timer
    ensures var t := Tick(d, para, pin);
            && t.rxste != START_BIT && TxState(para, t.rxste) && RxLeft(para, t.rxste) == RxLeft(para, d.rxste) - 1
            && (t.rxste == IDLE <==> RxLeft(para, t.rxste) == 0)
            && ReplyWaiting(t, d)
  {
    hide RxTick;
    ReceiverStep(d, para, pin);
  }

  function RxNext(para: Para, s: nat): nat {
    if s == DATA_8 && para.pari == NoParity then STOP_1
    else if s == STOP_1 && para.oneStop then WAIT_1
    else if s == WAIT_4 then IDLE
    else s + 1
  }

  lemma ReceiverStep(d: Port, para: Para, pin: bool)
    requires d.rxste > START_BIT && TxState(para, d.rxste) && d.txste == START_BIT && d.timer
    ensures RxTick(d, para, pin).rxste == RxNext(para, d.rxste) && ReplyWaiting(RxTick(d, para, pin), d)
  {
    hide Bit, Pow2, SetBit;
  }

  /** A reply started while a byte is received, or in the pause after it, waits: nothing of it
      is on the line before the receiver is idle, the timer runs on, and the tick after that
      sends the start bit of its first byte. */
  lemma ReplyFollows(d: Port, para: Para, level: bool, pins: seq<bool>, pin: bool)
    requires d.rxste > START_BIT && TxState(para, d.rxste) && d.timer && d.txste == IDLE
    requires |pins| <= RxLeft(para, d.rxste)
    ensures var r := Ticks(TxStart(d, para, level), para, pins);
            && ReplyWaiting(r, d)
            && (r.rxste == IDLE <==> |pins| == RxLeft(para, d.rxste))
            && (r.rxste == IDLE && d.txq != [] ==>
                  var t := Tick(r, para, pin);
                  && t.timer && !t.out && t.txste == DATA_1 && t.txdata == d.txq[0] && t.txq == d.txq[1..]
                  && t.rxste == IDLE)
  {
    hide Bit, Pow2, SetBit;
    MarkedWaits(TxStart(d, para, level), para, pins);
  }

  // ---- Any order of interrupts ----

  datatype Happening = Falls | TimerTicks(pin: bool) | Starts(bytes: seq<byte>, pin: bool)

  /** An edge interrupts only while enabled, the timer only while it runs. */
  function Happens(d: Port, para: Para, h: Happening): Port {
    match h
    case Falls => if d.edge then Edge(d) else d
    case TimerTicks(pin) => if d.timer then Tick(d, para, pin) else d
    case Starts(bytes, pin) => TxStart(d.(txq := d.txq + bytes), para, pin)
  }

  function HappenAll(d: Port, para: Para, hs: seq<Happening>): Port
    decreases |hs|
  {
    if hs == [] then d else HappenAll(Happens(d, para, hs[0]), para, hs[1..])
  }

  predicate UnderWay(s: nat) {
    DATA_1 <= s <= STOP_1
  }

  /** The timer runs exactly while a machine works; the edge interrupt is off while the bits
      of a frame are received, and never stays off with nothing sent or received. */
  predicate Sane(d: Port, para: Para) {
    && TxState(para, d.rxste) && d.rxste != START_BIT && TxState(para, d.txste)
    && (d.timer <==> d.rxste != IDLE || d.txste != IDLE)
    && (UnderWay(d.rxste) ==> !d.edge)
    && (!UnderWay(d.rxste) && d.txste == IDLE ==> d.edge)
  }

  lemma HappeningKeepsSane(d: Port, para: Para, h: Happening)
    requires Sane(d, para)
    ensures Sane(Happens(d, para, h), para)
  {
    hide RxTick, TxTick;
    match h
    case Falls =>
    case TimerTicks(pin) =>
      if d.timer {
        TickKeepsSane(d, para, pin);
      }
    case Starts(bytes, pin) =>
      if d.txste == IDLE && d.rxste == IDLE {
        TransmitKeepsSane(d.(txq := d.txq + bytes, txste := START_BIT, edge := false, timer := true), para);
      }
  }

  lemma TickKeepsSane(d: Port, para: Para, pin: bool)
    requires Sane(d, para) && d.timer
    ensures Sane(Tick(d, para, pin), para)
  {
    if d.rxste != IDLE {
      ReceiveKeepsSane(d, para, pin);
    } else {
      TransmitKeepsSane(d, para);
    }
  }

  lemma ReceiveKeepsSane(d: Port, para: Para, pin: bool)
    requires Sane(d, para) && d.rxste != IDLE
    ensures Sane(RxTick(d, para, pin), para)
  {
    hide Bit, Pow2, SetBit;
  }

  lemma TransmitKeepsSane(d: Port, para: Para)
    requires Sane(d, para) && d.rxste == IDLE && d.txste != IDLE
    ensures Sane(TxTick(d, para), para)
  {
    hide Bit, Pow2, SetBit;
  }

  /** In whatever order edges, ticks and starts come, the port is never left deaf, nor its
      timer running for nothing, nor stopped with work to do. */
  lemma {:induction false} RunKeepsSane(para: Para, hs: seq<Happening>, d: Port)
    requires Sane(d, para)
    ensures Sane(AT_REST, para) && Sane(HappenAll(d, para, hs), para)
    decreases |hs|
  {
    hide Happens;
    if hs != [] {
      HappeningKeepsSane(d, para, hs[0]);
      RunKeepsSane(para, hs[1..], Happens(d, para, hs[0]));
    }
  }

  /** A stray tick stops the timer; a stray edge does not disturb a frame under way. */
  lemma StrayInterrupts(d: Port, para: Para, pin: bool)
    ensures d.rxste == IDLE && d.txste == IDLE ==> Tick(d, para, pin) == d.(timer := false)
    ensures !Edge(d).edge && DATA_1 <= Edge(d).rxste <= DATA_9
    ensures DATA_1 <= d.rxste <= DATA_9 ==> Edge(d) == d.(edge := false)
  {
  }

  // ---- The interrupt handlers as they run ----

  class SwUart {
    const para: Para
    var rxste: nat
    var rxdata: byte
    var txste: nat
    var txdata: byte
    var txpari: bool
    var timer: bool
    var edge: bool
    var out: bool
    var txq: seq<byte>
    var rxq: seq<byte>

    ghost function Now(): Port
      reads this
    {
      Port(rxste, rxdata, txste, txdata, txpari, timer, edge, out, txq, rxq)
    }

    constructor (para: Para)
      ensures Now() == AT_REST && this.para == para
    {
      this.para := para;
      rxste, rxdata, txste, txdata, txpari := IDLE, 0, IDLE, 0, false;
      timer, edge, out, txq, rxq := false, true, true, [], [];
    }

    /** swuart_RxStart */
    method RxStart()
      modifies this
      ensures Now() == Edge(old(Now()))
    {
      edge := false;
      if rxste < DATA_1 || rxste > DATA_9 {
        rxste := DATA_1;
        timer := true;
      }
    }

    /** swuart_RxTx, reading level `pin` */
    method RxTx(pin: bool)
      modifies this
      ensures Now() == Tick(old(Now()), para, pin)
    {
      if rxste != IDLE {
        Receive(pin);
        return;
      }
      if txste != IDLE {
        Transmit();
        return;
      }
      timer := false;
    }

    method Receive(pin: bool)
      requires rxste != IDLE
      modifies this
      ensures Now() == RxTick(old(Now()), para, pin)
    {
      hide Bit, Pow2, SetBit;
      if rxste == DATA_1 {
        timer := true;
        rxdata := if pin then 1 else 0;
        rxste := rxste + 1;
      } else if rxste == DATA_7 {
        if pin {
          rxdata := SetBit(rxdata, rxste - DATA_1);
        }
        rxste := rxste + 1;
      } else if rxste == DATA_8 {
        if pin {
          rxdata := SetBit(rxdata, rxste - DATA_1);
        }
        if para.pari == NoParity {
          rxste := STOP_1;
        } else {
          rxste := rxste + 1;
        }
      } else if rxste == DATA_9 {
        rxste := STOP_1;
      } else if rxste == STOP_1 {
        if txste == IDLE {
          edge := true;
        }
        rxste := if para.oneStop then WAIT_1 else STOP_2;
        rxq := rxq + [rxdata];
      } else if rxste == STOP_2 {
        rxste := WAIT_1;
      } else if WAIT_1 <= rxste < WAIT_4 {
        rxste := rxste + 1;
      } else if rxste == WAIT_4 {
        if txste == IDLE {
          timer := false;
        }
        rxste := IDLE;
      } else {
        if pin && DATA_1 < rxste < DATA_7 {
          rxdata := SetBit(rxdata, rxste - DATA_1);
        }
        rxste := rxste + 1;
      }
    }

    method Transmit()
      requires txste != IDLE
      modifies this
      ensures Now() == TxTick(old(Now()), para)
    {
      hide Bit, Pow2;
      if txste == START_BIT {
        if txq == [] {
          txste := IDLE;
          if rxste == IDLE {
            edge := true;
            timer := false;
          }
        } else {
          txdata, txq := txq[0], txq[1..];
          txpari := false;
          out := false;
          txste := DATA_1;
        }
      } else if txste == DATA_8 {
        SendBit(7);
        txste := if para.pari == NoParity then STOP_1 else txste + 1;
      } else if txste == DATA_9 {
        if para.pari == Even {
          out := txpari;
        } else {
          out := !txpari;
        }
        txste := STOP_1;
      } else if txste == STOP_1 {
        out := true;
        txste := if para.oneStop then WAIT_1 else STOP_2;
      } else if STOP_2 <= txste < WAIT_4 {
        txste := txste + 1;
      } else if txste == WAIT_4 {
        txste := START_BIT;
      } else {
        SendBit(txste - DATA_1);
        txste := txste + 1;
      }
    }

    /** A data bit onto the pin, counted into the parity. */
    method SendBit(k: nat)
      modifies this`out, this`txpari
      ensures out == (Bit(txdata, k) == 1) && txpari == (old(txpari) != (Bit(txdata, k) == 1))
    {
      if Bit(txdata, k) == 1 {
        out := true;
        txpari := !txpari;
      } else {
        out := false;
      }
    }

    /** swuart_TxStart */
    method Start(pin: bool)
      modifies this
      ensures Now() == TxStart(old(Now()), para, pin)
    {
      if txste == IDLE {
        txste := START_BIT;
        if rxste == IDLE {
          edge := false;
          timer := true;
          RxTx(pin);
        }
      }
    }
  }
}
