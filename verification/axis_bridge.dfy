/** The clocked bridge: a transmit and a receive thread around a packet FIFO, suspended between clock edges. */
module AxisBridges {
  import opened Sequences
  import opened AxiStream

  const FIFO_DEPTH: nat := 4

  /** Where the transmit thread is suspended: in the reset wait, in the FIFO read, on a beat, in the idle cycle. */
  datatype TxPoint = AtReset | Blocked | AtBeat | AtIdle

  /** The transmit thread with its FIFO and the master ports it drives. */
  datatype TxState = TxState(at: TxPoint, packet: Packet, offset: nat, tvalid: bool, port: Beat, fifo: seq<Packet>)

  const TX_START: TxState := TxState(AtReset, [], 0, false, Beat(0, 0, false), [])

  /** The head of the inner loop: the next beat, or the idle cycle once the packet is out. */
  function Present(s: TxState): TxState {
    if s.offset < |s.packet| then
      s.(at := AtBeat, tvalid := true, port := BeatAt(s.packet, s.offset))
    else
      s.(at := AtIdle, tvalid := false, port := s.port.(tlast := false))
  }

  /** The head of the outer loop: a blocking read of the FIFO. */
  function Fetch(s: TxState): TxState {
    if s.fifo == [] then s.(at := Blocked)
    else Present(s.(packet := s.fifo[0], offset := 0, fifo := s.fifo[1..]))
  }

  /** A rising clock edge at which TREADY is sampled. */
  function TxEdge(s: TxState, tready: bool): TxState {
    match s.at
    case AtReset => Fetch(s)
    case AtIdle => Fetch(s)
    case Blocked => s
    case AtBeat =>
      if tready && s.offset < |s.packet| then Present(s.(offset := s.offset + Chunk(s.packet, s.offset))) else s
  }

  /** The blocked FIFO read returns, between edges. */
  function TxWake(s: TxState): TxState {
    if s.at == Blocked && s.fifo != [] then Fetch(s) else s
  }

  predicate HasRoom(s: TxState) { |s.fifo| < FIFO_DEPTH }

  /** A push is dropped when the FIFO is full. */
  function Pushed(s: TxState, p: Packet): TxState {
    if HasRoom(s) then s.(fifo := s.fifo + [p]) else s
  }

  /** Where the receive thread is suspended: in the reset wait, between packets, after a sampled beat, between
      beats of one packet. */
  datatype RxPoint = RxReset | BetweenPackets | Sampled | BetweenBeats

  datatype RxState = RxState(at: RxPoint, packet: Packet, last: bool, delivered: seq<Packet>)

  const RX_START: RxState := RxState(RxReset, [], false, [])

  function Sample(s: RxState, tvalid: bool, beat: Beat, otherwise: RxPoint): RxState {
    if tvalid then s.(at := Sampled, packet := s.packet + Payload(beat), last := beat.tlast)
    else s.(at := otherwise)
  }

  /** A rising clock edge: the packet completed by the beat before is delivered, and a valid beat is sampled. */
  function RxEdge(s: RxState, tvalid: bool, beat: Beat): RxState {
    match s.at
    case RxReset => Sample(s.(packet := []), tvalid, beat, BetweenPackets)
    case BetweenPackets => Sample(s.(packet := []), tvalid, beat, BetweenPackets)
    case BetweenBeats => Sample(s, tvalid, beat, BetweenBeats)
    case Sampled =>
      if s.last then Sample(s.(packet := [], delivered := s.delivered + [s.packet]), tvalid, beat, BetweenPackets)
      else Sample(s, tvalid, beat, BetweenBeats)
  }

  class AxisBridge {
    var txAt: TxPoint
    var txPacket: Packet
    var offset: nat
    var mTvalid: bool
    var mPort: Beat
    var txFifo: seq<Packet>

    var rxAt: RxPoint
    var rxPacket: Packet
    var last: bool
    var sTready: bool
    /** What on_rx has been called with. */
    var delivered: seq<Packet>

    ghost function Tx(): TxState
      reads this
    {
      TxState(txAt, txPacket, offset, mTvalid, mPort, txFifo)
    }

    ghost function Rx(): RxState
      reads this
    {
      RxState(rxAt, rxPacket, last, delivered)
    }

    /** A thread on a beat still has octets to send. */
    ghost predicate Valid()
      reads this
    {
      (txAt == AtBeat ==> offset < |txPacket|) && sTready
    }

    /** Both threads run to their first wait. */
    constructor ()
      ensures Valid() && Tx() == TX_START && Rx() == RX_START
    {
      txAt, txPacket, offset, txFifo := AtReset, [], 0, [];
      mTvalid, mPort := false, Beat(0, 0, false);
      rxAt, rxPacket, last, delivered := RxReset, [], false, [];
      sTready := true;
    }

    method PushTxPacket(p: Packet) returns (ok: bool)
      requires Valid()
      modifies this`txFifo
      ensures Valid() && Tx() == Pushed(old(Tx()), p)
      ensures ok == HasRoom(old(Tx())) && (ok <==> |old(txFifo)| < 4)
      ensures txFifo == if ok then old(txFifo) + [p] else old(txFifo)
    {
      ok := |txFifo| < FIFO_DEPTH;
      if ok { txFifo := txFifo + [p]; }
    }

    /** Drives the next beat, or the idle cycle. */
    method PresentBeat()
      modifies this`txAt, this`mTvalid, this`mPort
      ensures txAt == AtBeat ==> offset < |txPacket|
      ensures Tx() == Present(old(Tx()))
    {
      if offset < |txPacket| {
        mPort := PackBeat(txPacket, offset);
        mTvalid := true;
        txAt := AtBeat;
      } else {
        mTvalid := false;
        mPort := mPort.(tlast := false);
        txAt := AtIdle;
      }
    }

    /** Reads the FIFO and starts the packet; stays in the read while there is none. */
    method FetchPacket()
      modifies this`txAt, this`txPacket, this`offset, this`mTvalid, this`mPort, this`txFifo
      ensures txAt == AtBeat ==> offset < |txPacket|
      ensures Tx() == Fetch(old(Tx()))
    {
      if txFifo == [] {
        txAt := Blocked;
      } else {
        txPacket, offset := txFifo[0], 0;
        txFifo := txFifo[1..];
        PresentBeat();
      }
    }

    /** The blocked read returns as soon as a packet is there. */
    method WakeTx()
      requires Valid()
      modifies this`txAt, this`txPacket, this`offset, this`mTvalid, this`mPort, this`txFifo
      ensures Valid() && Tx() == TxWake(old(Tx()))
    {
      if txAt == Blocked && txFifo != [] { FetchPacket(); }
    }

    /** Runs the transmit thread from one wait to the next. */
    method ResumeTx(tready: bool)
      requires Valid()
      modifies this`txAt, this`txPacket, this`offset, this`mTvalid, this`mPort, this`txFifo
      ensures Valid() && Tx() == TxEdge(old(Tx()), tready)
    {
      if txAt == AtBeat {
        if tready {
          var remaining := |txPacket| - offset;
          offset := offset + if remaining >= TDATA_BYTES then TDATA_BYTES else remaining;
          PresentBeat();
        }
      } else if txAt != Blocked {
        FetchPacket();
      }
    }

    /** Runs the receive thread from one wait to the next; the packet a last beat completed goes to on_rx first. */
    method ResumeRx(tvalid: bool, beat: Beat)
      requires Valid()
      modifies this`rxAt, this`rxPacket, this`last, this`delivered
      ensures Valid() && Rx() == RxEdge(old(Rx()), tvalid, beat)
    {
      if rxAt == Sampled && last {
        delivered := delivered + [rxPacket];
      }
      var inPacket := rxAt == BetweenBeats || (rxAt == Sampled && !last);
      if !inPacket { rxPacket := []; }
      if tvalid {
        rxPacket := UnpackBeat(rxPacket, beat);
        last := beat.tlast;
        rxAt := Sampled;
      } else {
        rxAt := if inPacket then BetweenBeats else BetweenPackets;
      }
    }
  }
}
