/** Both engines together: frames generated by one stack travel over a transport and are decoded by another. */
module EndToEnd {
  import opened Bits
  import opened Sequences
  import opened Layout
  import opened PacketBuilding
  import opened StackCodec
  import opened EncodePassLaws
  import opened StackLaws
  import opened Stacks
  import opened Sessions
  import opened FrameRuns
  import B = ByteStreams
  import S = SocketLaws
  import P = PcapFiles
  import L = PcapLaws
  import T = Transport
  import K = StackBuilders

  /** Decodes what was taken of the first m frames of a run: the reports tell whether it is all there. */
  method Reporting(rx: Session, rxStack: Stack, taken: seq<Packet>, ghost other: StackState, ghost st: StackState,
                   ghost draws: Draws, ghost pos: nat, ghost n: nat, ghost m: nat)
    returns (reports: seq<StackedPacket>)
    requires rxStack.Valid() && rxStack.Shows(rx.interfaceFor, other) && Clean(other)
    requires Clean(st) && Codable(st, rx.db) && SameBinding(other, st) && m <= n
    modifies ContextSet(rxStack.mLayers)`mFields, ModuleSet(rxStack.mLayers)
    ensures var first, seen := NonEmpty(Frames(st, rx.db, draws, pos, n)[..m]), Seen(st, rx.db, draws, pos, m);
            (reports == seen <==> taken == first) && (taken <= first ==> reports <= seen)
  {
    reports := DecodeFrames(rx, rxStack, taken, other);
    SeenOfFirst(st, other, rx.db, draws, pos, n, m, taken);
  }

  /** n frames generated on one stack, sent over the socket whatever its system calls do, and decoded by a second stack
      bound alike. Exactly the frames whose send succeeded are reported, in order, each layer as generated with its
      values modulo 2^min(width, 64); then the end. Without an error all are sent; when a read fails, a front of them is
      reported. A layout of no octets shows nothing. */
  method AcrossSocket(tx: Session, txStack: Stack, rx: Session, rxStack: Stack, n: nat, written: seq<B.Event>,
                      readings: seq<B.Event>, ghost st: StackState, ghost other: StackState)
    returns (sent: nat, reports: seq<StackedPacket>, status: B.Status)
    requires txStack.Valid() && txStack.Shows(tx.interfaceFor, st) && Clean(st) && Codable(st, tx.db)
    requires rxStack.Valid() && rxStack.Shows(rx.interfaceFor, other) && Clean(other)
    requires rx.db == tx.db && SameBinding(other, st) && Separate(txStack, rxStack)
    modifies ContextSet(txStack.mLayers)`mFields, ModuleSet(txStack.mLayers), tx.mBuilder`pos
    modifies ContextSet(rxStack.mLayers)`mFields, ModuleSet(rxStack.mLayers)
    ensures sent <= n && (B.Failed !in written ==> sent == n)
    ensures reports <= Seen(st, tx.db, tx.mBuilder.draws, old(tx.mBuilder.pos), sent)
    ensures B.Failed !in readings ==>
              status == B.EndOfFile && reports == Seen(st, tx.db, tx.mBuilder.draws, old(tx.mBuilder.pos), sent)
  {
    ghost var pos := tx.mBuilder.pos;
    var packets := GenerateBeside(tx, txStack, n, st, rxStack, rx.interfaceFor, other);
    var taken;
    sent, taken, status := SocketTrip(packets, written, readings);
    reports := Reporting(rx, rxStack, taken, other, st, tx.mBuilder.draws, pos, n, sent);
  }

  /** Over the socket with nothing cut. */
  method SocketTrip(packets: seq<Packet>, written: seq<B.Event>, readings: seq<B.Event>)
    returns (sent: nat, taken: seq<Packet>, status: B.Status)
    ensures sent <= |packets| && (B.Failed !in written ==> sent == |packets|)
    ensures taken <= NonEmpty(packets[..sent])
    ensures B.Failed !in readings ==> status == B.EndOfFile && taken == NonEmpty(packets[..sent])
  {
    var most := |S.Stream(packets)|;
    sent, taken, status := T.OverSocket(packets, written, most, readings);
    S.StreamFront(packets, sent);
  }

  /** The packets as captures, all with the same time stamp. */
  function Stamped(packets: seq<Packet>, sec: u32, usec: u32): (cs: seq<L.Capture>)
    ensures |cs| == |packets|
  {
    if packets == [] then [] else [L.Capture(packets[0], sec, usec)] + Stamped(packets[1..], sec, usec)
  }

  lemma {:induction false} StampedPackets(packets: seq<Packet>, sec: u32, usec: u32, n: nat)
    requires n <= |packets|
    ensures L.Packets(Stamped(packets, sec, usec)[..n]) == packets[..n]
    ensures L.AllBelow4G(Stamped(packets, sec, usec)) <==> AllShorter(packets, 0x1_0000_0000)
  {
    if packets != [] {
      var cs := Stamped(packets, sec, usec);
      StampedPackets(packets[1..], sec, usec, if n > 0 then n - 1 else 0);
      assert cs == [cs[0]] + cs[1..] && packets == [packets[0]] + packets[1..];
      assert cs[1..] == Stamped(packets[1..], sec, usec);
      assert L.Below4G(cs[0]) <==> |packets[0]| < 0x1_0000_0000;
      if n > 0 { assert cs[..n][1..] == cs[1..][..n - 1]; }
    }
  }

  /** What a capture file lets through. quiet: no read fails. */
  predicate Filed(packets: seq<Packet>, sent: nat, taken: seq<Packet>, status: B.Status, quiet: bool)
    requires sent <= |packets|
  {
    && (AllShorter(packets, 0x1_0000_0000) ==>
          taken <= NonEmpty(packets[..sent]) && (quiet ==> taken == NonEmpty(packets[..sent])))
    && (quiet && sent == |packets| && status != B.OpenFailed ==>
          (taken == NonEmpty(packets) && status == B.EndOfFile <==> AllShorter(packets, 0x1_0000_0000)))
  }

  /** Through a capture file, all packets recorded at one time. */
  method FileTrip(packets: seq<Packet>, sender: P.Order, receiver: P.Order, sec: u32, usec: u32,
                  written: seq<B.Event>, readings: seq<B.Event>)
    returns (sent: nat, taken: seq<Packet>, status: B.Status)
    ensures sent <= |packets| && (T.Smooth(written) ==> sent == |packets|)
    ensures T.Smooth(written) && B.Failed !in readings ==> status != B.OpenFailed
    ensures Filed(packets, sent, taken, status, B.Failed !in readings)
  {
    var captures := Stamped(packets, sec, usec);
    sent, taken, status := T.OverFile(captures, sender, receiver, written, readings);
    StampedPackets(packets, sec, usec, sent);
    assert sent == |packets| ==> captures[..sent] == captures && packets[..sent] == packets;
  }

  /** Reports of a run that went through a file. Of frames under 2^32 octets a front of those sent, all of them when no
      read fails. When all were sent and the file opened: all, and then the end, if and only if a frame is under 2^32
      octets or there is none. */
  ghost predicate FileReported(st: StackState, db: VarDb, draws: Draws, pos: nat, n: nat, sent: nat,
                               reports: seq<StackedPacket>, status: B.Status, quiet: bool)
  {
    && (OffsetTo(st, |st|, db) < 0x1_0000_0000 ==>
          && reports <= Seen(st, db, draws, pos, sent)
          && (quiet ==> reports == Seen(st, db, draws, pos, sent)))
    && (quiet && sent == n && status != B.OpenFailed ==>
          (reports == Seen(st, db, draws, pos, n) && status == B.EndOfFile
           <==> n == 0 || OffsetTo(st, |st|, db) < 0x1_0000_0000))
  }

  lemma {:induction false} FiledReported(st: StackState, db: VarDb, draws: Draws, pos: nat, n: nat, sent: nat,
                                         taken: seq<Packet>, reports: seq<StackedPacket>, status: B.Status,
                                         quiet: bool)
    requires Clean(st) && Codable(st, db) && sent <= n
    requires var frames, seen := Frames(st, db, draws, pos, n), Seen(st, db, draws, pos, sent);
             && Filed(frames, sent, taken, status, quiet)
             && (reports == seen <==> taken == NonEmpty(frames[..sent]))
             && (taken <= NonEmpty(frames[..sent]) ==> reports <= seen)
    ensures FileReported(st, db, draws, pos, n, sent, reports, status, quiet)
  {
    var frames := Frames(st, db, draws, pos, n);
    FramesBelow(st, db, draws, pos, n, 0x1_0000_0000);
    assert sent == n ==> frames[..sent] == frames;
    if n == 0 { assert frames == []; }
  }

  /** The same through a capture file between machines of any byte order. */
  method AcrossFile(tx: Session, txStack: Stack, rx: Session, rxStack: Stack, n: nat, sender: P.Order,
                    receiver: P.Order, sec: u32, usec: u32, written: seq<B.Event>, readings: seq<B.Event>,
                    ghost st: StackState, ghost other: StackState)
    returns (sent: nat, reports: seq<StackedPacket>, status: B.Status)
    requires txStack.Valid() && txStack.Shows(tx.interfaceFor, st) && Clean(st) && Codable(st, tx.db)
    requires rxStack.Valid() && rxStack.Shows(rx.interfaceFor, other) && Clean(other)
    requires rx.db == tx.db && SameBinding(other, st) && Separate(txStack, rxStack)
    modifies ContextSet(txStack.mLayers)`mFields, ModuleSet(txStack.mLayers), tx.mBuilder`pos
    modifies ContextSet(rxStack.mLayers)`mFields, ModuleSet(rxStack.mLayers)
    ensures sent <= n && (T.Smooth(written) ==> sent == n)
    ensures T.Smooth(written) && B.Failed !in readings ==> status != B.OpenFailed
    ensures FileReported(st, tx.db, tx.mBuilder.draws, old(tx.mBuilder.pos), n, sent, reports, status,
                         B.Failed !in readings)
  {
    ghost var pos := tx.mBuilder.pos;
    var packets := GenerateBeside(tx, txStack, n, st, rxStack, rx.interfaceFor, other);
    var taken;
    sent, taken, status := FileTrip(packets, sender, receiver, sec, usec, written, readings);
    reports := Reporting(rx, rxStack, taken, other, st, tx.mBuilder.draws, pos, n, sent);
    FiledReported(st, tx.db, tx.mBuilder.draws, pos, n, sent, taken, reports, status, B.Failed !in readings);
  }

  /** From layer entries to reports: both stacks built from the same entries, then the socket. */
  method BuiltAcrossSocket(tx: Session, rx: Session, entries: seq<K.LayerEntry>, services: K.Services,
                           registry: K.Registry, n: nat, written: seq<B.Event>, readings: seq<B.Event>)
    returns (status: K.BuildStatus, sent: nat, reports: seq<StackedPacket>, last: B.Status)
    requires rx.db == tx.db && rx.interfaceFor == tx.interfaceFor
    requires K.AllBind(entries, services, registry) ==>
               Codable(K.NewStack(entries, services, registry, tx.interfaceFor), tx.db)
    modifies tx.mBuilder`pos
    ensures K.Outcome(entries, services, registry, status)
    ensures status == K.StackSuccess ==>
              && sent <= n && (B.Failed !in written ==> sent == n)
              && var st := K.NewStack(entries, services, registry, tx.interfaceFor);
                 var seen := Seen(st, tx.db, tx.mBuilder.draws, old(tx.mBuilder.pos), sent);
                 reports <= seen && (B.Failed !in readings ==> last == B.EndOfFile && reports == seen)
  {
    sent, reports, last := 0, [], B.EndOfFile;
    var txStack, rxStack;
    status, txStack := K.Build("tx", entries, services, registry, tx.interfaceFor);
    if txStack == null { return; }
    status, rxStack := K.Build("rx", entries, services, registry, rx.interfaceFor);
    if rxStack == null { return; }
    ghost var st := K.NewStack(entries, services, registry, tx.interfaceFor);
    sent, reports, last := AcrossSocket(tx, txStack, rx, rxStack, n, written, readings, st, st);
  }
}
