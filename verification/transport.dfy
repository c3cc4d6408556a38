/** The command line's send and receive loops over a transport, from packets to packets. */
module Transport {
  import opened Bits
  import opened Sequences
  import AxiStream
  import opened ByteStreams
  import V = VerilatorSockets
  import S = SocketLaws
  import P = PcapFiles
  import L = PcapLaws

  /** Sends the packets one by one and stops at the first failure, which leaves the packet unfinished. */
  method SendLoop(sender: V.VerilatorSender, packets: seq<Packet>) returns (sent: nat)
    requires sender.socket != null && sender.socket.Valid()
    modifies sender.socket
    ensures sender.socket != null && sender.socket.Valid() && sender.socket.pos == old(sender.socket.pos)
    ensures sent <= |packets| && old(sender.socket.data) + S.Stream(packets[..sent]) <= sender.socket.data
    ensures if sent == |packets| then sender.socket.data == old(sender.socket.data) + S.Stream(packets)
            else sender.socket.data < old(sender.socket.data) + S.Stream(packets[..sent + 1])
    ensures old(sender.socket.Sound()) ==> sent == |packets| && sender.socket.Sound()
  {
    ghost var before := sender.socket.data;
    sent := 0;
    assert before + S.Stream(packets[..0]) == before;
    while sent < |packets|
      invariant sent <= |packets| && sender.socket.Valid() && sender.socket.pos == old(sender.socket.pos)
      invariant sender.socket.data == before + S.Stream(packets[..sent])
      invariant old(sender.socket.Sound()) ==> sender.socket.Sound()
    {
      var status := sender.Send(packets[sent]);
      S.StreamStep(packets[..sent], packets[sent]);
      assert packets[..sent + 1] == packets[..sent] + [packets[sent]];
      Assoc(before, S.Stream(packets[..sent]), V.BeatsBytes(AxiStream.Beats(packets[sent], 0)));
      if status != Success { return; }
      sent := sent + 1;
    }
    assert packets[..sent] == packets;
  }

  /** Receives up to the end, or until count packets have come; empty ones are skipped. The last status is the end's
      when everything was taken, a success when the count was reached first. */
  method ReceiveLoop(receiver: V.VerilatorReceiver, count: nat) returns (status: Status, taken: seq<Packet>)
    requires receiver.socket != null && receiver.socket.Valid()
    modifies receiver.socket
    ensures receiver.socket != null && receiver.socket.Valid()
    ensures status == Success || status == EndOfFile || status == ReceiveFailed
    ensures taken <= NonEmpty(S.ReceivedAll(old(receiver.socket.Rest())))
    ensures status == EndOfFile ==> taken == NonEmpty(S.ReceivedAll(old(receiver.socket.Rest())))
    ensures status == Success ==> |taken| == count > 0
    ensures old(receiver.socket.Sound()) ==> status != ReceiveFailed
  {
    ghost var all := S.ReceivedAll(receiver.socket.Rest());
    ghost var done: seq<Packet> := [];
    taken := [];
    while count == 0 || |taken| < count
      invariant receiver.socket.Valid() && (old(receiver.socket.Sound()) ==> receiver.socket.Sound())
      invariant taken == NonEmpty(done) && (count > 0 ==> |taken| <= count)
      invariant all == done + S.ReceivedAll(receiver.socket.Rest())
      decreases |receiver.socket.Rest()|
    {
      NonEmptyFront(done, S.ReceivedAll(receiver.socket.Rest()));
      var err, packet := ReceiveNext(receiver, done, all);
      if err != Success { return err, taken; }
      done := done + [packet];
      if packet != [] { taken := taken + [packet]; }
    }
    NonEmptyFront(done, S.ReceivedAll(receiver.socket.Rest()));
    return Success, taken;
  }

  /** One receive call of the loop: done has come of all, the unread bytes hold the rest. */
  method ReceiveNext(receiver: V.VerilatorReceiver, ghost done: seq<Packet>, ghost all: seq<Packet>)
    returns (status: Status, packet: Packet)
    requires receiver.socket != null && receiver.socket.Valid()
    requires all == done + S.ReceivedAll(receiver.socket.Rest())
    modifies receiver.socket
    ensures receiver.socket.Valid() && (old(receiver.socket.Sound()) ==> receiver.socket.Sound())
    ensures status == Success || status == EndOfFile || (status == ReceiveFailed && !old(receiver.socket.Sound()))
    ensures status == Success ==>
              && |receiver.socket.Rest()| < |old(receiver.socket.Rest())|
              && all == done + [packet] + S.ReceivedAll(receiver.socket.Rest())
              && NonEmpty(done + [packet]) == NonEmpty(done) + if packet == [] then [] else [packet]
    ensures status == EndOfFile ==> all == done
  {
    ghost var rest := receiver.socket.Rest();
    status, packet := receiver.Receive();
    if status == Success { Turn(done, rest, packet, receiver.socket.Rest()); }
  }

  /** One packet more. */
  lemma {:induction false} Turn(done: seq<Packet>, rest: seq<byte>, packet: Packet, rest1: seq<byte>)
    requires V.Receiving(rest, []) == V.Reception(Success, packet, rest1)
    ensures |rest1| < |rest|
    ensures done + S.ReceivedAll(rest) == done + [packet] + S.ReceivedAll(rest1)
    ensures NonEmpty(done + [packet]) == NonEmpty(done) + if packet == [] then [] else [packet]
  {
    NonEmptyPush(done, packet);
    Assoc(done, [packet], S.ReceivedAll(rest1));
  }

  lemma {:induction false} NonEmptyFront(ps: seq<Packet>, qs: seq<Packet>)
    ensures NonEmpty(ps) <= NonEmpty(ps + qs)
    decreases |qs|
  {
    if qs == [] {
      assert ps + qs == ps;
    } else {
      NonEmptyFront(ps, qs[..|qs| - 1]);
      assert ps + qs == ps + qs[..|qs| - 1] + [qs[|qs| - 1]];
      NonEmptyPush(ps + qs[..|qs| - 1], qs[|qs| - 1]);
    }
  }

  /** The first packets lie whole on the stream, and at most a part of the next. */
  predicate OnStream(data: seq<byte>, packets: seq<Packet>, sent: nat)
    requires sent <= |packets|
  {
    && S.Stream(packets[..sent]) <= data
    && if sent == |packets| then data == S.Stream(packets) else data < S.Stream(packets[..sent + 1])
  }

  /** Of the first packets in order, none but the non-empty ones, and all of those whose beats lie in the first n
      octets. */
  predicate ArrivesUpTo(taken: seq<Packet>, packets: seq<Packet>, sent: nat, n: nat)
    requires sent <= |packets|
  {
    && taken <= NonEmpty(packets[..sent])
    && forall k: nat | k <= sent && |S.Stream(packets[..k])| <= n :: NonEmpty(packets[..k]) <= taken
  }

  /** The socket transport end to end, whatever its system calls do and wherever the stream is cut: only packets whose
      send succeeded arrive, in order, and of those at least the ones before the cut; when nothing is cut, all. */
  method OverSocket(packets: seq<Packet>, written: seq<Event>, cut: nat, readings: seq<Event>)
    returns (sent: nat, taken: seq<Packet>, status: Status)
    ensures sent <= |packets| && (Failed !in written ==> sent == |packets|)
    ensures status == EndOfFile || status == ReceiveFailed
    ensures taken <= NonEmpty(packets[..sent])
    ensures Failed !in readings ==> status == EndOfFile && ArrivesUpTo(taken, packets, sent, cut)
  {
    var data;
    sent, data := Outgoing(packets, written);
    var arrived := if cut < |data| then data[..cut] else data;
    Arrives(packets, sent, data, cut);
    var receiver := new V.VerilatorReceiver();
    receiver.socket := new Stream(arrived, readings);
    assert receiver.socket.data[0..] == arrived;
    status, taken := ReceiveLoop(receiver, 0);
  }

  /** What a sender leaves on a fresh stream. */
  method Outgoing(packets: seq<Packet>, written: seq<Event>) returns (sent: nat, data: seq<byte>)
    ensures sent <= |packets| && (Failed !in written ==> sent == |packets|)
    ensures OnStream(data, packets, sent)
  {
    var outgoing := new Stream([], written);
    var sender := new V.VerilatorSender();
    sender.socket := outgoing;
    sent := SendLoop(sender, packets);
    data := outgoing.data;
    assert forall k | 0 <= k <= |packets| :: [] + S.Stream(packets[..k]) == S.Stream(packets[..k]);
  }

  lemma {:induction false} Arrives(packets: seq<Packet>, sent: nat, data: seq<byte>, cut: nat)
    requires sent <= |packets| && OnStream(data, packets, sent)
    ensures var arrived := if cut < |data| then data[..cut] else data;
            ArrivesUpTo(NonEmpty(S.ReceivedAll(arrived)), packets, sent, cut)
  {
    var ps := packets[..sent];
    var arrived := if cut < |data| then data[..cut] else data;
    if cut <= |S.Stream(ps)| {
      assert arrived == S.Stream(ps)[..cut];
      CutArrives(packets, sent, cut);
    } else {
      if sent == |packets| { assert ps == packets; }
      AllArrive(packets, sent, arrived);
      Fronts(packets, sent);
    }
  }

  /** Nothing of the first packets is lost. */
  lemma {:induction false} AllArrive(packets: seq<Packet>, sent: nat, arrived: seq<byte>)
    requires sent <= |packets| && OnStream(arrived, packets, sent)
    ensures NonEmpty(S.ReceivedAll(arrived)) == NonEmpty(packets[..sent])
  {
    var ps := packets[..sent];
    if sent == |packets| {
      assert ps == packets;
      S.SocketRoundTrip(packets);
    } else {
      assert packets[..sent + 1] == ps + [packets[sent]];
      S.UnfinishedPacket(ps, packets[sent], arrived);
    }
    PrefixNonEmpty(NonEmpty(ps), ps);
  }

  lemma {:induction false} Fronts(packets: seq<Packet>, sent: nat)
    requires sent <= |packets|
    ensures forall k | 0 <= k <= sent :: NonEmpty(packets[..k]) <= NonEmpty(packets[..sent])
  {
    forall k | 0 <= k <= sent ensures NonEmpty(packets[..k]) <= NonEmpty(packets[..sent]) {
      NonEmptyFront(packets[..k], packets[k..sent]);
      assert packets[..k] + packets[k..sent] == packets[..sent];
    }
  }

  /** What is left of the first packets by a cut in them. */
  lemma {:induction false} CutArrives(packets: seq<Packet>, sent: nat, n: nat)
    requires sent <= |packets| && n <= |S.Stream(packets[..sent])|
    ensures ArrivesUpTo(NonEmpty(S.ReceivedAll(S.Stream(packets[..sent])[..n])), packets, sent, n)
  {
    var ps := packets[..sent];
    var got := S.ReceivedAll(S.Stream(ps)[..n]);
    assert ps[..0] == [];
    S.SocketCut(ps, 0, n);
    PrefixNonEmpty(got, ps);
    forall k: nat | k <= sent && |S.Stream(packets[..k])| <= n ensures NonEmpty(packets[..k]) <= got {
      assert ps[..k] == packets[..k];
      S.SocketCut(ps, k, n);
    }
  }

  /** A prefix of a list without empty packets has none. */
  lemma {:induction false} PrefixNonEmpty(got: seq<Packet>, packets: seq<Packet>)
    requires got <= NonEmpty(packets)
    ensures NonEmpty(got) == got
  {
    if got != [] {
      var n := |got| - 1;
      PrefixNonEmpty(got[..n], packets);
      S.NoEmptyLeft(packets, n);
    }
  }

  /** Records the captures one by one and stops at the first failure, which leaves the record unfinished. */
  method RecordLoop(sender: P.PcapSender, captures: seq<L.Capture>) returns (sent: nat)
    requires sender.file != null && sender.file.Valid()
    modifies sender.file
    ensures sender.file != null && sender.file.Valid() && sent <= |captures|
    ensures old(sender.file.data) + L.Records(captures[..sent], L.Header(sender.host)) <= sender.file.data
    ensures if sent == |captures|
            then sender.file.data == old(sender.file.data) + L.Records(captures, L.Header(sender.host))
            else sender.file.data < old(sender.file.data) + L.Records(captures[..sent + 1], L.Header(sender.host))
    ensures old(sender.file.Smooth()) ==> sent == |captures|
  {
    ghost var before := sender.file.data;
    ghost var header := L.Header(sender.host);
    sent := 0;
    assert before + L.Records(captures[..0], header) == before;
    while sent < |captures|
      invariant sent <= |captures| && sender.file.Valid()
      invariant sender.file.data == before + L.Records(captures[..sent], header)
      invariant old(sender.file.Smooth()) ==> sender.file.Smooth()
    {
      var c := captures[sent];
      var status := sender.Send(c.packet, c.sec, c.usec);
      RecordStep(captures, sent, sender.host);
      Assoc(before, L.Records(captures[..sent], header), P.Record(c.packet, c.sec, c.usec, sender.host));
      if status != Success { return; }
      sent := sent + 1;
    }
    assert captures[..sent] == captures;
  }

  /** One record more. */
  lemma {:induction false} RecordStep(cs: seq<L.Capture>, k: nat, o: P.Order)
    requires k < |cs|
    ensures L.Records(cs[..k + 1], L.Header(o))
         == L.Records(cs[..k], L.Header(o)) + P.Record(cs[k].packet, cs[k].sec, cs[k].usec, o)
  {
    var header := L.Header(o);
    L.RecordsSplit(cs[..k + 1], k, header);
    assert cs[..k + 1][..k] == cs[..k] && cs[..k + 1][k..] == [cs[k]];
    assert L.Records([cs[k]], header) == header(cs[k]) + cs[k].packet + L.Records([], header);
  }

  /** done holds what has come of all, and the unread bytes hold the rest. */
  ghost predicate Between(done: seq<Packet>, rest: L.Replay, all: L.Replay) {
    all.packets == done + rest.packets && all.status == rest.status
  }

  /** Receives records up to a call that returns none, or until count packets have come; empty ones are skipped. */
  method TakeLoop(receiver: P.PcapReceiver, count: nat) returns (status: Status, taken: seq<Packet>)
    requires receiver.file != null && receiver.file.Valid()
    modifies receiver.file
    ensures status == Success || status == EndOfFile || status == ReceiveFailed
    ensures status == Success ==> |taken| == count > 0
    ensures var all := L.Replayed(old(receiver.file.Rest()), P.Announced(receiver.host, receiver.swap));
            && taken <= NonEmpty(all.packets)
            && (status != Success && old(receiver.file.Sound()) ==> L.Replay(taken, status) == L.Shown(all))
  {
    ghost var length := P.Announced(receiver.host, receiver.swap);
    ghost var all := L.Replayed(receiver.file.Rest(), length);
    ghost var done: seq<Packet> := [];
    taken := [];
    while count == 0 || |taken| < count
      invariant receiver.file.Valid() && (old(receiver.file.Sound()) ==> receiver.file.Sound())
      invariant taken == NonEmpty(done) && (count > 0 ==> |taken| <= count)
      invariant Between(done, L.Replayed(receiver.file.Rest(), length), all)
      decreases |receiver.file.Rest()|
    {
      ghost var rest := L.Replayed(receiver.file.Rest(), length);
      NonEmptyFront(done, rest.packets);
      var err, packet := TakeNext(receiver, done, all);
      if err != Success { return err, taken; }
      done := done + [packet];
      if packet != [] { taken := taken + [packet]; }
    }
    NonEmptyFront(done, L.Replayed(receiver.file.Rest(), length).packets);
    return Success, taken;
  }

  /** One receive call of the loop. */
  method TakeNext(receiver: P.PcapReceiver, ghost done: seq<Packet>, ghost all: L.Replay)
    returns (status: Status, packet: Packet)
    requires receiver.file != null && receiver.file.Valid()
    requires Between(done, L.Replayed(receiver.file.Rest(), P.Announced(receiver.host, receiver.swap)), all)
    modifies receiver.file
    ensures receiver.file.Valid() && (old(receiver.file.Sound()) ==> receiver.file.Sound())
    ensures status == Success || status == EndOfFile || status == ReceiveFailed
    ensures status == Success ==>
              && |receiver.file.Rest()| < |old(receiver.file.Rest())|
              && Between(done + [packet],
                         L.Replayed(receiver.file.Rest(), P.Announced(receiver.host, receiver.swap)), all)
              && NonEmpty(done + [packet]) == NonEmpty(done) + if packet == [] then [] else [packet]
    ensures status != Success && old(receiver.file.Sound()) ==> all == L.Replay(done, status)
  {
    TakeTurn(done, receiver.file.Rest(), P.Announced(receiver.host, receiver.swap));
    status, packet := receiver.Receive();
  }

  lemma {:induction false} TakeTurn(done: seq<Packet>, rest: seq<byte>, length: P.RecordHead -> nat)
    ensures var r := P.Receiving(rest, length);
            if r.status == Success then
              && L.Replayed(rest, length).status == L.Replayed(r.rest, length).status
              && done + L.Replayed(rest, length).packets == done + [r.packet] + L.Replayed(r.rest, length).packets
              && NonEmpty(done + [r.packet]) == NonEmpty(done) + if r.packet == [] then [] else [r.packet]
            else L.Replayed(rest, length) == L.Replay([], r.status) && done + [] == done
  {
    var r := P.Receiving(rest, length);
    NonEmptyPush(done, r.packet);
    Assoc(done, [r.packet], L.Replayed(r.rest, length).packets);
  }

  /** No call will be interrupted, fail or move nothing. */
  predicate Smooth(events: seq<Event>) { forall e | e in events :: e.Chunk? && e.k > 0 }

  /** The first captures lie whole in the file, and at most a part of the next. */
  predicate InFile(data: seq<byte>, captures: seq<L.Capture>, sent: nat, sender: P.Order)
    requires sent <= |captures|
  {
    && L.Records(captures[..sent], L.Header(sender)) <= data
    && if sent == |captures| then data == L.Records(captures, L.Header(sender))
       else data < L.Records(captures[..sent + 1], L.Header(sender))
  }

  /** A capture file end to end, between machines of any byte order and whatever the system calls do. Of packets under
      2^32 octets exactly those arrive whose send succeeded, the empty ones apart; and when all sends did, exactly those
      packets arrive, and then the end, if and only if all are under 2^32 octets. */
  method OverFile(captures: seq<L.Capture>, sender: P.Order, receiver: P.Order, written: seq<Event>,
                  readings: seq<Event>)
    returns (sent: nat, taken: seq<Packet>, status: Status)
    ensures sent <= |captures| && (Smooth(written) ==> sent == |captures|)
    ensures Smooth(written) && Failed !in readings ==> status != OpenFailed
    ensures L.AllBelow4G(captures) ==> taken <= NonEmpty(L.Packets(captures[..sent]))
    ensures L.AllBelow4G(captures) && Failed !in readings ==> taken == NonEmpty(L.Packets(captures[..sent]))
    ensures sent == |captures| && Failed !in readings && status != OpenFailed ==>
              (taken == NonEmpty(L.Packets(captures)) && status == EndOfFile <==> L.AllBelow4G(captures))
  {
    var isOpen, data;
    sent, isOpen, data := Recording(captures, sender, written);
    taken, status := Replaying(data, sender, receiver, readings);
    if isOpen {
      Replays(captures, sent, sender, receiver, data[P.FILE_HEADER..]);
    } else {
      assert L.Packets(captures[..0]) == [];
    }
  }

  /** What a receiver takes from a file whose header is whole, and from one where it is not. */
  method Replaying(data: seq<byte>, sender: P.Order, receiver: P.Order, readings: seq<Event>)
    returns (taken: seq<Packet>, status: Status)
    requires P.FileHeader(sender) <= data || |data| < P.FILE_HEADER
    ensures |data| < P.FILE_HEADER ==> status == OpenFailed
    ensures status == OpenFailed ==> taken == [] && (Failed in readings || |data| < P.FILE_HEADER)
    ensures |data| >= P.FILE_HEADER ==>
              var r := L.Shown(L.Replayed(data[P.FILE_HEADER..], P.Announced(receiver, sender != receiver)));
              taken <= r.packets && (Failed !in readings ==> L.Replay(taken, status) == r)
  {
    var copy := new Stream(data, readings);
    var from := new P.PcapReceiver(receiver);
    FileMagic(sender, receiver, data);
    status := from.Open(copy);
    taken := [];
    if status == Success { status, taken := TakeLoop(from, 0); }
  }

  /** What a sender leaves in a fresh file. */
  method Recording(captures: seq<L.Capture>, sender: P.Order, written: seq<Event>)
    returns (sent: nat, isOpen: bool, data: seq<byte>)
    ensures sent <= |captures| && (Smooth(written) ==> isOpen && sent == |captures|)
    ensures if isOpen then P.FileHeader(sender) <= data && InFile(data[P.FILE_HEADER..], captures, sent, sender)
            else sent == 0 && data < P.FileHeader(sender)
  {
    var file := new Stream([], written);
    var to := new P.PcapSender(sender);
    var status := to.Open(file);
    sent, isOpen := 0, status == Success;
    if isOpen { sent := RecordLoop(to, captures); }
    data := file.data;
    ghost var h := P.FileHeader(sender);
    assert isOpen ==> data == h + data[P.FILE_HEADER..];
    assert forall k | 0 <= k <= |captures| ::
        (h + L.Records(captures[..k], L.Header(sender)))[P.FILE_HEADER..] == L.Records(captures[..k], L.Header(sender));
  }

  /** What is replayed of such a file. */
  lemma {:induction false} Replays(captures: seq<L.Capture>, sent: nat, sender: P.Order, receiver: P.Order,
                                   data: seq<byte>)
    requires sent <= |captures| && InFile(data, captures, sent, sender)
    ensures var r := L.Shown(L.Replayed(data, P.Announced(receiver, sender != receiver)));
            && (L.AllBelow4G(captures) ==> r.packets == NonEmpty(L.Packets(captures[..sent])))
            && (sent == |captures| ==>
                  (r == L.Replay(NonEmpty(L.Packets(captures)), EndOfFile) <==> L.AllBelow4G(captures)))
  {
    if sent == |captures| {
      assert captures[..sent] == captures;
      L.PcapRoundTrip(captures, sender, receiver);
    } else if L.AllBelow4G(captures) {
      UnfinishedRecord(captures, sent, sender, receiver, data);
    }
  }

  /** The captures before an unfinished record come out, and nothing else. */
  lemma {:induction false} UnfinishedRecord(captures: seq<L.Capture>, n: nat, sender: P.Order, receiver: P.Order,
                                            data: seq<byte>)
    requires n < |captures| && InFile(data, captures, n, sender) && L.AllBelow4G(captures)
    ensures L.Replayed(data, P.Announced(receiver, sender != receiver)).packets == L.Packets(captures[..n])
  {
    var cs := captures[..n + 1];
    var at := |L.Records(captures[..n], L.Header(sender))|;
    assert cs[..n] == captures[..n];
    RecordStep(captures, n, sender);
    assert data == L.Records(cs, L.Header(sender))[..at + (|data| - at)];
    L.PcapCut(cs, n, |data| - at, sender, receiver);
    L.RecordsSplit(cs, n, L.Header(sender));
  }

  /** The magic number of a file whose header is whole. */
  lemma {:induction false} FileMagic(sender: P.Order, receiver: P.Order, data: seq<byte>)
    ensures P.FileHeader(sender) <= data ==>
              P.WordAt(data, 0, receiver) == if sender == receiver then P.MAGIC else P.MAGIC_SWAPPED
  {
    L.MagicTells(sender, receiver);
  }

  /** A capture file as a machine of this order wrote it. */
  function Content(sender: P.Order, captures: seq<L.Capture>): seq<byte> {
    P.FileHeader(sender) + L.Records(captures, L.Header(sender))
  }

  lemma {:induction false} SwapStep(orders: seq<P.Order>, i: nat, receiver: P.Order)
    requires i < |orders|
    ensures L.SwapAfter(orders[..i + 1], receiver)
         == (L.SwapAfter(orders[..i], receiver) || P.WordAt(P.FileHeader(orders[i]), 0, receiver) == P.MAGIC_SWAPPED)
  {
    assert orders[..i + 1][..i] == orders[..i];
  }

  /** Opens one more file on a receiver. */
  method OpenNext(receiver: P.PcapReceiver, sender: P.Order, captures: seq<L.Capture>, readings: seq<Event>)
    requires Failed !in readings
    modifies receiver
    ensures receiver.file != null && fresh(receiver.file) && receiver.file.Valid() && receiver.file.Sound()
    ensures receiver.file.Rest() == L.Records(captures, L.Header(sender))
    ensures receiver.swap
         == (old(receiver.swap) || P.WordAt(P.FileHeader(sender), 0, receiver.host) == P.MAGIC_SWAPPED)
  {
    receiver.Close();
    var copy := new Stream(Content(sender, captures), readings);
    FileMagic(sender, receiver.host, Content(sender, captures));
    L.MagicTells(sender, receiver.host);
    var status := receiver.Open(copy);
    assert Content(sender, captures)[P.FILE_HEADER..] == L.Records(captures, L.Header(sender));
  }

  /** One receiver object opens files from these senders in turn, the earlier ones with whatever captures, and takes
      the packets of the last, empty ones skipped. They are exactly those recorded, and then the end, if and only if
      its swap flag is right and all packets are under 2^32 octets, or the flag is wrong and every length is
      symmetric. */
  method ReplayLast(senders: seq<P.Order>, earlier: seq<L.Capture>, captures: seq<L.Capture>, receiver: P.Order,
                    readings: seq<Event>)
    returns (taken: seq<Packet>, status: Status)
    requires senders != [] && Failed !in readings
    ensures taken == NonEmpty(L.Packets(captures)) && status == EndOfFile
       <==> if L.FlagRight(senders, receiver) then L.AllBelow4G(captures)
            else forall c | c in captures :: L.Symmetric(c)
  {
    var from := new P.PcapReceiver(receiver);
    for i := 0 to |senders|
      invariant fresh(from) && from.host == receiver && from.swap == L.SwapAfter(senders[..i], receiver)
      invariant i == |senders| ==>
                  && from.file != null && fresh(from.file) && from.file.Valid() && from.file.Sound()
                  && from.file.Rest() == L.Records(captures, L.Header(senders[i - 1]))
    {
      OpenNext(from, senders[i], if i + 1 == |senders| then captures else earlier, readings);
      SwapStep(senders, i, receiver);
    }
    assert senders[..|senders|] == senders;
    status, taken := TakeLoop(from, 0);
    L.ReopenedReplays(senders, receiver, captures);
  }
}
