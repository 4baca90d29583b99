/**
 * Two peers over one connection: whatever they send, receive and switch, every packet arrives
 * as long as a side switches only when nothing of the first stage is under way to it.
 */
module HybridRuns {
  import opened Bits
  import opened Hybrid
  import opened Options

  const LENGTH_LIMIT := 0x100_0000

  datatype Message = Message(contents: seq<Byte>, aad: seq<Byte>, ignore: bool)

  // An encrypted length of three bytes and an encrypted header and contents.
  datatype Packet = Packet(lengthUnder: Cipher, size: seq<Byte>, under: Cipher, aad: seq<Byte>, header: Byte,
                           contents: seq<Byte>)

  function LengthBytes(n: nat): seq<Byte> {
    [n % 256, n / 256 % 256, n / 0x1_0000 % 256]
  }

  function FromLength(b: seq<Byte>): nat
    requires |b| == 3
  {
    256 * (256 * (b[2] as nat) + (b[1] as nat)) + (b[0] as nat)
  }

  lemma LengthBack(n: nat)
    ensures FromLength(LengthBytes(n)) == n % LENGTH_LIMIT
  {
    var q := n / 256;
    var p := q / 256;
    DivIs(n, p, q % 256 * 256 + n % 256, 0x1_0000);
    DivIs(n, p / 256, p % 256 * 0x1_0000 + q % 256 * 256 + n % 256, LENGTH_LIMIT);
  }

  function Encrypted(c: Pair, m: Message): Packet {
    Packet(c.l, LengthBytes(|m.contents|), c.p, m.aad, if m.ignore then 0x80 else 0, m.contents)
  }

  // The decrypted length; under another cipher state it can be anything.
  function Length(c: Pair, packet: Packet, garbled: nat): nat {
    if packet.lengthUnder == c.l && |packet.size| == 3 then FromLength(packet.size) else garbled
  }

  // Reads a packet of the decrypted length; it authenticates only under the cipher state and
  // the associated data it was made with.
  function Opened(c: Pair, packet: Packet, aad: seq<Byte>, garbled: nat): Option<Message> {
    if |packet.contents| == Length(c, packet, garbled) && packet.under == c.p && packet.aad == aad then
      Some(Message(packet.contents, aad, packet.header / 0x80 % 2 == 1))
    else None
  }

  // A packet opens to its message exactly under the cipher state it was made with, if its
  // length fits in three bytes.
  lemma OpensExactly(made: Pair, c: Pair, m: Message, aad: seq<Byte>, garbled: nat)
    ensures made == c ==>
      Opened(c, Encrypted(made, m), aad, garbled) == if aad == m.aad && |m.contents| < LENGTH_LIMIT then Some(m) else None
    ensures made.p != c.p ==> Opened(c, Encrypted(made, m), aad, garbled) == None
  {
    LengthBack(|m.contents|);
  }

  function Advance(c: Pair, n: nat): Pair {
    if n == 0 then c else Next(Advance(c, n - 1))
  }

  lemma {:induction false} AdvanceFront(c: Pair, n: nat)
    ensures Advance(Next(c), n) == Advance(c, n + 1)
  {
    if n > 0 {
      AdvanceFront(c, n - 1);
    }
  }

  // The key after some rekeys.
  function KeyAfter(key: Key, rekeys: nat): Key {
    if rekeys == 0 then key else Rekeyed(KeyAfter(key, rekeys - 1), rekeys - 1)
  }

  // Both ciphers of a direction change their keys after every 224th packet.
  lemma {:induction false} RekeysAfter224(l: Key, p: Key, n: nat)
    ensures Advance(Pair(Fresh(l), Fresh(p)), n) ==
            Pair(Cipher(KeyAfter(l, n / 224), n % 224, n / 224), Cipher(KeyAfter(p, n / 224), n % 224, n / 224))
  {
    if n > 0 {
      RekeysAfter224(l, p, n - 1);
    }
  }

  // ----- One direction -----

  // What is under way, how many of these were sent before the sender switched, and what was
  // sent and received in all.
  datatype Direction = Direction(wire: seq<Packet>, early: nat, sent: seq<Message>, got: seq<Option<Message>>)

  ghost predicate Under(d: Direction, c: Pair, from: nat, to: nat, first: nat) {
    && |d.got| + |d.wire| == |d.sent| && from <= to <= |d.wire|
    && forall i | from <= i < to :: d.wire[i] == Encrypted(Advance(c, i - from + first), d.sent[|d.got| + i])
  }

  ghost predicate Delivered(d: Direction) {
    && |d.got| <= |d.sent|
    && (forall i | 0 <= i < |d.got| :: d.got[i] == Some(d.sent[i]))
    && (forall i | 0 <= i < |d.sent| :: |d.sent[i].contents| < LENGTH_LIMIT)
  }

  // Everything received is what was sent, and what is under way will be too: `next` is the
  // cipher state of stage 2 at the start.
  ghost predicate Flows(send: Pair, sender2: bool, receive: Pair, receiver2: bool, d: Direction, next: Pair) {
    && Delivered(d) && |d.got| + |d.wire| == |d.sent|
    && if sender2 == receiver2 then
         send == Advance(receive, |d.wire|) && Under(d, receive, 0, |d.wire|, 0) && (sender2 ==> d.early == 0)
       else if sender2 then
         && d.early <= |d.wire| && send == Advance(next, |d.wire| - d.early)
         && Under(d, receive, 0, d.early, 0) && Under(d, next, d.early, |d.wire|, 0)
       else
         d.wire == [] && receive == next
  }

  function Sent(d: Direction, c: Pair, m: Message): Direction {
    d.(wire := d.wire + [Encrypted(c, m)], sent := d.sent + [m])
  }

  function Received(d: Direction, c: Pair, aad: seq<Byte>, garbled: nat): Direction
    requires d.wire != []
  {
    d.(wire := d.wire[1..], early := if d.early > 0 then d.early - 1 else 0,
       got := d.got + [Opened(c, d.wire[0], aad, garbled)])
  }

  lemma SendFlows(send: Pair, sender2: bool, receive: Pair, receiver2: bool, d: Direction, next: Pair, m: Message)
    requires Flows(send, sender2, receive, receiver2, d, next) && |m.contents| < LENGTH_LIMIT
    requires sender2 || !receiver2
    ensures Flows(Next(send), sender2, receive, receiver2, Sent(d, send, m), next)
  {
    hide Next, Encrypted;
    var e := Sent(d, send, m);
    assert forall i | 0 <= i < |d.wire| :: e.wire[i] == d.wire[i];
    assert forall i | 0 <= i < |d.sent| :: e.sent[i] == d.sent[i];
  }

  lemma ReceiveFlows(send: Pair, sender2: bool, receive: Pair, receiver2: bool, d: Direction, next: Pair,
                     aad: seq<Byte>, garbled: nat)
    requires Flows(send, sender2, receive, receiver2, d, next) && d.wire != [] && aad == d.wire[0].aad
    requires sender2 && !receiver2 ==> d.early > 0
    ensures Flows(send, sender2, Next(receive), receiver2, Received(d, receive, aad, garbled), next)
  {
    hide Next, Opened;
    var m := d.sent[|d.got|];
    assert d.wire[0] == Encrypted(Advance(receive, 0), m);
    OpensExactly(receive, receive, m, aad, garbled);
    hide Encrypted;
    var e := Received(d, receive, aad, garbled);
    AdvanceFront(receive, |e.wire|);
    if sender2 == receiver2 {
      UnderNext(d, e, receive, |d.wire|);
    } else {
      UnderNext(d, e, receive, d.early);
      assert forall i | e.early <= i < |e.wire| :: e.wire[i] == d.wire[i + 1] && |e.got| + i == |d.got| + (i + 1);
    }
  }

  lemma UnderNext(d: Direction, e: Direction, c: Pair, to: nat)
    requires 0 < to <= |d.wire| && Under(d, c, 0, to, 0)
    requires |e.wire| == |d.wire| - 1 && |e.got| == |d.got| + 1 && e.sent == d.sent && e.wire == d.wire[1..]
    ensures Under(e, Next(c), 0, to - 1, 0)
  {
    hide Next, Encrypted;
    forall i | 0 <= i < to - 1
      ensures e.wire[i] == Encrypted(Advance(Next(c), i), e.sent[|e.got| + i])
    {
      AdvanceFront(c, i);
      assert d.wire[i + 1] == Encrypted(Advance(c, i + 1), d.sent[|d.got| + (i + 1)]);
    }
  }

  lemma SenderSwitchFlows(send: Pair, receive: Pair, receiver2: bool, d: Direction, next: Pair)
    requires Flows(send, false, receive, receiver2, d, next)
    ensures Flows(next, true, receive, receiver2, d.(early := |d.wire|), next)
  {
    hide Next, Encrypted;
  }

  lemma ReceiverSwitchFlows(send: Pair, sender2: bool, receive: Pair, d: Direction, next: Pair)
    requires Flows(send, sender2, receive, false, d, next)
    requires if sender2 then d.early == 0 else d.wire == []
    ensures Flows(send, sender2, next, true, d, next)
  {
    hide Next, Encrypted;
  }

  // ----- Two peers -----

  datatype World = World(a: Session, b: Session, ab: Direction, ba: Direction)

  datatype Exchange = Exchange(kem: seq<Byte>, ct: seq<Byte>, ek: seq<Byte>)

  datatype Event = Send(byA: bool, m: Message)
                 | Receive(byA: bool, aad: seq<Byte>, garbled: nat)
                 | Switch(byA: bool, x: Exchange)

  // The peer that acts, and the directions out of it and into it.
  datatype Part = Part(self: Session, out: Direction, into: Direction)

  function Acted(w: Part, e: Event): Part
    requires e.Receive? ==> w.into.wire != []
  {
    match e
    case Send(_, m) => Part(w.self.(send := Next(w.self.send)), Sent(w.out, w.self.send, m), w.into)
    case Receive(_, aad, garbled) =>
      Part(w.self.(receive := Next(w.self.receive)), w.out, Received(w.into, w.self.receive, aad, garbled))
    case Switch(_, x) =>
      if CanSwitch(w.self, x.kem, x.ct, x.ek) then
        Part(Switched(w.self, x.kem, x.ct, x.ek), w.out.(early := |w.out.wire|), w.into)
      else w
  }

  predicate Possible(w: World, e: Event) {
    e.Receive? ==> if e.byA then w.ba.wire != [] else w.ab.wire != []
  }

  function After(w: World, e: Event): World
    requires Possible(w, e)
  {
    if e.byA then
      var r := Acted(Part(w.a, w.ab, w.ba), e);
      World(r.self, w.b, r.out, r.into)
    else
      var r := Acted(Part(w.b, w.ba, w.ab), e);
      World(w.a, r.self, r.into, r.out)
  }

  // What the peers have to see to: messages are not too long, nobody sends under the old keys
  // to a peer that has switched, nor reads ahead of its own switch, and a peer switches only
  // when nothing of the first stage is under way to it.
  ghost predicate Careful(w: Part, peer: Session, e: Event, x: Exchange) {
    match e
    case Send(_, m) => |m.contents| < LENGTH_LIMIT && (w.self.stage2 || !peer.stage2)
    case Receive(_, aad, _) =>
      w.into.wire != [] && aad == w.into.wire[0].aad && (peer.stage2 && !w.self.stage2 ==> w.into.early > 0)
    case Switch(_, y) => y == x && if peer.stage2 then w.into.early == 0 else w.into.wire == []
  }

  ghost predicate Fair(w: World, e: Event, x: Exchange) {
    if e.byA then Careful(Part(w.a, w.ab, w.ba), w.b, e, x) else Careful(Part(w.b, w.ba, w.ab), w.a, e, x)
  }

  // The secrets kept for the switch, unless it has happened.
  ghost predicate Prepared(s: Session, kept: Kept, side: bool) {
    s.kept == if s.stage2 then None else Some(kept.(side := side))
  }

  function SecondStage(kept: Kept, x: Exchange, fromInitiator: bool): Pair {
    Ciphers(true, Material(x.kem, x.ct, x.ek, kept), kept.magic, fromInitiator)
  }

  ghost predicate Good(w: World, kept: Kept, x: Exchange) {
    && Prepared(w.a, kept, true) && Prepared(w.b, kept, false)
    && Flows(w.a.send, w.a.stage2, w.b.receive, w.b.stage2, w.ab, SecondStage(kept, x, true))
    && Flows(w.b.send, w.b.stage2, w.a.receive, w.a.stage2, w.ba, SecondStage(kept, x, false))
  }

  // One act of a peer, seen from it.
  lemma ActedKeeps(w: Part, peer: Session, e: Event, kept: Kept, x: Exchange, side: bool)
    requires Lengths(x.kem, x.ct, x.ek) && Prepared(w.self, kept, side) && Careful(w, peer, e, x)
    requires Flows(w.self.send, w.self.stage2, peer.receive, peer.stage2, w.out, SecondStage(kept, x, side))
    requires Flows(peer.send, peer.stage2, w.self.receive, w.self.stage2, w.into, SecondStage(kept, x, !side))
    ensures var r := Acted(w, e);
      && Prepared(r.self, kept, side)
      && Flows(r.self.send, r.self.stage2, peer.receive, peer.stage2, r.out, SecondStage(kept, x, side))
      && Flows(peer.send, peer.stage2, r.self.receive, r.self.stage2, r.into, SecondStage(kept, x, !side))
  {
    hide Flows, Ciphers, Next, Sent, Received, Lengths;
    match e
    case Send(_, m) =>
      SendFlows(w.self.send, w.self.stage2, peer.receive, peer.stage2, w.out, SecondStage(kept, x, side), m);
    case Receive(_, aad, garbled) =>
      ReceiveFlows(peer.send, peer.stage2, w.self.receive, w.self.stage2, w.into, SecondStage(kept, x, !side), aad, garbled);
    case Switch(_, _) =>
      if !w.self.stage2 {
        SenderSwitchFlows(w.self.send, peer.receive, peer.stage2, w.out, SecondStage(kept, x, side));
        ReceiverSwitchFlows(peer.send, peer.stage2, w.self.receive, w.into, SecondStage(kept, x, !side));
      }
  }

  lemma AfterKeeps(w: World, e: Event, kept: Kept, x: Exchange)
    requires Lengths(x.kem, x.ct, x.ek) && Good(w, kept, x) && Fair(w, e, x)
    ensures Possible(w, e) && Good(After(w, e), kept, x)
  {
    hide Flows, Acted, SecondStage, Prepared, Lengths;
    if e.byA {
      ActedKeeps(Part(w.a, w.ab, w.ba), w.b, e, kept, x, true);
    } else {
      ActedKeeps(Part(w.b, w.ba, w.ab), w.a, e, kept, x, false);
    }
  }

  ghost predicate AllFair(w: World, events: seq<Event>, x: Exchange)
    decreases |events|
  {
    events == [] || (Fair(w, events[0], x) && Possible(w, events[0]) && AllFair(After(w, events[0]), events[1..], x))
  }

  ghost function RunOf(w: World, events: seq<Event>, x: Exchange): World
    requires AllFair(w, events, x)
    decreases |events|
  {
    if events == [] then w else RunOf(After(w, events[0]), events[1..], x)
  }

  lemma {:induction false} RunKeeps(w: World, events: seq<Event>, kept: Kept, x: Exchange)
    requires Lengths(x.kem, x.ct, x.ek) && Good(w, kept, x) && AllFair(w, events, x)
    ensures Good(RunOf(w, events, x), kept, x)
    decreases |events|
  {
    hide Good, Fair, After, Lengths;
    if events != [] {
      AfterKeeps(w, events[0], kept, x);
      RunKeeps(After(w, events[0]), events[1..], kept, x);
    }
  }

  function Start(ecdh: seq<Byte>, a: seq<Byte>, b: seq<Byte>, magic: seq<Byte>): World {
    var nothing := Direction([], 0, [], []);
    World(Initialized(ecdh, a, b, magic, true, false, true), Initialized(ecdh, b, a, magic, false, false, true), nothing, nothing)
  }

  // In every careful run from a fresh connection, each side has received exactly what the
  // other sent, in order, up to what is still under way.
  lemma EverythingArrives(ecdh: seq<Byte>, a: seq<Byte>, b: seq<Byte>, magic: seq<Byte>, events: seq<Event>, x: Exchange)
    requires Lengths(x.kem, x.ct, x.ek) && AllFair(Start(ecdh, a, b, magic), events, x)
    ensures var w := RunOf(Start(ecdh, a, b, magic), events, x);
      && |w.ab.got| + |w.ab.wire| == |w.ab.sent| && (forall i | 0 <= i < |w.ab.got| :: w.ab.got[i] == Some(w.ab.sent[i]))
      && |w.ba.got| + |w.ba.wire| == |w.ba.sent| && (forall i | 0 <= i < |w.ba.got| :: w.ba.got[i] == Some(w.ba.sent[i]))
      && (w.a.stage2 && w.b.stage2 && w.ab.wire == [] && w.ba.wire == [] ==> w.a.send == w.b.receive && w.b.send == w.a.receive)
  {
    hide AllFair, RunOf;
    StartGood(ecdh, a, b, magic, x);
    RunKeeps(Start(ecdh, a, b, magic), events, Kept(ecdh, a, b, magic, true), x);
  }

  lemma StartGood(ecdh: seq<Byte>, a: seq<Byte>, b: seq<Byte>, magic: seq<Byte>, x: Exchange)
    ensures Good(Start(ecdh, a, b, magic), Kept(ecdh, a, b, magic, true), x)
  {
  }

  // Whatever a peer does, it switches at most once: without kept secrets nothing happens.
  lemma SwitchesOnce(w: Part, e: Event)
    requires e.Switch?
    ensures Acted(w, e).self.kept.None? || Acted(w, e) == w
    ensures w.self.kept.None? ==> Acted(w, e) == w
  {
  }

  // Which stage a key belongs to, through any number of rekeys.
  predicate OfStage2(k: Key) {
    match k
    case Derived(hybrid, _, _, _) => hybrid
    case Rekeyed(previous, _) => OfStage2(previous)
  }

  lemma {:induction false} StageLasts(hybrid: bool, material: seq<Byte>, magic: seq<Byte>, initiator: bool, n: nat)
    ensures OfStage2(Advance(Ciphers(hybrid, material, magic, initiator), n).p.key) == hybrid
  {
    if n > 0 {
      StageLasts(hybrid, material, magic, initiator, n - 1);
    }
  }

  // A packet of one stage never opens under the ciphers of the other, however many packets
  // have gone before: what a careful peer avoids would lose the packet.
  lemma StagesApart(m: Message, aad: seq<Byte>, garbled: nat, first: seq<Byte>, second: seq<Byte>, magic: seq<Byte>,
                    initiator: bool, i: nat, j: nat)
    ensures var one, two := Advance(Ciphers(false, first, magic, initiator), i), Advance(Ciphers(true, second, magic, initiator), j);
      Opened(one, Encrypted(two, m), aad, garbled) == None == Opened(two, Encrypted(one, m), aad, garbled)
  {
    hide Advance, Ciphers, Opened;
    StageLasts(false, first, magic, initiator, i);
    StageLasts(true, second, magic, initiator, j);
    var one, two := Advance(Ciphers(false, first, magic, initiator), i), Advance(Ciphers(true, second, magic, initiator), j);
    OpensExactly(two, one, m, aad, garbled);
    OpensExactly(one, two, m, aad, garbled);
  }
}
