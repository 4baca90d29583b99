/**
 * The BIP 324 packet cipher and its switch to the hybrid keys of stage 2, over ideal
 * primitives: a derived key is the name of what it was derived from, and a ciphertext names
 * the cipher state it was made under.
 */
module Hybrid {
  import opened Bits
  import opened Options

  const REKEY_INTERVAL := 224
  const SECRET_LENGTH := 32
  const CIPHERTEXT_LENGTH := 1088
  const ENCAPSULATION_KEY_LENGTH := 1184

  datatype Label = InitiatorL | InitiatorP | ResponderL | ResponderP | GarbageTerminators | SessionId

  // A key expanded from the secret material of a stage under the network's salt, or the one
  // that follows another after a rekey.
  datatype Key = Derived(hybrid: bool, material: seq<Byte>, magic: seq<Byte>, name: Label)
               | Rekeyed(previous: Key, counter: nat)

  datatype Half = FirstHalf(of: Key) | LastHalf(of: Key)

  // A cipher with the packets since the last rekey and the number of rekeys.
  datatype Cipher = Cipher(key: Key, packets: nat, rekeys: nat)

  function Fresh(key: Key): Cipher {
    Cipher(key, 0, 0)
  }

  function NextPacket(c: Cipher): Cipher {
    if c.packets + 1 == REKEY_INTERVAL then Cipher(Rekeyed(c.key, c.rekeys), 0, c.rekeys + 1)
    else Cipher(c.key, c.packets + 1, c.rekeys)
  }

  // The length and the packet cipher of one direction, which advance together.
  datatype Pair = Pair(l: Cipher, p: Cipher)

  function Next(c: Pair): Pair {
    Pair(NextPacket(c.l), NextPacket(c.p))
  }

  // ----- Key schedule -----

  // What is kept of the first stage for the second.
  datatype Kept = Kept(ecdh: seq<Byte>, initiatorKey: seq<Byte>, responderKey: seq<Byte>, magic: seq<Byte>, side: bool)

  datatype Session = Session(send: Pair, receive: Pair, id: Key, sendGarbage: Half, receiveGarbage: Half,
                             kept: Option<Kept>, stage2: bool)

  function Ciphers(hybrid: bool, material: seq<Byte>, magic: seq<Byte>, initiator: bool): Pair {
    if initiator then Pair(Fresh(Derived(hybrid, material, magic, InitiatorL)), Fresh(Derived(hybrid, material, magic, InitiatorP)))
    else Pair(Fresh(Derived(hybrid, material, magic, ResponderL)), Fresh(Derived(hybrid, material, magic, ResponderP)))
  }

  function Initialized(ecdh: seq<Byte>, ours: seq<Byte>, theirs: seq<Byte>, magic: seq<Byte>, initiator: bool,
                       selfDecrypt: bool, hybrid: bool): Session
  {
    var side := initiator != selfDecrypt;
    var garbage := Derived(false, ecdh, magic, GarbageTerminators);
    Session(Ciphers(false, ecdh, magic, side), Ciphers(false, ecdh, magic, !side),
            Derived(false, ecdh, magic, SessionId),
            if initiator then FirstHalf(garbage) else LastHalf(garbage),
            if initiator then LastHalf(garbage) else FirstHalf(garbage),
            if hybrid then Some(Kept(ecdh, if initiator then ours else theirs, if initiator then theirs else ours, magic, side))
            else None,
            false)
  }

  function Material(kem: seq<Byte>, ct: seq<Byte>, ek: seq<Byte>, kept: Kept): seq<Byte> {
    kem + kept.ecdh + ct + kept.initiatorKey + ek + kept.responderKey
  }

  predicate Lengths(kem: seq<Byte>, ct: seq<Byte>, ek: seq<Byte>) {
    |kem| == SECRET_LENGTH && |ct| == CIPHERTEXT_LENGTH && |ek| == ENCAPSULATION_KEY_LENGTH
  }

  predicate CanSwitch(s: Session, kem: seq<Byte>, ct: seq<Byte>, ek: seq<Byte>) {
    s.kept.Some? && Lengths(kem, ct, ek)
  }

  function Switched(s: Session, kem: seq<Byte>, ct: seq<Byte>, ek: seq<Byte>): Session
    requires CanSwitch(s, kem, ct, ek)
  {
    var kept := s.kept.value;
    var material := Material(kem, ct, ek, kept);
    s.(send := Ciphers(true, material, kept.magic, kept.side), receive := Ciphers(true, material, kept.magic, !kept.side),
       id := Derived(true, material, kept.magic, SessionId), kept := None, stage2 := true)
  }

  // All four ciphers of a session that has sent and received nothing, by the labels of the
  // keys one sends and receives under.
  ghost predicate Keyed(s: Session, hybrid: bool, material: seq<Byte>, magic: seq<Byte>, sendL: Label, sendP: Label,
                        receiveL: Label, receiveP: Label)
  {
    && s.send.l == Fresh(Derived(hybrid, material, magic, sendL))
    && s.send.p == Fresh(Derived(hybrid, material, magic, sendP))
    && s.receive.l == Fresh(Derived(hybrid, material, magic, receiveL))
    && s.receive.p == Fresh(Derived(hybrid, material, magic, receiveP))
  }

  // In both stages whoever initiated the connection sends under the initiator's keys and
  // receives under the responder's, and the other side the other way round.
  lemma KeysByRole(ecdh: seq<Byte>, ours: seq<Byte>, theirs: seq<Byte>, magic: seq<Byte>, initiator: bool,
                   kem: seq<Byte>, ct: seq<Byte>, ek: seq<Byte>)
    requires Lengths(kem, ct, ek)
    ensures var s := Initialized(ecdh, ours, theirs, magic, initiator, false, true);
            && CanSwitch(s, kem, ct, ek)
            && var t, material := Switched(s, kem, ct, ek), Material(kem, ct, ek, s.kept.value);
            && if initiator then
                 && Keyed(s, false, ecdh, magic, InitiatorL, InitiatorP, ResponderL, ResponderP)
                 && Keyed(t, true, material, magic, InitiatorL, InitiatorP, ResponderL, ResponderP)
                 && material == kem + ecdh + ct + ours + ek + theirs
                 && s.sendGarbage == FirstHalf(Derived(false, ecdh, magic, GarbageTerminators))
               else
                 && Keyed(s, false, ecdh, magic, ResponderL, ResponderP, InitiatorL, InitiatorP)
                 && Keyed(t, true, material, magic, ResponderL, ResponderP, InitiatorL, InitiatorP)
                 && material == kem + ecdh + ct + theirs + ek + ours
                 && s.sendGarbage == LastHalf(Derived(false, ecdh, magic, GarbageTerminators))
  {
  }

  // A session that decrypts its own packets receives under what it would otherwise send under.
  lemma SelfDecrypts(ecdh: seq<Byte>, ours: seq<Byte>, theirs: seq<Byte>, magic: seq<Byte>, initiator: bool, hybrid: bool)
    ensures var s := Initialized(ecdh, ours, theirs, magic, initiator, false, hybrid);
            var t := Initialized(ecdh, ours, theirs, magic, initiator, true, hybrid);
            s.send == t.receive && s.receive == t.send && s.id == t.id && s.sendGarbage == t.sendGarbage
  {
  }

  // Each side sends under what the other receives under.
  ghost predicate Mirrored(a: Session, b: Session) {
    a.send == b.receive && a.receive == b.send && a.id == b.id
  }

  lemma InitializedMirrored(ecdh: seq<Byte>, a: seq<Byte>, b: seq<Byte>, magic: seq<Byte>, hybridA: bool, hybridB: bool)
    ensures var i, r := Initialized(ecdh, a, b, magic, true, false, hybridA), Initialized(ecdh, b, a, magic, false, false, hybridB);
      && Mirrored(i, r)
      && i.sendGarbage == r.receiveGarbage && i.receiveGarbage == r.sendGarbage
      && i.send != i.receive && i.sendGarbage != i.receiveGarbage
  {
  }

  // The two ends of one connection can still reach stage 2 together.
  ghost predicate Partners(a: Session, b: Session) {
    && a.kept.Some? && b.kept.Some?
    && a.kept.value.side != b.kept.value.side
    && a.kept.value == b.kept.value.(side := a.kept.value.side)
  }

  lemma SwitchedMirrored(a: Session, b: Session, kem: seq<Byte>, ct: seq<Byte>, ek: seq<Byte>)
    requires Partners(a, b) && Lengths(kem, ct, ek)
    ensures Mirrored(Switched(a, kem, ct, ek), Switched(b, kem, ct, ek))
  {
  }

  // Different secrets, ciphertexts or keys give different stage-2 ciphers and session ids: the
  // lengths are fixed, so that the parts cannot be shifted against each other.
  lemma SwitchBinds(a: Session, b: Session, kem: seq<Byte>, ct: seq<Byte>, ek: seq<Byte>,
                    kem': seq<Byte>, ct': seq<Byte>, ek': seq<Byte>)
    requires CanSwitch(a, kem, ct, ek) && CanSwitch(b, kem', ct', ek')
    requires |a.kept.value.ecdh| == |b.kept.value.ecdh| && |a.kept.value.initiatorKey| == |b.kept.value.initiatorKey|
    requires Switched(a, kem, ct, ek).id == Switched(b, kem', ct', ek').id
    ensures kem == kem' && ct == ct' && ek == ek'
    ensures a.kept.value == b.kept.value.(side := a.kept.value.side)
  {
    var k, k' := a.kept.value, b.kept.value;
    var u1, v1 := kem + k.ecdh, kem' + k'.ecdh;
    var u2, v2 := u1 + ct, v1 + ct';
    var u3, v3 := u2 + k.initiatorKey, v2 + k'.initiatorKey;
    var u4, v4 := u3 + ek, v3 + ek';
    PartsEqual(u4, k.responderKey, v4, k'.responderKey);
    PartsEqual(u3, ek, v3, ek');
    PartsEqual(u2, k.initiatorKey, v2, k'.initiatorKey);
    PartsEqual(u1, ct, v1, ct');
    PartsEqual(kem, k.ecdh, kem', k'.ecdh);
  }

  lemma PartsEqual(a: seq<Byte>, b: seq<Byte>, a': seq<Byte>, b': seq<Byte>)
    requires |a| == |a'| && a + b == a' + b'
    ensures a == a' && b == b'
  {
    assert a == (a + b)[..|a|] && a' == (a' + b')[..|a|];
    assert b == (a + b)[|a|..] && b' == (a' + b')[|a|..];
  }
}
