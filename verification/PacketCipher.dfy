/** The packet cipher as an object whose fields its methods replace. */
module PacketCipher {
  import opened Bits
  import opened Hybrid
  import opened HybridRuns
  import opened Options

  class BIP324Cipher {
    var sendL: Option<Cipher>
    var receiveL: Option<Cipher>
    var sendP: Option<Cipher>
    var receiveP: Option<Cipher>
    var id: Option<Key>
    var sendGarbage: Option<Half>
    var receiveGarbage: Option<Half>
    var kept: Option<Kept>
    var stage2: bool

    ghost predicate Ready()
      reads this
    {
      && sendL.Some? && receiveL.Some? && sendP.Some? && receiveP.Some?
      && id.Some? && sendGarbage.Some? && receiveGarbage.Some?
    }

    ghost function Now(): Session
      requires Ready()
      reads this
    {
      Session(Pair(sendL.value, sendP.value), Pair(receiveL.value, receiveP.value), id.value,
              sendGarbage.value, receiveGarbage.value, kept, stage2)
    }

    constructor ()
      ensures sendL.None? && kept.None? && !stage2
    {
      sendL, receiveL, sendP, receiveP := None, None, None, None;
      id, sendGarbage, receiveGarbage, kept, stage2 := None, None, None, None, false;
    }

    // Only called once, when the other side's key arrives.
    method Initialize(ecdh: seq<Byte>, ours: seq<Byte>, theirs: seq<Byte>, magic: seq<Byte>, initiator: bool,
                      selfDecrypt: bool, hybrid: bool)
      requires sendL.None? && kept.None? && !stage2
      modifies this
      ensures Ready() && Now() == Initialized(ecdh, ours, theirs, magic, initiator, selfDecrypt, hybrid)
    {
      var side := initiator != selfDecrypt;
      Emplace(side, false, ecdh, magic);
      var garbage := Derived(false, ecdh, magic, GarbageTerminators);
      if initiator {
        sendGarbage, receiveGarbage := Some(FirstHalf(garbage)), Some(LastHalf(garbage));
      } else {
        receiveGarbage, sendGarbage := Some(FirstHalf(garbage)), Some(LastHalf(garbage));
      }
      if hybrid {
        kept := Some(Kept(ecdh, if initiator then ours else theirs, if initiator then theirs else ours, magic, side));
      }
    }

    // Expands the four keys and the session id, and starts new ciphers with them.
    method Emplace(side: bool, hybrid: bool, material: seq<Byte>, magic: seq<Byte>)
      modifies this`sendL, this`sendP, this`receiveL, this`receiveP, this`id
      ensures sendL.Some? && sendP.Some? && receiveL.Some? && receiveP.Some?
      ensures Pair(sendL.value, sendP.value) == Ciphers(hybrid, material, magic, side)
      ensures Pair(receiveL.value, receiveP.value) == Ciphers(hybrid, material, magic, !side)
      ensures id == Some(Derived(hybrid, material, magic, SessionId))
    {
      var key := Derived(hybrid, material, magic, InitiatorL);
      if side {
        sendL := Some(Fresh(key));
      } else {
        receiveL := Some(Fresh(key));
      }
      key := Derived(hybrid, material, magic, InitiatorP);
      if side {
        sendP := Some(Fresh(key));
      } else {
        receiveP := Some(Fresh(key));
      }
      key := Derived(hybrid, material, magic, ResponderL);
      if side {
        receiveL := Some(Fresh(key));
      } else {
        sendL := Some(Fresh(key));
      }
      key := Derived(hybrid, material, magic, ResponderP);
      if side {
        receiveP := Some(Fresh(key));
      } else {
        sendP := Some(Fresh(key));
      }
      id := Some(Derived(hybrid, material, magic, SessionId));
    }

    // Succeeds once; a failure changes nothing.
    method SwitchToStage2(kem: seq<Byte>, ct: seq<Byte>, ek: seq<Byte>) returns (ok: bool)
      requires Ready()
      modifies this
      ensures Ready() && ok == CanSwitch(old(Now()), kem, ct, ek)
      ensures Now() == if ok then Switched(old(Now()), kem, ct, ek) else old(Now())
      ensures ok ==> kept.None? && stage2
    {
      if kept.None? || |kem| != SECRET_LENGTH || |ct| != CIPHERTEXT_LENGTH || |ek| != ENCAPSULATION_KEY_LENGTH {
        return false;
      }
      Emplace(kept.value.side, true, Material(kem, ct, ek, kept.value), kept.value.magic);
      DiscardStage2Secret();
      stage2 := true;
      ok := true;
    }

    // The session stays classical: no later switch succeeds.
    method DiscardStage2Secret()
      modifies this`kept
      ensures kept.None?
    {
      kept := None;
    }

    method Encrypt(m: Message) returns (packet: Packet)
      requires Ready()
      modifies this`sendL, this`sendP
      ensures Ready() && packet == Encrypted(old(Now()).send, m)
      ensures Now() == old(Now()).(send := Next(old(Now()).send))
    {
      var n := |m.contents|;
      var size: seq<Byte> := [n % 256, n / 256 % 256, n / 0x1_0000 % 256];
      packet := Packet(sendL.value, size, sendP.value, m.aad, if m.ignore then 0x80 else 0, m.contents);
      sendL := Some(NextPacket(sendL.value));
      sendP := Some(NextPacket(sendP.value));
    }

    method DecryptLength(packet: Packet, garbled: nat) returns (n: nat)
      requires Ready()
      modifies this`receiveL
      ensures Ready() && n == Length(old(Now()).receive, packet, garbled)
      ensures Now() == old(Now()).(receive := old(Now()).receive.(l := NextPacket(old(Now()).receive.l)))
    {
      n := Length(Pair(receiveL.value, receiveP.value), packet, garbled);
      receiveL := Some(NextPacket(receiveL.value));
    }

    // The counter advances whether or not the packet authenticates.
    method Decrypt(packet: Packet, aad: seq<Byte>) returns (ok: bool, ignore: bool, contents: seq<Byte>)
      requires Ready()
      modifies this`receiveP
      ensures Ready() && Now() == old(Now()).(receive := old(Now()).receive.(p := NextPacket(old(Now()).receive.p)))
      ensures ok <==> packet.under == old(Now()).receive.p && packet.aad == aad
      ensures ok ==> contents == packet.contents && (ignore <==> packet.header / 0x80 % 2 == 1)
    {
      ok := packet.under == receiveP.value && packet.aad == aad;
      ignore, contents := false, [];
      if ok {
        ignore, contents := packet.header / 0x80 % 2 == 1, packet.contents;
      }
      receiveP := Some(NextPacket(receiveP.value));
    }

    // One packet off the wire, as the transport reads it: the length first, then the rest.
    method ReceivePacket(packet: Packet, aad: seq<Byte>, garbled: nat) returns (m: Option<Message>)
      requires Ready()
      modifies this`receiveL, this`receiveP
      ensures Ready() && m == Opened(old(Now()).receive, packet, aad, garbled)
      ensures Now() == old(Now()).(receive := Next(old(Now()).receive))
    {
      var n := DecryptLength(packet, garbled);
      var ok, ignore, contents := Decrypt(packet, aad);
      m := if ok && |packet.contents| == n then Some(Message(contents, aad, ignore)) else None;
    }
  }
}
