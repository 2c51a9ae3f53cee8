/** The sending half of d1_both.cc: a flight of messages is cut into records, the records are packed
    into packets that fit the MTU, and packets are written and retried. What the cipher, the transport
    and memory allocation do are parameters. */
module DtlsSender {
  import opened Wrappers
  import opened PbWire
  import opened DtlsFragment
  import opened DtlsDelivery
  import opened DtlsFlight
  import opened DtlsSending

  const MIN_MTU: nat := 228        // kMinMTU
  const DEFAULT_MTU: nat := 1472   // kDefaultMTU

  function Size(packet: seq<Sealed>): nat {
    if packet == [] then 0 else Size(packet[..|packet| - 1]) + packet[|packet| - 1].size
  }

  function Flatten(packets: seq<seq<Sealed>>): seq<Sealed> {
    if packets == [] then [] else Flatten(packets[..|packets| - 1]) + packets[|packets| - 1]
  }

  /** The sealing of these records, as events. */
  function SealedEvents(rs: seq<Sealed>): seq<FlightEvent> {
    seq(|rs|, i requires 0 <= i < |rs| => RecordSealed(rs[i]))
  }

  /** No packet is empty or longer than the MTU. */
  ghost predicate FitMtu(packets: seq<seq<Sealed>>, mtu: nat) {
    forall packet :: packet in packets ==> packet != [] && Size(packet) <= mtu
  }

  /** Packets that fit the MTU have been added. */
  ghost predicate Added(before: seq<seq<Sealed>>, after: seq<seq<Sealed>>, mtu: nat) {
    before <= after && FitMtu(after[|before|..], mtu)
  }

  class DtlsSender {
    var mtu: nat
    var noQueryMtu: bool
    var shutdown: bool
    var wantsWrite: bool               // rwstate is SSL_WRITING
    var wEpoch: nat
    var current: Cipher
    var previous: Cipher
    var handshakeWriteSeq: nat
    var messages: seq<Outgoing>        // outgoing_messages, up to outgoing_messages_len
    var complete: bool                 // outgoing_messages_complete
    var outgoingWritten: nat
    var outgoingOffset: nat

    /** All handshake messages ever sent, and the number of the first one in this flight; the packets
        written and everything that happened since the flight was last started from its beginning. */
    ghost var sent: seq<Message>
    ghost var firstSeq: nat
    ghost var packets: seq<seq<Sealed>>
    ghost var events: seq<FlightEvent>

    ghost predicate Valid()
      reads this
    {
      Ready() && LogOk()
    }

    ghost predicate Ready()
      reads this
    {
      && KeysNow().Valid() && |messages| <= MAX_FLIGHT && handshakeWriteSeq == |sent|
      && Numbered(sent, messages) && HoldsFlight()
    }

    /** The flight has the messages from the first one's number on. */
    ghost predicate HoldsFlight()
      reads this`messages, this`sent, this`firstSeq
    {
      && firstSeq <= |sent| <= firstSeq + |messages|
      && forall s: nat :: firstSeq <= s < |sent| ==> InFlight(messages, s)
    }

    function Cursor(): Cursor
      reads this`outgoingWritten, this`outgoingOffset
    {
      At(outgoingWritten, outgoingOffset)
    }

    function KeysNow(): Keys
      reads this`wEpoch, this`current, this`previous
    {
      Keys(wEpoch, current, previous)
    }

    /** The records written. */
    ghost function Log(): seq<Sealed>
      reads this`packets
    {
      Flatten(packets)
    }

    /** What happened accounts for the cursor and for what was written. */
    ghost predicate LogOk()
      reads this
    {
      CursorOk(messages, Cursor()) && !Open(events) && Play(messages, SendingStart, events) == Some(Between(Cursor(), Log()))
    }

    constructor (current: Cipher)
      requires current.prefix <= current.overhead
      ensures Valid() && messages == [] && sent == [] && packets == [] && events == []
    {
      mtu, noQueryMtu, shutdown, wantsWrite, wEpoch, handshakeWriteSeq := 0, false, false, false, 0, 0;
      this.current, previous := current, current;
      messages, complete, outgoingWritten, outgoingOffset := [], false, 0, 0;
      sent, firstSeq, packets, events := [], 0, [], [];
    }

    /** What was written since the start of the flight leads to the cursor exactly if no sealing failed
        after a record of the same packet had been sealed. */
    lemma {:induction false} TilesExactlyUnlessLost()
      requires Valid()
      ensures Walk(messages, FlightStart, Log()) == Some(Cursor()) <==> !LosesRecords(events)
    {
      TilesExactlyUnlessSealFailed(messages, events);
    }

    /** If so, and the cursor has reached the end, the packets written carry exactly the messages of the
        flight. */
    lemma {:induction false} WrittenFlight(i: nat)
      requires Valid() && Cursor() == FlightEnd(messages) && !LosesRecords(events) && i < |messages|
      ensures Walk(messages, FlightStart, Log()).Some? && Carried(messages, FlightStart, Log(), i) == Content(messages[i])
    {
      TilesExactlyUnlessLost();
      FlightTiles(messages, Log(), i);
    }

    /** And once they have arrived, in whatever order and among whatever other true slices its limits allow, a
        receiver that waits for this flight hands out all its messages in order. */
    lemma {:induction false} WrittenFlightIsHandedOut(r: Receiver, limits: Limits, fs: seq<Fragment>)
      requires Valid() && Cursor() == FlightEnd(messages) && !LosesRecords(events) && |sent| < 0x1_0000
      requires r.Valid() && Agrees(sent, r) && r.readSeq == firstSeq
      requires forall f :: f in Fragments(Log()) ==> f in fs
      requires forall f :: f in fs ==> Honest(sent, f) && f.seqNum < 0x1_0000 && Allowed(r.readSeq, limits, f)
      ensures ReceiveAll(r, limits, fs).Some?
      ensures Run(ReceiveAll(r, limits, fs).value, ProcessTimes(|sent| - firstSeq)).Some?
      ensures Run(ReceiveAll(r, limits, fs).value, ProcessTimes(|sent| - firstSeq)).value.1 == sent[firstSeq..]
    {
      TilesExactlyUnlessLost();
      hide Play, Walk, Open, LosesRecords, Agrees, Honest, Receiver.Valid, Numbered, InFlight, Fragments, ReceiveAll, Run;
      hide Allowed, CursorOk, Flatten, LogOk;
      WrittenFlightIsDelivered(sent, messages, Log(), |sent| - firstSeq, r, limits, fs);
    }

    // -------------------------------------------------------------- building a flight

    method ClearOutgoingMessages()
      requires Valid()
      modifies this`messages, this`complete, this`outgoingWritten, this`outgoingOffset,
               this`packets, this`events, this`firstSeq
      ensures Valid() && messages == [] && !complete && Cursor() == FlightStart
      ensures packets == [] && events == [] && firstSeq == |sent|
    {
      messages, complete, outgoingWritten, outgoingOffset := [], false, 0, 0;
      packets, events, firstSeq := [], [], |sent|;
    }

    /** add_outgoing: any finished flight is discarded; then the message takes the next place. */
    method AddOutgoing(isCcs: bool, data: seq<byte>) returns (ok: bool)
      requires Valid() && handshakeWriteSeq < 0xFFFF
      requires var m := Outgoing(data, wEpoch, isCcs);
               !isCcs ==> Whole(m).Some? && Whole(m).value.seqNum == handshakeWriteSeq
      modifies this`messages, this`complete, this`outgoingWritten, this`outgoingOffset,
               this`packets, this`events, this`firstSeq, this`handshakeWriteSeq, this`sent
      ensures Valid()
      ensures var ms := if old(complete) then [] else old(messages);
              var m := Outgoing(data, old(wEpoch), isCcs);
              && ok == (|ms| < MAX_FLIGHT)
              && messages == (if ok then ms + [m] else ms)
              && sent == old(sent) + (if ok && !isCcs then [Message(Whole(m).value.typ, Whole(m).value.body)] else [])
      ensures !old(complete) ==>
                packets == old(packets) && events == old(events) && firstSeq == old(firstSeq) && Cursor() == old(Cursor())
      ensures old(complete) ==> packets == [] && events == [] && firstSeq == |old(sent)| && Cursor() == FlightStart
    {
      hide LogOk, Ready, Whole;
      if complete {
        ClearOutgoingMessages();
      }
      if |messages| >= MAX_FLIGHT {
        return false;
      }
      Append(isCcs, data);
      ok := true;
    }

    /** The message takes the next place in the flight, and a handshake message the next number. */
    method Append(isCcs: bool, data: seq<byte>)
      requires Valid() && handshakeWriteSeq < 0xFFFF && |messages| < MAX_FLIGHT
      requires var m := Outgoing(data, wEpoch, isCcs);
               !isCcs ==> Whole(m).Some? && Whole(m).value.seqNum == handshakeWriteSeq
      modifies this`messages, this`handshakeWriteSeq, this`sent
      ensures var m := Outgoing(data, wEpoch, isCcs);
              && messages == old(messages) + [m]
              && sent == old(sent) + (if isCcs then [] else [Message(Whole(m).value.typ, Whole(m).value.body)])
      ensures Valid()
    {
      ghost var m := Outgoing(data, wEpoch, isCcs);
      PlayMore(messages, m, SendingStart, events);
      StillNumbered(m);
      hide Play, Whole, Numbered, InFlight;
      if !isCcs {
        handshakeWriteSeq := handshakeWriteSeq + 1;
        sent := sent + [Message(Whole(m).value.typ, Whole(m).value.body)];
      }
      messages := messages + [Outgoing(data, wEpoch, isCcs)];
    }

    lemma {:induction false} StillNumbered(m: Outgoing)
      requires Ready() && (!m.isCcs ==> Whole(m).Some? && Whole(m).value.seqNum == |sent|)
      ensures var more := if m.isCcs then sent else sent + [Message(Whole(m).value.typ, Whole(m).value.body)];
              Numbered(more, messages + [m]) && forall s: nat :: firstSeq <= s < |more| ==> InFlight(messages + [m], s)
    {
      var ms, more := messages + [m], if m.isCcs then sent else sent + [Message(Whole(m).value.typ, Whole(m).value.body)];
      forall i | 0 <= i < |ms| && !ms[i].isCcs ensures NumberedMessage(more, ms[i]) {
        assert i < |messages| ==> ms[i] == messages[i] && NumberedMessage(sent, messages[i]);
      }
      forall s: nat | firstSeq <= s < |more| ensures InFlight(ms, s) {
        if s < |sent| {
          assert InFlight(messages, s);
          var i :| 0 <= i < |messages| && !messages[i].isCcs && Whole(messages[i]).Some?
                   && Whole(messages[i]).value.seqNum == s;
          assert ms[i] == messages[i];
        } else {
          assert ms[|messages|] == m;
        }
      }
    }

    /** dtls1_init_message, dtls1_finish_message and dtls1_add_message: header, body and the length
        filled in; then the message joins the flight, with the next number. */
    method AddMessage(typ: byte, body: seq<byte>) returns (ok: bool)
      requires Valid() && handshakeWriteSeq < 0xFFFF && |body| < 0x100_0000
      modifies this`messages, this`complete, this`outgoingWritten, this`outgoingOffset,
               this`packets, this`events, this`firstSeq, this`handshakeWriteSeq, this`sent
      ensures Valid()
      ensures var ms := if old(complete) then [] else old(messages);
              var whole := Fragment(typ, |body|, old(handshakeWriteSeq), 0, body);
              && ok == (|ms| < MAX_FLIGHT)
              && messages == (if ok then ms + [Outgoing(SerializeFragment(whole), old(wEpoch), false)] else ms)
              && (ok ==> Whole(messages[|ms|]) == Some(whole))
              && sent == old(sent) + (if ok then [Message(typ, body)] else [])
      ensures handshakeWriteSeq == old(handshakeWriteSeq) + if ok then 1 else 0
      ensures !old(complete) ==>
                packets == old(packets) && events == old(events) && firstSeq == old(firstSeq) && Cursor() == old(Cursor())
      ensures old(complete) ==> packets == [] && events == [] && firstSeq == |old(sent)| && Cursor() == FlightStart
    {
      var whole := Fragment(typ, |body|, handshakeWriteSeq, 0, body);
      var data := SerializeFragment(whole);
      FragmentRoundTrip(whole, []);
      assert data + [] == data;
      assert Whole(Outgoing(data, wEpoch, false)) == Some(whole);
      hide LogOk, SerializeFragment, Whole, HoldsFlight, Numbered;
      ok := AddOutgoing(false, data);
    }

    /** dtls1_set_write_state, as far as it concerns flights. */
    method SetWriteState(next: Cipher)
      requires Valid() && next.prefix <= next.overhead
      modifies this`wEpoch, this`current, this`previous
      ensures Valid() && previous == old(current) && current == next && wEpoch == (old(wEpoch) + 1) % 0x1_0000
    {
      wEpoch := (wEpoch + 1) % 0x1_0000;
      previous, current := current, next;
    }

    // -------------------------------------------------------------- sealing

    /** seal_next_message: the next record of the current message (SealsTheNext). The cursor moves within the
        message, and is left to the caller at its end. */
    method SealNextMessage(maxOut: nat, seal: Option<nat>) returns (ret: SealResult)
      requires KeysNow().Valid() && CursorOk(messages, Cursor()) && outgoingWritten < |messages|
      modifies this`outgoingOffset
      ensures ret == SealNext(KeysNow(), messages, old(Cursor()), maxOut, seal)
      ensures ret.SealSuccess? ==> outgoingOffset == 0
      ensures ret.SealPartial? ==>
                && CipherFor(KeysNow(), messages[outgoingWritten]).Some?
                && outgoingOffset == old(outgoingOffset) + maxOut - HEADER_LENGTH
                                     - CipherFor(KeysNow(), messages[outgoingWritten]).value.overhead
      ensures ret.SealError? || ret.NoProgress? ==> Cursor() == old(Cursor())
    {
      var msg := messages[outgoingWritten];
      var cipher := CipherFor(KeysNow(), msg);
      if cipher.None? {
        return SealError;
      }
      hide CursorOk, CipherFor, SealNext;
      if msg.isCcs {
        ret := SealChangeCipherSpec(maxOut, seal, cipher.value);
      } else {
        ret := SealFragment(maxOut, seal, cipher.value);
      }
    }

    /** The ChangeCipherSpec half of seal_next_message. */
    method SealChangeCipherSpec(maxOut: nat, seal: Option<nat>, cipher: Cipher) returns (ret: SealResult)
      requires outgoingWritten < |messages| && messages[outgoingWritten].isCcs
      requires CipherFor(KeysNow(), messages[outgoingWritten]) == Some(cipher)
      ensures ret == SealNext(KeysNow(), messages, Cursor(), maxOut, seal)
    {
      hide CipherFor;
      if maxOut < 1 + cipher.overhead {
        return NoProgress;
      }
      if seal.None? {
        return SealError;
      }
      ret := SealSuccess(Sealed(CHANGE_CIPHER_SPEC, [MT_CCS], Min(seal.value, 1 + cipher.overhead)));
    }

    /** The handshake half: the data is parsed, as much of the rest as fits becomes a fragment, and the
        offset moves by it. */
    method SealFragment(maxOut: nat, seal: Option<nat>, cipher: Cipher) returns (ret: SealResult)
      requires outgoingWritten < |messages| && !messages[outgoingWritten].isCcs && cipher.prefix <= cipher.overhead
      requires CipherFor(KeysNow(), messages[outgoingWritten]) == Some(cipher)
      modifies this`outgoingOffset
      ensures ret == SealNext(KeysNow(), messages, old(Cursor()), maxOut, seal)
      ensures ret.SealSuccess? ==> outgoingOffset == 0
      ensures ret.SealPartial? ==> outgoingOffset == old(outgoingOffset) + maxOut - HEADER_LENGTH - cipher.overhead
      ensures ret.SealError? || ret.NoProgress? ==> Cursor() == old(Cursor())
    {
      hide CipherFor, Whole, SerializeFragment, IsWire;
      var msg := messages[outgoingWritten];
      if Whole(msg).None? || outgoingOffset > |Whole(msg).value.body| {
        return SealError;
      }
      var whole := Whole(msg).value;
      if maxOut < HEADER_LENGTH + 1 + cipher.overhead || maxOut < cipher.prefix {
        return NoProgress;
      }
      var left := |whole.body| - outgoingOffset;
      var todo := left;
      if todo > maxOut - HEADER_LENGTH - cipher.overhead {
        todo := maxOut - HEADER_LENGTH - cipher.overhead;
      }
      assert HEADER_LENGTH + todo <= maxOut - cipher.prefix;
      SliceIsWire(whole, outgoingOffset, todo);
      var plaintext := SerializeFragment(SliceOf(whole, outgoingOffset, todo));
      if seal.None? {
        return SealError;
      }
      var record := Sealed(HANDSHAKE, plaintext, Min(seal.value, |plaintext| + cipher.overhead));
      if todo == left {
        outgoingOffset := 0;
        return SealSuccess(record);
      }
      outgoingOffset := outgoingOffset + todo;
      ret := SealPartial(record);
    }

    lemma {:induction false} SliceIsWire(whole: Fragment, off: nat, len: nat)
      requires IsWire(whole) && off + len <= |whole.body|
      ensures IsWire(SliceOf(whole, off, len))
    {
    }

    /** seal_next_packet: as many records as fit. They are a walk from the old cursor to the new one and fit
        the packet. If sealing fails, the cursor stays behind the records sealed before. */
    method SealNextPacket(maxOut: nat, seals: nat -> Option<nat>) returns (ok: bool, packet: seq<Sealed>, ghost failed: bool)
      requires KeysNow().Valid() && CursorOk(messages, Cursor()) && outgoingWritten < |messages|
      modifies this`outgoingWritten, this`outgoingOffset
      ensures CursorOk(messages, Cursor()) && Size(packet) <= maxOut
      ensures Walk(messages, old(Cursor()), packet) == Some(Cursor())
      ensures ok == (packet != [] && !failed)
      ensures PacketEvents(KeysNow(), messages, old(Cursor()), maxOut, seals, 0) ==
              SealedEvents(packet) + if failed then [SealFailed] else []
    {
      hide CipherFor, SealNext, Packing, Packed;
      ghost var k, ms, start := KeysNow(), messages, Cursor();
      packet, failed := [], false;
      BeginPacket(k, ms, start, maxOut, seals);
      var room: nat := maxOut;
      while outgoingWritten < |messages|
        invariant !failed && Packing(k, ms, start, maxOut, seals, Cursor(), room, packet)
        decreases |messages| - outgoingWritten
      {
        ghost var before := Cursor();
        PackingInside(k, ms, start, maxOut, seals, before, room, packet);
        var ret := SealNextMessage(room, seals(|packet|));
        if ret.SealError? || ret.NoProgress? {
          AddNothing(k, ms, start, maxOut, seals, before, room, packet);
        } else if ret.SealPartial? {
          AddLast(k, ms, start, maxOut, seals, before, room, packet);
        } else {
          AddMore(k, ms, start, maxOut, seals, before, room, packet);
        }
        if ret.SealError? {
          failed := true;
          IsPacked(k, ms, start, maxOut, seals, Cursor(), packet, failed);
          return false, packet, failed;
        }
        if ret.NoProgress? {
          IsPacked(k, ms, start, maxOut, seals, Cursor(), packet, failed);
          return packet != [], packet, failed;
        }
        packet, room := packet + [ret.record], room - ret.record.size;
        if ret.SealPartial? {
          IsPacked(k, ms, start, maxOut, seals, Cursor(), packet, failed);
          return true, packet, failed;
        }
        outgoingWritten := outgoingWritten + 1;
      }
      EndPacket(k, ms, start, maxOut, seals, Cursor(), room, packet);
      IsPacked(k, ms, start, maxOut, seals, Cursor(), packet, failed);
      ok := packet != [];
    }

    /** These records are in the packet so far, and lead to this cursor with this much room left. */
    ghost predicate Packing(k: Keys, ms: seq<Outgoing>, start: Cursor, maxOut: nat, seals: nat -> Option<nat>,
                            c: Cursor, room: nat, packet: seq<Sealed>)
    {
      && CursorOk(ms, c) && Walk(ms, start, packet) == Some(c) && Size(packet) + room == maxOut
      && PacketEvents(k, ms, start, maxOut, seals, 0) == SealedEvents(packet) + PacketEvents(k, ms, c, room, seals, |packet|)
    }

    /** These records are in the packet when it is done. */
    ghost predicate Packed(k: Keys, ms: seq<Outgoing>, start: Cursor, maxOut: nat, seals: nat -> Option<nat>,
                           c: Cursor, packet: seq<Sealed>, failed: bool)
    {
      && CursorOk(ms, c) && Walk(ms, start, packet) == Some(c) && Size(packet) <= maxOut
      && PacketEvents(k, ms, start, maxOut, seals, 0) == SealedEvents(packet) + if failed then [SealFailed] else []
    }

    lemma {:induction false} BeginPacket(k: Keys, ms: seq<Outgoing>, start: Cursor, maxOut: nat, seals: nat -> Option<nat>)
      requires CursorOk(ms, start)
      ensures Packing(k, ms, start, maxOut, seals, start, maxOut, [])
    {
      hide PacketEvents, CursorOk;
      assert SealedEvents([]) == [];
    }

    lemma {:induction false} EndPacket(k: Keys, ms: seq<Outgoing>, start: Cursor, maxOut: nat, seals: nat -> Option<nat>,
                                       c: Cursor, room: nat, packet: seq<Sealed>)
      requires Packing(k, ms, start, maxOut, seals, c, room, packet) && c.written >= |ms|
      ensures Packed(k, ms, start, maxOut, seals, c, packet, false)
    {
      hide CursorOk, Walk, Size, SealNext, SealedEvents;
    }

    lemma {:induction false} IsPacked(k: Keys, ms: seq<Outgoing>, start: Cursor, maxOut: nat, seals: nat -> Option<nat>,
                                      c: Cursor, packet: seq<Sealed>, failed: bool)
      requires Packed(k, ms, start, maxOut, seals, c, packet, failed)
      ensures CursorOk(ms, c) && Walk(ms, start, packet) == Some(c) && Size(packet) <= maxOut
      ensures PacketEvents(k, ms, start, maxOut, seals, 0) == SealedEvents(packet) + if failed then [SealFailed] else []
    {
    }

    /** Nothing comes after a failure, or without room. */
    lemma {:induction false} AddNothing(k: Keys, ms: seq<Outgoing>, start: Cursor, maxOut: nat, seals: nat -> Option<nat>,
                                        c: Cursor, room: nat, packet: seq<Sealed>)
      requires Packing(k, ms, start, maxOut, seals, c, room, packet) && c.written < |ms|
      requires var ret := SealNext(k, ms, c, room, seals(|packet|)); ret.SealError? || ret.NoProgress?
      ensures Packed(k, ms, start, maxOut, seals, c, packet, SealNext(k, ms, c, room, seals(|packet|)).SealError?)
    {
      hide SealNext, CipherFor, Walk, CursorOk, Size, SealedEvents, PacketEvents;
      FirstEvent(k, ms, c, room, seals, |packet|);
    }

    /** A part of a message is the last record. */
    lemma {:induction false} AddLast(k: Keys, ms: seq<Outgoing>, start: Cursor, maxOut: nat, seals: nat -> Option<nat>,
                                     c: Cursor, room: nat, packet: seq<Sealed>)
      requires Packing(k, ms, start, maxOut, seals, c, room, packet) && c.written < |ms|
      requires SealNext(k, ms, c, room, seals(|packet|)).SealPartial? && CipherFor(k, ms[c.written]).Some?
      ensures var r := SealNext(k, ms, c, room, seals(|packet|)).record;
              var len := room - HEADER_LENGTH - CipherFor(k, ms[c.written]).value.overhead;
              && r.size <= room && len >= 0
              && Packed(k, ms, start, maxOut, seals, At(c.written, c.offset + len), packet + [r], false)
    {
      hide SealNext, CipherFor, Walk, Next, CursorOk, Size, SealedEvents, PacketEvents;
      FirstEvent(k, ms, c, room, seals, |packet|);
      SealsTheNext(k, ms, c, room, seals(|packet|));
      Appended(ms, start, packet, c, SealNext(k, ms, c, room, seals(|packet|)).record);
    }

    /** After a whole message the packet goes on. */
    lemma {:induction false} AddMore(k: Keys, ms: seq<Outgoing>, start: Cursor, maxOut: nat, seals: nat -> Option<nat>,
                                     c: Cursor, room: nat, packet: seq<Sealed>)
      requires Packing(k, ms, start, maxOut, seals, c, room, packet) && c.written < |ms|
      requires SealNext(k, ms, c, room, seals(|packet|)).SealSuccess?
      ensures var r := SealNext(k, ms, c, room, seals(|packet|)).record;
              r.size <= room && Packing(k, ms, start, maxOut, seals, At(c.written + 1, 0), room - r.size, packet + [r])
    {
      hide SealNext, CipherFor, Walk, Next, CursorOk, Size, PacketEvents, SealedEvents;
      FirstEvent(k, ms, c, room, seals, |packet|);
      SealsTheNext(k, ms, c, room, seals(|packet|));
      var r := SealNext(k, ms, c, room, seals(|packet|)).record;
      Appended(ms, start, packet, c, r);
      var rest := PacketEvents(k, ms, At(c.written + 1, 0), room - r.size, seals, |packet| + 1);
      Regroup(SealedEvents(packet), RecordSealed(r), rest);
    }

    lemma {:induction false} Regroup(a: seq<FlightEvent>, e: FlightEvent, b: seq<FlightEvent>)
      ensures a + ([e] + b) == (a + [e]) + b
    {
    }

    lemma {:induction false} PackingInside(k: Keys, ms: seq<Outgoing>, start: Cursor, maxOut: nat, seals: nat -> Option<nat>,
                                           c: Cursor, room: nat, packet: seq<Sealed>)
      requires Packing(k, ms, start, maxOut, seals, c, room, packet)
      ensures CursorOk(ms, c)
    {
    }

    lemma {:induction false} Appended(ms: seq<Outgoing>, start: Cursor, packet: seq<Sealed>, c: Cursor, r: Sealed)
      requires Walk(ms, start, packet) == Some(c) && CursorOk(ms, c) && Next(ms, c, r).Some?
      ensures Walk(ms, start, packet + [r]) == Next(ms, c, r)
      ensures CursorOk(ms, Next(ms, c, r).value)
      ensures Size(packet + [r]) == Size(packet) + r.size
      ensures SealedEvents(packet + [r]) == SealedEvents(packet) + [RecordSealed(r)]
    {
      WalkStep(ms, start, packet, r);
      NextOk(ms, c, r);
      assert (packet + [r])[..|packet|] == packet;
    }

    // -------------------------------------------------------------- writing

    /** dtls1_update_mtu; the transport may or may not know an MTU. */
    method UpdateMtu(query: int)
      requires Valid()
      modifies this`mtu
      ensures Valid()
      ensures old(mtu) >= MIN_MTU || noQueryMtu ==> mtu == old(mtu)
      ensures old(mtu) < MIN_MTU && !noQueryMtu ==>
                mtu >= MIN_MTU && mtu == if MIN_MTU <= query <= 0x4000_0000 then query else DEFAULT_MTU
    {
      hide Play, Numbered, InFlight, Open, CursorOk;
      if mtu < MIN_MTU && !noQueryMtu {
        if query >= 0 && query <= 0x4000_0000 && query >= MIN_MTU {
          mtu := query;
        } else {
          mtu := DEFAULT_MTU;
        }
      }
    }

    /** The body of send_flight's loop: seal a packet and write it. What happens is exactly what the model
        says: a packet that the transport does not take is rewound and marks the connection as wanting to
        write; one whose sealing fails is not rewound. */
    method SendPacket(round: Round) returns (ret: int)
      requires Valid() && outgoingWritten < |messages|
      modifies this`wantsWrite, this`outgoingWritten, this`outgoingOffset, this`packets, this`events
      ensures Valid() && Added(old(packets), packets, mtu)
      ensures var es := RoundEvents(KeysNow(), messages, old(Cursor()), mtu, round);
              && events == old(events) + es
              && Play(messages, Between(old(Cursor()), old(Log())), es) == Some(Between(Cursor(), Log()))
              && (Goes(es) ==> ret == 1 && wantsWrite == old(wantsWrite) && Left() < old(Left()))
              && (!Goes(es) ==> packets == old(packets) && outgoingWritten < |messages|)
              && (Refused(es) ==> ret == round.bioRet <= 0 && wantsWrite && Cursor() == old(Cursor()))
              && (!Goes(es) && !Refused(es) ==> ret == -1 && wantsWrite == old(wantsWrite))
    {
      hide Numbered, CursorOk, HoldsFlight, PacketEvents, Size, Walk, Flatten;
      NoneAdded(packets, mtu);
      Inside();
      ghost var start, w := Cursor(), Log();
      var oldWritten, oldOffset := outgoingWritten, outgoingOffset;
      var ok, packet;
      ghost var failed;
      ok, packet, failed := SealNextPacket(mtu, round.seals);
      RoundResult(KeysNow(), messages, start, w, mtu, round, packet, failed, Cursor());
      RoundFailsShort(KeysNow(), messages, start, w, mtu, round);
      ghost var es := RoundEvents(KeysNow(), messages, start, mtu, round);
      PlayConcat(messages, SendingStart, events, es);
      OpenInParts(events, es);
      hide Play, RoundEvents, Open, Goes, Refused, Added, Position;
      events := events + es;
      if !ok {
        return -1;
      }
      ret := WritePacket(packet, round.bioRet, oldWritten, oldOffset);
    }

    /** The second half of it: write the packet, or rewind. */
    method WritePacket(packet: seq<Sealed>, bioRet: int, oldWritten: nat, oldOffset: nat) returns (ret: int)
      requires Ready() && CursorOk(messages, Cursor()) && CursorOk(messages, At(oldWritten, oldOffset)) && !Open(events)
      requires packet != [] && Size(packet) <= mtu
      requires Play(messages, SendingStart, events) ==
               Some(if bioRet > 0 then Between(Cursor(), Log() + packet) else Between(At(oldWritten, oldOffset), Log()))
      modifies this`wantsWrite, this`outgoingWritten, this`outgoingOffset, this`packets
      ensures Valid() && Added(old(packets), packets, mtu)
      ensures bioRet > 0 ==>
                && ret == 1 && wantsWrite == old(wantsWrite)
                && Cursor() == old(Cursor()) && Log() == old(Log()) + packet
      ensures bioRet <= 0 ==>
                && ret == bioRet && wantsWrite && packets == old(packets)
                && Cursor() == At(oldWritten, oldOffset)
    {
      hide Numbered, CursorOk, HoldsFlight, Size, Flatten, Play, Open, Added;
      if bioRet <= 0 {
        NoneAdded(packets, mtu);
        outgoingWritten, outgoingOffset := oldWritten, oldOffset;
        wantsWrite := true;
        return bioRet;
      }
      FlattenOneMore(packets, packet, mtu);
      packets := packets + [packet];
      ret := 1;
    }

    /** What is left of the flight, in units of the measure that every packet decreases. */
    ghost function Left(): nat
      requires Valid()
      reads this
    {
      Inside();
      PositionBound(messages, Cursor());
      Position(messages, FlightEnd(messages)) - Position(messages, Cursor())
    }

    lemma {:induction false} Inside()
      requires Valid()
      ensures CursorOk(messages, Cursor()) && CursorOk(messages, FlightEnd(messages))
      ensures outgoingWritten >= |messages| ==> Cursor() == FlightEnd(messages)
    {
    }

    lemma {:induction false} NoneAdded(packets: seq<seq<Sealed>>, mtu: nat)
      ensures Added(packets, packets, mtu)
    {
    }

    lemma {:induction false} OneAdded(first: seq<seq<Sealed>>, before: seq<seq<Sealed>>, after: seq<seq<Sealed>>, mtu: nat)
      requires Added(first, before, mtu) && Added(before, after, mtu)
      ensures Added(first, after, mtu)
    {
      assert after[|first|..] == before[|first|..] + after[|before|..];
    }

    lemma {:induction false} FlattenOneMore(packets: seq<seq<Sealed>>, packet: seq<Sealed>, mtu: nat)
      requires packet != [] && Size(packet) <= mtu
      ensures Flatten(packets + [packet]) == Flatten(packets) + packet && Added(packets, packets + [packet], mtu)
    {
      assert (packets + [packet])[..|packets|] == packets && (packets + [packet])[|packets|..] == [packet];
    }

    /** What becomes of a packet, by what was sealed. */
    lemma {:induction false} RoundResult(k: Keys, ms: seq<Outgoing>, c: Cursor, w: seq<Sealed>, mtu: nat, round: Round,
                                         packet: seq<Sealed>, failed: bool, next: Cursor)
      requires CursorOk(ms, c) && Walk(ms, c, packet) == Some(next)
      requires PacketEvents(k, ms, c, mtu, round.seals, 0) == SealedEvents(packet) + if failed then [SealFailed] else []
      ensures var es := RoundEvents(k, ms, c, mtu, round);
              && !Open(es) && CursorOk(ms, next) && (Goes(es) ==> Position(ms, next) > Position(ms, c))
              && (Goes(es) <==> packet != [] && !failed && round.bioRet > 0)
              && (Refused(es) <==> packet != [] && !failed && round.bioRet <= 0)
              && Play(ms, Between(c, w), es) ==
                   Some(if Goes(es) then Between(next, w + packet)
                        else if Refused(es) then Between(c, w)
                        else Between(next, w))
    {
      var sealed := SealedEvents(packet);
      SealedPlays(ms, Between(c, w), packet);
      WalkAdvances(ms, c, packet);
      EmptyWalk(ms, c);
      var none: seq<Sealed> := [];
      assert none + packet == packet;
      var t := Sending(next, c, packet, w);
      if failed {
        PlayConcat(ms, Between(c, w), sealed, [SealFailed]);
        PlayOne(ms, t, SealFailed);
      } else {
        assert sealed + [] == sealed;
        if packet != [] {
          var last := if round.bioRet > 0 then PacketWritten else PacketRefused;
          PlayConcat(ms, Between(c, w), sealed, [last]);
          PlayOne(ms, t, last);
        }
      }
      hide Play, Walk, CursorOk, PacketEvents;
    }

    lemma {:induction false} SealedPlays(ms: seq<Outgoing>, s: Sending, rs: seq<Sealed>)
      requires Walk(ms, s.cursor, rs).Some?
      ensures Play(ms, s, SealedEvents(rs)) == Some(s.(cursor := Walk(ms, s.cursor, rs).value, packet := s.packet + rs))
      decreases |rs|
    {
      hide Next;
      if rs == [] {
        assert s.packet + rs == s.packet;
      } else {
        var t := Apply(ms, s, RecordSealed(rs[0])).value;
        assert Play(ms, s, SealedEvents(rs)) == Play(ms, t, SealedEvents(rs)[1..]);
        assert Walk(ms, s.cursor, rs) == Walk(ms, t.cursor, rs[1..]);
        assert SealedEvents(rs)[1..] == SealedEvents(rs[1..]);
        assert s.packet + [rs[0]] + rs[1..] == s.packet + rs;
        hide Play, Walk, SealedEvents;
        SealedPlays(ms, t, rs[1..]);
      }
    }

    /** The loop of send_flight. */
    method SendPackets(rounds: nat -> Round) returns (ret: int)
      requires Valid()
      modifies this`wantsWrite, this`outgoingWritten, this`outgoingOffset, this`packets, this`events
      ensures Valid() && Added(old(packets), packets, mtu)
      ensures var es := FlightEvents(KeysNow(), messages, old(Cursor()), mtu, rounds, 0);
              && events == old(events) + es && ret <= 1
              && (ret == 1 <==> Cursor() == FlightEnd(messages)) && (ret == 1 ==> es == [] || Goes(es))
              && (Refused(es) ==> ret <= 0 && wantsWrite)
              && (!Refused(es) ==> wantsWrite == old(wantsWrite) && (ret == 1 || ret == -1))
    {
      hide DtlsSender.Valid, Added, CursorOk, FlightEvents, RoundEvents, Play, Position, Goes, Refused, Underway, Flatten;
      var i := 0;
      ghost var k, ms, start, es := KeysNow(), messages, Cursor(), [];
      NoneAdded(packets, mtu);
      Inside();
      Begin(k, ms, start, mtu, rounds);
      while outgoingWritten < |messages|
        invariant Valid() && Added(old(packets), packets, mtu) && wantsWrite == old(wantsWrite)
        invariant events == old(events) + es && Underway(k, ms, start, mtu, rounds, Cursor(), i, es)
        decreases Left()
      {
        ghost var c, w, before := Cursor(), Log(), packets;
        ghost var round := RoundEvents(k, ms, c, mtu, rounds(i));
        ret := SendPacket(rounds(i));
        OneAdded(old(packets), before, packets, mtu);
        Continue(k, ms, start, mtu, rounds, c, i, es, w, Cursor(), Log());
        assert old(events) + es + round == old(events) + (es + round);
        if ret <= 0 {
          return;
        }
        es := es + round;
        i := i + 1;
      }
      Inside();
      Finish(k, ms, start, mtu, rounds, Cursor(), i, es);
      ret := 1;
    }

    /** send_flight: packets are sealed and written until the flight is done. Everything that happens is
        what the model says, and every packet written fits the MTU. Records are lost only by a call that
        ends with a failure to seal; such a call returns -1 and, unlike one that the transport refuses,
        does not mark the connection as wanting to write. If a record with one byte of each message fits the
        MTU and nothing fails, the call succeeds. */
    method SendFlight(query: int, gotBuffer: bool, rounds: nat -> Round, flushed: bool) returns (ret: int)
      requires Valid()
      modifies this`mtu, this`wantsWrite, this`outgoingWritten, this`outgoingOffset, this`packets, this`events
      ensures Valid() && Added(old(packets), packets, mtu)
      ensures var es := if shutdown || !gotBuffer then []
                        else FlightEvents(KeysNow(), messages, old(Cursor()), mtu, rounds, 0);
              && events == old(events) + es && ret <= 1
              && (ret == 1 <==> !shutdown && gotBuffer && flushed && Cursor() == FlightEnd(messages))
              && (ret == 1 ==> !LosesRecords(es))
              && (LosesRecords(events) <==> old(LosesRecords(events)) || LosesRecords(es))
              && (LosesRecords(es) ==> ret == -1 && wantsWrite == old(wantsWrite))
              && (Refused(es) ==> ret <= 0 && wantsWrite)
      ensures shutdown || !gotBuffer ==> ret == -1 && wantsWrite == old(wantsWrite)
      ensures !shutdown && gotBuffer && flushed && Sendable(KeysNow(), messages, mtu) && AllGoWell(rounds) ==> ret == 1
    {
      hide Play, Numbered, InFlight, CursorOk, Open, Added, FlightEvents, LosesRecords, Goes, Refused, Sendable, AllGoWell;
      NoneAdded(packets, mtu);
      ghost var before, c, w := events, Cursor(), Log();
      assert before + [] == before;
      NothingLost();
      if shutdown {
        return -1;
      }
      UpdateMtu(query);
      NoneAdded(packets, mtu);
      if !gotBuffer {
        return -1;
      }
      ghost var es := FlightEvents(KeysNow(), messages, Cursor(), mtu, rounds, 0);
      FlightLoses(KeysNow(), mtu, rounds);
      ret := SendPackets(rounds);
      EndsWhere(messages, before, c, w, es, Cursor(), Log());
      if Sendable(KeysNow(), messages, mtu) && AllGoWell(rounds) {
        FlightReachesEnd(KeysNow(), messages, c, mtu, rounds, 0);
      }
      if ret != 1 {
        return;
      }
      if !flushed {
        wantsWrite := true;
        return -1;
      }
    }

    /** Where a call ends depends only on where it began. */
    lemma {:induction false} EndsWhere(ms: seq<Outgoing>, before: seq<FlightEvent>, c: Cursor, w: seq<Sealed>,
                                       es: seq<FlightEvent>, c': Cursor, w': seq<Sealed>)
      requires Play(ms, SendingStart, before) == Some(Between(c, w))
      requires Play(ms, SendingStart, before + es) == Some(Between(c', w'))
      ensures Play(ms, Between(c, []), es).Some? && Play(ms, Between(c, []), es).value.cursor == c'
    {
      PlayConcat(ms, SendingStart, before, es);
      PlayAfter(ms, Between(c, []), es, w);
      assert w + [] == w;
      hide Play;
    }

    lemma {:induction false} NothingLost()
      ensures !LosesRecords([]) && !Refused([])
    {
    }

    /** What a call loses. */
    lemma {:induction false} FlightLoses(k: Keys, mtu: nat, rounds: nat -> Round)
      requires Valid()
      ensures CursorOk(messages, Cursor())
      ensures var es := FlightEvents(k, messages, Cursor(), mtu, rounds, 0);
              && (LosesRecords(events + es) <==> LosesRecords(events) || LosesRecords(es))
              && (LosesRecords(es) ==> es != [] && !Goes(es) && !Refused(es))
    {
      var es := FlightEvents(k, messages, Cursor(), mtu, rounds, 0);
      FlightLeads(k, messages, Cursor(), mtu, rounds, 0);
      LosesInParts(events, es);
      if LosesRecords(es) { LosesAtTheEnd(es); }
    }

    /** dtls1_flush_flight */
    method FlushFlight(query: int, gotBuffer: bool, rounds: nat -> Round, flushed: bool) returns (ret: int)
      requires Valid()
      modifies this`complete, this`mtu, this`wantsWrite, this`outgoingWritten, this`outgoingOffset, this`packets, this`events
      ensures Valid() && complete && Added(old(packets), packets, mtu)
      ensures var es := if shutdown || !gotBuffer then []
                        else FlightEvents(KeysNow(), messages, old(Cursor()), mtu, rounds, 0);
              && events == old(events) + es && ret <= 1
              && (ret == 1 <==> !shutdown && gotBuffer && flushed && Cursor() == FlightEnd(messages))
              && (ret == 1 ==> !LosesRecords(es))
              && (LosesRecords(events) <==> old(LosesRecords(events)) || LosesRecords(es))
              && (LosesRecords(es) ==> ret == -1 && wantsWrite == old(wantsWrite))
              && (Refused(es) ==> ret <= 0 && wantsWrite)
      ensures !shutdown && gotBuffer && flushed && Sendable(KeysNow(), messages, mtu) && AllGoWell(rounds) ==> ret == 1
    {
      hide Play, Numbered, InFlight, CursorOk, Open, Added, FlightEvents, LosesRecords, Goes, Refused;
      complete := true;
      ret := SendFlight(query, gotBuffer, rounds, flushed);
    }

    /** dtls1_retransmit_outgoing_messages: from the start, so what was lost is sealed again, and a success
        means that this pass carried every message exactly once. */
    method RetransmitOutgoingMessages(query: int, gotBuffer: bool, rounds: nat -> Round, flushed: bool) returns (ret: int)
      requires Valid()
      modifies this`mtu, this`wantsWrite, this`outgoingWritten, this`outgoingOffset, this`packets, this`events
      ensures Valid() && FitMtu(packets, mtu)
      ensures events == if shutdown || !gotBuffer then [] else FlightEvents(KeysNow(), messages, FlightStart, mtu, rounds, 0)
      ensures !shutdown && gotBuffer && flushed && Sendable(KeysNow(), messages, mtu) && AllGoWell(rounds) ==> ret == 1
      ensures ret == 1 <==> !shutdown && gotBuffer && flushed && Cursor() == FlightEnd(messages)
      ensures ret == 1 ==> Walk(messages, FlightStart, Log()) == Some(FlightEnd(messages))
      ensures ret == 1 ==> forall i :: 0 <= i < |messages| ==>
                             Carried(messages, FlightStart, Log(), i) == Content(messages[i])
    {
      hide Walk, Numbered, InFlight, Carried, Content, FlightEvents, LosesRecords;
      outgoingWritten, outgoingOffset := 0, 0;
      packets, events := [], [];
      NothingLost();
      ret := SendFlight(query, gotBuffer, rounds, flushed);
      assert packets[0..] == packets;
      if ret == 1 {
        TilesExactlyUnlessLost();
        forall i | 0 <= i < |messages|
          ensures Carried(messages, FlightStart, Log(), i) == Content(messages[i])
        {
          WrittenFlight(i);
        }
      }
    }
  }
}
