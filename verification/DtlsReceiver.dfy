/** The receiving half of d1_both.cc: fragments are copied into per-message buffers in a ring of
    seven slots. Every method is proved to take the step DtlsDelivery describes. */
module DtlsReceiver {
  import opened Wrappers
  import opened PbWire
  import opened DtlsFragment
  import opened DtlsDelivery
  import opened DtlsReassembly

  /** The value a message under reassembly stands for. */
  ghost function Contents(m: HmFragment): Partial
    requires m.Valid()
    reads m, m.reassembly, m.data
  {
    Partial(m.typ, m.seqNum, m.msgLen, map k | k in m.Received() :: m.data[k])
  }

  ghost function SlotContents(m: HmFragment?): Option<Partial>
    requires m != null ==> m.Valid()
    reads if m == null then {} else {m, m.reassembly, m.data}
  {
    if m == null then None else Some(Contents(m))
  }

  lemma {:induction false} CompleteIsReleased(m: HmFragment)
    requires m.Valid()
    ensures Contents(m).Complete() <==> m.reassembly == null
  {
    if m.reassembly == null {
      forall k | 0 <= k < m.msgLen ensures k in Contents(m).arrived {
        assert Between(k, 0, m.msgLen);
      }
    } else {
      m.StillMissing();
      var k: nat :| k < m.msgLen && !BitAt(m.reassembly[..], k);
      assert k !in m.Received() && k !in Contents(m).arrived;
    }
  }

  /** The memcpy into the buffer. */
  method Copy(data: array<byte>, off: nat, body: seq<byte>)
    requires off + |body| <= data.Length
    modifies data
    ensures forall k :: 0 <= k < data.Length ==>
              data[k] == if off <= k < off + |body| then body[k - off] else old(data[k])
  {
    var i := 0;
    while i < |body|
      invariant i <= |body|
      invariant forall k :: 0 <= k < data.Length ==>
                  data[k] == if off <= k < off + i then body[k - off] else old(data[k])
    {
      data[off + i] := body[i];
      i := i + 1;
    }
  }

  /** The memcpy into the buffer, and the mark. */
  method Store(m: HmFragment, f: Fragment)
    requires m.Valid() && m.reassembly != null && f.off + |f.body| <= m.msgLen
    modifies m, m.reassembly, m.data
    ensures m.Valid() && (m.reassembly == null || m.reassembly == old(m.reassembly))
    ensures Contents(m) == old(Contents(m)).(arrived := old(Contents(m)).arrived + Slice(f))
  {
    hide BitAt;
    ghost var received := m.Received();
    Copy(m.data, f.off, f.body);
    assert m.Received() == received;
    m.Mark(f.off, f.off + |f.body|);
    ghost var now, before := Contents(m).arrived, old(Contents(m).arrived);
    forall k: nat ensures k in now <==> k in before + Slice(f) {
      assert k in Slice(f) <==> k in Range(f.off, f.off + |f.body|);
    }
    assert now == before + Slice(f);
  }

  /** The part of DTLS1_STATE that receives handshake messages. */
  class DtlsState {
    const maxMessageLen: nat          // ssl_max_handshake_message_len
    var rEpoch: nat
    var handshakeReadSeq: nat
    const incoming: array<HmFragment?>
    ghost var repr: set<object>

    /** Every slot owns its objects. */
    ghost predicate Owned()
      reads this, incoming, repr
    {
      && incoming.Length == MAX_FLIGHT && incoming in repr && this !in repr
      && (forall i :: 0 <= i < MAX_FLIGHT && incoming[i] != null ==> incoming[i] in repr && Owns(incoming[i]))
      && (forall i, j :: 0 <= i < j < MAX_FLIGHT && incoming[i] != null && incoming[j] != null ==>
            incoming[i].Repr() !! incoming[j].Repr())
    }

    ghost predicate Owns(m: HmFragment)
      reads this, repr, m
    {
      && m in repr && m.Repr() <= repr && incoming !in m.Repr()
      && (m.reassembly != null ==> m.reassembly in repr) && m.Valid()
    }

    /** The value the state stands for. */
    ghost function Abs(): Receiver
      requires Owned()
      reads this, incoming, repr
      ensures Abs().readSeq == handshakeReadSeq && |Abs().slots| == MAX_FLIGHT
      ensures forall i :: 0 <= i < MAX_FLIGHT ==> Abs().slots[i] == SlotContents(incoming[i])
    {
      Receiver(handshakeReadSeq,
               seq(MAX_FLIGHT, i requires 0 <= i < MAX_FLIGHT && Owned() reads this, incoming, repr =>
                                 SlotContents(incoming[i])))
    }

    ghost predicate Valid()
      reads this, incoming, repr
    {
      Owned() && Abs().Valid()
    }

    ghost function Allowed(): Limits
      reads this
    {
      Limits(maxMessageLen, rEpoch == 1)
    }

    constructor (maxMessageLen: nat)
      ensures Valid() && fresh(repr) && Abs() == EmptyReceiver && rEpoch == 0
    {
      this.maxMessageLen, rEpoch, handshakeReadSeq := maxMessageLen, 0, 0;
      incoming := new HmFragment?[MAX_FLIGHT](_ => null);
      repr := {incoming};
      new;
    }

    /** One fragment: the body of dtls1_open_handshake's loop. */
    method ReceiveFragment(f: Fragment) returns (ok: bool)
      requires Valid() && f.seqNum < 0x1_0000
      modifies this, repr
      ensures ok == Receive(old(Abs()), old(Allowed()), f).Some? && rEpoch == old(rEpoch)
      ensures ok ==> Valid() && fresh(repr - old(repr)) && Receive(old(Abs()), old(Allowed()), f) == Some(Abs())
    {
      ghost var r := Abs();
      var fragLen := |f.body|;
      if f.off > f.msgLen || f.off + fragLen > f.msgLen || f.msgLen > maxMessageLen {
        return false;
      }
      if rEpoch == 1 && f.seqNum != handshakeReadSeq {
        return false;
      }
      if f.seqNum < handshakeReadSeq || f.seqNum > handshakeReadSeq + MAX_FLIGHT {
        return true;
      }
      ReceiveInReach(r, Allowed(), f);
      hide Receive, Receiver.Valid, InSlot, Absorb, Contents, SlotContents, HmFragment.Valid;
      ok := ReceiveInWindow(f);
    }

    /** The step of a fragment that is not ignored. */
    lemma {:induction false} ReceiveInReach(r: Receiver, limits: Limits, f: Fragment)
      requires r.Valid() && f.seqNum < 0x1_0000
      requires f.off + |f.body| <= f.msgLen <= limits.maxMessageLen && (limits.encrypted ==> f.seqNum == r.readSeq)
      requires r.readSeq <= f.seqNum <= r.readSeq + MAX_FLIGHT
      ensures Receive(r, limits, f) == InWindow(r, f)
      ensures InWindow(r, f).Some? ==> InWindow(r, f).value.Valid()
    {
    }

    ghost function InWindow(r: Receiver, f: Fragment): Option<Receiver>
      requires |r.slots| == MAX_FLIGHT && r.readSeq <= f.seqNum
    {
      var i := f.seqNum % MAX_FLIGHT;
      var p := InSlot(r.slots[i], f);
      if f.seqNum - r.readSeq >= MAX_FLIGHT || p.typ != f.typ || p.msgLen != f.msgLen then None
      else Some(r.(slots := r.slots[i := Some(Absorb(p, f))]))
    }

    /** The rest of the loop body: find the message's buffer and add the fragment to it. */
    method ReceiveInWindow(f: Fragment) returns (ok: bool)
      requires Valid() && f.seqNum < 0x1_0000 && f.off + |f.body| <= f.msgLen && handshakeReadSeq <= f.seqNum
      modifies this, repr
      ensures rEpoch == old(rEpoch)
      ensures ok == InWindow(old(Abs()), f).Some?
      ensures ok ==> Owned() && fresh(repr - old(repr)) && InWindow(old(Abs()), f) == Some(Abs())
    {
      ghost var r, i := Abs(), f.seqNum % MAX_FLIGHT;
      var frag;
      ok, frag := GetIncomingMessage(f);
      if !ok { return; }
      hide HmFragment.Valid, Contents, Absorb, Receiver.Valid, Abs, HmFragment.Received, InSlot;
      SlotOf(frag);
      assert SlotContents(incoming[i]) == WithSlotOpen(r, f).slots[i];
      assert Contents(frag) == InSlot(r.slots[i], f);
      hide SlotContents, Owns, Owned;
      ghost var p := Some(Absorb(Contents(frag), f));
      assert WithSlotOpen(r, f).slots[i := p] == r.slots[i := p];
      ReceiveIntoSlot(f, frag);
    }

    /** The memcpy and the mark, unless the message was complete. */
    method ReceiveIntoSlot(f: Fragment, frag: HmFragment)
      requires Owned() && f.off + |f.body| <= f.msgLen
      requires frag == incoming[f.seqNum % MAX_FLIGHT] && frag.msgLen == f.msgLen
      modifies frag, frag.reassembly, frag.data
      ensures Owned()
      ensures var r, i := old(Abs()), f.seqNum % MAX_FLIGHT;
              Abs() == r.(slots := r.slots[i := Some(Absorb(old(Contents(frag)), f))])
    {
      ghost var r := Abs();
      CompleteIsReleased(frag);
      hide Contents, Slice, HmFragment.Valid;
      if frag.reassembly == null {
        SlotOf(frag);
        assert r.slots[f.seqNum % MAX_FLIGHT := Some(Contents(frag))] == r.slots;
        return;
      }
      StoreInSlot(f.seqNum % MAX_FLIGHT, frag, f);
    }

    /** Storing into one slot leaves the others as they are. */
    method StoreInSlot(idx: nat, frag: HmFragment, f: Fragment)
      requires Owned() && idx < MAX_FLIGHT && incoming[idx] == frag && frag.reassembly != null
      requires f.off + |f.body| <= frag.msgLen
      modifies frag, frag.reassembly, frag.data
      ensures Owned()
      ensures var p := old(Contents(frag));
              Abs() == old(Abs()).(slots := old(Abs()).slots[idx := Some(p.(arrived := p.arrived + Slice(f)))])
    {
      hide Contents, HmFragment.Valid, Slice;
      Store(frag, f);
      forall j | 0 <= j < MAX_FLIGHT && j != idx && incoming[j] != null
        ensures Owns(incoming[j]) && incoming[j].Repr() == old(incoming[j].Repr())
        ensures SlotContents(incoming[j]) == old(SlotContents(incoming[j]))
      {
        assert old(Owns(incoming[j]));
        assert incoming[j].Repr() !! old(frag.Repr());
      }
    }

    /** dtls1_get_incoming_message: the buffer for this fragment's message, made if need be. */
    method GetIncomingMessage(f: Fragment) returns (ok: bool, frag: HmFragment?)
      requires Valid() && f.seqNum < 0x1_0000 && handshakeReadSeq <= f.seqNum
      modifies this, repr
      ensures handshakeReadSeq == old(handshakeReadSeq) && rEpoch == old(rEpoch)
      ensures ok == InWindow(old(Abs()), f).Some?
      ensures ok ==> Valid() && fresh(repr - old(repr)) && Abs() == WithSlotOpen(old(Abs()), f)
      ensures ok ==> frag != null && frag == incoming[f.seqNum % MAX_FLIGHT] && frag.msgLen == f.msgLen
    {
      frag := null;
      if f.seqNum < handshakeReadSeq || f.seqNum - handshakeReadSeq >= MAX_FLIGHT {
        return false, null;
      }
      ghost var r := Abs();
      var idx := f.seqNum % MAX_FLIGHT;
      frag := incoming[idx];
      assert r.slots[idx] == SlotContents(frag);
      hide HmFragment.Valid, HmFragment.Received;
      if frag != null {
        assert r == WithSlotOpen(r, f);
        return frag.typ == f.typ && frag.msgLen == f.msgLen, frag;
      }
      frag := NewMessage(f);
      ok := true;
    }

    /** The ring once the fragment's message has a slot. */
    ghost function WithSlotOpen(r: Receiver, f: Fragment): Receiver
      requires |r.slots| == MAX_FLIGHT
    {
      var i := f.seqNum % MAX_FLIGHT;
      r.(slots := r.slots[i := Some(InSlot(r.slots[i], f))])
    }

    /** dtls1_hm_fragment_new into an empty slot. */
    method NewMessage(f: Fragment) returns (frag: HmFragment)
      requires Valid() && handshakeReadSeq <= f.seqNum < handshakeReadSeq + MAX_FLIGHT && f.seqNum < 0x1_0000
      requires incoming[f.seqNum % MAX_FLIGHT] == null
      modifies this, incoming
      ensures Valid() && fresh(repr - old(repr))
      ensures handshakeReadSeq == old(handshakeReadSeq) && rEpoch == old(rEpoch)
      ensures var i := f.seqNum % MAX_FLIGHT; frag == incoming[i] && frag.msgLen == f.msgLen
      ensures Abs() == WithSlotOpen(old(Abs()), f)
    {
      hide HmFragment.Valid;
      OpenSlotValid(Abs(), f);
      frag := new HmFragment(f.typ, f.seqNum, f.msgLen);
      assert Contents(frag) == Partial(f.typ, f.seqNum, f.msgLen, map[]);
      hide Contents, HmFragment.Received, Receiver.Valid;
      PutInSlot(f.seqNum % MAX_FLIGHT, frag);
    }

    /** A message of its own objects into an empty slot. */
    method PutInSlot(idx: nat, frag: HmFragment)
      requires Owned() && idx < MAX_FLIGHT && incoming[idx] == null
      requires frag.Valid() && frag.Repr() !! repr && this !in frag.Repr()
      modifies this`repr, incoming
      ensures Owned() && repr == old(repr) + frag.Repr() && incoming[idx] == frag
      ensures Abs() == old(Abs()).(slots := old(Abs()).slots[idx := Some(Contents(frag))])
    {
      hide HmFragment.Valid, Contents, HmFragment.Received, Abs;
      ghost var r := Abs();
      incoming[idx] := frag;
      repr := repr + frag.Repr();
      SlotOf(frag);
      forall j | 0 <= j < MAX_FLIGHT && j != idx && incoming[j] != null
        ensures Owns(incoming[j]) && incoming[j].Repr() == old(incoming[j].Repr())
        ensures SlotContents(incoming[j]) == old(SlotContents(incoming[j]))
      {
        assert old(Owns(incoming[j]));
      }
      assert Owned();
      hide SlotContents, Owned, Owns;
      assert Abs().slots == r.slots[idx := Some(Contents(frag))];
    }

    /** dtls1_open_handshake on the body of one record: fragment after fragment. */
    method OpenHandshake(record: seq<byte>) returns (ok: bool)
      requires Valid()
      modifies this, repr
      ensures ok == ReceiveRecord(old(Abs()), old(Allowed()), record).Some? && rEpoch == old(rEpoch)
      ensures ok ==> Valid() && fresh(repr - old(repr))
      ensures ok ==> ReceiveRecord(old(Abs()), old(Allowed()), record) == Some(Abs())
    {
      hide Owned, Receiver.Valid, Receive;
      var rest := record;
      while rest != []
        invariant Valid() && rEpoch == old(rEpoch) && fresh(repr - old(repr))
        invariant ReceiveRecord(old(Abs()), old(Allowed()), record) == ReceiveRecord(Abs(), old(Allowed()), rest)
        decreases |rest|
      {
        match ParseFragment(rest)
        case None =>
          return false;
        case Some((f, after)) =>
          ok := ReceiveFragment(f);
          if !ok { return; }
          rest := after;
      }
      ok := true;
    }

    /** dtls1_get_message: the message to be processed next, once its mask has been released. */
    method GetMessage() returns (msg: Option<(nat, seq<byte>)>)
      requires Valid()
      ensures msg == Current(Abs())
    {
      var frag := incoming[handshakeReadSeq % MAX_FLIGHT];
      assert Abs().slots[handshakeReadSeq % MAX_FLIGHT] == SlotContents(frag);
      if frag == null {
        return None;
      }
      CompleteIsReleased(frag);
      if frag.reassembly != null {
        return None;
      }
      msg := Some((frag.typ, frag.data[..]));
      assert msg.value.1 == Current(Abs()).value.1;
    }

    /** dtls1_next_message: drop the message just processed. */
    method NextMessage()
      requires Valid() && Current(Abs()).Some?
      modifies this, incoming
      ensures Valid() && repr == old(repr) && rEpoch == old(rEpoch)
      ensures Abs() == DtlsDelivery.NextMessage(old(Abs()))
    {
      ghost var r := Abs();
      ghost var next := DtlsDelivery.NextMessage(r);
      var idx := handshakeReadSeq % MAX_FLIGHT;
      hide HmFragment.Valid, Contents, HmFragment.Received, Abs, Receiver.Valid;
      incoming[idx] := null;
      handshakeReadSeq := (handshakeReadSeq + 1) % 0x1_0000;
      forall j | 0 <= j < MAX_FLIGHT && incoming[j] != null
        ensures Owns(incoming[j]) && incoming[j].Repr() == old(incoming[j].Repr())
        ensures SlotContents(incoming[j]) == old(SlotContents(incoming[j]))
      {
        assert old(Owns(incoming[j]));
      }
      assert Owned();
      assert Abs().slots == r.slots[idx := None];
    }

    lemma {:induction false} SlotOf(m: HmFragment)
      requires m.Valid()
      ensures SlotContents(m) == Some(Contents(m))
    {
    }

    lemma {:induction false} OpenSlotValid(r: Receiver, f: Fragment)
      requires r.Valid() && r.readSeq <= f.seqNum < r.readSeq + MAX_FLIGHT && f.seqNum < 0x1_0000
      requires r.slots[f.seqNum % MAX_FLIGHT].None?
      ensures WithSlotOpen(r, f).Valid()
    {
    }
  }
}
