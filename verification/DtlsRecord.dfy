/** Opening DTLS records (dtls_open_record in dtls_record.cc): header, epoch, replay window, cipher. */
module DtlsRecord {
  import opened Wrappers
  import opened PbWire
  import opened NetworkOrder
  import opened DtlsReplay
  import opened DtlsSequence

  const MAX_PLAIN_LENGTH: nat := 16384        // SSL3_RT_MAX_PLAIN_LENGTH
  const MAX_ENCRYPTED_LENGTH: nat := 16704    // SSL3_RT_MAX_ENCRYPTED_LENGTH
  const RECORD_HEADER_LENGTH: nat := 13       // DTLS1_RT_HEADER_LENGTH
  const ALERT: byte := 21                     // SSL3_RT_ALERT

  /** A record on the wire; `sequence` is the epoch and the sequence number, eight bytes. */
  datatype Record = Record(typ: byte, version: nat, sequence: seq<byte>, body: seq<byte>)

  /** The record at the front of a datagram, and what follows it. */
  function ParseRecord(s: seq<byte>): (r: Option<(Record, seq<byte>)>)
    ensures r.Some? ==> |r.value.0.sequence| == 8 && |r.value.1| == |s| - RECORD_HEADER_LENGTH - |r.value.0.body|
  {
    if |s| < RECORD_HEADER_LENGTH then None
    else
      var len := FromBigEndian2(s[11..13]);
      if |s| < RECORD_HEADER_LENGTH + len || len > MAX_ENCRYPTED_LENGTH then None
      else
        var end := RECORD_HEADER_LENGTH + len;
        Some((Record(s[0], FromBigEndian2(s[1..3]), s[3..11], s[RECORD_HEADER_LENGTH..end]), s[end..]))
  }

  function Epoch(r: Record): nat
    requires |r.sequence| == 8
  {
    FromBigEndian2(r.sequence[..2])
  }

  /** What dtls_seal_record writes is what dtls_open_record reads: the record, its epoch and its
      number, whatever follows in the datagram. */
  lemma {:induction false} SealedRecordOpens(s: seq<byte>, typ: byte, version: nat, epoch: nat, n: nat,
                                             ct: seq<byte>, t: seq<byte>)
    requires version < 0x1_0000 && epoch < 0x1_0000 && |ct| <= MAX_ENCRYPTED_LENGTH
    requires |s| == RECORD_HEADER_LENGTH + |ct| && s[..3] == [typ] + BigEndian2(version)
    requires s[3..5] == BigEndian2(epoch) && BigEndian(s[5..11]) == n
    requires s[11..13] == BigEndian2(|ct|) && s[13..] == ct
    ensures ParseRecord(s + t) == Some((Record(typ, version, s[3..11], ct), t))
    ensures Epoch(Record(typ, version, s[3..11], ct)) == epoch
    ensures BigEndian(s[3..11]) == epoch * 0x1_0000_0000_0000 + n
  {
    var all := s + t;
    assert all[0] == s[..3][0] && all[1..3] == s[..3][1..3] == BigEndian2(version);
    assert all[3..11] == s[3..11] && all[11..13] == s[11..13] && all[13..13 + |ct|] == s[13..] && all[13 + |ct|..] == t;
    BigEndian2RoundTrip(version);
    BigEndian2RoundTrip(epoch);
    BigEndian2RoundTrip(|ct|);
    assert s[3..11][..2] == s[3..5];
    assert s[3..11] == s[3..5] + s[5..11];
    BigEndianConcat(s[3..5], s[5..11]);
    assert Pow256(6) == 0x1_0000_0000_0000;
    TwoBytes(epoch);
  }

  lemma {:induction false} TwoBytes(v: nat)
    requires v < 0x1_0000
    ensures BigEndian(BigEndian2(v)) == v
  {
    var s := BigEndian2(v);
    assert s[..1] == [s[0]] && s[..1][..0] == [];
    assert BigEndian([s[0]]) == s[0];
    assert v / 0x100 % 0x100 == v / 0x100;
  }

  /** to_u64_be, in 64-bit arithmetic. */
  method ToU64Be(s: seq<byte>) returns (ret: nat)
    requires |s| == 8
    ensures ret == BigEndian(s)
  {
    ret := 0;
    var i := 0;
    while i < 8
      invariant i <= 8 && ret == BigEndian(s[..i])
    {
      BigEndianBound(s[..i]);
      Small(i);
      assert s[..i + 1][..i] == s[..i];
      ret := ret * 0x100 % U64 + s[i];
      i := i + 1;
    }
    assert s[..8] == s;
  }

  lemma {:induction false} Small(i: nat)
    requires i < 8
    ensures Pow256(i) * 0x100 <= U64
  {
    Pow256Values();
    assert Pow256(7) * 0x100 == U64;
    GrowsTo(i, 7);
  }

  lemma {:induction false} GrowsTo(i: nat, j: nat)
    requires i <= j
    ensures Pow256(i) <= Pow256(j)
    decreases j
  {
    if i < j { GrowsTo(i, j - 1); }
  }

  datatype OpenResult =
    | CloseNotify
    | NeedMore
    | Discard(consumed: nat)
    | RecordOverflow(consumed: nat)
    | ProcessAlert(plaintext: seq<byte>, consumed: nat)
    | Success(typ: byte, plaintext: seq<byte>, consumed: nat)

  /** What of the read state decides about a record. */
  datatype Reading = Reading(closed: bool, nullCipher: bool, recordVersion: nat, epoch: nat)

  /** Before the first keys any DTLS version will do, afterwards only the negotiated one. */
  predicate VersionOk(c: Reading, version: nat) {
    if c.nullCipher then version / 0x100 == 0xfe else version == c.recordVersion
  }

  /** What dtls_open_record answers, when these numbers have been accepted in the epoch and the cipher makes
      this of the body: a record is accepted exactly when it is well formed, of the epoch being read,
      authentic, not too long, and its number is neither in the window's memory nor stale. */
  ghost function Outcome(c: Reading, seen: set<nat>, datagram: seq<byte>, verdict: Option<seq<byte>>): OpenResult {
    if c.closed then CloseNotify
    else if datagram == [] then NeedMore
    else
      match ParseRecord(datagram)
      case None => Discard(|datagram|)
      case Some((record, rest)) =>
        var n, consumed := BigEndian(record.sequence), |datagram| - |rest|;
        if !VersionOk(c, record.version) then Discard(|datagram|)
        else if Epoch(record) != c.epoch || n in seen || Stale(seen, n) || verdict.None? then Discard(consumed)
        else if |verdict.value| > MAX_PLAIN_LENGTH then RecordOverflow(consumed)
        else if record.typ == ALERT then ProcessAlert(verdict.value, consumed)
        else Success(record.typ, verdict.value, consumed)
  }

  /** The epoch and sequence number of the record at the front of a datagram. */
  function NumberOf(datagram: seq<byte>): nat
    requires ParseRecord(datagram).Some?
  {
    BigEndian(ParseRecord(datagram).value.0.sequence)
  }

  /** A record of the sender's, in the epoch and version that both sides use and with a number that is new to
      the receiver, is accepted, with the plaintext that the cipher finds, wherever in a datagram it stands;
      in another epoch, in another version once there are keys, or with a number seen before it is not. */
  lemma {:induction false} SealedRecordAccepted(c: Reading, seen: set<nat>, s: seq<byte>, typ: byte, version: nat,
                                                epoch: nat, n: nat, ct: seq<byte>, p: seq<byte>, t: seq<byte>)
    requires version < 0x1_0000 && epoch < 0x1_0000 && |ct| <= MAX_ENCRYPTED_LENGTH && |p| <= MAX_PLAIN_LENGTH
    requires |s| == RECORD_HEADER_LENGTH + |ct| && s[..3] == [typ] + BigEndian2(version)
    requires s[3..5] == BigEndian2(epoch) && BigEndian(s[5..11]) == n
    requires s[11..13] == BigEndian2(|ct|) && s[13..] == ct
    requires !c.closed
    ensures var num := epoch * 0x1_0000_0000_0000 + n;
            var r := Outcome(c, seen, s + t, Some(p));
            if (if c.nullCipher then 0xfe00 <= version <= 0xfeff else version == c.recordVersion)
               && epoch == c.epoch && num !in seen && !Stale(seen, num)
            then r == (if typ == 21 then ProcessAlert(p, |s|) else Success(typ, p, |s|))
            else r.Discard?
  {
    SealedRecordOpens(s, typ, version, epoch, n, ct, t);
    hide Stale, ParseRecord, Epoch, BigEndian, BigEndian2;
    assert s + t != [];
  }

  /** The read half of the connection state. `seen` is what the window stands for: the numbers of
      the records accepted in this epoch, which `accepted` lists in order. */
  class ReadState {
    var rEpoch: nat
    const bitmap: Bitmap
    var closed: bool          // read_shutdown is ssl_shutdown_close_notify
    var nullCipher: bool
    var recordVersion: nat
    ghost var accepted: seq<nat>

    ghost predicate Valid()
      reads this, bitmap
    {
      Remembers(bitmap.Value(), Seen()) && Distinct(accepted)
    }

    ghost function Seen(): set<nat>
      reads this
    {
      set n | n in accepted
    }

    constructor ()
      ensures Valid() && fresh(bitmap) && rEpoch == 0 && accepted == []
    {
      rEpoch, closed, nullCipher, recordVersion := 0, false, true, 0xfeff;
      bitmap := new Bitmap();
      accepted := [];
      new;
      EmptyRemembersNothing();
    }

    function State(): Reading
      reads this
    {
      Reading(closed, nullCipher, recordVersion, rEpoch)
    }

    /** dtls_open_record. What the cipher makes of the body is a parameter; None is a record that is
        not authentic. A record that is accepted is remembered, so the numbers accepted in an epoch never
        repeat. */
    method OpenRecord(datagram: seq<byte>, verdict: Option<seq<byte>>) returns (r: OpenResult)
      requires Valid()
      modifies this`accepted, bitmap
      ensures Valid()
      ensures r == Outcome(State(), old(Seen()), datagram, verdict)
      ensures r.ProcessAlert? || r.Success? ==>
                ParseRecord(datagram).Some? && accepted == old(accepted) + [NumberOf(datagram)]
      ensures !r.ProcessAlert? && !r.Success? ==> accepted == old(accepted) && bitmap.Value() == old(bitmap.Value())
    {
      hide Remembers, Recorded, Discards, Stale;
      if closed {
        return CloseNotify;
      }
      if datagram == [] {
        return NeedMore;
      }
      var parsed := ParseRecord(datagram);
      if parsed.None? {
        return Discard(|datagram|);
      }
      var (record, rest) := parsed.value;
      if !VersionOk(State(), record.version) {
        return Discard(|datagram|);
      }
      var consumed := |datagram| - |rest|;
      var seqNum := ToU64Be(record.sequence);
      var discard := bitmap.ShouldDiscard(seqNum);
      DiscardExactly(bitmap.Value(), Seen(), seqNum);
      if Epoch(record) != rEpoch || discard {
        return Discard(consumed);
      }
      if verdict.None? {
        return Discard(consumed);
      }
      if |verdict.value| > MAX_PLAIN_LENGTH {
        return RecordOverflow(consumed);
      }
      RecordRemembers(bitmap.Value(), Seen(), seqNum);
      bitmap.Record(seqNum);
      accepted := accepted + [seqNum];
      assert Seen() == old(Seen()) + {seqNum};
      r := if record.typ == ALERT then ProcessAlert(verdict.value, consumed)
           else Success(record.typ, verdict.value, consumed);
    }

    /** dtls1_set_read_state: a new epoch, with an empty window. Refused while handshake data of the
        old epoch is left over. */
    method SetReadState(unprocessed: bool, version: nat) returns (ok: bool)
      requires Valid()
      modifies this, bitmap
      ensures Valid() && ok == !unprocessed
      ensures ok ==> rEpoch == (old(rEpoch) + 1) % 0x1_0000 && accepted == [] && bitmap.Value() == EmptyWindow
      ensures ok ==> !nullCipher && recordVersion == version && closed == old(closed)
      ensures !ok ==> rEpoch == old(rEpoch) && accepted == old(accepted) && bitmap.Value() == old(bitmap.Value())
    {
      if unprocessed {
        return false;
      }
      rEpoch := (rEpoch + 1) % 0x1_0000;
      bitmap.bits, bitmap.maxSeqNum := 0, 0;
      nullCipher, recordVersion := false, version;
      accepted := [];
      EmptyRemembersNothing();
      ok := true;
    }
  }
}
