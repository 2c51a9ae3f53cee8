/** Record numbers on the sending side: an epoch and a 48-bit sequence number (section 4.1 of
    RFC 6347), kept for the current and for the previous epoch. */
module DtlsSequence {
  import opened Wrappers
  import opened PbWire
  import opened NetworkOrder
  import opened DtlsReplay

  const MAX_SEQUENCE: nat := 0xFFFF_FFFF_FFFF
  const MAX_EPOCH: nat := 0xFFFF

  function BigEndian(s: seq<byte>): nat
    decreases |s|
  {
    if s == [] then 0 else BigEndian(s[..|s| - 1]) * 0x100 + s[|s| - 1]
  }

  lemma {:induction false} BigEndianBound(s: seq<byte>)
    ensures BigEndian(s) < Pow256(|s|)
    decreases |s|
  {
    if s != [] { BigEndianBound(s[..|s| - 1]); }
  }

  /** Different strings are different numbers. */
  lemma {:induction false} BigEndianInjective(s: seq<byte>, t: seq<byte>)
    requires |s| == |t| && BigEndian(s) == BigEndian(t)
    ensures s == t
    decreases |s|
  {
    if s != [] {
      BigEndianInjective(s[..|s| - 1], t[..|t| - 1]);
      assert s == s[..|s| - 1] + [s[|s| - 1]] && t == t[..|t| - 1] + [t[|t| - 1]];
    }
  }

  lemma {:induction false} BigEndianConcat(s: seq<byte>, t: seq<byte>)
    ensures BigEndian(s + t) == BigEndian(s) * Pow256(|t|) + BigEndian(t)
    decreases |t|
  {
    if t == [] {
      assert s + t == s;
    } else {
      var t' := t[..|t| - 1];
      BigEndianConcat(s, t');
      assert (s + t)[..|s + t| - 1] == s + t';
      Distribute(BigEndian(s), Pow256(|t'|), BigEndian(t'));
    }
  }

  lemma {:induction false} Distribute(a: nat, p: nat, b: nat)
    ensures (a * p + b) * 0x100 == a * (0x100 * p) + b * 0x100
  {
  }

  /** Counting up: the last byte that is not 0xFF goes up by one and those after it become zero. */
  lemma {:induction false} Carry(s: seq<byte>, t: seq<byte>, i: nat)
    requires i < |s| == |t| && s[..i] == t[..i] && s[i] < 0xFF && t[i] == s[i] + 1
    requires forall k :: i < k < |s| ==> s[k] == 0xFF && t[k] == 0
    ensures BigEndian(t) == BigEndian(s) + 1
    decreases |s|
  {
    var s', t' := s[..|s| - 1], t[..|t| - 1];
    if i == |s| - 1 {
      assert s' == t';
    } else {
      assert s'[..i] == s[..i] && t'[..i] == t[..i];
      Carry(s', t', i);
    }
  }

  lemma {:induction false} AllOnes(s: seq<byte>, t: seq<byte>)
    requires |s| == |t| && forall k :: 0 <= k < |s| ==> s[k] == 0xFF && t[k] == 0
    ensures BigEndian(s) == Pow256(|s|) - 1 && BigEndian(t) == 0
    decreases |s|
  {
    if s != [] { AllOnes(s[..|s| - 1], t[..|t| - 1]); }
  }

  /** ssl_record_sequence_update on the bytes from `from` on: count up, and say whether that worked.
      After 2^48 - 1 comes 0, with a failure. */
  method SequenceUpdate(a: array<byte>, from: nat) returns (ok: bool)
    requires from < a.Length
    modifies a
    ensures a[..from] == old(a[..from])
    ensures var n := BigEndian(old(a[from..])); var end := Pow256(a.Length - from) - 1;
            ok == (n != end) && BigEndian(a[from..]) == if n == end then 0 else n + 1
  {
    var i := a.Length;
    while i > from
      invariant from <= i <= a.Length
      invariant a[..i] == old(a[..i])
      invariant forall k :: i <= k < a.Length ==> old(a[k]) == 0xFF && a[k] == 0
    {
      i := i - 1;
      a[i] := if a[i] == 0xFF then 0 else a[i] + 1;
      if a[i] != 0 {
        ghost var before, after := old(a[from..]), a[from..];
        assert forall k :: 0 <= k < i - from ==> before[k] == old(a[from + k]) && after[k] == old(a[..i])[from + k];
        Carry(before, after, i - from);
        BigEndianBound(a[from..]);
        return true;
      }
    }
    AllOnes(old(a[from..]), a[from..]);
    ok := false;
  }

  // ---------------------------------------------------------------- the counters as a value

  /** The write epoch, and the next sequence numbers of this epoch and of the one before. */
  datatype Counters = Counters(epoch: nat, current: nat, last: nat)

  /** Sealing a record with the current or previous epoch's keys; `used` says the cipher got as far
      as using its number. Or a change of write keys. */
  datatype WriteEvent = Seal(previous: bool, used: bool) | NewKeys

  const Start: Counters := Counters(0, 0, 0)

  predicate Enabled(c: Counters, e: WriteEvent) {
    e.Seal? && e.previous ==> c.epoch >= 1
  }

  function Bump(n: nat): nat {
    if n == MAX_SEQUENCE then 0 else n + 1
  }

  function Step(c: Counters, e: WriteEvent): Counters {
    match e
    case Seal(previous, used) =>
      if !used then c else if previous then c.(last := Bump(c.last)) else c.(current := Bump(c.current))
    case NewKeys => Counters(if c.epoch == MAX_EPOCH then 0 else c.epoch + 1, 0, c.current)
  }

  /** The epoch and sequence number that a record is sealed with. */
  function Number(c: Counters, previous: bool): (nat, nat)
    requires previous ==> c.epoch >= 1
  {
    if previous then (c.epoch - 1, c.last) else (c.epoch, c.current)
  }

  function After(events: seq<WriteEvent>): Counters
    decreases |events|
  {
    if events == [] then Start else Step(After(events[..|events| - 1]), events[|events| - 1])
  }

  ghost predicate Possible(events: seq<WriteEvent>) {
    forall i :: 0 <= i < |events| ==> Enabled(After(events[..i]), events[i])
  }

  /** The numbers the cipher was used with, in order. */
  ghost function Numbers(events: seq<WriteEvent>): seq<(nat, nat)>
    requires Possible(events)
    decreases |events|
  {
    if events == [] then []
    else
      var before, e := events[..|events| - 1], events[|events| - 1];
      PossiblePrefix(events);
      Numbers(before) + if e.Seal? && e.used then [Number(After(before), e.previous)] else []
  }

  lemma {:induction false} PossiblePrefix(events: seq<WriteEvent>)
    requires Possible(events) && events != []
    ensures Possible(events[..|events| - 1])
    ensures Enabled(After(events[..|events| - 1]), events[|events| - 1])
  {
    var before := events[..|events| - 1];
    forall i | 0 <= i < |before| ensures Enabled(After(before[..i]), before[i]) {
      assert before[..i] == events[..i] && before[i] == events[i];
    }
  }

  /** The step that makes a counter wrap around: the failing seal, or the epoch overflow. */
  predicate Wraps(c: Counters, e: WriteEvent) {
    match e
    case Seal(previous, used) => used && (if previous then c.last else c.current) == MAX_SEQUENCE
    case NewKeys => c.epoch == MAX_EPOCH
  }

  ghost predicate NeverWraps(events: seq<WriteEvent>) {
    forall i :: 0 <= i < |events| ==> !Wraps(After(events[..i]), events[i])
  }

  lemma {:induction false} NeverWrapsPrefix(events: seq<WriteEvent>)
    requires NeverWraps(events) && events != []
    ensures NeverWraps(events[..|events| - 1])
    ensures !Wraps(After(events[..|events| - 1]), events[|events| - 1])
  {
    var before := events[..|events| - 1];
    forall i | 0 <= i < |before| ensures !Wraps(After(before[..i]), before[i]) {
      assert before[..i] == events[..i] && before[i] == events[i];
    }
  }

  /** A number of the current or previous epoch that its counter has passed. */
  ghost predicate Passed(c: Counters, p: (nat, nat)) {
    (p.0 == c.epoch && p.1 < c.current) || (p.0 + 1 == c.epoch && p.1 < c.last)
  }

  /** What has been used so far, by the counters: of this epoch and of the one before exactly the
      numbers below the counter, of later epochs none. */
  ghost predicate Accounts(c: Counters, used: seq<(nat, nat)>) {
    && (forall p :: p in used ==> Passed(c, p) || p.0 + 1 < c.epoch)
    && (forall p :: Passed(c, p) ==> p in used)
  }

  lemma {:induction false} StepAccounts(c: Counters, e: WriteEvent, used: seq<(nat, nat)>)
    requires Accounts(c, used) && Enabled(c, e) && !Wraps(c, e)
    ensures !(e.Seal? && e.used) ==> Accounts(Step(c, e), used)
    ensures e.Seal? && e.used ==> Number(c, e.previous) !in used && Accounts(Step(c, e), used + [Number(c, e.previous)])
  {
    forall p | Passed(Step(c, e), p)
      ensures p in used || (e.Seal? && e.used && p == Number(c, e.previous))
    {
      assert Passed(c, p) || (e.Seal? && e.used && p == Number(c, e.previous));
    }
    forall p | p in used
      ensures Passed(Step(c, e), p) || p.0 + 1 < Step(c, e).epoch
    {
      assert Passed(c, p) || p.0 + 1 < c.epoch;
    }
  }

  /** While no counter has wrapped around, no number has been used twice, and the numbers of the
      last two epochs have been used without a gap. */
  lemma {:induction false} NumbersAccounted(events: seq<WriteEvent>)
    requires Possible(events) && NeverWraps(events)
    ensures Distinct(Numbers(events)) && Accounts(After(events), Numbers(events))
    decreases |events|
  {
    if events != [] {
      var before, e := events[..|events| - 1], events[|events| - 1];
      PossiblePrefix(events);
      NeverWrapsPrefix(events);
      NumbersAccounted(before);
      StepAccounts(After(before), e, Numbers(before));
      hide Accounts, Step, Wraps, Number;
    }
  }

  /** Unique record numbers. */
  lemma {:induction false} UniqueRecordNumbers(events: seq<WriteEvent>)
    requires Possible(events) && NeverWraps(events)
    ensures Distinct(Numbers(events))
  {
    NumbersAccounted(events);
  }

  lemma {:induction false} Extend(events: seq<WriteEvent>, e: WriteEvent)
    requires Possible(events) && Enabled(After(events), e)
    ensures Possible(events + [e]) && After(events + [e]) == Step(After(events), e)
    ensures Numbers(events + [e]) ==
            Numbers(events) + if e.Seal? && e.used then [Number(After(events), e.previous)] else []
  {
    var all := events + [e];
    assert all[..|all| - 1] == events;
    forall i | 0 <= i < |all| ensures Enabled(After(all[..i]), all[i]) {
      assert all[..i] == events[..i];
      if i == |events| { assert all[..i] == events; }
    }
  }

  /** The condition is exact for sequence numbers: the seal that fails because its counter wraps
      around leaves the counter at 0, and the next record sealed with the same keys repeats a number. */
  lemma {:induction false} WrapRepeats(events: seq<WriteEvent>, previous: bool)
    requires Possible(events) && NeverWraps(events)
    requires Enabled(After(events), Seal(previous, true)) && Wraps(After(events), Seal(previous, true))
    ensures var again := events + [Seal(previous, true)] + [Seal(previous, true)];
            Possible(again) && !Distinct(Numbers(again))
  {
    hide Possible, Numbers, After, Distinct, NeverWraps;
    var e, c := Seal(previous, true), After(events);
    var top, zero := Number(c, previous), (Number(c, previous).0, 0);
    ZeroWasUsed(events, previous);
    Extend(events, e);
    Extend(events + [e], e);
    assert Numbers(events + [e] + [e]) == Numbers(events) + [top] + [zero];
    Repeats(Numbers(events), [top], zero);
  }

  lemma {:induction false} ZeroWasUsed(events: seq<WriteEvent>, previous: bool)
    requires Possible(events) && NeverWraps(events)
    requires Enabled(After(events), Seal(previous, true)) && Wraps(After(events), Seal(previous, true))
    ensures (Number(After(events), previous).0, 0) in Numbers(events)
  {
    NumbersAccounted(events);
    assert Passed(After(events), (Number(After(events), previous).0, 0));
  }

  /** And for epochs: after 2^16 changes of keys epoch 0 comes again, and with it its numbers. */
  lemma {:induction false} EpochOverflowRepeats(events: seq<WriteEvent>)
    requires Possible(events) && After(events).epoch == MAX_EPOCH && (0, 0) in Numbers(events)
    ensures var again := events + [NewKeys] + [Seal(false, true)];
            Possible(again) && !Distinct(Numbers(again))
  {
    Extend(events, NewKeys);
    Extend(events + [NewKeys], Seal(false, true));
    Repeats(Numbers(events), [], (0, 0));
    assert Numbers(events) + [] == Numbers(events);
  }

  lemma {:induction false} Repeats<T>(s: seq<T>, t: seq<T>, x: T)
    requires x in s
    ensures !Distinct(s + t + [x])
  {
    var i :| 0 <= i < |s| && s[i] == x;
    var all := s + t + [x];
    assert all[i] == all[|all| - 1];
  }

  // ---------------------------------------------------------------- the code

  /** The write half of the connection state: eight-byte sequence buffers, of which the last six
      bytes count. */
  class WriteState {
    var wEpoch: nat
    const writeSequence: array<byte>
    const lastWriteSequence: array<byte>

    ghost predicate Valid()
      reads this
    {
      && wEpoch <= MAX_EPOCH && writeSequence.Length == 8 && lastWriteSequence.Length == 8
      && writeSequence != lastWriteSequence
    }

    ghost function Value(): Counters
      requires Valid()
      reads this, writeSequence, lastWriteSequence
    {
      Counters(wEpoch, BigEndian(writeSequence[2..]), BigEndian(lastWriteSequence[2..]))
    }

    constructor ()
      ensures Valid() && Value() == Start && fresh(writeSequence) && fresh(lastWriteSequence)
    {
      wEpoch := 0;
      writeSequence := new byte[8](_ => 0);
      lastWriteSequence := new byte[8](_ => 0);
      new;
      ghost var ones := seq(6, _ => 0xFF as byte);
      AllOnes(ones, writeSequence[2..]);
      AllOnes(ones, lastWriteSequence[2..]);
    }

    /** dtls_seal_record: the record, or None. What the cipher makes of the plaintext is a
        parameter; None is a failure to seal. */
    method SealRecord(typ: byte, version: nat, previous: bool, maxOut: nat, ciphertext: Option<seq<byte>>)
      returns (record: Option<seq<byte>>)
      requires Valid() && version < 0x1_0000 && (previous ==> wEpoch >= 1)
      modifies writeSequence, lastWriteSequence
      ensures Valid() && wEpoch == old(wEpoch)
      ensures var used := maxOut >= 13 && ciphertext.Some?;
              && Value() == Step(old(Value()), Seal(previous, used))
              && record.Some? == (used && |ciphertext.value| < 0x1_0000 && !Wraps(old(Value()), Seal(previous, used)))
      ensures record.Some? ==>
                var (epoch, n) := Number(old(Value()), previous);
                && |record.value| == 13 + |ciphertext.value| && record.value[..3] == [typ] + BigEndian2(version)
                && record.value[3..5] == BigEndian2(epoch) && BigEndian(record.value[5..11]) == n
                && record.value[11..13] == BigEndian2(|ciphertext.value|) && record.value[13..] == ciphertext.value
    {
      assert Pow256(6) - 1 == MAX_SEQUENCE;
      var epoch := if previous then wEpoch - 1 else wEpoch;
      var s := if previous then lastWriteSequence else writeSequence;
      if maxOut < 13 {
        return None;
      }
      var header := [typ] + BigEndian2(version) + BigEndian2(epoch) + s[2..];
      if ciphertext.None? {
        return None;
      }
      var ok := SequenceUpdate(s, 2);
      if !ok || |ciphertext.value| >= 0x1_0000 {
        return None;
      }
      record := Some(header + BigEndian2(|ciphertext.value|) + ciphertext.value);
      assert record.value[5..11] == old(s[2..]);
    }

    /** dtls1_set_write_state: the keys themselves are not modelled. */
    method SetWriteState()
      requires Valid()
      modifies this, writeSequence, lastWriteSequence
      ensures Valid() && Value() == Step(old(Value()), NewKeys)
    {
      wEpoch := if wEpoch == MAX_EPOCH then 0 else wEpoch + 1;
      forall k | 0 <= k < 8 { lastWriteSequence[k] := writeSequence[k]; }
      forall k | 0 <= k < 8 { writeSequence[k] := 0; }
      assert lastWriteSequence[2..] == old(writeSequence[2..]);
      AllOnes(seq(6, _ => 0xFF as byte), writeSequence[2..]);
    }
  }
}
