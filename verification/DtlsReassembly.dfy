/** Reassembly of one handshake message from fragments (hm_fragment in d1_both.cc): the bitmask that
    remembers which bytes of the body have arrived. */
module DtlsReassembly {
  import opened PbWire

  predicate Bit(w: bv8, i: nat)
    requires i < 8
  {
    (w >> i) & 1 == 1
  }

  /** bit_range: a byte with bits start, inclusive, to end, exclusive, set. The C code computes in
      unsigned int and truncates. */
  function BitRange(start: nat, end: nat): bv8
    requires start <= 8 && end <= 8
  {
    var wide: bv32 := !((1 << start) - 1) & ((1 << end) - 1);
    (wide & 0xFF) as bv8
  }

  lemma {:induction false} BitRangeBits(start: nat, end: nat, i: nat)
    requires start <= 8 && end <= 8 && i < 8
    ensures Bit(BitRange(start, end), i) <==> start <= i < end
  {
  }

  lemma {:induction false} OrBits(a: bv8, b: bv8, i: nat)
    requires i < 8
    ensures Bit(a | b, i) <==> Bit(a, i) || Bit(b, i)
  {
  }

  lemma {:induction false} SameBits(a: bv8, b: bv8)
    requires forall i: nat :: i < 8 ==> (Bit(a, i) <==> Bit(b, i))
    ensures a == b
  {
    assert (Bit(a, 0) <==> Bit(b, 0)) && (Bit(a, 1) <==> Bit(b, 1)) && (Bit(a, 2) <==> Bit(b, 2));
    assert (Bit(a, 3) <==> Bit(b, 3)) && (Bit(a, 4) <==> Bit(b, 4)) && (Bit(a, 5) <==> Bit(b, 5));
    assert (Bit(a, 6) <==> Bit(b, 6)) && (Bit(a, 7) <==> Bit(b, 7));
  }

  lemma {:induction false} FullByte(b: bv8)
    ensures b == 0xFF <==> forall i: nat :: i < 8 ==> Bit(b, i)
  {
    assert forall i: nat :: i < 8 ==> Bit(0xFF, i);
    if forall i: nat :: i < 8 ==> Bit(b, i) { SameBits(b, 0xFF); }
  }

  predicate Between(k: nat, start: nat, end: nat) {
    start <= k < end
  }

  /** The numbers start, inclusive, to end, exclusive. */
  ghost function Range(start: nat, end: nat): set<nat> {
    set k: nat | k < end && Between(k, start, end)
  }

  /** The bitmask as the set of byte positions it stands for. */
  ghost predicate BitAt(mask: seq<bv8>, k: nat)
    requires k < 8 * |mask|
  {
    Bit(mask[k / 8], k % 8)
  }

  /** Byte i of a mask after the bytes of a message from start to end have been marked in it. */
  ghost predicate MarkedByte(before: bv8, after: bv8, i: nat, start: nat, end: nat) {
    forall j: nat :: j < 8 ==> (Bit(after, j) <==> Bit(before, j) || start <= 8 * i + j < end)
  }

  lemma {:induction false} MarkedMask(before: seq<bv8>, after: seq<bv8>, start: nat, end: nat)
    requires |before| == |after|
    requires start <= end
    requires forall i :: start / 8 <= i <= end / 8 && 8 * i < end ==>
               i < |before| && MarkedByte(before[i], after[i], i, start, end)
    requires forall i :: 0 <= i < |before| && !(start / 8 <= i <= end / 8 && 8 * i < end) ==> after[i] == before[i]
    ensures forall k: nat :: k < 8 * |before| ==> (BitAt(after, k) <==> BitAt(before, k) || start <= k < end)
  {
    forall k: nat | k < 8 * |before|
      ensures BitAt(after, k) <==> BitAt(before, k) || start <= k < end
    {
      var i := k / 8;
      assert 8 * i + k % 8 == k;
      if start / 8 <= i <= end / 8 && 8 * i < end {
        assert MarkedByte(before[i], after[i], i, start, end);
      }
    }
  }

  lemma {:induction false} MarkByOr(before: bv8, i: nat, start: nat, end: nat, from: nat, to: nat)
    requires from <= 8 && to <= 8
    requires from == if start <= 8 * i then 0 else start - 8 * i
    requires to == if 8 * i + 8 <= end then 8 else end - 8 * i
    ensures MarkedByte(before, before | BitRange(from, to), i, start, end)
  {
    forall j: nat | j < 8
      ensures Bit(before | BitRange(from, to), j) <==> Bit(before, j) || start <= 8 * i + j < end
    {
      OrBits(before, BitRange(from, to), j);
      BitRangeBits(from, to, j);
    }
  }

  lemma {:induction false} MarkWhole(before: bv8, i: nat, start: nat, end: nat)
    requires start <= 8 * i && 8 * i + 8 <= end
    ensures MarkedByte(before, 0xFF, i, start, end)
  {
    FullByte(0xFF);
  }

  /** hm_fragment: a message being reassembled. `data` is the body; the twelve header bytes the C
      code keeps in front of it are a function of the other fields and are left out. The mask is
      null once the message is complete, which an empty message is from the start. */
  class HmFragment {
    const typ: nat
    const seqNum: nat
    const msgLen: nat
    const data: array<byte>
    var reassembly: array?<bv8>

    ghost predicate Valid()
      reads this, reassembly
    {
      && data.Length == msgLen
      && (reassembly != null ==>
            && 0 < msgLen && reassembly.Length == (msgLen + 7) / 8 && reassembly as object != data
            && (forall k: nat :: msgLen <= k < 8 * reassembly.Length ==> !BitAt(reassembly[..], k))
            && exists k: nat :: k < msgLen && !BitAt(reassembly[..], k))
    }

    /** The positions of the bytes that have arrived. */
    ghost function Received(): (r: set<nat>)
      requires Valid()
      reads this, reassembly
      ensures r <= Range(0, msgLen)
    {
      if reassembly == null then Range(0, msgLen)
      else set k: nat | k < msgLen && BitAt(reassembly[..], k)
    }

    ghost function Repr(): set<object>
      reads this
    {
      if reassembly == null then {this, data} else {this, data, reassembly}
    }

    /** dtls1_hm_fragment_new */
    constructor (typ: nat, seqNum: nat, msgLen: nat)
      ensures Valid() && fresh(Repr()) && Received() == {}
      ensures this.typ == typ && this.seqNum == seqNum && this.msgLen == msgLen
      ensures reassembly == null <==> msgLen == 0
    {
      this.typ, this.seqNum, this.msgLen := typ, seqNum, msgLen;
      data := new byte[msgLen];
      if msgLen > 0 {
        reassembly := new bv8[(msgLen + 7) / 8](_ => 0);
      } else {
        reassembly := null;
      }
      new;
      if msgLen > 0 {
        assert forall i: nat :: i < 8 ==> !Bit(0, i);
        assert !BitAt(reassembly[..], 0);
      }
    }

    /** dtls1_hm_fragment_mark: the positions from start to end are added, and the mask is released
        exactly when they complete the message. */
    method Mark(start: nat, end: nat)
      requires Valid() && reassembly != null && start <= end <= msgLen
      modifies this, reassembly
      ensures Valid() && (reassembly == null || reassembly == old(reassembly))
      ensures Received() == old(Received()) + Range(start, end)
      ensures reassembly == null <==> Received() == Range(0, msgLen)
    {
      if start == end {
        assert Range(start, end) == {};
        StillMissing();
        return;
      }
      MarkMask(start, end);
      ghost var before, after := old(reassembly[..]), reassembly[..];
      ghost var now := set k: nat | k < msgLen && BitAt(after, k);
      forall k: nat ensures k in now <==> k in old(Received()) || k in Range(start, end) {
        if k < msgLen {
          assert BitAt(after, k) <==> BitAt(before, k) || start <= k < end;
        }
      }
      var complete := IsComplete();
      if complete {
        assert reassembly[..] == after;
        forall k: nat ensures k in now <==> k in Range(0, msgLen) {
          assert k < msgLen ==> BitAt(after, k) && Between(k, 0, msgLen);
        }
        reassembly := null;
        assert now == Range(0, msgLen);
      } else {
        StillMissing();
      }
    }

    lemma {:induction false} StillMissing()
      requires Valid() && reassembly != null
      ensures Received() != Range(0, msgLen)
    {
      var k: nat :| k < msgLen && !BitAt(reassembly[..], k);
      assert k in Range(0, msgLen) && k !in Received();
    }

    /** The marking half: first byte, whole bytes, last byte. */
    method MarkMask(start: nat, end: nat)
      requires reassembly != null && start < end <= msgLen && reassembly.Length == (msgLen + 7) / 8
      requires forall k: nat :: msgLen <= k < 8 * reassembly.Length ==> !BitAt(reassembly[..], k)
      modifies reassembly
      ensures forall k: nat :: k < 8 * reassembly.Length ==>
                (BitAt(reassembly[..], k) <==> old(BitAt(reassembly[..], k)) || start <= k < end)
    {
      hide BitRange, BitAt, MarkedByte, Bit;
      ghost var before := reassembly[..];
      var first, last := start / 8, end / 8;
      if first == last {
        MarkByOr(before[first], first, start, end, start % 8, end % 8);
        reassembly[first] := reassembly[first] | BitRange(start % 8, end % 8);
      } else {
        MarkSpan(start, end);
      }
      MarkedMask(before, reassembly[..], start, end);
    }

    /** The case of a range that does not end in the byte it starts in. */
    method MarkSpan(start: nat, end: nat)
      requires reassembly != null && start < end <= 8 * reassembly.Length && start / 8 < end / 8
      modifies reassembly
      ensures forall b :: start / 8 <= b <= end / 8 && 8 * b < end ==>
                MarkedByte(old(reassembly[..])[b], reassembly[b], b, start, end)
      ensures forall b :: 0 <= b < reassembly.Length && !(start / 8 <= b <= end / 8 && 8 * b < end) ==>
                reassembly[b] == old(reassembly[..])[b]
    {
      hide BitRange, MarkedByte;
      ghost var before := reassembly[..];
      var first, last := start / 8, end / 8;
      MarkByOr(before[first], first, start, end, start % 8, 8);
      reassembly[first] := reassembly[first] | BitRange(start % 8, 8);
      MarkMiddle(start, end, before);
      if end % 8 != 0 {
        MarkByOr(before[last], last, start, end, 0, end % 8);
        reassembly[last] := reassembly[last] | BitRange(0, end % 8);
      }
      assert 8 * last < end ==> end % 8 != 0;
      forall b | first <= b <= last && 8 * b < end ensures MarkedByte(before[b], reassembly[b], b, start, end) {
        assert b == first || first < b < last || b == last;
      }
    }

    /** The loop over the bytes between the first and the last. */
    method MarkMiddle(start: nat, end: nat, ghost before: seq<bv8>)
      requires reassembly != null && start < end <= 8 * reassembly.Length && start / 8 < end / 8
      requires |before| == reassembly.Length
      requires forall b :: 0 <= b < |before| && b != start / 8 ==> reassembly[b] == before[b]
      modifies reassembly
      ensures forall b :: start / 8 < b < end / 8 ==> MarkedByte(before[b], reassembly[b], b, start, end)
      ensures forall b :: 0 <= b < |before| && !(start / 8 < b < end / 8) ==> reassembly[b] == old(reassembly[b])
    {
      var i := start / 8 + 1;
      while i < end / 8
        invariant start / 8 < i <= end / 8
        invariant forall b :: start / 8 < b < i ==> MarkedByte(before[b], reassembly[b], b, start, end)
        invariant forall b :: 0 <= b < |before| && !(start / 8 < b < i) ==> reassembly[b] == old(reassembly[b])
      {
        MarkWhole(before[i], i, start, end);
        hide MarkedByte;
        reassembly[i] := 0xFF;
        i := i + 1;
      }
    }

    /** The completeness check: every whole byte is 0xFF and the last one has exactly its bits. */
    method IsComplete() returns (complete: bool)
      requires reassembly != null && 0 < msgLen && reassembly.Length == (msgLen + 7) / 8
      requires forall k: nat :: msgLen <= k < 8 * reassembly.Length ==> !BitAt(reassembly[..], k)
      ensures complete <==> forall k: nat :: k < msgLen ==> BitAt(reassembly[..], k)
    {
      var i := 0;
      while i < msgLen / 8
        invariant i <= msgLen / 8
        invariant forall k: nat :: k < 8 * i ==> BitAt(reassembly[..], k)
      {
        FullByte(reassembly[i]);
        if reassembly[i] != 0xFF {
          var j: nat :| j < 8 && !Bit(reassembly[i], j);
          assert !BitAt(reassembly[..], 8 * i + j);
          return false;
        }
        forall k: nat | 8 * i <= k < 8 * i + 8 ensures BitAt(reassembly[..], k) {
        }
        i := i + 1;
      }
      if msgLen % 8 != 0 && reassembly[msgLen / 8] != BitRange(0, msgLen % 8) {
        MissingInLast();
        return false;
      }
      if msgLen % 8 != 0 {
        forall k: nat | 8 * (msgLen / 8) <= k < msgLen ensures BitAt(reassembly[..], k) {
          BitRangeBits(0, msgLen % 8, k % 8);
        }
      }
      return true;
    }

    lemma {:induction false} MissingInLast()
      requires reassembly != null && reassembly.Length == (msgLen + 7) / 8 && msgLen % 8 != 0
      requires forall k: nat :: msgLen <= k < 8 * reassembly.Length ==> !BitAt(reassembly[..], k)
      requires reassembly[msgLen / 8] != BitRange(0, msgLen % 8)
      ensures exists k: nat :: k < msgLen && !BitAt(reassembly[..], k)
    {
      var last, r := msgLen / 8, msgLen % 8;
      if forall k: nat :: k < msgLen ==> BitAt(reassembly[..], k) {
        forall j: nat | j < 8 ensures Bit(reassembly[last], j) <==> Bit(BitRange(0, r), j) {
          BitRangeBits(0, r, j);
          assert BitAt(reassembly[..], 8 * last + j) == Bit(reassembly[last], j);
        }
        SameBits(reassembly[last], BitRange(0, r));
      }
    }
  }
}
