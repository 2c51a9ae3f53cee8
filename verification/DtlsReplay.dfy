/** The 64-bit sliding window that rejects replayed records (DTLS1_BITMAP in dtls_record.cc). */
module DtlsReplay {

  const WINDOW_SIZE: nat := 64

  /** A shift amount, as a bit vector. */
  function Amount(i: nat): bv7
    requires i < WINDOW_SIZE
  {
    if i == 0 then 0 else Amount(i - 1) + 1
  }

  predicate BitV(w: bv64, i: bv7) {
    i < 64 && (w >> i) & 1 == 1
  }

  predicate TestV(w: bv64, i: bv7) {
    i < 64 && w & (1 << i) != 0
  }

  function SetV(w: bv64, i: bv7): bv64 {
    if i < 64 then w | (1 << i) else w
  }

  function ShiftV(w: bv64, s: bv7): bv64 {
    if s < 64 then w << s else 0
  }

  lemma {:induction false} SetBitV(w: bv64, i: bv7, j: bv7)
    requires i < 64 && j < 64
    ensures BitV(SetV(w, i), j) <==> i == j || BitV(w, j)
  {
    if i == j {
      assert ((w | (1 << i)) >> i) & 1 == 1;
    } else if BitV(w, j) {
      assert ((w | (1 << i)) >> j) & 1 == 1;
    } else {
      assert ((w | (1 << i)) >> j) & 1 != 1;
    }
  }

  lemma {:induction false} TestBitV(w: bv64, i: bv7)
    requires i < 64
    ensures TestV(w, i) <==> BitV(w, i)
  {
  }

  lemma {:induction false} ShiftBitV(w: bv64, s: bv7, j: bv7)
    requires s <= j < 64
    ensures BitV(ShiftV(w, s), j) <==> BitV(w, j - s)
  {
    if BitV(w, j - s) {
      assert ((w << s) >> j) & 1 == 1;
    } else {
      assert ((w << s) >> j) & 1 != 1;
    }
  }

  lemma {:induction false} ShiftInZeroV(w: bv64, s: bv7, j: bv7)
    requires j < s < 64
    ensures !BitV(ShiftV(w, s), j)
  {
  }

  lemma {:induction false} AmountIs(i: nat)
    requires i < WINDOW_SIZE
    ensures Amount(i) as nat == i
  {
    if i > 0 {
      AmountIs(i - 1);
      NextAmount(Amount(i - 1));
    }
  }

  lemma {:induction false} NextAmount(x: bv7)
    requires x as nat < 64
    ensures (x + 1) as nat == x as nat + 1
  {
  }

  lemma {:induction false} AmountOrderV(x: bv7, y: bv7)
    requires x as nat < y as nat < 64
    ensures x < y < 64
  {
  }

  lemma {:induction false} AmountOrder(i: nat, j: nat)
    requires i < j < WINDOW_SIZE
    ensures Amount(i) < Amount(j) < 64
  {
    AmountIs(i);
    AmountIs(j);
    AmountOrderV(Amount(i), Amount(j));
  }

  lemma {:induction false} AmountBound(i: nat)
    requires i < WINDOW_SIZE
    ensures Amount(i) < 64
  {
    if i > 0 { AmountOrder(0, i); }
  }

  lemma {:induction false} AmountMinus(i: nat, j: nat)
    requires i <= j < WINDOW_SIZE
    ensures Amount(j - i) == Amount(j) - Amount(i)
    decreases j
  {
    if i < j { AmountMinus(i, j - 1); }
  }

  predicate Bit(w: bv64, i: nat)
    requires i < WINDOW_SIZE
  {
    BitV(w, Amount(i))
  }

  lemma {:induction false} SetBit(w: bv64, i: nat, j: nat)
    requires i < WINDOW_SIZE && j < WINDOW_SIZE
    ensures Bit(SetV(w, Amount(i)), j) <==> j == i || Bit(w, j)
  {
    hide BitV, SetV, TestV, ShiftV, Amount;
    AmountBound(i);
    AmountBound(j);
    if i < j { AmountOrder(i, j); }
    if j < i { AmountOrder(j, i); }
    SetBitV(w, Amount(i), Amount(j));
  }

  lemma {:induction false} TestBit(w: bv64, i: nat)
    requires i < WINDOW_SIZE
    ensures TestV(w, Amount(i)) <==> Bit(w, i)
  {
    hide BitV, SetV, TestV, ShiftV, Amount;
    AmountBound(i);
    TestBitV(w, Amount(i));
  }

  /** A shift by s moves bit j - s to bit j and clears the bits below s. */
  lemma {:induction false} ShiftBit(w: bv64, s: nat, j: nat)
    requires s < WINDOW_SIZE && j < WINDOW_SIZE
    ensures Bit(ShiftV(w, Amount(s)), j) <==> s <= j && Bit(w, j - s)
  {
    hide BitV, SetV, TestV, ShiftV, Amount;
    AmountBound(j);
    AmountBound(s);
    if s <= j {
      AmountMinus(s, j);
      if s < j { AmountOrder(s, j); }
      ShiftBitV(w, Amount(s), Amount(j));
    } else {
      AmountOrder(j, s);
      ShiftInZeroV(w, Amount(s), Amount(j));
    }
  }

  // ---------------------------------------------------------------- the window as a value

  datatype Window = Window(bits: bv64, maxSeqNum: nat)

  const EmptyWindow: Window := Window(0, 0)

  predicate Discards(w: Window, n: nat) {
    n <= w.maxSeqNum && (w.maxSeqNum - n >= WINDOW_SIZE || Bit(w.bits, w.maxSeqNum - n))
  }

  function Slide(w: Window, n: nat): Window {
    if n > w.maxSeqNum then
      Window(if n - w.maxSeqNum >= WINDOW_SIZE then 0 else ShiftV(w.bits, Amount(n - w.maxSeqNum)), n)
    else w
  }

  function Recorded(w: Window, n: nat): Window {
    var w' := Slide(w, n);
    if w'.maxSeqNum - n < WINDOW_SIZE then w'.(bits := SetV(w'.bits, Amount(w'.maxSeqNum - n))) else w'
  }

  /** The window remembers this set of record numbers: its maximum and, bit by bit, which of the
      64 numbers up to the maximum are members. */
  ghost predicate Remembers(w: Window, seen: set<nat>) {
    && (forall n :: n in seen ==> n <= w.maxSeqNum)
    && (w.maxSeqNum in seen || (seen == {} && w.maxSeqNum == 0))
    && forall i: nat :: i < WINDOW_SIZE ==> (Bit(w.bits, i) <==> i <= w.maxSeqNum && w.maxSeqNum - i in seen)
  }

  /** At least 64 behind the greatest number. */
  ghost predicate Stale(seen: set<nat>, n: nat) {
    exists m :: m in seen && n <= m && m - n >= WINDOW_SIZE
  }

  /** A number is discarded exactly when it was recorded before or is stale. */
  lemma {:induction false} DiscardExactly(w: Window, seen: set<nat>, n: nat)
    requires Remembers(w, seen)
    ensures Discards(w, n) <==> n in seen || Stale(seen, n)
  {
    if n <= w.maxSeqNum && w.maxSeqNum - n < WINDOW_SIZE {
      var i := w.maxSeqNum - n;
      assert Bit(w.bits, i) <==> w.maxSeqNum - i in seen;
    }
  }

  lemma {:induction false} SlideRemembers(w: Window, seen: set<nat>, n: nat)
    requires Remembers(w, seen) && n > w.maxSeqNum
    ensures var w' := Slide(w, n);
            forall i: nat :: i < WINDOW_SIZE ==> (Bit(w'.bits, i) <==> i <= n && n - i in seen)
  {
    var w', s := Slide(w, n), n - w.maxSeqNum;
    forall i: nat | i < WINDOW_SIZE
      ensures Bit(w'.bits, i) <==> i <= n && n - i in seen
    {
      if s < WINDOW_SIZE {
        hide Bit;
        ShiftBit(w.bits, s, i);
      }
    }
  }

  lemma {:induction false} RecordRemembers(w: Window, seen: set<nat>, n: nat)
    requires Remembers(w, seen)
    ensures Remembers(Recorded(w, n), seen + {n})
  {
    hide Bit, SetV, ShiftV, Amount;
    var w', r := Slide(w, n), Recorded(w, n);
    if n > w.maxSeqNum { SlideRemembers(w, seen, n); }
    forall i: nat | i < WINDOW_SIZE
      ensures Bit(r.bits, i) <==> i <= r.maxSeqNum && r.maxSeqNum - i in seen + {n}
    {
      var idx := w'.maxSeqNum - n;
      if idx < WINDOW_SIZE { SetBit(w'.bits, idx, i); }
    }
  }

  // ---------------------------------------------------------------- runs

  /** A record of the current epoch arrives; it is authentic if the cipher opens it. */
  datatype Arrival = Arrival(number: nat, authentic: bool)

  /** The numbers of the records that are accepted, in order. */
  function Accepted(w: Window, arrivals: seq<Arrival>): seq<nat>
    decreases |arrivals|
  {
    if arrivals == [] then []
    else if Discards(w, arrivals[0].number) || !arrivals[0].authentic then Accepted(w, arrivals[1..])
    else [arrivals[0].number] + Accepted(Recorded(w, arrivals[0].number), arrivals[1..])
  }

  /** The same by the book: with an unbounded memory of what was accepted. */
  ghost function AcceptedBySet(seen: set<nat>, arrivals: seq<Arrival>): seq<nat>
    decreases |arrivals|
  {
    if arrivals == [] then []
    else
      var n := arrivals[0].number;
      if n in seen || Stale(seen, n) || !arrivals[0].authentic then AcceptedBySet(seen, arrivals[1..])
      else [n] + AcceptedBySet(seen + {n}, arrivals[1..])
  }

  /** The sliding window does what the unbounded memory does. */
  lemma {:induction false} WindowRefinesSet(w: Window, seen: set<nat>, arrivals: seq<Arrival>)
    requires Remembers(w, seen)
    ensures Accepted(w, arrivals) == AcceptedBySet(seen, arrivals)
    decreases |arrivals|
  {
    if arrivals != [] {
      var n := arrivals[0].number;
      DiscardExactly(w, seen, n);
      RecordRemembers(w, seen, n);
      hide Remembers;
      if n in seen || Stale(seen, n) || !arrivals[0].authentic {
        WindowRefinesSet(w, seen, arrivals[1..]);
      } else {
        WindowRefinesSet(Recorded(w, n), seen + {n}, arrivals[1..]);
      }
    }
  }

  ghost predicate Distinct<T>(s: seq<T>) {
    forall i, j :: 0 <= i < j < |s| ==> s[i] != s[j]
  }

  lemma {:induction false} SetNeverRepeats(seen: set<nat>, arrivals: seq<Arrival>)
    ensures Distinct(AcceptedBySet(seen, arrivals))
    ensures forall i :: 0 <= i < |AcceptedBySet(seen, arrivals)| ==> AcceptedBySet(seen, arrivals)[i] !in seen
    decreases |arrivals|
  {
    if arrivals != [] {
      var n := arrivals[0].number;
      SetNeverRepeats(seen, arrivals[1..]);
      SetNeverRepeats(seen + {n}, arrivals[1..]);
    }
  }

  /** No record number is ever accepted twice within an epoch, whatever arrives. */
  lemma {:induction false} NoReplay(arrivals: seq<Arrival>)
    ensures Distinct(Accepted(EmptyWindow, arrivals))
  {
    EmptyRemembersNothing();
    WindowRefinesSet(EmptyWindow, {}, arrivals);
    SetNeverRepeats({}, arrivals);
  }

  lemma {:induction false} EmptyRemembersNothing()
    ensures Remembers(EmptyWindow, {})
  {
    assert forall i: nat :: i < WINDOW_SIZE ==> !Bit(0, i);
  }

  // ---------------------------------------------------------------- the code

  class Bitmap {
    var bits: bv64
    var maxSeqNum: nat

    ghost function Value(): Window
      reads this
    {
      Window(bits, maxSeqNum)
    }

    constructor ()
      ensures Value() == EmptyWindow
    {
      bits, maxSeqNum := 0, 0;
    }

    /** dtls1_bitmap_should_discard */
    method ShouldDiscard(seqNum: nat) returns (discard: bool)
      ensures discard == Discards(Value(), seqNum)
    {
      hide BitV, TestV, Amount;
      if seqNum > maxSeqNum {
        return false;
      }
      var idx := maxSeqNum - seqNum;
      if idx >= WINDOW_SIZE {
        return true;
      }
      TestBit(bits, idx);
      return TestV(bits, Amount(idx));
    }

    /** dtls1_bitmap_record */
    method Record(seqNum: nat)
      modifies this
      ensures Value() == Recorded(old(Value()), seqNum)
    {
      hide SetV, ShiftV, Amount;
      if seqNum > maxSeqNum {
        var shift := seqNum - maxSeqNum;
        if shift >= WINDOW_SIZE {
          bits := 0;
        } else {
          bits := ShiftV(bits, Amount(shift));
        }
        maxSeqNum := seqNum;
      }
      var idx := maxSeqNum - seqNum;
      if idx < WINDOW_SIZE {
        bits := SetV(bits, Amount(idx));
      }
    }
  }
}
