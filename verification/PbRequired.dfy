/** The fields_seen bitmap of pb_decode_noinit: two 32-bit words, here as their 64 bits, that hold a
    set of required field indices. */
module PbRequired {
  import opened PbMessage
  import opened PbFormat
  import opened PbIterator

  /** The bits that are set are exactly these indices. */
  ghost predicate Holds(bits: seq<bool>, seen: set<nat>) {
    |bits| == 64 && forall j :: 0 <= j < 64 ==> (j in seen <==> bits[j])
  }

  /** fields_seen[index >> 5] |= 1 << (index & 31) */
  method MarkSeen(bits: array<bool>, index: nat, ghost seen: set<nat>)
    requires Holds(bits[..], seen) && index < 64
    modifies bits
    ensures Holds(bits[..], seen + {index})
  {
    bits[index] := true;
  }

  /** The final check: the whole words must be all ones, and the last word must have exactly the
      remaining bits. (The shift that makes its mask is undefined when the count is a nonzero
      multiple of 32.) The check succeeds exactly when every required field has been seen. */
  method CheckRequired(bits: array<bool>, count: nat, ghost seen: set<nat>) returns (ok: bool)
    requires Holds(bits[..], seen) && count < 64 && count != 32
    requires forall n :: n in seen ==> n < count
    ensures ok <==> forall n: nat :: n < count ==> n in seen
  {
    if count == 0 {
      return true;
    }
    var j := 0;
    while j < count / 32 * 32
      invariant j <= count / 32 * 32 && forall n: nat :: n < j ==> n in seen
    {
      assert bits[..][j] == bits[j];
      if !bits[j] {
        return false;
      }
      j := j + 1;
    }
    while j < count / 32 * 32 + 32
      invariant count / 32 * 32 <= j <= count / 32 * 32 + 32 <= 64
      invariant forall n: nat :: n < j && n < count ==> n in seen
    {
      assert bits[..][j] == bits[j];
      if bits[j] != (j < count) {
        return false;
      }
      j := j + 1;
    }
    return true;
  }

  /** The indices of the required fields are 0, 1, ... up to their number. */
  lemma {:induction false} RequiredFromIs(fs: seq<Field>, k: nat)
    requires k <= |fs|
    ensures forall n: nat :: n in RequiredFrom(fs, k) <==> RequiredBefore(fs, k) <= n < RequiredBefore(fs, |fs|)
    decreases |fs| - k
  {
    if k < |fs| {
      RequiredFromIs(fs, k + 1);
      RequiredBeforeGrows(fs, k + 1, |fs|);
    }
  }

  /** Walks the iterator to the end of the table and counts the required fields. */
  method CountRequired(iter: FieldIter) returns (count: nat)
    requires iter.Valid()
    modifies iter
    ensures iter.Valid()
    ensures count == RequiredBefore(iter.start, |iter.start|)
  {
    assert iter.start != [] ==> DescribesField(iter.start, iter.offset, 0);
    var lastRequired, more := true, true;
    count := 0;
    while more
      invariant iter.Valid()
      invariant !more ==> iter.pos == 0 && CountedAll(iter.start, count, lastRequired)
      decreases more, |iter.start| - iter.pos
    {
      count := iter.requiredFieldIndex;
      lastRequired := iter.pos < |iter.start| ==> iter.start[iter.pos].htype.Required?;
      more := iter.Next();
    }
    var tag := iter.Tag();
    if lastRequired && tag != 0 {
      count := count + 1;
    }
  }

  /** The count taken at the last entry of the table, and whether that entry is required; on an
      empty table both describe the terminator. */
  ghost predicate CountedAll(fs: seq<Field>, count: nat, lastRequired: bool) {
    if fs == [] then count == 0
    else count == RequiredBefore(fs, |fs| - 1) && lastRequired == fs[|fs| - 1].htype.Required?
  }
}
