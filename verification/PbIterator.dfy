/** pb_field_iter_t: the cyclic walk over a descriptor table that keeps a pointer to the data of
    the current field and counts the required fields passed. */
module PbIterator {
  import opened PbMessage
  import opened PbFormat

  /** The room field f's data takes in the struct. */
  function SizeInStruct(f: Field): nat {
    if f.htype.Repeated? then f.dataSize * f.arraySize else f.dataSize
  }

  /** The descriptor was generated, by the PB_DATAOFFSET_FIRST, _UNION and _OTHER macros, for a
      struct in which field i's data begins at offset[i]. The first member of a union and the other
      fields record the gap behind the previous field; later members of a union all begin where
      the first one does, share its which_ tag, and record PB_SIZE_MAX instead. */
  ghost predicate Describes(fs: seq<Field>, offset: seq<nat>) {
    |offset| == |fs| && forall i :: 0 <= i < |fs| ==> DescribesField(fs, offset, i)
  }

  predicate DescribesField(fs: seq<Field>, offset: seq<nat>, i: nat)
    requires i < |fs| == |offset|
  {
    && fs[i].tag != 0
    && if i == 0 then fs[0].dataOffset == offset[0]
       else if InUnion(fs, i) then offset[i] == offset[i - 1] && fs[i].sizeOffset == fs[i - 1].sizeOffset
       else offset[i] == offset[i - 1] + SizeInStruct(fs[i - 1]) + fs[i].dataOffset
  }

  /** Where field i of the struct such a descriptor is for begins. */
  function Offset(fs: seq<Field>, i: nat): nat
    requires i < |fs|
  {
    if i == 0 then fs[0].dataOffset
    else if InUnion(fs, i) then Offset(fs, i - 1)
    else Offset(fs, i - 1) + SizeInStruct(fs[i - 1]) + fs[i].dataOffset
  }

  function Layout(fs: seq<Field>): (offset: seq<nat>) {
    seq(|fs|, i requires 0 <= i < |fs| => Offset(fs, i))
  }

  /** Every well-formed descriptor is the descriptor of some struct. */
  lemma {:induction false} LayoutDescribes(fs: seq<Field>)
    requires WellFormed(fs)
    ensures Describes(fs, Layout(fs))
  {
    forall i | 0 <= i < |fs| ensures DescribesField(fs, Layout(fs), i) {
      assert WellFormedField(fs[i]);
    }
  }

  class FieldIter {
    const start: seq<Field>       // without the terminating entry
    const destStruct: int
    ghost const offset: seq<nat>
    var pos: nat
    var requiredFieldIndex: nat
    var pData: int
    var pSize: int

    /** The iterator agrees with the indexed layout: the pointers are the declared ones of field
        pos, and the required fields before it have been counted. In an empty message type it
        stays on the terminator. */
    ghost predicate Valid()
      reads this
    {
      && Describes(start, offset)
      && (if start == [] then pos == 0 else pos < |start|)
      && requiredFieldIndex == RequiredBefore(start, pos)
      && (start != [] ==> pData == destStruct + offset[pos] && pSize == pData + start[pos].sizeOffset)
    }

    /** pos->tag */
    function Tag(): nat
      requires Valid()
      reads this
    {
      if pos < |start| then start[pos].tag else 0
    }

    /** The struct declaration and the first pb_field_iter_begin. */
    constructor (fields: seq<Field>, destStruct: int, ghost offset: seq<nat>)
      requires Describes(fields, offset)
      ensures Valid() && start == fields && this.destStruct == destStruct && this.offset == offset && pos == 0
    {
      assert fields != [] ==> DescribesField(fields, offset, 0);
      this.start, this.destStruct, this.offset := fields, destStruct, offset;
      this.pos, this.requiredFieldIndex := 0, 0;
      this.pData := if fields == [] then destStruct else destStruct + fields[0].dataOffset;
      this.pSize := if fields == [] then destStruct
                    else destStruct + fields[0].dataOffset + fields[0].sizeOffset;
    }

    /** pb_field_iter_begin; returns false for an empty message type. */
    method Begin() returns (nonempty: bool)
      requires Describes(start, offset)
      modifies this
      ensures Valid() && pos == 0 && (nonempty <==> start != [])
    {
      pos := 0;
      requiredFieldIndex := 0;
      if start == [] {
        return false;
      }
      assert DescribesField(start, offset, 0);
      pData := destStruct + start[pos].dataOffset;
      pSize := pData + start[pos].sizeOffset;
      return true;
    }

    /** pb_field_iter_next: on to the next field, or back to the first with result false. */
    method Next() returns (more: bool)
      requires Valid()
      modifies this
      ensures Valid()
      ensures more <==> old(pos) + 1 < |start|
      ensures pos == if more then old(pos) + 1 else 0
    {
      if start == [] {
        return false;
      }
      var prev := start[pos];
      pos := pos + 1;
      if pos == |start| {
        var _ := Begin();
        return false;
      }
      assert DescribesField(start, offset, pos);
      var prevSize := prev.dataSize;
      if prev.htype.OneOf? && start[pos].htype.OneOf? && start[pos].dataOffset == PB_SIZE_MAX {
        // Don't advance pointers inside unions.
        assert InUnion(start, pos);
        return true;
      } else if prev.htype.Repeated? {
        prevSize := prevSize * prev.arraySize;
      }
      if prev.htype.Required? {
        requiredFieldIndex := requiredFieldIndex + 1;
      }
      pData := pData + prevSize + start[pos].dataOffset;
      pSize := pData + start[pos].sizeOffset;
      return true;
    }

    /** pb_field_iter_find: from wherever the iterator stands, once round the table. It stops at the
        one field with this tag, or comes back to where it was. On an empty message type it stands
        on the terminator, whose tag is 0. */
    method Find(tag: nat) returns (found: bool)
      requires Valid()
      requires forall i, j :: 0 <= i < j < |start| ==> start[i].tag != start[j].tag
      modifies this
      ensures Valid()
      ensures found <==> (exists i :: 0 <= i < |start| && start[i].tag == tag) || (start == [] && tag == 0)
      ensures found ==> Tag() == tag
      ensures !found ==> pos == old(pos)
    {
      var begin := pos;
      ghost var steps := 0;
      while true
        invariant Valid() && 0 <= steps
        invariant start != [] ==> steps < |start| && pos == Round(begin, steps)
        invariant start == [] ==> steps == 0 && pos == 0
        invariant forall i :: 0 <= i < |start| && Passed(begin, steps, i) ==> start[i].tag != tag
        decreases |start| - steps
      {
        if Tag() == tag {
          return true;
        }
        ghost var p := pos;
        var _ := Next();
        if start != [] {
          PassOne(begin, steps, p);
        }
        steps := steps + 1;
        if pos == begin {
          return false;
        }
      }
    }

    /** Field i is among the first `steps` fields met when walking round from `begin`. */
    ghost predicate Passed(begin: nat, steps: nat, i: nat)
    {
      begin <= i < begin + steps || i + |start| < begin + steps
    }

    /** The field reached from `begin` after that many steps, at most once round. */
    ghost function Round(begin: nat, steps: nat): int {
      if begin + steps < |start| then begin + steps else begin + steps - |start|
    }

    /** The step from p passes field p and no other; the walk is back where it began exactly after
        |start| steps. */
    lemma {:induction false} PassOne(begin: nat, steps: nat, p: nat)
      requires start != [] && begin < |start| && steps < |start| && p == Round(begin, steps)
      ensures forall i :: 0 <= i < |start| ==> (Passed(begin, steps + 1, i) <==> Passed(begin, steps, i) || i == p)
      ensures (if p + 1 < |start| then p + 1 else 0) == Round(begin, steps + 1)
      ensures (Round(begin, steps + 1) == begin) <==> (steps + 1 == |start|)
    {
      forall i | 0 <= i < |start|
        ensures Passed(begin, steps + 1, i) <==> Passed(begin, steps, i) || i == p
      {
        if begin + steps < |start| {
          assert Passed(begin, steps + 1, i) <==> begin <= i < begin + steps + 1;
        } else {
          assert Passed(begin, steps + 1, i) <==> begin <= i || i <= p;
        }
      }
    }
  }
}
