/** The stream layer of nanopb: pb_istream_t and pb_ostream_t over memory buffers, and the readers
    and writers of single items. Each method is proved to consume or produce what PbWire and
    PbFormat say. */
module PbStream {
  import opened PbWire
  import opened PbMessage
  import opened PbFormat

  function Pow2(k: nat): (p: nat)
    ensures p > 0
  {
    if k == 0 then 1 else 2 * Pow2(k - 1)
  }

  lemma {:induction false} Pow2Is128(i: nat)
    ensures Pow2(7 * i) == Pow128(i)
  {
    if i > 0 {
      var k := 7 * (i - 1);
      Pow2Is128(i - 1);
      assert Pow2(k + 1) == 2 * Pow2(k);
      assert Pow2(k + 2) == 4 * Pow2(k);
      assert Pow2(k + 3) == 8 * Pow2(k);
      assert Pow2(k + 4) == 16 * Pow2(k);
      assert Pow2(k + 5) == 32 * Pow2(k);
      assert Pow2(k + 6) == 64 * Pow2(k);
    }
  }

  // ---------------------------------------------------------------- input

  /** pb_istream_t on a memory buffer. The buffer itself is never written. */
  class IStream {
    const buf: array<byte>
    var state: nat      // where the next byte comes from
    var bytesLeft: nat

    ghost predicate Valid()
      reads this
    {
      state + bytesLeft <= buf.Length
    }

    /** The bytes still to be read. */
    ghost function Window(): (w: seq<byte>)
      requires Valid()
      reads this, buf
      ensures |w| == bytesLeft
    {
      buf[state..state + bytesLeft]
    }

    ghost function End(): nat
      reads this
    {
      state + bytesLeft
    }

    /** pb_istream_from_buffer; also the struct copy that starts a substream. */
    constructor (buf: array<byte>, state: nat, bytesLeft: nat)
      requires state + bytesLeft <= buf.Length
      ensures Valid() && this.buf == buf && this.state == state && this.bytesLeft == bytesLeft
    {
      this.buf := buf;
      this.state := state;
      this.bytesLeft := bytesLeft;
    }

    /** pb_read, with buf_read's copying loop. */
    method Read(count: nat) returns (ok: bool, data: seq<byte>)
      requires Valid()
      modifies this
      ensures Valid() && End() == old(End())
      ensures ok <==> count <= old(bytesLeft)
      ensures ok ==> data == old(Window())[..count] && Window() == old(Window())[count..]
      ensures !ok ==> Window() == old(Window())
    {
      if bytesLeft < count {
        return false, [];
      }
      var dest := new byte[count];
      var source := state;
      state := state + count;
      var i := 0;
      while i < count
        invariant i <= count && dest[..i] == buf[source..source + i]
        invariant state == source + count && bytesLeft == old(bytesLeft)
      {
        dest[i] := buf[source + i];
        i := i + 1;
      }
      bytesLeft := bytesLeft - count;
      assert dest[..count] == dest[..];
      return true, dest[..];
    }

    /** pb_readbyte */
    method ReadByte() returns (ok: bool, b: byte)
      requires Valid()
      modifies this
      ensures Valid() && End() == old(End())
      ensures ok <==> old(bytesLeft) > 0
      ensures ok ==> b == old(Window())[0] && Window() == old(Window())[1..]
      ensures !ok ==> Window() == old(Window())
    {
      if bytesLeft == 0 {
        return false, 0;
      }
      b := buf[state];
      state := state + 1;
      bytesLeft := bytesLeft - 1;
      return true, b;
    }
  }

  /** The number in the first i bytes' low seven bits. */
  ghost function Low(s: seq<byte>, i: nat): nat
    requires i <= |s|
  {
    if i == 0 then 0 else Low(s, i - 1) + s[i - 1] % 128 * Pow128(i - 1)
  }

  ghost predicate Continued(s: seq<byte>, i: nat)
    requires i <= |s|
  {
    forall j :: 0 <= j < i ==> s[j] >= 128
  }

  /** A varint that has not ended after i bytes is what those bytes give, plus the rest of it
      shifted by 7 * i bits. */
  lemma {:induction false} VarintSplit(s: seq<byte>, i: nat)
    requires i <= |s| && Continued(s, i)
    ensures Varint(s) ==
            match Varint(s[i..])
            case Fail => Fail
            case Done(v, rest) => Done(Low(s, i) + Pow128(i) * v, rest)
  {
    if i == 0 {
      assert s[0..] == s;
    } else {
      hide Varint, Low, Pow128;
      var r := s[i - 1..];
      assert r[1..] == s[i..];
      VarintSplit(s, i - 1);
      VarintStep(r);
      LowStep(s, i);
      if Varint(s[i..]).Done? {
        Distribute(Pow128(i - 1), r[0] - 128, Varint(s[i..]).value);
      }
    }
  }

  lemma {:induction false} VarintStep(s: seq<byte>)
    requires s != []
    ensures Varint(s) ==
            if s[0] < 128 then Done(s[0], s[1..])
            else match Varint(s[1..])
                 case Fail => Fail
                 case Done(high, rest) => Done(s[0] - 128 + 128 * high, rest)
  {
  }

  lemma {:induction false} LowStep(s: seq<byte>, i: nat)
    requires 0 < i <= |s|
    ensures Low(s, i) == Low(s, i - 1) + Pow128(i - 1) * (s[i - 1] % 128)
    ensures s[i - 1] % 128 == (if s[i - 1] < 128 then s[i - 1] else s[i - 1] - 128)
    ensures Pow128(i) == 128 * Pow128(i - 1)
  {
  }

  lemma {:induction false} Distribute(p: nat, d: nat, v: nat)
    ensures p * (d + 128 * v) == p * d + (128 * p) * v
  {
  }

  lemma {:induction false} LowBound(s: seq<byte>, i: nat)
    requires i <= |s|
    ensures Low(s, i) < Pow128(i)
  {
    if i > 0 {
      LowBound(s, i - 1);
      NextDigit(Low(s, i - 1), s[i - 1] % 128, Pow128(i - 1));
    }
  }

  lemma {:induction false} NextDigit(low: nat, d: nat, p: nat)
    requires low < p && d < 128
    ensures low + d * p < 128 * p
  {
    assert d * p <= 127 * p;
  }

  /** OR-ing seven more bits into a word, where the top ones may fall off its end. */
  lemma {:induction false} ShiftIn(low: nat, d: nat, i: nat)
    requires low < Pow128(i) && d < 128 && i < 10
    ensures low + (d * Pow128(i)) % U64 == (low + d * Pow128(i)) % U64
    ensures i < 5 ==> low + (d * Pow128(i)) % U32 == (low + d * Pow128(i)) % U32
  {
    var p := Pow128(i);
    NextDigit(low, d, p);
    assert i < 9 ==> 128 * p <= U64 by { Pow128Values(); }
    assert i < 4 ==> 128 * p <= U32 by { Pow128Values(); }
    assert i == 9 ==> p == 0x8000_0000_0000_0000 by { Pow128Values(); }
    assert i == 4 ==> p == 0x1000_0000 by { Pow128Values(); }
    hide Pow128;
    assert d * p >= 0;
    if i == 9 { TopBit(low, d); } else { SmallSum(low, d * p, U64); }
    if i == 4 { TopNibble(low, d); } else if i < 4 { SmallSum(low, d * p, U32); }
  }

  lemma {:induction false} SmallSum(a: nat, b: nat, m: nat)
    requires a + b < m
    ensures a + b % m == (a + b) % m
  {
  }

  lemma {:induction false} TopBit(low: nat, d: nat)
    requires low < 0x8000_0000_0000_0000 && d < 128
    ensures low + (d * 0x8000_0000_0000_0000) % U64 == (low + d * 0x8000_0000_0000_0000) % U64
  {
    var h, l := d / 2, d % 2;
    assert d * 0x8000_0000_0000_0000 == h * U64 + l * 0x8000_0000_0000_0000;
  }

  lemma {:induction false} TopNibble(low: nat, d: nat)
    requires low < 0x1000_0000 && d < 128
    ensures low + (d * 0x1000_0000) % U32 == (low + d * 0x1000_0000) % U32
  {
    var h, l := d / 16, d % 16;
    assert d * 0x1000_0000 == h * U32 + l * 0x1000_0000;
  }

  /** pb_decode_varint */
  method DecodeVarint(stream: IStream) returns (ok: bool, value: nat)
    requires stream.Valid()
    modifies stream
    ensures stream.Valid() && stream.End() == old(stream.End())
    ensures ok == Varint64(old(stream.Window())).Done?
    ensures ok ==> Varint64(old(stream.Window())) == Done(value, stream.Window())
  {
    ghost var s := stream.Window();
    ghost var i := 0;
    var bitpos, result, more := 0, 0, true;
    assert Low(s, 0) == 0;
    hide Low, Varint, Pow128, Pow2;
    while more
      invariant stream.Valid() && stream.End() == old(stream.End())
      invariant bitpos == 7 * i && i <= 10 && i <= |s| && stream.Window() == s[i..]
      invariant result == Low(s, i) % U64
      invariant if more then Continued(s, i) else i > 0 && Continued(s, i - 1) && s[i - 1] < 128
      decreases 10 - i, more
    {
      if bitpos >= 64 {
        TooLong(s, i);
        return false, 0;
      }
      var read, b := stream.ReadByte();
      if !read {
        VarintSplit(s, i);
        return false, 0;
      }
      assert b == s[i];
      Accumulate(s, i);
      result := result + b % 128 * Pow2(bitpos) % U64;
      bitpos := bitpos + 7;
      i := i + 1;
      more := b >= 128;
    }
    LastByte(s, i);
    return true, result;
  }

  /** One turn of the decoding loops: result |= (b & 0x7F) << bitpos. */
  lemma {:induction false} Accumulate(s: seq<byte>, i: nat)
    requires i < |s| && i < 10
    ensures Low(s, i + 1) % U64 == Low(s, i) % U64 + s[i] % 128 * Pow2(7 * i) % U64
    ensures i < 5 ==> Low(s, i + 1) % U32 == Low(s, i) % U32 + s[i] % 128 * Pow2(7 * i) % U32
  {
    LowBound(s, i);
    Pow2Is128(i);
    ShiftIn(Low(s, i), s[i] % 128, i);
    assert Pow128(i) <= U64 && (i < 5 ==> Pow128(i) <= U32) by { Pow128Values(); }
  }

  /** A varint with i continuation bytes, if it ends at all, has more than i bytes. */
  lemma {:induction false} TooLong(s: seq<byte>, i: nat)
    requires i <= |s| && Continued(s, i)
    ensures Varint(s).Done? ==> |s| - |Varint(s).rest| > i
  {
    VarintSplit(s, i);
  }

  lemma {:induction false} LastByte(s: seq<byte>, i: nat)
    requires 0 < i <= |s| && Continued(s, i - 1) && s[i - 1] < 128
    ensures Varint(s) == Done(Low(s, i), s[i..])
  {
    hide Pow128, Low, Varint;
    VarintStep(s[i - 1..]);
    assert s[i - 1..][1..] == s[i..];
    LowStep(s, i);
    VarintSplit(s, i - 1);
  }

  /** pb_decode_varint32 */
  method DecodeVarint32(stream: IStream) returns (ok: bool, value: nat)
    requires stream.Valid()
    modifies stream
    ensures stream.Valid() && stream.End() == old(stream.End())
    ensures ok == Varint32(old(stream.Window())).Done?
    ensures ok ==> Varint32(old(stream.Window())) == Done(value, stream.Window())
    ensures !ok ==> (stream.bytesLeft == 0 <==> |old(stream.Window())| <= 5)
  {
    ghost var s := stream.Window();
    var read, b := stream.ReadByte();
    if !read {
      return false, 0;
    }
    if b < 128 {
      return true, b;
    }
    ghost var i := 1;
    assert Low(s, 1) == b % 128 by { assert Low(s, 0) == 0 && Pow128(0) == 1; }
    hide Low, Varint, Pow128, Pow2;
    var bitpos, result, more := 7, b % 128, true;
    while more
      invariant stream.Valid() && stream.End() == old(stream.End())
      invariant bitpos == 7 * i && 1 <= i <= 5 && i <= |s| && stream.Window() == s[i..]
      invariant result == Low(s, i) % U32
      invariant if more then Continued(s, i) else Continued(s, i - 1) && s[i - 1] < 128
      decreases 5 - i, more
    {
      if bitpos >= 32 {
        TooLong(s, i);
        return false, 0;
      }
      read, b := stream.ReadByte();
      if !read {
        VarintSplit(s, i);
        return false, 0;
      }
      assert b == s[i];
      Accumulate(s, i);
      result := result + b % 128 * Pow2(bitpos) % U32;
      bitpos := bitpos + 7;
      i := i + 1;
      more := b >= 128;
    }
    LastByte(s, i);
    return true, result;
  }

  /** pb_skip_varint */
  method SkipVarint(stream: IStream) returns (ok: bool)
    requires stream.Valid()
    modifies stream
    ensures stream.Valid() && stream.End() == old(stream.End())
    ensures ok == Varint(old(stream.Window())).Done?
    ensures ok ==> stream.Window() == Varint(old(stream.Window())).rest
  {
    ghost var s := stream.Window();
    ghost var i := 0;
    var more := true;
    while more
      invariant stream.Valid() && stream.End() == old(stream.End())
      invariant i <= |s| && stream.Window() == s[i..]
      invariant if more then Continued(s, i) else i > 0 && Continued(s, i - 1) && s[i - 1] < 128
      decreases |s| - i, more
    {
      var data;
      ok, data := stream.Read(1);
      if !ok {
        VarintSplit(s, i);
        return;
      }
      assert data[0] == s[i];
      more := data[0] >= 128;
      i := i + 1;
    }
    LastByte(s, i);
    return true;
  }

  /** pb_make_string_substream. Between this call and CloseSubstream the parent keeps its old
      position; only its count is reduced. */
  method MakeSubstream(stream: IStream) returns (ok: bool, substream: IStream)
    requires stream.Valid()
    modifies stream
    ensures fresh(substream) && substream.Valid() && substream.buf == stream.buf && stream.Valid()
    ensures stream.End() <= old(stream.End())
    ensures ok == Delimited(old(stream.Window())).Done?
    ensures ok ==> substream.Window() == Delimited(old(stream.Window())).value
    ensures ok ==> stream.state == substream.state && stream.bytesLeft + substream.End() == old(stream.End())
    ensures ok ==> stream.bytesLeft < old(stream.bytesLeft)
    ensures ok ==> stream.buf[substream.End()..old(stream.End())] == Delimited(old(stream.Window())).rest
  {
    hide Varint32, Varint;
    var size;
    ok, size := DecodeVarint32(stream);
    substream := new IStream(stream.buf, stream.state, stream.bytesLeft);
    if !ok {
      return;
    }
    if substream.bytesLeft < size {
      return false, substream;
    }
    ghost var rest := stream.Window();
    substream.bytesLeft := size;
    stream.bytesLeft := stream.bytesLeft - size;
    assert substream.Window() == rest[..size];
    assert stream.buf[substream.End()..old(stream.End())] == rest[size..];
  }

  /** pb_close_string_substream: skip what the substream has left and move the parent behind it,
      which restores the parent's end point. */
  method CloseSubstream(stream: IStream, substream: IStream)
    requires substream.Valid() && stream != substream && substream.buf == stream.buf
    requires stream.bytesLeft + substream.End() <= stream.buf.Length
    modifies stream, substream
    ensures stream.Valid() && stream.bytesLeft == old(stream.bytesLeft)
    ensures stream.state == old(substream.End())
  {
    if substream.bytesLeft != 0 {
      var ok, skipped := substream.Read(substream.bytesLeft);
    }
    stream.state := substream.state;
  }

  /** pb_decode_tag */
  method DecodeTag(stream: IStream) returns (ok: bool, wireType: nat, tag: nat, eof: bool)
    requires stream.Valid()
    modifies stream
    ensures stream.Valid() && stream.End() == old(stream.End())
    ensures match ReadTag(old(stream.Window()))
            case Eof(rest) => !ok && eof && stream.Window() == rest
            case BadTag => !ok && !eof
            case Tag(t, wt, rest) => ok && !eof && tag == t && wireType == wt && stream.Window() == rest
  {
    var temp;
    eof, wireType, tag := false, 0, 0;
    ok, temp := DecodeVarint32(stream);
    if !ok {
      if stream.bytesLeft == 0 {
        eof := true;
      }
      return;
    }
    if temp == 0 {
      eof := true;
      return false, wireType, tag, eof;
    }
    tag := temp / 8;
    wireType := temp % 8;
  }

  /** pb_skip_string */
  method SkipString(stream: IStream) returns (ok: bool)
    requires stream.Valid()
    modifies stream
    ensures stream.Valid() && stream.End() == old(stream.End())
    ensures ok == Delimited(old(stream.Window())).Done?
    ensures ok ==> stream.Window() == Delimited(old(stream.Window())).rest
  {
    var length;
    ok, length := DecodeVarint32(stream);
    if !ok {
      return;
    }
    var skipped;
    ok, skipped := stream.Read(length);
  }

  /** pb_skip_field */
  method SkipField(stream: IStream, wireType: nat) returns (ok: bool)
    requires stream.Valid()
    modifies stream
    ensures stream.Valid() && stream.End() == old(stream.End())
    ensures ok == Skip(wireType, old(stream.Window())).Done?
    ensures ok ==> stream.Window() == Skip(wireType, old(stream.Window())).rest
  {
    var skipped;
    match wireType {
      case 0 => ok := SkipVarint(stream);
      case 1 => ok, skipped := stream.Read(8);
      case 2 => ok := SkipString(stream);
      case 5 => ok, skipped := stream.Read(4);
      case _ => ok := false;
    }
  }

  // ---------------------------------------------------------------- output

  /** pb_ostream_t. A sizing stream has no callback and no buffer: it only counts. The ghost field
      `out` is what has been written so far, or on a sizing stream what would have been. */
  class OStream {
    const sizing: bool
    const buf: array<byte>
    ghost const start: nat
    var state: nat          // where the next byte goes
    var maxSize: nat
    var bytesWritten: nat
    ghost var out: seq<byte>

    ghost predicate Valid()
      reads this, buf
    {
      && bytesWritten == |out|
      && (!sizing ==>
            && bytesWritten <= maxSize && start + maxSize <= buf.Length
            && state == start + bytesWritten && buf[start..state] == out)
    }

    /** pb_ostream_from_buffer, and the substream of pb_encode_submessage. */
    constructor (buf: array<byte>, state: nat, maxSize: nat)
      requires state + maxSize <= buf.Length
      ensures Valid() && !sizing && this.buf == buf && this.start == this.state == state
      ensures this.maxSize == maxSize && out == []
    {
      this.sizing, this.buf, this.start, this.state := false, buf, state, state;
      this.maxSize, this.bytesWritten, this.out := maxSize, 0, [];
    }

    /** PB_OSTREAM_SIZING */
    constructor Sizing()
      ensures Valid() && sizing && fresh(buf) && out == []
    {
      this.sizing, this.buf, this.start, this.state := true, new byte[0], 0, 0;
      this.maxSize, this.bytesWritten, this.out := 0, 0, [];
    }

    /** There is room for n more bytes. */
    ghost predicate Fits(n: nat)
      reads this
    {
      sizing || bytesWritten + n <= maxSize
    }

    /** Nothing outside the stream's own room, and nothing already written, has changed. */
    twostate predicate Kept()
      reads this, buf
    {
      && maxSize == old(maxSize) && old(state) <= state
      && forall j :: 0 <= j < buf.Length && (sizing || j < old(state) || start + maxSize <= j) ==>
           buf[j] == old(buf[j])
    }

    /** pb_write with buf_write's copying loop. */
    method Write(data: seq<byte>) returns (ok: bool)
      requires Valid()
      modifies this, buf
      ensures Valid() && Kept()
      ensures ok == old(Fits(|data|))
      ensures out == if ok then old(out) + data else old(out)
    {
      if !sizing {
        if bytesWritten + |data| > maxSize {
          return false;
        }
        var dest := state;
        state := dest + |data|;
        var i := 0;
        while i < |data|
          invariant i <= |data|
          invariant forall j :: 0 <= j < buf.Length && (j < dest || dest + |data| <= j) ==> buf[j] == old(buf[j])
          invariant forall j :: 0 <= j < i ==> buf[dest + j] == data[j]
          invariant state == dest + |data| && maxSize == old(maxSize)
          invariant bytesWritten == old(bytesWritten) && out == old(out)
        {
          buf[dest + i] := data[i];
          i := i + 1;
        }
        assert buf[start..state] == old(buf[start..state]) + data;
      }
      bytesWritten := bytesWritten + |data|;
      out := out + data;
      return true;
    }

    /** pb_write with a null source, which only a sizing stream gets. */
    method Count(n: nat, ghost data: seq<byte>)
      requires Valid() && sizing && |data| == n
      modifies this
      ensures Valid() && Kept() && out == old(out) + data
    {
      bytesWritten := bytesWritten + n;
      out := out + data;
    }
  }

  /** pb_encode_varint */
  method EncodeVarint(stream: OStream, value: nat) returns (ok: bool)
    requires stream.Valid() && value < U64
    modifies stream, stream.buf
    ensures stream.Valid() && stream.Kept()
    ensures ok == old(stream.Fits(|EncVarint(value)|))
    ensures ok ==> stream.out == old(stream.out) + EncVarint(value)
  {
    if value <= 0x7F {
      ok := stream.Write([value]);
      return;
    }
    var buffer, i := FillVarint(value);
    ok := stream.Write(buffer[..i]);
  }

  lemma {:induction false} EncVarintStep(v: nat)
    ensures EncVarint(v) == if v < 128 then [v] else [v % 128 + 128] + EncVarint(v / 128)
  {
  }

  /** The loop of pb_encode_varint, for values of more than seven bits. */
  method FillVarint(value: nat) returns (buffer: array<byte>, i: nat)
    requires 0x7F < value < U64
    ensures fresh(buffer) && i <= buffer.Length == 10 && buffer[..i] == EncVarint(value)
  {
    EncVarintFits(value);
    hide EncVarint;
    buffer, i := new byte[10], 0;
    var v := value;
    while v != 0
      invariant i <= 10
      invariant v != 0 ==> EncVarint(value) == buffer[..i] + EncVarint(v)
      invariant v == 0 ==> i > 0 && buffer[i - 1] >= 128
      invariant v == 0 ==> EncVarint(value) == buffer[..i - 1] + [buffer[i - 1] - 128]
      decreases v
    {
      ghost var before := buffer[..i];
      EncVarintStep(v);
      buffer[i] := v % 128 + 128;
      assert buffer[..i + 1] == before + [v % 128 + 128];
      v := v / 128;
      i := i + 1;
    }
    buffer[i - 1] := buffer[i - 1] - 128;
    assert buffer[..i] == EncVarint(value);
  }

  /** pb_encode_svarint */
  method EncodeSVarint(stream: OStream, value: int) returns (ok: bool)
    requires stream.Valid() && IsInt64(value)
    modifies stream, stream.buf
    ensures stream.Valid() && stream.Kept()
    ensures ok == old(stream.Fits(|EncVarint(ZigZag(value))|))
    ensures ok ==> stream.out == old(stream.out) + EncVarint(ZigZag(value))
  {
    var zigzagged;
    if value < 0 {
      zigzagged := U64 - 1 - (ToU64(value) * 2) % U64;
    } else {
      zigzagged := ToU64(value) * 2;
    }
    ok := EncodeVarint(stream, zigzagged);
  }
}
