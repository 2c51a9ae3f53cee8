/** Numbers of two and three bytes in network order, the u16 and u24 of the TLS wire formats. */
module NetworkOrder {
  import opened PbWire

  function BigEndian2(v: nat): (s: seq<byte>)
    ensures |s| == 2
  {
    [v / 0x100 % 0x100, v % 0x100]
  }

  function BigEndian3(v: nat): (s: seq<byte>)
    ensures |s| == 3
  {
    [v / 0x1_0000 % 0x100, v / 0x100 % 0x100, v % 0x100]
  }

  function FromBigEndian2(s: seq<byte>): nat
    requires |s| == 2
  {
    s[0] as int * 0x100 + s[1]
  }

  function FromBigEndian3(s: seq<byte>): nat
    requires |s| == 3
  {
    s[0] as int * 0x1_0000 + s[1] as int * 0x100 + s[2]
  }

  lemma {:induction false} BigEndian2RoundTrip(v: nat)
    requires v < 0x1_0000
    ensures FromBigEndian2(BigEndian2(v)) == v
  {
    assert v / 0x100 % 0x100 == v / 0x100;
  }

  lemma {:induction false} BigEndian3RoundTrip(v: nat)
    requires v < 0x100_0000
    ensures FromBigEndian3(BigEndian3(v)) == v
  {
    var low, high := v % 0x100, v / 0x100;
    assert v == high * 0x100 + low && high < 0x1_0000;
    assert v / 0x1_0000 == high / 0x100 && high / 0x100 % 0x100 == high / 0x100;
    BigEndian2RoundTrip(high);
  }
}
