/** The DTLS handshake fragment on the wire (section 4.2.2 of RFC 6347): a twelve-byte header and a
    slice of a handshake message. */
module DtlsFragment {
  import opened Wrappers
  import opened PbWire
  import opened NetworkOrder

  /** struct hm_header_st with the slice it heads; frag_len is the length of the slice. */
  datatype Fragment = Fragment(typ: nat, msgLen: nat, seqNum: nat, off: nat, body: seq<byte>)

  const HEADER_LENGTH: nat := 12

  /** dtls1_parse_fragment: the first fragment in s and what follows it. */
  function ParseFragment(s: seq<byte>): (r: Option<(Fragment, seq<byte>)>)
    ensures r.Some? ==> |r.value.1| < |s| && IsWire(r.value.0)
  {
    if |s| < HEADER_LENGTH then None
    else
      var len := FromBigEndian3(s[9..12]);
      if |s| < HEADER_LENGTH + len then None
      else Some((Fragment(s[0], FromBigEndian3(s[1..4]), FromBigEndian2(s[4..6]), FromBigEndian3(s[6..9]),
                          s[HEADER_LENGTH..HEADER_LENGTH + len]),
                 s[HEADER_LENGTH + len..]))
  }

  /** The header fields fit their widths on the wire. */
  predicate IsWire(f: Fragment) {
    f.typ < 0x100 && f.msgLen < 0x100_0000 && f.seqNum < 0x1_0000 && f.off < 0x100_0000 && |f.body| < 0x100_0000
  }

  /** The fragment as seal_next_message assembles it. */
  function SerializeFragment(f: Fragment): (s: seq<byte>)
    requires IsWire(f)
    ensures |s| == HEADER_LENGTH + |f.body|
  {
    [f.typ] + BigEndian3(f.msgLen) + BigEndian2(f.seqNum) + BigEndian3(f.off) + BigEndian3(|f.body|) + f.body
  }

  /** The header on the wire: type, length of the message, its number, offset and length of the slice, in
      network order, and then the slice. */
  lemma {:induction false} HeaderLayout(f: Fragment)
    requires IsWire(f)
    ensures var s := SerializeFragment(f);
            && s[0] == f.typ
            && f.msgLen == s[1] as int * 0x1_0000 + s[2] as int * 0x100 + s[3]
            && f.seqNum == s[4] as int * 0x100 + s[5]
            && f.off == s[6] as int * 0x1_0000 + s[7] as int * 0x100 + s[8]
            && |f.body| == s[9] as int * 0x1_0000 + s[10] as int * 0x100 + s[11]
            && s[12..] == f.body
  {
    BigEndian3RoundTrip(f.msgLen);
    BigEndian2RoundTrip(f.seqNum);
    BigEndian3RoundTrip(f.off);
    BigEndian3RoundTrip(|f.body|);
  }

  /** Parsing undoes serializing, whatever follows. */
  lemma {:induction false} FragmentRoundTrip(f: Fragment, t: seq<byte>)
    requires IsWire(f)
    ensures ParseFragment(SerializeFragment(f) + t) == Some((f, t))
  {
    var s := SerializeFragment(f) + t;
    assert s[1..4] == BigEndian3(f.msgLen) && s[4..6] == BigEndian2(f.seqNum);
    assert s[6..9] == BigEndian3(f.off) && s[9..12] == BigEndian3(|f.body|);
    BigEndian3RoundTrip(f.msgLen);
    BigEndian2RoundTrip(f.seqNum);
    BigEndian3RoundTrip(f.off);
    BigEndian3RoundTrip(|f.body|);
    assert s[HEADER_LENGTH..HEADER_LENGTH + |f.body|] == f.body;
    assert s[HEADER_LENGTH + |f.body|..] == t;
  }
}
