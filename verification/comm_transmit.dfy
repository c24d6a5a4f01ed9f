// The byte stream of one response.
module CommTransmit {
  import opened Words
  import opened Checksum

  function Header(command: byte, subfunction: byte, code: byte, length: u16): seq<byte> {
    [command, subfunction, code, length / 256, length % 256]
  }

  /** Header, payload and CRC of the two, most significant byte first. */
  function ResponseFrame(command: byte, subfunction: byte, code: byte, payload: seq<byte>): (f: seq<byte>)
    requires |payload| < 0x1_0000
    ensures |f| == 9 + |payload|
  {
    var covered := Header(command, subfunction, code, |payload|) + payload;
    covered + CrcBytes(Crc32(covered, ZERO))
  }

  /** What a peer reads: command, subfunction, code, length and payload, and what it checks: the
      last four bytes are the CRC of everything before them. */
  lemma FrameChecks(command: byte, subfunction: byte, code: byte, payload: seq<byte>)
    requires |payload| < 0x1_0000
    ensures
      var f := ResponseFrame(command, subfunction, code, payload);
      && f[0] == command && f[1] == subfunction && f[2] == code
      && DecodeBe(f[3..5]) == |payload| && f[5..5 + |payload|] == payload
      && GlueAll(ZERO, f[5 + |payload|..]) == Crc32(f[..5 + |payload|], ZERO)
  {
    hide Crc32, CrcBytes, GlueAll;
    var f := ResponseFrame(command, subfunction, code, payload);
    var covered := Header(command, subfunction, code, |payload|) + payload;
    assert f[..5 + |payload|] == covered && f[5 + |payload|..] == CrcBytes(Crc32(covered, ZERO));
    GlueCrcBytes(Crc32(covered, ZERO));
    TwoBytes(|payload|);
    assert f[3..5] == EncodeBe(|payload|, 2);
    Spans();
    DecodeEncode(|payload|, 2);
  }
}
