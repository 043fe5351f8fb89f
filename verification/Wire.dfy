/** Framing: a fixed header and a payload for each message. */
module Wire {
  import opened Bytes

  type u16 = x: int | 0 <= x < 0x1_0000
  type u32 = x: int | 0 <= x < 0x1_0000_0000
  type u64 = x: int | 0 <= x < 0x1_0000_0000_0000_0000

  const JC_MAX_HEADERLEN: nat := 64
  const JC_MAX_COMP_IMAGESIZE: nat := 1 * (1024 * 1000)
  const JC_MAX_MSGLEN: nat := JC_MAX_HEADERLEN + JC_MAX_COMP_IMAGESIZE

  // 'J', 'C', 'A', 'M'
  const MAGIC: seq<byte> := [0x4a, 0x43, 0x41, 0x4d]

  datatype Header = Header(magic: seq<byte>, msgtype: u16, reqid: u16, sendtimems: u64, msglen: u32)

  const HEADER_LENGTH: nat := 20

  /** The packed structure as it lies in memory. */
  function HeaderOctets(h: Header): (s: seq<byte>)
    requires |h.magic| == 4
    ensures |s| == HEADER_LENGTH
  {
    h.magic + LittleEndian(h.msgtype, 2) + LittleEndian(h.reqid, 2) + LittleEndian(h.sendtimems, 8) +
        LittleEndian(h.msglen, 4)
  }

  function ParseHeader(s: seq<byte>): (h: Header)
    requires |s| == HEADER_LENGTH
    ensures |h.magic| == 4
  {
    Powers();
    Header(s[..4], FromLittleEndian(s[4..6]), FromLittleEndian(s[6..8]), FromLittleEndian(s[8..16]),
        FromLittleEndian(s[16..20]))
  }

  lemma HeaderFields(h: Header)
    requires |h.magic| == 4
    ensures var s := HeaderOctets(h);
            && s[..4] == h.magic && s[4..6] == LittleEndian(h.msgtype, 2) && s[6..8] == LittleEndian(h.reqid, 2)
            && s[8..16] == LittleEndian(h.sendtimems, 8) && s[16..20] == LittleEndian(h.msglen, 4)
  {
    hide LittleEndian;
  }

  lemma HeaderSurvives(h: Header)
    requires |h.magic| == 4
    ensures ParseHeader(HeaderOctets(h)) == h
  {
    Powers();
    hide LittleEndian, FromLittleEndian, Power256;
    NumberSurvives(h.msgtype, 2);
    NumberSurvives(h.reqid, 2);
    NumberSurvives(h.sendtimems, 8);
    NumberSurvives(h.msglen, 4);
    HeaderFields(h);
  }

  /** What one side tells the other. */
  datatype Message = Message(msgtype: u16, reqid: u16, sendtimems: u64, payload: seq<byte>)

  ghost predicate Sendable(m: Message)
  {
    1 <= |m.payload| < JC_MAX_MSGLEN
  }

  function HeaderOf(m: Message): (h: Header)
    requires |m.payload| < 0x1_0000_0000
    ensures h.magic == MAGIC && h.msglen == |m.payload|
  {
    Header(MAGIC, m.msgtype, m.reqid, m.sendtimems, |m.payload|)
  }

  function Frame(m: Message): (s: seq<byte>)
    requires |m.payload| < 0x1_0000_0000
    ensures |s| == HEADER_LENGTH + |m.payload|
  {
    HeaderOctets(HeaderOf(m)) + m.payload
  }
}
