/**
 Inserting and stripping the VLAN tag of an Ethernet frame in place, include/rte_ether.h, over a packet
 buffer whose data may grow and shrink at its front, include/rte_mbuf.h.
 */
module Vlan {
  import opened Common
  import opened Words

  const ADDRS := 12   // both addresses
  const TAG := 4      // protocol identifier and tag control information

  function Hi(v: u16): byte {
    v / 0x100
  }

  function Lo(v: u16): byte {
    v % 0x100
  }

  // 16 bits in network order.
  function FromBe(hi: byte, lo: byte): u16 {
    hi * 0x100 + lo
  }

  /** Frames */

  predicate IsTagged(frame: seq<byte>)
    requires |frame| >= ADDRS + 2
  {
    FromBe(frame[ADDRS], frame[ADDRS + 1]) == 0x8100
  }

  function TciOf(frame: seq<byte>): u16
    requires |frame| >= ADDRS + TAG
  {
    FromBe(frame[ADDRS + 2], frame[ADDRS + 3])
  }

  function Tagged(frame: seq<byte>, tci: u16): seq<byte>
    requires |frame| >= ADDRS
  {
    frame[..ADDRS] + [0x81, 0x00, Hi(tci), Lo(tci)] + frame[ADDRS..]
  }

  function Untagged(frame: seq<byte>): seq<byte>
    requires |frame| >= ADDRS + TAG
  {
    frame[..ADDRS] + frame[ADDRS + TAG..]
  }

  // A tag is the bytes 0x81, 0x00 and the control information, the high byte first, after the addresses.
  lemma {:induction false} TagOnTheWire(frame: seq<byte>, tci: u16)
    ensures |frame| >= 12 ==>
      var t := Tagged(frame, tci);
      && |t| == |frame| + 4 && t[..12] == frame[..12] && t[16..] == frame[12..]
      && t[12] == 0x81 && t[13] == 0x00 && t[14] == tci / 0x100 && t[15] == tci % 0x100
    ensures |frame| >= 16 ==>
      && (IsTagged(frame) <==> frame[12] == 0x81 && frame[13] == 0x00)
      && frame[14] == TciOf(frame) / 0x100 && frame[15] == TciOf(frame) % 0x100
  {
    if |frame| >= 12 {
      var t := Tagged(frame, tci);
      assert t[..12] == frame[..12];
      assert t[16..] == frame[12..];
    }
  }

  lemma {:induction false} UntaggedOfTagged(frame: seq<byte>, tci: u16)
    requires |frame| >= ADDRS
    ensures var t := Tagged(frame, tci);
            IsTagged(t) && TciOf(t) == tci && Untagged(t) == frame
  {
    var t := Tagged(frame, tci);
    assert t[..ADDRS] == frame[..ADDRS];
    assert t[ADDRS + TAG..] == frame[ADDRS..];
  }

  lemma {:induction false} TaggedOfUntagged(frame: seq<byte>)
    requires |frame| >= ADDRS + TAG && IsTagged(frame)
    ensures Tagged(Untagged(frame), TciOf(frame)) == frame
  {
    var u := Untagged(frame);
    assert u[..ADDRS] == frame[..ADDRS] && u[ADDRS..] == frame[ADDRS + TAG..];
    assert frame[ADDRS] == 0x81 && frame[ADDRS + 1] == 0;
  }

  /** Buffers */

  // n bytes copied from src to dst, overlapping or not.
  function Copied(s: seq<byte>, dst: nat, src: nat, n: nat): (r: seq<byte>)
    requires dst + n <= |s| && src + n <= |s|
    ensures |r| == |s|
  {
    s[..dst] + s[src..src + n] + s[dst + n..]
  }

  // The whole buffer after a strip of the frame at off: the addresses move up over the tag.
  function StripBuf(s: seq<byte>, off: nat): (r: seq<byte>)
    requires off + ADDRS + TAG <= |s|
    ensures |r| == |s|
  {
    Copied(s, off + TAG, off, ADDRS)
  }

  // The whole buffer after an insert: the addresses move down and the tag takes their last four bytes.
  function InsertBuf(s: seq<byte>, off: nat, tci: u16): (r: seq<byte>)
    requires TAG <= off && off + ADDRS <= |s|
    ensures |r| == |s|
  {
    s[..off - TAG] + s[off..off + ADDRS] + [0x81, 0x00, Hi(tci), Lo(tci)] + s[off + ADDRS..]
  }

  lemma {:induction false} StripData(s: seq<byte>, off: nat, len: nat)
    requires ADDRS + TAG <= len && off + len <= |s|
    ensures StripBuf(s, off)[off + TAG..off + len] == Untagged(s[off..off + len])
  {
    var f := s[off..off + len];
    assert f[..ADDRS] == s[off..off + ADDRS] && f[ADDRS + TAG..] == s[off + ADDRS + TAG..off + len];
    assert s[off + ADDRS + TAG..] == s[off + ADDRS + TAG..off + len] + s[off + len..];
  }

  lemma {:induction false} InsertData(s: seq<byte>, off: nat, len: nat, tci: u16)
    requires TAG <= off && ADDRS <= len && off + len <= |s|
    ensures InsertBuf(s, off, tci)[off - TAG..off + len] == Tagged(s[off..off + len], tci)
  {
    var f := s[off..off + len];
    assert f[..ADDRS] == s[off..off + ADDRS] && f[ADDRS..] == s[off + ADDRS..off + len];
    assert s[off + ADDRS..] == s[off + ADDRS..off + len] + s[off + len..];
  }

  // A direct buffer's bytes and the fields of its first segment.
  datatype State = State(bytes: seq<byte>, off: u16, len: u16, pkt: u32, tci: u16)

  predicate Ok(s: State) {
    s.off + s.len <= |s.bytes| < 0x1_0000
  }

  function Frame(s: State): seq<byte>
    requires Ok(s)
  {
    s.bytes[s.off..s.off + s.len]
  }

  function Inserted(s: State): (r: State)
    requires Ok(s) && TAG <= s.off && ADDRS <= s.len
    ensures Ok(r)
  {
    State(InsertBuf(s.bytes, s.off, s.tci), s.off - TAG, s.len + TAG, Plus32(s.pkt, TAG), s.tci)
  }

  // What the source looks at is the buffer, also past the end of a short frame.
  predicate TaggedAt(s: State)
    requires s.off + ADDRS + 2 <= |s.bytes|
  {
    FromBe(s.bytes[s.off + ADDRS], s.bytes[s.off + ADDRS + 1]) == 0x8100
  }

  function TciAt(s: State): u16
    requires s.off + ADDRS + TAG <= |s.bytes|
  {
    FromBe(s.bytes[s.off + ADDRS + 2], s.bytes[s.off + ADDRS + 3])
  }

  function Stripped(s: State): (r: State)
    requires Ok(s) && TAG <= s.len && s.off + ADDRS + TAG <= |s.bytes|
    ensures Ok(r)
  {
    State(StripBuf(s.bytes, s.off), s.off + TAG, s.len - TAG, Minus32(s.pkt, TAG), TciAt(s))
  }

  // For a frame that holds the whole tag that is the frame's.
  lemma {:induction false} TagOfFrame(s: State)
    requires Ok(s) && ADDRS + TAG <= s.len
    ensures TaggedAt(s) == IsTagged(Frame(s)) && TciAt(s) == TciOf(Frame(s))
  {
  }

  // An insert puts the tag between the addresses and the rest of the frame.
  lemma {:induction false} InsertedFrame(s: State)
    requires Ok(s) && TAG <= s.off && ADDRS <= s.len
    ensures Frame(Inserted(s)) == Tagged(Frame(s), s.tci)
  {
    InsertData(s.bytes, s.off, s.len, s.tci);
  }

  // A strip takes it out.
  lemma {:induction false} StrippedFrame(s: State)
    requires Ok(s) && ADDRS + TAG <= s.len
    ensures Frame(Stripped(s)) == Untagged(Frame(s)) && Stripped(s).tci == TciOf(Frame(s))
  {
    StripData(s.bytes, s.off, s.len);
    TagOfFrame(s);
  }

  // Stripping what was inserted restores the frame and every field, and the buffer but for the four bytes
  // in front of the frame, which keep a copy of the first four.
  lemma {:induction false} StripOfInsert(s: State)
    requires Ok(s) && TAG <= s.off && ADDRS <= s.len
    ensures var n := Inserted(s);
            && IsTagged(Frame(n)) && ADDRS + TAG <= n.len
            && Frame(Stripped(n)) == Frame(s)
            && Stripped(n) == s.(bytes := Put4(s.bytes, s.off - TAG, s.bytes[s.off..s.off + TAG]))
  {
    var n := Inserted(s);
    InsertedFrame(s);
    StrippedFrame(n);
    UntaggedOfTagged(Frame(s), s.tci);
    StripOfInsertBuf(s.bytes, s.off, s.tci);
  }

  // Inserting what was stripped restores the whole buffer and every field; vlan_tci keeps the tag's.
  lemma {:induction false} InsertOfStrip(s: State)
    requires Ok(s) && ADDRS + TAG <= s.len && IsTagged(Frame(s))
    ensures var n := Stripped(s);
            TAG <= n.off && ADDRS <= n.len && Inserted(n) == s.(tci := TciOf(Frame(s)))
  {
    InsertOfStripBuf(s.bytes, s.off);
  }

  // Four bytes stored at a position.
  function Put4(s: seq<byte>, at: nat, b: seq<byte>): (r: seq<byte>)
    requires |b| == 4 && at + 4 <= |s|
    ensures |r| == |s|
  {
    s[..at] + b + s[at + 4..]
  }

  // Copying the addresses down and storing the tag after them.
  lemma {:induction false} InsertIsCopyAndTag(s: seq<byte>, off: nat, tci: u16)
    requires TAG <= off && off + ADDRS <= |s|
    ensures InsertBuf(s, off, tci)
         == Put4(Copied(s, off - TAG, off, ADDRS), off - TAG + ADDRS, [0x81, 0x00, Hi(tci), Lo(tci)])
  {
    var c := Copied(s, off - TAG, off, ADDRS);
    assert c[..off - TAG + ADDRS] == s[..off - TAG] + s[off..off + ADDRS];
    assert c[off + ADDRS..] == s[off + ADDRS..];
  }

  // All but the four bytes in front of the frame come back; those hold the first four of the addresses.
  lemma {:induction false} StripOfInsertBuf(s: seq<byte>, off: nat, tci: u16)
    requires TAG <= off && off + ADDRS <= |s|
    ensures StripBuf(InsertBuf(s, off, tci), off - TAG) == Put4(s, off - TAG, s[off..off + TAG])
  {
    var n := InsertBuf(s, off, tci);
    assert n[off - TAG..off - TAG + ADDRS] == s[off..off + ADDRS];
    assert n[off + ADDRS..] == s[off + ADDRS..];
    assert n[..off] == s[..off - TAG] + s[off..off + TAG];
    assert s[off..] == s[off..off + ADDRS] + s[off + ADDRS..];
  }

  lemma {:induction false} TagBytes(s: seq<byte>, at: nat)
    requires at + TAG <= |s| && FromBe(s[at], s[at + 1]) == 0x8100
    ensures var tci := FromBe(s[at + 2], s[at + 3]); [0x81, 0x00, Hi(tci), Lo(tci)] == s[at..at + TAG]
  {
    assert s[at] == 0x81 && s[at + 1] == 0;
  }

  lemma {:induction false} FourParts(s: seq<byte>, a: nat, b: nat, c: nat)
    requires a <= b <= c <= |s|
    ensures s == s[..a] + s[a..b] + s[b..c] + s[c..]
  {
  }

  lemma {:induction false} PartsOfStrip(s: seq<byte>, off: nat)
    requires off + ADDRS + TAG <= |s|
    ensures var n := StripBuf(s, off);
            && n[..off] == s[..off]
            && n[off + TAG..off + TAG + ADDRS] == s[off..off + ADDRS]
            && n[off + TAG + ADDRS..] == s[off + TAG + ADDRS..]
  {
  }

  lemma {:induction false} InsertOfStripBuf(s: seq<byte>, off: nat)
    requires off + ADDRS + TAG <= |s|
    requires FromBe(s[off + ADDRS], s[off + ADDRS + 1]) == 0x8100
    ensures InsertBuf(StripBuf(s, off), off + TAG, FromBe(s[off + ADDRS + 2], s[off + ADDRS + 3])) == s
  {
    hide StripBuf, Hi, Lo, FromBe;
    PartsOfStrip(s, off);
    TagBytes(s, off + ADDRS);
    FourParts(s, off, off + ADDRS, off + ADDRS + TAG);
  }

  class Mbuf {
    const buf: array<byte>
    var dataOff: u16
    var dataLen: u16
    var pktLen: u32
    var vlanTci: u16
    const direct: bool
    const refcnt: u16

    function Value(): State
      reads this, buf
    {
      State(buf[..], dataOff, dataLen, pktLen, vlanTci)
    }

    ghost predicate Valid()
      reads this, buf
    {
      Ok(Value())
    }

    constructor (b: array<byte>, off: u16, len: u16, pkt: u32, tci: u16, dir: bool, refs: u16)
      requires off + len <= b.Length < 0x1_0000
      ensures Valid() && buf == b && direct == dir && refcnt == refs
      ensures Value() == State(b[..], off, len, pkt, tci)
    {
      buf, dataOff, dataLen, pktLen, vlanTci, direct, refcnt := b, off, len, pkt, tci, dir, refs;
    }

    // The overlapping byte copy of the C library.
    method Memmove(dst: nat, src: nat, n: nat)
      requires dst + n <= buf.Length && src + n <= buf.Length
      modifies buf
      ensures buf[..] == Copied(old(buf[..]), dst, src, n)
    {
      forall i | dst <= i < dst + n {
        buf[i] := buf[src + (i - dst)];
      }
    }

    // The protocol identifier and the tag control information, in network order.
    method StoreTag(at: nat, tci: u16)
      requires at + TAG <= buf.Length
      modifies buf
      ensures buf[..] == Put4(old(buf[..]), at, [0x81, 0x00, Hi(tci), Lo(tci)])
    {
      buf[at], buf[at + 1] := 0x81, 0x00;
      buf[at + 2], buf[at + 3] := Hi(tci), Lo(tci);
    }

    // The new start of the data, or -1 and no change for a null pointer.
    method Prepend(len: u16) returns (start: int)
      requires dataOff + dataLen < 0x1_0000
      modifies this`dataOff, this`dataLen, this`pktLen
      ensures len > old(dataOff) ==>
        start == -1 && dataOff == old(dataOff) && dataLen == old(dataLen) && pktLen == old(pktLen)
      ensures len <= old(dataOff) ==>
        && start == dataOff == old(dataOff) - len && dataLen == old(dataLen) + len
        && pktLen == Plus32(old(pktLen), len)
    {
      if len > dataOff {
        return -1;
      }
      dataOff := dataOff - len;
      dataLen := dataLen + len;
      pktLen := Plus32(pktLen, len);
      return dataOff;
    }

    method Adj(len: u16) returns (start: int)
      requires dataOff + dataLen < 0x1_0000
      modifies this`dataOff, this`dataLen, this`pktLen
      ensures len > old(dataLen) ==>
        start == -1 && dataOff == old(dataOff) && dataLen == old(dataLen) && pktLen == old(pktLen)
      ensures len <= old(dataLen) ==>
        && start == dataOff == old(dataOff) + len && dataLen == old(dataLen) - len
        && pktLen == Minus32(old(pktLen), len)
    {
      if len > dataLen {
        return -1;
      }
      dataLen := dataLen - len;
      dataOff := dataOff + len;
      pktLen := Minus32(pktLen, len);
      return dataOff;
    }

    // Takes the tag off a tagged frame. What it looks at must be in the buffer, and the frame hold as many
    // bytes as it takes off.
    method Strip() returns (ret: int)
      requires Valid() && dataOff + ADDRS + 2 <= buf.Length
      requires TaggedAt(Value()) ==> TAG <= dataLen && dataOff + ADDRS + TAG <= buf.Length
      modifies this`dataOff, this`dataLen, this`pktLen, this`vlanTci, buf
      ensures Valid()
      ensures ret == if TaggedAt(old(Value())) then 0 else -1
      ensures Value() == if ret == 0 then Stripped(old(Value())) else old(Value())
    {
      var eh := dataOff;
      if FromBe(buf[eh + ADDRS], buf[eh + ADDRS + 1]) != 0x8100 {
        return -1;
      }
      vlanTci := FromBe(buf[eh + ADDRS + 2], buf[eh + ADDRS + 3]);
      var start := Adj(TAG);
      Memmove(start, eh, ADDRS);
      return 0;
    }

    // Puts a tag with vlanTci into the frame.
    method Insert() returns (ret: int)
      requires Valid()
      modifies this`dataOff, this`dataLen, this`pktLen, buf
      ensures Valid()
      ensures ret == if !direct || refcnt > 1 || old(dataLen) < ADDRS then -EINVAL
                     else if old(dataOff) < TAG then -ENOSPC else 0
      ensures Value() == if ret == 0 then Inserted(old(Value())) else old(Value())
    {
      hide InsertBuf, Put4, Copied;
      if !direct || refcnt > 1 {
        return -EINVAL;
      }
      if dataLen < ADDRS {
        return -EINVAL;
      }
      var oh := dataOff;
      var nh := Prepend(TAG);
      if nh == -1 {
        return -ENOSPC;
      }
      InsertIsCopyAndTag(buf[..], oh, vlanTci);
      Memmove(nh, oh, ADDRS);
      StoreTag(nh + ADDRS, vlanTci);
      return 0;
    }
  }
}
