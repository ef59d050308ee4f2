/** 802.1Q tags pushed and popped in place at the front of a packet (clause 9 of IEEE
    802.1Q).  A packet is the part of a buffer between two offsets. */
module VlanTag {
  import opened MachineWords

  const ETH_P_8021Q: U16 := 0x8100
  const ETH_P_8021AD: U16 := 0x88A8
  const ETH_HEADER := 14
  const TAG := 4

  /** A 16-bit number in network byte order. */
  function Big(x: U16): seq<U8> {
    [x / 0x100, x % 0x100]
  }

  function ReadBig(s: seq<U8>, i: nat): U16
    requires i + 1 < |s|
  {
    (s[i] as int) * 0x100 + s[i+1]
  }

  function Proto(p: seq<U8>): U16
    requires |p| >= ETH_HEADER
  {
    ReadBig(p, 12)
  }

  predicate IsTpid(x: U16) {
    x == ETH_P_8021Q || x == ETH_P_8021AD
  }

  predicate Tagged(p: seq<U8>) {
    |p| >= ETH_HEADER && IsTpid(Proto(p))
  }

  function TpidFor(ethProto: U16): U16 {
    if IsTpid(ethProto) then ethProto else ETH_P_8021Q
  }

  /** The packet with a tag behind its addresses. */
  function WithTag(p: seq<U8>, tpid: U16, tci: U16): seq<U8>
    requires |p| >= ETH_HEADER
  {
    p[..12] + Big(tpid) + Big(tci) + p[12..]
  }

  /** The packet without the tag behind its addresses. */
  function WithoutTag(p: seq<U8>): seq<U8>
    requires |p| >= ETH_HEADER + TAG
  {
    p[..12] + p[16..]
  }

  /** The VLAN id as the datapath reads it.  Its test of the protocol is satisfied by
      any type but 0x88A8: untagged packets yield payload bits. */
  function VlanId(p: seq<U8>): int {
    if |p| < ETH_HEADER || Proto(p) == ETH_P_8021AD || |p| < ETH_HEADER + TAG then -1
    else ReadBig(p, 14) % 0x1000
  }

  // ------------------------------------------------------------ the laws

  lemma TagFields(p: seq<U8>, tpid: U16, tci: U16)
    requires |p| >= ETH_HEADER
    ensures var t := WithTag(p, tpid, tci);
            |t| == |p| + TAG && Proto(t) == tpid && ReadBig(t, 14) == tci && ReadBig(t, 16) == Proto(p)
    ensures WithTag(p, tpid, tci)[..12] == p[..12] && WithTag(p, tpid, tci)[18..] == p[14..]
  {
  }

  /** Popping a pushed tag restores the packet byte for byte. */
  lemma PopAfterPush(p: seq<U8>, tpid: U16, tci: U16)
    requires |p| >= ETH_HEADER
    ensures WithoutTag(WithTag(p, tpid, tci)) == p
    ensures IsTpid(tpid) ==> Tagged(WithTag(p, tpid, tci))
  {
  }

  /** Pushing a popped tag back restores the packet, whatever its priority bits. */
  lemma PushAfterPop(p: seq<U8>)
    requires |p| >= ETH_HEADER + TAG && Tagged(p)
    ensures WithTag(WithoutTag(p), TpidFor(Proto(p)), ReadBig(p, 14)) == p
  {
  }

  /** The VLAN id of a pushed 0x8100 tag is the pushed number modulo 4096; for 0x88A8 none
      is found. */
  lemma IdAfterPush(p: seq<U8>, ethProto: U16, vlan: U32)
    requires |p| >= ETH_HEADER
    ensures VlanId(WithTag(p, TpidFor(ethProto), vlan % 0x1_0000)) == if ethProto == ETH_P_8021AD then -1
            else vlan % 0x1000
  {
    TagFields(p, TpidFor(ethProto), vlan % 0x1_0000);
    assert vlan % 0x1_0000 % 0x1000 == vlan % 0x1000;
  }

  /** Exactly when the id is read from a tag: the packet is long enough and its type is
      0x8100; any other type but 0x88A8 gives an id that is none. */
  lemma IdIsFromTag(p: seq<U8>)
    ensures VlanId(p) >= 0 ==> |p| >= ETH_HEADER + TAG && VlanId(p) == ReadBig(p, 14) % 0x1000
    ensures VlanId(p) < 0 ==> VlanId(p) == -1
    ensures |p| >= ETH_HEADER + TAG ==> (VlanId(p) >= 0 && Tagged(p) <==> Proto(p) == ETH_P_8021Q)
    ensures |p| >= ETH_HEADER + TAG ==> (VlanId(p) >= 0 && !Tagged(p) <==> Proto(p) !in {ETH_P_8021Q, ETH_P_8021AD})
  {
  }

  // --------------------------------------------------------- in the buffer

  /** A header moved up by four bytes, keeping the type behind the tag, pops the tag. */
  lemma Popped(b: seq<U8>, b': seq<U8>, d: nat, e: nat)
    requires |b'| == |b| && d + ETH_HEADER + TAG <= e <= |b|
    requires forall k :: d + TAG <= k < d + 16 ==> b'[k] == b[k - TAG]
    requires forall k :: d + 16 <= k < e ==> b'[k] == b[k]
    ensures b'[d + TAG..e] == WithoutTag(b[d..e])
  {
  }

  /** A header moved down by four bytes, with the tag's fields written behind it, pushes a
      tag. */
  lemma Pushed(b: seq<U8>, b': seq<U8>, d: nat, e: nat, tpid: U16, tci: U16)
    requires |b'| == |b| && TAG <= d && d + ETH_HEADER <= e <= |b|
    requires forall k :: d - TAG <= k < d + 8 ==> b'[k] == b[k + TAG]
    requires b'[d+8] == tpid / 0x100 && b'[d+9] == tpid % 0x100 && b'[d+10] == tci / 0x100 && b'[d+11] == tci % 0x100
    requires forall k :: d + 12 <= k < e ==> b'[k] == b[k]
    ensures b'[d - TAG..e] == WithTag(b[d..e], tpid, tci)
  {
  }

  class Packet {
    const buf: array<U8>
    var data: nat
    var dataEnd: nat

    constructor (buf: array<U8>, data: nat, dataEnd: nat)
      requires data <= dataEnd <= buf.Length
      ensures this.buf == buf && Valid() && Bytes() == buf[data..dataEnd]
      ensures this.data == data && this.dataEnd == dataEnd
    {
      this.buf, this.data, this.dataEnd := buf, data, dataEnd;
    }

    ghost predicate Valid()
      reads this
    {
      data <= dataEnd <= buf.Length
    }

    function Bytes(): seq<U8>
      reads this, buf
      requires Valid()
    {
      buf[data..dataEnd]
    }

    /** The 16-bit field at an offset of the packet. */
    function Field(i: nat): U16
      reads this, buf
      requires Valid() && data + i + 1 < dataEnd
    {
      (buf[data+i] as int) * 0x100 + buf[data+i+1]
    }

    method SetField(i: nat, x: U16)
      requires Valid() && data + i + 1 < dataEnd
      modifies buf
      ensures forall k :: 0 <= k < buf.Length ==>
                buf[k] == if k == data + i then x / 0x100 else if k == data + i + 1 then x % 0x100 else old(buf[k])
    {
      buf[data+i], buf[data+i+1] := x / 0x100, x % 0x100;
    }

    /** Moves the front of the packet; fails without headroom or if too little is left. */
    method AdjustHead(delta: int) returns (rc: int)
      requires Valid()
      modifies this`data
      ensures Valid() && dataEnd == old(dataEnd)
      ensures rc == 0 <==> old(data) + delta >= 0 && old(data) + delta + ETH_HEADER <= dataEnd
      ensures data == if rc == 0 then old(data) + delta else old(data)
    {
      if data + delta < 0 || data + delta + ETH_HEADER > dataEnd { return -22; }
      data := data + delta;
      rc := 0;
    }

    /** Copies an Ethernet header between two overlapping places. */
    method MoveHeader(dst: nat, src: nat)
      requires dst + ETH_HEADER <= buf.Length && src + ETH_HEADER <= buf.Length
      modifies buf
      ensures forall k :: 0 <= k < buf.Length ==>
                buf[k] == old(if dst <= k < dst + ETH_HEADER then buf[src + k - dst] else buf[k])
    {
      forall k | 0 <= k < ETH_HEADER {
        buf[dst + k] := buf[src + k];
      }
    }

    method IsVlanPresent() returns (r: bool)
      requires Valid()
      ensures r <==> Tagged(Bytes())
      ensures r <==> |Bytes()| >= ETH_HEADER && ReadBig(Bytes(), 12) in {ETH_P_8021Q, ETH_P_8021AD}
    {
      if data + ETH_HEADER > dataEnd { return false; }
      var proto := Field(12);
      r := proto == ETH_P_8021Q || proto == ETH_P_8021AD;
    }

    method GetVlanId() returns (id: int)
      requires Valid()
      ensures id == VlanId(Bytes())
    {
      if data + ETH_HEADER > dataEnd { return -1; }
      var proto := Field(12);
      if proto != ETH_P_8021Q && proto == ETH_P_8021AD { return -1; }
      if data + ETH_HEADER + TAG > dataEnd { return -1; }
      id := Field(14) % 0x1000;
    }

    /** Moves the addresses over the tag; the type behind the tag stays where it is. */
    method CloseGap() returns (rc: int)
      requires Valid() && data + ETH_HEADER + TAG <= dataEnd
      modifies this`data, buf
      ensures rc == 0 && Valid() && dataEnd == old(dataEnd) && Bytes() == WithoutTag(old(Bytes()))
    {
      ghost var before, start := buf[..], data;
      var inner := Field(16);
      MoveHeader(data + TAG, data);
      rc := AdjustHead(TAG);
      if rc != 0 { return 1; }
      SetField(12, inner);
      Popped(before, buf[..], start, dataEnd);
    }

    /** Removes the tag, if there is one. */
    method PopTag() returns (rc: int)
      requires Valid()
      modifies this`data, buf
      ensures Valid() && dataEnd == old(dataEnd)
      ensures var p := old(Bytes());
              && rc == (if |p| < ETH_HEADER then -1 else if Tagged(p) && |p| < ETH_HEADER + TAG then 1 else 0)
              && Bytes() == (if rc == 0 && Tagged(p) then WithoutTag(p) else p)
    {
      if data + ETH_HEADER > dataEnd { return -1; }
      var proto := Field(12);
      assert proto == Proto(Bytes());
      if proto == ETH_P_8021Q || proto == ETH_P_8021AD {
        if data + ETH_HEADER + TAG > dataEnd { return 1; }
        rc := CloseGap();
      } else {
        rc := 0;
      }
    }

    /** Moves the addresses down into four bytes of headroom just gained and writes a tag
        behind them, with the packet's own type last. */
    method FillGap(tpid: U16, tci: U16, proto: U16, ghost p: seq<U8>)
      requires Valid() && data + TAG + ETH_HEADER <= dataEnd && p == buf[data+TAG..dataEnd] && proto == ReadBig(p, 12)
      modifies buf
      ensures Bytes() == WithTag(p, tpid, tci)
    {
      ghost var before, start := buf[..], data + TAG;
      MoveHeader(data, data + TAG);
      SetField(12, tpid);
      SetField(14, tci);
      SetField(16, proto);
      Pushed(before, buf[..], start, dataEnd, tpid, tci);
    }

    /** Inserts a tag.  The packet must have 28 bytes and 4 bytes of headroom; one that
        is shorter, but holds a header, is left grown by 4 bytes of headroom. */
    method PushTag(ethProto: U16, vlan: U32) returns (rc: int)
      requires Valid()
      modifies this`data, buf
      ensures Valid() && dataEnd == old(dataEnd)
      ensures rc == 0 <==> |old(Bytes())| >= 28 && old(data) >= TAG
      ensures rc == 0 ==> Bytes() == WithTag(old(Bytes()), TpidFor(ethProto), vlan % 0x1_0000)
      ensures rc == 0 ==>
                Tagged(Bytes()) && Proto(Bytes()) == if ethProto == ETH_P_8021AD then ETH_P_8021AD else ETH_P_8021Q
      ensures rc == 0 ==> ReadBig(Bytes(), 14) == vlan % 0x1_0000 && ReadBig(Bytes(), 16) == Proto(old(Bytes()))
      ensures rc != 0 ==> rc == -1 && buf[..] == old(buf[..])
      ensures rc != 0 ==> data == if ETH_HEADER <= |old(Bytes())| < 28 && old(data) >= TAG then old(data) - TAG
              else old(data)
    {
      if data + ETH_HEADER > dataEnd { return -1; }
      ghost var p := Bytes();
      var proto := Field(12);
      var tpid := ethProto;
      if tpid != ETH_P_8021Q && tpid != ETH_P_8021AD {
        tpid := ETH_P_8021Q;
      }
      var adjusted := AdjustHead(-TAG);
      if adjusted != 0 { return -1; }
      if data + ETH_HEADER > dataEnd { return -1; }
      if data + ETH_HEADER + TAG > dataEnd { return -1; }
      if data + ETH_HEADER + TAG + ETH_HEADER > dataEnd { return -1; }
      FillGap(tpid, vlan % 0x1_0000, proto, p);
      TagFields(p, tpid, vlan % 0x1_0000);
      rc := 0;
    }
  }
}
