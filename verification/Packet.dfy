/** The packet buffer an XDP program works on, and the helpers that move its ends. */
module Packet {
  import opened Words

  const ETH_HLEN: nat := 14

  // enum xdp_action
  const XDP_ABORTED: int := 0
  const XDP_DROP: int := 1
  const XDP_PASS: int := 2
  const XDP_TX: int := 3
  const XDP_REDIRECT: int := 4

  /** A buffer with headroom in front of the packet and tailroom behind it. */
  class XdpMd {
    const mem: array<byte>
    var data: nat
    var dataEnd: nat

    ghost predicate Valid()
      reads this
    {
      data <= dataEnd <= mem.Length
    }

    /** The bytes between `data` and `data_end`. */
    function Bytes(): (s: seq<byte>)
      requires Valid()
      reads this, mem
      ensures |s| == dataEnd - data
    {
      mem[data..dataEnd]
    }

    function Tailroom(): nat
      requires Valid()
      reads this
    {
      mem.Length - dataEnd
    }

    constructor (headroom: nat, packet: seq<byte>, tailroom: nat)
      ensures Valid() && fresh(mem)
      ensures data == headroom && Bytes() == packet && Tailroom() == tailroom
    {
      var n := headroom + |packet| + tailroom;
      mem := new byte[n](i => if 0 <= i - headroom < |packet| then packet[i - headroom] else 0);
      data := headroom;
      dataEnd := headroom + |packet|;
    }

    /** Copies `bs` into the packet at `off`, as a memcpy or a field store does. */
    method Write(off: nat, bs: seq<byte>)
      requires Valid() && off + |bs| <= dataEnd - data
      modifies mem
      ensures Bytes() == Splice(old(Bytes()), off, bs)
    {
      ghost var before := Bytes();
      for i := 0 to |bs|
        invariant Bytes() == Splice(before, off, bs[..i])
      {
        mem[data + off + i] := bs[i];
        assert Bytes() == Splice(before, off, bs[..i + 1]);
      }
      assert bs[..|bs|] == bs;
    }

    /** The assumed contract of `bpf_xdp_adjust_head`: it moves `data` by `delta`
        when there is headroom for that and an Ethernet header still fits. */
    method AdjustHead(delta: int) returns (rc: int)
      requires Valid()
      modifies this`data
      ensures Valid()
      ensures rc == 0 <==> 0 <= old(data) + delta && old(data) + delta + ETH_HLEN <= dataEnd
      ensures data == if rc == 0 then old(data) + delta else old(data)
    {
      if 0 <= data + delta && data + delta + ETH_HLEN <= dataEnd {
        data := data + delta;
        rc := 0;
      } else {
        rc := -1;
      }
    }

    /** The assumed contract of `bpf_xdp_adjust_tail` when it grows the packet:
        it needs the tailroom, and clears the bytes it adds. */
    method GrowTail(n: nat) returns (rc: int)
      requires Valid()
      modifies this`dataEnd, mem
      ensures Valid()
      ensures rc == 0 <==> n <= old(Tailroom()) && ETH_HLEN <= old(dataEnd) + n - data
      ensures rc != 0 ==> Bytes() == old(Bytes())
      ensures rc == 0 ==> Bytes() == old(Bytes()) + seq(n, _ => 0)
    {
      if n <= mem.Length - dataEnd && ETH_HLEN <= dataEnd + n - data {
        ghost var before := Bytes();
        var oldEnd := dataEnd;
        dataEnd := dataEnd + n;
        assert Bytes()[..|before|] == before;
        Write(oldEnd - data, seq(n, _ => 0));
        rc := 0;
      } else {
        rc := -1;
      }
    }
  }
}
