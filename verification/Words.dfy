/** Bytes, 16-bit words and host byte order.

    A packet is a sequence of bytes. Programs load and store 16-bit fields in
    the byte order of the host they run on, which is a parameter everywhere. */
module Words {

  type byte = x: int | 0 <= x < 0x100
  type u16 = x: int | 0 <= x < 0x1_0000
  type u32 = x: int | 0 <= x < 0x1_0000_0000

  datatype Endian = Big | Little

  /** The value a 16-bit load gives for two adjacent bytes. */
  function Load16(e: Endian, first: byte, second: byte): u16 {
    if e.Big? then first * 0x100 + second else second * 0x100 + first
  }

  function Swap16(x: u16): u16 {
    x % 0x100 * 0x100 + x / 0x100
  }

  /** `bpf_htons` and `bpf_ntohs`, which are the same function. */
  function Htons(e: Endian, x: u16): u16 {
    if e.Big? then x else Swap16(x)
  }

  /** The two bytes a 16-bit store writes, in address order. */
  function Store16(e: Endian, x: u16): (s: seq<byte>)
    ensures |s| == 2 && Load16(e, s[0], s[1]) == x
  {
    if e.Big? then [x / 0x100, x % 0x100] else [x % 0x100, x / 0x100]
  }

  /** A 16-bit field of the packet, as the wire means it. */
  function Wire16(s: seq<byte>, off: nat): u16
    requires off + 2 <= |s|
  {
    Load16(Big, s[off], s[off + 1])
  }

  /** A 16-bit field of the packet, as the host loads it. */
  function Host16(e: Endian, s: seq<byte>, off: nat): u16
    requires off + 2 <= |s|
  {
    Load16(e, s[off], s[off + 1])
  }

  lemma HostIsHtonsOfWire(e: Endian, s: seq<byte>, off: nat)
    requires off + 2 <= |s|
    ensures Host16(e, s, off) == Htons(e, Wire16(s, off))
    ensures Htons(e, Host16(e, s, off)) == Wire16(s, off)
  {
    SwapBytes(s[off], s[off + 1]);
    SwapBytes(s[off + 1], s[off]);
  }

  /** A field loaded and put in host order by `bpf_ntohs`. */
  function Ntohs16(e: Endian, s: seq<byte>, off: nat): (r: u16)
    requires off + 2 <= |s|
    ensures r == Wire16(s, off)
  {
    HostIsHtonsOfWire(e, s, off);
    Htons(e, Host16(e, s, off))
  }

  lemma SwapBytes(h: byte, l: byte)
    ensures Swap16(h * 0x100 + l) == l * 0x100 + h
  {
    var x: u16 := h * 0x100 + l;
    assert x / 0x100 == h && x % 0x100 == l;
  }

  lemma SwapSwap(x: u16)
    ensures Swap16(Swap16(x)) == x
  {
    SwapBytes(x / 0x100, x % 0x100);
    SwapBytes(x % 0x100, x / 0x100);
  }

  /** Comparing a loaded field with `htons` of a constant compares wire values. */
  lemma HtonsInjective(e: Endian, x: u16, y: u16)
    ensures Htons(e, Htons(e, x)) == x
    ensures Htons(e, x) == Htons(e, y) <==> x == y
  {
    SwapSwap(x);
    SwapSwap(y);
  }

  /** Overwrites the bytes at `off` with `bs`. */
  function Splice(s: seq<byte>, off: nat, bs: seq<byte>): (r: seq<byte>)
    requires off + |bs| <= |s|
    ensures |r| == |s|
    ensures forall i {:trigger r[i]} :: 0 <= i < |s| ==> r[i] == if off <= i < off + |bs| then bs[i - off] else s[i]
  {
    s[..off] + bs + s[off + |bs|..]
  }

  lemma SliceSlice(s: seq<byte>, a: nat, b: nat, x: nat, y: nat)
    requires a <= b <= |s| && x <= y <= b - a
    ensures s[a..b][x..y] == s[a + x..a + y]
  {
    var u, v := s[a..b][x..y], s[a + x..a + y];
    forall i | 0 <= i < |u|
      ensures u[i] == v[i]
    {
      assert u[i] == s[a..b][x + i] == s[a + (x + i)];
      assert v[i] == s[a + x + i];
    }
  }

  /** Counters are 64-bit and wrap. */
  const U64: nat := 0x1_0000_0000_0000_0000

  type u64 = x: int | 0 <= x < 0x1_0000_0000_0000_0000

  lemma AddWraps(a: nat, b: nat)
    ensures (a % U64 + b) % U64 == (a + b) % U64
  {
    var q, r := a / U64, a % U64;
    assert a == U64 * q + r;
    var q2 := (r + b) / U64;
    assert (a + b) / U64 == q + q2;
  }

  predicate AllZero(s: seq<byte>) {
    forall i :: 0 <= i < |s| ==> s[i] == 0
  }
}
