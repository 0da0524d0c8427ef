/**
 * The route record kept by the monitor (RouteInfo in rmon.c) and the C
 * scalar and string types it is built from.
 */
module Routes {

  /** Size of the character buffers that hold a textual address, terminator included. */
  const INET6_ADDRSTRLEN: nat := 46

  /** 2^32: the modulus of C `unsigned int` arithmetic. */
  const WORD: nat := 0x1_0000_0000

  /** A C `char` as the byte stored in memory. */
  type Byte = x: int | 0 <= x < 256

  /** A C `int`. */
  type Int32 = x: int | -0x8000_0000 <= x < 0x8000_0000

  /** A C `unsigned int` / `__u32`. */
  type UInt32 = x: int | 0 <= x < 0x1_0000_0000

  /** The bytes of a NUL-terminated C string, without its terminator. */
  type CString = s: seq<Byte> | forall i | 0 <= i < |s| :: s[i] != 0

  /** A C string that fits in a `char[INET6_ADDRSTRLEN]` buffer. */
  type AddrStr = s: CString | |s| < INET6_ADDRSTRLEN

  /** "unknown": the destination of a route whose message carries none. */
  const UNKNOWN: AddrStr := [117, 110, 107, 110, 111, 119, 110]

  /** "none": the gateway of a route without one. */
  const NONE: AddrStr := [110, 111, 110, 101]

  /** The interface index of a route without a next hop. */
  const NO_IFINDEX: Int32 := -1

  /** One observed route. Its key is (destination, ifindex); gateway and metric are informational. */
  datatype RouteInfo = RouteInfo(destination: AddrStr, ifindex: Int32, gateway: AddrStr, metric: Int32)

  /**
   * The match test of hash_table_remove: strcmp of the destinations gives 0
   * and the interface indices are equal. On strings without an embedded NUL,
   * strcmp gives 0 exactly when the byte sequences are equal.
   */
  predicate HasKey(r: RouteInfo, destination: CString, ifindex: Int32) {
    r.destination == destination && r.ifindex == ifindex
  }

  /**
   * The conversion of a 32-bit unsigned value to `int` on a two's-complement
   * target: the bit pattern is kept.
   */
  function ToInt32(u: UInt32): (i: Int32)
    ensures i % WORD == u
    ensures u < 0x8000_0000 <==> i == u
  {
    if u < 0x8000_0000 then u else u - WORD
  }
}
