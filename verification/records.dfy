/**
 * The records exchanged through the relay (`Agent`, `Sdp`) and the integer
 * widths the Rust code fixes for ports and priorities. Both records derive
 * `PartialEq`, i.e. equality compares every field; Dafny's datatype
 * equality is exactly that structural comparison.
 */
module Records {
  import opened Utf8

  /** `u16`. */
  type Port = x: int | 0 <= x < 0x1_0000

  /** `u32`. */
  type U32 = x: int | 0 <= x < 0x1_0000_0000

  /** An agent's identity as registered with the relay. */
  datatype Agent = Agent(uuid: string, name: string, os: string)

  /** One exchange record: an encrypted candidate blob plus the forwarded service. */
  datatype Sdp = Sdp(sdp: seq<byte>, isUdp: bool, port: Port)
}
