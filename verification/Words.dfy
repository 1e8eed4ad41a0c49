/** Types shared by the modules. */
module Words {

  datatype Option<+T> = None | Some(value: T)

  type byte = x: int | 0 <= x < 0x100
  type u16 = x: int | 0 <= x < 0x1_0000
  type u32 = x: int | 0 <= x < 0x1_0000_0000
  type u64 = x: int | 0 <= x < 0x1_0000_0000_0000_0000

  /** An IPv4 address, written a.b.c.d, and a port. */
  datatype Endpoint = Endpoint(a: byte, b: byte, c: byte, d: byte, port: u16)
}
