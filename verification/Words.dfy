/** Bytes and little-endian machine words, shared by every other module.
    All of them are integers with an explicit range, so that wrap-around is
    always written out. */
module Words {
  type byte = x: int | 0 <= x < 0x100
  type word = x: int | 0 <= x < 0x1_0000
  type dword = x: int | 0 <= x < 0x1_0000_0000
  type int32 = x: int | -0x8000_0000 <= x < 0x8000_0000

  const NEWLINE: byte := 10
  const SPACE: byte := 32

  /** The one FAT entry that ends a chain. */
  const END_OF_CHAIN: int32 := 0x0FFF_FFFF

  /** The value an unsigned 32-bit pattern has once it is stored in a C `int`. */
  function Signed(x: int): (r: int32)
    ensures (r - x) % 0x1_0000_0000 == 0
  {
    var u := x % 0x1_0000_0000;
    if u < 0x8000_0000 then u else u - 0x1_0000_0000
  }

  lemma SignedIsIdentity(x: int32)
    ensures Signed(x) == x
  {
  }

  lemma Associate<T>(a: seq<T>, b: seq<T>, c: seq<T>)
    ensures a + b + c == a + (b + c)
  {
  }
}
