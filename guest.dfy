/**
 * Values of the emulated 32-bit guest: machine words, addresses and the
 * guest memory, seen one 32-bit word per address.
 */
module Guest {

  /** 2^32: one more than the largest `u32`. */
  const WORD_MODULUS: int := 0x1_0000_0000

  /** A 32-bit guest machine word (a `u32`). */
  type Word = x: int | 0 <= x < 0x1_0000_0000

  /** A guest address: an offset into the emulated address space, not a host pointer. */
  type Addr = Word

  /** Guest memory: the mapped addresses and the word stored at each. */
  type Memory = map<Addr, Word>

  datatype Option<T> = None | Some(value: T)

  /** `a + b` on `u32` as a release build computes it: modulo 2^32. */
  function WrappingAdd(a: Word, b: Word): (r: Word)
    ensures a + b < WORD_MODULUS ==> r == a + b
    ensures a + b >= WORD_MODULUS ==> r + WORD_MODULUS == a + b
  {
    (a + b) % WORD_MODULUS
  }

  /** `mem.read(addr)` of one word: None when `addr` is not mapped. */
  function Read(mem: Memory, addr: Addr): (r: Option<Word>)
    ensures r.Some? <==> addr in mem
    ensures r.Some? ==> r.value == mem[addr]
  {
    if addr in mem then Some(mem[addr]) else None
  }

  /**
   * `mem.write(addr, value)` of one word: None when `addr` is not mapped;
   * otherwise exactly that word changes.
   */
  function Write(mem: Memory, addr: Addr, value: Word): (r: Option<Memory>)
    ensures r.Some? <==> addr in mem
    ensures r.Some? ==> r.value.Keys == mem.Keys && r.value[addr] == value
    ensures r.Some? ==> forall a :: a in mem && a != addr ==> r.value[a] == mem[a]
  {
    if addr in mem then Some(mem[addr := value]) else None
  }
}
