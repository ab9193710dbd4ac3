/** Machine words, raw memory and the constants of valiface.go that never change. */
module Words {

  /** Number of distinct 64-bit words. */
  const WordModulus: int := 0x1_0000_0000_0000_0000

  /** A machine word on a 64-bit platform: Go's `uintptr` and `unsafe.Pointer`. */
  type Word = x: int | 0 <= x < WordModulus

  /** `uintptr` addition, which wraps around modulo 2^64. */
  function Add(a: Word, b: Word): (r: Word)
    ensures a + b < WordModulus ==> r == a + b
    ensures a + b >= WordModulus ==> r == a + b - WordModulus
  {
    (a + b) % WordModulus
  }

  /** Memory as reached through unsafe pointers: an address maps to the word stored
      there. An address outside the domain is unmapped, and reading it faults. */
  type Memory = map<Word, Word>

  /** Size in bytes of a word; the second word of an interface value lies this far
      after the first. */
  const WordSize: Word := 8

  datatype Option<T> = None | Some(value: T)

  datatype Result<T, E> = Ok(value: T) | Fail(error: E)

  /** The panic message of layout discovery. */
  const UnknownLayout: string := "reflect.Value known layout changed"

  /** The panic message of an inconsistent kind/flag combination. */
  const BadIndirMessage: string := "bad indir"

  /** Bit of the type's kind byte (1 << 5): values of the type sit directly in an
      interface's data word. */
  const KindDirectIface: Word := 32

  /** Bit of reflect.Value's flag word (1 << 7): the ptr field points at the value
      rather than holding it. */
  const FlagIndir: Word := 128

  /** Bit of reflect.Value's flag word (1 << 8): the value is addressable. */
  const FlagAddr: Word := 256

  /** Go's `w&bit != 0` for a single-bit constant `bit`. */
  predicate HasBit(w: Word, bit: Word)
    requires bit > 0
  {
    (w / bit) % 2 == 1
  }

  /** The byte a `*(*uint8)(a)` read returns: the low 8 bits of the word stored at `a`. */
  function LowByte(w: Word): (b: Word)
    ensures b < 256
    ensures HasBit(b, KindDirectIface) == HasBit(w, KindDirectIface)
  {
    var b := w % 256;
    var q := w / 256;
    assert w == 256 * q + b;
    assert w / 32 == 8 * q + b / 32;
    assert (w / 32) % 2 == (b / 32) % 2;
    b
  }
}
