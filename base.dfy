/**
 * Machine integer widths, an Option type and Rust's `copy_from_slice`,
 * shared by every other module of the model.
 */
module Base {

  /** Rust's `u8`: one byte. */
  type u8 = x: int | 0 <= x < 0x100

  /** Rust's `u16`: a 16-bit unsigned value, such as a tick count. */
  type u16 = x: int | 0 <= x < 0x1_0000

  datatype Option<+T> = None | Some(value: T)

  /** `n` copies of `x`. */
  function Repeat<T>(x: T, n: nat): (r: seq<T>)
    ensures |r| == n
    ensures forall i :: 0 <= i < n ==> r[i] == x
  {
    if n == 0 then [] else Repeat(x, n - 1) + [x]
  }

  /** `u16::from_be_bytes([hi, lo])`. */
  function FromBeBytes(hi: u8, lo: u8): (v: u16)
    ensures hi * 0x100 <= v < (hi + 1) * 0x100
    ensures v - hi * 0x100 == lo
  {
    hi * 0x100 + lo
  }

  /** The high byte of `v`, `(v >> 8) as u8`. */
  function HighByte(v: u16): (b: u8)
    ensures b * 0x100 <= v < (b + 1) * 0x100
  {
    v / 0x100
  }

  /** The low byte of `v`, `(v & 0xFF) as u8`. */
  function LowByte(v: u16): (b: u8)
    ensures (v - b) % 0x100 == 0
  {
    v % 0x100
  }

  /** Splitting a word into its bytes and joining them gives the word back. */
  lemma BytesRoundTrip(v: u16)
    ensures FromBeBytes(HighByte(v), LowByte(v)) == v
  {
  }

  /** Joining two bytes into a word and splitting it gives the bytes back. */
  lemma WordRoundTrip(hi: u8, lo: u8)
    ensures HighByte(FromBeBytes(hi, lo)) == hi && LowByte(FromBeBytes(hi, lo)) == lo
  {
  }

  /**
   * `dst[start..start + |src|].copy_from_slice(src)`: copies `src` into the
   * array in place and leaves every other element as it was.
   */
  method CopyFromSlice(dst: array<u8>, start: nat, src: seq<u8>)
    requires start + |src| <= dst.Length
    modifies dst
    ensures dst[..] == old(dst[..start]) + src + old(dst[start + |src|..])
  {
    for k := 0 to |src|
      invariant forall j :: 0 <= j < start ==> dst[j] == old(dst[j])
      invariant forall j :: 0 <= j < k ==> dst[start + j] == src[j]
      invariant forall j :: start + k <= j < dst.Length ==> dst[j] == old(dst[j])
    {
      dst[start + k] := src[k];
    }
    assert dst[..] == old(dst[..start]) + src + old(dst[start + |src|..]);
  }
}
