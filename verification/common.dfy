/** Shared vocabulary of the kernel model: optional values, the outcome of an
    operation that may panic, and the fixed-width integer ranges of the
    kernel's Rust types. */
module Common {

  /** Rust's `Option`. */
  datatype Option<+T> = None | Some(value: T)

  /** The result of an operation that either completes or halts the kernel
      with a panic message (`assert!`, `unwrap`, `unimplemented!`, an index
      or slice out of bounds, or debug-build arithmetic overflow). */
  datatype Outcome<+T> = Ok(value: T) | Panic(message: string)

  predicate IsU8(x: int) { 0 <= x < 0x100 }
  predicate IsU16(x: int) { 0 <= x < 0x1_0000 }
  predicate IsU32(x: int) { 0 <= x < 0x1_0000_0000 }

  /** Rust's `u8` and `u32`. */
  type u8 = x: int | 0 <= x < 0x100
  type u32 = x: int | 0 <= x < 0x1_0000_0000

  /** Size of a physical frame and of a virtual page, in bytes. */
  const PAGE_SIZE: nat := 4096
  const PAGE_SHIFT: nat := 12
  const PAGE_OFFSET_MASK: nat := 4095

  /** `PhysFrame::containing_address` / `Page::containing_address`: the
      address rounded down to its 4 KiB boundary. */
  function ContainingFrame(addr: nat): (r: nat)
    ensures r % PAGE_SIZE == 0
    ensures r <= addr < r + PAGE_SIZE
  {
    addr - addr % PAGE_SIZE
  }

  /** The number of entries of `s` that are `true`. */
  function CountTrue(s: seq<bool>): (n: nat)
    ensures n <= |s|
  {
    if s == [] then 0 else (if s[0] then 1 else 0) + CountTrue(s[1..])
  }

  /** The panic of a slice `s[a..b]` with `b > s.len()`. */
  const SLICE_END_OUT_OF_RANGE: string := "range end index out of range for slice"

  /** The panic of an array or slice index past the end. */
  const INDEX_OUT_OF_BOUNDS: string := "index out of bounds"

  /** `buf[at..at + |bytes|].copy_from_slice(bytes)`: overwrites `bytes`
      into `buf` at offset `at`. */
  function Splice(buf: seq<u8>, at: nat, bytes: seq<u8>): (r: seq<u8>)
    requires at + |bytes| <= |buf|
    ensures |r| == |buf|
    ensures forall i :: 0 <= i < |bytes| ==> r[at + i] == bytes[i]
    ensures forall i :: 0 <= i < |buf| && !(at <= i < at + |bytes|) ==> r[i] == buf[i]
  {
    buf[..at] + bytes + buf[at + |bytes|..]
  }

  /** `buf.fill(0)`: a buffer of `n` zero bytes. */
  function Zeroes(n: nat): (r: seq<u8>)
    ensures |r| == n && forall i :: 0 <= i < n ==> r[i] == 0
  {
    seq(n, _ => 0)
  }

  lemma MulLeq(a: nat, b: nat, c: nat)
    requires b <= c
    ensures a * b <= a * c
  {
    assert a * c - a * b == a * (c - b);
  }

  /** Division with remainder has one answer. */
  lemma DivModUnique(n: nat, d: nat, q: nat, m: nat)
    requires d > 0 && m < d && n == q * d + m
    ensures n / d == q && n % d == m
  {
    var q', m' := n / d, n % d;
    assert n == q' * d + m';
    if q' < q {
      MulLeq(d, q' + 1, q);
      assert false;
    } else if q < q' {
      MulLeq(d, q + 1, q');
      assert false;
    }
  }
}
