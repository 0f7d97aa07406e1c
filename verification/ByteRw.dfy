/** Little-endian integers in a byte buffer (src/utils.rs). */
module ByteRw {

  type U8 = x: int | 0 <= x < 256

  const U16_MAX: nat := 0xffff
  const U32_MAX: nat := 0xffff_ffff

  function U16(b: seq<U8>, at: nat): nat
    requires at + 2 <= |b|
  {
    b[at] as nat + 256 * b[at + 1] as nat
  }

  function U32(b: seq<U8>, at: nat): nat
    requires at + 4 <= |b|
  {
    U16(b, at) + 65536 * U16(b, at + 2)
  }

  /** The buffers a and b differ at most in [lo, hi). */
  ghost predicate SameOutside(a: seq<U8>, b: seq<U8>, lo: nat, hi: nat) {
    |a| == |b| && forall k :: 0 <= k < |a| && !(lo <= k < hi) ==> a[k] == b[k]
  }

  function PutU16(b: seq<U8>, at: nat, v: nat): (r: seq<U8>)
    requires at + 2 <= |b| && v <= U16_MAX
    ensures SameOutside(b, r, at, at + 2) && U16(r, at) == v
  {
    b[at := v % 256][at + 1 := v / 256]
  }

  function PutU32(b: seq<U8>, at: nat, v: nat): (r: seq<U8>)
    requires at + 4 <= |b| && v <= U32_MAX
    ensures SameOutside(b, r, at, at + 4) && U32(r, at) == v
  {
    PutU16(PutU16(b, at, v % 65536), at + 2, v / 65536)
  }

  /** `copy_from_slice`. */
  function PutBytes(b: seq<U8>, at: nat, v: seq<U8>): (r: seq<U8>)
    requires at + |v| <= |b|
    ensures SameOutside(b, r, at, at + |v|) && r[at..at + |v|] == v
  {
    b[..at] + v + b[at + |v|..]
  }

  method WriteU16(a: array<U8>, at: nat, v: nat)
    requires at + 2 <= a.Length && v <= U16_MAX
    modifies a
    ensures a[..] == PutU16(old(a[..]), at, v)
  {
    a[at] := v % 256;
    a[at + 1] := v / 256;
  }

  method WriteU32(a: array<U8>, at: nat, v: nat)
    requires at + 4 <= a.Length && v <= U32_MAX
    modifies a
    ensures a[..] == PutU32(old(a[..]), at, v)
  {
    WriteU16(a, at, v % 65536);
    WriteU16(a, at + 2, v / 65536);
  }

  method WriteBytes(a: array<U8>, at: nat, v: seq<U8>)
    requires at + |v| <= a.Length
    modifies a
    ensures a[..] == PutBytes(old(a[..]), at, v)
  {
    forall k | 0 <= k < |v| {
      a[at + k] := v[k];
    }
  }
}
