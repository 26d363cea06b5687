/**
 * Bytes, the host-order 32-bit size fields of the container, the
 * `std::vector<char>::resize` behaviour the codec adapters rely on, and the
 * concatenation of a sequence of byte strings.
 */
module Bytes {

  newtype byte = x: int | 0 <= x < 256

  /** 2^32: one past the largest `uint32_t`. */
  const U32_LIMIT: int := 0x1_0000_0000

  function Min(a: nat, b: nat): nat {
    if a <= b then a else b
  }

  /** Truncating conversion to `uint32_t`, as an assignment from `size_t` does. */
  function Wrap32(n: nat): (r: nat)
    ensures r < U32_LIMIT && r <= n
    ensures n < U32_LIMIT ==> r == n
  {
    n % U32_LIMIT
  }

  /**
   * The four bytes of a `uint32_t` as a little-endian host stores them:
   * least significant byte first.
   */
  function Enc32(v: nat): (r: seq<byte>)
    requires v < U32_LIMIT
    ensures |r| == 4
  {
    [(v % 0x100) as byte,
     (v / 0x100 % 0x100) as byte,
     (v / 0x1_0000 % 0x100) as byte,
     (v / 0x100_0000) as byte]
  }

  /** The `uint32_t` whose little-endian representation is `b`. */
  function Dec32(b: seq<byte>): (v: nat)
    requires |b| == 4
    ensures v < U32_LIMIT
  {
    b[0] as nat + 0x100 * b[1] as nat + 0x1_0000 * b[2] as nat + 0x100_0000 * b[3] as nat
  }

  /** Writing a size field and reading it back gives the size again. */
  lemma Dec32Enc32(v: nat)
    requires v < U32_LIMIT
    ensures Dec32(Enc32(v)) == v
  {
    var b := Enc32(v);
    var q1 := v / 0x100;
    var q2 := q1 / 0x100;
    var q3 := q2 / 0x100;
    assert v == v % 0x100 + 0x100 * q1;
    assert q1 == q1 % 0x100 + 0x100 * q2;
    assert q2 == q2 % 0x100 + 0x100 * q3;
    assert q2 == v / 0x1_0000;
    assert q3 == v / 0x100_0000;
    assert b[0] as nat == v % 0x100;
    assert b[1] as nat == q1 % 0x100;
    assert b[2] as nat == q2 % 0x100;
    assert b[3] as nat == q3;
  }

  /** Every four bytes are the encoding of the value they decode to. */
  lemma Enc32Dec32(b: seq<byte>)
    requires |b| == 4
    ensures Enc32(Dec32(b)) == b
  {
    var v := Dec32(b);
    var b0, b1, b2, b3 := b[0] as nat, b[1] as nat, b[2] as nat, b[3] as nat;
    var q1 := b1 + 0x100 * b2 + 0x1_0000 * b3;
    var q2 := b2 + 0x100 * b3;
    assert v == b0 + 0x100 * q1;
    assert v % 0x100 == b0 && v / 0x100 == q1;
    assert q1 == b1 + 0x100 * q2;
    assert q1 % 0x100 == b1 && q1 / 0x100 == q2;
    assert q2 % 0x100 == b2 && q2 / 0x100 == b3;
    assert v / 0x1_0000 == q2;
    assert v / 0x100_0000 == b3;
    var e := Enc32(v);
    assert e[0] == b[0] && e[1] == b[1] && e[2] == b[2] && e[3] == b[3];
  }

  /** `n` zero bytes: what a freshly sized `std::vector<char>` holds. */
  function Zeros(n: nat): (r: seq<byte>)
    ensures |r| == n
    ensures forall i :: 0 <= i < n ==> r[i] == 0
  {
    seq(n, _ => 0)
  }

  /**
   * `std::vector<char>::resize(n)`: keeps the first `n` elements when
   * shrinking, appends zero bytes when growing.
   */
  function Resize(v: seq<byte>, n: nat): (r: seq<byte>)
    ensures |r| == n
    ensures r[..Min(n, |v|)] == v[..Min(n, |v|)]
    ensures forall i :: |v| <= i < n ==> r[i] == 0
  {
    if n <= |v| then v[..n] else v + Zeros(n - |v|)
  }

  /** The in-order concatenation of a sequence of byte strings. */
  function Flatten(ss: seq<seq<byte>>): seq<byte>
  {
    if ss == [] then [] else ss[0] + Flatten(ss[1..])
  }

  /** Appending one more string at the end appends its bytes at the end. */
  lemma {:induction false} FlattenSnoc(ss: seq<seq<byte>>, s: seq<byte>)
    ensures Flatten(ss + [s]) == Flatten(ss) + s
  {
    if ss == [] {
      assert [] + [s] == [s];
    } else {
      assert (ss + [s])[1..] == ss[1..] + [s];
      FlattenSnoc(ss[1..], s);
    }
  }
}
