/** Java primitive semantics the rest of the model relies on: the optional
    value used for Java's `null`, the 32-bit `int` range, and the narrowing
    casts `(byte)` and `(char)` together with the `& 0xFF` mask. Dafny's
    integers are unbounded, so every truncation is written out here once. */
module JavaPrims {

  /** `None` stands for a Java `null` reference or an absent map entry. */
  datatype Option<+T> = None | Some(value: T)

  const IntMin: int := -0x8000_0000
  const IntMax: int := 0x7FFF_FFFF

  /** A value representable as a Java `int`. */
  predicate InInt32(n: int) {
    IntMin <= n <= IntMax
  }

  /** A value `InputStream.read` can deliver as data: an unsigned octet. */
  predicate IsOctet(n: int) {
    0 <= n < 256
  }

  predicate AllOctets(s: seq<int>) {
    forall i :: 0 <= i < |s| ==> IsOctet(s[i])
  }

  /** The narrowing cast `(byte) x`: the low eight bits, read as two's complement. */
  function ToByte(x: int): (r: int)
    ensures -128 <= r < 128
    ensures (x - r) % 256 == 0
  {
    var u := x % 256;
    if u < 128 then u else u - 256
  }

  /** The mask `x & 0xFF`: the low eight bits, read unsigned. */
  function LowOctet(x: int): (r: int)
    ensures IsOctet(r)
    ensures (x - r) % 256 == 0
  {
    x % 256
  }

  /** The narrowing cast `(char) x`: the low sixteen bits, read unsigned. */
  function ToChar(x: int): (r: int)
    ensures 0 <= r < 0x1_0000
    ensures (x - r) % 0x1_0000 == 0
  {
    x % 0x1_0000
  }

  function LowOctets(s: seq<int>): (r: seq<int>)
    ensures |r| == |s|
    ensures forall i :: 0 <= i < |s| ==> r[i] == LowOctet(s[i])
  {
    if |s| == 0 then [] else [LowOctet(s[0])] + LowOctets(s[1..])
  }

  /** Masking a sign-extended byte gives back the octet it came from. */
  lemma LowOctetOfByte(u: int)
    requires IsOctet(u)
    ensures LowOctet(ToByte(u)) == u
  {
  }

  lemma LowOctetsAppend(a: seq<int>, b: seq<int>)
    ensures LowOctets(a + b) == LowOctets(a) + LowOctets(b)
  {
  }
}
