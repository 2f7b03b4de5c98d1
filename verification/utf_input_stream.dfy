/** The server-side input decoder of the raw-socket variant
    (`com.iterative.groovy.service.UtfInputStream`). The client sends every
    key as a 16-bit code unit in two bytes; each `read` re-encodes one unit
    as UTF-8 and hands the evaluator one byte per call, parking the second
    byte of a two-byte form until the next call. */
module UtfInputStream {
  import opened JavaPrims
  import Utf8

  /** `previousByteFlag` together with `previousByte`: the option type makes
      "at most one byte pending" hold by construction. The byte is kept as
      the signed Java `byte` the source stores. */
  datatype Decoder = Decoder(pending: Option<int>)

  /** What one `read` call does: return an `int`, or throw the
      "Only 1 and 2 byte encoding supported" runtime exception. */
  datatype Outcome = Returned(value: int) | Unsupported

  datatype Step = Step(outcome: Outcome, next: Decoder, rest: seq<int>)

  const Initial := Decoder(None)

  /** `read` on the wrapped stream: the next octet, or -1 once it is exhausted. */
  function StreamRead(input: seq<int>): (int, seq<int>)
  {
    if |input| == 0 then (-1, []) else (input[0], input[1..])
  }

  /** `(char)((highByte << 8) | lowByte)`. With an octet in each operand the
      two bit ranges are disjoint, so the OR is a sum; a low byte of -1 has
      every bit set, so the OR is -1 and the cast leaves 0xFFFF. */
  function CodeUnit(highByte: int, lowByte: int): (c: int)
    requires IsOctet(highByte) && (lowByte == -1 || IsOctet(lowByte))
    ensures 0 <= c < 0x1_0000
    ensures IsOctet(lowByte) ==> c / 256 == highByte && c % 256 == lowByte
    ensures lowByte == -1 ==> c == 0xFFFF
  {
    var bits := if lowByte == -1 then -1 else highByte * 256 + lowByte;
    if lowByte == -1 then ToChar(bits)
    else PackOctets(lowByte, highByte); ToChar(bits)
  }

  /** `lo | hi << 8` for two octets: the value is below 0x10000 and splits
      back into its two octets. */
  lemma PackOctets(lo: int, hi: int)
    requires IsOctet(lo) && IsOctet(hi)
    ensures 0 <= lo + hi * 256 < 0x1_0000
    ensures (lo + hi * 256) / 256 == hi && (lo + hi * 256) % 256 == lo
    ensures LowOctet(lo + hi * 256) == lo
    ensures ToChar(lo + hi * 256) == lo + hi * 256
  {
    assert hi * 256 <= 255 * 256;
  }

  /** Two input bytes per fresh unit, one step for a pending byte. */
  function Measure(d: Decoder, input: seq<int>): nat
  {
    2 * |input| + (if d.pending.Some? then 1 else 0)
  }

  /** One call of `read()`. */
  function Read(d: Decoder, input: seq<int>): (s: Step)
    requires AllOctets(input)
    ensures AllOctets(s.rest)
    ensures |s.rest| <= |input|
    ensures d.pending.Some? ==> s.rest == input
    ensures d.pending.None? ==> |input| - |s.rest| <= 2
    ensures d.pending.None? ==> (s.outcome == Returned(-1) <==> |input| == 0)
    ensures s.next.pending.Some? ==>
              && d.pending.None?
              && s.outcome.Returned?
              && Utf8.IsTwoByteLead(LowOctet(s.outcome.value))
              && Utf8.IsContinuation(LowOctet(s.next.pending.value))
    ensures s.outcome.Returned? && s.outcome.value != -1 ==> Measure(s.next, s.rest) < Measure(d, input)
  {
    match d.pending
    case Some(p) =>
      Step(Returned(p), Decoder(None), input)
    case None =>
      var (highByte, afterHigh) := StreamRead(input);
      if highByte == -1 then
        Step(Returned(-1), d, afterHigh)
      else
        var (lowByte, afterLow) := StreamRead(afterHigh);
        var b := Utf8.JavaEncodeChar(CodeUnit(highByte, lowByte));
        if |b| == 2 then
          // (b[0] & 0xFF) | (b[1] & 0xFF) << 8: disjoint bit ranges again
          PackOctets(b[0], b[1]);
          LowOctetOfByte(b[1]);
          Step(Returned(b[0] + b[1] * 256), Decoder(Some(ToByte(b[1]))), afterLow)
        else if |b| == 1 then
          Step(Returned(ToByte(b[0])), Decoder(None), afterLow)
        else
          Step(Unsupported, Decoder(None), afterLow)
  }

  /** A pending byte is returned at once, cleared, and no input is consumed. */
  lemma ReadServesPending(p: int, input: seq<int>)
    requires AllOctets(input)
    ensures Read(Decoder(Some(p)), input) == Step(Returned(p), Decoder(None), input)
  {
  }

  /** End of stream where a high byte was expected: -1, nothing pending. */
  lemma ReadAtEndOfStream()
    ensures Read(Initial, []) == Step(Returned(-1), Initial, [])
  {
  }

  /** A unit below 0x80 comes back as itself, with nothing pending. */
  lemma ReadOneByteUnit(highByte: int, lowByte: int, rest: seq<int>)
    requires IsOctet(highByte) && IsOctet(lowByte) && AllOctets(rest)
    requires highByte * 256 + lowByte < 0x80
    ensures Read(Initial, [highByte, lowByte] + rest)
         == Step(Returned(highByte * 256 + lowByte), Initial, rest)
  {
    var input := [highByte, lowByte] + rest;
    assert input[1..][1..] == rest;
  }

  /** A unit in 0x80..0x7FF: the first call returns `b0 + 256 * b1` and parks
      `b1`; the second returns `b1` sign-extended without reading. The low
      eight bits of the two returned values are the unit's UTF-8 form. */
  lemma ReadTwoByteUnit(highByte: int, lowByte: int, rest: seq<int>)
    requires IsOctet(highByte) && IsOctet(lowByte) && AllOctets(rest)
    requires 0x80 <= highByte * 256 + lowByte < 0x800
    ensures var c := highByte * 256 + lowByte;
            var e := Utf8.EncodeScalar(c);
            var first := Read(Initial, [highByte, lowByte] + rest);
            var second := Read(first.next, first.rest);
            && first.outcome == Returned(e[0] + 256 * e[1])
            && first.rest == rest
            && second == Step(Returned(e[1] - 256), Initial, rest)
            && LowOctets([first.outcome.value, second.outcome.value]) == e
  {
    var input := [highByte, lowByte] + rest;
    assert input[1..][1..] == rest;
    var c := highByte * 256 + lowByte;
    assert CodeUnit(highByte, lowByte) == c;
    var e := Utf8.EncodeScalar(c);
    assert Utf8.JavaEncodeChar(c) == e && |e| == 2;
    PackOctets(e[0], e[1]);
    LowOctetOfByte(e[1]);
    var first := Read(Initial, input);
    assert first == Step(Returned(e[0] + e[1] * 256), Decoder(Some(ToByte(e[1]))), rest);
    assert ToByte(e[1]) == e[1] - 256;
  }

  /** A unit that is neither a surrogate nor below 0x800 needs three bytes
      and makes `read` throw. */
  lemma ReadThreeByteUnitFails(highByte: int, lowByte: int, rest: seq<int>)
    requires IsOctet(highByte) && IsOctet(lowByte) && AllOctets(rest)
    requires highByte * 256 + lowByte >= 0x800 && !Utf8.IsSurrogate(highByte * 256 + lowByte)
    ensures Read(Initial, [highByte, lowByte] + rest).outcome == Unsupported
  {
  }

  /** A lone surrogate unit is delivered as '?', as Java's encoder replaces it. */
  lemma ReadSurrogateUnit(highByte: int, lowByte: int, rest: seq<int>)
    requires IsOctet(highByte) && IsOctet(lowByte) && AllOctets(rest)
    requires Utf8.IsSurrogate(highByte * 256 + lowByte)
    ensures Read(Initial, [highByte, lowByte] + rest) == Step(Returned(0x3F), Initial, rest)
  {
    var input := [highByte, lowByte] + rest;
    assert input[1..][1..] == rest;
  }

  /** End of stream after the high byte reads the low byte as -1; the unit
      becomes 0xFFFF, a three-byte form, and `read` throws. */
  lemma ReadTruncatedUnitFails(highByte: int)
    requires IsOctet(highByte)
    ensures Read(Initial, [highByte]) == Step(Unsupported, Initial, [])
  {
  }
}
