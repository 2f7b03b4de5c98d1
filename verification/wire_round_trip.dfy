/** The client-to-server direction end to end: the keys the raw-socket client
    writes, read back by repeated `UtfInputStream.read` calls until end of
    stream. The decoder's reassembly undoes the client's encoding for every
    character whose UTF-8 form has one or two bytes. */
module WireRoundTrip {
  import opened JavaPrims
  import Utf8
  import opened UtfInputStream
  import ShellClient

  /** The values `read` returned before the stream ended, and whether the
      run stopped on the runtime exception instead of on -1. */
  datatype Drained = Drained(values: seq<int>, failed: bool)

  /** Calls `read` until it returns -1 or throws. */
  function Drain(d: Decoder, input: seq<int>): (r: Drained)
    requires AllOctets(input)
    decreases Measure(d, input)
  {
    var s := Read(d, input);
    match s.outcome
    case Unsupported => Drained([], true)
    case Returned(v) =>
      if v == -1 then Drained([], false)
      else
        var r := Drain(s.next, s.rest);
        Drained([v] + r.values, r.failed)
  }

  predicate AllUnits(units: seq<int>) {
    forall j :: 0 <= j < |units| ==> 0 <= units[j] < 0x1_0000
  }

  /** A code unit `read` can deliver: its Java UTF-8 form has at most two bytes. */
  predicate Supported(c: int) {
    0 <= c < 0x1_0000 && (c < 0x800 || Utf8.IsSurrogate(c))
  }

  /** Index of the first unit `read` rejects, or `|units|` if there is none. */
  function FirstUnsupported(units: seq<int>): (n: nat)
    ensures n <= |units|
    ensures forall j :: 0 <= j < n ==> Supported(units[j])
    ensures n < |units| ==> !Supported(units[n])
  {
    if |units| == 0 || !Supported(units[0]) then 0 else 1 + FirstUnsupported(units[1..])
  }

  /** The bytes the evaluator should see for supported units: Java's UTF-8
      form of each, in order. */
  function Delivered(units: seq<int>): seq<int>
    requires forall j :: 0 <= j < |units| ==> Supported(units[j])
  {
    if |units| == 0 then []
    else
      assert Supported(units[0]);
      Utf8.JavaEncodeChar(units[0]) + Delivered(units[1..])
  }

  /** The server's `(highByte << 8) | lowByte` of the two bytes the client
      sent for a key is the key's low sixteen bits. */
  lemma ReassemblyOfKey(i: int)
    ensures var w := ShellClient.EncodeKey(i);
            CodeUnit(w[0], w[1]) == i % 0x1_0000
  {
  }

  /** The wire form of one unit below 0x10000 is its two octets. */
  lemma WireOfUnit(u: int, rest: seq<int>)
    requires 0 <= u < 0x1_0000 && AllUnits(rest)
    ensures AllUnits([u] + rest)
    ensures ShellClient.Wire([u] + rest) == [u / 256, u % 256] + ShellClient.Wire(rest)
  {
    assert ([u] + rest)[1..] == rest;
  }

  /** A call that returns a value other than -1 puts that value in front of
      what the rest of the run returns. */
  lemma DrainReturned(d: Decoder, input: seq<int>)
    requires AllOctets(input)
    requires Read(d, input).outcome.Returned? && Read(d, input).outcome.value != -1
    ensures var s := Read(d, input);
            var r := Drain(s.next, s.rest);
            Drain(d, input) == Drained([s.outcome.value] + r.values, r.failed)
  {
  }

  /** One supported unit at the front of the input: `read` delivers its Java
      UTF-8 form (over two calls for a two-byte form) and carries on with
      nothing pending. */
  lemma {:induction false} DrainSupportedUnit(u: int, tail: seq<int>)
    requires Supported(u) && AllOctets(tail)
    ensures AllOctets([u / 256, u % 256] + tail)
    ensures var r := Drain(Initial, [u / 256, u % 256] + tail);
            var rr := Drain(Initial, tail);
            && r.failed == rr.failed
            && LowOctets(r.values) == Utf8.JavaEncodeChar(u) + LowOctets(rr.values)
  {
    var h, l := u / 256, u % 256;
    assert h * 256 + l == u;
    var rr := Drain(Initial, tail);
    var front: seq<int>;
    if u < 0x80 {
      front := DrainOneByteUnit(h, l, tail);
    } else if Utf8.IsSurrogate(u) {
      front := DrainSurrogateUnit(h, l, tail);
    } else {
      front := DrainTwoByteUnit(h, l, tail);
    }
    LowOctetsAppend(front, rr.values);
  }

  lemma {:induction false} DrainOneByteUnit(h: int, l: int, tail: seq<int>) returns (front: seq<int>)
    requires IsOctet(h) && IsOctet(l) && AllOctets(tail) && h * 256 + l < 0x80
    ensures AllOctets([h, l] + tail)
    ensures var rr := Drain(Initial, tail);
            && Drain(Initial, [h, l] + tail) == Drained(front + rr.values, rr.failed)
            && LowOctets(front) == Utf8.JavaEncodeChar(h * 256 + l)
  {
    ReadOneByteUnit(h, l, tail);
    DrainReturned(Initial, [h, l] + tail);
    front := [h * 256 + l];
  }

  lemma {:induction false} DrainSurrogateUnit(h: int, l: int, tail: seq<int>) returns (front: seq<int>)
    requires IsOctet(h) && IsOctet(l) && AllOctets(tail) && Utf8.IsSurrogate(h * 256 + l)
    ensures AllOctets([h, l] + tail)
    ensures var rr := Drain(Initial, tail);
            && Drain(Initial, [h, l] + tail) == Drained(front + rr.values, rr.failed)
            && LowOctets(front) == Utf8.JavaEncodeChar(h * 256 + l)
  {
    ReadSurrogateUnit(h, l, tail);
    DrainReturned(Initial, [h, l] + tail);
    front := [0x3F];
  }

  lemma {:induction false} DrainTwoByteUnit(h: int, l: int, tail: seq<int>) returns (front: seq<int>)
    requires IsOctet(h) && IsOctet(l) && AllOctets(tail) && 0x80 <= h * 256 + l < 0x800
    ensures AllOctets([h, l] + tail)
    ensures var rr := Drain(Initial, tail);
            && Drain(Initial, [h, l] + tail) == Drained(front + rr.values, rr.failed)
            && LowOctets(front) == Utf8.JavaEncodeChar(h * 256 + l)
  {
    var input := [h, l] + tail;
    ReadTwoByteUnit(h, l, tail);
    var first := Read(Initial, input);
    var second := Read(first.next, first.rest);
    DrainReturned(Initial, input);
    DrainReturned(first.next, first.rest);
    front := [first.outcome.value, second.outcome.value];
    assert [first.outcome.value] + ([second.outcome.value] + Drain(Initial, tail).values)
        == front + Drain(Initial, tail).values;
  }

  /** A unit needing three bytes at the front of the input stops the run. */
  lemma DrainUnsupportedUnit(u: int, tail: seq<int>)
    requires 0 <= u < 0x1_0000 && !Supported(u) && AllOctets(tail)
    ensures AllOctets([u / 256, u % 256] + tail)
    ensures Drain(Initial, [u / 256, u % 256] + tail) == Drained([], true)
  {
    ReadThreeByteUnitFails(u / 256, u % 256, tail);
  }

  /** Reading the client's wire form of any unit string: the low eight bits of
      the returned values are the UTF-8 bytes of every unit before the first
      one needing three bytes, and the run fails exactly when such a unit
      exists. */
  lemma {:induction false} DrainUnits(units: seq<int>)
    requires AllUnits(units)
    ensures var r := Drain(Initial, ShellClient.Wire(units));
            && (r.failed <==> FirstUnsupported(units) < |units|)
            && LowOctets(r.values) == Delivered(units[..FirstUnsupported(units)])
  {
    var wire := ShellClient.Wire(units);
    if |units| == 0 {
      assert Drain(Initial, wire) == Drained([], false);
      assert units[..0] == [];
    } else {
      var u := units[0];
      var rest := units[1..];
      assert units == [u] + rest;
      if !Supported(u) {
        WireOfUnit(u, rest);
        var tail := ShellClient.Wire(rest);
        assert wire == [u / 256, u % 256] + tail;
        DrainUnsupportedUnit(u, tail);
        assert units[..0] == [];
      } else {
        DrainUnits(rest);
        DrainUnitsStep(u, rest);
      }
    }
  }

  /** The inductive step of `DrainUnits` for a supported first unit. */
  lemma {:induction false} DrainUnitsStep(u: int, rest: seq<int>)
    requires Supported(u) && AllUnits(rest)
    requires var r := Drain(Initial, ShellClient.Wire(rest));
             && (r.failed <==> FirstUnsupported(rest) < |rest|)
             && LowOctets(r.values) == Delivered(rest[..FirstUnsupported(rest)])
    ensures AllUnits([u] + rest)
    ensures var units := [u] + rest;
            var r := Drain(Initial, ShellClient.Wire(units));
            && (r.failed <==> FirstUnsupported(units) < |units|)
            && LowOctets(r.values) == Delivered(units[..FirstUnsupported(units)])
  {
    var units := [u] + rest;
    WireOfUnit(u, rest);
    var tail := ShellClient.Wire(rest);
    DrainSupportedUnit(u, tail);
    assert units[1..] == rest;
    var n := FirstUnsupported(units);
    assert n == 1 + FirstUnsupported(rest);
    DeliveredCons(u, rest[..n - 1]);
    assert units[..n] == [u] + rest[..n - 1];
  }

  lemma DeliveredCons(u: int, rest: seq<int>)
    requires Supported(u) && forall j :: 0 <= j < |rest| ==> Supported(rest[j])
    ensures forall j :: 0 <= j < |[u] + rest| ==> Supported(([u] + rest)[j])
    ensures Delivered([u] + rest) == Utf8.JavaEncodeChar(u) + Delivered(rest)
  {
    assert ([u] + rest)[1..] == rest;
  }

  /** The units the client puts on the wire for a run of keys: each key's
      `(char)` cast. */
  function Units(keys: seq<int>): (us: seq<int>)
    ensures |us| == |keys| && AllUnits(us)
    ensures forall j :: 0 <= j < |keys| ==> us[j] == ToChar(keys[j])
  {
    if |keys| == 0 then [] else [ToChar(keys[0])] + Units(keys[1..])
  }

  lemma {:induction false} WireOfUnits(keys: seq<int>)
    ensures ShellClient.Wire(keys) == ShellClient.Wire(Units(keys))
  {
    if |keys| > 0 {
      WireOfUnits(keys[1..]);
      var us := Units(keys);
      assert us[1..] == Units(keys[1..]);
      ShellClient.EncodeKeyOfChar(keys[0]);
      assert ShellClient.Wire(us) == ShellClient.EncodeKey(us[0]) + ShellClient.Wire(us[1..]);
    }
  }

  lemma {:induction false} DeliveredShort(units: seq<int>)
    requires Utf8.AllShort(units)
    ensures forall j :: 0 <= j < |units| ==> Supported(units[j])
    ensures Delivered(units) == Utf8.EncodeAll(units)
  {
    if |units| > 0 {
      DeliveredShort(units[1..]);
    }
  }

  /** Round trip over units: a string of one- and two-byte units is read to a
      clean end of stream, and the bytes handed on decode back to it. */
  lemma {:induction false} UnitsRoundTrip(us: seq<int>)
    requires Utf8.AllShort(us)
    ensures AllUnits(us)
    ensures var r := Drain(Initial, ShellClient.Wire(us));
            && !r.failed
            && Utf8.Decode(LowOctets(r.values)) == Some(us)
  {
    DeliveredShort(us);
    assert FirstUnsupported(us) == |us|;
    DrainUnits(us);
    assert us[..|us|] == us;
    Utf8.DecodeEncode(us);
  }

  /** Round trip: for keys whose units have one- or two-byte UTF-8 forms, the
      server reads to a clean end of stream and the bytes it hands the
      evaluator decode back to exactly the units the client sent. */
  lemma {:induction false} KeysRoundTrip(keys: seq<int>)
    requires Utf8.AllShort(Units(keys))
    ensures var r := Drain(Initial, ShellClient.Wire(keys));
            && !r.failed
            && Utf8.Decode(LowOctets(r.values)) == Some(Units(keys))
  {
    WireOfUnits(keys);
    UnitsRoundTrip(Units(keys));
  }

  /** The round trip over what the client's sending loop writes (the wire
      of the keys before the first negative one, as `SendKeys` ensures). */
  lemma {:induction false} SentKeysRoundTrip(keys: seq<int>)
    requires Utf8.AllShort(Units(keys[..ShellClient.KeysSent(keys)]))
    ensures var sent := keys[..ShellClient.KeysSent(keys)];
            var r := Drain(Initial, ShellClient.Wire(sent));
            && !r.failed
            && Utf8.Decode(LowOctets(r.values)) == Some(Units(sent))
  {
    KeysRoundTrip(keys[..ShellClient.KeysSent(keys)]);
  }

  /** Drain of a wire string that stops after the high byte of a unit fails,
      after delivering every complete unit before it. */
  lemma {:induction false} TruncatedWireFails(units: seq<int>, highByte: int)
    requires Utf8.AllShort(units) && IsOctet(highByte)
    ensures AllUnits(units)
    ensures var r := Drain(Initial, ShellClient.Wire(units) + [highByte]);
            && r.failed
            && LowOctets(r.values) == Utf8.EncodeAll(units)
  {
    assert AllUnits(units);
    var wire := ShellClient.Wire(units);
    if |units| == 0 {
      assert wire + [highByte] == [highByte];
      ReadTruncatedUnitFails(highByte);
    } else {
      var u := units[0];
      var rest := units[1..];
      assert units == [u] + rest;
      WireOfUnit(u, rest);
      TruncatedWireFails(rest, highByte);
      var tail := ShellClient.Wire(rest) + [highByte];
      assert wire + [highByte] == [u / 256, u % 256] + tail;
      DrainSupportedUnit(u, tail);
      assert Utf8.EncodeAll(units) == Utf8.EncodeScalar(u) + Utf8.EncodeAll(rest);
    }
  }
}
