/** The legacy raw-socket client (`com.farpost.groovy.shell.GroovyShellClient`
    in groovy-shell-client). Its main loop sends every key as a two-byte
    big-endian unit; its `ReadTask` frames the server's output bytes,
    pairing a two-byte UTF-8 lead byte with the byte that follows it. */
module ShellClient {
  import opened JavaPrims
  import Utf8

  /** `buffer.putChar((char) i)`: the key's low sixteen bits, high byte first. */
  function EncodeKey(i: int): (w: seq<int>)
    ensures |w| == 2 && AllOctets(w)
    ensures w[0] * 256 + w[1] == i % 0x1_0000
  {
    var c := ToChar(i);
    [c / 256, c % 256]
  }

  /** Only the low sixteen bits of a key reach the wire. */
  lemma EncodeKeyOfChar(i: int)
    ensures EncodeKey(i) == EncodeKey(ToChar(i))
  {
    assert ToChar(ToChar(i)) == ToChar(i);
  }

  /** The bytes written for a run of keys. */
  function Wire(keys: seq<int>): (w: seq<int>)
    ensures |w| == 2 * |keys| && AllOctets(w)
  {
    if |keys| == 0 then [] else EncodeKey(keys[0]) + Wire(keys[1..])
  }

  /** Number of keys before the first negative one: `readVirtualKey` reports
      the end of the console's input with a negative value. */
  function KeysSent(keys: seq<int>): (n: nat)
    ensures n <= |keys|
    ensures forall j :: 0 <= j < n ==> keys[j] >= 0
    ensures n < |keys| ==> keys[n] < 0
  {
    if |keys| == 0 || keys[0] < 0 then 0 else 1 + KeysSent(keys[1..])
  }

  /** The wire form of a concatenation is the concatenation of wire forms. */
  lemma {:induction false} WireAppend(a: seq<int>, b: seq<int>)
    ensures Wire(a + b) == Wire(a) + Wire(b)
  {
    if |a| == 0 {
      assert a + b == b;
    } else {
      assert (a + b)[0] == a[0] && (a + b)[1..] == a[1..] + b;
      WireAppend(a[1..], b);
    }
  }

  /** The sending loop of `main`: one two-byte unit per key, stopping at the
      first negative key code. */
  method SendKeys(keys: seq<int>) returns (wire: seq<int>)
    ensures |wire| == 2 * KeysSent(keys)
    ensures forall j :: 0 <= j < KeysSent(keys) ==> wire[2 * j] * 256 + wire[2 * j + 1] == keys[j] % 0x1_0000
    ensures wire == Wire(keys[..KeysSent(keys)])
  {
    wire := [];
    var k := 0;
    while k < |keys| && keys[k] >= 0
      invariant 0 <= k <= KeysSent(keys)
      invariant wire == Wire(keys[..k])
      invariant |wire| == 2 * k
      invariant forall j :: 0 <= j < k ==> wire[2 * j] * 256 + wire[2 * j + 1] == keys[j] % 0x1_0000
    {
      var unit := EncodeKey(keys[k]);
      WireAppend(keys[..k], [keys[k]]);
      assert keys[..k + 1] == keys[..k] + [keys[k]];
      wire := wire + unit;
      k := k + 1;
    }
    KeysSentStops(keys, k);
  }

  /** The loop exit coincides with `KeysSent`. */
  lemma {:induction false} KeysSentStops(keys: seq<int>, k: nat)
    requires k <= |keys|
    requires forall j :: 0 <= j < k ==> keys[j] >= 0
    requires k == |keys| || keys[k] < 0
    ensures KeysSent(keys) == k
  {
    if k > 0 {
      KeysSentStops(keys[1..], k - 1);
    }
  }

  /** One printed piece of server output. */
  datatype Token = Single(b: int) | Pair(lead: int, trail: int)

  /** `(first & 0xE0) == 0xC0` on the signed byte: its top three bits are 110. */
  predicate IsLead(b: int)
    requires IsOctet(b)
  {
    b / 32 == 6
  }

  function TokenBytes(ts: seq<Token>): seq<int>
  {
    if |ts| == 0 then []
    else
      match ts[0]
      case Single(b) => [b] + TokenBytes(ts[1..])
      case Pair(x, y) => [x, y] + TokenBytes(ts[1..])
  }

  lemma TokenBytesCons(t: Token, ts: seq<Token>)
    ensures TokenBytes([t] + ts) == TokenBytes([t]) + TokenBytes(ts)
    ensures TokenBytes([t]) == (if t.Single? then [t.b] else [t.lead, t.trail])
  {
    assert ([t] + ts)[1..] == ts;
    assert [t][1..] == [];
  }

  /** The tokens one buffer yields; `underflow` records the
      `BufferUnderflowException` of a lead byte in the buffer's last slot. */
  datatype Framed = Framed(tokens: seq<Token>, underflow: bool)

  /** The inner `while (buffer.hasRemaining())` loop of `ReadTask.run`: a
      byte whose top bits are 110 is taken with the byte after it, any other
      byte alone. */
  function Frame(buf: seq<int>): (f: Framed)
    requires AllOctets(buf)
    ensures forall k :: 0 <= k < |f.tokens| && f.tokens[k].Pair? ==> IsOctet(f.tokens[k].lead) && IsLead(f.tokens[k].lead)
    ensures forall k :: 0 <= k < |f.tokens| && f.tokens[k].Single? ==> IsOctet(f.tokens[k].b) && !IsLead(f.tokens[k].b)
    decreases |buf|
  {
    if |buf| == 0 then Framed([], false)
    else if IsLead(buf[0]) then
      if |buf| == 1 then Framed([], true)
      else
        var r := Frame(buf[2..]);
        Framed([Pair(buf[0], buf[1])] + r.tokens, r.underflow)
    else
      var r := Frame(buf[1..]);
      Framed([Single(buf[0])] + r.tokens, r.underflow)
  }

  /** Framing loses and invents no byte: the tokens hold the buffer in order,
      except for a lead byte in the last slot, which is what underflows. */
  lemma {:induction false} FrameKeepsBytes(buf: seq<int>)
    requires AllOctets(buf)
    ensures var f := Frame(buf);
            && (!f.underflow ==> TokenBytes(f.tokens) == buf)
            && (f.underflow ==> |buf| > 0 && IsLead(buf[|buf| - 1]) && TokenBytes(f.tokens) + [buf[|buf| - 1]] == buf)
    decreases |buf|
  {
    if |buf| == 0 {
    } else if IsLead(buf[0]) {
      if |buf| > 1 {
        var rest := buf[2..];
        FrameKeepsBytes(rest);
        var r := Frame(rest);
        TokenBytesCons(Pair(buf[0], buf[1]), r.tokens);
        assert buf == [buf[0], buf[1]] + rest;
        if r.underflow {
          assert buf[|buf| - 1] == rest[|rest| - 1];
        }
      }
    } else {
      var rest := buf[1..];
      FrameKeepsBytes(rest);
      var r := Frame(rest);
      TokenBytesCons(Single(buf[0]), r.tokens);
      assert buf == [buf[0]] + rest;
      if r.underflow {
        assert buf[|buf| - 1] == rest[|rest| - 1];
      }
    }
  }

  /** The character `System.out.print((char) first)` prints for a single byte:
      the signed byte sign-extended to sixteen bits. */
  function SingleChar(b: int): (ch: int)
    requires IsOctet(b)
    ensures b < 0x80 ==> ch == b
    ensures b >= 0x80 ==> ch == 0xFF00 + b
  {
    ToChar(ToByte(b))
  }

  /** The client recovers every character of a one- and two-byte UTF-8
      string: ASCII bytes alone, each two-byte form as one pair. */
  lemma {:induction false} FrameRecoversCharacters(units: seq<int>)
    requires Utf8.AllShort(units)
    ensures Frame(Utf8.EncodeAll(units)).underflow == false
    ensures |Frame(Utf8.EncodeAll(units)).tokens| == |units|
    ensures forall k :: 0 <= k < |units| ==>
              (Frame(Utf8.EncodeAll(units)).tokens[k].Pair? <==> units[k] >= 0x80)
  {
    if |units| > 0 {
      var c := units[0];
      var e := Utf8.EncodeScalar(c);
      var b := Utf8.EncodeAll(units);
      assert b == e + Utf8.EncodeAll(units[1..]);
      FrameRecoversCharacters(units[1..]);
      if c < 0x80 {
        assert b[1..] == Utf8.EncodeAll(units[1..]);
      } else {
        assert b[2..] == Utf8.EncodeAll(units[1..]);
      }
      var f := Frame(b);
      var g := Frame(Utf8.EncodeAll(units[1..]));
      assert f.tokens == [f.tokens[0]] + g.tokens;
      forall k | 0 <= k < |units|
        ensures f.tokens[k].Pair? <==> units[k] >= 0x80
      {
        if k > 0 {
          assert f.tokens[k] == g.tokens[k - 1];
          assert units[k] == units[1..][k - 1];
        }
      }
    }
  }

  /** One `channel.read` as the reader thread sees it: the bytes delivered,
      and whether the thread had been interrupted by then. An empty delivery
      is a read of zero bytes, which ends the loop. */
  datatype Delivery = Delivery(bytes: seq<int>, interrupted: bool)

  datatype ReaderEnd = Interrupted | ZeroRead | Underflow | Reading

  datatype ReaderRun = ReaderRun(printed: seq<Token>, end: ReaderEnd)

  predicate ValidDeliveries(ds: seq<Delivery>) {
    forall j :: 0 <= j < |ds| ==> AllOctets(ds[j].bytes)
  }

  /** A read after which the loop goes on: bytes arrived, no interrupt, and
      the buffer does not end in a lone lead byte. */
  predicate Proceeds(d: Delivery)
    requires AllOctets(d.bytes)
  {
    |d.bytes| > 0 && !d.interrupted && !Frame(d.bytes).underflow
  }

  /** Why a read that does not proceed ends the loop. */
  function StopKind(d: Delivery): (e: ReaderEnd)
    requires AllOctets(d.bytes) && !Proceeds(d)
    ensures e != Reading
  {
    if |d.bytes| == 0 then ZeroRead else if d.interrupted then Interrupted else Underflow
  }

  /** The index of the first read that does not proceed (`|ds|` if none). */
  function FirstStop(ds: seq<Delivery>): (n: nat)
    requires ValidDeliveries(ds)
    ensures n <= |ds|
    ensures forall j :: 0 <= j < n ==> Proceeds(ds[j])
    ensures n < |ds| ==> !Proceeds(ds[n])
  {
    if |ds| == 0 || !Proceeds(ds[0]) then 0 else 1 + FirstStop(ds[1..])
  }

  /** How a run of reads ends: still reading if every read proceeds,
      otherwise as the first read that does not proceed says. */
  function EndOf(ds: seq<Delivery>): ReaderEnd
    requires ValidDeliveries(ds)
  {
    var n := FirstStop(ds);
    if n == |ds| then Reading else StopKind(ds[n])
  }

  /** Everything the reads print when each buffer is framed in full. */
  function Printed(ds: seq<Delivery>): seq<Token>
    requires ValidDeliveries(ds)
  {
    if |ds| == 0 then [] else Frame(ds[0].bytes).tokens + Printed(ds[1..])
  }

  /** A non-empty prefix prints its first read, then the rest of it. */
  lemma PrintedPrefixCons(ds: seq<Delivery>, n: nat)
    requires ValidDeliveries(ds) && 0 < n <= |ds|
    ensures Printed(ds[..n]) == Frame(ds[0].bytes).tokens + Printed(ds[1..][..n - 1])
  {
    assert ds[..n][1..] == ds[1..][..n - 1];
  }

  /** The outer loop of `ReadTask.run`: every buffer is framed on its own,
      from a cleared buffer, so nothing carries from one read to the next.
      The loop runs up to the first read that does not proceed, and that
      read names the end. */
  function ReadLoop(ds: seq<Delivery>): (r: ReaderRun)
    requires ValidDeliveries(ds)
    ensures r.end == EndOf(ds)
  {
    if |ds| == 0 then ReaderRun([], Reading)
    else if |ds[0].bytes| == 0 then ReaderRun([], ZeroRead)
    else if ds[0].interrupted then ReaderRun([], Interrupted)
    else
      var f := Frame(ds[0].bytes);
      if f.underflow then ReaderRun(f.tokens, Underflow)
      else
        var r := ReadLoop(ds[1..]);
        assert FirstStop(ds) < |ds| ==> ds[FirstStop(ds)] == ds[1..][FirstStop(ds[1..])];
        ReaderRun(f.tokens + r.printed, r.end)
  }

  /** What the reader prints: every read before the stop in full, and the
      stopping read's tokens only when it underflows (a zero read or an
      interrupt prints nothing of its own). */
  lemma {:induction false} ReadLoopPrints(ds: seq<Delivery>)
    requires ValidDeliveries(ds)
    ensures var r := ReadLoop(ds);
            var n := FirstStop(ds);
            r.printed == Printed(ds[..n]) + (if r.end == Underflow then Frame(ds[n].bytes).tokens else [])
  {
    if |ds| > 0 && Proceeds(ds[0]) {
      var r, r' := ReadLoop(ds), ReadLoop(ds[1..]);
      assert r.printed == Frame(ds[0].bytes).tokens + r'.printed && r.end == r'.end;
      ReadLoopPrints(ds[1..]);
      PrintedPrefixCons(ds, FirstStop(ds));
      assert FirstStop(ds) < |ds| ==> ds[FirstStop(ds)] == ds[1..][FirstStop(ds[1..])];
    } else if |ds| > 0 {
      assert ds[..0] == [];
    }
  }

  /** A two-byte character whose bytes arrive in two separate reads is never
      reassembled: the read ending in its lead byte kills the reader. */
  lemma SplitCharacterStopsReader(first: seq<int>, second: seq<int>, tail: seq<Delivery>)
    requires AllOctets(first) && AllOctets(second) && ValidDeliveries(tail)
    requires |first| > 0 && |second| > 0
    requires Frame(first).underflow
    ensures ReadLoop([Delivery(first, false), Delivery(second, false)] + tail).end == Underflow
    ensures ReadLoop([Delivery(first, false), Delivery(second, false)] + tail).printed == Frame(first).tokens
  {
  }
}
