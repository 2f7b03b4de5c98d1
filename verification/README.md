# groovy-shell-server in Dafny

A model of the logic at the core of groovy-shell-server, a library that
exposes a Groovy shell (Groovysh) of a running JVM over SSH and, in its older
form, over a raw TCP socket. The SSH, socket, thread and Groovysh parts are
not modelled. What is modelled is the byte-level terminal codec and the
small decision and state machines around it:

- **Raw-socket input decoder** (`UtfInputStream.read`). It reads a 16-bit
  code unit as two bytes and re-encodes it as UTF-8. A one-byte form is
  returned as that byte. For a two-byte form, the first call returns both
  bytes packed into one value (b0 + 256*b1) and the second call returns b1
  alone, held back from the first. So only the low octet of each returned
  value is one byte of the UTF-8 form. Its partner is a
  reference UTF-8 codec for the Basic Multilingual Plane (section 3 of
  RFC 3629), with Java's `?` replacement for lone surrogates.
- **Legacy client** (`GroovyShellClient`). The sender writes each key as a
  big-endian unit. `ReadTask` frames output bytes, pairing a 110xxxxx lead
  byte with the byte after it. Module `WireRoundTrip` composes the sender
  with the decoder. It proves a round trip only for keys whose 16-bit units
  are below 0x800, the units with a one- or two-byte UTF-8 form. For those,
  the low octets the server delivers decode to the units, that is to each
  key mod 65536, not to the key itself.
- **Terminal output filters** (both `TtyFilterOutputStream` classes). Each
  turns LF into LF then CR. The SSH one also gates every call on a channel
  liveness flag.
- **Terminal size** (`SshTerminal`). Width and height come from `COLUMNS`
  and `LINES`, with Java's `Integer.parseInt`, and fall back to the default
  on 0 or on a parse failure.
- **Session registry** (`GroovyShellAcceptor`, `ClientTaskThread`). The
  accept loop is driven by abstract accept outcomes and the interrupt flag.
  The kill escalation (interrupt, close, 500 ms join, forced stop) is driven
  by join oracles.
- **SSH command** (`GroovyShellCommand`). Covers binding precedence, the
  safe-writer gate, the error hook, default-script loading with restoration
  of the result hook, and the exit code.
- **Spring bean** (`GroovyShellServiceBean`). Covers Java `trim` and
  `split(",")` for the script list, and the merge order of context beans,
  `ctx` and user bindings.

Values are integers: bytes are octets 0..255 unless a Java `byte` is meant,
in which case the value is kept signed, as in the source. Threads, sockets,
clocks and the Groovysh shell become oracle parameters: boolean flags,
per-position functions, and exception outcomes supplied by the caller.

Source paths below are relative to the repository root.

## Model

| member | source | states |
|---|---|---|
| Utf8.EncodeScalar | groovy-shell-server/src/main/java/com/iterative/groovy/service/UtfInputStream.java:48 | the UTF-8 form of a BMP scalar value has 1, 2 or 3 bytes exactly when the value is below 0x80, below 0x800, or above that; a 2-byte form is a 110xxxxx lead followed by a 10xxxxxx continuation |
| Utf8.JavaEncodeChar | groovy-shell-server/src/main/java/com/iterative/groovy/service/UtfInputStream.java:48 | `getBytes("UTF-8")` of a one-character string: a lone surrogate becomes the single byte 0x3F, and any other unit becomes its UTF-8 form |
| Utf8.DecodeEncode | groovy-shell-server/src/main/java/com/iterative/groovy/service/UtfInputStream.java:48 | decoding undoes encoding for every string of units below 0x800 |
| Utf8.EncodeDecode | groovy-shell-server/src/main/java/com/iterative/groovy/service/UtfInputStream.java:48 | whatever the 1/2-byte decoder accepts consists of units below 0x800 whose encoding is the input again |
| Utf8.TwoByteUnit | groovy-shell-server/src/main/java/com/iterative/groovy/service/UtfInputStream.java:48-52 | a valid lead/continuation pair is the encoding of the unit in 0x80..0x7FF it decodes to |
| UtfInputStream.CodeUnit | groovy-shell-server/src/main/java/com/iterative/groovy/service/UtfInputStream.java:45-47 | `(char)((high << 8) \| low)` splits back into the high and low octet; a low byte of -1 (end of stream) makes the unit 0xFFFF |
| UtfInputStream.Read | groovy-shell-server/src/main/java/com/iterative/groovy/service/UtfInputStream.java:36-57 | one `read`: at most one byte is ever pending, and a pending byte consumes no input; with nothing pending, -1 is returned iff the input is empty; a byte is left pending only after a returned value whose low octet is a 2-byte lead, and the pending byte's low octet is a continuation; every returned value other than -1 shrinks the measure, so the reads end |
| UtfInputStream.ReadServesPending | groovy-shell-server/src/main/java/com/iterative/groovy/service/UtfInputStream.java:37-40 | a pending byte is returned and cleared, and the input is untouched |
| UtfInputStream.ReadAtEndOfStream | groovy-shell-server/src/main/java/com/iterative/groovy/service/UtfInputStream.java:41-44 | end of stream on the high byte returns -1 with nothing pending |
| UtfInputStream.ReadOneByteUnit | groovy-shell-server/src/main/java/com/iterative/groovy/service/UtfInputStream.java:53-54 | a unit below 0x80 is returned as itself, two bytes are consumed, and nothing is pending |
| UtfInputStream.ReadTwoByteUnit | groovy-shell-server/src/main/java/com/iterative/groovy/service/UtfInputStream.java:49-52 | for a unit in 0x80..0x7FF, the first read returns b0 + 256*b1 and the second returns b1 - 256 (the signed byte) without reading; the low octets of the two are the UTF-8 form in order |
| UtfInputStream.ReadThreeByteUnitFails | groovy-shell-server/src/main/java/com/iterative/groovy/service/UtfInputStream.java:56 | a non-surrogate unit at or above 0x800 raises the "only 1 and 2 byte encoding" failure |
| UtfInputStream.ReadSurrogateUnit | groovy-shell-server/src/main/java/com/iterative/groovy/service/UtfInputStream.java:48-54 | a lone surrogate unit is delivered as 0x3F with nothing pending |
| UtfInputStream.ReadTruncatedUnitFails | groovy-shell-server/src/main/java/com/iterative/groovy/service/UtfInputStream.java:45-56 | end of stream after a high byte makes the unit 0xFFFF, which fails |
| ShellClient.EncodeKey | groovy-shell-client/src/main/java/com/farpost/groovy/shell/GroovyShellClient.java:60-63 | `putChar((char) i)` writes two octets, high first, whose big-endian value is i mod 65536 |
| ShellClient.EncodeKeyOfChar | groovy-shell-client/src/main/java/com/farpost/groovy/shell/GroovyShellClient.java:61 | only the low sixteen bits of a key reach the wire |
| ShellClient.SendKeys | groovy-shell-client/src/main/java/com/farpost/groovy/shell/GroovyShellClient.java:56-64 | the sending loop writes two bytes per key before the first negative key, and none after it; each pair reassembles to the key mod 65536 |
| ShellClient.KeysSent | groovy-shell-client/src/main/java/com/farpost/groovy/shell/GroovyShellClient.java:58 | the keys sent are exactly those before the first negative key code |
| ShellClient.WireAppend | groovy-shell-client/src/main/java/com/farpost/groovy/shell/GroovyShellClient.java:58-64 | keys are encoded independently: the wire form of a concatenation is the concatenation of the wire forms |
| ShellClient.Frame | groovy-shell-client/src/main/java/com/farpost/groovy/shell/GroovyShellClient.java:99-107 | every pair token starts with a byte whose top bits are 110, and no single token is such a byte |
| ShellClient.FrameKeepsBytes | groovy-shell-client/src/main/java/com/farpost/groovy/shell/GroovyShellClient.java:98-108 | without underflow, the tokens hold the buffer in order; underflow happens only on a lead byte in the last slot, and everything before it is kept |
| ShellClient.SingleChar | groovy-shell-client/src/main/java/com/farpost/groovy/shell/GroovyShellClient.java:105 | `(char)` of a signed byte: ASCII is unchanged, and a byte at or above 0x80 prints as U+FF00 + b |
| ShellClient.FrameRecoversCharacters | groovy-shell-client/src/main/java/com/farpost/groovy/shell/GroovyShellClient.java:99-106 | on the UTF-8 form of units below 0x800, framing never underflows and yields one token per unit, a pair iff the unit is at or above 0x80 |
| ShellClient.SplitCharacterStopsReader | groovy-shell-client/src/main/java/com/farpost/groovy/shell/GroovyShellClient.java:94-108 | a read ending in a lead byte ends the reader, and the next read's bytes are never printed: nothing carries over between reads |
| ShellClient.ReadLoop | groovy-shell-client/src/main/java/com/farpost/groovy/shell/GroovyShellClient.java:91-109 | the loop goes on exactly while each read brings bytes, comes with no interrupt and does not end in a lone lead byte; the end (`EndOf`) is still reading iff every read did, and otherwise the first read that does not go on names it: a zero read, an interrupt, or an underflow |
| ShellClient.ReadLoopPrints | groovy-shell-client/src/main/java/com/farpost/groovy/shell/GroovyShellClient.java:94-107 | the printed tokens are every read before the stop framed in full, followed by the stopping read's own tokens only when it underflows; a zero read or an interrupt prints nothing of its own |
| WireRoundTrip.ReassemblyOfKey | groovy-shell-server/src/main/java/com/iterative/groovy/service/UtfInputStream.java:47 | the server's reassembly of the two bytes the client sent for key i is i mod 65536 |
| WireRoundTrip.DrainSupportedUnit | groovy-shell-server/src/main/java/com/iterative/groovy/service/UtfInputStream.java:36-55 | a unit with a 1- or 2-byte form at the front of the input delivers the low octets of its Java UTF-8 form and leaves the rest of the run unchanged |
| WireRoundTrip.DrainUnsupportedUnit | groovy-shell-server/src/main/java/com/iterative/groovy/service/UtfInputStream.java:56 | a unit needing three bytes at the front of the input ends the run with the failure |
| WireRoundTrip.DrainUnits | groovy-shell-server/src/main/java/com/iterative/groovy/service/UtfInputStream.java:36-57 | reading any wire string of units fails iff some unit needs three bytes; the low octets delivered are the Java UTF-8 form of every unit before that one |
| WireRoundTrip.UnitsRoundTrip | groovy-shell-server/src/main/java/com/iterative/groovy/service/UtfInputStream.java:36-57 | a string of units below 0x800 is read to a clean end of stream, and the delivered bytes decode back to the units |
| WireRoundTrip.KeysRoundTrip | groovy-shell-client/src/main/java/com/farpost/groovy/shell/GroovyShellClient.java:58-63 | the decoder's reassembly undoes the client's encoding: for keys whose units are below 0x800, the bytes the server delivers decode to exactly those units |
| WireRoundTrip.SentKeysRoundTrip | groovy-shell-client/src/main/java/com/farpost/groovy/shell/GroovyShellClient.java:56-64 | the round trip over the wire the sending loop writes, the keys before the first negative one: when their units are below 0x800 the server decodes exactly those units |
| WireRoundTrip.WireOfUnits | groovy-shell-client/src/main/java/com/farpost/groovy/shell/GroovyShellClient.java:61 | the wire form of keys equals that of their `(char)` units |
| WireRoundTrip.TruncatedWireFails | groovy-shell-server/src/main/java/com/iterative/groovy/service/UtfInputStream.java:45-56 | a wire string cut after a high byte fails, after delivering every complete unit before it |
| TtyOutput.ExpandLf | groovy-shell-server/src/main/java/me/bazhenov/groovysh/TtyFilterOutputStream.java:30-34 | the reference expansion: the length grows by the number of LFs, dropping each CR that follows an LF gives the input back, and an input without LF is unchanged |
| TtyOutput.ExpandAppend | groovy-shell-server/src/main/java/me/bazhenov/groovysh/TtyFilterOutputStream.java:46-52 | the expansion works byte by byte, so order is preserved across concatenation |
| TtyFilter.WriteInt | groovy-shell-server/src/main/java/me/bazhenov/groovysh/TtyFilterOutputStream.java:28-36 | while dead, nothing is written; while alive, LF becomes 0x0A then 0x0D and any other value is written once, unchanged |
| TtyFilter.FlushStream | groovy-shell-server/src/main/java/me/bazhenov/groovysh/TtyFilterOutputStream.java:39-43 | flush reaches the stream iff the flag is true, and never writes |
| TtyFilter.WriteFromInBounds | groovy-shell-server/src/main/java/me/bazhenov/groovysh/TtyFilterOutputStream.java:48-50 | the loop from i to len, in bounds and alive, writes the expansion of b[i..len] |
| TtyFilter.DeadChannelEmitsNothing | groovy-shell-server/src/main/java/me/bazhenov/groovysh/TtyFilterOutputStream.java:28-52 | with the flag false, all three operations emit nothing, even with bad indices |
| TtyFilter.WriteArrayCovers | groovy-shell-server/src/main/java/me/bazhenov/groovysh/TtyFilterOutputStream.java:46-52 | in bounds and alive, the as-written loop writes the expansion of b[off..len]: it treats len as an end index |
| TtyFilter.WriteArrayFromStart | groovy-shell-server/src/main/java/me/bazhenov/groovysh/TtyFilterOutputStream.java:46-52 | from offset 0, the output length is len plus the number of LFs; the output is the expansion of b[..len], and it collapses back to b[..len] |
| TtyFilter.WriteArrayStopsAtLen | groovy-shell-server/src/main/java/me/bazhenov/groovysh/TtyFilterOutputStream.java:48 | asked for 2 bytes from offset 2 of a 4-byte array, the as-written loop writes nothing |
| TtyFilter.WriteArrayIntended | groovy-shell-server/src/main/java/me/bazhenov/groovysh/TtyFilterOutputStream.java:46-52 | the corrected loop writes the expansion of b[off..off+len] when alive, and nothing when dead |
| TtyFilter.DeadSessionIsSilent | groovy-shell-server/src/main/java/me/bazhenov/groovysh/TtyFilterOutputStream.java:28-52 | no series of writes and flushes on a dead channel reaches the stream |
| LegacyTtyFilter.WriteInt | groovy-shell-server/src/main/java/com/iterative/groovy/service/TtyFilterOutputStream.java:14-20 | one or two calls, writing exactly the reference expansion of the byte: LF as 0x0A then 0x0D, anything else once |
| LegacyTtyFilter.FlushStream | groovy-shell-server/src/main/java/com/iterative/groovy/service/TtyFilterOutputStream.java:7 | the inherited flush always reaches the stream |
| LegacyTtyFilter.SameAsAliveGatedFilter | groovy-shell-server/src/main/java/com/iterative/groovy/service/TtyFilterOutputStream.java:13-27 | the ungated filter is the gated one with the flag held true: writing is unconditional |
| LegacyTtyFilter.WriteArrayFromStart | groovy-shell-server/src/main/java/com/iterative/groovy/service/TtyFilterOutputStream.java:23-27 | from offset 0, the output length is len plus the number of LFs, in the original order |
| JavaInteger.ParseInt | groovy-shell-server/src/main/java/me/bazhenov/groovysh/SshTerminal.java:23 | `Integer.parseInt` succeeds only on a non-empty string, and only with a value in the int range |
| JavaInteger.FormatNat | groovy-shell-server/src/main/java/com/iterative/groovy/service/GroovyShellAcceptor.java:65 | decimal digits without a leading zero whose value is the number |
| JavaInteger.ParseFormat | groovy-shell-server/src/main/java/me/bazhenov/groovysh/SshTerminal.java:23 | parsing undoes `Integer.toString` over the whole int range |
| JavaInteger.ParseRejectsMalformed | groovy-shell-server/src/main/java/me/bazhenov/groovysh/SshTerminal.java:23-30 | empty strings, bare signs, stray characters and leading spaces do not parse |
| JavaInteger.ParseRejectsOverflow | groovy-shell-server/src/main/java/me/bazhenov/groovysh/SshTerminal.java:23-30 | magnitudes outside the int range do not parse, with either sign |
| SshTerminal.SizeFrom | groovy-shell-server/src/main/java/me/bazhenov/groovysh/SshTerminal.java:20-31 | no registered environment is a null-pointer failure; otherwise a variable that parses to a non-zero int is the result, and one that is missing, does not parse or parses to 0 gives the default |
| SshTerminal.GetWidth | groovy-shell-server/src/main/java/me/bazhenov/groovysh/SshTerminal.java:20-31 | fails iff no environment is registered; a width is never 0 and always an int |
| SshTerminal.GetHeight | groovy-shell-server/src/main/java/me/bazhenov/groovysh/SshTerminal.java:34-45 | fails iff no environment is registered; a height is never 0 and always an int |
| SshTerminal.SizeIsVariable | groovy-shell-server/src/main/java/me/bazhenov/groovysh/SshTerminal.java:23-27 | a `COLUMNS` or `LINES` written as any non-zero int is returned as-is, negatives included |
| SshTerminal.NonCanonicalSpellings | groovy-shell-server/src/main/java/me/bazhenov/groovysh/SshTerminal.java:23 | spellings `parseInt` accepts besides the canonical one (`+5`, `007`) give the value they denote |
| SshTerminal.DefaultSizes | groovy-shell-server/src/main/java/me/bazhenov/groovysh/SshTerminal.java:24-30 | 0, a missing value or an unparsable value gives the default |
| SshTerminal.SizesReadOneVariable | groovy-shell-server/src/main/java/me/bazhenov/groovysh/SshTerminal.java:23-37 | width depends only on `COLUMNS`, height only on `LINES` |
| ClientTaskThread.Kill | groovy-shell-server/src/main/java/com/iterative/groovy/service/ClientTaskThread.java:20-34 | `kill` interrupts, closes the socket, then joins for 500 ms. That join is the only one and the only wait: at most two more actions follow it, each a flag restore or a forced stop, so the wait is bounded by one 500 ms join. A worker that has already finished is joined at once, with no restore and no stop; for a running worker the flag is restored iff it was set before or during the wait, and a forced stop, as the last action, happens iff it is still alive after the wait; the flag afterwards is set iff it was set before or the wait was interrupted |
| GroovyShellAcceptor.New | groovy-shell-server/src/main/java/com/iterative/groovy/service/GroovyShellAcceptor.java:43-50 | a port of 0 or less is rejected before any socket exists; otherwise the registry starts empty with the socket open |
| GroovyShellAcceptor.NextSequence | groovy-shell-server/src/main/java/com/iterative/groovy/service/GroovyShellAcceptor.java:65 | `clientSequence++` stays an int, adding one and wrapping from the maximum to the minimum |
| GroovyShellAcceptor.Advance | groovy-shell-server/src/main/java/com/iterative/groovy/service/GroovyShellAcceptor.java:65 | k increments without wrap-around add k |
| GroovyShellAcceptor.WorkerNamesDistinct | groovy-shell-server/src/main/java/com/iterative/groovy/service/GroovyShellAcceptor.java:65 | distinct sequence values give distinct `GroovyShClient-` names |
| GroovyShellAcceptor.Loop | groovy-shell-server/src/main/java/com/iterative/groovy/service/GroovyShellAcceptor.java:59-79 | the loop only appends started workers and never removes one; the sequence advances once per worker; the loop runs until an outcome other than a client or a timeout, and that outcome maps to the exit cause |
| GroovyShellAcceptor.LoopNamesWorkers | groovy-shell-server/src/main/java/com/iterative/groovy/service/GroovyShellAcceptor.java:64-68 | the j-th worker started is named from the sequence advanced j times |
| GroovyShellAcceptor.LoopCountsClients | groovy-shell-server/src/main/java/com/iterative/groovy/service/GroovyShellAcceptor.java:61-68 | exactly one worker is started per accepted client before the loop ends |
| GroovyShellAcceptor.AcceptStep | groovy-shell-server/src/main/java/com/iterative/groovy/service/GroovyShellAcceptor.java:61-74 | a timeout leaves everything unchanged; a client appends exactly one worker at the end |
| GroovyShellAcceptor.StartedNamesIncrease | groovy-shell-server/src/main/java/com/iterative/groovy/service/GroovyShellAcceptor.java:52-66 | without wrap-around, workers get consecutive sequence values, so their names are pairwise distinct |
| GroovyShellAcceptor.KillFrom | groovy-shell-server/src/main/java/com/iterative/groovy/service/GroovyShellAcceptor.java:92-94 | workers are killed one report each, in list order; a kill restores the flag iff its worker is still running and the flag was set on entry or some wait up to and including this one was interrupted; the flag afterwards is set iff it was set before or some wait was interrupted |
| GroovyShellAcceptor.KillAllClients | groovy-shell-server/src/main/java/com/iterative/groovy/service/GroovyShellAcceptor.java:91-96 | every registered worker is killed in list order, then the list is cleared; with the flag set, exactly the kills of still-running workers restore it; with no interrupt anywhere, none does; the flag afterwards is set iff it was set on entry or some kill's wait was interrupted; an empty list gives no kill |
| GroovyShellAcceptor.Run | groovy-shell-server/src/main/java/com/iterative/groovy/service/GroovyShellAcceptor.java:55-89 | on every exit, all workers (old and new) are killed in order, the list is empty and the socket is closed; on an interrupt exit, a kill restores the interrupt flag iff its worker is still running when joined; while no exit event has come, nothing is killed and the started workers stay registered |
| GroovyShellCommand.CreateBinding | groovy-shell-server/src/main/java/me/bazhenov/groovysh/GroovyShellCommand.java:123-143 | the binding holds every user entry except that `out`, `err` and `activeSessions` always override; with null user bindings it holds exactly those three |
| GroovyShellCommand.SafeWrite | groovy-shell-server/src/main/java/me/bazhenov/groovysh/GroovyShellCommand.java:185-195 | a byte is forwarded unchanged iff the session and the server are neither closed nor closing; otherwise it is dropped and the shell thread interrupted, or, before the thread exists, `wrapper.interrupt()` throws `NullPointerException` |
| GroovyShellCommand.SafeWrites | groovy-shell-server/src/main/java/me/bazhenov/groovysh/GroovyShellCommand.java:180-197 | each write is forwarded or interrupts; the forwarded bytes are exactly those written while the channel was healthy, in order (`HealthyBytes`, a filter defined from the end of the series), and every other write sends one interrupt; on a broken channel nothing is forwarded, and on a healthy one every byte is |
| GroovyShellCommand.OutputCutMidway | groovy-shell-server/src/main/java/me/bazhenov/groovysh/GroovyShellCommand.java:185-195 | when the session or server breaks in the middle of some output, exactly the bytes written before the break reach the channel, and every later write sends one interrupt |
| GroovyShellCommand.ErrorHook | groovy-shell-server/src/main/java/me/bazhenov/groovysh/GroovyShellCommand.java:86-96 | the runner is stopped iff the first argument is an `InterruptedIOException` or `SshException`; all arguments always go to the default hook; an empty argument array fails on `args[0]` |
| GroovyShellCommand.LoadFrom | groovy-shell-server/src/main/java/me/bazhenov/groovysh/GroovyShellCommand.java:161-164 | scripts are loaded in list order up to and including the first that throws, or all of them |
| GroovyShellCommand.LoadDefaultScripts | groovy-shell-server/src/main/java/me/bazhenov/groovysh/GroovyShellCommand.java:146-170 | with scripts, the no-op result hook goes in first, then the scripts load in order, and the original hook is restored last even on failure; an empty list touches nothing |
| GroovyShellCommand.Start | groovy-shell-server/src/main/java/me/bazhenov/groovysh/GroovyShellCommand.java:79-121 | the first failing script's exception is reported on `err`; if that report meets a broken channel, the null-wrapper exception escapes and no thread, environment or exit callback follows; otherwise the thread starts, registers the environment, and reports 0 on a normal return and -1 with the message on a `RuntimeException` or `Error`; the result hook is the original either way |
| GroovyShellCommand.ShellThreadHasTerminalSize | groovy-shell-server/src/main/java/me/bazhenov/groovysh/GroovyShellCommand.java:111-113 | once the shell thread has started, the terminal size never fails, since the environment is registered first |
| JavaStrings.Trim | groovy-shell-server/src/main/java/me/bazhenov/groovysh/spring/GroovyShellServiceBean.java:76 | a trimmed non-empty string starts and ends above U+0020 |
| JavaStrings.TrimEmptyIffBlank | groovy-shell-server/src/main/java/me/bazhenov/groovysh/spring/GroovyShellServiceBean.java:76 | `trim().isEmpty()` holds iff every character is at or below U+0020 |
| JavaStrings.SplitAll | groovy-shell-server/src/main/java/me/bazhenov/groovysh/spring/GroovyShellServiceBean.java:77 | the pieces between separators, empties included: at least one, none holding the separator |
| JavaStrings.JoinSplitAll | groovy-shell-server/src/main/java/me/bazhenov/groovysh/spring/GroovyShellServiceBean.java:77 | joining the pieces gives the string back |
| JavaStrings.SplitAllJoin | groovy-shell-server/src/main/java/me/bazhenov/groovysh/spring/GroovyShellServiceBean.java:77 | splitting a join of separator-free pieces gives the pieces back |
| JavaStrings.DropTrailingEmpty | groovy-shell-server/src/main/java/me/bazhenov/groovysh/spring/GroovyShellServiceBean.java:77 | the limit-0 rule keeps a prefix that ends in a non-empty piece, and drops only empty pieces |
| JavaStrings.Split | groovy-shell-server/src/main/java/me/bazhenov/groovysh/spring/GroovyShellServiceBean.java:77 | no piece holds the separator; when the separator occurs, the result is empty or its last piece is non-empty |
| JavaStrings.SplitIsPrefix | groovy-shell-server/src/main/java/me/bazhenov/groovysh/spring/GroovyShellServiceBean.java:77 | the pieces, joined back, are the string minus a run of trailing separators |
| JavaStrings.SplitJoin | groovy-shell-server/src/main/java/me/bazhenov/groovysh/spring/GroovyShellServiceBean.java:77 | comma-free names whose last one is non-empty survive a join and a split unchanged |
| JavaStrings.SplitDropsTrailingSeparators | groovy-shell-server/src/main/java/me/bazhenov/groovysh/spring/GroovyShellServiceBean.java:77 | two separators appended to a joined list of separator-free names, the last non-empty, split back to the same list: the empty pieces they delimit are dropped |
| GroovyShellServiceBean.SetDefaultScriptNames | groovy-shell-server/src/main/java/me/bazhenov/groovysh/spring/GroovyShellServiceBean.java:75-78 | null fails; a blank string changes nothing; otherwise only the script list changes, and it becomes the string's `split(",")` pieces, trailing empty pieces dropped |
| GroovyShellServiceBean.ScriptNamesRoundTrip | groovy-shell-server/src/main/java/me/bazhenov/groovysh/spring/GroovyShellServiceBean.java:75-78 | a non-blank comma-joined list of comma-free names, the last non-empty, sets exactly that list |
| GroovyShellServiceBean.TrailingCommasIgnored | groovy-shell-server/src/main/java/me/bazhenov/groovysh/spring/GroovyShellServiceBean.java:75-78 | the same list followed by two commas sets the same script list: no empty script name is added |
| GroovyShellServiceBean.JoinHoldsPieces | groovy-shell-server/src/main/java/me/bazhenov/groovysh/spring/GroovyShellServiceBean.java:77 | the joined string holds each piece at its offset |
| GroovyShellServiceBean.PublishContextBeans | groovy-shell-server/src/main/java/me/bazhenov/groovysh/spring/GroovyShellServiceBean.java:106-116 | a name is added iff some definition with that name has no `#` and is not abstract; it maps to its bean, and every other entry is kept |
| GroovyShellServiceBean.AfterPropertiesSet | groovy-shell-server/src/main/java/me/bazhenov/groovysh/spring/GroovyShellServiceBean.java:91-104 | with `launchAtStart` false nothing changes and nothing starts; otherwise the service starts and only the bindings may change; without a context, the bindings are kept; with one, they become the merged map of `ContextBindings` (published beans, then `ctx`, then the user's entries) |
| GroovyShellServiceBean.ContextBindings | groovy-shell-server/src/main/java/me/bazhenov/groovysh/spring/GroovyShellServiceBean.java:94-100 | user bindings override `ctx` and beans; `ctx` is the context unless a user entry shadows it; every other key is a published bean, and only when publishing is on; with publishing on, every eligible bean is present |
| GroovyShellServiceBean.ShellSeesContext | groovy-shell-server/src/main/java/me/bazhenov/groovysh/spring/GroovyShellServiceBean.java:91-104 | from the defaults with a context, the shell's binding holds `ctx`, every eligible bean not shadowed by `out`/`err`/`activeSessions`, and the command's own `out` |

## Left out

- Sockets, SSH channels and threads are not modelled. Accept outcomes, join timing, interrupts and the closed/closing state of sessions and servers are oracle inputs. `synchronized` and the data race on the static `clientSequence` are not modelled.
- Groovysh is opaque. Parsing, evaluation, `run` and `getRunner` are not modelled, and neither are the `:load` command's effects beyond whether it throws and with which class name and message.
- `Integer.parseInt` accepts ASCII digits only. Java's `Character.digit` also accepts other Unicode decimal digits.
- `DEFAULT_WIDTH` and `DEFAULT_HEIGHT` (80 and 24) come from jline's `TerminalSupport`, which is not part of this model.
- `GroovyShellClient.main`'s port parsing and usage message are console I/O and are not modelled. So is `channel.read`'s buffering, beyond the bytes each read delivers. When the channel reaches end of stream, `ReadTask` loops on reads of -1 bytes. `ShellClient.ReadLoop` treats an empty delivery as the zero-byte read that ends the loop, so the end-of-stream case is not modelled.
- `new String(bytes, "UTF-8")` on the client's 2-byte tokens is not modelled: the framer stays at token level.
- `GroovyShellCommand.destroy` (a single interrupt) is not modelled. Neither are `setAttribute` of the shell on the session and the `PrintStream` wrapping of `out` and `err`.
- An `Error` thrown by a `:load` is not modelled: it escapes `start`, because only `Exception` is caught there.
- GroovyShellCommand.Start: the failure report meets one channel state for the whole line. A channel that breaks partway through the line, after some bytes were forwarded, is not modelled. The one-argument terminal filter in `start` is taken to pass every byte to the safe wrapper, as the ungated com.iterative filter does. A `:load` whose output meets a broken channel throws the same `NullPointerException` inside `loadDefaultScripts`; that exception is one of the load failures the `loadFails` input can name.
- `start` builds its terminal filters with a one-argument `TtyFilterOutputStream` constructor, but the filter class has only a two-argument constructor taking the liveness flag. The files come from different revisions, so the filter and the command are modelled separately, and the flag is an input.
- `GroovyShellAcceptor` calls a two-argument `ClientTask` constructor, but `ClientTask` takes three. The acceptor sees a worker only through `kill`, so `ClientTask` is not part of this model.
- `getBean` failing with anything other than `BeanIsAbstractException`, and `service.start()` throwing, are not modelled.
- The SSH service setup (`me/bazhenov/groovysh/GroovyShellService.java`), the older socket services and shell threads, the older SSH command, the old one-byte client, the JMX interface, the thread factories and the `Main` classes are not part of this model. They are wiring and bootstrap code.
- GroovyShellAcceptor.StartedNamesIncrease: states distinct names only while the sequence does not wrap, because after 2^32 clients the source reuses names.

## Findings

| source | as written | input that shows it | evidently intended | confidence | as-written member | corrected member |
|---|---|---|---|---|---|---|
| groovy-shell-server/src/main/java/me/bazhenov/groovysh/TtyFilterOutputStream.java:48 | the array `write` loops `for (i = off; i < len; i++)`, treating `len` as an end index (the same loop appears at line 24 of the com.iterative filter) | `write([0x61, 0x62, 0x63, 0x64], 2, 2)` writes nothing, where the `OutputStream` contract asks for 0x63 0x64 | `i < off + len`: write `len` bytes starting at `off` | not executed; JDK callers such as `PrintStream` usually pass `off = 0`, where both loops agree | TtyFilter.WriteArrayStopsAtLen | TtyFilter.WriteArrayIntended |
