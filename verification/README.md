# ICMP echo sender: checksum, echo request and send loop

A Dafny model of the core of a minimal `ping` sender written in Go (`main.go`).
Once per second, until interrupted, the program builds an 8-byte ICMP Echo
Request and writes it to a raw socket. The model covers three pieces:

- `checksum.dfy` (module `Checksum`) models `calculateChecksum`. It is a
  method over `array<byte>` that sums the buffer's big-endian 16-bit words in
  a loop. If the length is odd, the last byte counts as a high byte. The
  method then folds the carry twice, the second time without masking it, and
  returns `uint16(^sum)`. Go's `^` on a signed `int` is modelled as `-x - 1`.
  The `uint16(..)` conversion is `% 0x1_0000`, which keeps the low 16 bits of
  the two's-complement value. The reference is the one's-complement sum of
  section 1 of RFC 1071: carries are folded back in until none is left
  (`EndAroundCarry`), and the Internet checksum is that sum's complement
  (`InternetChecksum`). The proofs show that the source's two fixed folds
  equal this reference whenever the word sum is below `FoldTwiceLimit`
  (2^32 + 0xFFFF). That covers every buffer of at most 131076 bytes, so
  every IPv4 datagram and every echo request this program sends. A proved
  counterexample of 131078 bytes, whose word sum is exactly that limit,
  shows the two folds fall short there. The model takes Go's `int` to be
  64 bits wide, as on 64-bit builds (see "Left out" for 32-bit builds).
- `ping.dfy` (module `Ping`) models `sendPing` and the loop of `main`.
  `BuildEchoRequest` fills a fresh `array<byte>` the way `sendPing` fills
  `msg`. It writes type 8 and code 0, a zero checksum field, the counter as
  `byte(seq >> 8)` and `byte(seq)`, and two zero bytes. It computes the
  checksum and then overwrites bytes 2-3 with it. The method is proved equal
  to the spec function `EchoRequest`. That function embeds the RFC 1071
  checksum, not the source's routine, so this proof also shows that the
  source's routine computes the right value for the packet. `PingLoop` is the
  loop of `main`. The counter starts at 1, and each iteration without a
  pending signal builds one request, hands it to the socket and increments
  the counter, even when the write fails.

Section "Echo or Echo Reply Message" of RFC 792 names bytes 4-5 of the echo
message the Identifier and bytes 6-7 the Sequence Number. The code writes its
counter into bytes 4-5 and leaves bytes 6-7 zero. The model follows the code,
and `IdentifierField` and `SequenceNumberField` use the RFC's names for the
two fields. The counter is Go's `seq`, called `seqNo` here because `seq` is a
Dafny keyword.

## Model

| member | source | states |
|---|---|---|
| `Checksum.WordSum` | main.go:73-78 | The accumulator after the word loop and the odd-byte step: the sum of the buffer's big-endian 16-bit words, a trailing odd byte counting as a high byte. Its bounds and zero case are stated by the lemmas below. |
| `Checksum.FoldTwice` | main.go:79-81 | The source's last three steps on a word sum: the masked fold, the unmasked second fold, then `uint16(^sum)`. `TwoFoldsSuffice` and `TwoFoldsFallShort` state what it computes. |
| `Checksum.FoldTwiceChecksum` | main.go:71-82 | The value `calculateChecksum` returns for a buffer, as a function; `CalculateChecksum` is proved equal to it and the checksum lemmas below are stated about it. |
| `Checksum.InternetChecksum` | main.go:79-81 | Not source lines: the RFC 1071 reference the source's folds are compared against, the complement of the fully drained fold. It is 0xFFFF if and only if the word sum is 0. |
| `Checksum.CalculateChecksum` | main.go:71-82 | Returns a 16-bit value equal to the two-fold checksum of the buffer. It is also the RFC 1071 Internet checksum of the buffer whenever the word sum is below `FoldTwiceLimit` (2^32 + 0xFFFF). |
| `Checksum.EndAroundCarry` | main.go:79-80 | The fully drained carry fold of RFC 1071 fits in 16 bits, is congruent to the sum modulo 0xFFFF and is never above it. It is 0 exactly when the sum is 0. |
| `Checksum.FoldStep` | main.go:79 | One fold `(sum >> 16) + (sum & 0xffff)` keeps the sum modulo 0xFFFF. While a carry remains, it strictly shrinks a positive sum. |
| `Checksum.TwoFoldsSuffice` | main.go:79-81 | For every sum below 2^32 + 0xFFFF, the masked fold, the unmasked second fold and the truncated complement give 0xFFFF minus the drained one's-complement sum. |
| `Checksum.TwoFoldsFallShort` | main.go:79-81 | At the sum 2^32 + 0xFFFF the two folds give 0xFFFF, but the drained fold gives 0xFFFE. The carry left by the second fold is lost in the truncation, so the bound above is tight. |
| `Checksum.AgreesBelowLimit` | main.go:72-81 | The source's checksum equals the RFC 1071 checksum for every buffer whose word sum is below 2^32 + 0xFFFF. |
| `Checksum.WordSumBound` | main.go:73-78 | The word sum, including the padded odd byte, is at most 0xFFFF times the number of words. |
| `Checksum.AgreesOnShortBuffers` | main.go:71-82 | For every buffer of at most 131076 bytes, the source's checksum equals the RFC 1071 checksum. |
| `Checksum.LongBufferDisagrees` | main.go:71-82 | A 131078-byte buffer (65538 words 0xFFFF, then the word 1) has checksum 0xFFFF as the source computes it, but 0xFFFE under RFC 1071. |
| `Checksum.AppendZeroWordSum` | main.go:73-78 | Appending a zero byte never changes the word sum. |
| `Checksum.OddLengthPadding` | main.go:76-78 | A buffer and the same buffer with one zero byte appended have the same checksum, both as the source computes it and under RFC 1071. |
| `Checksum.WordSumZeroIff` | main.go:73-78 | The word sum is 0 if and only if every byte is 0. |
| `Checksum.ZeroBufferChecksum` | main.go:72-81 | An empty or all-zero buffer of any length has checksum 0xFFFF. |
| `Checksum.ChecksumFFFFIffZero` | main.go:72-81 | For buffers of at most 131076 bytes, the checksum is 0xFFFF if and only if every byte is zero. |
| `Checksum.WordSumUpdate` | main.go:63-64 | Overwriting the word at an even offset changes the word sum by the difference between the new word and the old one. |
| `Checksum.Embed` | main.go:62-64 | The buffer keeps its length and every byte outside the field. The two field bytes read big-endian equal the RFC 1071 checksum (`InternetChecksum`) of the original buffer. `BuildEchoRequest` shows that the source's `calculateChecksum` writes the same value for its 8-byte buffer. |
| `Checksum.EmbeddedChecksumVerifies` | main.go:55-64 | Take a buffer whose field at an even offset is zero, compute its checksum and write it into that field. Recomputing the checksum over the whole buffer then gives 0, the verification rule of RFC 1071. |
| `Ping.Unchecksummed` | main.go:52-60 | The 8 bytes of `msg` before the checksum is computed; bytes 4-5 read big-endian hold the counter modulo 2^16. |
| `Ping.EchoRequest` | main.go:52-64 | The datagram for any counter is 8 bytes long. |
| `Ping.CounterBytes` | main.go:57-58 | `byte(seq >> 8)` and `byte(seq)` read big-endian equal `seq` modulo 2^16, for every integer `seq`. |
| `Ping.EchoRequestHeader` | main.go:52-60 | The request has 8 bytes: byte 0 is 8 (Echo Request), byte 1 is 0 (code), and bytes 6-7 are 0. |
| `Ping.EchoRequestCounter` | main.go:57-58 | Bytes 4-5 of the request hold the counter modulo 2^16, big-endian. |
| `Ping.EchoRequestChecksumField` | main.go:55-64 | Bytes 2-3 hold, big-endian, the checksum of the same buffer with those bytes zero. Zeroing them gives back exactly the buffer the checksum was computed on. |
| `Ping.EchoRequestVerifies` | main.go:52-82 | Every request is a well-formed echo request: type 8, code 0, and a checksum that recomputes to 0, both under RFC 1071 and with the source's `calculateChecksum`. |
| `Ping.EchoRequestInjective` | main.go:52-64 | Two counters give the same datagram if and only if they agree modulo 2^16. |
| `Ping.SameCounterBytes` | main.go:57-58 | Counters that agree modulo 2^16 give the same bytes before the checksum is computed. |
| `Ping.FirstRequest` | main.go:52-64 | The first request (counter 1) is `08 00 F7 FE 00 01 00 00`. Its checksum, 0xF7FE, is the same under the source's routine. |
| `Ping.BuildEchoRequest` | main.go:52-64 | Allocates a fresh array whose contents are exactly `EchoRequest(seq)`, built in place and checksummed with `calculateChecksum`. |
| `Ping.PingLoop` | main.go:37-48 | Sends exactly until the first pending signal. Every iteration before it sent, and the k-th datagram sent is the request for counter k, whatever the outcome of earlier writes. The failed writes recorded are exactly those the trace marks as failed. |
| `Ping.KthRequest` | main.go:37-45 | The k-th datagram sent is a well-formed echo request carrying k modulo 2^16 in bytes 4-5. |

## Left out

- Argument count check and usage message (main.go:13-16): process control and console output.
- Host resolution with `net.ResolveIPAddr` and the startup banner (main.go:19-25): a DNS and library call, then printing.
- Raw socket creation, its deferred close and `WriteTo` (main.go:30-35, 66-68): operating-system I/O. A write is modelled as appending the datagram to `sent`. The write's success or failure comes from the trace given to `PingLoop`. The error message is not modelled, only which counters it was printed for.
- Signal registration and the non-blocking `select` on the interrupt channel (main.go:27-28, 39-42): asynchronous signals and channels. Each loop iteration reads one entry of a finite trace of `Tick`s, which says whether a signal is pending at the top of that iteration. The source's loop never ends on its own. The model stops at the first pending signal or at the end of the trace, so it describes every finite prefix of a run.
- `time.Sleep` and all `fmt` output (main.go:46, 41, 67): timing and console output.
- Go's `int` for `sum` and `seq` is modelled by unbounded integers, which matches a 64-bit `int`: there `sum` could overflow only for buffers of more than 2^47 bytes, and `seq` only after 2^63 sends.
- `Checksum.CalculateChecksum` and the agreement lemmas assume a 64-bit `int`. On 32-bit builds (where Go's `int` is 32 bits) `sum` wraps once the buffer exceeds 65536 bytes; for example 131074 bytes of 0xFF then give 1 where RFC 1071 gives 0. The 32-bit wrap-around is not modelled; every IPv4 datagram, and the 8-byte echo request, stays within 65536 bytes.
- Nothing is left out of the 16-bit and 8-bit truncations the code performs (`uint16(^sum)`, `byte(seq >> 8)`, `byte(seq)`, `byte(checksum >> 8)`, `byte(checksum)`): each is written out explicitly.
