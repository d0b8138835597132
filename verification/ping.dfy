/** The ping sender: the 8-byte ICMP Echo Request that `sendPing` builds,
    and the send loop of `main` that numbers the requests. */
module Ping {
  import opened Checksum

  /** The ICMP message type of an Echo Request (section "Echo or Echo Reply
      Message" of RFC 792). */
  const EchoRequestType: byte := 8

  /** The bytes of `msg` before the checksum is written: type, code, a zero
      checksum field, the counter `seqNo` (`seq` in the source) as `byte(seq >> 8)`, `byte(seq)`, and
      two zero bytes. Go's `>>` on a signed int rounds down, as Dafny's `/` by
      a positive divisor does, and `byte(..)` keeps the low 8 bits, as `%`
      does. */
  function Unchecksummed(seqNo: int): (s: seq<byte>)
    ensures |s| == 8 && Word(s[4], s[5]) == seqNo % 0x1_0000
  {
    CounterBytes(seqNo);
    [EchoRequestType, 0, 0, 0, (seqNo / 0x100) % 0x100, seqNo % 0x100, 0, 0]
  }

  /** The datagram `sendPing` hands to the socket for counter `seqNo`: the
      buffer above with its Internet checksum embedded at bytes 2-3. */
  function EchoRequest(seqNo: int): (p: seq<byte>)
    ensures |p| == 8
  {
    Embed(Unchecksummed(seqNo), 2)
  }

  // Fields of the echo message as section "Echo or Echo Reply Message" of
  // RFC 792 lays them out.

  function Field(p: seq<byte>, offset: nat): uint16
    requires offset + 1 < |p|
  {
    Word(p[offset], p[offset + 1])
  }

  /** Bytes 4-5, which RFC 792 calls the Identifier; the program writes its
      counter there. */
  function IdentifierField(p: seq<byte>): uint16
    requires |p| >= 8
  {
    Field(p, 4)
  }

  /** Bytes 6-7, which RFC 792 calls the Sequence Number; the program leaves
      them zero. */
  function SequenceNumberField(p: seq<byte>): uint16
    requires |p| >= 8
  {
    Field(p, 6)
  }

  /** An echo request a receiver accepts: at least the 8-byte header, type 8,
      code 0, and a checksum that verifies to 0 under section 1 of RFC 1071. */
  predicate IsEchoRequest(p: seq<byte>)
  {
    |p| >= 8 && p[0] == EchoRequestType && p[1] == 0 && InternetChecksum(p) == 0
  }

  /** The counter bytes hold `seqNo` truncated to 16 bits, big-endian. */
  lemma {:induction false} CounterBytes(seqNo: int)
    ensures Word((seqNo / 0x100) % 0x100, seqNo % 0x100) == seqNo % 0x1_0000
  {
    var q := seqNo / 0x100;
    assert seqNo == 0x100 * q + seqNo % 0x100;
    assert q == 0x100 * (q / 0x100) + q % 0x100;
    assert seqNo == 0x1_0000 * (q / 0x100) + Word(q % 0x100, seqNo % 0x100);
  }

  /** The fixed bytes of the request: 8 bytes, type 8, code 0, and zero in
      bytes 6-7. */
  lemma EchoRequestHeader(seqNo: int)
    ensures var p := EchoRequest(seqNo);
      && |p| == 8
      && p[0] == EchoRequestType && p[1] == 0
      && p[6] == 0 && p[7] == 0 && SequenceNumberField(p) == 0
  {
  }

  /** Bytes 4-5 of the request hold the counter modulo 2^16, big-endian. */
  lemma EchoRequestCounter(seqNo: int)
    ensures IdentifierField(EchoRequest(seqNo)) == seqNo % 0x1_0000
  {
    var p := EchoRequest(seqNo);
    assert p[4] == Unchecksummed(seqNo)[4] && p[5] == Unchecksummed(seqNo)[5];
    CounterBytes(seqNo);
  }

  /** Bytes 2-3 of the request hold, big-endian, the checksum of the same
      buffer with those two bytes zero, and nothing else differs from it. */
  lemma EchoRequestChecksumField(seqNo: int)
    ensures EchoRequest(seqNo)[2 := 0][3 := 0] == Unchecksummed(seqNo)
    ensures Field(EchoRequest(seqNo), 2) == InternetChecksum(Unchecksummed(seqNo))
  {
    var s := Unchecksummed(seqNo);
    assert EchoRequest(seqNo)[2 := 0][3 := 0] == s;
  }

  /** Every request the program builds is a well-formed echo request: running
      the checksum over the finished packet gives 0, whether computed the
      RFC 1071 way or by the program's own two-fold routine. */
  lemma EchoRequestVerifies(seqNo: int)
    ensures IsEchoRequest(EchoRequest(seqNo))
    ensures FoldTwiceChecksum(EchoRequest(seqNo)) == 0
  {
    EmbeddedChecksumVerifies(Unchecksummed(seqNo), 2);
    AgreesOnShortBuffers(EchoRequest(seqNo));
  }

  /** Two counters give the same datagram exactly when they agree modulo
      2^16: nothing but the truncated counter varies between requests. */
  lemma EchoRequestInjective(a: int, b: int)
    ensures EchoRequest(a) == EchoRequest(b) <==> a % 0x1_0000 == b % 0x1_0000
  {
    EchoRequestCounter(a);
    EchoRequestCounter(b);
    if a % 0x1_0000 == b % 0x1_0000 {
      SameCounterBytes(a, b);
    }
  }

  lemma SameCounterBytes(a: int, b: int)
    requires a % 0x1_0000 == b % 0x1_0000
    ensures Unchecksummed(a) == Unchecksummed(b)
  {
    CounterBytes(a);
    CounterBytes(b);
    var hiA, loA := (a / 0x100) % 0x100, a % 0x100;
    var hiB, loB := (b / 0x100) % 0x100, b % 0x100;
    assert Word(hiA, loA) == Word(hiB, loB);
    assert hiA == hiB && loA == loB;
  }

  /** The first request, counter 1: type 8, checksum 0xF7FE, counter 1. */
  lemma FirstRequest()
    ensures EchoRequest(1) == [8, 0, 0xF7, 0xFE, 0, 1, 0, 0]
    ensures FoldTwiceChecksum(Unchecksummed(1)) == 0xF7FE
  {
    var s := Unchecksummed(1);
    assert s == [8, 0, 0, 0, 0, 1, 0, 0];
    assert WordSum(s[6..]) == 0;
    assert WordSum(s[4..]) == 1;
    assert WordSum(s[2..]) == 1;
    assert WordSum(s) == 0x0801;
    assert InternetChecksum(s) == 0xF7FE;
  }

  /** The buffer-building part of `sendPing`: a fresh 8-byte buffer filled in
      place, checksummed while bytes 2-3 are zero, then patched at bytes 2-3
      with the checksum, high byte first. */
  method BuildEchoRequest(seqNo: int) returns (msg: array<byte>)
    ensures fresh(msg)
    ensures msg[..] == EchoRequest(seqNo)
  {
    msg := new byte[8];
    msg[0] := EchoRequestType;
    msg[1] := 0;
    msg[2] := 0;
    msg[3] := 0;
    msg[4] := (seqNo / 0x100) % 0x100;
    msg[5] := seqNo % 0x100;
    msg[6] := 0;
    msg[7] := 0;
    assert msg[..] == Unchecksummed(seqNo);
    WordSumBound(msg[..]);
    var checksum := CalculateChecksum(msg);
    msg[2] := checksum / 0x100;
    msg[3] := checksum % 0x100;
  }

  /** What the loop of `main` finds at the top of one iteration: a pending
      interrupt or termination signal, or none, in which case it sends, and
      the write to the socket succeeds (`delivered`) or reports an error. */
  datatype Tick = Interrupt | Send(delivered: bool)

  /** The send loop of `main`, run against the finite trace `env` of what
      each iteration observes. The counter starts at 1; each iteration
      without a pending signal builds and writes one request and then
      increments the counter, whether or not the write failed. The loop ends
      at the first pending signal (or where the trace ends). `sent` is every
      datagram handed to the socket, in order; `failed` the counters whose
      write reported an error. */
  method PingLoop(env: seq<Tick>) returns (sent: seq<seq<byte>>, failed: seq<int>)
    ensures |sent| <= |env|
    ensures forall k :: 0 <= k < |sent| ==> env[k].Send?
    ensures |sent| < |env| ==> env[|sent|].Interrupt?
    ensures forall k :: 0 <= k < |sent| ==> sent[k] == EchoRequest(k + 1)
    ensures forall n :: n in failed <==> 1 <= n <= |sent| && !env[n - 1].delivered
  {
    sent, failed := [], [];
    var seqNo := 1;
    var i := 0;
    while i < |env| && env[i].Send?
      invariant 0 <= i <= |env|
      invariant seqNo == i + 1
      invariant |sent| == i
      invariant forall k :: 0 <= k < i ==> env[k].Send?
      invariant forall k :: 0 <= k < i ==> sent[k] == EchoRequest(k + 1)
      invariant forall n :: n in failed <==> 1 <= n <= i && !env[n - 1].delivered
    {
      var msg := BuildEchoRequest(seqNo);
      sent := sent + [msg[..]];
      if !env[i].delivered {
        failed := failed + [seqNo];
      }
      seqNo := seqNo + 1;
      i := i + 1;
    }
  }

  /** The k-th datagram sent (k >= 1) is a well-formed echo request carrying
      the counter k modulo 2^16. */
  lemma KthRequest(sent: seq<seq<byte>>, k: nat)
    requires 1 <= k <= |sent|
    requires forall j :: 0 <= j < |sent| ==> sent[j] == EchoRequest(j + 1)
    ensures IsEchoRequest(sent[k - 1])
    ensures IdentifierField(sent[k - 1]) == k % 0x1_0000
  {
    EchoRequestVerifies(k);
    EchoRequestCounter(k);
  }
}
