/** The Internet checksum (RFC 1071) in its three forms: ip_checksum over native words and the ICMP sum in
    network order (src/lib/netstack_driver.c), and the byte-wise loops of ping (src/lib/shell.c). */
module Checksum {
  import opened Common

  // ---------------------------------------------------------------- sums of 16-bit words

  function ByteAt(d: seq<byte>, i: nat): byte {
    if i < |d| then d[i] else 0
  }

  function Pair(high: nat, low: nat): (w: nat)
    ensures high < 256 && low < 256 ==> w < 0x1_0000
  {
    256 * high + low
  }

  /** Word number i; a missing last byte counts as zero. `big` is network order, else the machine's own. */
  function Word(d: seq<byte>, i: nat, big: bool): (w: nat)
    ensures w < 0x1_0000
  {
    if big then 256 * ByteAt(d, 2 * i) + ByteAt(d, 2 * i + 1) else ByteAt(d, 2 * i) + 256 * ByteAt(d, 2 * i + 1)
  }

  function Sum(d: seq<byte>, n: nat, big: bool): nat {
    if n == 0 then 0 else Sum(d, n - 1, big) + Word(d, n - 1, big)
  }

  function Words(d: seq<byte>): nat {
    (|d| + 1) / 2
  }

  /** The exact sum of all words. */
  function Total(d: seq<byte>, big: bool): nat {
    Sum(d, Words(d), big)
  }

  /** The one's complement sum: x reduced modulo 2^16 - 1, where only zero itself gives zero. */
  function Ones(x: nat): (r: uint16) {
    if x == 0 then 0 else (x - 1) % 0xFFFF + 1
  }

  function Complement(r: uint16): uint16 {
    0xFFFF - r
  }

  /** The sum in a uint32_t that wraps around. */
  function Wrapped(x: nat): uint32 {
    x % 0x1_0000_0000
  }

  lemma WrapStep(x: nat, w: nat)
    requires w < 0x1_0000
    ensures Wrapped(x + w) == Wrap32(Wrapped(x) + w)
  {
  }

  lemma {:induction false} OnesShift(x: nat, k: nat)
    requires x > 0
    ensures Ones(x + 0xFFFF * k) == Ones(x)
  {
    if k > 0 {
      OnesShift(x, k - 1);
      assert (x - 1 + 0xFFFF * k) % 0xFFFF == (x - 1 + 0xFFFF * (k - 1)) % 0xFFFF;
    }
  }

  /** `while (sum >> 16) sum = (sum & 0xFFFF) + (sum >> 16);` computes the one's complement sum. */
  method Fold(sum: uint32) returns (r: uint16)
    ensures r == Ones(sum)
  {
    var s: nat := sum;
    while s / 0x1_0000 > 0
      invariant Ones(s) == Ones(sum)
      decreases s
    {
      OnesShift(s % 0x1_0000 + s / 0x1_0000, s / 0x1_0000);
      s := s % 0x1_0000 + s / 0x1_0000;
    }
    r := s;
  }

  // ---------------------------------------------------------------- the three loops

  lemma NoSum()
    ensures Wrapped(0) == 0
  {
  }

  /** ip_checksum */
  method IpChecksum(data: seq<byte>) returns (r: uint16)
    ensures r == Complement(Ones(Wrapped(Total(data, false))))
  {
    hide Ones, Wrapped;
    NoSum();
    var i, len, sum := 0, |data|, 0 as uint32;
    while len > 1
      invariant 0 <= len && 2 * i + len == |data| && sum == Wrapped(Sum(data, i, false))
    {
      WrapStep(Sum(data, i, false), Word(data, i, false));
      sum := Wrap32(sum + Pair(data[2 * i + 1], data[2 * i]));
      i := i + 1;
      len := len - 2;
    }
    if len == 1 {
      WrapStep(Sum(data, i, false), Word(data, i, false));
      sum := Wrap32(sum + data[2 * i]);
    }
    var folded := Fold(sum);
    return Complement(folded);
  }

  /** The ICMP checksum of process_icmp, as the number before htons. */
  method IcmpChecksum(data: seq<byte>) returns (r: uint16)
    ensures r == Complement(Ones(Wrapped(Total(data, true))))
  {
    hide Ones, Wrapped, Swap;
    NoSum();
    var i, sum := 0, 0 as uint32;
    while i < |data| / 2
      invariant 0 <= i <= |data| / 2 && sum == Wrapped(Sum(data, i, true))
    {
      WrapStep(Sum(data, i, true), Word(data, i, true));
      SwapParts(data[2 * i + 1], data[2 * i]);
      sum := Wrap32(sum + Swap(Pair(data[2 * i + 1], data[2 * i])));
      i := i + 1;
    }
    if |data| % 2 == 1 {
      WrapStep(Sum(data, i, true), Word(data, i, true));
      sum := Wrap32(sum + Pair(data[|data| - 1], 0));
    }
    var folded := Fold(sum);
    return Complement(folded);
  }

  /** A checksum loop of ping over bytes lo to hi - 1 of the packet. */
  method PingChecksum(packet: array<byte>, lo: nat, hi: nat) returns (r: uint16)
    requires lo <= hi <= packet.Length && (hi - lo) % 2 == 0
    ensures r == Complement(Ones(Wrapped(Total(packet[lo..hi], true))))
  {
    hide Ones, Wrapped;
    NoSum();
    ghost var d := packet[lo..hi];
    var i, sum := lo, 0 as uint32;
    ghost var n := 0;
    while i < hi
      invariant lo <= i <= hi && i == lo + 2 * n && sum == Wrapped(Sum(d, n, true))
    {
      WrapStep(Sum(d, n, true), Word(d, n, true));
      assert packet[i] == d[2 * n] && packet[i + 1] == d[2 * n + 1];
      sum := Wrap32(sum + Pair(packet[i], packet[i + 1]));
      i := i + 2;
      n := n + 1;
    }
    var folded := Fold(sum);
    return Complement(folded);
  }

  // ---------------------------------------------------------------- byte order does not matter

  /** htons and ntohs */
  function Swap(w: nat): (r: uint16)
    requires w < 0x1_0000
  {
    256 * (w % 256) + w / 256
  }

  /** The sum of the second bytes of the first n words. */
  function Seconds(d: seq<byte>, n: nat): nat {
    if n == 0 then 0 else Seconds(d, n - 1) + ByteAt(d, 2 * n - 1)
  }

  lemma {:induction false} SumsDiffer(d: seq<byte>, n: nat)
    ensures 256 * Sum(d, n, false) == Sum(d, n, true) + 0xFFFF * Seconds(d, n)
  {
    if n > 0 { SumsDiffer(d, n - 1); }
  }

  lemma {:induction false} BothZero(d: seq<byte>, n: nat)
    ensures Sum(d, n, true) == 0 <==> Sum(d, n, false) == 0
  {
    if n > 0 { BothZero(d, n - 1); }
  }

  lemma SwapIsShift(s: nat)
    requires s < 0x1_0000
    ensures Ones(256 * s) == Swap(s)
  {
    if s > 0 {
      assert 256 * s == Swap(s) + 0xFFFF * (s / 256);
      OnesShift(Swap(s), s / 256);
    }
  }

  lemma OnesQuotient(x: nat) returns (k: nat)
    ensures x == Ones(x) + 0xFFFF * k
  {
    k := if x == 0 then 0 else (x - 1) / 0xFFFF;
  }

  /** Section 2(B) of RFC 1071: the one's complement sums in the two byte orders are byte swaps of each
      other, for every message, of odd length too. */
  lemma ByteOrder(d: seq<byte>)
    ensures Ones(Total(d, true)) == Swap(Ones(Total(d, false)))
  {
    var n := Words(d);
    var be, le := Sum(d, n, true), Sum(d, n, false);
    BothZero(d, n);
    if le > 0 {
      SumsDiffer(d, n);
      OnesShift(be, Seconds(d, n));
      var k := OnesQuotient(le);
      hide Ones, Swap;
      assert 256 * le == 256 * Ones(le) + 0xFFFF * (256 * k);
      OnesPositive(le);
      OnesShift(256 * Ones(le), 256 * k);
      SwapIsShift(Ones(le));
    }
  }

  lemma OnesPositive(x: nat)
    ensures x > 0 <==> Ones(x) > 0
  {
  }

  // ---------------------------------------------------------------- how long a message may be

  /** Up to this many bytes the exact sum fits a uint32_t. */
  const SAFE_LENGTH := 131074

  lemma {:induction false} SumBound(d: seq<byte>, n: nat, big: bool)
    ensures Sum(d, n, big) <= 0xFFFF * n
  {
    if n > 0 { SumBound(d, n - 1, big); }
  }

  /** A message of 65537 words 0xFFFF, then 0x01 and zeros. */
  function Overflowing(n: nat): (d: seq<byte>)
    requires n > SAFE_LENGTH
    ensures |d| == n
  {
    seq(n, i => if i < 131074 then 255 else if i == 131074 then 1 else 0)
  }

  lemma {:induction false} OverflowingSum(n: nat, k: nat)
    requires n > SAFE_LENGTH && k <= Words(Overflowing(n))
    ensures Sum(Overflowing(n), k, false) == if k <= 65537 then 0xFFFF * k else 0x1_0000_0000
  {
    if k > 0 { OverflowingSum(n, k - 1); }
  }

  /** The uint32_t accumulator is good for all messages of a length exactly up to 131074 bytes. */
  lemma SafeLengths(n: nat)
    ensures n <= SAFE_LENGTH <==> forall d: seq<byte> | |d| == n :: Ones(Wrapped(Total(d, false))) == Ones(Total(d, false))
  {
    if n <= SAFE_LENGTH {
      forall d: seq<byte> | |d| == n ensures Ones(Wrapped(Total(d, false))) == Ones(Total(d, false)) {
        SumBound(d, Words(d), false);
      }
    } else {
      var d := Overflowing(n);
      OverflowingSum(n, Words(d));
      assert Total(d, false) == 0x1_0000_0000;
      assert Ones(Wrapped(Total(d, false))) == 0 && Ones(Total(d, false)) == 1;
    }
  }

  lemma FitsWord(d: seq<byte>, big: bool)
    requires |d| <= SAFE_LENGTH
    ensures Wrapped(Total(d, big)) == Total(d, big)
  {
    SumBound(d, Words(d), big);
  }

  /** Within that length the native checksum is the byte swap of the network-order one: stored in memory,
      both are the same two bytes. */
  lemma ChecksumsAgree(d: seq<byte>)
    requires |d| <= SAFE_LENGTH
    ensures Complement(Ones(Wrapped(Total(d, false)))) == Swap(Complement(Ones(Wrapped(Total(d, true)))))
  {
    hide Ones, Swap, Wrapped, Complement, Total;
    FitsWord(d, false);
    FitsWord(d, true);
    ByteOrder(d);
    SwapComplement(Ones(Total(d, true)));
    SwapTwice(Ones(Total(d, false)));
  }

  lemma SwapTwice(w: uint16)
    ensures Swap(Swap(w)) == w
  {
    SwapParts(w / 256, w % 256);
    SwapParts(w % 256, w / 256);
  }

  lemma SwapComplement(w: uint16)
    ensures Swap(Complement(w)) == Complement(Swap(w))
  {
    SwapParts(w / 256, w % 256);
    SwapParts(255 - w / 256, 255 - w % 256);
  }

  lemma SwapParts(a: byte, b: byte)
    ensures Swap(Pair(a, b)) == Pair(b, a)
  {
    assert Pair(a, b) / 256 == a && Pair(a, b) % 256 == b;
  }

  // ---------------------------------------------------------------- storing the checksum

  /** The message with word number f set to w, in the given byte order. */
  function Put(d: seq<byte>, f: nat, w: uint16, big: bool): (r: seq<byte>)
    requires 2 * f + 1 < |d|
    ensures |r| == |d|
  {
    if big then d[2 * f := w / 256][2 * f + 1 := w % 256] else d[2 * f := w % 256][2 * f + 1 := w / 256]
  }

  lemma {:induction false} SumPut(d: seq<byte>, f: nat, w: uint16, big: bool, n: nat)
    requires 2 * f + 1 < |d| && d[2 * f] == d[2 * f + 1] == 0
    ensures Sum(Put(d, f, w, big), n, big) == Sum(d, n, big) + if f < n then w else 0
  {
    if n > 0 { SumPut(d, f, w, big, n - 1); }
  }

  /** Section 1 of RFC 1071: with the checksum in its field, zero before, the whole message sums to 0xFFFF,
      and a receiver that computes the checksum of it all gets 0. */
  lemma StoredChecksum(d: seq<byte>, f: nat, big: bool)
    requires 2 * f + 1 < |d| <= SAFE_LENGTH && d[2 * f] == d[2 * f + 1] == 0
    ensures var d' := Put(d, f, Complement(Ones(Wrapped(Total(d, big)))), big);
            Ones(Total(d', big)) == 0xFFFF && Complement(Ones(Wrapped(Total(d', big)))) == 0
  {
    var t := Total(d, big);
    FitsWord(d, big);
    var c := Complement(Ones(t));
    var d' := Put(d, f, c, big);
    SumPut(d, f, c, big, Words(d));
    FitsWord(d', big);
    assert Total(d', big) == t + c;
    hide Total, Put, Wrapped;
    var k := OnesQuotient(t);
    OnesShift(0xFFFF, k);
  }

  lemma PutSwapped(d: seq<byte>, f: nat, w: uint16)
    requires 2 * f + 1 < |d|
    ensures Put(d, f, w, true) == Put(d, f, Swap(w), false)
  {
  }

  /** Both checksums give the same two bytes wherever they are stored, so either receiver accepts either
      sender's message. */
  lemma EitherReceiverAccepts(d: seq<byte>, f: nat)
    requires 2 * f + 1 < |d| <= SAFE_LENGTH && d[2 * f] == d[2 * f + 1] == 0
    ensures var d' := Put(d, f, Complement(Ones(Wrapped(Total(d, true)))), true);
            && d' == Put(d, f, Complement(Ones(Wrapped(Total(d, false)))), false)
            && Complement(Ones(Wrapped(Total(d', false)))) == 0
  {
    ChecksumsAgree(d);
    StoredChecksum(d, f, false);
    hide Total, Ones, Wrapped, Complement;
    PutSwapped(d, f, Complement(Ones(Wrapped(Total(d, true)))));
  }

  // ---------------------------------------------------------------- what the checksum detects

  /** What byte i of a message weighs in its word. */
  function Weight(i: nat, big: bool): nat {
    if (i % 2 == 0) == big then 256 else 1
  }

  lemma {:induction false} SumChanged(d: seq<byte>, i: nat, x: byte, n: nat, big: bool)
    requires i < |d|
    ensures Sum(d[i := x], n, big) == Sum(d, n, big) + if i / 2 < n then Weight(i, big) * (x - d[i]) else 0
  {
    if n > 0 {
      SumChanged(d, i, x, n - 1, big);
      assert i == 2 * (i / 2) + i % 2;
      if i / 2 == n - 1 { WordChanged(d, i, x, big); } else { WordSame(d, i, x, n - 1, big); }
    }
  }

  lemma WordChanged(d: seq<byte>, i: nat, x: byte, big: bool)
    requires i < |d|
    ensures Word(d[i := x], i / 2, big) == Word(d, i / 2, big) + Weight(i, big) * (x - d[i])
  {
    assert i == 2 * (i / 2) + i % 2;
  }

  lemma WordSame(d: seq<byte>, i: nat, x: byte, k: nat, big: bool)
    requires i < |d| && i / 2 != k
    ensures Word(d[i := x], k, big) == Word(d, k, big)
  {
  }

  /** Sums that differ by less than 2^16 - 1 have different one's complement sums. */
  lemma OnesDiffer(x: nat, y: nat)
    requires x < y < x + 0xFFFF
    ensures Ones(x) != Ones(y)
  {
    if x > 0 {
      var a: int, b: int := (x - 1) / 0xFFFF, (y - 1) / 0xFFFF;
      assert x - 1 == 0xFFFF * a + (x - 1) % 0xFFFF && y - 1 == 0xFFFF * b + (y - 1) % 0xFFFF;
    }
  }

  /** Every byte counts: a message with one byte changed, the odd last one too, has another checksum. */
  lemma OneByteIsDetected(d: seq<byte>, i: nat, x: byte, big: bool)
    requires i < |d| <= SAFE_LENGTH && x != d[i]
    ensures Complement(Ones(Wrapped(Total(d[i := x], big)))) != Complement(Ones(Wrapped(Total(d, big))))
  {
    var d' := d[i := x];
    FitsWord(d, big);
    FitsWord(d', big);
    SumChanged(d, i, x, Words(d), big);
    hide Ones, Wrapped, Sum;
    var t: int, t': int := Total(d, big), Total(d', big);
    assert i / 2 < Words(d);
    assert t' == t + Weight(i, big) * (x - d[i]);
    if t < t' { OnesDiffer(t, t'); } else { OnesDiffer(t', t); }
  }

  /** The example of section 3 of RFC 1071: in network order its words sum to 0xDDF2. */
  lemma RfcExample()
    ensures Ones(Total([0x00, 0x01, 0xF2, 0x03, 0xF4, 0xF5, 0xF6, 0xF7], true)) == 0xDDF2
  {
    var d: seq<byte> := [0x00, 0x01, 0xF2, 0x03, 0xF4, 0xF5, 0xF6, 0xF7];
    assert Sum(d, 1, true) == 0x0001;
    assert Sum(d, 2, true) == 0xF204;
    assert Sum(d, 3, true) == 0x1_E6F9;
    assert Sum(d, 4, true) == 0x2_DDF0;
  }

  // ---------------------------------------------------------------- packets

  /** The end of process_icmp: the checksum of the message in frame[lo..hi] goes to its bytes 2 and 3. */
  method SealIcmp(frame: array<byte>, lo: nat, hi: nat)
    requires lo + 4 <= hi <= frame.Length && hi - lo <= SAFE_LENGTH
    modifies frame
    ensures Ones(Total(frame[lo..hi], true)) == 0xFFFF
    ensures forall i | 0 <= i < frame.Length && i != lo + 2 && i != lo + 3 :: frame[i] == old(frame[i])
  {
    frame[lo + 2], frame[lo + 3] := 0, 0;
    ghost var d := frame[lo..hi];
    var c := IcmpChecksum(frame[lo..hi]);
    StoredChecksum(d, 1, true);
    frame[lo + 2], frame[lo + 3] := c / 256, c % 256;
    assert frame[lo..hi] == Put(d, 1, c, true);
  }

  /** The ICMP part of an echo reply, from offset 34 of the frame on. */
  method EchoReply(frame: array<byte>, id: (byte, byte), sequence: (byte, byte), data: seq<byte>)
    requires frame.Length == 1500 && 42 + |data| <= 1500
    modifies frame
    ensures Ones(Total(frame[34..42 + |data|], true)) == 0xFFFF
    ensures frame[34] == 0 && frame[35] == 0 && frame[38] == id.0 && frame[39] == id.1
    ensures frame[40] == sequence.0 && frame[41] == sequence.1 && frame[42..42 + |data|] == data
    ensures frame[..34] == old(frame[..34])
  {
    frame[34], frame[35] := 0, 0;
    frame[38], frame[39] := id.0, id.1;
    frame[40], frame[41] := sequence.0, sequence.1;
    var i := 0;
    while i < |data|
      invariant 0 <= i <= |data| && frame[42..42 + i] == data[..i]
      invariant frame[34] == 0 && frame[35] == 0 && frame[38] == id.0 && frame[39] == id.1
      invariant frame[40] == sequence.0 && frame[41] == sequence.1 && frame[..34] == old(frame[..34])
    {
      frame[42 + i] := data[i];
      i := i + 1;
    }
    ghost var before := frame[..];
    SealIcmp(frame, 34, 42 + |data|);
    assert frame[42..42 + |data|] == before[42..42 + |data|];
    assert frame[..34] == before[..34];
  }

  /** The two checksums of ping: over the IP header, stored at 24, and over the ICMP message, stored at 36. */
  method SealPing(packet: array<byte>)
    requires packet.Length == 98 && packet[24] == packet[25] == packet[36] == packet[37] == 0
    modifies packet
    ensures Ones(Total(packet[14..34], true)) == 0xFFFF && Ones(Total(packet[34..98], true)) == 0xFFFF
    ensures forall i | 0 <= i < 98 && i !in {24, 25, 36, 37} :: packet[i] == old(packet[i])
  {
    ghost var header, message := packet[14..34], packet[34..98];
    var c := PingChecksum(packet, 14, 34);
    StoredChecksum(header, 5, true);
    packet[24], packet[25] := c / 256, c % 256;
    assert packet[14..34] == Put(header, 5, c, true);
    assert packet[34..98] == message;
    ghost var sealed_ := packet[14..34];
    c := PingChecksum(packet, 34, 98);
    StoredChecksum(message, 1, true);
    packet[36], packet[37] := c / 256, c % 256;
    assert packet[34..98] == Put(message, 1, c, true);
    assert packet[14..34] == sealed_;
  }
}
