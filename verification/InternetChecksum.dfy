/**
 The checksum of kernel/net/network.c: 16-bit words loaded in the machine's little-endian order, summed
 in 32 bits, folded, complemented, and stored natively.  RFC 1071 defines it on big-endian words; section
 2(B) of that RFC claims that byte order does not matter, which is proved here.
 */
module InternetChecksum {
  import opened Basics

  // ---------------------------------------------------------------- sums

  /** What the code adds up: little-endian words, and a trailing odd byte as it is. */
  function SumLittle(b: seq<byte>): nat {
    if |b| == 0 then 0
    else if |b| == 1 then b[0]
    else b[0] as nat + 256 * (b[1] as nat) + SumLittle(b[2..])
  }

  /** What RFC 1071 adds up: big-endian words, and a trailing odd byte padded with a zero byte. */
  function SumBig(b: seq<byte>): nat {
    if |b| == 0 then 0
    else if |b| == 1 then 256 * (b[0] as nat)
    else 256 * (b[0] as nat) + b[1] as nat + SumBig(b[2..])
  }

  /** The sum of the bytes at even positions. */
  function Evens(b: seq<byte>): nat {
    if |b| == 0 then 0 else if |b| == 1 then b[0] else b[0] as nat + Evens(b[2..])
  }

  /** The end-around-carry loop. */
  function Fold(sum: nat): (r: nat)
    ensures r < 0x1_0000
    decreases sum
  {
    if sum / 0x1_0000 == 0 then sum else Fold(sum % 0x1_0000 + sum / 0x1_0000)
  }

  function Checksum(b: seq<byte>): uint16 {
    0xFFFF - Fold(SumLittle(b))
  }

  /** The value RFC 1071 defines. */
  function RfcChecksum(b: seq<byte>): uint16 {
    0xFFFF - Fold(SumBig(b))
  }

  function Swap(v: uint16): uint16 {
    v % 256 * 256 + v / 256
  }

  // ---------------------------------------------------------------- folding is reduction modulo 65535

  /** Folding subtracts a multiple of 65535 and reaches zero only from zero. */
  lemma {:induction false} FoldIsResidue(sum: nat) returns (k: nat)
    ensures sum == Fold(sum) + 0xFFFF * k
    ensures Fold(sum) == 0 <==> sum == 0
    decreases sum
  {
    if sum / 0x1_0000 == 0 {
      k := 0;
    } else {
      var j := FoldIsResidue(sum % 0x1_0000 + sum / 0x1_0000);
      k := j + sum / 0x1_0000;
    }
  }

  /** Folding is determined by the residue modulo 65535 and by being zero or not. */
  lemma FoldIsCanonical(sum: nat, r: nat, k: int)
    requires r < 0x1_0000 && sum == r + 0xFFFF * k && (r == 0 <==> sum == 0)
    ensures Fold(sum) == r
  {
    var j := FoldIsResidue(sum);
    assert Fold(sum) - r == 0xFFFF * (k - j);
  }

  /** The 32-bit accumulator cannot overflow for any 16-bit length. */
  lemma {:induction false} SumFitsIn32Bits(b: seq<byte>)
    ensures SumLittle(b) <= 0xFFFF * ((|b| + 1) / 2)
    ensures |b| < 0x1_0000 ==> SumLittle(b) < 0x1_0000_0000
    decreases |b|
  {
    if |b| > 1 {
      SumFitsIn32Bits(b[2..]);
    }
  }

  // ---------------------------------------------------------------- byte order

  lemma {:induction false} BigIsShiftedLittle(b: seq<byte>)
    ensures 256 * SumBig(b) == SumLittle(b) + 0xFFFF * Evens(b)
    ensures SumBig(b) == 0 <==> SumLittle(b) == 0
    decreases |b|
  {
    if |b| > 1 {
      BigIsShiftedLittle(b[2..]);
    }
  }

  /** Folding little-endian words gives the byte swap of folding big-endian words, for every length. */
  lemma ByteOrderIndependence(b: seq<byte>)
    ensures Fold(SumLittle(b)) == Swap(Fold(SumBig(b)))
  {
    var big, little := SumBig(b), SumLittle(b);
    BigIsShiftedLittle(b);
    var k := FoldIsResidue(big);
    var f := Fold(big);
    SwapIsTimes256(f);
    FoldIsCanonical(little, Swap(f), 256 * k + f / 256 - Evens(b));
  }

  lemma SwapIsTimes256(v: uint16)
    ensures 256 * v == Swap(v) + 0xFFFF * (v / 256)
    ensures Swap(v) == 0 <==> v == 0
  {
  }

  /** Storing the native result in little-endian order puts the RFC value on the wire in network order. */
  lemma NativeStoreIsRfcValue(b: seq<byte>)
    ensures Checksum(b) % 256 == RfcChecksum(b) / 256 && Checksum(b) / 256 == RfcChecksum(b) % 256
  {
    ByteOrderIndependence(b);
    ComplementSwaps(Fold(SumBig(b)));
  }

  lemma ComplementSwaps(v: uint16)
    ensures (0xFFFF - Swap(v)) % 256 == (0xFFFF - v) / 256 && (0xFFFF - Swap(v)) / 256 == (0xFFFF - v) % 256
  {
    var h, l := v / 256, v % 256;
    TwoDigits(255 - h, 255 - l);
    TwoDigits(255 - l, 255 - h);
  }

  lemma TwoDigits(h: nat, l: nat)
    requires h < 256 && l < 256
    ensures (256 * h + l) / 256 == h && (256 * h + l) % 256 == l
  {
  }

  // ---------------------------------------------------------------- filled messages verify

  /** The message with its checksum stored natively at k. */
  function Fill(m: seq<byte>, k: nat): (r: seq<byte>)
    requires k + 1 < |m|
    ensures |r| == |m| && forall i :: 0 <= i < |m| && i != k && i != k + 1 ==> r[i] == m[i]
  {
    var c := Checksum(m);
    m[k := c % 256][k + 1 := c / 256]
  }

  lemma {:induction false} SumOfUpdate(m: seq<byte>, k: nat, lo: byte, hi: byte)
    requires k % 2 == 0 && k + 1 < |m| && m[k] == 0 && m[k + 1] == 0
    ensures SumLittle(m[k := lo][k + 1 := hi]) == SumLittle(m) + lo as nat + 256 * (hi as nat)
    decreases k
  {
    var r := m[k := lo][k + 1 := hi];
    if k == 0 {
      assert r[2..] == m[2..];
    } else {
      SumOfUpdate(m[2..], k - 2, lo, hi);
      assert r[2..] == m[2..][k - 2 := lo][k - 1 := hi];
    }
  }

  /** A message whose zeroed checksum field is filled with the result checks to zero. */
  lemma FilledMessageVerifies(m: seq<byte>, k: nat)
    requires k % 2 == 0 && k + 1 < |m| && m[k] == 0 && m[k + 1] == 0
    ensures Checksum(Fill(m, k)) == 0 && RfcChecksum(Fill(m, k)) == 0
  {
    var c := Checksum(m);
    SumOfUpdate(m, k, c % 256, c / 256);
    var s := SumLittle(m);
    var j := FoldIsResidue(s);
    FoldIsCanonical(s + c, 0xFFFF, j);
    NativeStoreIsRfcValue(Fill(m, k));
  }

  /** A field value makes the message check to zero exactly when it equals the checksum modulo 65535. */
  lemma OnlyTheChecksumVerifies(m: seq<byte>, k: nat, v: uint16)
    requires k % 2 == 0 && k + 1 < |m| && m[k] == 0 && m[k + 1] == 0
    ensures Checksum(m[k := v % 256][k + 1 := v / 256]) == 0
            <==> SumLittle(m) + v > 0 && v % 0xFFFF == Checksum(m) % 0xFFFF
  {
    SumOfUpdate(m, k, v % 256, v / 256);
    var s := SumLittle(m);
    var j := FoldIsResidue(s);
    FoldIsAllOnesIff(s + v);
    Multiples(Fold(s) + v, j);
    Complementary(Fold(s), v);
  }

  lemma FoldIsAllOnesIff(sum: nat)
    ensures Fold(sum) == 0xFFFF <==> sum > 0 && sum % 0xFFFF == 0
  {
    var k := FoldIsResidue(sum);
    Multiples(Fold(sum), k);
  }

  lemma Multiples(x: nat, k: nat)
    ensures (x + 0xFFFF * k) % 0xFFFF == x % 0xFFFF
  {
  }

  lemma Complementary(f: uint16, v: uint16)
    ensures (f + v) % 0xFFFF == 0 <==> v % 0xFFFF == (0xFFFF - f) % 0xFFFF
  {
  }

  // ---------------------------------------------------------------- the code

  /** checksum(addr, len) on the len bytes at addr; sum stays a 32-bit value throughout. */
  method ComputeChecksum(data: seq<byte>) returns (r: uint16)
    requires |data| < 0x1_0000
    ensures r == Checksum(data)
  {
    SumFitsIn32Bits(data);
    var sum: uint32 := 0;
    var i := 0;
    while i < |data| / 2
      invariant 0 <= i <= |data| / 2
      invariant sum + SumLittle(data[2 * i..]) == SumLittle(data)
    {
      assert data[2 * i..][2..] == data[2 * (i + 1)..];
      sum := sum + data[2 * i] + 256 * (data[2 * i + 1] as nat);
      i := i + 1;
    }
    if |data| % 2 == 1 {
      sum := sum + data[|data| - 1];
    }
    while sum / 0x1_0000 != 0
      invariant Fold(sum) == Fold(SumLittle(data))
      decreases sum
    {
      sum := sum % 0x1_0000 + sum / 0x1_0000;
    }
    return 0xFFFF - sum;
  }
}
