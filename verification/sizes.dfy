/**
 * The size fields of an ID3v2 tag: the tag size in the 10-byte header
 * (section 3.1 of the ID3v2.4 structure document) and the declared size
 * of each frame, which is sync-safe in version 2.4
 * (section 6.2 of the ID3v2.4 structure document) and a plain 32-bit
 * big-endian number in version 2.3.
 */
module Sizes {
  import opened Wrappers
  import opened NodeBuffer

  /** The tag size from header bytes 6..9, seven bits per byte. Bit 7 of
      each byte is not masked off. */
  function TagSize(header: seq<byte>): (r: nat)
    requires |header| >= 10
    ensures r < 0x4000_0000
  {
    header[6] as int * 0x20_0000 + header[7] as int * 0x4000 + header[8] as int * 0x80 + header[9] as int
  }

  /** The four sync-safe bytes that encode `n`, most significant first. */
  function SyncSafeBytes(n: nat): (r: seq<byte>)
    requires n < 0x1000_0000
    ensures |r| == 4 && forall i :: 0 <= i < 4 ==> r[i] < 0x80
  {
    [n / 0x20_0000, (n / 0x4000) % 0x80, (n / 0x80) % 0x80, n % 0x80]
  }

  /** Writing a 28-bit size sync-safe into header bytes 6..9 and reading
      the tag size back gives the size. */
  lemma TagSizeRoundTrip(header: seq<byte>, n: nat)
    requires |header| >= 10 && n < 0x1000_0000
    requires header[6..10] == SyncSafeBytes(n)
    ensures TagSize(header) == n
  {
    var a, b, c, d := n / 0x20_0000, (n / 0x4000) % 0x80, (n / 0x80) % 0x80, n % 0x80;
    assert header[6] == a && header[7] == b && header[8] == c && header[9] == d;
    var q1 := n / 0x80;
    var q2 := q1 / 0x80;
    assert n == q1 * 0x80 + d;
    assert q1 == q2 * 0x80 + c;
    assert n / 0x4000 == q2 by {
      assert n == q2 * 0x4000 + (c * 0x80 + d);
    }
    assert q2 == (q2 / 0x80) * 0x80 + b;
    assert n / 0x20_0000 == q2 / 0x80 by {
      assert n == (q2 / 0x80) * 0x20_0000 + (b * 0x4000 + c * 0x80 + d);
    }
  }

  /** Because bit 7 is not masked, two different headers can declare the
      same size: 00 00 80 00 reads as 00 01 00 00. */
  lemma TagSizeUnmaskedCollision()
    ensures TagSize([0x49, 0x44, 0x33, 4, 0, 0, 0, 0, 0x80, 0]) == 0x4000
    ensures TagSize([0x49, 0x44, 0x33, 4, 0, 0, 0, 1, 0, 0]) == 0x4000
  {
  }

  /** `syncSafeIntToInt`: the masks 0x7F and 0x7F00 keep only the low
      seven bits of the two low bytes. */
  function SyncSafeIntToInt(x: nat): (r: nat)
    requires x < 0x1_0000_0000
    ensures r < 0x4000
    ensures r == 0x80 * ((x / 0x100) % 0x80) + x % 0x80
  {
    SyncSafeMasks(x);
    x % 0x80 + (x % 0x8000 - x % 0x100) / 2
  }

  /** `x & 0x7F00` is the value of bits 8..14 of `x`. */
  lemma SyncSafeMasks(x: nat)
    ensures x % 0x8000 - x % 0x100 == 0x100 * ((x / 0x100) % 0x80)
  {
    var q := x / 0x100;
    var r := x % 0x100;
    assert x == 0x100 * q + r;
    var qq := q / 0x80;
    var qr := q % 0x80;
    assert q == 0x80 * qq + qr;
    assert x == 0x8000 * qq + (0x100 * qr + r);
    LowFifteenBits(x, qq, 0x100 * qr + r);
  }

  lemma LowFifteenBits(x: nat, high: nat, low: nat)
    requires x == 0x8000 * high + low && low < 0x8000
    ensures x % 0x8000 == low
  {
  }

  /** Of the four size bytes of a frame header, only the last two count
      in the sync-safe reading. */
  lemma SyncSafeFrameSize(size: seq<byte>)
    requires |size| == 4
    ensures BigEndian(size) < 0x1_0000_0000
    ensures SyncSafeIntToInt(BigEndian(size)) == 0x80 * (size[2] as int % 0x80) + size[3] as int % 0x80
  {
    BigEndianBound(size);
    BigEndianOfFour(size);
    var x := BigEndian(size);
    var p := size[0] as int * 256 + size[1];
    var q := p * 256 + size[2];
    assert x == q * 256 + size[3];
    LowByte(x, q, size[3]);
    SevenBits(x, q * 2, size[3]);
    SevenBits(q, p * 2, size[2]);
    assert SyncSafeIntToInt(x) == 0x80 * ((x / 0x100) % 0x80) + x % 0x80;
  }

  lemma LowByte(x: nat, q: nat, r: byte)
    requires x == q * 256 + r
    ensures x / 0x100 == q && x % 0x100 == r
  {
  }

  lemma SevenBits(x: nat, k: nat, b: nat)
    requires x == k * 0x80 + b
    ensures x % 0x80 == b % 0x80
  {
  }

  /** The declared payload length of the frame whose id starts at `i` in
      `buf`: a plain big-endian number for version 3 (where hex of no
      bytes parses to NaN, which then acts as 0), the sync-safe reading
      otherwise, where fewer than four size bytes make `readUIntBE` throw
      a RangeError. */
  function FrameSize(majorVersion: byte, buf: seq<byte>, i: nat): (r: Option<nat>)
    requires i + 4 <= |buf|
    ensures majorVersion == 3 && i + 8 <= |buf| ==> r == Some(BigEndian(buf[i + 4..i + 8]))
    ensures majorVersion == 3 && i + 8 > |buf| ==> r == Some(BigEndian(buf[i + 4..]))
    ensures majorVersion != 3 && i + 8 <= |buf| ==> r.Some? && r.value < 0x4000
    ensures majorVersion != 3 && i + 8 <= |buf| ==> r.value == 0x80 * (buf[i + 6] as int % 0x80) + buf[i + 7] as int % 0x80
    ensures r.None? <==> majorVersion != 3 && i + 8 > |buf|
  {
    if majorVersion == 3 then
      if i + 8 <= |buf| then Some(BigEndian(buf[i + 4..i + 8])) else Some(BigEndian(buf[i + 4..]))
    else if i + 8 > |buf| then None
    else
      SyncSafeFrameSize(buf[i + 4..i + 8]);
      Some(SyncSafeIntToInt(BigEndian(buf[i + 4..i + 8])))
  }
}
