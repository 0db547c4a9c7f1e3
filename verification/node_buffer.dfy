/**
 * The parts of Node's `Buffer` that the tag reader relies on, written out
 * explicitly: `slice` with negative and out-of-range offsets, `indexOf`
 * returning -1, `readUIntBE`, and the `'ascii'` codec, which clears bit 7
 * of every byte.
 */
module NodeBuffer {
  import opened Wrappers

  type byte = x: int | 0 <= x < 256

  /** How `Buffer.slice` normalises an offset: negative counts from the
      end, and everything is clamped into [0, n]. */
  function Clamp(i: int, n: nat): (r: nat)
    ensures r <= n
    ensures 0 <= i <= n ==> r == i
    ensures i > n ==> r == n
    ensures i < 0 ==> r == if i + n < 0 then 0 else i + n
  {
    if i < 0 then (if i + n < 0 then 0 else i + n)
    else if i > n then n
    else i
  }

  /** `buf.slice(start, end)`. */
  function Slice(buf: seq<byte>, start: int, end: int): (r: seq<byte>)
    ensures |r| <= |buf|
    ensures 0 <= start <= end <= |buf| ==> r == buf[start..end]
    ensures 0 <= start && |buf| <= start ==> r == []
    ensures end <= start && 0 <= end ==> r == []
    ensures 0 <= start <= |buf| < end ==> r == buf[start..]
    ensures 0 <= start && -|buf| <= end < 0 ==>
              r == if start <= |buf| + end then buf[start..|buf| + end] else []
    ensures -|buf| <= start < 0 && |buf| <= end ==> r == buf[|buf| + start..]
  {
    var s := Clamp(start, |buf|);
    var e := Clamp(end, |buf|);
    if s <= e then buf[s..e] else []
  }

  /** `buf.slice(start)`. */
  function SliceFrom(buf: seq<byte>, start: int): (r: seq<byte>)
    ensures 0 <= start <= |buf| ==> r == buf[start..]
    ensures start < 0 ==> r == buf[Clamp(start, |buf|)..]
  {
    Slice(buf, start, |buf|)
  }

  predicate OccursAt(buf: seq<byte>, needle: seq<byte>, i: nat)
  {
    i + |needle| <= |buf| && buf[i..i + |needle|] == needle
  }

  /** `buf.indexOf(needle, from)`: the first position at or after `from`
      where all of `needle` fits and matches, or -1. Any byte offset is
      tried, with no alignment. `IndexOfIsFirst` states that the position
      is the first one and that -1 means there is none. */
  function IndexOf(buf: seq<byte>, needle: seq<byte>, from: nat): (r: int)
    requires |needle| > 0
    ensures -1 <= r < |buf|
    ensures r >= 0 ==> from <= r && OccursAt(buf, needle, r)
    decreases |buf| - from
  {
    if from + |needle| > |buf| then -1
    else if OccursAt(buf, needle, from) then from
    else IndexOf(buf, needle, from + 1)
  }

  lemma {:induction false} IndexOfIsFirst(buf: seq<byte>, needle: seq<byte>, from: nat)
    requires |needle| > 0
    ensures var r := IndexOf(buf, needle, from);
      && (r >= 0 ==> forall j :: from <= j < r ==> !OccursAt(buf, needle, j))
      && (r == -1 <==> forall j :: from <= j ==> !OccursAt(buf, needle, j))
    decreases |buf| - from
  {
    if from + |needle| <= |buf| && !OccursAt(buf, needle, from) {
      IndexOfIsFirst(buf, needle, from + 1);
    }
  }

  /** `indexOf` finds `at` when the needle occurs there and nowhere
      between `from` and `at`. */
  lemma IndexOfFinds(buf: seq<byte>, needle: seq<byte>, from: nat, at: nat)
    requires |needle| > 0 && from <= at && OccursAt(buf, needle, at)
    requires forall j :: from <= j < at ==> !OccursAt(buf, needle, j)
    ensures IndexOf(buf, needle, from) == at
  {
    IndexOfIsFirst(buf, needle, from);
  }

  /** The unsigned big-endian value of `bytes`, as `readUIntBE` and
      `parseInt(hex, 16)` compute it. */
  function BigEndian(bytes: seq<byte>): (r: nat)
  {
    if bytes == [] then 0 else BigEndian(bytes[..|bytes| - 1]) * 256 + bytes[|bytes| - 1]
  }

  function Pow256(n: nat): (r: nat)
    ensures r > 0
  {
    if n == 0 then 1 else 256 * Pow256(n - 1)
  }

  lemma {:induction false} BigEndianBound(bytes: seq<byte>)
    ensures BigEndian(bytes) < Pow256(|bytes|)
  {
    if bytes != [] {
      var init := bytes[..|bytes| - 1];
      BigEndianBound(init);
      assert BigEndian(bytes) == BigEndian(init) * 256 + bytes[|bytes| - 1];
      assert BigEndian(init) + 1 <= Pow256(|init|);
    }
  }

  /** The four bytes of `n` most significant first: the inverse of
      `BigEndian` on 32-bit values. */
  function BigEndian32(n: nat): (r: seq<byte>)
    requires n < 0x1_0000_0000
    ensures |r| == 4
  {
    var n1 := n / 256;
    var n2 := n1 / 256;
    [n2 / 256, n2 % 256, n1 % 256, n % 256]
  }

  /** `readUIntBE(0, 4)` written out. */
  lemma BigEndianOfFour(bytes: seq<byte>)
    requires |bytes| == 4
    ensures BigEndian(bytes) == ((bytes[0] as int * 256 + bytes[1]) * 256 + bytes[2]) * 256 + bytes[3]
  {
    assert bytes[..3][..2][..1][..0] == [];
    assert bytes[..3][..2] == bytes[..2];
    assert bytes[..3][..2][..1] == bytes[..1];
    assert BigEndian(bytes[..1]) == bytes[0];
    assert BigEndian(bytes[..2]) == bytes[0] as int * 256 + bytes[1];
    assert BigEndian(bytes[..3]) == (bytes[0] as int * 256 + bytes[1]) * 256 + bytes[2];
  }

  lemma BigEndian32RoundTrip(n: nat)
    requires n < 0x1_0000_0000
    ensures BigEndian(BigEndian32(n)) == n
  {
    BigEndianOfFour(BigEndian32(n));
    var n1 := n / 256;
    var n2 := n1 / 256;
    assert n2 == n2 / 256 * 256 + n2 % 256;
    assert n1 == n2 * 256 + n1 % 256;
    assert n == n1 * 256 + n % 256;
  }

  /** `'ascii'` decoding of one byte: bit 7 is cleared. */
  function AsciiChar(b: byte): (c: char)
    ensures c as int == b % 128
  {
    (b % 128) as char
  }

  /** `buf.toString('ascii')`. */
  function AsciiString(buf: seq<byte>): (s: string)
    ensures |s| == |buf|
    ensures forall i :: 0 <= i < |buf| ==> s[i] as int == buf[i] % 128
  {
    seq(|buf|, i requires 0 <= i < |buf| => AsciiChar(buf[i]))
  }
}
