/**
 * The reader's `decode` helper: byte-order-mark sniffing for UTF-16 and a
 * manual pairwise byte swap for big-endian UTF-16, on top of Node's own
 * codecs. Node's codecs are not modelled: a `Text` value stands for the
 * string Node produces from the given bytes with the given codec.
 */
module TextDecoder {
  import opened NodeBuffer

  /** Node's own `Buffer.toString` codecs, left uninterpreted. */
  datatype Codec = AsciiCodec | Utf8Codec | Utf16LeCodec | HexCodec

  /** The string Node gets by decoding `bytes` with `codec`. Every codec
      turns zero bytes into the empty string. */
  datatype Text = Text(codec: Codec, bytes: seq<byte>)
  {
    predicate IsEmpty() { |bytes| == 0 }
  }

  /** The encoding names passed to `decode`. `Utf16` means "sniff the
      byte-order mark". */
  datatype Encoding = Ascii | Utf8 | Utf16 | Utf16Be | Utf16Le

  /** Swap every pair of bytes; an odd trailing byte is dropped. */
  function SwappedPairs(buf: seq<byte>): (r: seq<byte>)
    ensures |r| <= |buf|
    decreases |buf|
  {
    if |buf| < 2 then [] else [buf[1], buf[0]] + SwappedPairs(buf[2..])
  }

  lemma {:induction false} SwappedPairsLength(buf: seq<byte>)
    ensures |SwappedPairs(buf)| == 2 * (|buf| / 2)
    decreases |buf|
  {
    if |buf| >= 2 {
      SwappedPairsLength(buf[2..]);
    }
  }

  /** Big-endian decoding of n bytes yields 2*floor(n/2) bytes, each pair
      swapped. */
  lemma {:induction false} SwappedPairsAt(buf: seq<byte>, k: nat)
    requires k < |buf| / 2
    ensures |SwappedPairs(buf)| == 2 * (|buf| / 2)
    ensures SwappedPairs(buf)[2 * k] == buf[2 * k + 1]
    ensures SwappedPairs(buf)[2 * k + 1] == buf[2 * k]
  {
    SwappedPairsLength(buf);
    if k > 0 {
      SwappedPairsAt(buf[2..], k - 1);
    }
  }

  /** Swapping twice gives back the even-length prefix. */
  lemma {:induction false} SwappedPairsInvolution(buf: seq<byte>)
    ensures SwappedPairs(SwappedPairs(buf)) == buf[..2 * (|buf| / 2)]
    decreases |buf|
  {
    if |buf| >= 2 {
      var rest := SwappedPairs(buf[2..]);
      SwappedPairsInvolution(buf[2..]);
      assert ([buf[1], buf[0]] + rest)[2..] == rest;
      assert buf[..2 * (|buf| / 2)] == buf[..2] + buf[2..][..2 * (|buf[2..]| / 2)];
    }
  }

  function NativeCodec(enc: Encoding): (c: Codec)
  {
    match enc
    case Utf8 => Utf8Codec
    case Utf16Le => Utf16LeCodec
    case _ => AsciiCodec
  }

  predicate StartsWithPair(buf: seq<byte>, b0: byte, b1: byte)
  {
    |buf| >= 2 && buf[0] == b0 && buf[1] == b1
  }

  /** Big-endian UTF-16: swap into little-endian order and let Node's
      `utf16le` codec read the swapped bytes. */
  function DecodeUtf16Be(buf: seq<byte>): (t: Text)
  {
    if |buf| == 0 then Text(Utf16LeCodec, []) else Text(Utf16LeCodec, SwappedPairs(buf))
  }

  /** `decode(buf, encoding)`. */
  function Decode(buf: seq<byte>, enc: Encoding): (t: Text)
    ensures buf == [] ==> t.IsEmpty()
  {
    if enc == Utf16 then
      if StartsWithPair(buf, 0xFE, 0xFF) then DecodeUtf16Be(buf[2..])
      else if StartsWithPair(buf, 0xFF, 0xFE) then Text(Utf16LeCodec, buf[2..])
      else DecodeUtf16Be(buf)
    else if enc == Utf16Be then DecodeUtf16Be(buf)
    else Text(NativeCodec(enc), buf)
  }

  /** `decode` as the source runs it: the encoding and the buffer are
      re-assigned by the byte-order-mark check, then a loop fills a fresh
      buffer with swapped pairs. */
  method DecodeBuffer(buf: seq<byte>, encoding: Encoding) returns (t: Text)
    ensures t == Decode(buf, encoding)
  {
    var b, enc := buf, encoding;
    if enc == Utf16 {
      if StartsWithPair(b, 0xFE, 0xFF) {
        enc, b := Utf16Be, b[2..];
      } else if StartsWithPair(b, 0xFF, 0xFE) {
        enc, b := Utf16Le, b[2..];
      } else {
        enc := Utf16Be;
      }
    }
    if enc != Utf16Be {
      return Text(NativeCodec(enc), b);
    }
    if |b| == 0 {
      return Text(Utf16LeCodec, []);
    }
    var res := new byte[|b|];
    var i := 0;
    while i < |b| - 1
      invariant 0 <= i <= 2 * (|b| / 2) && i % 2 == 0
      invariant forall k :: 0 <= k < i / 2 ==> res[2 * k] == b[2 * k + 1] && res[2 * k + 1] == b[2 * k]
    {
      res[i] := b[i + 1];
      res[i + 1] := b[i];
      i := i + 2;
    }
    assert i == 2 * (|b| / 2);
    SwappedPairsLength(b);
    forall j | 0 <= j < i
      ensures res[..i][j] == SwappedPairs(b)[j]
    {
      SwappedPairsAt(b, j / 2);
      assert j == 2 * (j / 2) || j == 2 * (j / 2) + 1;
    }
    assert res[..i] == SwappedPairs(b);
    t := Text(Utf16LeCodec, res[..i]);
  }

  /** A UTF-16 string written big-endian after the mark FE FF, or
      little-endian after the mark FF FE, decodes to the same string in
      both cases. */
  lemma Utf16MarksAgree(le: seq<byte>)
    requires |le| % 2 == 0
    ensures Decode([0xFE, 0xFF] + SwappedPairs(le), Utf16) == Text(Utf16LeCodec, le)
    ensures Decode([0xFF, 0xFE] + le, Utf16) == Text(Utf16LeCodec, le)
  {
    var be := [0xFE, 0xFF] + SwappedPairs(le);
    assert be[2..] == SwappedPairs(le);
    SwappedPairsInvolution(le);
    assert le[..2 * (|le| / 2)] == le;
    assert ([0xFF, 0xFE] + le)[2..] == le;
  }

  /** Without a byte-order mark, `utf16` is read as big-endian and nothing
      is stripped. */
  lemma Utf16WithoutMarkIsBigEndian(buf: seq<byte>)
    requires !StartsWithPair(buf, 0xFE, 0xFF) && !StartsWithPair(buf, 0xFF, 0xFE)
    ensures Decode(buf, Utf16) == Decode(buf, Utf16Be)
    ensures Decode(buf, Utf16).bytes == SwappedPairs(buf)
  {
  }
}
