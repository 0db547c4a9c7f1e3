/**
 * The frame decoder of the older build (`lib/index.js`, exported as
 * `streamTag`). It differs from the current one in four ways: `decode`
 * does no byte-order-mark sniffing; `parseFrameEncoding` sniffs the mark
 * itself and returns the offset where the text starts; every field ends
 * at a single zero byte whatever the encoding; and there are no USLT or
 * SYLT branches. The handler's state machine is the same code and is
 * `TagStream` run with `LegacyFormat`.
 */
module LegacyFrames {
  import opened Wrappers
  import opened NodeBuffer
  import opened TextDecoder
  import opened Collect
  import opened TagStream
  import Id3Frames

  /** The old `decode`: `utf16be` swaps pairs by hand, everything else is
      Node's own codec. The old code only ever passes `ascii`, `utf8`,
      `utf16le` and `utf16be`. For those it agrees with the current
      `decode`. */
  function LegacyDecode(buf: seq<byte>, enc: Encoding): (t: Text)
    requires enc != Utf16
    ensures t == Decode(buf, enc)
  {
    if enc == Utf16Be then Text(Utf16LeCodec, SwappedPairs(buf)) else Text(NativeCodec(enc), buf)
  }

  /** A leading FE FF is not a mark to the old `decode`: it is swapped
      along with everything else. */
  lemma LegacyDecodeKeepsMark(rest: seq<byte>)
    ensures LegacyDecode([0xFE, 0xFF] + rest, Utf16Be) == Text(Utf16LeCodec, [0xFF, 0xFE] + SwappedPairs(rest))
  {
    assert ([0xFE, 0xFF] + rest)[2..] == rest;
  }

  /** The encoding and the offset where the first field starts. */
  datatype LegacyEncoding = LegacyEncoding(encoding: Encoding, offset: nat)

  /** `parseFrameEncoding` of the old build. With encoding byte 1 it looks
      at bytes 1 and 2 for the mark FE FF and skips three bytes, whatever
      bytes 1 and 2 are; with an unknown encoding byte the fields start at
      byte 0, so the encoding byte becomes part of the first field. */
  function ParseFrameEncoding(frame: seq<byte>): (r: LegacyEncoding)
    ensures r.encoding != Utf16
    ensures r.offset == 1 <==> |frame| > 0 && (frame[0] == 0 || frame[0] == 2 || frame[0] == 3)
    ensures r.offset == 3 <==> |frame| > 0 && frame[0] == 1
    ensures r.offset == 0 <==> |frame| == 0 || frame[0] > 3
    ensures r.encoding == Ascii <==> |frame| == 0 || frame[0] == 0 || frame[0] > 3
    ensures r.encoding == Utf8 <==> |frame| > 0 && frame[0] == 3
    ensures r.encoding == Utf16Le <==> |frame| > 0 && frame[0] == 1 && !StartsWithPair(frame[1..], 0xFE, 0xFF)
    ensures r.encoding == Utf16Be
            <==> |frame| > 0 && (frame[0] == 2 || (frame[0] == 1 && StartsWithPair(frame[1..], 0xFE, 0xFF)))
  {
    if |frame| > 0 && frame[0] == 0 then LegacyEncoding(Ascii, 1)
    else if |frame| > 0 && frame[0] == 1 then
      if |frame| >= 3 && frame[1] == 0xFE && frame[2] == 0xFF then LegacyEncoding(Utf16Be, 3)
      else LegacyEncoding(Utf16Le, 3)
    else if |frame| > 0 && frame[0] == 2 then LegacyEncoding(Utf16Be, 1)
    else if |frame| > 0 && frame[0] == 3 then LegacyEncoding(Utf8, 1)
    else LegacyEncoding(Ascii, 0)
  }

  /** With a byte-order mark after encoding byte 1, the old build reads
      the text as the current one does; without one the two differ (the
      old build drops two bytes and reads little-endian, the current one
      drops nothing and reads big-endian). */
  lemma MarkedUtf16Agrees(frame: seq<byte>)
    requires |frame| > 0 && frame[0] == 1
    requires StartsWithPair(frame[1..], 0xFE, 0xFF) || StartsWithPair(frame[1..], 0xFF, 0xFE)
    ensures var le := ParseFrameEncoding(frame);
      LegacyDecode(SliceFrom(frame, le.offset), le.encoding) == Decode(frame[1..], Utf16)
  {
    assert SliceFrom(frame, 3) == frame[1..][2..];
  }

  lemma UnmarkedUtf16Differs()
    ensures var frame: seq<byte> := [1, 0x41, 0x00, 0x42, 0x00];
      && LegacyDecode(SliceFrom(frame, ParseFrameEncoding(frame).offset), ParseFrameEncoding(frame).encoding)
         == Text(Utf16LeCodec, [0x42, 0x00])
      && Decode(frame[1..], Utf16) == Text(Utf16LeCodec, [0x00, 0x41, 0x00, 0x42])
  {
    var frame: seq<byte> := [1, 0x41, 0x00, 0x42, 0x00];
    assert SliceFrom(frame, 3) == [0x42, 0x00];
    assert frame[1..] == [0x41, 0x00, 0x42, 0x00];
    assert SwappedPairs([0x42, 0x00]) == [0x00, 0x42];
  }

  /** What the old `decodeFrame` returns. Text frames and unknown frames
      both name their content `value`; here the unknown frame's bytes are
      `rawValue`, since a Dafny field name has one type. */
  datatype LegacyFrame =
    | TextFrame(id: string, value: Text)
    | UserTextFrame(id: string, descriptor: Text, value: Text)
    | UrlFrame(id: string, url: Text)
    | UserUrlFrame(id: string, descriptor: Text, url: Text)
    | PictureFrame(id: string, mimeType: Text, descriptor: Text, description: Text, buffer: seq<byte>)
    | RawFrame(id: string, rawValue: seq<byte>)
  {
    /** The frame has a string `descriptor`. */
    predicate HasDescriptor()
    {
      UserTextFrame? || UserUrlFrame? || PictureFrame?
    }
  }

  const Zero: seq<byte> := [0]

  /** TXXX and WXXX: the descriptor runs from the offset to the first zero
      byte, the value is everything after that zero. */
  function UserField(frame: seq<byte>, valueEncoding: Option<Encoding>): (r: (Text, Text))
    requires valueEncoding.Some? ==> valueEncoding.value != Utf16
  {
    var le := ParseFrameEncoding(frame);
    var (descriptor, after) := Id3Frames.Field(frame, Zero, le.offset);
    var enc := if valueEncoding.Some? then valueEncoding.value else le.encoding;
    (LegacyDecode(descriptor, le.encoding), LegacyDecode(SliceFrom(frame, after), enc))
  }

  /** APIC: MIME type up to the first zero at or after the offset, one
      picture-type byte as hex, the description up to the next zero, and
      the picture after it. */
  function DecodePicture(id: string, frame: seq<byte>): (r: LegacyFrame)
    ensures r.PictureFrame? && r.id == id
  {
    var le := ParseFrameEncoding(frame);
    var (mimeTypeEnd, descriptionEnd) := PictureEnds(frame, le.offset);
    PictureBetween(id, frame, le, mimeTypeEnd, descriptionEnd)
  }

  /** Where the MIME type and the description end: the first zero from
      the offset, and the first one after the picture-type byte. */
  function PictureEnds(frame: seq<byte>, offset: nat): (r: (int, int))
  {
    var mimeTypeEnd := IndexOf(frame, Zero, offset);
    (mimeTypeEnd, IndexOf(frame, Zero, mimeTypeEnd + 2))
  }

  /** The APIC fields once the zero bytes ending the MIME type and the
      description are located. */
  function PictureBetween(id: string, frame: seq<byte>, le: LegacyEncoding, mimeTypeEnd: int, descriptionEnd: int)
    : (r: LegacyFrame)
    requires le.encoding != Utf16
    ensures r.PictureFrame? && r.id == id
  {
    var descriptorEnd := mimeTypeEnd + 2;
    PictureFrame(id, LegacyDecode(Slice(frame, le.offset, mimeTypeEnd), le.encoding),
                 Text(HexCodec, Slice(frame, mimeTypeEnd + 1, descriptorEnd)),
                 LegacyDecode(Slice(frame, descriptorEnd, descriptionEnd), le.encoding),
                 SliceFrom(frame, descriptionEnd + 1))
  }

  /** `decodeFrame` of the old build: TXXX, T*, WXXX, W*, APIC, then the
      raw bytes. It cannot throw. */
  function DecodeFrame(id: string, frame: seq<byte>): (r: LegacyFrame)
    ensures r.id == id
    ensures id == "TXXX" ==> r.UserTextFrame?
    ensures id != "TXXX" && Id3Frames.StartsWith(id, 'T') ==> r.TextFrame?
    ensures id == "WXXX" ==> r.UserUrlFrame?
    ensures id != "WXXX" && Id3Frames.StartsWith(id, 'W') ==> r.UrlFrame?
    ensures id == "APIC" ==> r.PictureFrame?
    ensures !Id3Frames.StartsWith(id, 'T') && !Id3Frames.StartsWith(id, 'W') && id != "APIC" ==> r == RawFrame(id, frame)
  {
    if id == "TXXX" then
      var (descriptor, value) := UserField(frame, None);
      UserTextFrame(id, descriptor, value)
    else if Id3Frames.StartsWith(id, 'T') then
      var le := ParseFrameEncoding(frame);
      TextFrame(id, LegacyDecode(SliceFrom(frame, le.offset), le.encoding))
    else if id == "WXXX" then
      var (descriptor, url) := UserField(frame, Some(Ascii));
      UserUrlFrame(id, descriptor, url)
    else if Id3Frames.StartsWith(id, 'W') then
      UrlFrame(id, LegacyDecode(frame, Ascii))
    else if id == "APIC" then
      DecodePicture(id, frame)
    else
      RawFrame(id, frame)
  }

  /** The keys the old collector checks: the id, then `id:descriptor`
      when the frame has a descriptor. */
  function LegacyKeys(f: LegacyFrame): (keys: seq<Key>)
    ensures |keys| > 0 && forall k :: k in keys ==> k.id == f.id
    ensures Key(f.id, []) in keys
    ensures forall k :: k in keys && k.qualifiers != [] ==> f.HasDescriptor() && k.qualifiers == [f.descriptor]
  {
    [Key(f.id, [])] + if f.HasDescriptor() then [Key(f.id, [f.descriptor])] else []
  }

  /** The old build has no full collector, so only the selective keys are
      ever used. */
  function LegacyFormat(): Format<LegacyFrame>
  {
    Format((id, frame) => Ok(DecodeFrame(id, frame)), LegacyKeys, LegacyKeys)
  }
}
