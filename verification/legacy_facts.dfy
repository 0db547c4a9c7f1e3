/**
 * What the older build's decoder does with well-formed frames, and where
 * it agrees with the current one.
 */
module LegacyFacts {
  import opened NodeBuffer
  import opened TextDecoder
  import opened Collect
  import opened LegacyFrames
  import Id3Frames
  import FrameFacts
  import Wrappers

  /** A field with no zero byte in it ends at the first zero after it. */
  lemma ZeroFree(field: seq<byte>)
    requires 0 !in field
    ensures FrameFacts.FreeOf(field, Zero)
  {
    forall j | 0 <= j < |field|
      ensures !OccursAt(field + Zero, Zero, j)
    {
      assert (field + Zero)[j..j + 1][0] == field[j];
    }
  }

  /** The encoding byte and, for UTF-16, the two bytes after it: exactly
      the bytes the old build skips before the first field. */
  predicate WellFormedHead(head: seq<byte>)
  {
    |head| >= 1 && ParseFrameEncoding(head).offset == |head|
  }

  lemma HeadDecides(head: seq<byte>, rest: seq<byte>)
    requires WellFormedHead(head)
    ensures ParseFrameEncoding(head + rest) == ParseFrameEncoding(head)
  {
    var frame := head + rest;
    assert frame[0] == head[0];
    if head[0] == 1 {
      assert frame[1] == head[1] && frame[2] == head[2];
    }
  }

  /** The TXXX branch, given where the descriptor ends. */
  lemma DispatchUserText(frame: seq<byte>, le: LegacyEncoding, descriptor: seq<byte>, after: int, value: seq<byte>)
    requires le == ParseFrameEncoding(frame)
    requires Id3Frames.Field(frame, Zero, le.offset) == (descriptor, after) && SliceFrom(frame, after) == value
    ensures DecodeFrame("TXXX", frame)
            == UserTextFrame("TXXX", LegacyDecode(descriptor, le.encoding), LegacyDecode(value, le.encoding))
  {
    assert UserField(frame, Wrappers.None) == (LegacyDecode(descriptor, le.encoding), LegacyDecode(value, le.encoding));
  }

  /** The WXXX branch, given where the descriptor ends. */
  lemma DispatchUserUrl(frame: seq<byte>, le: LegacyEncoding, descriptor: seq<byte>, after: int, url: seq<byte>)
    requires le == ParseFrameEncoding(frame)
    requires Id3Frames.Field(frame, Zero, le.offset) == (descriptor, after) && SliceFrom(frame, after) == url
    ensures DecodeFrame("WXXX", frame) == UserUrlFrame("WXXX", LegacyDecode(descriptor, le.encoding), LegacyDecode(url, Ascii))
  {
    var r := UserField(frame, Wrappers.Some(Ascii));
    assert r == (LegacyDecode(descriptor, le.encoding), LegacyDecode(url, Ascii));
    assert DecodeFrame("WXXX", frame) == UserUrlFrame("WXXX", r.0, r.1) by {
      assert "WXXX"[0] == 'W' && "WXXX" != "TXXX";
    }
  }

  /** A text frame other than TXXX: the head, then the text. The head
      of a UTF-16 frame is three bytes, the encoding byte and the mark. */
  lemma TextRoundTrip(id: string, head: seq<byte>, text: seq<byte>)
    requires WellFormedHead(head) && Id3Frames.StartsWith(id, 'T') && id != "TXXX"
    ensures DecodeFrame(id, head + text) == TextFrame(id, LegacyDecode(text, ParseFrameEncoding(head).encoding))
  {
    HeadDecides(head, text);
    assert SliceFrom(head + text, |head|) == text;
  }

  /** A URL frame other than WXXX: the whole frame is the URL, read as
      `ascii`. */
  lemma UrlRoundTrip(id: string, url: seq<byte>)
    requires Id3Frames.StartsWith(id, 'W') && id != "WXXX"
    ensures DecodeFrame(id, url) == UrlFrame(id, LegacyDecode(url, Ascii))
  {
    assert !Id3Frames.StartsWith(id, 'T');
  }

  /** The old build also reads a UTF-16 text frame the same under either
      byte-order mark, although it never passes `utf16` to `decode`: it
      picks `utf16be` or `utf16le` itself from the two bytes after the
      encoding byte, and skips them. */
  lemma TextMarksAgree(id: string, le: seq<byte>)
    requires Id3Frames.StartsWith(id, 'T') && id != "TXXX" && |le| % 2 == 0
    ensures DecodeFrame(id, [1, 0xFE, 0xFF] + SwappedPairs(le)) == TextFrame(id, Text(Utf16LeCodec, le))
    ensures DecodeFrame(id, [1, 0xFF, 0xFE] + le) == TextFrame(id, Text(Utf16LeCodec, le))
  {
    var be: seq<byte> := [1, 0xFE, 0xFF];
    assert be[1..] == [0xFE, 0xFF];
    assert ParseFrameEncoding(be) == LegacyEncoding(Utf16Be, 3);
    TextRoundTrip(id, be, SwappedPairs(le));
    SwappedPairsInvolution(le);
    assert le[..2 * (|le| / 2)] == le;
    var lh: seq<byte> := [1, 0xFF, 0xFE];
    assert ParseFrameEncoding(lh) == LegacyEncoding(Utf16Le, 3);
    TextRoundTrip(id, lh, le);
  }

  /** A TXXX frame: head, descriptor, one zero byte, value. */
  lemma UserTextRoundTrip(head: seq<byte>, descriptor: seq<byte>, value: seq<byte>)
    requires WellFormedHead(head) && 0 !in descriptor
    ensures var le := ParseFrameEncoding(head);
      DecodeFrame("TXXX", head + descriptor + Zero + value)
      == UserTextFrame("TXXX", LegacyDecode(descriptor, le.encoding), LegacyDecode(value, le.encoding))
  {
    var frame := head + descriptor + Zero + value;
    ZeroFree(descriptor);
    FrameFacts.FieldSplits(head, descriptor, Zero, value);
    assert frame == head + (descriptor + Zero + value);
    HeadDecides(head, descriptor + Zero + value);
    DispatchUserText(frame, ParseFrameEncoding(head), descriptor, |head| + |descriptor| + |Zero|, value);
  }

  /** A WXXX frame: as TXXX, with the URL read as `ascii`. */
  lemma UserUrlRoundTrip(head: seq<byte>, descriptor: seq<byte>, url: seq<byte>)
    requires WellFormedHead(head) && 0 !in descriptor
    ensures var le := ParseFrameEncoding(head);
      DecodeFrame("WXXX", head + descriptor + Zero + url)
      == UserUrlFrame("WXXX", LegacyDecode(descriptor, le.encoding), LegacyDecode(url, Ascii))
  {
    var frame := head + descriptor + Zero + url;
    ZeroFree(descriptor);
    FrameFacts.FieldSplits(head, descriptor, Zero, url);
    assert frame == head + (descriptor + Zero + url);
    HeadDecides(head, descriptor + Zero + url);
    DispatchUserUrl(frame, ParseFrameEncoding(head), descriptor, |head| + |descriptor| + |Zero|, url);
  }

  /** An encoding byte above 3 is not skipped: it is read as the first
      byte of the descriptor, and the fields are read as `ascii`. */
  lemma UnknownEncodingByteJoinsDescriptor(b: byte, descriptor: seq<byte>, value: seq<byte>)
    requires b > 3 && 0 !in descriptor
    ensures DecodeFrame("TXXX", [b] + descriptor + Zero + value)
            == UserTextFrame("TXXX", Text(AsciiCodec, [b] + descriptor), Text(AsciiCodec, value))
  {
    var field := [b] + descriptor;
    var frame := [b] + descriptor + Zero + value;
    ZeroFree(field);
    FrameFacts.FieldSplits([], field, Zero, value);
    assert [] + field + Zero + value == frame;
    assert frame[0] == b;
    DispatchUserText(frame, LegacyEncoding(Ascii, 0), field, |field| + |Zero|, value);
  }

  /** The APIC branch, given where the MIME type and the description end. */
  lemma DispatchPicture(frame: seq<byte>, le: LegacyEncoding, m: nat, e: nat,
                        mimeType: seq<byte>, pictureType: seq<byte>, description: seq<byte>, rest: seq<byte>)
    requires le == ParseFrameEncoding(frame)
    requires IndexOf(frame, Zero, le.offset) == m && le.offset <= m
    requires IndexOf(frame, Zero, m + 2) == e && m + 2 <= e
    requires frame[le.offset..m] == mimeType && frame[m + 1..m + 2] == pictureType
    requires frame[m + 2..e] == description && frame[e + 1..] == rest
    ensures DecodePicture("APIC", frame)
            == PictureFrame("APIC", LegacyDecode(mimeType, le.encoding), Text(HexCodec, pictureType),
                            LegacyDecode(description, le.encoding), rest)
  {
    assert PictureEnds(frame, le.offset) == (m, e) by {
      assert IndexOf(frame, Zero, le.offset) == m;
    }
    DecodePictureBetween(frame, m, e);
    LegacyPictureBetween(frame, le, m, e, mimeType, pictureType, description, rest);
  }

  /** `DecodePicture` cuts the frame at the two ends `PictureEnds` finds. */
  lemma DecodePictureBetween(frame: seq<byte>, m: int, e: int)
    requires PictureEnds(frame, ParseFrameEncoding(frame).offset) == (m, e)
    ensures DecodePicture("APIC", frame) == PictureBetween("APIC", frame, ParseFrameEncoding(frame), m, e)
  {
  }

  lemma LegacyPictureBetween(frame: seq<byte>, le: LegacyEncoding, m: nat, e: nat,
                             mimeType: seq<byte>, pictureType: seq<byte>, description: seq<byte>, rest: seq<byte>)
    requires le.encoding != Utf16 && le.offset <= m && m + 2 <= e < |frame|
    requires frame[le.offset..m] == mimeType && frame[m + 1..m + 2] == pictureType
    requires frame[m + 2..e] == description && frame[e + 1..] == rest
    ensures PictureBetween("APIC", frame, le, m, e)
            == PictureFrame("APIC", LegacyDecode(mimeType, le.encoding), Text(HexCodec, pictureType),
                            LegacyDecode(description, le.encoding), rest)
  {
  }

  lemma PictureLayout(head: seq<byte>, mimeType: seq<byte>, pictureType: byte, description: seq<byte>, data: seq<byte>)
    ensures var frame := head + mimeType + Zero + [pictureType] + description + Zero + data;
      var m := |head| + |mimeType|;
      && frame == head + (mimeType + Zero + [pictureType] + description + Zero + data)
      && frame[|head|..] == mimeType + Zero + ([pictureType] + description + Zero + data)
      && frame[m + 2..] == description + Zero + data
      && frame[|head|..m] == mimeType && frame[m + 1..m + 2] == [pictureType]
      && frame[m + 2..m + 2 + |description|] == description && frame[m + 3 + |description|..] == data
  {
  }

  /** An APIC frame: head, MIME type, zero, picture type, description,
      zero, picture. With one-byte terminators the picture comes back
      whole. */
  lemma PictureRoundTrip(head: seq<byte>, mimeType: seq<byte>, pictureType: byte, description: seq<byte>, data: seq<byte>)
    requires WellFormedHead(head) && 0 !in mimeType && 0 !in description
    ensures var le := ParseFrameEncoding(head);
      DecodeFrame("APIC", head + mimeType + Zero + [pictureType] + description + Zero + data)
      == PictureFrame("APIC", LegacyDecode(mimeType, le.encoding), Text(HexCodec, [pictureType]),
                      LegacyDecode(description, le.encoding), data)
  {
    PictureParts(head, mimeType, pictureType, description, data);
    LegacyPictureDispatch(head + mimeType + Zero + [pictureType] + description + Zero + data);
  }

  /** The picture branch on the frame of `PictureRoundTrip`. */
  lemma PictureParts(head: seq<byte>, mimeType: seq<byte>, pictureType: byte, description: seq<byte>, data: seq<byte>)
    requires WellFormedHead(head) && 0 !in mimeType && 0 !in description
    ensures var le := ParseFrameEncoding(head);
      DecodePicture("APIC", head + mimeType + Zero + [pictureType] + description + Zero + data)
      == PictureFrame("APIC", LegacyDecode(mimeType, le.encoding), Text(HexCodec, [pictureType]),
                      LegacyDecode(description, le.encoding), data)
  {
    var frame := head + mimeType + Zero + [pictureType] + description + Zero + data;
    PictureLayout(head, mimeType, pictureType, description, data);
    ZeroFree(mimeType);
    ZeroFree(description);
    HeadDecides(head, mimeType + Zero + [pictureType] + description + Zero + data);
    PictureAt(frame, ParseFrameEncoding(frame), |head| + |mimeType|, mimeType, pictureType, description, data);
  }

  /** The picture branch on any frame laid out as `PictureRoundTrip`
      builds it, from the offset the encoding byte gives. */
  lemma PictureAt(frame: seq<byte>, le: LegacyEncoding, m: nat,
                  mimeType: seq<byte>, pictureType: byte, description: seq<byte>, data: seq<byte>)
    requires le == ParseFrameEncoding(frame) && le.offset <= m == le.offset + |mimeType|
    requires FrameFacts.FreeOf(mimeType, Zero) && FrameFacts.FreeOf(description, Zero)
    requires le.offset <= |frame| && frame[le.offset..] == mimeType + Zero + ([pictureType] + description + Zero + data)
    requires m + 2 <= |frame| && frame[m + 2..] == description + Zero + data
    requires frame[le.offset..m] == mimeType && frame[m + 1..m + 2] == [pictureType]
    requires frame[m + 2..m + 2 + |description|] == description && frame[m + 3 + |description|..] == data
    ensures DecodePicture("APIC", frame)
            == PictureFrame("APIC", LegacyDecode(mimeType, le.encoding), Text(HexCodec, [pictureType]),
                            LegacyDecode(description, le.encoding), data)
  {
    FrameFacts.FindTerminatorIn(frame, le.offset, mimeType, Zero, [pictureType] + description + Zero + data);
    FrameFacts.FindTerminatorIn(frame, m + 2, description, Zero, data);
    DispatchPicture(frame, le, m, m + 2 + |description|, mimeType, [pictureType], description, data);
  }

  /** An old frame as the current build's record: `value` becomes `text`
      for text frames and `buffer` for unknown frames. */
  function AsCurrent(f: LegacyFrame): (r: Id3Frames.Frame)
    ensures r.id == f.id && (r.HasDescriptor() <==> f.HasDescriptor())
    ensures f.HasDescriptor() ==> r.descriptor == f.descriptor
  {
    match f
    case TextFrame(id, value) => Id3Frames.TextFrame(id, value)
    case UserTextFrame(id, descriptor, value) => Id3Frames.UserTextFrame(id, descriptor, value)
    case UrlFrame(id, url) => Id3Frames.UrlFrame(id, url)
    case UserUrlFrame(id, descriptor, url) => Id3Frames.UserUrlFrame(id, descriptor, url)
    case PictureFrame(id, mimeType, descriptor, description, buffer) =>
      Id3Frames.PictureFrame(id, mimeType, descriptor, description, buffer)
    case RawFrame(id, value) => Id3Frames.BinaryFrame(id, value)
  }

  /** The old collector's keys are the current collectors' keys of the
      same frame. */
  lemma KeysAgree(f: LegacyFrame)
    ensures LegacyKeys(f) == Id3Frames.SelectKeys(AsCurrent(f)) == Id3Frames.AllKeys(AsCurrent(f))
  {
  }

  /** Encoding bytes 0 and 3 mean the same to both builds. */
  predicate SingleByteEncoded(frame: seq<byte>)
  {
    |frame| > 0 && (frame[0] == 0 || frame[0] == 3)
  }

  lemma SingleByteEncodingsMatch(frame: seq<byte>)
    requires SingleByteEncoded(frame)
    ensures Id3Frames.ParseFrameEncoding(frame).terminator == Zero
    ensures Id3Frames.ParseFrameEncoding(frame).encoding == ParseFrameEncoding(frame).encoding
    ensures ParseFrameEncoding(frame).offset == 1
    ensures ParseFrameEncoding(frame) == LegacyEncoding(ParseFrameEncoding(frame).encoding, 1)
    ensures Id3Frames.ParseFrameEncoding(frame) == Id3Frames.FrameEncoding(ParseFrameEncoding(frame).encoding, Zero)
  {
  }

  lemma UserTextAgrees(frame: seq<byte>)
    requires SingleByteEncoded(frame)
    ensures Id3Frames.DecodeFrame("TXXX", frame) == Wrappers.Ok(AsCurrent(DecodeFrame("TXXX", frame)))
  {
    SingleByteEncodingsMatch(frame);
    assert Id3Frames.UserField(frame, Wrappers.None) == UserField(frame, Wrappers.None);
  }

  lemma TextAgrees(id: string, frame: seq<byte>)
    requires SingleByteEncoded(frame) && id != "TXXX" && Id3Frames.StartsWith(id, 'T')
    ensures Id3Frames.DecodeFrame(id, frame) == Wrappers.Ok(AsCurrent(DecodeFrame(id, frame)))
  {
    SingleByteEncodingsMatch(frame);
  }

  lemma UserUrlAgrees(frame: seq<byte>)
    requires SingleByteEncoded(frame)
    ensures Id3Frames.DecodeFrame("WXXX", frame) == Wrappers.Ok(AsCurrent(DecodeFrame("WXXX", frame)))
  {
    SingleByteEncodingsMatch(frame);
    var r := UserField(frame, Wrappers.Some(Ascii));
    assert Id3Frames.UserField(frame, Wrappers.Some(Ascii)) == r;
    assert "WXXX"[0] == 'W' && "WXXX" != "TXXX";
    assert DecodeFrame("WXXX", frame) == UserUrlFrame("WXXX", r.0, r.1);
  }

  /** The APIC fields, once the two zero bytes are located. */
  predicate PictureFieldsAt(frame: seq<byte>, enc: Encoding, m: int, e: int, mimeType: Text, descriptor: Text,
                            description: Text, buffer: seq<byte>)
  {
    && enc != Utf16
    && m == IndexOf(frame, Zero, 1) && e == IndexOf(frame, Zero, m + 2)
    && mimeType == LegacyDecode(Slice(frame, 1, m), enc) && descriptor == Text(HexCodec, Slice(frame, m + 1, m + 2))
    && description == LegacyDecode(Slice(frame, m + 2, e), enc) && buffer == SliceFrom(frame, e + 1)
  }

  lemma LegacyPictureAt(frame: seq<byte>, enc: Encoding, m: int, e: int, mimeType: Text, descriptor: Text,
                        description: Text, buffer: seq<byte>)
    requires ParseFrameEncoding(frame) == LegacyEncoding(enc, 1)
    requires PictureFieldsAt(frame, enc, m, e, mimeType, descriptor, description, buffer)
    ensures DecodePicture("APIC", frame) == PictureFrame("APIC", mimeType, descriptor, description, buffer)
  {
    LegacyPictureEnds(frame, enc, m, e);
    LegacyFieldsBetween(frame, enc, m, e, mimeType, descriptor, description, buffer);
  }

  lemma LegacyPictureEnds(frame: seq<byte>, enc: Encoding, m: int, e: int)
    requires ParseFrameEncoding(frame) == LegacyEncoding(enc, 1)
    requires m == IndexOf(frame, Zero, 1) && e == IndexOf(frame, Zero, m + 2)
    ensures DecodePicture("APIC", frame) == PictureBetween("APIC", frame, LegacyEncoding(enc, 1), m, e)
  {
    assert PictureEnds(frame, 1) == (m, e);
  }

  lemma LegacyFieldsBetween(frame: seq<byte>, enc: Encoding, m: int, e: int, mimeType: Text, descriptor: Text,
                            description: Text, buffer: seq<byte>)
    requires PictureFieldsAt(frame, enc, m, e, mimeType, descriptor, description, buffer)
    ensures PictureBetween("APIC", frame, LegacyEncoding(enc, 1), m, e)
            == PictureFrame("APIC", mimeType, descriptor, description, buffer)
  {
  }

  lemma CurrentPictureAt(frame: seq<byte>, enc: Encoding, m: int, e: int, mimeType: Text, descriptor: Text,
                         description: Text, buffer: seq<byte>)
    requires Id3Frames.ParseFrameEncoding(frame) == Id3Frames.FrameEncoding(enc, Zero)
    requires PictureFieldsAt(frame, enc, m, e, mimeType, descriptor, description, buffer)
    ensures Id3Frames.DecodePicture("APIC", frame) == Id3Frames.PictureFrame("APIC", mimeType, descriptor, description, buffer)
  {
    CurrentPictureEnds(frame, enc, m, e);
    CurrentPictureBetween(frame, enc, m, e, mimeType, descriptor, description, buffer);
  }

  lemma CurrentPictureEnds(frame: seq<byte>, enc: Encoding, m: int, e: int)
    requires Id3Frames.ParseFrameEncoding(frame) == Id3Frames.FrameEncoding(enc, Zero)
    requires m == IndexOf(frame, Zero, 1) && e == IndexOf(frame, Zero, m + 2)
    ensures Id3Frames.DecodePicture("APIC", frame)
            == Id3Frames.PictureBetween("APIC", frame, Id3Frames.FrameEncoding(enc, Zero), m, e)
  {
    assert Id3Frames.PictureEnds(frame, Zero) == (m, e) by {
      assert |Zero| == 1;
    }
  }

  lemma CurrentPictureBetween(frame: seq<byte>, enc: Encoding, m: int, e: int, mimeType: Text, descriptor: Text,
                              description: Text, buffer: seq<byte>)
    requires PictureFieldsAt(frame, enc, m, e, mimeType, descriptor, description, buffer)
    ensures Id3Frames.PictureBetween("APIC", frame, Id3Frames.FrameEncoding(enc, Zero), m, e)
            == Id3Frames.PictureFrame("APIC", mimeType, descriptor, description, buffer)
  {
  }

  lemma PictureAgreesAt(frame: seq<byte>, enc: Encoding, m: int, e: int, mimeType: Text, descriptor: Text,
                        description: Text, buffer: seq<byte>)
    requires ParseFrameEncoding(frame) == LegacyEncoding(enc, 1)
    requires Id3Frames.ParseFrameEncoding(frame) == Id3Frames.FrameEncoding(enc, Zero)
    requires PictureFieldsAt(frame, enc, m, e, mimeType, descriptor, description, buffer)
    ensures Id3Frames.DecodeFrame("APIC", frame) == Wrappers.Ok(AsCurrent(DecodeFrame("APIC", frame)))
  {
    var legacy := DecodeFrame("APIC", frame);
    assert legacy == PictureFrame("APIC", mimeType, descriptor, description, buffer) by {
      LegacyPictureAt(frame, enc, m, e, mimeType, descriptor, description, buffer);
      PictureDispatch(frame);
    }
    assert Id3Frames.DecodeFrame("APIC", frame)
           == Wrappers.Ok(Id3Frames.PictureFrame("APIC", mimeType, descriptor, description, buffer)) by {
      CurrentPictureAt(frame, enc, m, e, mimeType, descriptor, description, buffer);
      PictureDispatch(frame);
    }
    AsCurrentPicture("APIC", mimeType, descriptor, description, buffer);
  }

  lemma AsCurrentPicture(id: string, mimeType: Text, descriptor: Text, description: Text, buffer: seq<byte>)
    ensures AsCurrent(PictureFrame(id, mimeType, descriptor, description, buffer))
            == Id3Frames.PictureFrame(id, mimeType, descriptor, description, buffer)
  {
  }

  lemma PictureAgrees(frame: seq<byte>)
    requires SingleByteEncoded(frame)
    ensures Id3Frames.DecodeFrame("APIC", frame) == Wrappers.Ok(AsCurrent(DecodeFrame("APIC", frame)))
  {
    SingleByteEncodingsMatch(frame);
    var enc := ParseFrameEncoding(frame).encoding;
    var m := IndexOf(frame, Zero, 1);
    var e := IndexOf(frame, Zero, m + 2);
    var mimeType, descriptor := LegacyDecode(Slice(frame, 1, m), enc), Text(HexCodec, Slice(frame, m + 1, m + 2));
    var description, buffer := LegacyDecode(Slice(frame, m + 2, e), enc), SliceFrom(frame, e + 1);
    PictureAgreesAt(frame, enc, m, e, mimeType, descriptor, description, buffer);
  }

  /** Both builds send an APIC frame to their picture decoder. */
  lemma PictureDispatch(frame: seq<byte>)
    ensures DecodeFrame("APIC", frame) == DecodePicture("APIC", frame)
    ensures Id3Frames.DecodeFrame("APIC", frame) == Wrappers.Ok(Id3Frames.DecodePicture("APIC", frame))
  {
    LegacyPictureDispatch(frame);
    FrameFacts.PictureBranch(frame);
  }

  lemma LegacyPictureDispatch(frame: seq<byte>)
    ensures DecodeFrame("APIC", frame) == DecodePicture("APIC", frame)
  {
    assert "APIC"[0] == 'A' && "APIC" != "TXXX" && "APIC" != "WXXX";
  }

  /** With encoding byte 0 or 3 the two builds use the same encoding, the
      same one-byte terminator and the same start offset, so on every
      frame id they share they decode alike. */
  lemma BuildsAgreeOnSingleByteEncodings(id: string, frame: seq<byte>)
    requires SingleByteEncoded(frame) && id != "USLT" && id != "SYLT"
    ensures Id3Frames.DecodeFrame(id, frame) == Wrappers.Ok(AsCurrent(DecodeFrame(id, frame)))
  {
    if id == "TXXX" {
      UserTextAgrees(frame);
    } else if Id3Frames.StartsWith(id, 'T') {
      TextAgrees(id, frame);
    } else if id == "WXXX" {
      UserUrlAgrees(frame);
    } else if id == "APIC" {
      PictureAgrees(frame);
    }
  }
}
