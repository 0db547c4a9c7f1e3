/**
 * What `decodeFrame` of src/index.ts recovers from well-formed frames:
 * each frame laid out as sections 4.2, 4.3, 4.8 and 4.9 of the ID3v2.4
 * frames document describe decodes back to its fields, and so does an
 * APIC frame (section 4.14 of the ID3v2.4 frames document) with a
 * single-byte encoding. The places where the decoder departs from those
 * layouts are stated as lemmas of their own.
 */
module FrameFacts {
  import opened Wrappers
  import opened NodeBuffer
  import opened TextDecoder
  import opened Id3Frames
  import opened TagStream

  /** The encoding and terminator a frame starting with byte `b` uses. */
  function EncodingOf(b: byte): FrameEncoding
  {
    ParseFrameEncoding([b])
  }

  /** The terminator does not occur in `field` followed by the terminator
      anywhere before the terminator itself: searching from the start of
      the field stops exactly at its end. */
  predicate FreeOf(field: seq<byte>, terminator: seq<byte>)
  {
    forall j :: 0 <= j < |field| ==> !OccursAt(field + terminator, terminator, j)
  }

  /** Only a frame's first byte chooses its encoding. */
  lemma ParseFrameEncodingFirstByte(frame: seq<byte>)
    requires |frame| > 0
    ensures ParseFrameEncoding(frame) == EncodingOf(frame[0])
  {
  }

  /** Searching from `from` finds the end of a field free of the
      terminator that starts there, whatever surrounds it. */
  lemma {:induction false} FindTerminatorAt(buf: seq<byte>, from: nat, field: seq<byte>, terminator: seq<byte>)
    requires |terminator| > 0 && FreeOf(field, terminator)
    requires from + |field| + |terminator| <= |buf| && buf[from..from + |field| + |terminator|] == field + terminator
    ensures IndexOf(buf, terminator, from) == from + |field|
  {
    var at := from + |field|;
    assert buf[at..at + |terminator|] == (field + terminator)[|field|..];
    forall j | from <= j < at
      ensures !OccursAt(buf, terminator, j)
    {
      var k := j - from;
      var window := field + terminator;
      assert !OccursAt(window, terminator, k);
      SliceOfSlice(buf, from, window, k, |terminator|);
    }
    IndexOfFinds(buf, terminator, from, at);
  }

  lemma SliceOfSlice(buf: seq<byte>, from: nat, window: seq<byte>, k: nat, len: nat)
    requires from + |window| <= |buf| && buf[from..from + |window|] == window && k + len <= |window|
    ensures buf[from + k..from + k + len] == window[k..k + len]
  {
    var inBuf, inWindow := buf[from + k..from + k + len], window[k..k + len];
    forall m | 0 <= m < len
      ensures inBuf[m] == inWindow[m]
    {
      assert inWindow[m] == buf[from..from + |window|][k + m];
    }
  }

  lemma FindTerminatorIn(buf: seq<byte>, from: nat, field: seq<byte>, terminator: seq<byte>, rest: seq<byte>)
    requires |terminator| > 0 && FreeOf(field, terminator)
    requires from <= |buf| && buf[from..] == field + terminator + rest
    ensures IndexOf(buf, terminator, from) == from + |field|
  {
    assert buf[from..from + |field| + |terminator|] == buf[from..][..|field| + |terminator|] == field + terminator;
    FindTerminatorAt(buf, from, field, terminator);
  }

  lemma FindTerminator(prefix: seq<byte>, field: seq<byte>, terminator: seq<byte>, rest: seq<byte>)
    requires |terminator| > 0 && FreeOf(field, terminator)
    ensures IndexOf(prefix + field + terminator + rest, terminator, |prefix|) == |prefix| + |field|
  {
    var buf := prefix + field + terminator + rest;
    assert buf[|prefix|..|prefix| + |field| + |terminator|] == field + terminator;
    FindTerminatorAt(buf, |prefix|, field, terminator);
  }

  /** A terminated field after a prefix reads back as itself, and what
      follows starts right after its terminator. */
  lemma FieldSplits(prefix: seq<byte>, field: seq<byte>, terminator: seq<byte>, rest: seq<byte>)
    requires |terminator| > 0 && FreeOf(field, terminator)
    ensures var frame := prefix + field + terminator + rest;
      Field(frame, terminator, |prefix|) == (field, |prefix| + |field| + |terminator|)
      && SliceFrom(frame, |prefix| + |field| + |terminator|) == rest
  {
    var frame := prefix + field + terminator + rest;
    FindTerminator(prefix, field, terminator, rest);
    assert frame[|prefix|..|prefix| + |field|] == field;
    assert frame[|prefix| + |field| + |terminator|..] == rest;
  }

  /** The TXXX branch, given where its descriptor ends. */
  lemma DispatchUserText(frame: seq<byte>, fe: FrameEncoding, descriptor: seq<byte>, after: int, text: seq<byte>)
    requires fe == ParseFrameEncoding(frame)
    requires Field(frame, fe.terminator, 1) == (descriptor, after) && SliceFrom(frame, after) == text
    ensures DecodeFrame("TXXX", frame) == Ok(UserTextFrame("TXXX", Decode(descriptor, fe.encoding), Decode(text, fe.encoding)))
  {
    assert UserField(frame, None) == (Decode(descriptor, fe.encoding), Decode(text, fe.encoding));
  }

  /** The WXXX branch, given where its descriptor ends. */
  lemma DispatchUserUrl(frame: seq<byte>, fe: FrameEncoding, descriptor: seq<byte>, after: int, url: seq<byte>)
    requires fe == ParseFrameEncoding(frame)
    requires Field(frame, fe.terminator, 1) == (descriptor, after) && SliceFrom(frame, after) == url
    ensures DecodeFrame("WXXX", frame) == Ok(UserUrlFrame("WXXX", Decode(descriptor, fe.encoding), Decode(url, Ascii)))
  {
    var r := UserField(frame, Some(Ascii));
    assert r == (Decode(descriptor, fe.encoding), Decode(url, Ascii));
    assert DecodeFrame("WXXX", frame) == Ok(UserUrlFrame("WXXX", r.0, r.1)) by {
      assert "WXXX"[0] == 'W' && "WXXX" != "TXXX";
    }
  }

  /** The USLT branch, given where its descriptor ends. */
  lemma DispatchLyrics(frame: seq<byte>, fe: FrameEncoding, language: seq<byte>, descriptor: seq<byte>, after: int,
                       text: seq<byte>)
    requires fe == ParseFrameEncoding(frame) && |frame| >= 4 && frame[1..4] == language
    requires Field(frame, fe.terminator, 4) == (descriptor, after) && SliceFrom(frame, after) == text
    ensures DecodeFrame("USLT", frame)
            == Ok(LyricsFrame("USLT", Decode(language, Ascii), Decode(descriptor, fe.encoding), Decode(text, fe.encoding)))
  {
    assert Slice(frame, 1, 4) == language;
    assert DecodeLyrics("USLT", frame)
           == LyricsFrame("USLT", Decode(language, Ascii), Decode(descriptor, fe.encoding), Decode(text, fe.encoding));
  }

  /** The fields of a SYLT frame as its branch finds them: the encoding,
      the language, the timestamp format and content type bytes, the
      descriptor up to its terminator, and the lyric part after it. */
  datatype SyncedLyricsFields = SyncedLyricsFields(fe: FrameEncoding, language: seq<byte>, timeStampFormat: seq<byte>,
                                                   contentType: seq<byte>, descriptor: seq<byte>, lyrics: seq<byte>)

  function FieldsOfSyncedLyrics(frame: seq<byte>): (r: SyncedLyricsFields)
    ensures r.fe == ParseFrameEncoding(frame)
  {
    var fe := ParseFrameEncoding(frame);
    var (descriptor, after) := Field(frame, fe.terminator, 6);
    SyncedLyricsFields(fe, Slice(frame, 1, 4), Slice(frame, 4, 5), Slice(frame, 5, 6), descriptor, SliceFrom(frame, after))
  }

  /** The SYLT branch, given its fields and what its lyric loop reads. */
  lemma DispatchSyncedLyrics(frame: seq<byte>, f: SyncedLyricsFields, lines: seq<Lyric>)
    requires FieldsOfSyncedLyrics(frame) == f
    requires SyncedLyrics(f.lyrics, f.fe.encoding, f.fe.terminator, TimeStampWidth(f.timeStampFormat)) == Ok(lines)
    ensures DecodeSyncedLyrics("SYLT", frame)
            == Ok(SyncedLyricsFrame("SYLT", Text(AsciiCodec, f.language), Text(HexCodec, f.timeStampFormat),
                                    Text(HexCodec, f.contentType), Decode(f.descriptor, f.fe.encoding), lines))
  {
  }

  /** SYLT is decoded by its own branch. */
  lemma SyncedLyricsBranch(frame: seq<byte>)
    ensures DecodeFrame("SYLT", frame) == DecodeSyncedLyrics("SYLT", frame)
  {
    assert !StartsWith("SYLT", 'T') && !StartsWith("SYLT", 'W') && "SYLT" != "USLT";
  }

  /** A text frame other than TXXX (section 4.2 of the ID3v2.4 frames
      document): encoding byte, then the text in that encoding. */
  lemma TextRoundTrip(id: string, encodingByte: byte, text: seq<byte>)
    requires StartsWith(id, 'T') && id != "TXXX"
    ensures DecodeFrame(id, [encodingByte] + text) == Ok(TextFrame(id, Decode(text, EncodingOf(encodingByte).encoding)))
  {
    var frame := [encodingByte] + text;
    assert frame[0] == encodingByte;
    ParseFrameEncodingFirstByte(frame);
    assert SliceFrom(frame, 1) == text;
  }

  /** A URL frame other than WXXX (section 4.3.1 of the ID3v2.4 frames
      document) has no encoding byte: the whole frame is the URL, read as
      `ascii`, whatever its first byte. */
  lemma UrlRoundTrip(id: string, url: seq<byte>)
    requires StartsWith(id, 'W') && id != "WXXX"
    ensures DecodeFrame(id, url) == Ok(UrlFrame(id, Decode(url, Ascii)))
    ensures DecodeFrame(id, url).value.url == Text(AsciiCodec, url)
  {
    assert !StartsWith(id, 'T');
  }

  lemma ThreeBytesAhead(x: byte, y: byte, z: byte, body: seq<byte>)
    ensures [x, y, z] + body == [x] + ([y, z] + body)
  {
    assert ([x] + ([y, z] + body))[..3] == [x, y, z];
  }

  /** The text of a UTF-16 text frame after a mark. */
  lemma MarkedText(id: string, frame: seq<byte>, mark: seq<byte>, body: seq<byte>, le: seq<byte>)
    requires StartsWith(id, 'T') && id != "TXXX"
    requires frame == [1] + (mark + body)
    requires Decode(mark + body, Utf16) == Text(Utf16LeCodec, le)
    ensures DecodeFrame(id, frame) == Ok(TextFrame(id, Text(Utf16LeCodec, le)))
  {
    TextRoundTrip(id, 1, mark + body);
  }

  /** A UTF-16 text frame reads the same whether the string is stored
      big-endian after FE FF or little-endian after FF FE. */
  lemma TextMarksAgree(id: string, le: seq<byte>)
    requires StartsWith(id, 'T') && id != "TXXX" && |le| % 2 == 0
    ensures DecodeFrame(id, [1, 0xFE, 0xFF] + SwappedPairs(le)) == Ok(TextFrame(id, Text(Utf16LeCodec, le)))
    ensures DecodeFrame(id, [1, 0xFF, 0xFE] + le) == Ok(TextFrame(id, Text(Utf16LeCodec, le)))
  {
    Utf16MarksAgree(le);
    var be := [1, 0xFE, 0xFF] + SwappedPairs(le);
    ThreeBytesAhead(1, 0xFE, 0xFF, SwappedPairs(le));
    MarkedText(id, be, [0xFE, 0xFF], SwappedPairs(le), le);
    var lf := [1, 0xFF, 0xFE] + le;
    ThreeBytesAhead(1, 0xFF, 0xFE, le);
    MarkedText(id, lf, [0xFF, 0xFE], le, le);
  }

  /** A TXXX frame (section 4.2.6 of the ID3v2.4 frames document):
      encoding byte, descriptor, terminator,
      value. */
  lemma UserTextRoundTrip(encodingByte: byte, descriptor: seq<byte>, text: seq<byte>)
    requires FreeOf(descriptor, EncodingOf(encodingByte).terminator)
    ensures var fe := EncodingOf(encodingByte);
      DecodeFrame("TXXX", [encodingByte] + descriptor + fe.terminator + text)
      == Ok(UserTextFrame("TXXX", Decode(descriptor, fe.encoding), Decode(text, fe.encoding)))
  {
    var fe := EncodingOf(encodingByte);
    var frame := [encodingByte] + descriptor + fe.terminator + text;
    FieldSplits([encodingByte], descriptor, fe.terminator, text);
    assert frame[0] == encodingByte;
    ParseFrameEncodingFirstByte(frame);
    DispatchUserText(frame, fe, descriptor, 1 + |descriptor| + |fe.terminator|, text);
  }

  /** A WXXX frame (section 4.3.2 of the ID3v2.4 frames document): as
      TXXX, but the URL is always read
      as `ascii`. */
  lemma UserUrlRoundTrip(encodingByte: byte, descriptor: seq<byte>, url: seq<byte>)
    requires FreeOf(descriptor, EncodingOf(encodingByte).terminator)
    ensures var fe := EncodingOf(encodingByte);
      DecodeFrame("WXXX", [encodingByte] + descriptor + fe.terminator + url)
      == Ok(UserUrlFrame("WXXX", Decode(descriptor, fe.encoding), Decode(url, Ascii)))
  {
    var fe := EncodingOf(encodingByte);
    var frame := [encodingByte] + descriptor + fe.terminator + url;
    FieldSplits([encodingByte], descriptor, fe.terminator, url);
    assert frame[0] == encodingByte;
    ParseFrameEncodingFirstByte(frame);
    DispatchUserUrl(frame, fe, descriptor, 1 + |descriptor| + |fe.terminator|, url);
  }

  /** A USLT frame (section 4.8 of the ID3v2.4 frames document):
      encoding byte, three-byte language,
      descriptor, terminator, lyrics. */
  lemma LyricsRoundTrip(encodingByte: byte, language: seq<byte>, descriptor: seq<byte>, text: seq<byte>)
    requires |language| == 3
    requires FreeOf(descriptor, EncodingOf(encodingByte).terminator)
    ensures var fe := EncodingOf(encodingByte);
      DecodeFrame("USLT", [encodingByte] + language + descriptor + fe.terminator + text)
      == Ok(LyricsFrame("USLT", Decode(language, Ascii), Decode(descriptor, fe.encoding), Decode(text, fe.encoding)))
  {
    var fe := EncodingOf(encodingByte);
    var head := [encodingByte] + language;
    var frame := head + descriptor + fe.terminator + text;
    FieldSplits(head, descriptor, fe.terminator, text);
    assert frame[0] == encodingByte;
    ParseFrameEncodingFirstByte(frame);
    assert frame[1..4] == language;
    DispatchLyrics(frame, fe, language, descriptor, 4 + |descriptor| + |fe.terminator|, text);
  }

  /** The MIME type of a well-formed APIC frame ends at its terminator. */
  lemma MimeTypeEnd(frame: seq<byte>, mimeType: seq<byte>, terminator: seq<byte>, rest: seq<byte>)
    requires |terminator| > 0 && FreeOf(mimeType, terminator)
    requires |frame| > 0 && frame[1..] == mimeType + terminator + rest
    ensures IndexOf(frame, terminator, 1) == 1 + |mimeType|
  {
    FindTerminatorIn(frame, 1, mimeType, terminator, rest);
  }

  /** The description of a well-formed APIC frame ends at its terminator. */
  lemma DescriptionEnd(frame: seq<byte>, from: nat, description: seq<byte>, terminator: seq<byte>, data: seq<byte>)
    requires |terminator| > 0 && FreeOf(description, terminator)
    requires from <= |frame| && frame[from..] == description + terminator + data
    ensures IndexOf(frame, terminator, from) == from + |description|
  {
    FindTerminatorIn(frame, from, description, terminator, data);
  }

  /** With the ends of the MIME type and the description in range, the
      APIC fields are plain slices of the frame. */
  lemma PictureBetweenSlices(frame: seq<byte>, fe: FrameEncoding, m: nat, d: nat, e: nat)
    requires 1 <= m && d == m + |fe.terminator| + 1 && d <= e < |frame|
    ensures PictureBetween("APIC", frame, fe, m, e)
      == PictureFrame("APIC", Decode(frame[1..m], fe.encoding), Text(HexCodec, frame[m + |fe.terminator|..d]),
                      Decode(frame[d..e], fe.encoding), frame[e + 1..])
  {
    PictureSlicesInRange(frame, m, |fe.terminator|, d, e);
  }

  lemma PictureSlicesInRange(frame: seq<byte>, m: nat, t: nat, d: nat, e: nat)
    requires 1 <= m && d == m + t + 1 && d <= e < |frame|
    ensures Slice(frame, 1, m) == frame[1..m] && Slice(frame, m + t, d) == frame[m + t..d]
    ensures Slice(frame, d, e) == frame[d..e] && SliceFrom(frame, e + 1) == frame[e + 1..]
  {
  }

  /** Given where the terminators are, the APIC branch yields these
      slices of the frame. */
  lemma PictureFields(frame: seq<byte>, fe: FrameEncoding, m: nat, d: nat, e: nat)
    requires fe == ParseFrameEncoding(frame)
    requires IndexOf(frame, fe.terminator, 1) == m && 1 <= m
    requires d == m + |fe.terminator| + 1 && IndexOf(frame, fe.terminator, d) == e && d <= e
    ensures DecodePicture("APIC", frame)
      == PictureFrame("APIC", Decode(frame[1..m], fe.encoding), Text(HexCodec, frame[m + |fe.terminator|..d]),
                      Decode(frame[d..e], fe.encoding), frame[e + 1..])
  {
    assert DecodePicture("APIC", frame) == PictureBetween("APIC", frame, fe, m, e);
    PictureBetweenSlices(frame, fe, m, d, e);
  }

  lemma DispatchPicture(frame: seq<byte>, fe: FrameEncoding, m: nat, d: nat, e: nat,
                         mimeType: seq<byte>, pictureType: seq<byte>, description: seq<byte>, rest: seq<byte>)
    requires fe == ParseFrameEncoding(frame)
    requires IndexOf(frame, fe.terminator, 1) == m && 1 <= m
    requires d == m + |fe.terminator| + 1 && IndexOf(frame, fe.terminator, d) == e && d <= e
    requires frame[1..m] == mimeType && frame[m + |fe.terminator|..d] == pictureType
    requires frame[d..e] == description && frame[e + 1..] == rest
    ensures DecodePicture("APIC", frame)
      == PictureFrame("APIC", Decode(mimeType, fe.encoding), Text(HexCodec, pictureType), Decode(description, fe.encoding), rest)
  {
    PictureFields(frame, fe, m, d, e);
  }

  /** APIC is decoded by the picture branch. */
  lemma PictureBranch(frame: seq<byte>)
    ensures DecodeFrame("APIC", frame) == Ok(DecodePicture("APIC", frame))
  {
    assert "APIC"[0] == 'A' && "APIC" != "TXXX" && "APIC" != "WXXX" && "APIC" != "USLT" && "APIC" != "SYLT";
  }

  /** The pieces of a well-formed APIC frame, found by position. */
  lemma PictureLayout(encodingByte: byte, mimeType: seq<byte>, term: seq<byte>, pictureType: byte,
                      description: seq<byte>, data: seq<byte>)
    requires |term| > 0
    ensures var frame := [encodingByte] + mimeType + term + [pictureType] + description + term + data;
      var m := 1 + |mimeType|;
      var d := m + |term| + 1;
      && frame[0] == encodingByte
      && frame[1..] == mimeType + term + ([pictureType] + description + term + data)
      && frame[d..] == description + term + data
      && frame[1..m] == mimeType
      && frame[m + |term|..d] == [pictureType]
      && frame[d..d + |description|] == description
      && frame[d + |description| + 1..] == term[1..] + data
  {
    var frame := [encodingByte] + mimeType + term + [pictureType] + description + term + data;
    var m := 1 + |mimeType|;
    var d := m + |term| + 1;
    var rest := frame[1..];
    assert rest == mimeType + term + ([pictureType] + description + term + data);
    assert frame[d..] == rest[d - 1..] == description + term + data;
    assert frame[1..m] == rest[..|mimeType|];
    assert frame[m + |term|..d] == rest[m - 1 + |term|..d - 1];
    assert frame[d..d + |description|] == rest[d - 1..d - 1 + |description|];
    assert frame[d + |description| + 1..] == rest[d + |description|..];
  }

  /** An APIC frame as the decoder expects it: encoding byte, MIME type,
      the encoding's terminator, picture type, description, terminator,
      picture data. With encoding $00 or $03 this is the layout of section
      4.14 of the ID3v2.4 frames document. With $01 or $02 it is not: that
      section ends the MIME type with one zero byte whatever the encoding,
      and `WidePictureMisread` shows what becomes of such a frame. The
      decoder skips one byte after the description, so with a two-byte
      terminator the picture data keeps the terminator's second byte in
      front. */
  lemma PictureRoundTrip(encodingByte: byte, mimeType: seq<byte>, pictureType: byte, description: seq<byte>, data: seq<byte>)
    requires FreeOf(mimeType, EncodingOf(encodingByte).terminator)
    requires FreeOf(description, EncodingOf(encodingByte).terminator)
    ensures var fe := EncodingOf(encodingByte);
      DecodeFrame("APIC", [encodingByte] + mimeType + fe.terminator + [pictureType] + description + fe.terminator + data)
      == Ok(PictureFrame("APIC", Decode(mimeType, fe.encoding), Text(HexCodec, [pictureType]),
                         Decode(description, fe.encoding), fe.terminator[1..] + data))
  {
    var fe := EncodingOf(encodingByte);
    PictureParts(encodingByte, mimeType, pictureType, description, data);
    PictureBranch([encodingByte] + mimeType + fe.terminator + [pictureType] + description + fe.terminator + data);
  }

  /** The picture branch on the frame of `PictureRoundTrip`. */
  lemma PictureParts(encodingByte: byte, mimeType: seq<byte>, pictureType: byte, description: seq<byte>, data: seq<byte>)
    requires FreeOf(mimeType, EncodingOf(encodingByte).terminator)
    requires FreeOf(description, EncodingOf(encodingByte).terminator)
    ensures var fe := EncodingOf(encodingByte);
      DecodePicture("APIC", [encodingByte] + mimeType + fe.terminator + [pictureType] + description + fe.terminator + data)
      == PictureFrame("APIC", Decode(mimeType, fe.encoding), Text(HexCodec, [pictureType]),
                      Decode(description, fe.encoding), fe.terminator[1..] + data)
  {
    var fe := EncodingOf(encodingByte);
    var term := fe.terminator;
    var frame := [encodingByte] + mimeType + term + [pictureType] + description + term + data;
    PictureLayout(encodingByte, mimeType, term, pictureType, description, data);
    ParseFrameEncodingFirstByte(frame);
    PictureAt(frame, fe, mimeType, pictureType, description, data);
  }

  /** The picture branch on any frame laid out as `PictureLayout` says. */
  lemma PictureAt(frame: seq<byte>, fe: FrameEncoding, mimeType: seq<byte>, pictureType: byte,
                  description: seq<byte>, data: seq<byte>)
    requires fe == ParseFrameEncoding(frame)
    requires FreeOf(mimeType, fe.terminator) && FreeOf(description, fe.terminator)
    requires var term := fe.terminator;
      var m := 1 + |mimeType|;
      var d := m + |term| + 1;
      && |frame| == d + |description| + |term| + |data|
      && frame[1..] == mimeType + term + ([pictureType] + description + term + data)
      && frame[d..] == description + term + data
      && frame[1..m] == mimeType
      && frame[m + |term|..d] == [pictureType]
      && frame[d..d + |description|] == description
      && frame[d + |description| + 1..] == term[1..] + data
    ensures DecodePicture("APIC", frame)
      == PictureFrame("APIC", Decode(mimeType, fe.encoding), Text(HexCodec, [pictureType]),
                      Decode(description, fe.encoding), fe.terminator[1..] + data)
  {
    var term := fe.terminator;
    var m := 1 + |mimeType|;
    var d := m + |term| + 1;
    PictureTerminators(frame, mimeType, term, [pictureType] + description + term + data, d, description, data);
    DispatchPicture(frame, fe, m, d, d + |description|, mimeType, [pictureType], description, term[1..] + data);
  }

  /** Where the decoder finds the terminators of the MIME type and of the
      description. */
  lemma PictureTerminators(frame: seq<byte>, mimeType: seq<byte>, term: seq<byte>, afterMimeType: seq<byte>,
                           d: nat, description: seq<byte>, data: seq<byte>)
    requires |term| > 0 && FreeOf(mimeType, term) && FreeOf(description, term)
    requires |frame| > 0 && frame[1..] == mimeType + term + afterMimeType
    requires d <= |frame| && frame[d..] == description + term + data
    ensures IndexOf(frame, term, 1) == 1 + |mimeType| && IndexOf(frame, term, d) == d + |description|
  {
    MimeTypeEnd(frame, mimeType, term, afterMimeType);
    DescriptionEnd(frame, d, description, term, data);
  }

  /** Where the decoder looks for the fields of the UTF-16 picture frame
      of `WidePictureMisread`: the first 00 00 from byte 1 is the
      description's terminator, and no 00 00 follows it. */
  lemma WidePictureEnds(frame: seq<byte>)
    requires frame == [1, 0x61, 0, 3, 0xFF, 0xFE, 0x62, 0, 0, 0, 0xAB]
    ensures ParseFrameEncoding(frame) == FrameEncoding(Utf16, [0, 0])
    ensures PictureEnds(frame, [0, 0]) == (7, -1)
  {
    assert frame[7..9] == [0, 0];
    NotOccursAt(frame, [0, 0], 1, 0);
    NotOccursAt(frame, [0, 0], 2, 1);
    NotOccursAt(frame, [0, 0], 3, 0);
    NotOccursAt(frame, [0, 0], 4, 0);
    NotOccursAt(frame, [0, 0], 5, 0);
    NotOccursAt(frame, [0, 0], 6, 0);
    IndexOfFinds(frame, [0, 0], 1, 7);
  }

  /** A UTF-16 APIC frame laid out as section 4.14 of the ID3v2.4 frames
      document says: MIME type "a" and its single zero byte, picture type
      3, description "b" (FF FE 62 00) and its 00 00, picture data AB. The
      decoder reads the MIME type up to the description's terminator, the
      byte after that terminator as the picture type, an empty
      description, and the whole frame as the picture data. */
  lemma WidePictureMisread()
    ensures DecodeFrame("APIC", [1, 0x61, 0, 3, 0xFF, 0xFE, 0x62, 0, 0, 0, 0xAB])
            == Ok(PictureFrame("APIC", Text(Utf16LeCodec, [0, 0x61, 0xFF, 3, 0x62, 0xFE]), Text(HexCodec, [0]),
                               Text(Utf16LeCodec, []), [1, 0x61, 0, 3, 0xFF, 0xFE, 0x62, 0, 0, 0, 0xAB]))
  {
    var frame: seq<byte> := [1, 0x61, 0, 3, 0xFF, 0xFE, 0x62, 0, 0, 0, 0xAB];
    WidePictureEnds(frame);
    WidePictureFields(frame);
    assert DecodeFrame("APIC", frame) == Ok(DecodePicture("APIC", frame));
  }

  /** The fields the decoder cuts from that frame. */
  lemma WidePictureFields(frame: seq<byte>)
    requires frame == [1, 0x61, 0, 3, 0xFF, 0xFE, 0x62, 0, 0, 0, 0xAB]
    ensures PictureBetween("APIC", frame, FrameEncoding(Utf16, [0, 0]), 7, -1)
            == PictureFrame("APIC", Text(Utf16LeCodec, [0, 0x61, 0xFF, 3, 0x62, 0xFE]), Text(HexCodec, [0]),
                            Text(Utf16LeCodec, []), frame)
  {
    var mimeType: seq<byte> := [0x61, 0, 3, 0xFF, 0xFE, 0x62];
    assert Slice(frame, 1, 7) == mimeType;
    assert SwappedPairs(mimeType) == [0, 0x61, 0xFF, 3, 0x62, 0xFE];
    assert Decode(mimeType, Utf16) == Text(Utf16LeCodec, [0, 0x61, 0xFF, 3, 0x62, 0xFE]);
    assert Slice(frame, 9, 10) == [0];
    assert Slice(frame, 10, -1) == [];
    assert SliceFrom(frame, 0) == frame;
  }

  /** The decoder searches for a two-byte terminator at every byte offset,
      not only at even ones: a UTF-16LE descriptor "A" (FF FE 41 00)
      followed by its terminator 00 00 is cut one byte early, and the
      value starts one byte too soon. */
  lemma UnalignedTerminator()
    ensures DecodeFrame("TXXX", [1, 0xFF, 0xFE, 0x41, 0x00, 0x00, 0x00, 0xFF, 0xFE, 0x42, 0x00])
            == Ok(UserTextFrame("TXXX", Text(Utf16LeCodec, [0x41]), Text(Utf16LeCodec, [0xFF, 0x00, 0x42, 0xFE])))
  {
    var frame: seq<byte> := [1, 0xFF, 0xFE, 0x41, 0x00, 0x00, 0x00, 0xFF, 0xFE, 0x42, 0x00];
    UnalignedSplit(frame);
    assert SwappedPairs([0x00, 0xFF, 0xFE, 0x42, 0x00]) == [0xFF, 0x00, 0x42, 0xFE];
    DispatchUserText(frame, ParseFrameEncoding(frame), [0xFF, 0xFE, 0x41], 6, [0x00, 0xFF, 0xFE, 0x42, 0x00]);
  }

  /** Where that frame's descriptor ends: at the first 00 00, which
      straddles the descriptor's last byte. */
  lemma UnalignedSplit(frame: seq<byte>)
    requires frame == [1, 0xFF, 0xFE, 0x41, 0x00, 0x00, 0x00, 0xFF, 0xFE, 0x42, 0x00]
    ensures ParseFrameEncoding(frame) == FrameEncoding(Utf16, [0, 0])
    ensures Field(frame, [0, 0], 1) == ([0xFF, 0xFE, 0x41], 6)
    ensures SliceFrom(frame, 6) == [0x00, 0xFF, 0xFE, 0x42, 0x00]
  {
    assert frame[4..6] == [0, 0];
    NotOccursAt(frame, [0, 0], 1, 0);
    NotOccursAt(frame, [0, 0], 2, 0);
    NotOccursAt(frame, [0, 0], 3, 0);
    IndexOfFinds(frame, [0, 0], 1, 4);
    assert frame[1..4] == [0xFF, 0xFE, 0x41];
    assert frame[6..] == [0x00, 0xFF, 0xFE, 0x42, 0x00];
  }

  /** The same descriptor is not one the round-trip lemmas accept: its
      last byte and the terminator's first form a terminator. */
  lemma UnalignedDescriptorNotFree()
    ensures !FreeOf([0xFF, 0xFE, 0x41, 0x00], [0, 0])
  {
    var field: seq<byte> := [0xFF, 0xFE, 0x41, 0x00];
    var zeros: seq<byte> := [0, 0];
    assert (field + zeros)[3..5] == zeros;
    assert OccursAt(field + zeros, zeros, 3);
  }

  lemma NotOccursAt(buf: seq<byte>, needle: seq<byte>, j: nat, k: nat)
    requires k < |needle| && j + |needle| <= |buf| && buf[j + k] != needle[k]
    ensures !OccursAt(buf, needle, j)
  {
    assert buf[j..j + |needle|][k] == buf[j + k];
  }

  /** A synchronised lyric as stored: its text bytes and its timestamp. */
  datatype StoredLyric = StoredLyric(text: seq<byte>, timeStamp: nat)

  predicate Storable(lines: seq<StoredLyric>, terminator: seq<byte>)
  {
    forall i :: 0 <= i < |lines| ==> lines[i].timeStamp < 0x1_0000_0000 && FreeOf(lines[i].text, terminator)
  }

  /** The lyric part of a SYLT frame with four-byte timestamps: each text,
      its terminator, then its timestamp big-endian. */
  function EncodeLyrics(lines: seq<StoredLyric>, terminator: seq<byte>): (r: seq<byte>)
    requires Storable(lines, terminator)
    ensures lines == [] ==> r == []
    ensures lines != [] ==> |r| >= |terminator| + 4
  {
    if lines == [] then []
    else lines[0].text + terminator + BigEndian32(lines[0].timeStamp) + EncodeLyrics(lines[1..], terminator)
  }

  function DecodedLyrics(lines: seq<StoredLyric>, enc: Encoding): (r: seq<Lyric>)
    ensures |r| == |lines|
    ensures forall i :: 0 <= i < |lines| ==> r[i] == Lyric(lines[i].timeStamp, Decode(lines[i].text, enc))
  {
    seq(|lines|, i requires 0 <= i < |lines| => Lyric(lines[i].timeStamp, Decode(lines[i].text, enc)))
  }

  /** One round of the SYLT loop over a stored lyric. */
  lemma LyricRoundOf(text: seq<byte>, terminator: seq<byte>, stamp: seq<byte>, tail: seq<byte>)
    requires |terminator| > 0 && FreeOf(text, terminator) && |stamp| == 4
    ensures LyricRound(text + terminator + stamp + tail, terminator, 4) == (text, stamp, tail)
  {
    var u := text + terminator + stamp + tail;
    assert u[..|text| + |terminator|] == text + terminator;
    FindTerminatorAt(u, 0, text, terminator);
    var textEnd := |text| + |terminator|;
    assert u[..|text|] == text;
    assert u[textEnd..textEnd + 4] == stamp;
    assert u[textEnd + 4..] == tail;
  }

  /** The SYLT loop reads back every stored (timestamp, text) pair, in
      order, when timestamps are four bytes wide. */
  lemma {:induction false} SyncedLyricsRoundTrip(lines: seq<StoredLyric>, enc: Encoding, terminator: seq<byte>)
    requires |terminator| > 0 && Storable(lines, terminator)
    ensures SyncedLyrics(EncodeLyrics(lines, terminator), enc, terminator, 4) == Ok(DecodedLyrics(lines, enc))
  {
    if lines != [] {
      StorableSplits(lines, terminator);
      FirstLyricRound(lines, enc, terminator);
      SyncedLyricsRoundTrip(lines[1..], enc, terminator);
      DecodedLyricsSplits(lines, enc);
    }
  }

  /** The first stored lyric is read back by the first round of the loop. */
  lemma FirstLyricRound(lines: seq<StoredLyric>, enc: Encoding, terminator: seq<byte>)
    requires |terminator| > 0 && lines != [] && Storable(lines, terminator) && Storable(lines[1..], terminator)
    requires lines[0].timeStamp < 0x1_0000_0000 && FreeOf(lines[0].text, terminator)
    ensures SyncedLyrics(EncodeLyrics(lines, terminator), enc, terminator, 4)
            == Prepend([Lyric(lines[0].timeStamp, Decode(lines[0].text, enc))],
                       SyncedLyrics(EncodeLyrics(lines[1..], terminator), enc, terminator, 4))
  {
    var line := lines[0];
    var stamp := BigEndian32(line.timeStamp);
    var tail := EncodeLyrics(lines[1..], terminator);
    BigEndian32RoundTrip(line.timeStamp);
    LyricRoundOf(line.text, terminator, stamp, tail);
    SyncedLyricsUnfold(line.text + terminator + stamp + tail, enc, terminator, line.text, stamp, tail);
  }

  lemma DecodedLyricsSplits(lines: seq<StoredLyric>, enc: Encoding)
    requires lines != []
    ensures DecodedLyrics(lines, enc) == [Lyric(lines[0].timeStamp, Decode(lines[0].text, enc))] + DecodedLyrics(lines[1..], enc)
  {
  }

  lemma StorableSplits(lines: seq<StoredLyric>, terminator: seq<byte>)
    requires lines != [] && Storable(lines, terminator)
    ensures lines[0].timeStamp < 0x1_0000_0000 && FreeOf(lines[0].text, terminator)
    ensures Storable(lines[1..], terminator)
  {
    forall i | 0 <= i < |lines| - 1
      ensures lines[1..][i].timeStamp < 0x1_0000_0000 && FreeOf(lines[1..][i].text, terminator)
    {
      assert lines[1..][i] == lines[i + 1];
    }
  }

  /** One round of `SyncedLyrics` with four-byte timestamps. */
  lemma SyncedLyricsUnfold(lyrics: seq<byte>, enc: Encoding, terminator: seq<byte>,
                           text: seq<byte>, stamp: seq<byte>, tail: seq<byte>)
    requires |terminator| > 0 && |lyrics| > 0 && |stamp| == 4
    requires LyricRound(lyrics, terminator, 4) == (text, stamp, tail)
    ensures SyncedLyrics(lyrics, enc, terminator, 4)
            == Prepend([Lyric(BigEndian(stamp), Decode(text, enc))], SyncedLyrics(tail, enc, terminator, 4))
  {
  }

  /** A whole SYLT frame (section 4.9 of the ID3v2.4 frames document)
      with timestamp format $01 or $02. */
  lemma SyncedLyricsFrameRoundTrip(encodingByte: byte, language: seq<byte>, timeStampFormat: byte, contentType: byte,
                                   descriptor: seq<byte>, lines: seq<StoredLyric>)
    requires |language| == 3 && (timeStampFormat == 1 || timeStampFormat == 2)
    requires FreeOf(descriptor, EncodingOf(encodingByte).terminator)
    requires Storable(lines, EncodingOf(encodingByte).terminator)
    ensures var fe := EncodingOf(encodingByte);
      DecodeFrame("SYLT", [encodingByte] + language + [timeStampFormat, contentType] + descriptor + fe.terminator
                          + EncodeLyrics(lines, fe.terminator))
      == Ok(SyncedLyricsFrame("SYLT", Text(AsciiCodec, language), Text(HexCodec, [timeStampFormat]),
                              Text(HexCodec, [contentType]), Decode(descriptor, fe.encoding),
                              DecodedLyrics(lines, fe.encoding)))
  {
    var fe := EncodingOf(encodingByte);
    var frame := [encodingByte] + language + [timeStampFormat, contentType] + descriptor + fe.terminator
                 + EncodeLyrics(lines, fe.terminator);
    StoredLyricsFrame(encodingByte, language, timeStampFormat, contentType, descriptor, lines);
    SyncedLyricsBranch(frame);
  }

  /** The SYLT branch reads back a frame put together from its fields and
      stored lyrics. */
  lemma StoredLyricsFrame(encodingByte: byte, language: seq<byte>, timeStampFormat: byte, contentType: byte,
                          descriptor: seq<byte>, lines: seq<StoredLyric>)
    requires |language| == 3 && (timeStampFormat == 1 || timeStampFormat == 2)
    requires FreeOf(descriptor, EncodingOf(encodingByte).terminator)
    requires Storable(lines, EncodingOf(encodingByte).terminator)
    ensures var fe := EncodingOf(encodingByte);
      DecodeSyncedLyrics("SYLT", [encodingByte] + language + [timeStampFormat, contentType] + descriptor + fe.terminator
                                 + EncodeLyrics(lines, fe.terminator))
      == Ok(SyncedLyricsFrame("SYLT", Text(AsciiCodec, language), Text(HexCodec, [timeStampFormat]),
                              Text(HexCodec, [contentType]), Decode(descriptor, fe.encoding),
                              DecodedLyrics(lines, fe.encoding)))
  {
    var fe := EncodingOf(encodingByte);
    SyncedLyricsFrameOf(encodingByte, language, timeStampFormat, contentType, descriptor, EncodeLyrics(lines, fe.terminator));
    SyncedLyricsRoundTrip(lines, fe.encoding, fe.terminator);
    assert TimeStampWidth([timeStampFormat]) == 4;
  }

  /** The SYLT branch on a frame put together from its fields and any
      lyric part `body`: when the lyric loop reads `body` without throwing,
      the frame holds those fields and what the loop read. */
  lemma SyncedLyricsFrameOf(encodingByte: byte, language: seq<byte>, timeStampFormat: byte, contentType: byte,
                            descriptor: seq<byte>, body: seq<byte>)
    requires |language| == 3 && FreeOf(descriptor, EncodingOf(encodingByte).terminator)
    ensures var fe := EncodingOf(encodingByte);
      var read := SyncedLyrics(body, fe.encoding, fe.terminator, TimeStampWidth([timeStampFormat]));
      read.Ok? ==>
        DecodeSyncedLyrics("SYLT", [encodingByte] + language + [timeStampFormat, contentType] + descriptor + fe.terminator + body)
        == Ok(SyncedLyricsFrame("SYLT", Text(AsciiCodec, language), Text(HexCodec, [timeStampFormat]),
                                Text(HexCodec, [contentType]), Decode(descriptor, fe.encoding), read.value))
  {
    var fe := EncodingOf(encodingByte);
    var read := SyncedLyrics(body, fe.encoding, fe.terminator, TimeStampWidth([timeStampFormat]));
    if read.Ok? {
      var frame := [encodingByte] + language + [timeStampFormat, contentType] + descriptor + fe.terminator + body;
      SyncedLyricsLayout(encodingByte, language, timeStampFormat, contentType, descriptor, body);
      DispatchSyncedLyrics(frame, SyncedLyricsFields(fe, language, [timeStampFormat], [contentType], descriptor, body),
                           read.value);
    }
  }

  /** The SYLT branch finds the fields a SYLT frame was put together
      from. */
  lemma SyncedLyricsLayout(encodingByte: byte, language: seq<byte>, timeStampFormat: byte, contentType: byte,
                           descriptor: seq<byte>, body: seq<byte>)
    requires |language| == 3 && FreeOf(descriptor, EncodingOf(encodingByte).terminator)
    ensures var fe := EncodingOf(encodingByte);
      FieldsOfSyncedLyrics([encodingByte] + language + [timeStampFormat, contentType] + descriptor + fe.terminator + body)
      == SyncedLyricsFields(fe, language, [timeStampFormat], [contentType], descriptor, body)
  {
    var term := EncodingOf(encodingByte).terminator;
    var head := [encodingByte] + language + [timeStampFormat, contentType];
    var frame := head + descriptor + term + body;
    SyncedLyricsHead(encodingByte, language, timeStampFormat, contentType);
    FieldsAfterHead(head, descriptor, term, body);
    ParseFrameEncodingFirstByte(frame);
    assert Slice(frame, 1, 4) == language && Slice(frame, 4, 5) == [timeStampFormat] && Slice(frame, 5, 6) == [contentType];
  }

  /** Where the fixed-width fields of a SYLT frame sit. */
  lemma SyncedLyricsHead(encodingByte: byte, language: seq<byte>, timeStampFormat: byte, contentType: byte)
    requires |language| == 3
    ensures var head := [encodingByte] + language + [timeStampFormat, contentType];
      && |head| == 6 && head[0] == encodingByte && head[1..4] == language
      && head[4..5] == [timeStampFormat] && head[5..6] == [contentType]
  {
  }

  /** A six-byte head followed by a terminated field: the head's bytes
      stay in place and the field is found right after it. */
  lemma FieldsAfterHead(head: seq<byte>, field: seq<byte>, terminator: seq<byte>, rest: seq<byte>)
    requires |head| == 6 && |terminator| > 0 && FreeOf(field, terminator)
    ensures var frame := head + field + terminator + rest;
      && |frame| >= 6 && frame[0] == head[0] && frame[1..4] == head[1..4]
      && frame[4..5] == head[4..5] && frame[5..6] == head[5..6]
      && Field(frame, terminator, 6) == (field, 6 + |field| + |terminator|)
      && SliceFrom(frame, 6 + |field| + |terminator|) == rest
  {
    var frame := head + field + terminator + rest;
    FieldSplits(head, field, terminator, rest);
    assert frame == head + (field + terminator + rest);
  }

  /** With a timestamp format other than $01 and $02 the timestamps are
      zero bytes wide, and `readUIntBE(0, 0)` throws on the first lyric. */
  lemma ZeroWidthTimeStampThrows(lyrics: seq<byte>, enc: Encoding, terminator: seq<byte>)
    requires |terminator| > 0 && |lyrics| > 0
    ensures SyncedLyrics(lyrics, enc, terminator, 0) == Err(RangeError)
  {
    var (_, stamp, _) := LyricRound(lyrics, terminator, 0);
    assert |stamp| == 0;
  }
}
