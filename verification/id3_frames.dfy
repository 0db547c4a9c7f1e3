/**
 * `decodeFrame` of src/index.ts: the frame payload decoders for text
 * (TXXX, T*), URL (WXXX, W*), unsynchronised and synchronised lyrics
 * (USLT, SYLT) and attached-picture (APIC) frames, following sections
 * 4.2, 4.3, 4.8, 4.9 and 4.14 of the ID3v2.4 frames document; any other
 * frame is kept as raw bytes.
 */
module Id3Frames {
  import opened Wrappers
  import opened NodeBuffer
  import opened TextDecoder
  import opened Collect
  import opened TagStream

  /** The text encoding named by a frame's first byte and the terminator
      that ends its strings. */
  datatype FrameEncoding = FrameEncoding(encoding: Encoding, terminator: seq<byte>)

  predicate IsWide(enc: Encoding)
  {
    enc == Utf16 || enc == Utf16Be
  }

  /** `parseFrameEncoding`: $00 ISO-8859-1 (read as `ascii`), $01 UTF-16
      with a byte-order mark, $02 UTF-16BE, $03 UTF-8; any other byte, or
      a missing one, is read as `ascii`. */
  function ParseFrameEncoding(frame: seq<byte>): (r: FrameEncoding)
    ensures r.terminator == if IsWide(r.encoding) then [0, 0] else [0]
    ensures r.encoding == Utf16 <==> |frame| > 0 && frame[0] == 1
    ensures r.encoding == Utf16Be <==> |frame| > 0 && frame[0] == 2
    ensures r.encoding == Utf8 <==> |frame| > 0 && frame[0] == 3
    ensures r.encoding == Ascii <==> |frame| == 0 || frame[0] == 0 || frame[0] > 3
  {
    if |frame| > 0 && frame[0] == 0 then FrameEncoding(Ascii, [0])
    else if |frame| > 0 && frame[0] == 1 then FrameEncoding(Utf16, [0, 0])
    else if |frame| > 0 && frame[0] == 2 then FrameEncoding(Utf16Be, [0, 0])
    else if |frame| > 0 && frame[0] == 3 then FrameEncoding(Utf8, [0])
    else FrameEncoding(Ascii, [0])
  }

  /** One synchronised lyric: its timestamp and its text. */
  datatype Lyric = Lyric(timeStamp: nat, text: Text)

  datatype Frame =
    | TextFrame(id: string, text: Text)
    | UserTextFrame(id: string, descriptor: Text, text: Text)
    | UrlFrame(id: string, url: Text)
    | UserUrlFrame(id: string, descriptor: Text, url: Text)
    | LyricsFrame(id: string, languageCode: Text, descriptor: Text, text: Text)
    | SyncedLyricsFrame(id: string, languageCode: Text, timeStampFormat: Text, contentType: Text,
                        descriptor: Text, syncText: seq<Lyric>)
    | PictureFrame(id: string, mimeType: Text, descriptor: Text, description: Text, buffer: seq<byte>)
    | BinaryFrame(id: string, buffer: seq<byte>)
  {
    predicate HasDescriptor()
    {
      UserTextFrame? || UserUrlFrame? || LyricsFrame? || SyncedLyricsFrame? || PictureFrame?
    }
  }

  /** A terminated field starting at `from`: its bytes, and the offset
      just after its terminator. When no terminator is found `indexOf`
      gives -1, and the slices below take Node's negative-index meaning. */
  function Field(frame: seq<byte>, terminator: seq<byte>, from: nat): (r: (seq<byte>, int))
    requires |terminator| > 0
  {
    var end := IndexOf(frame, terminator, from);
    (Slice(frame, from, end), end + |terminator|)
  }

  predicate StartsWith(id: string, c: char)
  {
    |id| > 0 && id[0] == c
  }

  /** How many bytes a SYLT timestamp takes: four for the formats $01
      (MPEG frames) and $02 (milliseconds), none otherwise. */
  function TimeStampWidth(timeStampFormat: seq<byte>): (w: nat)
    ensures w == 4 || w == 0
    ensures w == 4 <==> timeStampFormat == [1] || timeStampFormat == [2]
  {
    if timeStampFormat == [1] || timeStampFormat == [2] then 4 else 0
  }

  /** One round of the SYLT loop over `lyrics`: the bytes of the text up
      to the first terminator, the timestamp bytes after it, and what
      remains. */
  function LyricRound(lyrics: seq<byte>, terminator: seq<byte>, width: nat): (r: (seq<byte>, seq<byte>, seq<byte>))
    requires |terminator| > 0
    ensures |r.1| <= width
    ensures |r.1| > 0 ==> |r.2| < |lyrics|
  {
    var textEnd := IndexOf(lyrics, terminator, 0) + |terminator|;
    (Slice(lyrics, 0, textEnd - |terminator|),
     Slice(lyrics, textEnd, textEnd + width),
     SliceFrom(lyrics, textEnd + width))
  }

  /** The lyric/timestamp pairs of a SYLT frame, in the order they are
      stored. Each round takes a terminated text and then a big-endian
      timestamp of `width` bytes; `readUIntBE` on zero bytes throws. */
  function SyncedLyrics(lyrics: seq<byte>, enc: Encoding, terminator: seq<byte>, width: nat): (r: Result<seq<Lyric>, Thrown>)
    requires |terminator| > 0
    ensures r.Ok? ==> |r.value| <= |lyrics|
    ensures lyrics == [] ==> r == Ok([])
    decreases |lyrics|
  {
    if |lyrics| == 0 then Ok([])
    else
      var (textBytes, timeStampBytes, rest) := LyricRound(lyrics, terminator, width);
      if |timeStampBytes| == 0 then Err(RangeError)
      else
        match SyncedLyrics(rest, enc, terminator, width)
        case Err(e) => Err(e)
        case Ok(more) => Ok([Lyric(BigEndian(timeStampBytes), Decode(textBytes, enc))] + more)
  }

  function Prepend(done: seq<Lyric>, r: Result<seq<Lyric>, Thrown>): Result<seq<Lyric>, Thrown>
  {
    match r
    case Ok(more) => Ok(done + more)
    case Err(e) => Err(e)
  }

  lemma PrependNothing(r: Result<seq<Lyric>, Thrown>)
    ensures Prepend([], r) == r
  {
    if r.Ok? {
      assert [] + r.value == r.value;
    }
  }

  lemma PrependTwice(first: seq<Lyric>, second: seq<Lyric>, r: Result<seq<Lyric>, Thrown>)
    ensures Prepend(first, Prepend(second, r)) == Prepend(first + second, r)
  {
    if r.Ok? {
      assert first + (second + r.value) == (first + second) + r.value;
    }
  }

  /** The SYLT loop as the source runs it, pushing onto `syncText` and
      cutting `unprocessedLyrics` down. */
  method ReadSyncedLyrics(lyrics: seq<byte>, enc: Encoding, terminator: seq<byte>, width: nat)
    returns (r: Result<seq<Lyric>, Thrown>)
    requires |terminator| > 0
    ensures r == SyncedLyrics(lyrics, enc, terminator, width)
  {
    var syncText: seq<Lyric> := [];
    var unprocessedLyrics := lyrics;
    PrependNothing(SyncedLyrics(lyrics, enc, terminator, width));
    while |unprocessedLyrics| > 0
      invariant Prepend(syncText, SyncedLyrics(unprocessedLyrics, enc, terminator, width))
                == SyncedLyrics(lyrics, enc, terminator, width)
      decreases |unprocessedLyrics|
    {
      var (textBytes, timeStampBytes, rest) := LyricRound(unprocessedLyrics, terminator, width);
      if |timeStampBytes| == 0 {
        return Err(RangeError);
      }
      var lyric := Lyric(BigEndian(timeStampBytes), Decode(textBytes, enc));
      assert SyncedLyrics(unprocessedLyrics, enc, terminator, width)
             == Prepend([lyric], SyncedLyrics(rest, enc, terminator, width));
      PrependTwice(syncText, [lyric], SyncedLyrics(rest, enc, terminator, width));
      syncText := syncText + [lyric];
      unprocessedLyrics := rest;
    }
    assert syncText + [] == syncText;
    return Ok(syncText);
  }

  /** TXXX and WXXX: an encoded descriptor, then the value from after its
      terminator, decoded with `valueEncoding`. */
  function UserField(frame: seq<byte>, valueEncoding: Option<Encoding>): (r: (Text, Text))
  {
    var fe := ParseFrameEncoding(frame);
    var (descriptor, after) := Field(frame, fe.terminator, 1);
    var enc := if valueEncoding.Some? then valueEncoding.value else fe.encoding;
    (Decode(descriptor, fe.encoding), Decode(SliceFrom(frame, after), enc))
  }

  function DecodeLyrics(id: string, frame: seq<byte>): (r: Frame)
    ensures r.LyricsFrame? && r.id == id
  {
    var fe := ParseFrameEncoding(frame);
    var (descriptor, after) := Field(frame, fe.terminator, 4);
    LyricsFrame(id, Decode(Slice(frame, 1, 4), Ascii), Decode(descriptor, fe.encoding),
                Decode(SliceFrom(frame, after), fe.encoding))
  }

  function DecodeSyncedLyrics(id: string, frame: seq<byte>): (r: Result<Frame, Thrown>)
    ensures r.Ok? ==> r.value.SyncedLyricsFrame? && r.value.id == id
    ensures r.Err? ==> r.error == RangeError
  {
    var fe := ParseFrameEncoding(frame);
    var timeStampFormat := Slice(frame, 4, 5);
    var (descriptor, after) := Field(frame, fe.terminator, 6);
    var lyrics := SyncedLyrics(SliceFrom(frame, after), fe.encoding, fe.terminator, TimeStampWidth(timeStampFormat));
    if lyrics.Err? then Err(RangeError)
    else
      Ok(SyncedLyricsFrame(id, Text(AsciiCodec, Slice(frame, 1, 4)), Text(HexCodec, timeStampFormat),
                           Text(HexCodec, Slice(frame, 5, 6)), Decode(descriptor, fe.encoding), lyrics.value))
  }

  function DecodePicture(id: string, frame: seq<byte>): (r: Frame)
    ensures r.PictureFrame? && r.id == id
  {
    var fe := ParseFrameEncoding(frame);
    var (mimeTypeEnd, descriptionEnd) := PictureEnds(frame, fe.terminator);
    PictureBetween(id, frame, fe, mimeTypeEnd, descriptionEnd)
  }

  /** Where the MIME type and the description end: the first terminator
      from byte 1, and the first one after the picture-type byte. */
  function PictureEnds(frame: seq<byte>, terminator: seq<byte>): (r: (int, int))
    requires |terminator| > 0
  {
    var mimeTypeEnd := IndexOf(frame, terminator, 1);
    (mimeTypeEnd, IndexOf(frame, terminator, mimeTypeEnd + |terminator| + 1))
  }

  /** The APIC fields once the ends of the MIME type and the description
      are known: one byte of picture type after the MIME type's
      terminator, and one byte skipped after the description. */
  function PictureBetween(id: string, frame: seq<byte>, fe: FrameEncoding, mimeTypeEnd: int, descriptionEnd: int): (r: Frame)
    ensures r.PictureFrame? && r.id == id
  {
    var descriptorEnd := mimeTypeEnd + |fe.terminator| + 1;
    PictureFrame(id,
                 Decode(Slice(frame, 1, mimeTypeEnd), fe.encoding),
                 Text(HexCodec, Slice(frame, mimeTypeEnd + |fe.terminator|, descriptorEnd)),
                 Decode(Slice(frame, descriptorEnd, descriptionEnd), fe.encoding),
                 SliceFrom(frame, descriptionEnd + 1))
  }

  /** `decodeFrame(id, frame)`: the branches are tried in this order, so
      TXXX and WXXX win over the T and W prefixes. Only SYLT can throw. */
  function DecodeFrame(id: string, frame: seq<byte>): (r: Result<Frame, Thrown>)
    ensures r.Ok? ==> r.value.id == id
    ensures r.Err? ==> id == "SYLT" && r.error == RangeError
    ensures id == "TXXX" ==> r.Ok? && r.value.UserTextFrame?
    ensures id != "TXXX" && StartsWith(id, 'T') ==> r.Ok? && r.value.TextFrame?
    ensures id == "WXXX" ==> r.Ok? && r.value.UserUrlFrame?
    ensures id != "WXXX" && StartsWith(id, 'W') ==> r.Ok? && r.value.UrlFrame?
    ensures id == "USLT" ==> r.Ok? && r.value.LyricsFrame?
    ensures id == "SYLT" && r.Ok? ==> r.value.SyncedLyricsFrame?
    ensures id == "APIC" ==> r.Ok? && r.value.PictureFrame?
    ensures !StartsWith(id, 'T') && !StartsWith(id, 'W') && id != "USLT" && id != "SYLT" && id != "APIC"
            ==> r == Ok(BinaryFrame(id, frame))
  {
    if id == "TXXX" then
      var (descriptor, text) := UserField(frame, None);
      Ok(UserTextFrame(id, descriptor, text))
    else if StartsWith(id, 'T') then
      Ok(TextFrame(id, Decode(SliceFrom(frame, 1), ParseFrameEncoding(frame).encoding)))
    else if id == "WXXX" then
      var (descriptor, url) := UserField(frame, Some(Ascii));
      Ok(UserUrlFrame(id, descriptor, url))
    else if StartsWith(id, 'W') then
      Ok(UrlFrame(id, Decode(frame, Ascii)))
    else if id == "USLT" then
      Ok(DecodeLyrics(id, frame))
    else if id == "SYLT" then
      DecodeSyncedLyrics(id, frame)
    else if id == "APIC" then
      Ok(DecodePicture(id, frame))
    else
      Ok(BinaryFrame(id, frame))
  }

  /** The keys the selective collector checks, in order: the id; for a
      frame with a content type (SYLT) `id:type` and `id:type:descriptor`;
      otherwise `id:descriptor` when there is a descriptor. */
  function SelectKeys(f: Frame): (keys: seq<Key>)
    ensures |keys| > 0 && forall k :: k in keys ==> k.id == f.id
    ensures keys[0] == Key(f.id, [])
    ensures |keys| == 1 <==> !f.HasDescriptor()
    ensures f.SyncedLyricsFrame? ==>
              keys[1..] == [Key(f.id, [f.contentType]), Key(f.id, [f.contentType, f.descriptor])]
    ensures f.HasDescriptor() && !f.SyncedLyricsFrame? ==> keys[1..] == [Key(f.id, [f.descriptor])]
  {
    [Key(f.id, [])]
    + if f.SyncedLyricsFrame? then [Key(f.id, [f.contentType]), Key(f.id, [f.contentType, f.descriptor])]
      else if f.HasDescriptor() then [Key(f.id, [f.descriptor])]
      else []
  }

  /** The keys the full collector files a frame under: the id, and
      `id:descriptor` when there is a descriptor. */
  function AllKeys(f: Frame): (keys: seq<Key>)
    ensures |keys| > 0 && forall k :: k in keys ==> k.id == f.id
    ensures keys[0] == Key(f.id, [])
    ensures |keys| == 1 <==> !f.HasDescriptor()
    ensures f.HasDescriptor() ==> keys[1..] == [Key(f.id, [f.descriptor])]
  {
    [Key(f.id, [])] + if f.HasDescriptor() then [Key(f.id, [f.descriptor])] else []
  }

  function Id3Format(): Format<Frame>
  {
    Format((id, frame) => DecodeFrame(id, frame), SelectKeys, AllKeys)
  }
}
