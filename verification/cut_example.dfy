/**
 * Where the cutting of the stream changes what the `'data'` handler
 * reads. The body of this version 3 tag is thirteen zero bytes followed
 * by a `TIT2` frame declaring two bytes, so it is not laid out as
 * `Cutting.Layout` asks. Fed whole, state 1 finds the id at offset 13
 * but takes the value from offset 10 of its buffer: `00 00`, and the
 * same frame is found once more. Cut right after the zeros, state 1
 * keeps the last three of them, finds the id at offset 3 and takes the
 * size's last byte and a flag byte as the value: `02 00`.
 */
module CutExample {
  import opened Wrappers
  import opened NodeBuffer
  import opened Sizes
  import opened Collect
  import opened TagStream
  import opened StreamFacts
  import opened Cutting

  /** A format that hands on the raw value bytes of every frame. */
  function RawValues(): Format<seq<byte>>
  {
    Format((name: string, value: seq<byte>) => Ok(value), (value: seq<byte>) => [], (value: seq<byte>) => [])
  }

  const TagHeader: seq<byte> := [0x49, 0x44, 0x33, 3, 0, 0, 0, 0, 0, 25]

  const TagBody: seq<byte> := [0, 0, 0, 0, 0, 0, 0, 0, 0, 0, 0, 0, 0,
                               0x54, 0x49, 0x54, 0x32, 0, 0, 0, 2, 0, 0, 0, 0x41]

  /** The reader once the header above has been read. */
  function Ready(): (r: Reader<seq<byte>>)
    ensures r.phase == ReadingFrameHeader && r.framesSize == 25 && r.majorVersion == 3
  {
    Initial({}).(majorVersion := 3, framesSize := 25, phase := ReadingFrameHeader)
  }

  lemma ReadsHeader(rest: seq<byte>)
    ensures ReadHeader(Subscribe, Initial({}), TagHeader + rest) == Next(Ready(), rest)
    ensures Handle(RawValues(), Subscribe, Initial({}), TagHeader + rest) == Handle(RawValues(), Subscribe, Ready(), rest)
  {
    var hdr := TagHeader + rest;
    var s0: Reader<seq<byte>> := Initial({});
    assert s0.header + hdr == hdr;
    assert hdr[..3] == [0x49, 0x44, 0x33];
    assert AsciiString([0x49, 0x44, 0x33]) == "ID3";
    assert IsId3Signature(hdr);
    assert hdr[3] == 3;
    assert hdr[6..10] == [0, 0, 0, 25];
    assert TagSize(hdr) == 25;
    assert hdr[HeaderSize..] == rest;
    var s1 := s0.(header := hdr);
    assert ReadHeader(Subscribe, s0, hdr) == ReadVersion(Subscribe, s1, hdr);
    assert ReadVersion(Subscribe, s1, hdr) == Next(Ready(), rest);
  }

  lemma SizeTwo()
    ensures BigEndian([0, 0, 0, 2]) == 2
  {
    assert [0, 0, 0, 2][..3] == [0, 0, 0];
    assert [0, 0, 0][..2] == [0, 0];
    assert [0, 0][..1] == [0];
    assert [0][..0] == [];
  }

  /** State 2 under `RawValues` in the subscription form: the value is
      heard as it is, and the surplus goes back to state 1. */
  lemma RawValueStep(s: Reader<seq<byte>>, chunk: seq<byte>)
    requires s.phase == ReadingFrameValue && s.frameValueLength <= |s.frameValue + chunk| && !s.end
    ensures var fv := s.frameValue + chunk;
      StepOnce(RawValues(), Subscribe, s, chunk)
      == Next(s.(events := s.events + [FrameEvent(fv[..s.frameValueLength])], frameValue := [],
                 phase := ReadingFrameHeader),
              fv[s.frameValueLength..])
  {
  }

  /** The id and size of the example's frame: `TIT2`, two bytes. */
  const TitleHeader: seq<byte> := [0x54, 0x49, 0x54, 0x32, 0, 0, 0, 2]

  const TitleName: string := AsciiString(TitleHeader[..4])

  /** A buffer of state 1 holding zeros up to `i`, then the example's
      frame header at `i`, and at least the two value bytes after ten. */
  predicate TitleAt(fh: seq<byte>, i: nat)
  {
    && FrameHeaderSize + 2 <= |fh| && i + 8 <= |fh| && fh[i..i + 8] == TitleHeader
    && forall j :: 0 <= j < i ==> fh[j] == 0
  }

  /** Zero bytes hold no id-shaped window. */
  lemma NoIdInZeros(z: seq<byte>)
    requires forall i :: 0 <= i < |z| ==> z[i] == 0
    ensures forall j: nat :: !IsFrameIdAt(z, j)
  {
    forall j: nat
      ensures !IsFrameIdAt(z, j)
    {
      if j + 4 <= |z| {
        assert z[j] == 0;
      }
    }
  }

  /** State 1 finds the example's frame at `i`, whatever the zeros before
      it, and takes the value from offset 10 of its buffer. */
  lemma ScanToTitle(s: Reader<seq<byte>>, chunk: seq<byte>, i: nat)
    requires s.majorVersion == 3 && TitleAt(s.frameHeader + chunk, i)
    ensures ScanFrameHeader(s, chunk)
            == Next(s.(frameName := TitleName, frameValueLength := 2, frameHeader := [], phase := ReadingFrameValue),
                    (s.frameHeader + chunk)[FrameHeaderSize..])
  {
    var fh := s.frameHeader + chunk;
    var w := fh[i..i + 8];
    assert w[0] == 0x54 && w[1] == 0x49 && w[2] == 0x54 && w[3] == 0x32;
    assert IsFrameIdAt(fh, i);
    forall j: nat | j < i
      ensures !IsFrameIdAt(fh, j)
    {
      assert fh[j] == 0;
    }
    assert fh[i..i + 4] == w[..4];
    assert fh[i + 4..i + 8] == w[4..] == [0, 0, 0, 2];
    SizeTwo();
    ScanFindsLeftmostId(s, chunk, i, 2);
  }

  /** State 2 with a two-byte value under `RawValues`: the value is heard
      and the rest goes back to state 1. */
  lemma ValueThenScan(s: Reader<seq<byte>>, fv: seq<byte>)
    requires s.phase == ReadingFrameValue && s.frameValue == [] && s.frameValueLength == 2 && !s.end
    requires 2 <= |fv|
    ensures Drain(RawValues(), Subscribe, s, fv)
            == Drain(RawValues(), Subscribe, s.(events := s.events + [FrameEvent(fv[..2])], frameValue := [],
                                               phase := ReadingFrameHeader), fv[2..])
  {
    assert s.frameValue + fv == fv;
    RawValueStep(s, fv);
    DrainContinues(RawValues(), Subscribe, s, fv,
                   s.(events := s.events + [FrameEvent(fv[..2])], frameValue := [], phase := ReadingFrameHeader), fv[2..]);
  }

  /** State 1 finds the example's frame, state 2 hears its value, and the
      loop goes on with what follows the value. */
  lemma TitleFrame(s: Reader<seq<byte>>, chunk: seq<byte>, i: nat)
    requires s.phase == ReadingFrameHeader && s.frameValue == [] && !s.end && s.majorVersion == 3
    requires TitleAt(s.frameHeader + chunk, i)
    ensures var fh := s.frameHeader + chunk;
      Drain(RawValues(), Subscribe, s, chunk)
      == Drain(RawValues(), Subscribe, s.(frameName := TitleName, frameValueLength := 2, frameHeader := [],
                                         events := s.events + [FrameEvent(fh[10..12])]), fh[12..])
  {
    var fh := s.frameHeader + chunk;
    ScanToTitle(s, chunk, i);
    var b := s.(frameName := TitleName, frameValueLength := 2, frameHeader := [], phase := ReadingFrameValue);
    DrainContinues(RawValues(), Subscribe, s, chunk, b, fh[10..]);
    ValueThenScan(b, fh[10..]);
    assert fh[10..][..2] == fh[10..12] && fh[10..][2..] == fh[12..];
  }

  /** State 1 with fewer than ten bytes waits for more. */
  lemma ShortWait(s: Reader<seq<byte>>, rest: seq<byte>)
    requires s.phase == ReadingFrameHeader && |s.frameHeader + rest| < FrameHeaderSize
    ensures Drain(RawValues(), Subscribe, s, rest) == s.(frameHeader := s.frameHeader + rest)
  {
    DrainStops(RawValues(), Subscribe, s, rest, s.(frameHeader := s.frameHeader + rest));
  }

  /** State 1 over zeros only keeps the last three. */
  lemma ZerosScan(s: Reader<seq<byte>>, zeros: seq<byte>)
    requires s.phase == ReadingFrameHeader && s.frameHeader == []
    requires FrameHeaderSize <= |zeros| && forall i :: 0 <= i < |zeros| ==> zeros[i] == 0
    ensures Drain(RawValues(), Subscribe, s, zeros) == s.(frameHeader := zeros[|zeros| - 3..])
  {
    assert s.frameHeader + zeros == zeros;
    NoIdInZeros(zeros);
    ScanWithoutIdKeepsTail(s, zeros);
    DrainStops(RawValues(), Subscribe, s, zeros, s.(frameHeader := zeros[|zeros| - 3..]));
  }

  /** Where the example frame sits in the whole body, and again in what
      is left after its first value. */
  lemma WholeFacts()
    ensures TitleAt(TagBody, 13) && TagBody[10..12] == [0, 0]
    ensures TitleAt(TagBody[12..], 1) && TagBody[12..][10..12] == [0, 0] && |TagBody[12..][12..]| == 1
  {
    assert TagBody[13..21] == TitleHeader;
    assert TagBody[12..][1..9] == TitleHeader;
  }

  /** Where the example frame sits after a cut behind the zeros. */
  lemma CutFacts()
    ensures |TagBody[..13]| == 13 && forall i :: 0 <= i < 13 ==> TagBody[..13][i] == 0
    ensures TagBody[..13][10..] == [0, 0, 0]
    ensures TitleAt([0, 0, 0] + TagBody[13..], 3)
    ensures ([0, 0, 0] + TagBody[13..])[10..12] == [2, 0] && |([0, 0, 0] + TagBody[13..])[12..]| == 3
  {
    var fh := [0, 0, 0] + TagBody[13..];
    assert fh == [0, 0, 0, 0x54, 0x49, 0x54, 0x32, 0, 0, 0, 2, 0, 0, 0, 0x41];
    assert fh[3..11] == TitleHeader;
  }

  /** The first frame of the whole body: found at offset 13, value
      `00 00`. */
  lemma WholeFirst(s: Reader<seq<byte>>)
    requires s.phase == ReadingFrameHeader && s.frameHeader == [] && s.frameValue == [] && s.majorVersion == 3
    requires !s.end && s.events == []
    ensures Drain(RawValues(), Subscribe, s, TagBody)
            == Drain(RawValues(), Subscribe, s.(frameName := TitleName, frameValueLength := 2,
                                               events := [FrameEvent([0, 0])]), TagBody[12..])
  {
    var fmt := RawValues();
    var s1 := s.(frameName := TitleName, frameValueLength := 2, frameHeader := [],
                 events := s.events + [FrameEvent(TagBody[10..12])]);
    assert Drain(fmt, Subscribe, s, TagBody) == Drain(fmt, Subscribe, s1, TagBody[12..]) by {
      WholeFacts();
      assert s.frameHeader + TagBody == TagBody;
      TitleFrame(s, TagBody, 13);
    }
    assert s1 == s.(frameName := TitleName, frameValueLength := 2, events := [FrameEvent([0, 0])]) by {
      WholeFacts();
    }
  }

  /** The same frame again, at offset 1 of what is left, value `00 00`,
      then one byte kept. */
  lemma WholeSecond(s: Reader<seq<byte>>)
    requires s.phase == ReadingFrameHeader && s.frameHeader == [] && s.frameValue == [] && s.majorVersion == 3
    requires !s.end && !s.aborted
    ensures var r := Drain(RawValues(), Subscribe, s, TagBody[12..]);
      && r.events == s.events + [FrameEvent([0, 0])] && !r.end && !r.aborted && r.framesSize == s.framesSize
  {
    var rest := TagBody[12..];
    WholeFacts();
    assert s.frameHeader + rest == rest;
    TitleFrame(s, rest, 1);
    ShortWait(s.(frameName := TitleName, frameValueLength := 2, events := s.events + [FrameEvent([0, 0])]), rest[12..]);
  }

  /** The whole body in one pass of the loop: the frame is heard twice,
      with the value `00 00` both times. */
  lemma WholeBody(s: Reader<seq<byte>>)
    requires s.phase == ReadingFrameHeader && s.frameHeader == [] && s.frameValue == [] && s.majorVersion == 3
    requires !s.end && !s.aborted && s.events == []
    ensures var r := Drain(RawValues(), Subscribe, s, TagBody);
      && r.events == [FrameEvent([0, 0]), FrameEvent([0, 0])] && !r.end && !r.aborted && r.framesSize == s.framesSize
  {
    WholeFirst(s);
    WholeSecond(s.(frameName := TitleName, frameValueLength := 2, events := [FrameEvent([0, 0])]));
  }

  /** What follows the cut: the frame is found at offset 3 of the buffer,
      behind the three kept zeros, and its value is `02 00`. */
  lemma FrameAfterCut(s: Reader<seq<byte>>)
    requires s.phase == ReadingFrameHeader && s.frameHeader == [0, 0, 0] && s.frameValue == [] && s.majorVersion == 3
    requires !s.end && !s.aborted && s.events == []
    ensures var r := Drain(RawValues(), Subscribe, s, TagBody[13..]);
      && r.events == [FrameEvent([2, 0])] && !r.end && !r.aborted && r.framesSize == s.framesSize
  {
    var fmt := RawValues();
    var fh := s.frameHeader + TagBody[13..];
    var s1 := s.(frameName := TitleName, frameValueLength := 2, frameHeader := [],
                 events := [FrameEvent([2, 0])]);
    assert Drain(fmt, Subscribe, s, TagBody[13..]) == Drain(fmt, Subscribe, s1, fh[12..]) by {
      CutFacts();
      TitleFrame(s, TagBody[13..], 3);
    }
    assert |fh[12..]| == 3 by {
      CutFacts();
    }
    ShortWait(s1, fh[12..]);
  }

  lemma WholeStream()
    ensures FeedAll(RawValues(), Subscribe, Initial({}), [TagHeader + TagBody]).events
            == [FrameEvent([0, 0]), FrameEvent([0, 0]), EndEvent]
  {
    var fmt := RawValues();
    ReadsHeader(TagBody);
    assert |TagBody| == 25;
    assert CountDown(Ready(), TagBody) == (Ready().(framesSize := 0), TagBody);
    WholeBody(Ready().(framesSize := 0));
    var h := Handle(fmt, Subscribe, Initial({}), TagHeader + TagBody);
    assert FeedAll(fmt, Subscribe, Initial({}), [TagHeader + TagBody]) == FeedAll(fmt, Subscribe, h, []);
  }

  lemma CutStream()
    ensures FeedAll(RawValues(), Subscribe, Initial({}), [TagHeader + TagBody[..13], TagBody[13..]]).events
            == [FrameEvent([2, 0]), EndEvent]
  {
    var fmt := RawValues();
    var zeros, tail := TagBody[..13], TagBody[13..];
    ReadsHeader(zeros);
    assert CountDown(Ready(), zeros) == (Ready().(framesSize := 12), zeros);
    CutFacts();
    ZerosScan(Ready().(framesSize := 12), zeros);
    var a := Handle(fmt, Subscribe, Initial({}), TagHeader + zeros);
    assert a == Ready().(framesSize := 12, frameHeader := [0, 0, 0]);
    assert CountDown(a, tail) == (a.(framesSize := 0), tail);
    FrameAfterCut(a.(framesSize := 0));
    var b := Handle(fmt, Subscribe, a, tail);
    assert FeedAll(fmt, Subscribe, Initial({}), [TagHeader + zeros, tail]) == FeedAll(fmt, Subscribe, a, [tail]);
    assert FeedAll(fmt, Subscribe, a, [tail]) == FeedAll(fmt, Subscribe, b, []);
  }

  /** The same bytes read whole and cut after the zeros: two frames
      `00 00` in one case, one frame `02 00` in the other. */
  lemma CutAfterPaddingMatters()
    ensures !Layout(3, TagBody)
    ensures FeedAll(RawValues(), Subscribe, Initial({}), [TagHeader + TagBody]).events
            == [FrameEvent([0, 0]), FrameEvent([0, 0]), EndEvent]
    ensures FeedAll(RawValues(), Subscribe, Initial({}), [TagHeader + TagBody[..13], TagBody[13..]]).events
            == [FrameEvent([2, 0]), EndEvent]
  {
    assert !IsFrameIdAt(TagBody, 0) && IsFrameIdAt(TagBody, 13);
    WholeStream();
    CutStream();
  }
}
