/**
 * What the `'data'` handler keeps true from chunk to chunk: events are
 * only ever appended, `'end'` and an escaped exception are final, the
 * selective collector files each requested key at most once and never a
 * key nobody asked for, and the declared tag size is counted down to
 * zero and then ends the parse.
 */
module StreamFacts {
  import opened Wrappers
  import opened NodeBuffer
  import opened Collect
  import opened Sizes
  import opened TagStream

  /** The selective collector's bookkeeping: every requested key is either
      still wanted or already filed, never both. */
  predicate Collected<F>(s: Reader<F>, needed: set<Key>)
  {
    s.result.Keys + s.leftNeeded == needed && s.result.Keys !! s.leftNeeded
  }

  /** What a later state of the same parse keeps of an earlier one: the
      wanted set only shrinks, no key appears or disappears, and once the
      bookkeeping is consistent a filed key keeps its frame. */
  ghost predicate Settled<F>(s: Reader<F>, t: Reader<F>)
  {
    && t.leftNeeded <= s.leftNeeded
    && t.result.Keys + t.leftNeeded == s.result.Keys + s.leftNeeded
    && (s.result.Keys !! s.leftNeeded ==>
          && t.result.Keys !! t.leftNeeded
          && forall k :: k in s.result ==> k in t.result && t.result[k] == s.result[k])
  }

  ghost predicate Grows<F>(mode: Mode, s: Reader<F>, t: Reader<F>)
  {
    && |s.events| <= |t.events| && t.events[..|s.events|] == s.events
    && (s.end ==> t.end) && (s.aborted ==> t.aborted)
    && (mode == Select ==> Settled(s, t))
  }

  lemma GrowsTransitive<F>(mode: Mode, s: Reader<F>, t: Reader<F>, u: Reader<F>)
    requires Grows(mode, s, t) && Grows(mode, t, u)
    ensures Grows(mode, s, u)
  {
    assert u.events[..|s.events|] == u.events[..|t.events|][..|s.events|];
  }

  lemma GrowsReflexive<F>(mode: Mode, s: Reader<F>)
    ensures Grows(mode, s, s)
  {
    assert s.events[..|s.events|] == s.events;
  }

  /** Appending events and nothing else. */
  lemma AppendGrows<F>(mode: Mode, s: Reader<F>, more: seq<Event<F>>)
    ensures Grows(mode, s, s.(events := s.events + more))
  {
    assert (s.events + more)[..|s.events|] == s.events;
  }

  /** Filing a frame in the selective collector keeps its bookkeeping. */
  lemma ClaimSettles<F>(s: Reader<F>, keys: seq<Key>, f: F)
    ensures var (left, result) := Claim(s.leftNeeded, s.result, keys, f);
      Settled(s, s.(leftNeeded := left, result := result))
  {
    var (left, result) := Claim(s.leftNeeded, s.result, keys, f);
    var claimed := KeySet(keys);
    assert left == s.leftNeeded - claimed;
    assert result.Keys == s.result.Keys + (s.leftNeeded * claimed);
    assert result.Keys + left == s.result.Keys + s.leftNeeded;
    if s.result.Keys !! s.leftNeeded {
      forall k | k in s.result
        ensures k in result && result[k] == s.result[k]
      {
        assert k !in s.leftNeeded;
      }
    }
  }

  lemma DeliverGrows<F>(fmt: Format<F>, mode: Mode, s: Reader<F>, f: F)
    ensures Grows(mode, s, Deliver(fmt, mode, s, f))
  {
    var s1 := s.(events := s.events + [FrameEvent(f)]);
    AppendGrows(mode, s, [FrameEvent(f)]);
    var r := Deliver(fmt, mode, s, f);
    if mode == Select {
      ClaimSettles(s1, fmt.selectKeys(f), f);
    }
  }

  lemma StepGrows<F>(fmt: Format<F>, mode: Mode, s: Reader<F>, chunk: seq<byte>)
    ensures Grows(mode, s, StepOnce(fmt, mode, s, chunk).state)
  {
    match s.phase
    case ReadingHeader => GrowsReflexive(mode, s);
    case ReadingFrameHeader => ScanGrows(mode, s, chunk);
    case ReadingFrameValue => ValueGrows(fmt, mode, s, chunk);
  }

  lemma ScanGrows<F>(mode: Mode, s: Reader<F>, chunk: seq<byte>)
    ensures Grows(mode, s, ScanFrameHeader(s, chunk).state)
  {
    AppendGrows(mode, s, [ThrownEvent(RangeError)]);
    GrowsReflexive(mode, s);
  }

  lemma ValueGrows<F>(fmt: Format<F>, mode: Mode, s: Reader<F>, chunk: seq<byte>)
    ensures Grows(mode, s, ReadFrameValue(fmt, mode, s, chunk).state)
  {
    var fv := s.frameValue + chunk;
    AppendGrows(mode, s, []);
    if |fv| >= s.frameValueLength {
      match fmt.decode(s.frameName, fv[..s.frameValueLength])
      case Err(e) => AppendGrows(mode, s, [ThrownEvent(e)]);
      case Ok(f) => DeliverGrows(fmt, mode, s.(frameValue := fv), f);
    }
  }

  /** The handler's loop only ever adds to what the parse has done. */
  lemma {:induction false} DrainGrows<F>(fmt: Format<F>, mode: Mode, s: Reader<F>, chunk: seq<byte>)
    ensures Grows(mode, s, Drain(fmt, mode, s, chunk))
    decreases Measure(s, chunk)
  {
    StepGrows(fmt, mode, s, chunk);
    match StepOnce(fmt, mode, s, chunk)
    case Stop(t) =>
      DrainStops(fmt, mode, s, chunk, t);
    case Next(t, rest) =>
      DrainContinues(fmt, mode, s, chunk, t, rest);
      DrainGrows(fmt, mode, t, rest);
      GrowsTransitive(mode, s, t, Drain(fmt, mode, t, rest));
  }

  lemma HandleGrows<F>(fmt: Format<F>, mode: Mode, s: Reader<F>, chunk: seq<byte>)
    ensures Grows(mode, s, Handle(fmt, mode, s, chunk))
  {
    if s.end || s.aborted {
      GrowsReflexive(mode, s);
    } else {
      var first := if s.phase == ReadingHeader then ReadHeader(mode, s, chunk) else Next(s, chunk);
      assert Grows(mode, s, first.state) by {
        if s.phase == ReadingHeader {
          ReadHeaderGrows(mode, s, chunk);
        } else {
          GrowsReflexive(mode, s);
        }
      }
      if first.Next? {
        var (u, c1) := CountDown(first.state, first.rest);
        assert Grows(mode, first.state, u);
        GrowsTransitive(mode, s, first.state, u);
        DrainGrows(fmt, mode, u, c1);
        var w := Drain(fmt, mode, u, c1);
        GrowsTransitive(mode, s, u, w);
        AppendGrows(mode, w.(end := true), [EndEvent]);
      }
    }
  }

  lemma ReadHeaderGrows<F>(mode: Mode, s: Reader<F>, chunk: seq<byte>)
    requires !s.aborted
    ensures Grows(mode, s, ReadHeader(mode, s, chunk).state)
  {
    var header := s.header + chunk;
    AppendGrows(mode, s, []);
    if |header| >= HeaderSize {
      var e1 := if mode == Subscribe then ErrorEvent(NoId3Tag) else ThrownEvent(UnhandledError(NoId3Tag));
      AppendGrows(mode, s, [e1]);
      var s1 := if IsId3Signature(header) then s.(header := header) else Signal(mode, s.(header := header), NoId3Tag);
      if !s1.aborted {
        VersionGrows(mode, s1, header);
        GrowsTransitive(mode, s, s1, ReadVersion(mode, s1, header).state);
      }
    }
  }

  lemma VersionGrows<F>(mode: Mode, s: Reader<F>, header: seq<byte>)
    requires !s.aborted && HeaderSize <= |header|
    ensures Grows(mode, s, ReadVersion(mode, s, header).state)
  {
    var e2 := if mode == Subscribe then ErrorEvent(UnsupportedVersion(header[3]))
              else ThrownEvent(UnhandledError(UnsupportedVersion(header[3])));
    AppendGrows(mode, s, []);
    AppendGrows(mode, s, [e2]);
  }

  /** Feeding chunks one by one. */
  lemma {:induction false} FeedAllGrows<F>(fmt: Format<F>, mode: Mode, s: Reader<F>, chunks: seq<seq<byte>>)
    ensures Grows(mode, s, FeedAll(fmt, mode, s, chunks))
    decreases |chunks|
  {
    if chunks == [] {
      GrowsReflexive(mode, s);
    } else {
      var t := Handle(fmt, mode, s, chunks[0]);
      HandleGrows(fmt, mode, s, chunks[0]);
      FeedAllGrows(fmt, mode, t, chunks[1..]);
      GrowsTransitive(mode, s, t, FeedAll(fmt, mode, t, chunks[1..]));
    }
  }

  /** A stream delivered in two parts is the same as the whole stream. */
  lemma {:induction false} FeedAllSplits<F>(fmt: Format<F>, mode: Mode, s: Reader<F>, first: seq<seq<byte>>,
                                            second: seq<seq<byte>>)
    ensures FeedAll(fmt, mode, s, first + second) == FeedAll(fmt, mode, FeedAll(fmt, mode, s, first), second)
    decreases |first|
  {
    if first != [] {
      assert (first + second)[0] == first[0] && (first + second)[1..] == first[1..] + second;
      FeedAllSplits(fmt, mode, Handle(fmt, mode, s, first[0]), first[1..], second);
    } else {
      assert first + second == second;
    }
  }

  /** After `'end'`, or after an exception escaped the handler, no chunk
      changes anything: no frame, no event, no result. */
  lemma {:induction false} FinishedStaysFinished<F>(fmt: Format<F>, mode: Mode, s: Reader<F>, chunks: seq<seq<byte>>)
    requires s.end || s.aborted
    ensures FeedAll(fmt, mode, s, chunks) == s
    decreases |chunks|
  {
    if chunks != [] {
      FinishedStaysFinished(fmt, mode, s, chunks[1..]);
    }
  }

  /** The selective collector from the start of a parse: the filed keys
      and the still-wanted keys split the requested keys between them, so
      no key that was not requested is ever filed. */
  lemma SelectFilesOnlyRequested<F>(fmt: Format<F>, needed: set<Key>, chunks: seq<seq<byte>>)
    ensures var r := FeedAll(fmt, Select, Initial(needed), chunks);
      Collected(r, needed) && r.result.Keys <= needed
  {
    var s := Initial<F>(needed);
    FeedAllGrows(fmt, Select, s, chunks);
  }

  /** A key the selective collector has filed keeps the frame that first
      matched it, whatever is read afterwards. */
  lemma FirstMatchWins<F>(fmt: Format<F>, needed: set<Key>, first: seq<seq<byte>>, later: seq<seq<byte>>, k: Key)
    requires k in FeedAll(fmt, Select, Initial(needed), first).result
    ensures var r := FeedAll(fmt, Select, Initial(needed), first + later);
      k in r.result && r.result[k] == FeedAll(fmt, Select, Initial(needed), first).result[k]
  {
    var s := FeedAll(fmt, Select, Initial<F>(needed), first);
    SelectFilesOnlyRequested(fmt, needed, first);
    FeedAllSplits(fmt, Select, Initial(needed), first, later);
    FeedAllGrows(fmt, Select, s, later);
  }

  /** State 1 waits until ten bytes are buffered and emits nothing before. */
  lemma ScanWaitsForTenBytes<F>(s: Reader<F>, chunk: seq<byte>)
    requires |s.frameHeader + chunk| < FrameHeaderSize
    ensures ScanFrameHeader(s, chunk) == Stop(s.(frameHeader := s.frameHeader + chunk))
  {
  }

  /** With no window of the buffer reading `[A-Z]{3}[A-Z0-9]`, state 1
      keeps only the last three bytes, which may still start an id. */
  lemma ScanWithoutIdKeepsTail<F>(s: Reader<F>, chunk: seq<byte>)
    requires |s.frameHeader + chunk| >= FrameHeaderSize
    requires forall j :: !IsFrameIdAt(s.frameHeader + chunk, j)
    ensures var fh := s.frameHeader + chunk;
      ScanFrameHeader(s, chunk) == Stop(s.(frameHeader := fh[|fh| - 3..]))
  {
  }

  /** The leftmost id-shaped window names the frame, its size is read
      after it, and the bytes from offset ten of the buffer go on to
      state 2, whatever offset the id was found at. */
  lemma ScanFindsLeftmostId<F>(s: Reader<F>, chunk: seq<byte>, i: nat, len: nat)
    requires |s.frameHeader + chunk| >= FrameHeaderSize
    requires IsFrameIdAt(s.frameHeader + chunk, i)
    requires forall j: nat :: j < i ==> !IsFrameIdAt(s.frameHeader + chunk, j)
    requires FrameSize(s.majorVersion, s.frameHeader + chunk, i) == Some(len)
    ensures var fh := s.frameHeader + chunk;
      ScanFrameHeader(s, chunk)
      == Next(s.(frameName := AsciiString(fh[i..i + 4]), frameValueLength := len, frameHeader := [],
                 phase := ReadingFrameValue), fh[FrameHeaderSize..])
  {
    var fh := s.frameHeader + chunk;
    assert FindFrameId(fh, 0) == Some(i);
  }

  /** State 2 decodes exactly the first `frameValueLength` bytes it has
      gathered, emits the frame, and hands the surplus back to state 1
      unless the listener ended the parse. */
  lemma ValueDecodesExactPrefix<F>(fmt: Format<F>, mode: Mode, s: Reader<F>, chunk: seq<byte>, f: F)
    requires |s.frameValue + chunk| >= s.frameValueLength
    requires fmt.decode(s.frameName, (s.frameValue + chunk)[..s.frameValueLength]) == Ok(f)
    ensures var r := ReadFrameValue(fmt, mode, s, chunk);
      && r.state.events[|s.events|] == FrameEvent(f)
      && (r.Next? <==> !r.state.end)
      && (r.Next? ==> r.state.phase == ReadingFrameHeader && r.state.frameValue == []
                      && r.rest == (s.frameValue + chunk)[s.frameValueLength..])
  {
  }

  /** The handler's loop never touches the declared tag size. */
  lemma {:induction false} DrainKeepsTagSize<F>(fmt: Format<F>, mode: Mode, s: Reader<F>, chunk: seq<byte>)
    ensures Drain(fmt, mode, s, chunk).framesSize == s.framesSize
    decreases Measure(s, chunk)
  {
    match StepOnce(fmt, mode, s, chunk)
    case Stop(t) =>
      DrainStops(fmt, mode, s, chunk, t);
    case Next(t, rest) =>
      DrainContinues(fmt, mode, s, chunk, t, rest);
      DrainKeepsTagSize(fmt, mode, t, rest);
  }

  /** Past the header, each chunk counts the declared size down by its
      length, never below zero, and `'end'` follows as soon as it reaches
      zero, unless an exception stopped the parse. */
  lemma CountsDownToEnd<F>(fmt: Format<F>, mode: Mode, s: Reader<F>, chunk: seq<byte>)
    requires !s.end && !s.aborted && s.phase != ReadingHeader
    ensures var r := Handle(fmt, mode, s, chunk);
      && r.framesSize == (if |chunk| <= s.framesSize then s.framesSize - |chunk| else 0)
      && (r.framesSize == 0 && !r.aborted ==> r.end)
  {
    var (u, c1) := CountDown(s, chunk);
    DrainKeepsTagSize(fmt, mode, u, c1);
  }
}
