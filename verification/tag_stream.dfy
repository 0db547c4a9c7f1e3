/**
 * The `'data'` handler of `readId3` (and of the older `streamTag`) as a
 * function from the reader's state and one chunk to the next state. The
 * class `Parser.Reader` runs the same handler imperatively and is proved
 * to agree with `Handle`.
 *
 * Events stand for what the handler emits: a decoded frame, `'end'`, an
 * `'error'`, or an exception thrown out of the handler.
 */
module TagStream {
  import opened Wrappers
  import opened NodeBuffer
  import opened Sizes
  import opened Collect

  const HeaderSize: nat := 10
  const FrameHeaderSize: nat := 10

  /** States 0, 1 and 2 of the handler. */
  datatype Phase = ReadingHeader | ReadingFrameHeader | ReadingFrameValue

  datatype TagError = NoId3Tag | UnsupportedVersion(major: byte)

  /** Exceptions that escape the handler: a RangeError from `readUIntBE`,
      or EventEmitter's own error when `'error'` is emitted with nobody
      listening. */
  datatype Thrown = RangeError | UnhandledError(error: TagError)

  datatype Event<F> = FrameEvent(frame: F) | EndEvent | ErrorEvent(error: TagError) | ThrownEvent(thrown: Thrown)

  /** Who listens: the caller of the subscription form, the selective
      collector, or the full collector. */
  datatype Mode = Subscribe | Select | Everything

  /** What differs between the two builds: how a frame payload is
      decoded and which keys a frame is filed under. */
  datatype Format<!F> = Format(
    decode: (string, seq<byte>) -> Result<F, Thrown>,
    selectKeys: F -> seq<Key>,
    allKeys: F -> seq<Key>)

  /** The closure state of one parse, with the collector's wanted set and
      result map, and everything emitted so far. */
  datatype Reader<F> = Reader(
    phase: Phase,
    end: bool,
    aborted: bool,
    header: seq<byte>,
    majorVersion: byte,
    framesSize: nat,
    frameHeader: seq<byte>,
    frameName: string,
    frameValue: seq<byte>,
    frameValueLength: nat,
    leftNeeded: set<Key>,
    result: map<Key, F>,
    events: seq<Event<F>>)

  function Initial<F>(needed: set<Key>): (r: Reader<F>)
    ensures r.phase == ReadingHeader && r.events == [] && r.leftNeeded == needed && r.result == map[]
  {
    Reader(ReadingHeader, false, false, [], 0, 0, [], "", [], 0, needed, map[], [])
  }

  /** One step of the handler: either go on with the bytes `rest`, or
      leave the handler. */
  datatype Step<F> = Next(state: Reader<F>, rest: seq<byte>) | Stop(state: Reader<F>)

  /** The first three header bytes read `ID3` through the `ascii` codec. */
  predicate IsId3Signature(header: seq<byte>)
    requires |header| >= 3
  {
    AsciiString(header[..3]) == "ID3"
  }

  /** Emit `'error'`: the subscriber hears it and parsing goes on; the
      collectors attach no `'error'` listener, so the emit throws. */
  function Signal<F>(mode: Mode, s: Reader<F>, e: TagError): (r: Reader<F>)
    ensures r.aborted <==> s.aborted || mode != Subscribe
    ensures mode == Subscribe ==> r == s.(events := s.events + [ErrorEvent(e)])
    ensures mode != Subscribe ==> r.events == s.events + [ThrownEvent(UnhandledError(e))]
  {
    if mode == Subscribe then s.(events := s.events + [ErrorEvent(e)])
    else s.(aborted := true, events := s.events + [ThrownEvent(UnhandledError(e))])
  }

  /** State 0: buffer the header until ten bytes are there, check it, take
      the version and the tag size, and pass on what follows it. */
  function ReadHeader<F>(mode: Mode, s: Reader<F>, chunk: seq<byte>): (r: Step<F>)
    requires !s.aborted
  {
    var header := s.header + chunk;
    if |header| < HeaderSize then Stop(s.(header := header))
    else
      var s1 := if IsId3Signature(header) then s.(header := header) else Signal(mode, s.(header := header), NoId3Tag);
      if s1.aborted then Stop(s1) else ReadVersion(mode, s1, header)
  }

  /** State 0 once ten header bytes are there and the signature is
      checked: the version, then the tag size. */
  function ReadVersion<F>(mode: Mode, s: Reader<F>, header: seq<byte>): (r: Step<F>)
    requires !s.aborted && HeaderSize <= |header|
  {
    var s2 := s.(majorVersion := header[3]);
    var s3 := if header[3] == 3 || header[3] == 4 then s2 else Signal(mode, s2, UnsupportedVersion(header[3]));
    if s3.aborted then Stop(s3)
    else Next(s3.(framesSize := TagSize(header), header := [], phase := ReadingFrameHeader), header[HeaderSize..])
  }

  /** Subtract the chunk from the bytes the tag still declares; a chunk
      that overruns is cut to exactly the remaining count. */
  function CountDown<F>(s: Reader<F>, chunk: seq<byte>): (r: (Reader<F>, seq<byte>))
    ensures r.0 == s.(framesSize := r.0.framesSize)
    ensures |chunk| <= s.framesSize ==> r.1 == chunk && r.0.framesSize == s.framesSize - |chunk|
    ensures |chunk| > s.framesSize ==> r.1 == chunk[..s.framesSize] && r.0.framesSize == 0
  {
    if |chunk| <= s.framesSize then (s.(framesSize := s.framesSize - |chunk|), chunk)
    else (s.(framesSize := 0), chunk[..s.framesSize])
  }

  predicate IsUpper(b: byte) { 'A' <= AsciiChar(b) <= 'Z' }

  predicate IsDigit(b: byte) { '0' <= AsciiChar(b) <= '9' }

  /** The window at `i` reads `[A-Z]{3}[A-Z0-9]` through the `ascii`
      codec. */
  predicate IsFrameIdAt(buf: seq<byte>, i: nat)
  {
    i + 4 <= |buf| && IsUpper(buf[i]) && IsUpper(buf[i + 1]) && IsUpper(buf[i + 2])
    && (IsUpper(buf[i + 3]) || IsDigit(buf[i + 3]))
  }

  /** The leftmost id-shaped window at or after `from`. */
  function FindFrameId(buf: seq<byte>, from: nat): (r: Option<nat>)
    ensures r.Some? ==> from <= r.value && IsFrameIdAt(buf, r.value)
    ensures r.Some? ==> forall j :: from <= j < r.value ==> !IsFrameIdAt(buf, j)
    ensures r.None? ==> forall j :: from <= j ==> !IsFrameIdAt(buf, j)
    decreases |buf| - from
  {
    if from + 4 > |buf| then None
    else if IsFrameIdAt(buf, from) then Some(from)
    else FindFrameId(buf, from + 1)
  }

  /** State 1: buffer until ten bytes are there, find the frame id, read
      the declared size, and pass on everything from offset 10 of the
      buffer, whatever offset the id was found at. With no id, keep the
      last three bytes. */
  function ScanFrameHeader<F>(s: Reader<F>, chunk: seq<byte>): (r: Step<F>)
    ensures r.state.framesSize == s.framesSize
  {
    var fh := s.frameHeader + chunk;
    if |fh| < FrameHeaderSize then Stop(s.(frameHeader := fh))
    else match FindFrameId(fh, 0)
      case None => Stop(s.(frameHeader := fh[|fh| - 3..]))
      case Some(i) => FrameHeaderAt(s, fh, i)
  }

  /** State 1 once the id is found at `i` in the buffer `fh`. */
  function FrameHeaderAt<F>(s: Reader<F>, fh: seq<byte>, i: nat): (r: Step<F>)
    requires FrameHeaderSize <= |fh| && i + 4 <= |fh|
    ensures r.state.framesSize == s.framesSize
  {
    var name := AsciiString(fh[i..i + 4]);
    match FrameSize(s.majorVersion, fh, i)
    case None => Stop(s.(frameHeader := fh, frameName := name, aborted := true,
                         events := s.events + [ThrownEvent(RangeError)]))
    case Some(len) =>
      Next(s.(frameName := name, frameValueLength := len, frameHeader := [], phase := ReadingFrameValue),
           fh[FrameHeaderSize..])
  }

  /** Emit `'frame'` and let the listener react. The selective collector
      files the frame and emits `'end'` once nothing is wanted any more;
      the full collector files it under all its keys. */
  function Deliver<F>(fmt: Format<F>, mode: Mode, s: Reader<F>, f: F): (r: Reader<F>)
    ensures |r.events| > |s.events| && r.events[..|s.events|] == s.events && r.events[|s.events|] == FrameEvent(f)
    ensures mode == Select ==> (r.end <==> s.end || r.leftNeeded == {})
    ensures mode != Select ==> r.end == s.end
    ensures r == s.(events := r.events, leftNeeded := r.leftNeeded, result := r.result, end := r.end)
  {
    var s1 := s.(events := s.events + [FrameEvent(f)]);
    match mode
    case Subscribe => s1
    case Everything => s1.(result := Overwrite(s1.result, fmt.allKeys(f), f))
    case Select =>
      var (left, result) := Claim(s1.leftNeeded, s1.result, fmt.selectKeys(f), f);
      if left == {} then s1.(leftNeeded := left, result := result, end := true, events := s1.events + [EndEvent])
      else s1.(leftNeeded := left, result := result)
  }

  /** State 2: buffer until the declared length is there, decode exactly
      that many bytes, emit the frame, and pass the surplus back to
      state 1. */
  function ReadFrameValue<F>(fmt: Format<F>, mode: Mode, s: Reader<F>, chunk: seq<byte>): (r: Step<F>)
    ensures r.state.framesSize == s.framesSize
  {
    var fv := s.frameValue + chunk;
    if |fv| < s.frameValueLength then Stop(s.(frameValue := fv))
    else match fmt.decode(s.frameName, fv[..s.frameValueLength])
      case Err(e) => Stop(s.(frameValue := fv, aborted := true, events := s.events + [ThrownEvent(e)]))
      case Ok(f) =>
        var s1 := Deliver(fmt, mode, s.(frameValue := fv), f);
        if s1.end then Stop(s1)
        else Next(s1.(frameValue := [], phase := ReadingFrameHeader), fv[s.frameValueLength..])
  }

  /** Bytes still buffered or pending, counted twice, plus one while a
      frame value is being read: every step of the loop lowers it. */
  function Measure<F>(s: Reader<F>, chunk: seq<byte>): nat
  {
    2 * (|s.frameHeader| + |s.frameValue| + |chunk|) + if s.phase == ReadingFrameValue then 1 else 0
  }

  function StepOnce<F>(fmt: Format<F>, mode: Mode, s: Reader<F>, chunk: seq<byte>): (r: Step<F>)
    ensures r.Next? ==> Measure(r.state, r.rest) < Measure(s, chunk)
    ensures r.state.framesSize == s.framesSize
  {
    match s.phase
    case ReadingHeader => Stop(s)
    case ReadingFrameHeader => ScanFrameHeader(s, chunk)
    case ReadingFrameValue => ReadFrameValue(fmt, mode, s, chunk)
  }

  /** The `while(true)` loop of the handler. */
  function Drain<F>(fmt: Format<F>, mode: Mode, s: Reader<F>, chunk: seq<byte>): Reader<F>
    decreases Measure(s, chunk)
  {
    match StepOnce(fmt, mode, s, chunk)
    case Stop(t) => t
    case Next(t, rest) => Drain(fmt, mode, t, rest)
  }

  lemma DrainStops<F>(fmt: Format<F>, mode: Mode, s: Reader<F>, chunk: seq<byte>, t: Reader<F>)
    requires StepOnce(fmt, mode, s, chunk) == Stop(t)
    ensures Drain(fmt, mode, s, chunk) == t
  {
  }

  lemma DrainContinues<F>(fmt: Format<F>, mode: Mode, s: Reader<F>, chunk: seq<byte>, t: Reader<F>, rest: seq<byte>)
    requires StepOnce(fmt, mode, s, chunk) == Next(t, rest)
    ensures Drain(fmt, mode, s, chunk) == Drain(fmt, mode, t, rest)
  {
  }

  /** The whole `'data'` handler for one chunk. */
  function Handle<F>(fmt: Format<F>, mode: Mode, s: Reader<F>, chunk: seq<byte>): (r: Reader<F>)
    ensures s.end || s.aborted ==> r == s
  {
    if s.end || s.aborted then s
    else match (if s.phase == ReadingHeader then ReadHeader(mode, s, chunk) else Next(s, chunk))
      case Stop(t) => t
      case Next(t, c) =>
        var (u, c1) := CountDown(t, c);
        var w := Drain(fmt, mode, u, c1);
        if w.end || w.aborted then w
        else if w.framesSize == 0 then w.(end := true, events := w.events + [EndEvent])
        else w
  }

  /** A consumer emitting `'end'` itself. */
  function Cancel<F>(s: Reader<F>): (r: Reader<F>)
    ensures r.end && r.events == s.events + [EndEvent]
  {
    s.(end := true, events := s.events + [EndEvent])
  }

  /** Feeding a stream of chunks one after the other. */
  function FeedAll<F>(fmt: Format<F>, mode: Mode, s: Reader<F>, chunks: seq<seq<byte>>): Reader<F>
    decreases |chunks|
  {
    if chunks == [] then s else FeedAll(fmt, mode, Handle(fmt, mode, s, chunks[0]), chunks[1..])
  }

  /** The resolved form: the result map once `'end'` has been emitted,
      and nothing if an exception stopped the parse first. */
  function Resolution<F>(s: Reader<F>): (r: Option<map<Key, F>>)
    ensures r.Some? <==> s.end && !s.aborted
    ensures r.Some? ==> r.value == s.result
  {
    if s.end && !s.aborted then Some(s.result) else None
  }
}
