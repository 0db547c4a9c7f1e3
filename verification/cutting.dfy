/**
 * A well-formed tag reads the same however the stream cuts it into
 * chunks. "Well-formed" is what the `'data'` handler itself relies on:
 * every frame starts with its id, declares (as the handler reads the
 * size for the tag's version) a size that fits, and the padding after
 * the last frame holds no window reading `[A-Z]{3}[A-Z0-9]`. For such a
 * tag `AnyCutting` proves that the events, the end, the wanted set and
 * the collected result are those of `Run`, which decodes the frames one
 * after the other; `SubscriberHearsEveryFrame` spells out the events.
 * Elsewhere the cutting matters, as `CutExample.CutAfterPaddingMatters`
 * shows.
 */
module Cutting {
  import opened Wrappers
  import opened NodeBuffer
  import opened Sizes
  import opened Collect
  import opened TagStream
  import opened StreamFacts

  /** The chunks of a stream laid end to end. */
  function Joined(chunks: seq<seq<byte>>): (r: seq<byte>)
    ensures chunks != [] ==> r == chunks[0] + Joined(chunks[1..])
    ensures chunks == [] ==> r == []
  {
    if chunks == [] then [] else chunks[0] + Joined(chunks[1..])
  }

  /** The declared size of the frame that starts `body`. */
  function DeclaredSize(v: byte, body: seq<byte>): nat
    requires FrameHeaderSize <= |body|
  {
    FrameSize(v, body, 0).value
  }

  /** Frames, each with its id at offset 0 and its declared size inside
      the body, then padding without any id-shaped window. */
  predicate Layout(v: byte, body: seq<byte>)
    decreases |body|
  {
    if IsFrameIdAt(body, 0) then
      && FrameHeaderSize <= |body|
      && FrameHeaderSize + DeclaredSize(v, body) <= |body|
      && Layout(v, body[FrameHeaderSize + DeclaredSize(v, body)..])
    else forall j: nat :: j < |body| ==> !IsFrameIdAt(body, j)
  }

  /** Ten header bytes the handler accepts, a tag size covering exactly
      the body, and the body laid out as above. */
  predicate WellFormedTag(header: seq<byte>, body: seq<byte>)
  {
    && |header| == HeaderSize
    && IsId3Signature(header)
    && (header[3] == 3 || header[3] == 4)
    && TagSize(header) == |body|
    && Layout(header[3], body)
  }

  /** The state in which state 0 hands over to state 1. */
  function AfterHeader<F>(needed: set<Key>, header: seq<byte>): (r: Reader<F>)
    requires |header| == HeaderSize
    ensures r.phase == ReadingFrameHeader && r.frameHeader == [] && r.frameValue == []
    ensures !r.end && !r.aborted && r.events == [] && r.leftNeeded == needed && r.result == map[]
  {
    Initial(needed).(majorVersion := header[3], framesSize := TagSize(header), phase := ReadingFrameHeader)
  }

  /** The part of a reader that a caller can observe. */
  datatype Outcome<F> = Outcome(events: seq<Event<F>>, end: bool, aborted: bool,
                                leftNeeded: set<Key>, result: map<Key, F>)

  function OutcomeOf<F>(s: Reader<F>): Outcome<F>
  {
    Outcome(s.events, s.end, s.aborted, s.leftNeeded, s.result)
  }

  /** `'end'` after the last frame, unless the parse already stopped. */
  function Finished<F>(o: Outcome<F>): (r: Outcome<F>)
    ensures r.end || r.aborted
    ensures o.end || o.aborted ==> r == o
    ensures !(o.end || o.aborted) ==> r == o.(end := true, events := o.events + [EndEvent])
  {
    if o.end || o.aborted then o else o.(end := true, events := o.events + [EndEvent])
  }

  /** Decoding one whole frame value and emitting the frame, or the
      exception the decoder throws. */
  function Complete<F>(fmt: Format<F>, mode: Mode, s: Reader<F>, name: string, value: seq<byte>): Reader<F>
  {
    match fmt.decode(name, value)
    case Err(e) => s.(aborted := true, events := s.events + [ThrownEvent(e)])
    case Ok(f) => Deliver(fmt, mode, s, f)
  }

  /** The frames of a laid-out body, decoded and emitted in order until an
      exception or the selective collector's `'end'` stops the parse. */
  function Run<F>(fmt: Format<F>, mode: Mode, v: byte, s: Reader<F>, body: seq<byte>): Reader<F>
    requires Layout(v, body)
    decreases |body|
  {
    if !IsFrameIdAt(body, 0) then s
    else
      var n := FrameHeaderSize + DeclaredSize(v, body);
      var t := Complete(fmt, mode, s, AsciiString(body[..4]), body[FrameHeaderSize..n]);
      if t.end || t.aborted then t else Run(fmt, mode, v, t, body[n..])
  }

  /** A running reader in state 1 or 2 whose buffer and the bytes still
      to come, `rest`, continue a laid-out body. */
  predicate Poised<F>(v: byte, s: Reader<F>, rest: seq<byte>)
  {
    && !s.end && !s.aborted && s.majorVersion == v
    && match s.phase
       case ReadingHeader => false
       case ReadingFrameHeader => s.frameValue == [] && Layout(v, s.frameHeader + rest)
       case ReadingFrameValue =>
         && s.frameHeader == []
         && |s.frameValue| <= s.frameValueLength <= |s.frameValue + rest|
         && Layout(v, (s.frameValue + rest)[s.frameValueLength..])
  }

  /** Between two chunks the handler is waiting for more bytes. */
  predicate Waiting<F>(s: Reader<F>)
  {
    && (s.phase == ReadingFrameHeader ==> |s.frameHeader| < FrameHeaderSize)
    && (s.phase == ReadingFrameValue ==> |s.frameValue| < s.frameValueLength)
  }

  /** What a poised reader still has to do with `rest`: finish the frame
      value it is reading, if any, then run the remaining frames. */
  function Pending<F>(fmt: Format<F>, mode: Mode, v: byte, s: Reader<F>, rest: seq<byte>): Reader<F>
    requires Poised(v, s, rest)
  {
    if s.phase == ReadingFrameHeader then Run(fmt, mode, v, s, s.frameHeader + rest)
    else
      var all := s.frameValue + rest;
      var t := Complete(fmt, mode, s, s.frameName, all[..s.frameValueLength]);
      if t.end || t.aborted then t else Run(fmt, mode, v, t, all[s.frameValueLength..])
  }

  /** Where one step of the handler's loop, or the whole loop, leaves a
      reader: stopped with the expected outcome, or poised and waiting
      with that outcome still ahead. */
  ghost predicate Settles<F>(fmt: Format<F>, mode: Mode, v: byte, r: Reader<F>, rest: seq<byte>, goal: Outcome<F>)
  {
    if r.end || r.aborted then OutcomeOf(r) == goal
    else Poised(v, r, rest) && Waiting(r) && OutcomeOf(Pending(fmt, mode, v, r, rest)) == goal
  }

  // Only the observable part of a reader decides the observable outcome.

  lemma DeliverOutcome<F>(fmt: Format<F>, mode: Mode, s: Reader<F>, t: Reader<F>, f: F)
    requires OutcomeOf(s) == OutcomeOf(t)
    ensures OutcomeOf(Deliver(fmt, mode, s, f)) == OutcomeOf(Deliver(fmt, mode, t, f))
  {
  }

  lemma CompleteOutcome<F>(fmt: Format<F>, mode: Mode, s: Reader<F>, t: Reader<F>, name: string, value: seq<byte>)
    requires OutcomeOf(s) == OutcomeOf(t)
    ensures OutcomeOf(Complete(fmt, mode, s, name, value)) == OutcomeOf(Complete(fmt, mode, t, name, value))
    ensures Complete(fmt, mode, s, name, value).end == Complete(fmt, mode, t, name, value).end
    ensures Complete(fmt, mode, s, name, value).aborted == Complete(fmt, mode, t, name, value).aborted
  {
    match fmt.decode(name, value)
    case Err(e) =>
    case Ok(f) => DeliverOutcome(fmt, mode, s, t, f);
  }

  /** `Run` at a first frame: it stops there when that frame ends or
      aborts the parse, and goes on with the rest of the body otherwise. */
  lemma RunFirstFrame<F>(fmt: Format<F>, mode: Mode, v: byte, s: Reader<F>, body: seq<byte>, n: nat, s1: Reader<F>)
    requires Layout(v, body) && IsFrameIdAt(body, 0)
    requires n == FrameHeaderSize + DeclaredSize(v, body)
    requires s1 == Complete(fmt, mode, s, AsciiString(body[..4]), body[FrameHeaderSize..n])
    ensures n <= |body| && Layout(v, body[n..])
    ensures Run(fmt, mode, v, s, body) == if s1.end || s1.aborted then s1 else Run(fmt, mode, v, s1, body[n..])
  {
  }

  lemma {:induction false} RunOutcome<F>(fmt: Format<F>, mode: Mode, v: byte, s: Reader<F>, t: Reader<F>, body: seq<byte>)
    requires Layout(v, body) && OutcomeOf(s) == OutcomeOf(t)
    ensures OutcomeOf(Run(fmt, mode, v, s, body)) == OutcomeOf(Run(fmt, mode, v, t, body))
    decreases |body|
  {
    if IsFrameIdAt(body, 0) {
      var n := FrameHeaderSize + DeclaredSize(v, body);
      var name, value := AsciiString(body[..4]), body[FrameHeaderSize..n];
      CompleteOutcome(fmt, mode, s, t, name, value);
      var s1, t1 := Complete(fmt, mode, s, name, value), Complete(fmt, mode, t, name, value);
      RunFirstFrame(fmt, mode, v, s, body, n, s1);
      RunFirstFrame(fmt, mode, v, t, body, n, t1);
      if !(s1.end || s1.aborted) {
        RunOutcome(fmt, mode, v, s1, t1, body[n..]);
      }
    }
  }

  // Windows of a prefix or a suffix are windows of the whole.

  lemma IdInPrefix(a: seq<byte>, b: seq<byte>, j: nat)
    requires IsFrameIdAt(a, j)
    ensures IsFrameIdAt(a + b, j)
  {
    assert (a + b)[j..j + 4] == a[j..j + 4];
  }

  lemma IdInSuffix(a: seq<byte>, k: nat, j: nat)
    requires k <= |a| && IsFrameIdAt(a[k..], j)
    ensures IsFrameIdAt(a, k + j)
  {
  }

  /** Padding stays padding from any offset on. */
  lemma PaddingSuffix(v: byte, body: seq<byte>, k: nat)
    requires k <= |body| && forall j: nat :: j < |body| ==> !IsFrameIdAt(body, j)
    ensures Layout(v, body[k..])
  {
    forall j: nat | j < |body| - k
      ensures !IsFrameIdAt(body[k..], j)
    {
      if IsFrameIdAt(body[k..], j) {
        IdInSuffix(body, k, j);
      }
    }
  }

  /** The size bytes are read the same once all four are there. */
  lemma FrameSizeOfPrefix(v: byte, a: seq<byte>, b: seq<byte>)
    requires FrameHeaderSize <= |a|
    ensures FrameSize(v, a + b, 0) == FrameSize(v, a, 0)
  {
    assert (a + b)[4..8] == a[4..8];
  }

  /** State 1 with fewer than ten bytes buffered. */
  lemma ScanShort<F>(fmt: Format<F>, mode: Mode, v: byte, s: Reader<F>, c: seq<byte>, rest: seq<byte>)
    requires Poised(v, s, c + rest) && s.phase == ReadingFrameHeader
    requires |s.frameHeader + c| < FrameHeaderSize
    ensures var r := ScanFrameHeader(s, c);
      r.Stop? && Settles(fmt, mode, v, r.state, rest, OutcomeOf(Pending(fmt, mode, v, s, c + rest)))
  {
    var fh := s.frameHeader + c;
    var r := s.(frameHeader := fh);
    assert fh + rest == s.frameHeader + (c + rest);
    RunOutcome(fmt, mode, v, r, s, fh + rest);
  }

  /** State 1 over padding: no id is found and the last three bytes are
      kept; nothing more is emitted. */
  lemma ScanPadding<F>(fmt: Format<F>, mode: Mode, v: byte, s: Reader<F>, c: seq<byte>, rest: seq<byte>)
    requires Poised(v, s, c + rest) && s.phase == ReadingFrameHeader
    requires FrameHeaderSize <= |s.frameHeader + c| && !IsFrameIdAt(s.frameHeader + (c + rest), 0)
    ensures var r := ScanFrameHeader(s, c);
      r.Stop? && Settles(fmt, mode, v, r.state, rest, OutcomeOf(Pending(fmt, mode, v, s, c + rest)))
  {
    var fh := s.frameHeader + c;
    var all := s.frameHeader + (c + rest);
    assert all == fh + rest;
    assert Pending(fmt, mode, v, s, c + rest) == s;
    assert FindFrameId(fh, 0).None? by {
      if FindFrameId(fh, 0).Some? {
        IdInPrefix(fh, rest, FindFrameId(fh, 0).value);
      }
    }
    var k := |fh| - 3;
    var r := s.(frameHeader := fh[k..]);
    assert ScanFrameHeader(s, c) == Stop(r);
    assert r.frameHeader + rest == all[k..];
    PaddingSuffix(v, all, k);
    assert !IsFrameIdAt(all[k..], 0) by {
      if IsFrameIdAt(all[k..], 0) {
        IdInSuffix(all, k, 0);
      }
    }
    assert Pending(fmt, mode, v, r, rest) == r;
  }

  /** State 1 with ten bytes of a frame buffered: the id is at offset 0,
      the size is read from the frame's own size bytes, and the value
      starts at offset 10. */
  lemma FrameFound<F>(v: byte, s: Reader<F>, c: seq<byte>, rest: seq<byte>)
    requires s.phase == ReadingFrameHeader && s.majorVersion == v
    requires FrameHeaderSize <= |s.frameHeader + c| && IsFrameIdAt(s.frameHeader + (c + rest), 0)
    ensures var all := s.frameHeader + (c + rest);
      ScanFrameHeader(s, c)
      == Next(s.(frameName := AsciiString(all[..4]), frameValueLength := DeclaredSize(v, all), frameHeader := [],
                 phase := ReadingFrameValue),
              (s.frameHeader + c)[FrameHeaderSize..])
  {
    var fh := s.frameHeader + c;
    var all := s.frameHeader + (c + rest);
    assert all == fh + rest;
    assert fh[..4] == all[..4];
    assert IsFrameIdAt(fh, 0);
    FrameSizeOfPrefix(v, fh, rest);
  }

  /** A reader about to read the first frame's value has the same outcome
      ahead as running the whole body. */
  lemma FirstValueAhead<F>(fmt: Format<F>, mode: Mode, v: byte, s: Reader<F>, t: Reader<F>, all: seq<byte>)
    requires Layout(v, all) && IsFrameIdAt(all, 0) && OutcomeOf(t) == OutcomeOf(s)
    requires t.phase == ReadingFrameValue && t.frameHeader == [] && t.frameValue == [] && t.majorVersion == v
    requires t.frameName == AsciiString(all[..4]) && t.frameValueLength == DeclaredSize(v, all)
    requires !t.end && !t.aborted
    ensures Poised(v, t, all[FrameHeaderSize..])
    ensures OutcomeOf(Pending(fmt, mode, v, t, all[FrameHeaderSize..])) == OutcomeOf(Run(fmt, mode, v, s, all))
  {
    var len := DeclaredSize(v, all);
    var n := FrameHeaderSize + len;
    var more := all[FrameHeaderSize..];
    assert t.frameValue + more == more;
    assert more[..len] == all[FrameHeaderSize..n];
    assert more[len..] == all[n..];
    var t1 := Complete(fmt, mode, t, t.frameName, more[..len]);
    var s1 := Complete(fmt, mode, s, AsciiString(all[..4]), all[FrameHeaderSize..n]);
    CompleteOutcome(fmt, mode, t, s, t.frameName, more[..len]);
    if !(s1.end || s1.aborted) {
      RunOutcome(fmt, mode, v, t1, s1, all[n..]);
    }
  }

  /** State 1 at a frame. */
  lemma ScanFrame<F>(fmt: Format<F>, mode: Mode, v: byte, s: Reader<F>, c: seq<byte>, rest: seq<byte>)
    requires Poised(v, s, c + rest) && s.phase == ReadingFrameHeader
    requires FrameHeaderSize <= |s.frameHeader + c| && IsFrameIdAt(s.frameHeader + (c + rest), 0)
    ensures var r := ScanFrameHeader(s, c);
      && r.Next?
      && Poised(v, r.state, r.rest + rest)
      && OutcomeOf(Pending(fmt, mode, v, r.state, r.rest + rest)) == OutcomeOf(Pending(fmt, mode, v, s, c + rest))
  {
    var all := s.frameHeader + (c + rest);
    FrameFound(v, s, c, rest);
    var r := ScanFrameHeader(s, c);
    assert r.rest + rest == all[FrameHeaderSize..];
    FirstValueAhead(fmt, mode, v, s, r.state, all);
  }

  /** State 2 still short of the declared length. */
  lemma ValueShort<F>(fmt: Format<F>, mode: Mode, v: byte, s: Reader<F>, c: seq<byte>, rest: seq<byte>)
    requires Poised(v, s, c + rest) && s.phase == ReadingFrameValue
    requires |s.frameValue + c| < s.frameValueLength
    ensures ReadFrameValue(fmt, mode, s, c) == Stop(s.(frameValue := s.frameValue + c))
    ensures Settles(fmt, mode, v, s.(frameValue := s.frameValue + c), rest,
                    OutcomeOf(Pending(fmt, mode, v, s, c + rest)))
  {
    var all := s.frameValue + (c + rest);
    var len := s.frameValueLength;
    var r := s.(frameValue := s.frameValue + c);
    assert r.frameValue + rest == all;
    CompleteOutcome(fmt, mode, r, s, s.frameName, all[..len]);
    var r1 := Complete(fmt, mode, r, s.frameName, all[..len]);
    if !(r1.end || r1.aborted) {
      RunOutcome(fmt, mode, v, r1, Complete(fmt, mode, s, s.frameName, all[..len]), all[len..]);
    }
  }

  /** State 2 with the whole value, the frame emitted and the parse going
      on. */
  lemma ValueDelivered<F>(fmt: Format<F>, mode: Mode, v: byte, s: Reader<F>, c: seq<byte>, rest: seq<byte>, f: F)
    requires Poised(v, s, c + rest) && s.phase == ReadingFrameValue
    requires s.frameValueLength <= |s.frameValue + c|
    requires fmt.decode(s.frameName, (s.frameValue + c)[..s.frameValueLength]) == Ok(f)
    requires !Deliver(fmt, mode, s.(frameValue := s.frameValue + c), f).end
    ensures var fv := s.frameValue + c;
      var t := Deliver(fmt, mode, s.(frameValue := fv), f).(frameValue := [], phase := ReadingFrameHeader);
      && ReadFrameValue(fmt, mode, s, c) == Next(t, fv[s.frameValueLength..])
      && Poised(v, t, fv[s.frameValueLength..] + rest)
      && OutcomeOf(Pending(fmt, mode, v, t, fv[s.frameValueLength..] + rest))
         == OutcomeOf(Pending(fmt, mode, v, s, c + rest))
  {
    var fv := s.frameValue + c;
    var all := s.frameValue + (c + rest);
    var len := s.frameValueLength;
    assert all == fv + rest;
    assert fv[..len] == all[..len];
    var s1 := Deliver(fmt, mode, s.(frameValue := fv), f);
    DeliverOutcome(fmt, mode, s.(frameValue := fv), s, f);
    var t := s1.(frameValue := [], phase := ReadingFrameHeader);
    assert t.frameHeader + (fv[len..] + rest) == all[len..];
    assert Pending(fmt, mode, v, s, c + rest) == Run(fmt, mode, v, Deliver(fmt, mode, s, f), all[len..]);
    RunOutcome(fmt, mode, v, t, Deliver(fmt, mode, s, f), all[len..]);
  }

  /** One pass of state 2. */
  lemma ValueStep<F>(fmt: Format<F>, mode: Mode, v: byte, s: Reader<F>, c: seq<byte>, rest: seq<byte>)
    requires Poised(v, s, c + rest) && s.phase == ReadingFrameValue
    ensures match ReadFrameValue(fmt, mode, s, c)
      case Stop(r) => Settles(fmt, mode, v, r, rest, OutcomeOf(Pending(fmt, mode, v, s, c + rest)))
      case Next(t, more) =>
        && Poised(v, t, more + rest)
        && OutcomeOf(Pending(fmt, mode, v, t, more + rest)) == OutcomeOf(Pending(fmt, mode, v, s, c + rest))
  {
    var fv := s.frameValue + c;
    var len := s.frameValueLength;
    if |fv| < len {
      ValueShort(fmt, mode, v, s, c, rest);
    } else {
      assert fv[..len] == (s.frameValue + (c + rest))[..len];
      match fmt.decode(s.frameName, fv[..len])
      case Err(e) =>
      case Ok(f) =>
        if Deliver(fmt, mode, s.(frameValue := fv), f).end {
          DeliverOutcome(fmt, mode, s.(frameValue := fv), s, f);
        } else {
          ValueDelivered(fmt, mode, v, s, c, rest, f);
        }
    }
  }

  /** One pass of the loop, in either state. */
  lemma StepSettles<F>(fmt: Format<F>, mode: Mode, v: byte, s: Reader<F>, c: seq<byte>, rest: seq<byte>)
    requires Poised(v, s, c + rest)
    ensures match StepOnce(fmt, mode, s, c)
      case Stop(r) => Settles(fmt, mode, v, r, rest, OutcomeOf(Pending(fmt, mode, v, s, c + rest)))
      case Next(t, more) =>
        && Poised(v, t, more + rest)
        && OutcomeOf(Pending(fmt, mode, v, t, more + rest)) == OutcomeOf(Pending(fmt, mode, v, s, c + rest))
  {
    if s.phase == ReadingFrameValue {
      ValueStep(fmt, mode, v, s, c, rest);
    } else if |s.frameHeader + c| < FrameHeaderSize {
      ScanShort(fmt, mode, v, s, c, rest);
    } else if IsFrameIdAt(s.frameHeader + (c + rest), 0) {
      ScanFrame(fmt, mode, v, s, c, rest);
    } else {
      ScanPadding(fmt, mode, v, s, c, rest);
    }
  }

  /** The handler's loop over a chunk of a laid-out body stops either with
      the outcome the frames prescribe, or waiting for the next chunk with
      that outcome still ahead; where the chunk ended makes no difference. */
  lemma {:induction false} DrainSettles<F>(fmt: Format<F>, mode: Mode, v: byte, s: Reader<F>, c: seq<byte>, rest: seq<byte>)
    requires Poised(v, s, c + rest)
    ensures Settles(fmt, mode, v, Drain(fmt, mode, s, c), rest, OutcomeOf(Pending(fmt, mode, v, s, c + rest)))
    decreases Measure(s, c)
  {
    StepSettles(fmt, mode, v, s, c, rest);
    match StepOnce(fmt, mode, s, c)
    case Stop(t) =>
      DrainStops(fmt, mode, s, c, t);
    case Next(t, more) =>
      DrainContinues(fmt, mode, s, c, t, more);
      DrainSettles(fmt, mode, v, t, more, rest);
  }

  /** Waiting with nothing left to come, nothing is pending. */
  lemma NothingPending<F>(fmt: Format<F>, mode: Mode, v: byte, s: Reader<F>)
    requires Poised(v, s, []) && Waiting(s)
    ensures s.phase == ReadingFrameHeader && Pending(fmt, mode, v, s, []) == s
  {
    if s.phase == ReadingFrameValue {
      assert false;
    }
    assert s.frameHeader + [] == s.frameHeader;
  }

  /** The declared size of the reader does not enter what is pending. */
  lemma PendingIgnoresSize<F>(fmt: Format<F>, mode: Mode, v: byte, s: Reader<F>, rest: seq<byte>, n: nat)
    requires Poised(v, s, rest)
    ensures Poised(v, s.(framesSize := n), rest)
    ensures OutcomeOf(Pending(fmt, mode, v, s.(framesSize := n), rest)) == OutcomeOf(Pending(fmt, mode, v, s, rest))
  {
    var u := s.(framesSize := n);
    if s.phase == ReadingFrameHeader {
      RunOutcome(fmt, mode, v, u, s, s.frameHeader + rest);
    } else {
      var all := s.frameValue + rest;
      CompleteOutcome(fmt, mode, u, s, s.frameName, all[..s.frameValueLength]);
      var u1 := Complete(fmt, mode, u, s.frameName, all[..s.frameValueLength]);
      if !(u1.end || u1.aborted) {
        RunOutcome(fmt, mode, v, u1, Complete(fmt, mode, s, s.frameName, all[..s.frameValueLength]),
                   all[s.frameValueLength..]);
      }
    }
  }

  /** One chunk past the header: the tag's last byte brings the expected
      outcome followed by `'end'`; an earlier byte leaves the reader
      settled on the rest of the body. */
  lemma HandleSettles<F>(fmt: Format<F>, mode: Mode, v: byte, s: Reader<F>, c: seq<byte>, body: seq<byte>,
                         trailing: seq<byte>)
    requires Poised(v, s, body) && Waiting(s) && s.framesSize == |body|
    requires c <= body + trailing
    ensures var r := Handle(fmt, mode, s, c);
      var goal := OutcomeOf(Pending(fmt, mode, v, s, body));
      && (|body| <= |c| ==> OutcomeOf(r) == Finished(goal))
      && (|c| < |body| ==> Settles(fmt, mode, v, r, body[|c|..], goal)
                           && (!(r.end || r.aborted) ==> r.framesSize == |body| - |c|))
  {
    var (u, c1) := CountDown(s, c);
    var m := |c1|;
    assert c1 == body[..m];
    assert c1 + body[m..] == body;
    PendingIgnoresSize(fmt, mode, v, s, body, u.framesSize);
    DrainSettles(fmt, mode, v, u, c1, body[m..]);
    DrainKeepsTagSize(fmt, mode, u, c1);
    var w := Drain(fmt, mode, u, c1);
    if |body| <= |c| && !(w.end || w.aborted) {
      assert body[m..] == [];
      NothingPending(fmt, mode, v, w);
    }
  }

  /** How a chunk of the body divides the body. */
  lemma BodyChunk(body: seq<byte>, trailing: seq<byte>, c: seq<byte>, later: seq<byte>)
    requires c + later == body + trailing
    ensures c <= body + trailing
    ensures |c| < |body| ==> later == body[|c|..] + trailing
  {
    if |c| < |body| {
      assert (body + trailing)[|c|..] == body[|c|..] + trailing;
      assert (c + later)[|c|..] == later;
    }
  }

  /** The chunks after the header has been read. */
  lemma {:induction false} FeedBody<F>(fmt: Format<F>, mode: Mode, v: byte, s: Reader<F>, chunks: seq<seq<byte>>,
                                       body: seq<byte>, trailing: seq<byte>)
    requires Poised(v, s, body) && Waiting(s) && s.framesSize == |body| && |body| > 0
    requires Joined(chunks) == body + trailing
    ensures OutcomeOf(FeedAll(fmt, mode, s, chunks)) == Finished(OutcomeOf(Pending(fmt, mode, v, s, body)))
    decreases |chunks|
  {
    var c := chunks[0];
    BodyChunk(body, trailing, c, Joined(chunks[1..]));
    HandleSettles(fmt, mode, v, s, c, body, trailing);
    var r := Handle(fmt, mode, s, c);
    assert FeedAll(fmt, mode, s, chunks) == FeedAll(fmt, mode, r, chunks[1..]);
    if r.end || r.aborted {
      FinishedStaysFinished(fmt, mode, r, chunks[1..]);
    } else {
      FeedBody(fmt, mode, v, r, chunks[1..], body[|c|..], trailing);
    }
  }

  /** The chunk that completes the header hands what follows it to the
      frame states, from the same state whatever came before. */
  lemma HeaderCompletes<F>(fmt: Format<F>, mode: Mode, needed: set<Key>, header: seq<byte>, body: seq<byte>,
                           k: nat, c: seq<byte>)
    requires WellFormedTag(header, body) && k < HeaderSize
    requires HeaderSize <= k + |c| && (header[..k] + c)[..HeaderSize] == header
    ensures Handle(fmt, mode, Initial(needed).(header := header[..k]), c)
            == Handle(fmt, mode, AfterHeader(needed, header), (header[..k] + c)[HeaderSize..])
  {
    var hdr := header[..k] + c;
    assert hdr[..3] == header[..3];
    assert hdr[3] == header[3];
    assert hdr[6..10] == header[6..10];
    assert TagSize(hdr) == TagSize(header);
  }

  /** How the first chunk of `stream[k..]` divides: into the header's
      remaining bytes and what follows them. */
  lemma FirstChunk(stream: seq<byte>, k: nat, c: seq<byte>, later: seq<byte>)
    requires k <= |stream| && stream[k..] == c + later
    ensures k + |c| <= |stream| && c == stream[k..k + |c|] && later == stream[k + |c|..]
  {
    assert stream[k..][..|c|] == c;
    assert stream[k..][|c|..] == later;
  }

  /** The bytes of the chunk that completes the header which belong to
      the body and beyond. */
  lemma HeaderDone(header: seq<byte>, body: seq<byte>, trailing: seq<byte>, k: nat, c: seq<byte>, later: seq<byte>)
    requires |header| == HeaderSize && k < HeaderSize <= k + |c|
    requires c + later == (header + body + trailing)[k..]
    ensures (header[..k] + c)[..HeaderSize] == header
    ensures var x := (header[..k] + c)[HeaderSize..];
      && x <= body + trailing
      && (|x| < |body| ==> later == body[|x|..] + trailing)
  {
    var stream := header + body + trailing;
    FirstChunk(stream, k, c, later);
    var x := (header[..k] + c)[HeaderSize..];
    assert header[..k] + c == stream[..k + |c|];
    assert x == stream[HeaderSize..k + |c|];
    assert stream[HeaderSize..] == body + trailing;
    assert x == (body + trailing)[..|x|];
    if |x| < |body| {
      assert later == (body + trailing)[|x|..];
    }
  }

  /** The chunk that completes the header, and the chunks after it. */
  lemma HeaderThenBody<F>(fmt: Format<F>, mode: Mode, needed: set<Key>, header: seq<byte>,
                          body: seq<byte>, trailing: seq<byte>, k: nat, chunks: seq<seq<byte>>)
    requires WellFormedTag(header, body) && k < HeaderSize && chunks != []
    requires HeaderSize <= k + |chunks[0]|
    requires chunks[0] + Joined(chunks[1..]) == (header + body + trailing)[k..]
    ensures OutcomeOf(FeedAll(fmt, mode, Initial(needed).(header := header[..k]), chunks))
            == Finished(OutcomeOf(Run(fmt, mode, header[3], AfterHeader(needed, header), body)))
  {
    var c := chunks[0];
    var x := (header[..k] + c)[HeaderSize..];
    HeaderDone(header, body, trailing, k, c, Joined(chunks[1..]));
    HeaderCompletes(fmt, mode, needed, header, body, k, c);
    var u: Reader<F> := AfterHeader(needed, header);
    var v := header[3];
    assert u.frameHeader + body == body;
    HandleSettles(fmt, mode, v, u, x, body, trailing);
    var r := Handle(fmt, mode, Initial(needed).(header := header[..k]), c);
    assert FeedAll(fmt, mode, Initial(needed).(header := header[..k]), chunks) == FeedAll(fmt, mode, r, chunks[1..]);
    if r.end || r.aborted {
      FinishedStaysFinished(fmt, mode, r, chunks[1..]);
    } else {
      FeedBody(fmt, mode, v, r, chunks[1..], body[|x|..], trailing);
    }
  }

  /** The chunks while the header is still being buffered. */
  lemma {:induction false} FeedHeader<F>(fmt: Format<F>, mode: Mode, needed: set<Key>, header: seq<byte>,
                                         body: seq<byte>, trailing: seq<byte>, k: nat, chunks: seq<seq<byte>>)
    requires WellFormedTag(header, body) && k < HeaderSize
    requires Joined(chunks) == (header + body + trailing)[k..]
    ensures OutcomeOf(FeedAll(fmt, mode, Initial(needed).(header := header[..k]), chunks))
            == Finished(OutcomeOf(Run(fmt, mode, header[3], AfterHeader(needed, header), body)))
    decreases |chunks|
  {
    var c := chunks[0];
    if k + |c| < HeaderSize {
      var stream := header + body + trailing;
      FirstChunk(stream, k, c, Joined(chunks[1..]));
      assert c == header[k..k + |c|] by {
        assert stream[k..k + |c|] == header[k..k + |c|];
      }
      assert header[..k] + c == header[..k + |c|];
      FeedHeader(fmt, mode, needed, header, body, trailing, k + |c|, chunks[1..]);
    } else {
      HeaderThenBody(fmt, mode, needed, header, body, trailing, k, chunks);
    }
  }

  /** However a stream holding a well-formed tag is cut into chunks, the
      frames, the end, the wanted set and the collected result are those
      of decoding the tag's frames one after the other. */
  lemma AnyCutting<F>(fmt: Format<F>, mode: Mode, needed: set<Key>, header: seq<byte>, body: seq<byte>,
                      trailing: seq<byte>, chunks: seq<seq<byte>>)
    requires WellFormedTag(header, body)
    requires Joined(chunks) == header + body + trailing
    ensures OutcomeOf(FeedAll(fmt, mode, Initial(needed), chunks))
            == Finished(OutcomeOf(Run(fmt, mode, header[3], AfterHeader(needed, header), body)))
  {
    assert Initial<F>(needed).(header := header[..0]) == Initial(needed);
    FeedHeader(fmt, mode, needed, header, body, trailing, 0, chunks);
  }

  /** Two cuttings of the same stream read the same. */
  lemma CuttingIrrelevant<F>(fmt: Format<F>, mode: Mode, needed: set<Key>, header: seq<byte>, body: seq<byte>,
                             trailing: seq<byte>, chunks: seq<seq<byte>>, others: seq<seq<byte>>)
    requires WellFormedTag(header, body)
    requires Joined(chunks) == header + body + trailing && Joined(others) == Joined(chunks)
    ensures OutcomeOf(FeedAll(fmt, mode, Initial(needed), chunks))
            == OutcomeOf(FeedAll(fmt, mode, Initial(needed), others))
  {
    AnyCutting(fmt, mode, needed, header, body, trailing, chunks);
    AnyCutting(fmt, mode, needed, header, body, trailing, others);
  }

  /** The events a subscriber hears from a laid-out body: each frame's
      decoding in order, up to and including the first exception. */
  function Heard<F>(fmt: Format<F>, v: byte, body: seq<byte>): seq<Event<F>>
    requires Layout(v, body)
    decreases |body|
  {
    if !IsFrameIdAt(body, 0) then []
    else
      var n := FrameHeaderSize + DeclaredSize(v, body);
      match fmt.decode(AsciiString(body[..4]), body[FrameHeaderSize..n])
      case Err(e) => [ThrownEvent(e)]
      case Ok(f) => [FrameEvent(f)] + Heard(fmt, v, body[n..])
  }

  /** Whether hearing `heard` ends in an exception. */
  predicate EndsThrown<F>(heard: seq<Event<F>>)
  {
    heard != [] && heard[|heard| - 1].ThrownEvent?
  }

  lemma EndsThrownAfterFrame<F>(f: F, rest: seq<Event<F>>)
    ensures EndsThrown([FrameEvent(f)] + rest) <==> EndsThrown(rest)
  {
    if rest != [] {
      assert ([FrameEvent(f)] + rest)[|rest|] == rest[|rest| - 1];
    }
  }

  /** The first frame of a laid-out body, heard by a subscriber. */
  lemma SubscriberFirstFrame<F>(fmt: Format<F>, v: byte, s: Reader<F>, body: seq<byte>, f: F)
    requires Layout(v, body) && !s.end && !s.aborted && IsFrameIdAt(body, 0)
    requires fmt.decode(AsciiString(body[..4]), body[FrameHeaderSize..FrameHeaderSize + DeclaredSize(v, body)]) == Ok(f)
    ensures var n := FrameHeaderSize + DeclaredSize(v, body);
      var t := s.(events := s.events + [FrameEvent(f)]);
      && Run(fmt, Subscribe, v, s, body) == Run(fmt, Subscribe, v, t, body[n..])
      && Heard(fmt, v, body) == [FrameEvent(f)] + Heard(fmt, v, body[n..])
  {
  }

  lemma {:induction false} RunSubscribes<F>(fmt: Format<F>, v: byte, s: Reader<F>, body: seq<byte>)
    requires Layout(v, body) && !s.end && !s.aborted
    ensures Run(fmt, Subscribe, v, s, body).events == s.events + Heard(fmt, v, body)
    ensures !Run(fmt, Subscribe, v, s, body).end
    ensures Run(fmt, Subscribe, v, s, body).aborted <==> EndsThrown(Heard(fmt, v, body))
    decreases |body|
  {
    if IsFrameIdAt(body, 0) {
      var n := FrameHeaderSize + DeclaredSize(v, body);
      match fmt.decode(AsciiString(body[..4]), body[FrameHeaderSize..n])
      case Err(e) =>
      case Ok(f) =>
        var t := s.(events := s.events + [FrameEvent(f)]);
        SubscriberFirstFrame(fmt, v, s, body, f);
        RunSubscribes(fmt, v, t, body[n..]);
        var rest := Heard(fmt, v, body[n..]);
        assert s.events + [FrameEvent(f)] + rest == s.events + ([FrameEvent(f)] + rest);
        EndsThrownAfterFrame(f, rest);
    }
  }

  /** A subscriber hears every frame of a well-formed tag decoded, in
      order, then `'end'`, or up to the first exception, however the
      stream is cut. */
  lemma SubscriberHearsEveryFrame<F>(fmt: Format<F>, needed: set<Key>, header: seq<byte>, body: seq<byte>,
                                     trailing: seq<byte>, chunks: seq<seq<byte>>)
    requires WellFormedTag(header, body)
    requires Joined(chunks) == header + body + trailing
    ensures var heard := Heard(fmt, header[3], body);
      FeedAll(fmt, Subscribe, Initial(needed), chunks).events
      == heard + if EndsThrown(heard) then [] else [EndEvent]
  {
    var u: Reader<F> := AfterHeader(needed, header);
    var heard := Heard(fmt, header[3], body);
    AnyCutting(fmt, Subscribe, needed, header, body, trailing, chunks);
    RunSubscribes(fmt, header[3], u, body);
    var o := OutcomeOf(Run(fmt, Subscribe, header[3], u, body));
    assert o.events == heard && !o.end && (o.aborted <==> EndsThrown(heard));
    assert Finished(o).events == heard + if EndsThrown(heard) then [] else [EndEvent];
  }
}
