/**
 * The handler as the source writes it: closure variables that the
 * `'data'` callback updates in place inside a `while(true)` loop. One
 * `Parser` object is one call of `readId3` (or `streamTag`): the handler's
 * state, the collector's wanted set and result, and the events emitted.
 */
module Parser {
  import opened Wrappers
  import opened NodeBuffer
  import opened Sizes
  import opened Collect
  import opened TagStream

  /** How a block of the handler's loop ends. */
  datatype Flow = Continue | Break | Return

  class Parser<F> {
    const format: Format<F>
    const mode: Mode
    const needed: set<Key>

    var phase: Phase
    var end: bool
    var aborted: bool
    var header: seq<byte>
    var majorVersion: byte
    var framesSize: nat
    var frameHeader: seq<byte>
    var frameName: string
    var frameValue: seq<byte>
    var frameValueLength: nat
    var leftNeeded: set<Key>
    var result: map<Key, F>
    var events: seq<Event<F>>

    /** The fields as one `TagStream.Reader` value. */
    function State(): Reader<F>
      reads this
    {
      Reader(phase, end, aborted, header, majorVersion, framesSize, frameHeader, frameName,
             frameValue, frameValueLength, leftNeeded, result, events)
    }

    constructor (format: Format<F>, mode: Mode, needed: set<Key>)
      ensures this.format == format && this.mode == mode && this.needed == needed
      ensures State() == Initial(needed)
    {
      this.format, this.mode, this.needed := format, mode, needed;
      phase, end, aborted := ReadingHeader, false, false;
      header, majorVersion, framesSize := [], 0, 0;
      frameHeader, frameName, frameValue, frameValueLength := [], "", [], 0;
      leftNeeded, result, events := needed, map[], [];
    }

    /** `parser.emit('error', …)`. */
    method SignalError(e: TagError)
      modifies this
      ensures State() == Signal(mode, old(State()), e)
    {
      if mode == Subscribe {
        events := events + [ErrorEvent(e)];
      } else {
        aborted := true;
        events := events + [ThrownEvent(UnhandledError(e))];
      }
    }

    /** `parser.emit('frame', f)` and the collector's listener. */
    method Emit(f: F)
      modifies this
      ensures State() == Deliver(format, mode, old(State()), f)
    {
      events := events + [FrameEvent(f)];
      match mode
      case Subscribe =>
      case Everything =>
        result := Overwrite(result, format.allKeys(f), f);
      case Select =>
        var claimed := Claim(leftNeeded, result, format.selectKeys(f), f);
        leftNeeded, result := claimed.0, claimed.1;
        if leftNeeded == {} {
          end := true;
          events := events + [EndEvent];
        }
    }

    /** A consumer cancelling with `parser.emit('end')`. */
    method Cancel()
      modifies this
      ensures State() == TagStream.Cancel(old(State()))
    {
      end := true;
      events := events + [EndEvent];
    }

    /** State 1 of the loop. `Continue` goes on to state 2 with `rest`;
        `Break` leaves the loop; `Return` leaves the handler. */
    method FrameHeaderBlock(chunk: seq<byte>) returns (flow: Flow, rest: seq<byte>)
      requires phase == ReadingFrameHeader && !end && !aborted
      modifies this
      ensures ScanFrameHeader(old(State()), chunk) == if flow == Continue then Next(State(), rest) else Stop(State())
      ensures flow == Return <==> flow != Continue && (end || aborted)
      ensures flow == Continue ==> phase == ReadingFrameValue && !end && !aborted
    {
      var fh := frameHeader + chunk;
      if |fh| < FrameHeaderSize {
        frameHeader := fh;
        return Break, [];
      }
      var found := FindFrameId(fh, 0);
      if found.None? {
        frameHeader := fh[|fh| - 3..];
        return Break, [];
      }
      flow, rest := FoundFrameId(fh, found.value);
    }

    /** The rest of state 1 once the id is found at `i` in `fh`. */
    method FoundFrameId(fh: seq<byte>, i: nat) returns (flow: Flow, rest: seq<byte>)
      requires phase == ReadingFrameHeader && !end && !aborted
      requires FrameHeaderSize <= |fh| && i + 4 <= |fh|
      modifies this
      ensures FrameHeaderAt(old(State()), fh, i) == if flow == Continue then Next(State(), rest) else Stop(State())
      ensures flow == Return <==> flow != Continue && (end || aborted)
      ensures flow == Continue ==> phase == ReadingFrameValue && !end && !aborted
    {
      frameName := AsciiString(fh[i..i + 4]);
      var size := FrameSize(majorVersion, fh, i);
      if size.None? {
        frameHeader := fh;
        aborted, events := true, events + [ThrownEvent(RangeError)];
        return Return, [];
      }
      frameValueLength, frameHeader, phase := size.value, [], ReadingFrameValue;
      flow, rest := Continue, fh[FrameHeaderSize..];
    }

    /** State 2 of the loop. */
    method FrameValueBlock(chunk: seq<byte>) returns (flow: Flow, rest: seq<byte>)
      requires phase == ReadingFrameValue && !end && !aborted
      modifies this
      ensures ReadFrameValue(format, mode, old(State()), chunk) == if flow == Continue then Next(State(), rest) else Stop(State())
      ensures flow == Return <==> flow != Continue && (end || aborted)
      ensures flow == Continue ==> phase == ReadingFrameHeader && !end && !aborted
    {
      frameValue := frameValue + chunk;
      if |frameValue| < frameValueLength {
        return Break, [];
      }
      var decoded := format.decode(frameName, frameValue[..frameValueLength]);
      if decoded.Err? {
        aborted := true;
        events := events + [ThrownEvent(decoded.error)];
        return Return, [];
      }
      Emit(decoded.value);
      if end {
        return Return, [];
      }
      rest := frameValue[frameValueLength..];
      frameValue := [];
      phase := ReadingFrameHeader;
      flow := Continue;
    }

    /** State 0, up to the switch to state 1. */
    method HeaderBlock(chunk: seq<byte>) returns (flow: Flow, rest: seq<byte>)
      requires phase == ReadingHeader && !end && !aborted
      modifies this
      ensures ReadHeader(mode, old(State()), chunk) == if flow == Continue then Next(State(), rest) else Stop(State())
      ensures flow != Break
    {
      header := header + chunk;
      if |header| < HeaderSize {
        return Return, [];
      }
      if !IsId3Signature(header) {
        SignalError(NoId3Tag);
        if aborted {
          return Return, [];
        }
      }
      flow, rest := VersionBlock(header);
    }

    /** The rest of state 0 once the signature of `complete` is checked. */
    method VersionBlock(complete: seq<byte>) returns (flow: Flow, rest: seq<byte>)
      requires phase == ReadingHeader && !end && !aborted && HeaderSize <= |complete|
      modifies this
      ensures ReadVersion(mode, old(State()), complete) == if flow == Continue then Next(State(), rest) else Stop(State())
      ensures flow != Break
    {
      majorVersion := complete[3];
      if majorVersion != 3 && majorVersion != 4 {
        SignalError(UnsupportedVersion(majorVersion));
        if aborted {
          return Return, [];
        }
      }
      framesSize := TagSize(complete);
      rest := complete[HeaderSize..];
      header := [];
      phase := ReadingFrameHeader;
      flow := Continue;
    }

    /** The `while(true)` loop of the handler; `returned` tells whether
        it left the whole handler rather than just the loop. */
    method FrameLoop(input: seq<byte>) returns (returned: bool)
      requires phase != ReadingHeader && !end && !aborted
      modifies this
      ensures State() == Drain(format, mode, old(State()), input)
      ensures returned == (end || aborted)
    {
      var chunk := input;
      ghost var target := Drain(format, mode, State(), chunk);
      while true
        invariant phase != ReadingHeader && !end && !aborted
        invariant Drain(format, mode, State(), chunk) == target
        decreases Measure(State(), chunk)
      {
        var flow;
        if phase == ReadingFrameHeader {
          ghost var s0, c0 := State(), chunk;
          assert StepOnce(format, mode, s0, c0) == ScanFrameHeader(s0, c0);
          flow, chunk := FrameHeaderBlock(chunk);
          if flow != Continue {
            DrainStops(format, mode, s0, c0, State());
            return flow == Return;
          }
          DrainContinues(format, mode, s0, c0, State(), chunk);
        }
        if phase == ReadingFrameValue {
          ghost var s1, c1 := State(), chunk;
          assert StepOnce(format, mode, s1, c1) == ReadFrameValue(format, mode, s1, c1);
          flow, chunk := FrameValueBlock(chunk);
          if flow != Continue {
            DrainStops(format, mode, s1, c1, State());
            return flow == Return;
          }
          DrainContinues(format, mode, s1, c1, State(), chunk);
        }
      }
    }

    /** The `'data'` handler. */
    method Feed(input: seq<byte>)
      modifies this
      ensures State() == Handle(format, mode, old(State()), input)
    {
      if end || aborted {
        return;
      }
      var chunk := input;
      if phase == ReadingHeader {
        var flow;
        flow, chunk := HeaderBlock(chunk);
        if flow == Return {
          return;
        }
      }
      ghost var started, startChunk := State(), chunk;
      var remaining: int := framesSize - |chunk|;
      if remaining < 0 {
        chunk := chunk[..|chunk| + remaining];
        remaining := 0;
      }
      framesSize := remaining;
      assert (State(), chunk) == CountDown(started, startChunk);
      var returned := FrameLoop(chunk);
      if returned {
        return;
      }
      if framesSize == 0 {
        end := true;
        events := events + [EndEvent];
      }
    }
  }
}
