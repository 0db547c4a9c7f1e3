/**
 * The entry points: `readId3(input, needed)` of the current build and
 * `streamTag(input, needed)` of the older one. Both create the handler's
 * state, subscribe it to the stream and choose what the caller gets back
 * from the type of `needed`. The stream is a sequence of chunks fed to
 * the handler in order.
 */
module ReadId3 {
  import opened Wrappers
  import opened NodeBuffer
  import opened Collect
  import opened TagStream
  import Parser
  import Id3Frames
  import LegacyFrames
  import StreamFacts

  /** The second argument: an array of keys, `true`, or nothing at all. */
  datatype Request = KeyList(keys: seq<Key>) | ParserWanted | NoRequest

  /** `readId3`: an array selects those keys, a missing argument collects
      every frame, and anything else hands back the parser itself. */
  function ModeOf(req: Request): (m: Mode)
    ensures m == Select <==> req.KeyList?
    ensures m == Everything <==> req.NoRequest?
    ensures m == Subscribe <==> req.ParserWanted?
  {
    match req
    case KeyList(_) => Select
    case NoRequest => Everything
    case ParserWanted => Subscribe
  }

  /** `streamTag`: an array selects those keys; anything else, a missing
      argument included, hands back the parser. */
  function LegacyModeOf(req: Request): (m: Mode)
    ensures m == Select <==> req.KeyList?
    ensures m == Subscribe <==> !req.KeyList?
  {
    if req.KeyList? then Select else Subscribe
  }

  /** `new Set(needed)`; the other forms have no wanted set. */
  function Needed(req: Request): (needed: set<Key>)
    ensures req.KeyList? ==> forall k :: k in needed <==> k in req.keys
    ensures !req.KeyList? ==> needed == {}
  {
    if req.KeyList? then KeySet(req.keys) else {}
  }

  /** Subscribe a fresh handler to the stream and deliver every chunk to
      it in order. */
  method Run<F>(format: Format<F>, mode: Mode, needed: set<Key>, chunks: seq<seq<byte>>)
    returns (p: Parser.Parser<F>)
    ensures fresh(p) && p.format == format && p.mode == mode
    ensures p.State() == FeedAll(format, mode, Initial(needed), chunks)
  {
    p := new Parser.Parser(format, mode, needed);
    var i := 0;
    while i < |chunks|
      invariant 0 <= i <= |chunks|
      invariant p.format == format && p.mode == mode
      invariant FeedAll(format, mode, p.State(), chunks[i..]) == FeedAll(format, mode, Initial(needed), chunks)
    {
      assert chunks[i..][0] == chunks[i] && chunks[i..][1..] == chunks[i + 1..];
      p.Feed(chunks[i]);
      i := i + 1;
    }
  }

  method ReadId3(needed: Request, chunks: seq<seq<byte>>) returns (p: Parser.Parser<Id3Frames.Frame>)
    ensures fresh(p) && p.mode == ModeOf(needed)
    ensures p.State() == FeedAll(Id3Frames.Id3Format(), ModeOf(needed), Initial(Needed(needed)), chunks)
  {
    p := Run(Id3Frames.Id3Format(), ModeOf(needed), Needed(needed), chunks);
  }

  method StreamTag(needed: Request, chunks: seq<seq<byte>>) returns (p: Parser.Parser<LegacyFrames.LegacyFrame>)
    ensures fresh(p) && p.mode == LegacyModeOf(needed)
    ensures p.State() == FeedAll(LegacyFrames.LegacyFormat(), LegacyModeOf(needed), Initial(Needed(needed)), chunks)
  {
    p := Run(LegacyFrames.LegacyFormat(), LegacyModeOf(needed), Needed(needed), chunks);
  }

  /** What the promise of `readId3(input, keys)` resolves to, if it
      resolves: a map holding only requested keys, and every requested key
      either filed or still wanted when the stream ran out. */
  lemma ResolvesToRequestedKeys<F>(format: Format<F>, keys: seq<Key>, chunks: seq<seq<byte>>)
    ensures var s := FeedAll(format, Select, Initial(Needed(KeyList(keys))), chunks);
      var r := Resolution(s);
      && (r.Some? ==> forall k :: k in r.value ==> k in keys)
      && (forall k :: k in keys ==> k in s.result || k in s.leftNeeded)
  {
    StreamFacts.SelectFilesOnlyRequested(format, Needed(KeyList(keys)), chunks);
  }
}
