/** The analyzer's per-frame step: add the frame's text to the buffer, and when the frame's handler asks
    for a match attempt, trim to the match window (when one is configured) and run a consuming match.
    How a frame becomes text and whether it asks for a match are decided by handlers that are not part
    of this model; they arrive here as `fragment` and `attempt`. */
module Analyzer {
  import opened Blocks
  import opened Patterns
  import opened BlockLaws
  import opened BlockBuffer

  /** The text a frame handler adds to the buffer, with the frame's time span. */
  datatype Fragment = Fragment(text: string, start: real, end: real)

  function AddedText(fragment: Option<Fragment>): string {
    if fragment.Some? then fragment.value.text else []
  }

  function AddFragment(bs: seq<Block>, fragment: Option<Fragment>): seq<Block> {
    if fragment.Some? then Added(bs, fragment.value.text, fragment.value.start, fragment.value.end) else bs
  }

  /** Trimming to the match window; a window of 0 means no window. */
  function Windowed(bs: seq<Block>, window: real): Trimmed {
    if window != 0.0 then DroppedBefore(bs, window) else Trimmed(bs, None)
  }

  /** One decode step on a buffer holding `bs`: the outcome and the blocks left afterwards.
      A window of 0 means no window; an exception ends the step where it is raised. */
  function Decoded(bs: seq<Block>, find: Finder, fragment: Option<Fragment>, attempt: bool, window: real)
    : (Result<Option<Found>>, seq<Block>)
    requires IsOracle(find)
  {
    var added := AddFragment(bs, fragment);
    if !attempt then (Ok(None), added)
    else
      var t := Windowed(added, window);
      if t.raised.Some? then (Err(t.raised.value), t.blocks)
      else
        var hit := find(Concat(t.blocks));
        (MatchSpec(t.blocks, hit), AfterMatch(t.blocks, hit, true))
  }

  /** Runs one decode step on `buf`. */
  method Decode(buf: StrBlockBuffer, fragment: Option<Fragment>, attempt: bool, window: real)
    returns (r: Result<Option<Found>>)
    requires buf.Valid()
    modifies buf
    ensures buf.Valid() && buf.pattern == old(buf.pattern)
    ensures (r, buf.blocks) == Decoded(old(buf.blocks), buf.pattern, fragment, attempt, window)
  {
    if fragment.Some? {
      buf.AddBlock(fragment.value.text, fragment.value.start, fragment.value.end);
    }
    if !attempt {
      return Ok(None);
    }
    if window != 0.0 {
      var raised := buf.DropBefore(window);
      if raised.Some? {
        return Err(raised.value);
      }
    }
    r := buf.Match(true);
  }

  lemma AddFragmentTranscript(bs: seq<Block>, fragment: Option<Fragment>)
    ensures Concat(AddFragment(bs, fragment)) == Concat(bs) + AddedText(fragment)
  {
    if fragment.Some? {
      AddedTranscript(bs, fragment.value.text, fragment.value.start, fragment.value.end);
    } else {
      assert Concat(bs) + [] == Concat(bs);
    }
  }

  lemma WindowedTranscript(bs: seq<Block>, window: real)
    ensures IsSuffix(Concat(Windowed(bs, window).blocks), Concat(bs))
  {
    if window != 0.0 && bs != [] {
      CutBeforeTranscript(bs, Last(bs).end - window);
    }
  }

  /** A consuming match leaves a suffix, and a returned match followed by what is left is a suffix too. */
  lemma MatchTranscript(bs: seq<Block>, hit: Option<Hit>)
    requires HitWithin(hit, Concat(bs))
    ensures IsSuffix(Concat(AfterMatch(bs, hit, true)), Concat(bs))
    ensures var r := MatchSpec(bs, hit);
            r.Ok? && r.value.Some? ==> IsSuffix(r.value.value.text + Concat(AfterMatch(bs, hit, true)), Concat(bs))
  {
    var c := Concat(bs);
    var r := MatchSpec(bs, hit);
    if r.Ok? && r.value.Some? {
      MatchConsumes(bs, hit);
      var h := hit.value;
      assert c[h.first..h.last] + c[h.last..] == c[h.first..];
    }
  }

  /** Whatever a decode step does, the buffer afterwards holds a suffix of the old transcript followed
      by the added text; without a match attempt it holds exactly that; and a returned match, followed
      by the text left after it, is a suffix too. */
  lemma DecodeTranscript(bs: seq<Block>, find: Finder, fragment: Option<Fragment>, attempt: bool, window: real)
    requires IsOracle(find)
    ensures var (r, after) := Decoded(bs, find, fragment, attempt, window);
            var full := Concat(bs) + AddedText(fragment);
            IsSuffix(Concat(after), full)
            && (!attempt ==> Concat(after) == full)
            && (r.Ok? && r.value.Some? ==> IsSuffix(r.value.value.text + Concat(after), full))
  {
    var added := AddFragment(bs, fragment);
    var full := Concat(bs) + AddedText(fragment);
    AddFragmentTranscript(bs, fragment);
    if attempt {
      var t := Windowed(added, window);
      WindowedTranscript(added, window);
      if t.raised.None? {
        var c := Concat(t.blocks);
        var hit := find(c);
        MatchTranscript(t.blocks, hit);
        var after := AfterMatch(t.blocks, hit, true);
        SuffixOfSuffix(Concat(after), c, full);
        var r := MatchSpec(t.blocks, hit);
        if r.Ok? && r.value.Some? {
          SuffixOfSuffix(r.value.value.text + Concat(after), c, full);
        }
      }
    }
  }

  lemma SuffixOfSuffix(a: string, b: string, c: string)
    requires IsSuffix(a, b) && IsSuffix(b, c)
    ensures IsSuffix(a, c)
  {
    assert c[|c| - |b|..][|b| - |a|..] == c[|c| - |a|..];
  }

  /** A decode step fails only by one of the two exceptions of the buffer: a zero charTime at the
      window cutoff, or an empty match at the very end of the remaining transcript. */
  lemma DecodeErrors(bs: seq<Block>, find: Finder, fragment: Option<Fragment>, attempt: bool, window: real)
    requires IsOracle(find)
    ensures var (r, after) := Decoded(bs, find, fragment, attempt, window);
            r.Err? ==>
              attempt
              && (r.error == ZeroDivision ==> window != 0.0 && after != [] && after[0].charTime == 0.0)
              && (r.error == UnboundStart ==>
                    var hit := find(Concat(after));
                    hit.Some? && hit.value.first == |Concat(after)|)
  {
    var added := AddFragment(bs, fragment);
    if attempt {
      var t := Windowed(added, window);
      if window != 0.0 && added != [] {
        CutBeforeShape(added, Last(added).end - window);
      }
      if t.raised.None? {
        var hit := find(Concat(t.blocks));
        if t.blocks != [] && hit.Some? {
          MatchRaisesIffEmptyAtEnd(t.blocks, hit.value);
        }
      }
    }
  }
}
