/** The buffer's operations as functions of the block sequence, and the laws they obey.
    Each function follows one method of StrBlockBuffer branch for branch; the class in
    str_block_buffer.dfy is proved to update its state exactly as these functions say. */
module BlockLaws {
  import opened Blocks
  import opened Patterns
  import opened RealFacts

  // ---------------------------------------------------------------- AddBlock

  /** The merge test: the new fragment starts no later than half of its own character time
      after the last block ends (inclusive). */
  predicate Merges(bs: seq<Block>, text: string, start: real, end: real)
    requires text != []
  {
    bs != [] && Last(bs).end + CharTime(start, end, |text|) / 2.0 >= start
  }

  /** AddBlock: an empty fragment is ignored; a fragment close enough to the last block is joined
      onto it; any other fragment becomes a new last block. */
  function Added(bs: seq<Block>, text: string, start: real, end: real): (r: seq<Block>)
    ensures text == [] ==> r == bs
    ensures text != [] ==> (|r| == |bs| <==> Merges(bs, text, start, end))
    ensures text != [] && !Merges(bs, text, start, end) ==>
              |r| == |bs| + 1 && r[..|bs|] == bs && Last(r) == Block(text, start, end, CharTime(start, end, |text|))
    ensures text != [] && Merges(bs, text, start, end) ==>
              r[..|bs| - 1] == bs[..|bs| - 1]
              && Last(r).text == Last(bs).text + text
              && Last(r).start == Last(bs).start && Last(r).end == end
              && Last(r).charTime == CharTime(Last(bs).start, end, |Last(r).text|)
  {
    if text == [] then bs
    else if Merges(bs, text, start, end) then
      var last := Last(bs);
      var joined := last.text + text;
      bs[|bs| - 1 := Block(joined, last.start, end, CharTime(last.start, end, |joined|))]
    else
      bs + [Block(text, start, end, CharTime(start, end, |text|))]
  }

  /** Whichever branch is taken, the transcript grows by exactly the fragment's text. */
  lemma AddedTranscript(bs: seq<Block>, text: string, start: real, end: real)
    ensures Concat(Added(bs, text, start, end)) == Concat(bs) + text
  {
    var r := Added(bs, text, start, end);
    if text == [] {
      assert Concat(bs) + text == Concat(bs);
    } else if Merges(bs, text, start, end) {
      var pre := bs[..|bs| - 1];
      assert bs == pre + [Last(bs)];
      assert r == pre + [Last(r)];
      ConcatAppend(pre, [Last(bs)]);
      ConcatAppend(pre, [Last(r)]);
      assert Concat([Last(r)]) == Last(r).text;
      assert Concat([Last(bs)]) == Last(bs).text;
    } else {
      ConcatAppend(bs, [Last(r)]);
      assert Concat([Last(r)]) == text;
    }
  }

  /** A block built from a charTime of (end - start) / n keeps the timing relation. */
  lemma EvenlySpread(start: real, end: real, n: nat)
    requires n > 0
    ensures CharTime(start, end, n) * (n as real) == end - start
  {
  }

  lemma AddedKeepsTimed(bs: seq<Block>, text: string, start: real, end: real)
    requires AllTimed(bs)
    ensures AllTimed(Added(bs, text, start, end))
  {
    var r := Added(bs, text, start, end);
    if text != [] {
      EvenlySpread(if Merges(bs, text, start, end) then Last(bs).start else start, end, |Last(r).text|);
      assert Timed(Last(r));
      forall i | 0 <= i < |r| ensures Timed(r[i]) {
        if i < |r| - 1 {
          assert r[i] == bs[i];
        }
      }
    }
  }

  // ---------------------------------------------------------------- Drop

  /** The blocks of `r` are those of `bs` with whole blocks removed from the front; only the new
      first block may differ from its original. */
  ghost predicate FrontTrimmed(bs: seq<Block>, r: seq<Block>) {
    |r| <= |bs| && (r != [] ==> r[1..] == bs[|bs| - |r| + 1..])
  }

  /** `b` is `orig` with some leading characters removed: same end and charTime, its text a suffix. */
  ghost predicate Shortened(orig: Block, b: Block) {
    IsSuffix(b.text, orig.text) && b.end == orig.end && b.charTime == orig.charTime
  }

  /** `b` is `orig` with its first k characters removed and its start moved k character times later. */
  ghost predicate CharsRemoved(orig: Block, b: Block) {
    Shortened(orig, b) && b.start == orig.start + orig.charTime * ((|orig.text| - |b.text|) as real)
  }

  /** The block with its first d characters removed, its start moved d character times later. */
  function TrimFront(b: Block, d: nat): Block
    requires d <= |b.text|
  {
    b.(start := b.start + b.charTime * (d as real), text := b.text[d..])
  }

  /** The Drop loop from the block whose first character has global index `base` onward. */
  function DropFrom(bs: seq<Block>, lastIndex: int, base: int): seq<Block>
    decreases |bs|
  {
    if bs == [] then []
    else if base > lastIndex then bs
    else if |bs[0].text| + base <= lastIndex || |bs[0].text| == 0 then
      DropFrom(bs[1..], lastIndex, base + |bs[0].text|)
    else
      bs[0 := TrimFront(bs[0], lastIndex - base)]
  }

  /** Drop deletes whole blocks only at the front and trims at most the new first block, which keeps
      its end and charTime, has its start moved by the characters it lost, and is never left empty. */
  lemma {:induction false} DropFromShape(bs: seq<Block>, lastIndex: int, base: int)
    ensures var r := DropFrom(bs, lastIndex, base);
            FrontTrimmed(bs, r)
            && (r != [] ==> CharsRemoved(bs[|bs| - |r|], r[0]))
            && (r != [] && r[0] != bs[|bs| - |r|] ==> r[0].text != [])
            && (base > lastIndex ==> r == bs)
    decreases |bs|
  {
    if bs != [] && base <= lastIndex {
      var t := bs[0].text;
      if |t| + base <= lastIndex || |t| == 0 {
        DropFromShape(bs[1..], lastIndex, base + |t|);
        var r := DropFrom(bs[1..], lastIndex, base + |t|);
        if r != [] {
          assert r[1..] == bs[1..][|bs| - 1 - |r| + 1..] == bs[|bs| - |r| + 1..];
          assert bs[1..][|bs| - 1 - |r|] == bs[|bs| - |r|];
        }
      } else {
        var d := lastIndex - base;
        var r := bs[0 := TrimFront(bs[0], d)];
        assert r[1..] == bs[1..];
        assert r[0].text == t[|t| - |r[0].text|..];
      }
    }
  }

  /** Drop(lastIndex): the buffer after trimming by a global character index. */
  function Dropped(bs: seq<Block>, lastIndex: int): seq<Block> {
    DropFrom(bs, lastIndex, 0)
  }

  /** Replacing the first block changes only the first block's share of the transcript. */
  lemma ConcatFirstReplaced(bs: seq<Block>, b: Block)
    requires bs != []
    ensures Concat(bs[0 := b]) == b.text + Concat(bs[1..])
  {
    var r := bs[0 := b];
    assert r[1..] == bs[1..];
  }

  lemma SliceAfterPrefix(t: string, c: string, k: nat)
    requires k <= |c|
    ensures (t + c)[|t| + k..] == c[k..]
  {
  }

  lemma {:induction false} DropFromTranscript(bs: seq<Block>, lastIndex: int, base: int)
    requires base <= lastIndex
    ensures Concat(DropFrom(bs, lastIndex, base)) == Concat(bs)[Min(lastIndex - base, |Concat(bs)|)..]
    decreases |bs|
  {
    if bs != [] {
      var t, rest := bs[0].text, Concat(bs[1..]);
      assert Concat(bs) == t + rest;
      if |t| + base <= lastIndex || |t| == 0 {
        DropFromTranscript(bs[1..], lastIndex, base + |t|);
        var k := Min(lastIndex - base - |t|, |rest|);
        assert Min(lastIndex - base, |Concat(bs)|) == |t| + k;
        SliceAfterPrefix(t, rest, k);
      } else {
        var d := lastIndex - base;
        ConcatFirstReplaced(bs, TrimFront(bs[0], d));
        assert (t + rest)[d..] == t[d..] + rest;
      }
    }
  }

  /** Drop removes exactly the first min(lastIndex, length) characters of the transcript: the
      character at lastIndex itself is kept. A negative index changes nothing. */
  lemma DroppedTranscript(bs: seq<Block>, lastIndex: int)
    ensures lastIndex < 0 ==> Dropped(bs, lastIndex) == bs
    ensures 0 <= lastIndex ==> Concat(Dropped(bs, lastIndex)) == Concat(bs)[Min(lastIndex, |Concat(bs)|)..]
    ensures 0 <= lastIndex < |Concat(bs)| ==> Concat(Dropped(bs, lastIndex))[0] == Concat(bs)[lastIndex]
  {
    if 0 <= lastIndex {
      DropFromTranscript(bs, lastIndex, 0);
    }
  }

  lemma CharsRemovedKeepsTimed(orig: Block, b: Block)
    requires Timed(orig) && CharsRemoved(orig, b)
    ensures Timed(b)
  {
    var n, m := |orig.text| as real, |b.text| as real;
    if |b.text| > 0 {
      calc {
        b.end - b.start;
        orig.end - orig.start - orig.charTime * (n - m);
        orig.charTime * n - orig.charTime * (n - m);
        b.charTime * m;
      }
    }
  }

  /** The remaining blocks of r keep the timing relation when those of bs do. */
  lemma FrontTrimmedKeepsTimed(bs: seq<Block>, r: seq<Block>)
    requires AllTimed(bs) && FrontTrimmed(bs, r)
    requires r != [] ==> Timed(r[0])
    ensures AllTimed(r)
  {
    forall i | 0 <= i < |r| ensures Timed(r[i]) {
      if i > 0 {
        assert r[i] == r[1..][i - 1] == bs[|bs| - |r| + i];
      }
    }
  }

  lemma DroppedKeepsTimed(bs: seq<Block>, lastIndex: int)
    requires AllTimed(bs)
    ensures AllTimed(Dropped(bs, lastIndex))
  {
    var r := Dropped(bs, lastIndex);
    DropFromShape(bs, lastIndex, 0);
    if r != [] {
      CharsRemovedKeepsTimed(bs[|bs| - |r|], r[0]);
    }
    FrontTrimmedKeepsTimed(bs, r);
  }

  // ---------------------------------------------------------------- DropBefore

  /** The outcome of trimming to a time window: the remaining blocks, and the exception raised, if any. */
  datatype Trimmed = Trimmed(blocks: seq<Block>, raised: Option<Error>)

  /** How many leading characters the straddling block loses: those whose interpolated start time
      is at or before the cutoff. */
  function DelCount(b: Block, cutoff: real): int
    requires b.charTime != 0.0
  {
    PyInt(((cutoff - b.start) + b.charTime) / b.charTime)
  }

  /** The block with its first d characters sliced off and its start moved d character times later. */
  function Advance(b: Block, d: int): Block {
    b.(start := b.start + (d as real) * b.charTime, text := PySliceFrom(b.text, d))
  }

  /** The DropBefore loop against a fixed cutoff time. */
  function CutBefore(bs: seq<Block>, cutoff: real): Trimmed
    decreases |bs|
  {
    if bs == [] then Trimmed([], None)
    else if bs[0].start > cutoff then Trimmed(bs, None)
    else if bs[0].end < cutoff then CutBefore(bs[1..], cutoff)
    else if bs[0].charTime == 0.0 then Trimmed(bs, Some(ZeroDivision))
    else Trimmed(bs[0 := Advance(bs[0], DelCount(bs[0], cutoff))], None)
  }

  /** DropBefore changes at most the new first block, keeping its end and charTime. It raises only
      on a block with zero charTime that straddles the cutoff, which stays in place together with
      all blocks after it. */
  lemma {:induction false} CutBeforeShape(bs: seq<Block>, cutoff: real)
    ensures var r := CutBefore(bs, cutoff);
            FrontTrimmed(bs, r.blocks)
            && (r.blocks != [] ==> Shortened(bs[|bs| - |r.blocks|], r.blocks[0]))
            && (r.raised.Some? ==>
                  r.raised == Some(ZeroDivision) && r.blocks != [] && r.blocks == bs[|bs| - |r.blocks|..]
                  && r.blocks[0].charTime == 0.0 && r.blocks[0].start <= cutoff <= r.blocks[0].end)
    decreases |bs|
  {
    if bs != [] && bs[0].start <= cutoff {
      if bs[0].end < cutoff {
        CutBeforeShape(bs[1..], cutoff);
        var r := CutBefore(bs[1..], cutoff).blocks;
        if r != [] {
          assert r[1..] == bs[|bs| - |r| + 1..];
          assert bs[1..][|bs| - 1 - |r|] == bs[|bs| - |r|];
        }
        assert bs[1..][|bs| - 1 - |r|..] == bs[|bs| - |r|..];
      } else if bs[0].charTime != 0.0 {
        var r := CutBefore(bs, cutoff).blocks;
        assert r[1..] == bs[1..];
      }
    }
  }

  /** DropBefore deletes only front blocks that start at or before, and end before, the cutoff. */
  lemma {:induction false} CutBeforeDeletes(bs: seq<Block>, cutoff: real)
    ensures var r := CutBefore(bs, cutoff).blocks;
            |r| <= |bs| && forall i :: 0 <= i < |bs| - |r| ==> bs[i].start <= cutoff && bs[i].end < cutoff
    decreases |bs|
  {
    if bs != [] && bs[0].start <= cutoff && bs[0].end < cutoff {
      CutBeforeDeletes(bs[1..], cutoff);
      var r := CutBefore(bs[1..], cutoff).blocks;
      forall i | 0 <= i < |bs| - |r| ensures bs[i].start <= cutoff && bs[i].end < cutoff {
        if i > 0 {
          assert bs[i] == bs[1..][i - 1];
        }
      }
    }
  }

  /** DropBefore(span): trim against the cutoff `span` before the end of the last block. */
  function DroppedBefore(bs: seq<Block>, span: real): Trimmed {
    if bs == [] then Trimmed([], None) else CutBefore(bs, Last(bs).end - span)
  }

  /** An empty buffer stays empty; a non-negative span never deletes the last block, whose end stays put. */
  lemma DroppedBeforeKeepsLast(bs: seq<Block>, span: real)
    ensures bs == [] ==> DroppedBefore(bs, span) == Trimmed([], None)
    ensures bs != [] && 0.0 <= span ==>
              var r := DroppedBefore(bs, span).blocks;
              r != [] && Last(r).end == Last(bs).end
  {
    if bs != [] {
      var cutoff := Last(bs).end - span;
      CutBeforeShape(bs, cutoff);
      CutBeforeDeletes(bs, cutoff);
      LastBlockKept(bs, CutBefore(bs, cutoff).blocks, cutoff);
    }
  }

  /** A block ending at or after the cutoff is never deleted, so the last block survives. */
  lemma LastBlockKept(bs: seq<Block>, r: seq<Block>, cutoff: real)
    requires bs != []
    requires FrontTrimmed(bs, r) && (r != [] ==> Shortened(bs[|bs| - |r|], r[0]))
    requires forall i :: 0 <= i < |bs| - |r| ==> bs[i].end < cutoff
    ensures cutoff <= Last(bs).end ==> r != [] && Last(r).end == Last(bs).end
  {
    if r == [] {
      assert Last(bs).end < cutoff;
    } else if |r| > 1 {
      assert Last(r) == r[1..][|r| - 2] == Last(bs);
    }
  }

  /** The remaining transcript is a suffix of the old one. */
  lemma {:induction false} CutBeforeTranscript(bs: seq<Block>, cutoff: real)
    ensures IsSuffix(Concat(CutBefore(bs, cutoff).blocks), Concat(bs))
    decreases |bs|
  {
    if bs != [] && bs[0].start <= cutoff {
      assert Concat(bs) == bs[0].text + Concat(bs[1..]);
      if bs[0].end < cutoff {
        CutBeforeTranscript(bs[1..], cutoff);
      } else if bs[0].charTime != 0.0 {
        var r := CutBefore(bs, cutoff).blocks;
        assert r == [r[0]] + bs[1..];
        assert Concat(r) == r[0].text + Concat(r[1..]);
        assert r[1..] == bs[1..];
      }
    }
  }

  lemma DelCountPassesCutoff(b: Block, cutoff: real)
    requires b.charTime > 0.0 && b.start <= cutoff
    ensures DelCount(b, cutoff) >= 1
    ensures Advance(b, DelCount(b, cutoff)).start > cutoff
    ensures b.start + ((DelCount(b, cutoff) - 1) as real) * b.charTime <= cutoff
  {
    var ct := b.charTime;
    var q := (cutoff - b.start) / ct;
    DivNonNegative(cutoff - b.start, ct);
    DivPlusOne(cutoff - b.start, ct);
    var d := DelCount(b, cutoff);
    PyIntBounds(((cutoff - b.start) + ct) / ct);
    StepsBracket(b.start, cutoff, ct, d as real);
  }

  /** After a DropBefore that raised nothing, the first remaining block starts after the cutoff,
      unless its charTime is negative. */
  lemma {:induction false} CutBeforeWindow(bs: seq<Block>, cutoff: real)
    ensures var r := CutBefore(bs, cutoff);
            r.raised.None? && r.blocks != [] && r.blocks[0].charTime >= 0.0 ==> r.blocks[0].start > cutoff
    decreases |bs|
  {
    if bs != [] && bs[0].start <= cutoff {
      if bs[0].end < cutoff {
        CutBeforeWindow(bs[1..], cutoff);
      } else if bs[0].charTime > 0.0 {
        DelCountPassesCutoff(bs[0], cutoff);
      }
    }
  }

  /** On a non-empty evenly timed block that straddles the cutoff, DelCount is between 1 and one past
      the block's length, and it is one past the length exactly when the cutoff is the block's end. */
  lemma DelCountRange(b: Block, cutoff: real)
    requires Timed(b) && |b.text| > 0 && b.charTime != 0.0 && b.start <= cutoff <= b.end
    ensures b.charTime > 0.0
    ensures 1 <= DelCount(b, cutoff) <= |b.text| + 1
    ensures DelCount(b, cutoff) == |b.text| + 1 <==> cutoff == b.end
  {
    var ct, n := b.charTime, |b.text| as real;
    if ct < 0.0 {
      MulStrict(ct, 0.0, n);
    }
    var q := (cutoff - b.start) / ct;
    DivNonNegative(cutoff - b.start, ct);
    if q > n {
      MulStrict(n, q, ct);
    }
    assert (cutoff == b.end) == (q == n) by {
      if cutoff == b.end {
        ZeroFactor(q - n, ct);
      }
    }
    DivPlusOne(cutoff - b.start, ct);
    assert ((cutoff - b.start) + ct) / ct <= n + 1.0;
    PyIntBounds(((cutoff - b.start) + ct) / ct);
    DelCountPassesCutoff(b, cutoff);
  }

  /** The one way DropBefore empties a block: a cutoff exactly at the straddling block's end removes
      one character more than the block holds, and the block's start moves past its end. */
  lemma EmptiedAtEnd(b: Block)
    requires Timed(b) && |b.text| > 0 && b.charTime != 0.0 && b.start <= b.end
    ensures var a := Advance(b, DelCount(b, b.end));
            a.text == [] && a.start == b.end + b.charTime && a.start > a.end
  {
    DelCountRange(b, b.end);
    var d := |b.text| + 1;
    assert (d as real) * b.charTime == b.charTime * (|b.text| as real) + b.charTime;
  }

  lemma AdvanceKeepsTimed(b: Block, cutoff: real)
    requires Timed(b) && b.charTime != 0.0 && b.start <= cutoff <= b.end
    ensures Timed(Advance(b, DelCount(b, cutoff)))
  {
    if |b.text| > 0 {
      DelCountRange(b, cutoff);
      var d := DelCount(b, cutoff);
      var a := Advance(b, d);
      if d <= |b.text| {
        var n, k := |b.text| as real, d as real;
        assert |a.text| as real == n - k;
        calc {
          a.end - a.start;
          b.end - b.start - k * b.charTime;
          b.charTime * n - b.charTime * k;
          b.charTime * (n - k);
        }
      }
    }
  }

  lemma {:induction false} CutBeforeKeepsTimed(bs: seq<Block>, cutoff: real)
    requires AllTimed(bs)
    ensures AllTimed(CutBefore(bs, cutoff).blocks)
    decreases |bs|
  {
    if bs != [] && bs[0].start <= cutoff {
      if bs[0].end < cutoff {
        assert AllTimed(bs[1..]) by {
          forall i | 0 <= i < |bs| - 1 ensures Timed(bs[1..][i]) {
            assert bs[1..][i] == bs[i + 1];
          }
        }
        CutBeforeKeepsTimed(bs[1..], cutoff);
      } else if bs[0].charTime != 0.0 {
        assert Timed(bs[0]);
        AdvanceKeepsTimed(bs[0], cutoff);
        CutBeforeShape(bs, cutoff);
        FrontTrimmedKeepsTimed(bs, CutBefore(bs, cutoff).blocks);
      }
    }
  }

  // ---------------------------------------------------------------- Match

  /** Where a block's text lies in the concatenated search string, with its timing. */
  datatype Entry = Entry(startIndex: nat, endIndex: nat, startTime: real, charTime: real)

  /** The result of a successful match: the matched text and its interpolated time span. */
  datatype Found = Found(text: string, start: real, end: real)

  /** Entry e records block b's start time, charTime and length. */
  ghost predicate Describes(e: Entry, b: Block) {
    e.startTime == b.start && e.charTime == b.charTime && e.endIndex == e.startIndex + |b.text|
  }

  /** The index table Match builds alongside the search string, one entry per block. */
  function IndexOf(bs: seq<Block>): (es: seq<Entry>)
    ensures |es| == |bs|
    ensures forall i :: 0 <= i < |bs| ==> Describes(es[i], bs[i])
  {
    seq(|bs|, i requires 0 <= i < |bs| =>
      Entry(|Concat(bs[..i])|, |Concat(bs[..i])| + |bs[i].text|, bs[i].start, bs[i].charTime))
  }

  lemma EntryHoldsBlock(bs: seq<Block>, i: nat)
    requires i < |bs|
    ensures IndexOf(bs)[i].endIndex <= |Concat(bs)|
    ensures Concat(bs)[IndexOf(bs)[i].startIndex..IndexOf(bs)[i].endIndex] == bs[i].text
  {
    ConcatAround(bs, i);
  }

  lemma EntriesChain(bs: seq<Block>, i: nat)
    requires i + 1 < |bs|
    ensures IndexOf(bs)[i].endIndex == IndexOf(bs)[i + 1].startIndex
  {
    ConcatPrefixGrows(bs, i);
  }

  lemma EntriesSpan(bs: seq<Block>)
    requires bs != []
    ensures IndexOf(bs)[0].startIndex == 0
    ensures IndexOf(bs)[|bs| - 1].endIndex == |Concat(bs)|
  {
    assert bs[..0] == [];
    ConcatAround(bs, |bs| - 1);
    assert bs[|bs|..] == [];
  }

  /** Ranges that tile [0, n) in order: each starts where the previous one ends. */
  ghost predicate Tiles(es: seq<Entry>, n: nat) {
    (es == [] ==> n == 0)
    && (es != [] ==> es[0].startIndex == 0 && es[|es| - 1].endIndex == n)
    && (forall i :: 0 <= i < |es| - 1 ==> es[i].endIndex == es[i + 1].startIndex)
  }

  /** The entries' ranges tile the search string in block order. */
  lemma IndexTiles(bs: seq<Block>)
    ensures Tiles(IndexOf(bs), |Concat(bs)|)
  {
    var es := IndexOf(bs);
    forall i | 0 <= i < |bs| - 1 ensures es[i].endIndex == es[i + 1].startIndex {
      EntriesChain(bs, i);
    }
    if bs != [] {
      EntriesSpan(bs);
    }
  }

  /** Each entry's range of the search string holds its block's text. */
  lemma IndexHoldsText(bs: seq<Block>)
    ensures forall i :: 0 <= i < |bs| ==>
              IndexOf(bs)[i].endIndex <= |Concat(bs)|
              && Concat(bs)[IndexOf(bs)[i].startIndex..IndexOf(bs)[i].endIndex] == bs[i].text
  {
    var es := IndexOf(bs);
    forall i | 0 <= i < |bs|
      ensures es[i].endIndex <= |Concat(bs)|
      ensures Concat(bs)[es[i].startIndex..es[i].endIndex] == bs[i].text
    {
      EntryHoldsBlock(bs, i);
    }
  }

  /** The first entry whose range ends after `bound`. */
  function FirstEndingAfter(es: seq<Entry>, bound: int): (r: Option<nat>)
    ensures r.Some? ==> r.value < |es| && es[r.value].endIndex > bound
                        && forall j :: 0 <= j < r.value ==> es[j].endIndex <= bound
    ensures r.None? ==> forall j :: 0 <= j < |es| ==> es[j].endIndex <= bound
  {
    if es == [] then None
    else if es[0].endIndex > bound then Some(0)
    else match FirstEndingAfter(es[1..], bound)
      case None => None
      case Some(k) => Some(k + 1)
  }

  /** A left-to-right scan that stops at the first entry ending after `bound` finds what
      FirstEndingAfter names. */
  lemma ScanFindsFirst(es: seq<Entry>, bound: int, i: nat)
    requires i <= |es| && forall j :: 0 <= j < i ==> es[j].endIndex <= bound
    requires i < |es| ==> es[i].endIndex > bound
    ensures FirstEndingAfter(es, bound) == if i < |es| then Some(i) else None
  {
    var r := FirstEndingAfter(es, bound);
    if r.Some? {
      assert r.value >= i;
    }
  }

  /** The time of the character at global index idx, assuming even spacing inside the entry's block. */
  function Interpolate(e: Entry, idx: nat): real {
    e.startTime + ((idx - e.startIndex) as real) * e.charTime
  }

  /** Match on a fixed search result: no result for an empty buffer or no hit; an exception when no
      block ends after the match's first index; otherwise the hit's text and interpolated times. */
  function MatchSpec(bs: seq<Block>, hit: Option<Hit>): (r: Result<Option<Found>>)
    requires HitWithin(hit, Concat(bs))
    ensures bs == [] || hit.None? ==> r == Ok(None)
    ensures r.Ok? && r.value.Some? ==> hit.Some? && r.value.value.text == Concat(bs)[hit.value.first..hit.value.last]
  {
    if bs == [] || hit.None? then Ok(None)
    else
      var es := IndexOf(bs);
      var h := hit.value;
      match FirstEndingAfter(es, h.first)
      case None => Err(UnboundStart)
      case Some(i) =>
        var startTime := Interpolate(es[i], h.first);
        Ok(Some(Found(Concat(bs)[h.first..h.last], startTime, EndTime(es, h.last, startTime))))
  }

  /** MatchSpec on a hit in a non-empty buffer, in terms of any sequence equal to the index table. */
  lemma MatchSpecOn(bs: seq<Block>, h: Hit, es: seq<Entry>)
    requires bs != [] && HitWithin(Some(h), Concat(bs)) && es == IndexOf(bs)
    ensures FirstEndingAfter(es, h.first).None? ==> MatchSpec(bs, Some(h)) == Err(UnboundStart)
    ensures FirstEndingAfter(es, h.first).Some? ==>
              var i := FirstEndingAfter(es, h.first).value;
              MatchSpec(bs, Some(h)) == Ok(Some(Found(Concat(bs)[h.first..h.last], Interpolate(es[i], h.first),
                                                      EndTime(es, h.last, Interpolate(es[i], h.first)))))
  {
  }

  /** The match's end time: interpolated in the first block whose range reaches `last`, or one
      charTime of the last block after the start time when there is none. */
  function EndTime(es: seq<Entry>, last: nat, startTime: real): real
    requires es != []
  {
    match FirstEndingAfter(es, last - 1)
    case Some(j) => Interpolate(es[j], last)
    case None => startTime + es[|es| - 1].charTime
  }

  /** Match raises exactly on an empty match at the very end of the search string. */
  lemma MatchRaisesIffEmptyAtEnd(bs: seq<Block>, h: Hit)
    requires bs != [] && HitWithin(Some(h), Concat(bs))
    ensures MatchSpec(bs, Some(h)).Err? <==> h.first == |Concat(bs)|
  {
    var es := IndexOf(bs);
    EntriesSpan(bs);
    match FirstEndingAfter(es, h.first)
    case None =>
      assert es[|es| - 1].endIndex <= h.first;
    case Some(i) =>
      EntryHoldsBlock(bs, i);
  }

  /** Over tiling ranges, the first range ending after k < n is the one holding k. */
  lemma FirstEndingAfterHolds(es: seq<Entry>, n: nat, k: int)
    requires Tiles(es, n) && 0 <= k < n
    ensures FirstEndingAfter(es, k).Some?
    ensures var i := FirstEndingAfter(es, k).value; es[i].startIndex <= k < es[i].endIndex
  {
    assert es != [];
    assert es[|es| - 1].endIndex > k;
    var i := FirstEndingAfter(es, k).value;
    if i > 0 {
      assert es[i - 1].endIndex == es[i].startIndex;
    }
  }

  /** The first block whose range ends after index k < |Concat(bs)| is the block holding index k. */
  lemma HoldingBlock(bs: seq<Block>, k: int)
    requires bs != [] && 0 <= k < |Concat(bs)|
    ensures FirstEndingAfter(IndexOf(bs), k).Some?
    ensures var es := IndexOf(bs);
            var i := FirstEndingAfter(es, k).value;
            es[i].startIndex <= k < es[i].endIndex
            && bs[i].text[k - es[i].startIndex] == Concat(bs)[k]
  {
    var es := IndexOf(bs);
    IndexTiles(bs);
    FirstEndingAfterHolds(es, |Concat(bs)|, k);
    var i := FirstEndingAfter(es, k).value;
    EntryHoldsBlock(bs, i);
    CharOfSlice(Concat(bs), bs[i].text, es[i].startIndex, es[i].endIndex, k);
  }

  lemma CharOfSlice(c: string, t: string, lo: nat, hi: nat, k: int)
    requires lo <= k < hi <= |c| && c[lo..hi] == t
    ensures t[k - lo] == c[k]
  {
  }

  /** The start time comes from the block holding the match's first character. */
  lemma MatchStartInBlock(bs: seq<Block>, h: Hit)
    requires bs != [] && HitWithin(Some(h), Concat(bs)) && h.first < |Concat(bs)|
    ensures FirstEndingAfter(IndexOf(bs), h.first).Some?
    ensures var es := IndexOf(bs);
            var i := FirstEndingAfter(es, h.first).value;
            es[i].startIndex <= h.first < es[i].endIndex
            && bs[i].text[h.first - es[i].startIndex] == Concat(bs)[h.first]
            && MatchSpec(bs, Some(h)).Ok? && MatchSpec(bs, Some(h)).value.Some?
            && MatchSpec(bs, Some(h)).value.value.start == Interpolate(es[i], h.first)
  {
    HoldingBlock(bs, h.first);
  }

  /** The end time comes from the first block whose range reaches the match's end; such a block always
      exists, so the fallback end time is never used. */
  lemma MatchEndInBlock(bs: seq<Block>, h: Hit)
    requires bs != [] && HitWithin(Some(h), Concat(bs)) && h.first < |Concat(bs)|
    ensures FirstEndingAfter(IndexOf(bs), h.last - 1).Some?
    ensures var es := IndexOf(bs);
            var j := FirstEndingAfter(es, h.last - 1).value;
            es[j].startIndex <= h.last <= es[j].endIndex
            && (0 < h.last ==> es[j].startIndex < h.last)
            && MatchSpec(bs, Some(h)).Ok? && MatchSpec(bs, Some(h)).value.Some?
            && MatchSpec(bs, Some(h)).value.value.end == Interpolate(es[j], h.last)
  {
    var es, n := IndexOf(bs), |Concat(bs)|;
    IndexTiles(bs);
    MatchSpecOn(bs, h, es);
    FirstEndingAfterHolds(es, n, h.first);
    EndEntry(es, n, h.last);
  }

  /** Over ranges tiling [0, n) with n > 0, the first range ending at or after `last` holds `last`
      as an inner point or its end, and starts before it unless `last` is 0. */
  lemma EndEntry(es: seq<Entry>, n: nat, last: nat)
    requires Tiles(es, n) && 0 < n && last <= n
    ensures FirstEndingAfter(es, last - 1).Some?
    ensures var j := FirstEndingAfter(es, last - 1).value;
            es[j].startIndex <= last <= es[j].endIndex && (0 < last ==> es[j].startIndex < last)
  {
    if 0 < last {
      FirstEndingAfterHolds(es, n, last - 1);
    } else {
      assert FirstEndingAfter(es, last - 1) == Some(0);
    }
  }

  /** Inside an evenly timed, non-empty block that runs forward in time, interpolation is monotone,
      stays within [start, end], and gives `start` and `end` at the block's two boundaries. */
  lemma InterpolateWithinBlock(e: Entry, b: Block, k1: nat, k2: nat)
    requires Describes(e, b) && Timed(b) && |b.text| > 0 && b.start <= b.end
    requires e.startIndex <= k1 <= k2 <= e.endIndex
    ensures b.start <= Interpolate(e, k1) <= Interpolate(e, k2) <= b.end
    ensures Interpolate(e, e.startIndex) == b.start && Interpolate(e, e.endIndex) == b.end
  {
    assert e.charTime * ((e.endIndex - e.startIndex) as real) == b.end - e.startTime;
    EntrySteps(e, b.end, k1, k2);
  }

  /** Interpolation inside an entry whose equal steps run from its start time to hi. */
  lemma EntrySteps(e: Entry, hi: real, k1: nat, k2: nat)
    requires e.startIndex <= k1 <= k2 <= e.endIndex && e.startIndex < e.endIndex && e.startTime <= hi
    requires e.charTime * ((e.endIndex - e.startIndex) as real) == hi - e.startTime
    ensures e.startTime <= Interpolate(e, k1) <= Interpolate(e, k2) <= hi
    ensures Interpolate(e, e.startIndex) == e.startTime && Interpolate(e, e.endIndex) == hi
  {
    NonNegativeStep(e.charTime, (e.endIndex - e.startIndex) as real, hi - e.startTime);
    InterpolateMonotone(e, e.startIndex, k1);
    InterpolateMonotone(e, k1, k2);
    InterpolateMonotone(e, k2, e.endIndex);
    assert Interpolate(e, e.startIndex) == e.startTime + 0.0 * e.charTime;
    assert Interpolate(e, e.endIndex) == e.startTime + ((e.endIndex - e.startIndex) as real) * e.charTime;
  }

  /** With a non-negative charTime, later indices interpolate to later times. */
  lemma InterpolateMonotone(e: Entry, k1: nat, k2: nat)
    requires e.startIndex <= k1 <= k2 && 0.0 <= e.charTime
    ensures Interpolate(e, k1) <= Interpolate(e, k2)
  {
    MulMonotone((k1 - e.startIndex) as real, (k2 - e.startIndex) as real, e.charTime);
  }

  /** The buffer after Match: consumed through the end of the hit when asked to and a match was
      returned, unchanged otherwise. */
  function AfterMatch(bs: seq<Block>, hit: Option<Hit>, drop: bool): (r: seq<Block>)
    requires HitWithin(hit, Concat(bs))
    ensures !drop ==> r == bs
  {
    if drop && MatchSpec(bs, hit).Ok? && MatchSpec(bs, hit).value.Some? then Dropped(bs, hit.value.last)
    else bs
  }

  /** A consuming match leaves exactly the text after the match. */
  lemma MatchConsumes(bs: seq<Block>, hit: Option<Hit>)
    requires HitWithin(hit, Concat(bs))
    requires MatchSpec(bs, hit).Ok? && MatchSpec(bs, hit).value.Some?
    ensures Concat(AfterMatch(bs, hit, true)) == Concat(bs)[hit.value.last..]
  {
    DroppedTranscript(bs, hit.value.last);
  }
}
