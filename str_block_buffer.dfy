/** StrBlockBuffer: a queue of timestamped text blocks that grows at the back, is trimmed at the front,
    and is searched as one concatenated string. Each method updates `blocks` exactly as the matching
    function of BlockLaws says, and keeps every non-empty block evenly timed. */
module BlockBuffer {
  import opened Blocks
  import opened Patterns
  import opened BlockLaws

  /** Builds Match's search string and its per-block index table by accumulation, block by block. */
  method Concatenate(bs: seq<Block>) returns (searchStr: string, starts: seq<Entry>)
    ensures searchStr == Concat(bs)
    ensures starts == IndexOf(bs)
  {
    searchStr, starts := [], [];
    for i := 0 to |bs|
      invariant searchStr == Concat(bs[..i])
      invariant starts == IndexOf(bs)[..i]
    {
      var block := bs[i];
      var startIndex := |searchStr|;
      var endIndex := |searchStr| + |block.text|;
      ConcatPrefixGrows(bs, i);
      searchStr := searchStr + block.text;
      starts := starts + [Entry(startIndex, endIndex, block.start, block.charTime)];
    }
    assert bs[..|bs|] == bs;
  }

  /** Match's scan over the index table: the position of the first entry whose range ends after
      `bound`, or |starts| when there is none. */
  method ScanEndingAfter(starts: seq<Entry>, bound: int) returns (i: nat)
    ensures i <= |starts|
    ensures FirstEndingAfter(starts, bound) == if i < |starts| then Some(i) else None
  {
    i := 0;
    while i < |starts| && starts[i].endIndex <= bound
      invariant i <= |starts|
      invariant forall j :: 0 <= j < i ==> starts[j].endIndex <= bound
    {
      i := i + 1;
    }
    ScanFindsFirst(starts, bound, i);
  }

  class StrBlockBuffer {
    var blocks: seq<Block>
    /** The compiled search pattern: the first match of the pattern in a string, if any. */
    var pattern: Finder

    ghost predicate Valid()
      reads this
    {
      IsOracle(pattern) && AllTimed(blocks)
    }

    constructor (matchStr: Finder)
      requires IsOracle(matchStr)
      ensures Valid() && blocks == [] && pattern == matchStr
    {
      blocks := [];
      pattern := matchStr;
    }

    method SetMatch(matchStr: Finder)
      requires Valid() && IsOracle(matchStr)
      modifies this
      ensures Valid() && pattern == matchStr && blocks == old(blocks)
    {
      pattern := matchStr;
    }

    /** Appends a fragment, joining it onto the last block when the gap is at most half a character. */
    method AddBlock(text: string, startTime: real, endTime: real)
      requires Valid()
      modifies this
      ensures Valid() && pattern == old(pattern)
      ensures blocks == Added(old(blocks), text, startTime, endTime)
      ensures Concat(blocks) == old(Concat(blocks)) + text
    {
      AddedTranscript(blocks, text, startTime, endTime);
      AddedKeepsTimed(blocks, text, startTime, endTime);
      if |text| == 0 {
        return;
      }
      var charTime := CharTime(startTime, endTime, |text|);
      if |blocks| > 0 {
        var lastBlock := blocks[|blocks| - 1];
        var prevEnd := lastBlock.end;
        if prevEnd + charTime / 2.0 >= startTime {
          var joined := lastBlock.text + text;
          lastBlock := lastBlock.(text := joined, end := endTime,
                                  charTime := CharTime(lastBlock.start, endTime, |joined|));
          blocks := blocks[|blocks| - 1 := lastBlock];
          return;
        }
      }
      blocks := blocks + [Block(text, startTime, endTime, charTime)];
    }

    /** Removes the first lastIndex characters of the transcript (the character at lastIndex stays). */
    method Drop(lastIndex: int)
      requires Valid()
      modifies this
      ensures Valid() && pattern == old(pattern)
      ensures blocks == Dropped(old(blocks), lastIndex)
    {
      DroppedKeepsTimed(blocks, lastIndex);
      if |blocks| == 0 {
        return;
      }
      // global index of the current block's first character, as the blocks were on entry
      var blockStartIndex := 0;
      while |blocks| > 0
        invariant DropFrom(blocks, lastIndex, blockStartIndex) == Dropped(old(blocks), lastIndex)
        invariant pattern == old(pattern)
        decreases |blocks|
      {
        var block := blocks[0];
        var strLen := |block.text|;
        if blockStartIndex > lastIndex {
          assert DropFrom(blocks, lastIndex, blockStartIndex) == blocks;
          return;
        }
        if strLen + blockStartIndex <= lastIndex || strLen == 0 {
          assert DropFrom(blocks, lastIndex, blockStartIndex)
              == DropFrom(blocks[1..], lastIndex, blockStartIndex + strLen);
          blockStartIndex := blockStartIndex + |block.text|;
          blocks := blocks[1..];
          continue;
        }
        var delChars := lastIndex - blockStartIndex;
        ghost var expected := blocks[0 := TrimFront(block, delChars)];
        assert DropFrom(blocks, lastIndex, blockStartIndex) == expected;
        var trimmed := block.(start := block.start + block.charTime * (delChars as real),
                              text := block.text[lastIndex - blockStartIndex..]);
        assert trimmed == TrimFront(block, delChars);
        blocks := blocks[0 := trimmed];
        assert blocks == expected;
        return;
      }
    }

    /** Trims to the window of length timeDelta that ends where the last block ends. Returns the
        exception raised when the straddling block has a zero charTime. */
    method DropBefore(timeDelta: real) returns (raised: Option<Error>)
      requires Valid()
      modifies this
      ensures Valid() && pattern == old(pattern)
      ensures Trimmed(blocks, raised) == DroppedBefore(old(blocks), timeDelta)
    {
      if |blocks| == 0 {
        return None;
      }
      var cutOffTime := blocks[|blocks| - 1].end - timeDelta;
      CutBeforeKeepsTimed(blocks, cutOffTime);
      while |blocks| > 0
        invariant CutBefore(blocks, cutOffTime) == CutBefore(old(blocks), cutOffTime)
        invariant pattern == old(pattern)
        decreases |blocks|
      {
        var block := blocks[0];
        if block.start > cutOffTime {
          return None;
        }
        if block.end < cutOffTime {
          blocks := blocks[1..];
          continue;
        }
        if block.charTime == 0.0 {
          return Some(ZeroDivision);
        }
        // delete the characters up to the cutoff and move the start past them
        var delCount := DelCount(block, cutOffTime);
        blocks := blocks[0 := Advance(block, delCount)];
        return None;
      }
      return None;
    }

    /** Searches the concatenated text for the pattern and maps the hit back to times; with `drop`,
        a successful match consumes the text up to its end. */
    method Match(drop: bool) returns (r: Result<Option<Found>>)
      requires Valid()
      modifies this
      ensures Valid() && pattern == old(pattern)
      ensures HitWithin(pattern(Concat(old(blocks))), Concat(old(blocks)))
      ensures r == MatchSpec(old(blocks), pattern(Concat(old(blocks))))
      ensures blocks == AfterMatch(old(blocks), pattern(Concat(old(blocks))), drop)
    {
      if |blocks| == 0 {
        return Ok(None);
      }
      var searchStr, starts := Concatenate(blocks);
      var hit := pattern(searchStr);
      if hit.None? {
        return Ok(None);
      }
      var firstIdx, lastIdx := hit.value.first, hit.value.last;
      MatchSpecOn(blocks, hit.value, starts);

      // the first block whose range ends after firstIdx
      var i := ScanEndingAfter(starts, firstIdx);
      if i == |starts| {
        // no block assigned the start time
        return Err(UnboundStart);
      }
      var startEpoch := Interpolate(starts[i], firstIdx);

      var endEpoch := startEpoch + starts[|starts| - 1].charTime;
      // the first block whose range reaches lastIdx
      var k := ScanEndingAfter(starts, lastIdx as int - 1);
      if k < |starts| {
        endEpoch := Interpolate(starts[k], lastIdx);
      }

      r := Ok(Some(Found(searchStr[firstIdx..lastIdx], startEpoch, endEpoch)));
      if drop {
        Drop(lastIdx);
      }
    }
  }
}
