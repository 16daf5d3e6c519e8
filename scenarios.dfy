/** Worked cases of the buffer's boundary behaviour, on concrete blocks. */
module Scenarios {
  import opened Blocks
  import opened Patterns
  import opened BlockLaws
  import opened BlockBuffer

  /** A fragment that starts exactly half a character after the last block ends is joined onto it. */
  lemma MergeAtHalfCharGap()
    ensures Added([Block("AT", 0.0, 0.2, 0.1)], "+OK", 0.25, 0.55) == [Block("AT+OK", 0.0, 0.55, 0.11)]
  {
    assert Merges([Block("AT", 0.0, 0.2, 0.1)], "+OK", 0.25, 0.55);
    assert "AT" + "+OK" == "AT+OK";
  }

  /** A slightly wider gap starts a new block. */
  lemma AppendBeyondHalfCharGap()
    ensures Added([Block("AT", 0.0, 0.2, 0.1)], "+OK", 0.26, 0.56)
         == [Block("AT", 0.0, 0.2, 0.1), Block("+OK", 0.26, 0.56, 0.1)]
  {
  }

  /** Drop(3) deletes the first block whole and three characters in all: the character at index 3 stays. */
  lemma DropKeepsIndexedChar()
    ensures Dropped([Block("AB", 0.0, 2.0, 1.0), Block("CD", 2.0, 4.0, 1.0)], 3) == [Block("D", 3.0, 4.0, 1.0)]
  {
  }

  /** A zero-length window cuts exactly at the last block's end and empties that block, moving its start
      one character past its end. */
  lemma WindowAtEndEmptiesBlock()
    ensures DroppedBefore([Block("AB", 0.0, 2.0, 1.0)], 0.0) == Trimmed([Block("", 3.0, 2.0, 1.0)], None)
  {
    assert DelCount(Block("AB", 0.0, 2.0, 1.0), 2.0) == 3;
  }

  /** A block of zero duration straddling the cutoff makes DropBefore divide by zero. */
  lemma ZeroDurationRaises()
    ensures DroppedBefore([Block("A", 1.0, 1.0, 0.0)], 0.0).raised == Some(ZeroDivision)
  {
  }

  /** An empty match at the end of the transcript has no start block. */
  lemma EmptyMatchAtEndRaises()
    ensures MatchSpec([Block("AB", 0.0, 2.0, 1.0)], Some(Hit(2, 2))) == Err(UnboundStart)
  {
  }

  /** Matching "OK" in one block holding "AT+OK\r\n" over [0, 0.7]: the match spans characters 3 and 4,
      so it runs from 0.3 to 0.5, and consuming it leaves "\r\n". */
  lemma MatchOkTimes()
    ensures var bs := [Block("AT+OK\r\n", 0.0, 0.7, 0.1)];
            Concat(bs) == "AT+OK\r\n"
            && LiteralFinder("OK")(Concat(bs)) == Some(Hit(3, 5))
            && MatchSpec(bs, Some(Hit(3, 5))) == Ok(Some(Found("OK", 0.3, 0.5)))
            && Concat(AfterMatch(bs, Some(Hit(3, 5)), true)) == "\r\n"
  {
    var s := "AT+OK\r\n";
    var bs := [Block(s, 0.0, 0.7, 0.1)];
    assert Concat(bs) == s by {
      assert Concat(bs[1..]) == [];
    }
    assert s[3..5] == "OK";
    assert s[0..2][0] == 'A' && s[1..3][0] == 'T' && s[2..4][0] == '+';
    assert FindFrom("OK", s, 0) == Some(Hit(3, 5));
    assert bs[..0] == [];
    assert IndexOf(bs) == [Entry(0, 7, 0.0, 0.1)];
    MatchConsumes(bs, Some(Hit(3, 5)));
  }

  lemma NoOkInLineEnd()
    ensures LiteralFinder("OK")("\r\n") == None
  {
    var rest := "\r\n";
    assert rest[0..2][0] == '\r';
  }

  /** The same case, stated on a buffer object; a second, non-consuming match finds nothing. */
  method MatchOkAndConsume() {
    var s := "AT+OK\r\n";
    LiteralFinderIsOracle("OK");
    MatchOkTimes();
    NoOkInLineEnd();
    var buf := new StrBlockBuffer(LiteralFinder("OK"));
    buf.AddBlock(s, 0.0, 0.7);
    assert buf.blocks == [Block(s, 0.0, 0.7, 0.1)];
    var r := buf.Match(true);
    assert r == Ok(Some(Found("OK", 0.3, 0.5)));
    assert Concat(buf.blocks) == "\r\n";
    r := buf.Match(false);
    assert r == Ok(None);
  }
}
