/** Timestamped text blocks: one contiguous run of characters and the time interval it occupies,
    plus the few pieces of Python semantics the buffer's arithmetic relies on. */
module Blocks {

  datatype Option<T> = None | Some(value: T)

  /** The exceptions the buffer operations can raise; the Python code does not catch them. */
  datatype Error =
    | ZeroDivision   // float division by a zero charTime while trimming to a time window
    | UnboundStart   // the match start time is read before any block assigned it

  datatype Result<T> = Ok(value: T) | Err(error: Error)

  /** One block: `text` is spread over [start, end], `charTime` is the duration given to each character. */
  datatype Block = Block(text: string, start: real, end: real, charTime: real)

  function Min(a: int, b: int): int { if a <= b then a else b }

  function Last(bs: seq<Block>): Block
    requires bs != []
  {
    bs[|bs| - 1]
  }

  /** The average duration of one of `n` characters spread evenly over [start, end]. */
  function CharTime(start: real, end: real, n: nat): real
    requires n > 0
  {
    (end - start) / (n as real)
  }

  /** The timing relation every non-empty stored block keeps: its characters tile [start, end] evenly. */
  ghost predicate Timed(b: Block) {
    |b.text| > 0 ==> b.charTime * (|b.text| as real) == b.end - b.start
  }

  ghost predicate AllTimed(bs: seq<Block>) {
    forall i :: 0 <= i < |bs| ==> Timed(bs[i])
  }

  /** The logical transcript: every block's text, in block order. */
  function Concat(bs: seq<Block>): string {
    if bs == [] then [] else bs[0].text + Concat(bs[1..])
  }

  ghost predicate IsSuffix(a: string, b: string) {
    |a| <= |b| && a == b[|b| - |a|..]
  }

  lemma {:induction false} ConcatAppend(a: seq<Block>, b: seq<Block>)
    ensures Concat(a + b) == Concat(a) + Concat(b)
  {
    if a == [] {
      assert a + b == b;
    } else {
      assert (a + b)[1..] == a[1..] + b;
      ConcatAppend(a[1..], b);
    }
  }

  lemma ConcatSplit(bs: seq<Block>, i: nat)
    requires i <= |bs|
    ensures Concat(bs) == Concat(bs[..i]) + Concat(bs[i..])
  {
    assert bs == bs[..i] + bs[i..];
    ConcatAppend(bs[..i], bs[i..]);
  }

  lemma ConcatFrom(bs: seq<Block>, i: nat)
    requires i < |bs|
    ensures Concat(bs[i..]) == bs[i].text + Concat(bs[i + 1..])
  {
    assert bs[i..][1..] == bs[i + 1..];
  }

  lemma ConcatPrefixGrows(bs: seq<Block>, i: nat)
    requires i < |bs|
    ensures Concat(bs[..i + 1]) == Concat(bs[..i]) + bs[i].text
  {
    var p := bs[..i + 1];
    ConcatSplit(p, i);
    assert p[..i] == bs[..i];
    assert p[i..] == [bs[i]];
    ConcatFrom(p, i);
    assert p[i + 1..] == [];
  }

  /** Concat(bs) splits around the block at index i. */
  lemma ConcatAround(bs: seq<Block>, i: nat)
    requires i < |bs|
    ensures Concat(bs) == Concat(bs[..i]) + bs[i].text + Concat(bs[i + 1..])
  {
    ConcatSplit(bs, i);
    ConcatFrom(bs, i);
    var a, b, c := Concat(bs[..i]), bs[i].text, Concat(bs[i + 1..]);
    assert a + (b + c) == a + b + c;
  }

  /** Python's int() applied to a float: truncation toward zero. */
  function PyInt(x: real): int {
    if x >= 0.0 then x.Floor else -((-x).Floor)
  }

  /** int() rounds toward zero: down for a non-negative argument, up for a negative one. */
  lemma PyIntBounds(x: real)
    ensures 0.0 <= x ==> PyInt(x) as real <= x < PyInt(x) as real + 1.0
    ensures x < 0.0 ==> PyInt(x) as real - 1.0 < x <= PyInt(x) as real
  {
  }

  /** Python's s[k:], where a negative k counts from the end and an index past either end is clamped. */
  function PySliceFrom(s: string, k: int): (r: string)
    ensures IsSuffix(r, s)
    ensures 0 <= k ==> |r| == if k < |s| then |s| - k else 0
    ensures k < 0 ==> |r| == if -k < |s| then -k else |s|
  {
    if k >= |s| then []
    else if k >= 0 then s[k..]
    else if -k >= |s| then s
    else s[|s| + k..]
  }
}
