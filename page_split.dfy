/** What DoSplitPdf computes, stated on the page list of the document being split.
    Pages start..end (1-based, inclusive) are taken out in order; the rest stay in order.
    The range is not checked up front: an index outside the document makes `Pages[i]`
    throw inside the loop, and a range that leaves either half without pages (a start
    after the end, or the whole document) makes the library's `Save` of that half throw,
    since a PDF document with no pages cannot be saved. */
module PageSplit {

  /** The loop over i = start-1 .. end-1 reaches an index outside 0..count-1. */
  predicate RangeFails(count: int, start: int, end: int)
  {
    start <= end && !(1 <= start && end <= count)
  }

  /** The loop runs to the end and both halves have pages, so both saves go through. */
  predicate SplitSucceeds(count: int, start: int, end: int)
  {
    1 <= start <= end <= count && end - start + 1 < count
  }

  /** The pages that stay behind in the modified document. */
  function Remainder<T>(orig: seq<T>, start: int, end: int): seq<T>
    requires !RangeFails(|orig|, start, end)
  {
    if start > end then orig else orig[..start - 1] + orig[end..]
  }

  /** The pages moved into the new document. */
  function Extracted<T>(orig: seq<T>, start: int, end: int): seq<T>
    requires !RangeFails(|orig|, start, end)
  {
    if start > end then [] else orig[start - 1..end]
  }

  /** `RemoveAt(index)` on a page list. */
  function RemoveAt<T>(pages: seq<T>, index: nat): (rest: seq<T>)
    requires index < |pages|
    ensures |rest| == |pages| - 1
  {
    pages[..index] + pages[index + 1..]
  }

  /** Removing `count` times at the same index, as the loop does once `i - pagesRemoved`
      is seen to stay at start-1. */
  function RemoveRepeatedly<T>(pages: seq<T>, index: nat, count: nat): seq<T>
    requires index + count <= |pages|
    decreases count
  {
    if count == 0 then pages else RemoveRepeatedly(RemoveAt(pages, index), index, count - 1)
  }

  /** Removing end-start+1 times at index start-1 leaves exactly the remainder. */
  lemma {:induction false} RemoveRepeatedlyIsRemainder<T>(orig: seq<T>, index: nat, count: nat)
    requires index + count <= |orig|
    ensures RemoveRepeatedly(orig, index, count) == orig[..index] + orig[index + count..]
    decreases count
  {
    if count > 0 {
      var once := RemoveAt(orig, index);
      RemoveRepeatedlyIsRemainder(once, index, count - 1);
      assert once[..index] == orig[..index];
      assert once[index + count - 1..] == orig[index + count..];
    }
  }

  /** One step of the page-moving loop: with pages index..i-1 already moved out of `rest`
      into `moved`, removing at index takes out page i, and the moved run grows by it. */
  lemma MoveStep<T>(orig: seq<T>, index: nat, i: nat, rest: seq<T>, moved: seq<T>)
    requires index <= i < |orig|
    requires i == index ==> rest == orig && moved == []
    requires i > index ==> rest == orig[..index] + orig[i..] && moved == orig[index..i]
    ensures index < |rest|
    ensures RemoveAt(rest, index) == orig[..index] + orig[i + 1..]
    ensures RemoveAt(rest, index) == RemoveRepeatedly(orig, index, i + 1 - index)
    ensures moved + [orig[i]] == orig[index..i + 1]
  {
    assert rest == orig[..index] + orig[i..];
    assert rest[..index] == orig[..index];
    assert rest[index + 1..] == orig[i + 1..];
    RemoveRepeatedlyIsRemainder(orig, index, i + 1 - index);
  }

  /** Sizes of the two halves of a valid split. */
  lemma SplitSizes<T>(orig: seq<T>, start: int, end: int)
    requires 1 <= start <= end <= |orig|
    ensures |Remainder(orig, start, end)| == |orig| - (end - start + 1)
    ensures |Extracted(orig, start, end)| == end - start + 1
  {
  }

  /** The extracted pages are the requested ones in original order, and the remainder keeps
      the pages before the range and after it, renumbered to close the gap. */
  lemma SplitOrder<T>(orig: seq<T>, start: int, end: int)
    requires 1 <= start <= end <= |orig|
    ensures forall k :: 0 <= k < end - start + 1 ==> Extracted(orig, start, end)[k] == orig[start - 1 + k]
    ensures forall k :: 0 <= k < |orig| - (end - start + 1) ==>
              Remainder(orig, start, end)[k] == if k < start - 1 then orig[k] else orig[k + (end - start + 1)]
  {
    var rem := Remainder(orig, start, end);
    forall k | 0 <= k < |orig| - (end - start + 1)
      ensures rem[k] == if k < start - 1 then orig[k] else orig[k + (end - start + 1)]
    {
      if k >= start - 1 {
        assert rem[k] == orig[end..][k - (start - 1)];
      }
    }
  }

  /** Splicing the extracted pages back into the remainder at index start-1 gives back
      the original document. */
  lemma SplitRoundTrip<T>(orig: seq<T>, start: int, end: int)
    requires 1 <= start <= end <= |orig|
    ensures var rem := Remainder(orig, start, end);
            rem[..start - 1] + Extracted(orig, start, end) + rem[start - 1..] == orig
  {
    var rem := Remainder(orig, start, end);
    assert rem[..start - 1] == orig[..start - 1];
    assert rem[start - 1..] == orig[end..];
    assert orig[..start - 1] + orig[start - 1..end] + orig[end..] == orig;
  }

  /** A split succeeds exactly when the loop stays inside the document and leaves pages in
      both the remainder and the extracted document. */
  lemma SplitSucceedsIffBothHalvesHavePages<T>(orig: seq<T>, start: int, end: int)
    ensures SplitSucceeds(|orig|, start, end) <==>
              !RangeFails(|orig|, start, end) &&
              |Remainder(orig, start, end)| > 0 && |Extracted(orig, start, end)| > 0
  {
    if !RangeFails(|orig|, start, end) && start <= end {
      SplitSizes(orig, start, end);
    }
  }

  /** split(2, 3) on a five-page document keeps pages 1, 4, 5 and extracts 2, 3. A start
      after the end passes the loop with nothing extracted, so saving the empty new
      document throws; so does saving the empty remainder of split(1, 5). A start of 0
      makes the loop read index -1, which throws. */
  lemma SplitExamples<T>(p1: T, p2: T, p3: T, p4: T, p5: T)
    ensures Remainder([p1, p2, p3, p4, p5], 2, 3) == [p1, p4, p5]
    ensures Extracted([p1, p2, p3, p4, p5], 2, 3) == [p2, p3]
    ensures Remainder([p1, p2, p3, p4, p5], 4, 2) == [p1, p2, p3, p4, p5]
    ensures Extracted([p1, p2, p3, p4, p5], 4, 2) == []
    ensures RangeFails(5, 0, 1) && RangeFails(5, 4, 6)
    ensures SplitSucceeds(5, 2, 3) && !SplitSucceeds(5, 4, 2) && !SplitSucceeds(5, 1, 5)
  {
    var orig := [p1, p2, p3, p4, p5];
    assert orig[..1] == [p1];
    assert orig[3..] == [p4, p5];
    assert orig[1..3] == [p2, p3];
  }
}
