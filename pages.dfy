/** Pages as opaque values. Nothing here parses or renders a document: a page of an input
    document is its content bytes plus its Rotate attribute, and an output page remembers
    what was drawn on it and the caption overlaid at its bottom, if any. */
module Pages {
  import opened Options

  type Bytes = seq<bv8>

  /** A page of an input document as the import handle exposes it. */
  datatype SourcePage = SourcePage(content: Bytes, rotate: int)

  /** The height an image is drawn with: the caller's height, or the page height less
      the two 25-unit margins. */
  datatype DrawHeight = Requested(height: int) | FitPage

  /** A page of an output document. An image page is a fresh blank page with one image
      drawn on it; an imported page is a copy of an input page. */
  datatype Page =
    | ImagePage(image: Bytes, height: DrawHeight, caption: Option<string>)
    | ImportedPage(source: SourcePage, caption: Option<string>)

  function DigitChar(d: nat): (c: char)
    requires d < 10
    ensures '0' <= c <= '9'
  {
    (('0' as int) + d) as char
  }

  predicate IsDigits(s: string)
  {
    forall k :: 0 <= k < |s| ==> '0' <= s[k] <= '9'
  }

  /** Decimal notation of a non-negative integer, as `int.ToString()` writes it. */
  function DecimalDigits(n: nat): (s: string)
    ensures 1 <= |s| && IsDigits(s)
    ensures n >= 10 ==> s[0] != '0'
    decreases n
  {
    if n < 10 then [DigitChar(n)] else DecimalDigits(n / 10) + [DigitChar(n % 10)]
  }

  /** The number a string of decimal digits denotes (reference reading of DecimalDigits). */
  function DecimalValue(s: string): nat
    requires IsDigits(s)
    decreases |s|
  {
    if s == [] then 0 else DecimalValue(s[..|s| - 1]) * 10 + ((s[|s| - 1] as int) - ('0' as int))
  }

  /** Reading back the digits written for n gives n. */
  lemma {:induction false} DecimalRoundTrip(n: nat)
    ensures DecimalValue(DecimalDigits(n)) == n
    decreases n
  {
    if n >= 10 {
      var s := DecimalDigits(n);
      assert s[..|s| - 1] == DecimalDigits(n / 10);
      DecimalRoundTrip(n / 10);
    }
  }

  /** The caption drawn on the k-th output page: "Page " followed by k. */
  function Label(k: nat): string
  {
    "Page " + DecimalDigits(k)
  }

  /** Two pages get the same caption only when they have the same number. */
  lemma LabelInjective(j: nat, k: nat)
    requires Label(j) == Label(k)
    ensures j == k
  {
    assert DecimalDigits(j) == Label(j)[5..];
    assert DecimalDigits(k) == Label(k)[5..];
    DecimalRoundTrip(j);
    DecimalRoundTrip(k);
  }

  /** The page after the "Page k" overlay, when page numbers are on. */
  function Captioned(p: Page, k: nat, show: bool): Page
  {
    if show then p.(caption := Some(Label(k))) else p
  }
}
