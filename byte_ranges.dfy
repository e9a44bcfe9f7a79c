/**
 * What gets signed: the stream minus the Contents placeholder, as the two
 * ranges `GetRangeToSign` hands to a ranged stream, and the ByteRange
 * descriptor `[0, cStart, cEnd, len - cEnd]` that records the same ranges in
 * the file (the ByteRange and Contents entries of a signature dictionary,
 * section 12.8.1 of ISO 32000-1).
 */
module ByteRanges {
  import opened Streams

  /** A range of a ranged stream: a window given by its offset and its length. */
  datatype Range = Range(offset: int, length: int)

  predicate InBounds(r: Range, len: int) {
    0 <= r.offset && 0 <= r.length && r.offset + r.length <= len
  }

  predicate InRange(i: int, r: Range) {
    r.offset <= i < r.offset + r.length
  }

  /** Every range lies inside a stream of length `len`. */
  predicate AllInBounds(ranges: seq<Range>, len: int) {
    forall k :: 0 <= k < |ranges| ==> InBounds(ranges[k], len)
  }

  /**
   * GetRangeToSign: everything before the placeholder, then everything after
   * it. For a placeholder inside the stream both ranges are in bounds, and an
   * offset is covered by one of them exactly when it is outside `[cStart, cEnd)`.
   */
  function RangeToSign(cStart: int, cEnd: int, len: int): (r: seq<Range>)
    ensures |r| == 2
    ensures 0 <= cStart <= cEnd <= len ==>
      && AllInBounds(r, len)
      && forall i :: 0 <= i < len ==> ((InRange(i, r[0]) || InRange(i, r[1])) <==> !(cStart <= i < cEnd))
  {
    [Range(0, cStart), Range(cEnd, len - cEnd)]
  }

  function TotalLength(ranges: seq<Range>): int {
    if |ranges| == 0 then 0 else ranges[0].length + TotalLength(ranges[1..])
  }

  /** The bytes of one range. */
  function Window(s: seq<byte>, r: Range): (w: seq<byte>)
    requires InBounds(r, |s|)
    ensures |w| == r.length
  {
    s[r.offset..r.offset + r.length]
  }

  /** A ranged stream read to the end: the windows of `s`, one after the other. */
  function RangedView(s: seq<byte>, ranges: seq<Range>): (r: seq<byte>)
    requires AllInBounds(ranges, |s|)
    ensures |r| == TotalLength(ranges)
  {
    if |ranges| == 0 then [] else Window(s, ranges[0]) + RangedView(s, ranges[1..])
  }

  /** The reference meaning of the signed bytes: the stream with `[cStart, cEnd)` cut out. */
  function SignedView(s: seq<byte>, cStart: nat, cEnd: nat): seq<byte>
    requires cStart <= cEnd <= |s|
  {
    s[..cStart] + s[cEnd..]
  }

  /** Where the `j`-th signed byte sits in the stream. */
  function StreamIndex(j: nat, cStart: nat, cEnd: nat): nat
    requires cStart <= cEnd
  {
    if j < cStart then j else j + (cEnd - cStart)
  }

  /** Where the stream byte at `i`, outside the placeholder, sits among the signed bytes. */
  function ViewIndex(i: nat, cStart: nat, cEnd: nat): int
    requires cStart <= cEnd
  {
    if i < cStart then i else i - (cEnd - cStart)
  }

  /** A ranged stream over two ranges reads the first window, then the second. */
  lemma RangedViewOfTwo(s: seq<byte>, ranges: seq<Range>)
    requires |ranges| == 2 && InBounds(ranges[0], |s|) && InBounds(ranges[1], |s|)
    ensures AllInBounds(ranges, |s|)
    ensures RangedView(s, ranges) == Window(s, ranges[0]) + Window(s, ranges[1])
  {
    var rest := ranges[1..];
    assert |rest[1..]| == 0;
    assert RangedView(s, rest) == Window(s, rest[0]) + [];
  }

  /** The windows of GetRangeToSign are the bytes before and after the placeholder. */
  lemma WindowsOfRangeToSign(s: seq<byte>, cStart: nat, cEnd: nat)
    requires cStart <= cEnd <= |s|
    ensures Window(s, Range(0, cStart)) == s[..cStart]
    ensures Window(s, Range(cEnd, |s| - cEnd)) == s[cEnd..]
  {
  }

  /** The two ranges of GetRangeToSign read exactly the stream with the placeholder cut out. */
  lemma RangeToSignView(s: seq<byte>, cStart: nat, cEnd: nat)
    requires cStart <= cEnd <= |s|
    ensures AllInBounds(RangeToSign(cStart, cEnd, |s|), |s|)
    ensures RangedView(s, RangeToSign(cStart, cEnd, |s|)) == SignedView(s, cStart, cEnd)
  {
    var rs := RangeToSign(cStart, cEnd, |s|);
    assert rs[0] == Range(0, cStart) && rs[1] == Range(cEnd, |s| - cEnd);
    RangedViewOfTwo(s, rs);
    WindowsOfRangeToSign(s, cStart, cEnd);
  }

  /**
   * The signed bytes exclude exactly the placeholder: the `j`-th of them is the
   * stream byte at StreamIndex, which is never in `[cStart, cEnd)`, and every
   * stream byte outside `[cStart, cEnd)` is one of them.
   */
  lemma SignedViewExcludesPlaceholder(s: seq<byte>, cStart: nat, cEnd: nat)
    requires cStart <= cEnd <= |s|
    ensures |SignedView(s, cStart, cEnd)| == |s| - (cEnd - cStart)
    ensures forall j :: 0 <= j < |s| - (cEnd - cStart) ==>
      var i := StreamIndex(j, cStart, cEnd);
      i < |s| && !(cStart <= i < cEnd) && SignedView(s, cStart, cEnd)[j] == s[i]
    ensures forall i :: 0 <= i < |s| && !(cStart <= i < cEnd) ==>
      var j := ViewIndex(i, cStart, cEnd);
      0 <= j < |s| - (cEnd - cStart) && StreamIndex(j, cStart, cEnd) == i
  {
  }

  /** A write that stays inside the placeholder leaves the signed bytes as they were. */
  lemma PatchInsidePlaceholder(s: seq<byte>, cStart: nat, cEnd: nat, at: nat, data: seq<byte>)
    requires cStart <= at && at + |data| <= cEnd <= |s|
    ensures SignedView(Overwrite(s, at, data), cStart, cEnd) == SignedView(s, cStart, cEnd)
  {
    var t := Overwrite(s, at, data);
    assert t[..cStart] == s[..cStart];
    assert t[cEnd..] == s[cEnd..];
  }

  /** The ByteRange array written over its placeholder, before the `(int)` casts matter. */
  function Descriptor(cStart: int, cEnd: int, len: int): (d: seq<int>)
    ensures |d| == 4
  {
    [0, cStart, cEnd, len - cEnd]
  }

  /** A ByteRange array read as the (offset, length) pairs it lists. */
  function DescribedRanges(d: seq<int>): seq<Range>
    requires |d| == 4
  {
    [Range(d[0], d[1]), Range(d[2], d[3])]
  }

  /**
   * The descriptor written into the file names exactly the ranges that are
   * signed, and with the placeholder they partition the file: every offset
   * lies in exactly one of the first span, the placeholder and the second span,
   * and their lengths add up to the file length.
   */
  lemma DescriptorPartitionsFile(cStart: nat, cEnd: nat, len: nat)
    requires cStart <= cEnd <= len
    ensures DescribedRanges(Descriptor(cStart, cEnd, len)) == RangeToSign(cStart, cEnd, len)
    ensures var d := Descriptor(cStart, cEnd, len);
      d[1] + (d[2] - d[1]) + d[3] == len && d[2] + d[3] == len
    ensures forall i :: 0 <= i < len ==>
      (var rs := RangeToSign(cStart, cEnd, len);
       (InRange(i, rs[0]) || cStart <= i < cEnd || InRange(i, rs[1])) &&
       !(InRange(i, rs[0]) && cStart <= i < cEnd) &&
       !(InRange(i, rs[1]) && cStart <= i < cEnd) &&
       !(InRange(i, rs[0]) && InRange(i, rs[1])))
    ensures forall i :: 0 <= i < len ==>
      ((InRange(i, RangeToSign(cStart, cEnd, len)[0]) || InRange(i, RangeToSign(cStart, cEnd, len)[1]))
       <==> !(cStart <= i < cEnd))
  {
  }
}
