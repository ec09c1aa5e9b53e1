/** The `Range` header of the file-sharing server (`parse_range` in src/file_sharing.rs)
    and the partial-content reply built from it (byte ranges as in section 2.1 of
    RFC 7233, the `Content-Range` field of its section 4.2).

    `ParseRange` is the code as written. Its suffix form `bytes=-L` reuses `L` as the
    end bound, and for an empty file it computes `file_size - 1` on a 64-bit unsigned
    value; that underflow panics in a debug build and is the outcome `SizeUnderflow`.
    `ParseRangeFixed` is the intended reading of section 2.1. The partial-content reply
    calls the parser as written; the reply lemmas are stated for both. */
module Range {
  import opened Wrappers
  import opened Strings

  datatype RangeOutcome = InRange(start: nat, end: nat) | NoRange | SizeUnderflow

  const Prefix := "bytes="

  function Min(a: nat, b: nat): nat
  {
    if a <= b then a else b
  }

  /** The final test of `parse_range`. */
  function Check(start: nat, end: nat, fileSize: nat): (r: RangeOutcome)
    ensures r.InRange? ==> r.start <= r.end && r.start < fileSize
  {
    if start <= end && start < fileSize then InRange(start, end) else NoRange
  }

  /** `parse_range`, as written. */
  function ParseRange(header: string, fileSize: nat): (r: RangeOutcome)
    requires fileSize <= U64_MAX
    ensures r.InRange? ==> r.start <= r.end < fileSize
    ensures r.SizeUnderflow? ==> fileSize == 0
    ensures r != NoRange ==> StartsWith(header, Prefix) && |Split(header[|Prefix|..], '-')| == 2
  {
    if !StartsWith(header, Prefix) then NoRange
    else
      var parts := Split(header[|Prefix|..], '-');
      if |parts| != 2 then NoRange
      else
        var start: Option<nat> :=
          if parts[0] == [] then
            match ParseU64(parts[1])
            case None => None
            case Some(suffix) => Some(if suffix >= fileSize then 0 else fileSize - suffix)
          else ParseU64(parts[0]);
        match start
        case None => NoRange
        case Some(s) =>
          if parts[1] == [] then
            if fileSize == 0 then SizeUnderflow else Check(s, fileSize - 1, fileSize)
          else
            match ParseU64(parts[1])
            case None => NoRange
            case Some(e) => if fileSize == 0 then SizeUnderflow else Check(s, Min(e, fileSize - 1), fileSize)
  }

  /** Section 2.1 of RFC 7233 for a single range: `first-` is the rest of the file,
      `first-last` is clamped to the file, and the suffix `-L` selects the last `L`
      bytes (the whole file when it is shorter). An empty file has no satisfiable range. */
  function ParseRangeFixed(header: string, fileSize: nat): (r: RangeOutcome)
    requires fileSize <= U64_MAX
    ensures r.InRange? ==> r.start <= r.end < fileSize
    ensures !r.SizeUnderflow?
  {
    if !StartsWith(header, Prefix) || fileSize == 0 then NoRange
    else
      var parts := Split(header[|Prefix|..], '-');
      if |parts| != 2 then NoRange
      else if parts[0] == [] then
        match ParseU64(parts[1])
        case None => NoRange
        case Some(suffix) =>
          if suffix == 0 then NoRange else InRange(fileSize - Min(suffix, fileSize), fileSize - 1)
      else
        match ParseU64(parts[0])
        case None => NoRange
        case Some(s) =>
          if parts[1] == [] then Check(s, fileSize - 1, fileSize)
          else
            match ParseU64(parts[1])
            case None => NoRange
            case Some(e) => Check(s, Min(e, fileSize - 1), fileSize)
  }

  // ---------------------------------------------------------------- headers as text

  lemma DigitsExclude(s: string, c: char)
    requires AllDigits(s) && !IsDigit(c)
    ensures c !in s
  {
    forall i | 0 <= i < |s| ensures s[i] != c {
      assert IsDigit(s[i]);
    }
  }

  /** Splitting `a` `c` `b` at `c`, when neither side has one, gives back the two sides. */
  lemma SplitAt(a: string, c: char, b: string)
    requires c !in a && c !in b
    ensures Split(a + [c] + b, c) == [a, b]
  {
    var s := a + [c] + b;
    assert s[|a|] == c;
    assert forall j :: 0 <= j < |a| ==> s[j] == a[j];
    var k := FirstIndex(s, c);
    assert k == |a|;
    assert s[..k] == a;
    assert s[k + 1..] == b;
  }

  function Header(first: string, last: string): string
  {
    Prefix + first + "-" + last
  }

  lemma HeaderParts(first: string, last: string)
    requires '-' !in first && '-' !in last
    ensures StartsWith(Header(first, last), Prefix)
    ensures Split(Header(first, last)[|Prefix|..], '-') == [first, last]
  {
    assert Header(first, last)[|Prefix|..] == first + "-" + last;
    SplitAt(first, '-', last);
  }

  /** `bytes=N-` is the rest of the file from `N`, when `N` is inside it. */
  lemma OpenEndedForm(n: nat, fileSize: nat)
    requires n <= U64_MAX && fileSize <= U64_MAX
    ensures ParseRange(Header(NatToString(n), ""), fileSize)
         == if fileSize == 0 then SizeUnderflow
            else if n < fileSize then InRange(n, fileSize - 1) else NoRange
  {
    DigitsExclude(NatToString(n), '-');
    HeaderParts(NatToString(n), "");
    ParseNatToString(n);
  }

  /** `bytes=N-M` is `N` to `M` with the end clamped to the file, provided the start
      does not pass the clamped end. */
  lemma ClosedForm(n: nat, m: nat, fileSize: nat)
    requires n <= U64_MAX && m <= U64_MAX && fileSize <= U64_MAX
    ensures ParseRange(Header(NatToString(n), NatToString(m)), fileSize)
         == if fileSize == 0 then SizeUnderflow
            else if n <= Min(m, fileSize - 1) then InRange(n, Min(m, fileSize - 1)) else NoRange
  {
    DigitsExclude(NatToString(n), '-');
    DigitsExclude(NatToString(m), '-');
    HeaderParts(NatToString(n), NatToString(m));
    ParseNatToString(n);
    ParseNatToString(m);
  }

  /** `bytes=-L` as written: the start is `size - L` (or 0 when `L` covers the file),
      but the end is `min(L, size - 1)`. */
  lemma SuffixForm(l: nat, fileSize: nat)
    requires l <= U64_MAX && fileSize <= U64_MAX
    ensures var start := if l >= fileSize then 0 else fileSize - l;
      ParseRange(Header("", NatToString(l)), fileSize)
      == if fileSize == 0 then SizeUnderflow
         else if start <= Min(l, fileSize - 1) then InRange(start, Min(l, fileSize - 1)) else NoRange
  {
    DigitsExclude(NatToString(l), '-');
    HeaderParts("", NatToString(l));
    ParseNatToString(l);
  }

  /** A side that is present but not a number, or two empty sides (`bytes=-`), gives no
      range. */
  lemma NonNumericForm(first: string, last: string, fileSize: nat)
    requires '-' !in first && '-' !in last && fileSize <= U64_MAX
    requires (first != [] && ParseU64(first).None?) || (last != [] && ParseU64(last).None?)
             || (first == [] && last == [])
    ensures ParseRange(Header(first, last), fileSize) == NoRange
    ensures ParseRangeFixed(Header(first, last), fileSize) == NoRange
  {
    HeaderParts(first, last);
  }

  /** Anything but `bytes=` followed by exactly one `-` gives no range. */
  lemma MalformedForm(header: string, fileSize: nat)
    requires fileSize <= U64_MAX
    requires !StartsWith(header, Prefix) || |Split(header[|Prefix|..], '-')| != 2
    ensures ParseRange(header, fileSize) == NoRange && ParseRangeFixed(header, fileSize) == NoRange
  {
  }

  // ---------------------------------------------------------------- findings

  /** As written, asking for the last 100 bytes of a 1000-byte file yields no range. */
  lemma SuffixRangeIsLost()
    ensures ParseRange(Header("", NatToString(100)), 1000) == NoRange
    ensures ParseRangeFixed(Header("", NatToString(100)), 1000) == InRange(900, 999)
  {
    SuffixForm(100, 1000);
    SuffixFixed(100, 1000);
  }

  /** As written, any numeric range on an empty file reaches the `file_size - 1` underflow. */
  lemma EmptyFileUnderflows()
    ensures ParseRange(Header(NatToString(0), ""), 0) == SizeUnderflow
    ensures ParseRangeFixed(Header(NatToString(0), ""), 0) == NoRange
  {
    OpenEndedForm(0, 0);
  }

  /** The corrected suffix form selects the last `L` bytes of the file (all of it when
      the file is shorter), and it cannot be empty. */
  lemma SuffixFixed(l: nat, fileSize: nat)
    requires l <= U64_MAX && fileSize <= U64_MAX
    ensures ParseRangeFixed(Header("", NatToString(l)), fileSize)
         == if fileSize == 0 || l == 0 then NoRange
            else InRange(fileSize - Min(l, fileSize), fileSize - 1)
    ensures fileSize > 0 && l > 0 ==>
      var r := ParseRangeFixed(Header("", NatToString(l)), fileSize);
      r.end - r.start + 1 == Min(l, fileSize) && r.end == fileSize - 1
  {
    DigitsExclude(NatToString(l), '-');
    HeaderParts("", NatToString(l));
    ParseNatToString(l);
  }

  /** Away from the suffix form and the empty file, the correction changes nothing. */
  lemma FixedAgreesOtherwise(header: string, fileSize: nat)
    requires 0 < fileSize <= U64_MAX
    requires StartsWith(header, Prefix) ==> (|Split(header[|Prefix|..], '-')| == 2 ==>
                                             Split(header[|Prefix|..], '-')[0] != [])
    ensures ParseRangeFixed(header, fileSize) == ParseRange(header, fileSize)
  {
  }

  // ---------------------------------------------------------------- the reply

  /** The `Content-Length` and `Content-Range` of the 206 reply for a range. */
  function ContentLength(start: nat, end: nat): nat
    requires start <= end
  {
    end - start + 1
  }

  /** The `first-last` text that both a `Range` request and a `Content-Range` reply carry. */
  function RangeSpec(start: nat, end: nat): string
  {
    NatToString(start) + "-" + NatToString(end)
  }

  function ContentRange(start: nat, end: nat, fileSize: nat): string
  {
    "bytes " + RangeSpec(start, end) + "/" + NatToString(fileSize)
  }

  /** A range the parser as written accepts, which is what the 206 reply serves, is
      non-empty and fits in the file. */
  lemma PartialContentFits(header: string, fileSize: nat)
    requires fileSize <= U64_MAX
    requires ParseRange(header, fileSize).InRange?
    ensures var r := ParseRange(header, fileSize);
      1 <= ContentLength(r.start, r.end) <= fileSize - r.start <= fileSize
  {
  }

  /** The same for the corrected parser. */
  lemma FixedPartialContentFits(header: string, fileSize: nat)
    requires fileSize <= U64_MAX
    requires ParseRangeFixed(header, fileSize).InRange?
    ensures var r := ParseRangeFixed(header, fileSize);
      1 <= ContentLength(r.start, r.end) <= fileSize - r.start <= fileSize
  {
  }

  /** The `Content-Range` field (`bytes first-last/size`) names exactly the range
      served: its `first-last` part, sent back as a `Range` header, parses to the same
      range. */
  lemma ContentRangeEchoes(header: string, fileSize: nat)
    requires fileSize <= U64_MAX
    requires ParseRange(header, fileSize).InRange?
    ensures var r := ParseRange(header, fileSize);
      var c := ContentRange(r.start, r.end, fileSize);
      StartsWith(c, "bytes ") && |Split(c[6..], '/')| == 2
      && ParseRange(Prefix + Split(c[6..], '/')[0], fileSize) == r
      && ParseU64(Split(c[6..], '/')[1]) == Some(fileSize)
  {
    var r := ParseRange(header, fileSize);
    ContentRangeSplits(r.start, r.end, fileSize);
    assert Prefix + RangeSpec(r.start, r.end) == Header(NatToString(r.start), NatToString(r.end));
    RangeRoundTrip(r.start, r.end, fileSize);
    ParseNatToString(fileSize);
  }

  lemma RangeSpecHasNoSlash(start: nat, end: nat)
    ensures '/' !in RangeSpec(start, end)
  {
    var first, last := NatToString(start), NatToString(end);
    DigitsExclude(first, '/');
    DigitsExclude(last, '/');
    assert RangeSpec(start, end) == first + ['-'] + last;
  }

  /** After `bytes `, the `Content-Range` text splits at `/` into the range and the size. */
  lemma ContentRangeSplits(start: nat, end: nat, fileSize: nat)
    ensures var c := ContentRange(start, end, fileSize);
      StartsWith(c, "bytes ") && Split(c[6..], '/') == [RangeSpec(start, end), NatToString(fileSize)]
  {
    var spec, size := RangeSpec(start, end), NatToString(fileSize);
    RangeSpecHasNoSlash(start, end);
    DigitsExclude(size, '/');
    var tail := spec + ['/'] + size;
    var c := ContentRange(start, end, fileSize);
    assert c == "bytes " + tail;
    assert c[6..] == tail;
    SplitAt(spec, '/', size);
  }

  /** Every range inside the file survives being written as a request header and
      parsed back, by either parser. */
  lemma RangeRoundTrip(start: nat, end: nat, fileSize: nat)
    requires start <= end < fileSize <= U64_MAX
    ensures ParseRange(Header(NatToString(start), NatToString(end)), fileSize) == InRange(start, end)
    ensures ParseRangeFixed(Header(NatToString(start), NatToString(end)), fileSize) == InRange(start, end)
  {
    ClosedForm(start, end, fileSize);
  }
}
