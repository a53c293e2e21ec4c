/** The behaviour of Rust's `str` and `String` that the padded-string core relies
    on, stated over the UTF-8 bytes of the text: character boundaries, the
    checks (and the panics) of range indexing and `split_at`, and `String::pop`.
    A `str` value is modelled by its bytes; a sub-slice is modelled by the
    byte range (a `Span`) it occupies in the text it was taken from. */
module Str {
  import opened Wrappers

  newtype byte = x: int | 0 <= x < 0x100

  /** The terminator: the single-byte UTF-8 encoding of the character U+0000. */
  const NUL: byte := 0

  /** The largest value of Rust's `usize` on a 64-bit target. */
  const USIZE_MAX: nat := 0xFFFF_FFFF_FFFF_FFFF

  /** A byte of the form 10xxxxxx only continues a multi-byte sequence
      (RFC 3629, section 3); every other byte starts a character. */
  predicate IsContinuation(b: byte) {
    0x80 <= b <= 0xBF
  }

  /** `str::is_char_boundary`: offset 0, the end of the text, or an offset
      inside the text whose byte starts a character. Offsets past the end are
      not boundaries. */
  predicate IsCharBoundary(s: seq<byte>, i: nat) {
    i == 0 || i == |s| || (i < |s| && !IsContinuation(s[i]))
  }

  /** A sub-slice of a text: `len` bytes starting `start` bytes in. */
  datatype Span = Span(start: nat, len: nat) {
    function End(): nat { start + len }
  }

  /** The bytes a span covers. */
  function Sub(s: seq<byte>, sp: Span): seq<byte>
    requires sp.End() <= |s|
  {
    s[sp.start..sp.End()]
  }

  /** What a refused slicing operation panics with. */
  datatype SliceError =
    | OutOfBounds(index: nat)                // "byte index … is out of bounds of …"
    | BeginAfterEnd(begin: nat, end: nat)    // "begin <= end (… <= …) when slicing …"
    | NotCharBoundary(index: nat)            // "byte index … is not a char boundary"
    | IndexOverflow                          // "attempted to index str up to maximum usize"

  /** The byte range [begin, end) may be sliced out of `s`. */
  predicate SliceOk(s: seq<byte>, begin: nat, end: nat) {
    begin <= end && IsCharBoundary(s, begin) && IsCharBoundary(s, end)
  }

  /** The panic raised when slicing [begin, end) out of `s` is refused: an
      endpoint past the end is reported first (the begin one if both are),
      then reversed endpoints, then the begin endpoint if it is not a
      boundary, else the end one. */
  function SliceFailure(s: seq<byte>, begin: nat, end: nat): (e: SliceError)
    requires !SliceOk(s, begin, end)
    ensures e.OutOfBounds? <==> (begin > |s| || end > |s|)
    ensures e.OutOfBounds? ==> e.index > |s| && (e.index == begin || e.index == end)
    ensures e.OutOfBounds? && begin > |s| ==> e.index == begin
    ensures e.BeginAfterEnd? <==> (begin <= |s| && end <= |s| && begin > end)
    ensures e.BeginAfterEnd? ==> e.begin == begin && e.end == end
    ensures e.NotCharBoundary? ==>
      e.index <= |s| && !IsCharBoundary(s, e.index) && (e.index == begin || e.index == end)
    ensures e.NotCharBoundary? && !IsCharBoundary(s, begin) ==> e.index == begin
    ensures !e.IndexOverflow?
  {
    if begin > |s| || end > |s| then
      OutOfBounds(if begin > |s| then begin else end)
    else if begin > end then
      BeginAfterEnd(begin, end)
    else
      NotCharBoundary(if !IsCharBoundary(s, begin) then begin else end)
  }

  /** The range expressions a `str` (and a `PadStr`) can be indexed by. */
  datatype SliceIndex =
    | Range(lo: nat, hi: nat)              // lo..hi
    | RangeFrom(lo: nat)                   // lo..
    | RangeInclusive(lo: nat, hi: nat)     // lo..=hi
    | RangeTo(hi: nat)                     // ..hi
    | RangeToInclusive(hi: nat)            // ..=hi

  /** The half-open byte range [lo, hi) a range expression denotes on a text
      of `len` bytes. */
  function Endpoints(i: SliceIndex, len: nat): (nat, nat) {
    match i
    case Range(lo, hi) => (lo, hi)
    case RangeFrom(lo) => (lo, len)
    case RangeInclusive(lo, hi) => (lo, hi + 1)
    case RangeTo(hi) => (0, hi)
    case RangeToInclusive(hi) => (0, hi + 1)
  }

  /** An inclusive range ending at `usize::MAX` has no exclusive end. No
      `usize` exceeds `USIZE_MAX`, so `>=` only widens the guard to offsets
      Rust cannot express. */
  predicate Overflows(i: SliceIndex) {
    (i.RangeInclusive? || i.RangeToInclusive?) && i.hi >= USIZE_MAX
  }

  /** `Range<usize>` indexing: the checks of `get`, and `slice_error_fail` on refusal. */
  function Slice(s: seq<byte>, lo: nat, hi: nat): Result<Span, SliceError> {
    if lo <= hi && IsCharBoundary(s, lo) && IsCharBoundary(s, hi) then
      Success(Span(lo, hi - lo))
    else
      Failure(SliceFailure(s, lo, hi))
  }

  /** `s[i]` for each range type: the span of `s` the range selects, or the
      panic it raises. */
  function Index(s: seq<byte>, i: SliceIndex): (r: Result<Span, SliceError>)
    ensures Overflows(i) ==> r == Failure(IndexOverflow)
    ensures !Overflows(i) ==>
      var (lo, hi) := Endpoints(i, |s|);
      && (r.Success? <==> SliceOk(s, lo, hi))
      && (r.Success? ==> r.value.start == lo && r.value.End() == hi && hi <= |s|)
      && (r.Failure? ==> r.error == SliceFailure(s, lo, hi))
  {
    match i
    case Range(lo, hi) => Slice(s, lo, hi)
    case RangeFrom(lo) =>
      if IsCharBoundary(s, lo) then Success(Span(lo, |s| - lo)) else Failure(SliceFailure(s, lo, |s|))
    case RangeTo(hi) =>
      if IsCharBoundary(s, hi) then Success(Span(0, hi)) else Failure(SliceFailure(s, 0, hi))
    case RangeInclusive(lo, hi) =>
      if hi >= USIZE_MAX then Failure(IndexOverflow) else Slice(s, lo, hi + 1)
    case RangeToInclusive(hi) =>
      if hi >= USIZE_MAX then Failure(IndexOverflow) else Slice(s, 0, hi + 1)
  }

  /** `str::split_at(mid)`: the spans [0, mid) and [mid, len), or the panic
      `slice_error_fail(s, 0, mid)` raises. */
  function SplitAt(s: seq<byte>, mid: nat): (r: Result<(Span, Span), SliceError>)
    ensures r.Success? <==> IsCharBoundary(s, mid)
    ensures r.Success? ==>
      var (left, right) := r.value;
      && left.start == 0 && left.len == mid
      && right.start == left.End() && right.End() == |s|
      && Sub(s, left) + Sub(s, right) == s
    ensures r.Failure? ==> r.error == (if mid > |s| then OutOfBounds(mid) else NotCharBoundary(mid))
  {
    if IsCharBoundary(s, mid) then
      var left, right := Span(0, mid), Span(mid, |s| - mid);
      assert Sub(s, left) + Sub(s, right) == s;
      Success((left, right))
    else
      Failure(SliceFailure(s, 0, mid))
  }

  /** Where the character that ends at offset `i` (inclusive) starts: the
      nearest offset at or below `i` that is 0 or holds a non-continuation byte. */
  function LastCharStart(s: seq<byte>, i: nat): (k: nat)
    requires i < |s|
    ensures k <= i && IsCharBoundary(s, k)
    ensures forall j :: k < j <= i ==> IsContinuation(s[j])
    decreases i
  {
    if i == 0 || !IsContinuation(s[i]) then i else LastCharStart(s, i - 1)
  }

  /** `String::pop`: `None` on the empty string; otherwise the text without its
      last character, and that character's encoding (one leading byte and its
      continuation bytes). */
  function Pop(s: seq<byte>): (r: Option<(seq<byte>, seq<byte>)>)
    ensures r.None? <==> s == []
    ensures r.Some? ==>
      var (rest, ch) := r.value;
      && rest + ch == s && ch != []
      && IsCharBoundary(s, |rest|)
      && forall j :: 0 < j < |ch| ==> IsContinuation(ch[j])
  {
    if s == [] then None
    else
      var k := LastCharStart(s, |s| - 1);
      assert s[..k] + s[k..] == s;
      Some((s[..k], s[k..]))
  }

  /** Popping a text that ends in the terminator removes exactly that one byte. */
  lemma PopTerminator(t: seq<byte>)
    ensures Pop(t + [NUL]) == Some((t, [NUL]))
  {
    var s := t + [NUL];
    assert !IsContinuation(s[|s| - 1]);
    assert LastCharStart(s, |s| - 1) == |t|;
    assert s[..|t|] == t;
  }

  /** An offset inside the text whose byte is a continuation byte lies inside
      a multi-byte character: `split_at`, `..mid`, `mid..` and `0..mid` each
      refuse it with a not-a-char-boundary panic. (Other ranges with an
      endpoint there are refused too, but may report an earlier error first.) */
  lemma InsideCharacterRefused(s: seq<byte>, mid: nat)
    requires 0 < mid < |s| && IsContinuation(s[mid])
    ensures SplitAt(s, mid) == Failure(NotCharBoundary(mid))
    ensures Index(s, RangeTo(mid)) == Failure(NotCharBoundary(mid))
    ensures Index(s, RangeFrom(mid)) == Failure(NotCharBoundary(mid))
    ensures Index(s, Range(0, mid)) == Failure(NotCharBoundary(mid))
  {
  }

  /** Sub-slicing composes: the span `inner` of the sub-slice `outer` of `s` is
      the span of `s` shifted by `outer.start` (a sub-slice of a sub-slice
      points into the same text). */
  lemma SubOfSub(s: seq<byte>, outer: Span, inner: Span)
    requires outer.End() <= |s| && inner.End() <= outer.len
    ensures Sub(Sub(s, outer), inner) == Sub(s, Span(outer.start + inner.start, inner.len))
  {
    var lhs, rhs := Sub(Sub(s, outer), inner), Sub(s, Span(outer.start + inner.start, inner.len));
    assert |lhs| == |rhs| == inner.len;
    forall k | 0 <= k < inner.len
      ensures lhs[k] == rhs[k]
    {
      assert lhs[k] == Sub(s, outer)[inner.start + k] == s[outer.start + inner.start + k];
    }
  }
}
