/** The padded string of `src/lib.rs`: `PadString` owns text whose storage
    always ends in one NUL terminator, and `PadStr` is a borrowed window onto
    that text that never covers the terminator. A window is modelled by the
    buffer it points into, its byte offset there and its byte length, so the
    pointer arithmetic of `join_contig` becomes arithmetic on offsets. */
module Pad {
  import opened Wrappers
  import opened Str

  /** An owned, terminator-padded text buffer. */
  class PadString {
    /** The owned `String`'s bytes: the content followed by the terminator. */
    var s: seq<byte>

    /** The terminator is in place: the storage is never empty and ends in NUL. */
    ghost predicate Valid()
      reads this
    {
      |s| >= 1 && s[|s| - 1] == NUL
    }

    /** `From<String>`: push the terminator onto the given text, then own it. */
    constructor From(t: seq<byte>)
      ensures Valid()
      ensures s == t + [NUL] && |s| == |t| + 1
      ensures AsStr() == t
    {
      var text := t;
      text := text + [NUL];  // `push('\0')` appends the one-byte encoding of U+0000
      s := text;
    }

    /** `Into<String>`: pop the terminator and hand back the storage, which now
        holds exactly the content. */
    method IntoString() returns (t: seq<byte>)
      requires Valid()
      modifies this
      ensures t == old(AsStr())
      ensures s == t
    {
      PopTerminator(s[..|s| - 1]);
      assert s[..|s| - 1] + [NUL] == s;
      var popped := Pop(s);
      if popped.Some? {
        s := popped.value.0;
      }
      t := s;
    }

    /** `as_str`: the storage without its last byte, sliced as `s[0..len - 1]`.
        That slice never panics: the terminator is a one-byte character, so
        `len - 1` is a character boundary. */
    function AsStr(): (r: seq<byte>)
      reads this
      requires Valid()
      ensures |r| == |s| - 1
      ensures r + [NUL] == s
    {
      var totalLen := |s|;
      assert SliceOk(s, 0, totalLen - 1);
      var slice := Str.Index(s, Range(0, totalLen - 1));
      assert slice == Success(Span(0, totalLen - 1));
      Sub(s, slice.value)
    }

    /** `AsRef<PadStr>`: the content of `as_str` seen as a window, with the
        same start and length, so the window excludes the terminator. */
    function AsRef(): (v: PadStr)
      reads this
      requires Valid()
      ensures v.buf == this && v.start == 0 && v.len == |AsStr()|
      ensures ValidView(v) && Deref(v) == AsStr()
    {
      PadStr(this, 0, |AsStr()|)
    }
  }

  /** A borrowed window of `len` bytes starting `start` bytes into `buf`'s storage. */
  datatype PadStr = PadStr(buf: PadString, start: nat, len: nat)

  /** A window is well formed when it lies inside its buffer's content region
      (never over the terminator) and both its ends are character boundaries
      of the storage; if the buffer holds valid UTF-8, so does the window. */
  ghost predicate ValidView(v: PadStr)
    reads v.buf
  {
    && v.buf.Valid()
    && v.start + v.len < |v.buf.s|
    && IsCharBoundary(v.buf.s, v.start)
    && IsCharBoundary(v.buf.s, v.start + v.len)
  }

  /** `Deref for PadStr`: the text the window shows, a slice of its buffer's
      `as_str` content. */
  function Deref(v: PadStr): (r: seq<byte>)
    reads v.buf
    requires ValidView(v)
    ensures |r| == v.len
    ensures r == v.buf.AsStr()[v.start..v.start + v.len]
  {
    v.buf.s[v.start..v.start + v.len]
  }

  /** The window over the span `sp` of `v`'s text: same storage, shifted offset
      (what the `transmute` of a sub-slice amounts to). */
  function Narrow(v: PadStr, sp: Span): PadStr {
    PadStr(v.buf, v.start + sp.start, sp.len)
  }

  /** Boundaries of a window's text are boundaries of its buffer's storage at
      the shifted offset, and conversely. */
  lemma BoundaryInView(v: PadStr, i: nat)
    requires ValidView(v)
    ensures IsCharBoundary(Deref(v), i) <==> i <= v.len && IsCharBoundary(v.buf.s, v.start + i)
  {
    if 0 < i < v.len {
      assert Deref(v)[i] == v.buf.s[v.start + i];
    }
  }

  /** Narrowing a window to a span whose ends are boundaries of its text gives
      a well-formed window onto exactly that part of the text. */
  lemma NarrowValid(v: PadStr, sp: Span)
    requires ValidView(v) && sp.End() <= v.len
    requires IsCharBoundary(Deref(v), sp.start) && IsCharBoundary(Deref(v), sp.End())
    ensures ValidView(Narrow(v, sp))
    ensures Deref(Narrow(v, sp)) == Sub(Deref(v), sp)
  {
    var s, n := v.buf.s, Narrow(v, sp);
    BoundaryInView(v, sp.start);
    BoundaryInView(v, sp.End());
    assert IsCharBoundary(s, n.start) && IsCharBoundary(s, n.start + n.len);
    assert ValidView(n);
    assert Deref(v) == Sub(s, Span(v.start, v.len));
    assert Deref(n) == Sub(s, Span(v.start + sp.start, sp.len));
    SubOfSub(s, Span(v.start, v.len), sp);
  }

  /** `split_at(mid)`: the windows [0, mid) and [mid, len) of the same storage,
      adjacent by construction; refused like `str::split_at`. */
  function SplitAt(v: PadStr, mid: nat): (r: Result<(PadStr, PadStr), SliceError>)
    reads v.buf
    requires ValidView(v)
    ensures r.Success? <==> IsCharBoundary(Deref(v), mid)
    ensures r.Success? ==>
      var (left, right) := r.value;
      && ValidView(left) && ValidView(right)
      && left.buf == v.buf && right.buf == v.buf
      && left.start == v.start && left.len == mid
      && right.start == left.start + left.len
      && right.start + right.len == v.start + v.len
      && Deref(left) == Deref(v)[..mid] && Deref(right) == Deref(v)[mid..]
      && Deref(left) + Deref(right) == Deref(v)
    ensures r.Failure? ==> r.error == (if mid > v.len then OutOfBounds(mid) else NotCharBoundary(mid))
  {
    match Str.SplitAt(Deref(v), mid)
    case Success((l, rt)) =>
      NarrowValid(v, l);
      NarrowValid(v, rt);
      Success((Narrow(v, l), Narrow(v, rt)))
    case Failure(e) => Failure(e)
  }

  /** `Index<R> for PadStr`, for the five range types: the sub-window of the
      same storage covering exactly the selected bytes, refused like `str`
      indexing. */
  function Index(v: PadStr, i: SliceIndex): (r: Result<PadStr, SliceError>)
    reads v.buf
    requires ValidView(v)
    ensures Overflows(i) ==> r == Failure(IndexOverflow)
    ensures !Overflows(i) ==>
      var (lo, hi) := Endpoints(i, v.len);
      && (r.Success? <==> SliceOk(Deref(v), lo, hi))
      && (r.Success? ==>
            && ValidView(r.value) && r.value.buf == v.buf
            && r.value.start == v.start + lo && r.value.len == hi - lo
            && Deref(r.value) == Deref(v)[lo..hi])
      && (r.Failure? ==> r.error == SliceFailure(Deref(v), lo, hi))
  {
    match Str.Index(Deref(v), i)
    case Success(sp) =>
      NarrowValid(v, sp);
      Success(Narrow(v, sp))
    case Failure(e) => Failure(e)
  }

  /** The pointer test of `join_contig`: `next` starts at the address just past
      `a`. Stated on (buffer, offset) pairs; `PointerTestMatches` shows it
      agrees with the test on machine addresses for well-formed windows. */
  predicate Contiguous(a: PadStr, next: PadStr) {
    a.buf == next.buf && a.start + a.len == next.start
  }

  /** `join_contig`: an empty `next` gives back `a`; otherwise one window
      spanning both when `next` begins right after `a`, and `None` when it
      does not. */
  function JoinContig(a: PadStr, next: PadStr): (r: Option<PadStr>)
    ensures next.len == 0 ==> r == Some(a)
    ensures next.len > 0 ==> (r.Some? <==> Contiguous(a, next))
    ensures next.len > 0 && r.Some? ==>
      r.value.buf == a.buf && r.value.start == a.start && r.value.len == a.len + next.len
  {
    if next.len == 0 then
      Some(a)
    else
      var contig := a.start + a.len;
      if a.buf == next.buf && contig == next.start then
        Some(PadStr(a.buf, a.start, a.len + next.len))
      else
        None
  }

  /** A successful join of two well-formed windows is a well-formed window
      whose text is the first window's text followed by the second's. */
  lemma JoinContent(a: PadStr, next: PadStr)
    requires ValidView(a) && ValidView(next)
    requires JoinContig(a, next).Some?
    ensures ValidView(JoinContig(a, next).value)
    ensures Deref(JoinContig(a, next).value) == Deref(a) + Deref(next)
  {
    if next.len > 0 {
      var j := JoinContig(a, next).value;
      var s := a.buf.s;
      assert Deref(j) == s[a.start..a.start + a.len + next.len];
      assert s[a.start..a.start + a.len + next.len]
          == s[a.start..a.start + a.len] + s[next.start..next.start + next.len];
    }
  }

  /** The split/join identity: rejoining the two halves of `split_at` gives
      back the window that was split, at every offset `split_at` accepts. */
  lemma SplitJoinIdentity(v: PadStr, mid: nat)
    requires ValidView(v) && IsCharBoundary(Deref(v), mid)
    ensures SplitAt(v, mid).Success?
    ensures JoinContig(SplitAt(v, mid).value.0, SplitAt(v, mid).value.1) == Some(v)
  {
  }

  /** Conversely, splitting a joined window where its first part ends gives
      back the two windows that were joined. */
  lemma JoinSplitIdentity(a: PadStr, next: PadStr)
    requires ValidView(a) && ValidView(next) && Contiguous(a, next)
    ensures JoinContig(a, next).Some?
    ensures ValidView(JoinContig(a, next).value)
    ensures SplitAt(JoinContig(a, next).value, a.len) == Success((a, next))
  {
    JoinContent(a, next);
    var j := JoinContig(a, next).value;
    assert Deref(j)[..a.len] == Deref(a);
    assert Deref(j)[a.len..] == Deref(next);
    BoundaryInView(j, a.len);
  }

  /** Windows into two different buffers never join unless the second one is
      empty, even when their texts are equal. */
  lemma DistinctBuffersNeverJoin(a: PadStr, next: PadStr)
    requires a.buf != next.buf && next.len > 0
    ensures JoinContig(a, next) == None
  {
  }

  /** Separate allocations occupy disjoint address ranges: the storage of a
      buffer placed at `baseA` and one placed at `baseN` do not overlap, and one
      buffer always sits at one address. */
  ghost predicate Placement(a: PadStr, next: PadStr, baseA: nat, baseN: nat)
    reads a.buf, next.buf
  {
    if a.buf == next.buf then baseA == baseN
    else baseA + |a.buf.s| <= baseN || baseN + |next.buf.s| <= baseA
  }

  /** The pointer test on machine addresses, `self.as_ptr().add(len) ==
      next.as_ptr()`, agrees with `Contiguous` for well-formed windows with a
      non-empty `next`, wherever the buffers are placed. No window covers the
      terminator, so the address just past `a` lies inside `a`'s own
      allocation (at worst on the NUL byte), where no window of another
      buffer can start. */
  lemma PointerTestMatches(a: PadStr, next: PadStr, baseA: nat, baseN: nat)
    requires ValidView(a) && ValidView(next) && next.len > 0
    requires Placement(a, next, baseA, baseN)
    ensures baseA + a.start + a.len == baseN + next.start <==> Contiguous(a, next)
  {
    if a.buf != next.buf {
      assert baseA <= baseA + a.start + a.len < baseA + |a.buf.s|;
      assert baseN <= baseN + next.start < baseN + |next.buf.s|;
    }
  }

  /** Two independently built buffers: the pointer test fails on their
      windows, however the allocations are placed, and `join_contig` refuses. */
  lemma SeparateAllocationsNeverJoin(a: PadStr, next: PadStr, baseA: nat, baseN: nat)
    requires ValidView(a) && ValidView(next) && next.len > 0 && a.buf != next.buf
    requires Placement(a, next, baseA, baseN)
    ensures baseA + a.start + a.len != baseN + next.start
    ensures JoinContig(a, next) == None
  {
    PointerTestMatches(a, next, baseA, baseN);
    DistinctBuffersNeverJoin(a, next);
  }

  /** The split/join identity on a buffer's own content window: every boundary
      of the content splits it into two windows whose texts make up the
      content and which rejoin into the content window. */
  lemma ContentSplitJoin(p: PadString, mid: nat)
    requires p.Valid() && IsCharBoundary(p.AsStr(), mid)
    ensures SplitAt(p.AsRef(), mid).Success?
    ensures Deref(SplitAt(p.AsRef(), mid).value.0) == p.AsStr()[..mid]
    ensures Deref(SplitAt(p.AsRef(), mid).value.1) == p.AsStr()[mid..]
    ensures JoinContig(SplitAt(p.AsRef(), mid).value.0, SplitAt(p.AsRef(), mid).value.1) == Some(p.AsRef())
  {
    SplitJoinIdentity(p.AsRef(), mid);
  }

  /** Converting a text into a `PadString` and back yields the same text. */
  method FromInto(t: seq<byte>) returns (u: seq<byte>)
    ensures u == t
  {
    var p := new PadString.From(t);
    u := p.IntoString();
  }
}
