# pad-str: a NUL-terminated string buffer and its splittable view

This project models the `pad-str` Rust crate (`src/lib.rs`) in Dafny and proves
properties of the model. `PadString` owns a `String` whose bytes always end in
one NUL terminator, so the storage can go straight to an API that expects a
NUL-terminated byte string. `PadStr` is a borrowed window onto the content. It
never covers the terminator. It can be sliced by range, split at a byte
offset, and rejoined without copying with `join_contig`. The join works only
when the second window begins exactly where the first one ends.

Files:

- `wrappers.dfy` (module `Wrappers`): `Option`, and `Result`, which models a panic.
- `str.dfy` (module `Str`): the behaviour of Rust's `str` and `String` that the
  crate relies on, stated over UTF-8 bytes. It covers character boundaries
  (RFC 3629, section 3), the checks of range indexing and `split_at` with the
  panic each one raises, and `String::pop`.
- `pad.dfy` (module `Pad`): the crate itself. `PadString` is a class whose
  `s: seq<byte>` field is the owned `String`. `From` and `IntoString` change it
  the way `push('\0')` and `pop()` change the Rust `String`. `PadStr` is the
  record `(buf, start, len)`: the buffer the window points into, its byte
  offset and its byte length. The pointer comparison in `join_contig` becomes
  "same buffer and `a.start + a.len == next.start`".
- `examples.dfy` (module `Examples`): the worked scenarios. "hello world" is
  split at 5 and rejoined. "héllo" is refused at offset 2. Windows of two
  separate buffers do not join.

The buffer invariant `PadString.Valid()` says the storage is non-empty and ends
in NUL. The window invariant `Pad.ValidView` says the window lies strictly
before the terminator and both of its ends are character boundaries of the
storage.

## Model

| member | source | states |
|---|---|---|
| `Pad.PadString.From` | src/lib.rs:10-15 | pushes the terminator and owns the result: the storage is the text followed by one NUL, one byte longer, and `as_str` gives the text back |
| `Pad.PadString.IntoString` | src/lib.rs:17-22 | `pop` removes only the one-byte terminator, so the returned `String` is exactly the old `as_str` content, and the storage itself is what is returned |
| `Pad.PadString.AsStr` | src/lib.rs:24-29 | the slice `[0, len-1)` of the storage never panics; its result is the storage minus its last byte, so it followed by NUL is the storage |
| `Pad.PadString.AsRef` | src/lib.rs:31-36 | the window has the same start (0) and length as `as_str`, lies in the same buffer, is well formed, and shows exactly the `as_str` content |
| `Pad.Deref` | src/lib.rs:98-104 | a window's text has its length and is a slice of its buffer's `as_str` content, so it never includes the terminator |
| `Pad.JoinContig` | src/lib.rs:46-62 | an empty `next` gives back `self` whatever the adjacency; otherwise the result exists exactly when `next` begins right after `self`; then it starts at `self`'s start, in `self`'s buffer, with length `self.len + next.len` |
| `Pad.JoinContent` | src/lib.rs:50-58 | a successful join of two well-formed windows is a well-formed window whose text is the first window's text followed by the second's |
| `Pad.DistinctBuffersNeverJoin` | src/lib.rs:50-61 | a non-empty window of another buffer is never joined, even with equal text (the source's pointer test agrees: see `Pad.SeparateAllocationsNeverJoin`) |
| `Pad.PointerTestMatches` | src/lib.rs:50-52 | for well-formed windows and a non-empty `next`, comparing the machine address just past `self` with `next`'s start is the same as "same buffer and adjacent offsets", for any placement of the buffers in disjoint address ranges |
| `Pad.SeparateAllocationsNeverJoin` | src/lib.rs:47-61 | windows of two separately built buffers fail the pointer test however the allocations are placed, and `join_contig` gives `None` |
| `Pad.SplitAt` | src/lib.rs:64-67 | succeeds exactly at character boundaries of the window's text; then gives `[0,mid)` and `[mid,len)` of the same buffer, the right starting where the left ends and ending where the window ends, with texts that concatenate to the window's text; otherwise the panic is out-of-bounds when `mid > len` and not-a-char-boundary otherwise |
| `Pad.SplitJoinIdentity` | src/lib.rs:44-67 | for every offset `split_at` accepts, `join_contig` of the two halves gives back the original window |
| `Pad.JoinSplitIdentity` | src/lib.rs:44-67 | two adjacent well-formed windows join, and splitting the join where the first one ends gives back both windows |
| `Pad.ContentSplitJoin` | src/lib.rs:31-67 | every boundary of a buffer's content splits its content window into the content's prefix and suffix, and the halves rejoin into the content window |
| `Pad.Index` | src/lib.rs:70-96 | each of the five range types selects the sub-window of the same buffer at offset `lo` with length `hi - lo`, showing exactly those bytes; it succeeds exactly when `lo <= hi` and both ends are boundaries of the window's text, and `..=usize::MAX` always panics |
| `Pad.NarrowValid` | src/lib.rs:64-67 | a sub-slice taken at two boundaries of a window's text, seen as a window of the same buffer, is well formed and shows exactly that sub-slice |
| `Pad.BoundaryInView` | src/lib.rs:64-67 | an offset is a boundary of a window's text exactly when it lies within the window and the shifted offset is a boundary of the buffer's storage |
| `Pad.FromInto` | src/lib.rs:10-21 | converting a text into a `PadString` and back returns the same text |
| `Str.SplitAt` | src/lib.rs:65 | `str::split_at` succeeds exactly at character boundaries; the halves are `[0,mid)` and `[mid,len)` and concatenate to the text; a refusal is out-of-bounds or not-a-char-boundary at `mid` |
| `Str.Index` | src/lib.rs:77 | `str` range indexing selects `[lo, hi)` exactly when `lo <= hi` and both ends are character boundaries (which implies they are in bounds), reports the failure `slice_error_fail` reports otherwise, and an inclusive end at `usize::MAX` overflows |
| `Str.SliceFailure` | src/lib.rs:77 | a refused slice reports an out-of-bounds endpoint first (the begin one if both are), then reversed endpoints, then the begin endpoint if it is not a boundary, else the end one |
| `Str.SubOfSub` | src/lib.rs:64-79 | a sub-slice of a sub-slice is the slice of the original text at the summed offset, so sub-windows point into the same storage |
| `Str.LastCharStart` | src/lib.rs:19 | the backward scan of `pop` stops at a character boundary, and every byte it skips is a continuation byte |
| `Str.Pop` | src/lib.rs:19 | `pop` fails only on the empty string; otherwise it splits the text at a character boundary into the rest and one whole character (a leading byte and its continuation bytes) |
| `Str.PopTerminator` | src/lib.rs:12-19 | popping a text that ends in the pushed terminator removes exactly that one byte and nothing of the content |
| `Str.InsideCharacterRefused` | src/lib.rs:64-79 | an offset inside a multi-byte character is refused with a not-a-char-boundary panic by `split_at`, `..mid`, `mid..` and `0..mid` |
| `Examples.SplitHelloWorld` | src/lib.rs:44-67 | "hello world" split at 5 gives "hello" and " world", which rejoin into the content window |
| `Examples.SplitInsideAcute` | src/lib.rs:64-67 | splitting "héllo" at byte 2, inside "é", is refused as not a character boundary |
| `Examples.JoinAcrossBuffers` | src/lib.rs:46-61 | the content windows of two separately built buffers do not join |

## Left out

- Pad.JoinContig: tests "same buffer and adjacent offsets" instead of comparing machine addresses. The two agree on every window the crate can build (`Pad.PointerTestMatches`). No window covers its buffer's terminator, so the address just past a window lies inside its own allocation, where no window of another buffer can start. Memory layout is modelled only as disjoint address ranges, one per buffer.
- The `unsafe` reinterpretations (`transmute`, `from_raw_parts`, `from_utf8_unchecked`) are not modelled as such. A window is a structured `(buffer, offset, length)` record. The model proves only that both ends of a window are character boundaries of the storage (`Pad.ValidView`). If the buffer holds valid UTF-8, which is not modelled, then so does the window.
- `IndexMut` and `DerefMut`: writing through mutable windows is not modelled, because the aliasing rules of mutable borrows belong to the Rust borrow checker. `index_mut` selects the same range as `index`, checked the same way.
- Borrow lifetimes: the model does not stop windows from being used after `IntoString` consumes their buffer. Rust's ownership rules rule that out, and they are not modelled.
- Str.Pop: scans back over continuation bytes. This agrees with Rust's `pop` on valid UTF-8, which is all a `String` holds. The popped character is returned as its bytes, not decoded into a `char`.
- UTF-8 validity of the text passed to `PadString.From` is not required or checked. Only the character-boundary predicate is modelled. Nothing stops the text from holding NUL bytes of its own, just as in the source.
- Machine integers: offsets and lengths are unbounded naturals. The source's `total_len - 1` cannot underflow because the buffer invariant keeps the storage non-empty. The address arithmetic of `as_ptr().add(len)` stays inside one allocation, so it is offset addition. `usize` is taken as 64 bits wide (`Str.USIZE_MAX`), so the `..=usize::MAX` overflow case holds for 64-bit targets.
- Panic messages are reduced to the failure kind and the offending offsets. The truncated text that Rust prints is not modelled.
- A left-padded variant and `append`/`remove_last` mutators are not in `src/lib.rs`, so they are not modelled.
- Str.Index: inclusive ranges are taken as freshly built. Rust's `RangeInclusive` carries an `exhausted` flag, and an exhausted `lo..=hi` slices as `hi+1..hi+1`. The model has no such flag and always uses `lo..hi+1`.
