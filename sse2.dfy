/** The SSE2 HTML-escape scanner: copy `feed` into `buffer`, replacing every byte the escape
    table confirms, scanning 16 bytes at a time in three phases (head, aligned body, tail) and
    appending unescaped bytes in bulk runs.

    Pointers into `feed` are indices: `start` is `start_ptr - feed.as_ptr()`, and likewise for
    `ptr`, `ptr2`, `next_ptr`, `read_ptr`, `aligned_ptr` and `end_ptr` (which is `|feed|`).
    `base` is the address `feed.as_ptr()`; only `base % 16` matters. */
module Sse2 {
  import opened Simd
  import opened EscapeSpec

  /** The output sink. `push_str` appends; the scanner never reads it back or removes from it. */
  class Buffer {
    var data: seq<Byte>

    constructor ()
      ensures data == []
    {
      data := [];
    }

    method PushStr(s: seq<Byte>)
      modifies this
      ensures data == old(data) + s
    {
      data := data + s;
    }
  }

  /** An address at which `_mm_load_si128` may read. */
  predicate Aligned(addr: nat)
  {
    addr % VECTOR_BYTES == 0
  }

  /** `VECTOR_BYTES - (addr & VECTOR_ALIGN)`: the distance from `addr` to the first
      16-byte-aligned address strictly after it, so the head covers 1 to 16 bytes. */
  function HeadLength(addr: nat): (n: nat)
    ensures 1 <= n <= VECTOR_BYTES
    ensures Aligned(addr + n)
    ensures forall a :: addr < a < addr + n ==> !Aligned(a)
  {
    VECTOR_BYTES - addr % VECTOR_BYTES
  }

  /** The scanner's progress: the buffer holds what it held on entry followed by the escape of
      `feed[..start]`, and every byte from `start` up to `scanned` is known to need no escaping;
      those bytes are the pending run that is flushed as one piece. */
  ghost predicate Emitted(t: Table, feed: seq<Byte>, prior: seq<Byte>, out: seq<Byte>,
                          start: nat, scanned: nat)
  {
    && start <= scanned <= |feed|
    && out == prior + NaiveEscape(t, feed[..start])
    && forall k :: start <= k < scanned ==> !Escapes(t, feed[k])
  }

  /** The mask of a window at `ptr` still to be resolved: bit j is set exactly for the
      candidates at offsets from `done` up to the `width` bytes the phase owns. */
  ghost predicate Tracks(mask: Mask, feed: seq<Byte>, ptr: nat, done: nat, width: nat)
  {
    forall j :: 0 <= j < 32 ==>
      (mask[j] <==> done <= j < width && ptr + j < |feed| && IsCandidate(feed[ptr + j]))
  }

  /** Offsets from `done` up to `hi` whose mask bits are clear hold no candidate, hence (by the
      side condition) no escaped byte: the pending run extends over them. */
  lemma SkipNonCandidates(t: Table, feed: seq<Byte>, prior: seq<Byte>, out: seq<Byte>,
                          start: nat, mask: Mask, ptr: nat, done: nat, hi: nat, width: nat)
    requires CandidatesCover(t)
    requires done <= hi <= width <= 32 && ptr + width <= |feed|
    requires Tracks(mask, feed, ptr, done, width)
    requires forall j :: done <= j < hi ==> !mask[j]
    requires Emitted(t, feed, prior, out, start, ptr + done)
    ensures Emitted(t, feed, prior, out, start, ptr + hi)
  {
    forall k | start <= k < ptr + hi
      ensures !Escapes(t, feed[k])
    {
      if k >= ptr + done {
        assert !mask[k - ptr];
      }
    }
  }

  /** One step of a mask loop: the lowest set bit is a candidate inside the phase's window at
      or past `done`, and flipping it leaves exactly the candidates above it. */
  lemma TracksAdvance(mask: Mask, feed: seq<Byte>, ptr: nat, done: nat, width: nat)
    requires mask != Zero()
    requires Tracks(mask, feed, ptr, done, width)
    ensures done <= TrailingZeros(mask) < width && ptr + TrailingZeros(mask) < |feed|
    ensures forall j :: done <= j < TrailingZeros(mask) ==> !mask[j]
    ensures Tracks(XorBit(mask, TrailingZeros(mask)), feed, ptr, TrailingZeros(mask) + 1, width)
    ensures PopCount(XorBit(mask, TrailingZeros(mask))) == PopCount(mask) - 1
  {
    ClearLowest(mask);
  }

  /** `push_str` of the pending run `feed[from..to]`; the callers only flush non-empty runs,
      and only bytes of `feed` are ever flushed. */
  method PushRun(buffer: Buffer, feed: seq<Byte>, from: nat, to: nat)
    requires from < to <= |feed|
    modifies buffer
    ensures buffer.data == old(buffer.data) + feed[from..to]
  {
    buffer.PushStr(feed[from..to]);
  }

  /** The step every phase takes at a candidate `p` (`ptr2`): look the byte up; when the table
      confirms it, flush the pending run `feed[start..p]` if it is non-empty, push the
      replacement and move `start` just past `p`; otherwise leave everything as it is. */
  method Resolve(t: Table, feed: seq<Byte>, buffer: Buffer, start: nat, p: nat,
                 ghost prior: seq<Byte>)
    returns (start': nat)
    requires p < |feed|
    requires Emitted(t, feed, prior, buffer.data, start, p)
    modifies buffer
    ensures Emitted(t, feed, prior, buffer.data, start', p + 1)
    ensures start <= start' <= p + 1
    ensures Escapes(t, feed[p]) ==>
      start' == p + 1 && buffer.data == old(buffer.data) + feed[start..p] + Replacement(t, feed[p])
    ensures !Escapes(t, feed[p]) ==> start' == start && buffer.data == old(buffer.data)
  {
    var c := t.lut[feed[p] as int];
    if c < |t.escaped| {
      if start < p {
        PushRun(buffer, feed, start, p);
      }
      buffer.PushStr(t.escaped[c]);
      EscapePoint(t, feed, start, p);
      start' := p + 1;
    } else {
      start' := start;
    }
  }

  /** Lines 36-59, the head: resolve the candidates of the unaligned window at the start of
      `feed` that lie before `aligned`, lowest offset first, and stop at the first one at or
      past `aligned` (`trailing_zeros` of an empty mask is 32, which is always past it). */
  method ScanHead(t: Table, feed: seq<Byte>, buffer: Buffer, aligned: nat, ghost prior: seq<Byte>)
    returns (start: nat)
    requires |feed| >= VECTOR_BYTES && 1 <= aligned <= VECTOR_BYTES
    requires CandidatesCover(t)
    requires buffer.data == prior
    modifies buffer
    ensures Emitted(t, feed, prior, buffer.data, start, aligned)
  {
    start := 0;
    var ptr := 0;
    var mask := MaskGen(feed[ptr..ptr + VECTOR_BYTES]);
    ghost var done: nat := 0;
    while true
      invariant done <= aligned
      invariant Tracks(mask, feed, ptr, done, VECTOR_BYTES)
      invariant Emitted(t, feed, prior, buffer.data, start, ptr + done)
      decreases PopCount(mask)
    {
      var tz := TrailingZeros(mask);
      var ptr2 := ptr + tz;
      if ptr2 >= aligned {
        SkipNonCandidates(t, feed, prior, buffer.data, start, mask, ptr, done, aligned, VECTOR_BYTES);
        break;
      }
      TracksAdvance(mask, feed, ptr, done, VECTOR_BYTES);
      SkipNonCandidates(t, feed, prior, buffer.data, start, mask, ptr, done, tz, VECTOR_BYTES);
      start := Resolve(t, feed, buffer, start, ptr2, prior);
      mask := XorBit(mask, tz);
      done := tz + 1;
    }
  }

  /** Lines 66-83, one body iteration: resolve every candidate of the aligned window at `ptr`,
      lowest offset first, until the mask is empty; that takes one step per set bit. */
  method ScanBlock(t: Table, feed: seq<Byte>, buffer: Buffer, ptr: nat, start: nat,
                   ghost prior: seq<Byte>)
    returns (start': nat, ghost steps: nat)
    requires ptr + VECTOR_BYTES <= |feed|
    requires CandidatesCover(t)
    requires Emitted(t, feed, prior, buffer.data, start, ptr)
    modifies buffer
    ensures Emitted(t, feed, prior, buffer.data, start', ptr + VECTOR_BYTES)
    ensures start <= start'
    ensures steps == PopCount(MaskGen(feed[ptr..ptr + VECTOR_BYTES]))
  {
    start' := start;
    var mask := MaskGen(feed[ptr..ptr + VECTOR_BYTES]);
    ghost var done: nat := 0;
    steps := 0;
    while mask != Zero()
      invariant done <= VECTOR_BYTES
      invariant Tracks(mask, feed, ptr, done, VECTOR_BYTES)
      invariant Emitted(t, feed, prior, buffer.data, start', ptr + done)
      invariant start <= start'
      invariant steps + PopCount(mask) == PopCount(MaskGen(feed[ptr..ptr + VECTOR_BYTES]))
      decreases PopCount(mask)
    {
      TracksAdvance(mask, feed, ptr, done, VECTOR_BYTES);
      var tz := TrailingZeros(mask);
      var ptr2 := ptr + tz;
      SkipNonCandidates(t, feed, prior, buffer.data, start', mask, ptr, done, tz, VECTOR_BYTES);
      start' := Resolve(t, feed, buffer, start', ptr2, prior);
      mask := XorBit(mask, tz);
      done := tz + 1;
      steps := steps + 1;
    }
    SkipNonCandidates(t, feed, prior, buffer.data, start', mask, ptr, done, VECTOR_BYTES, VECTOR_BYTES);
    PopCountZero(mask);
  }

  /** Lines 61-89, the body: scan whole aligned windows from `aligned` while one fits before
      the end; on exit `ptr` is aligned and fewer than 16 bytes remain. */
  method ScanBody(t: Table, feed: seq<Byte>, base: nat, buffer: Buffer, aligned: nat,
                  start: nat, ghost prior: seq<Byte>)
    returns (ptr: nat, start': nat)
    requires aligned <= |feed| && Aligned(base + aligned)
    requires CandidatesCover(t)
    requires Emitted(t, feed, prior, buffer.data, start, aligned)
    modifies buffer
    ensures aligned <= ptr <= |feed| < ptr + VECTOR_BYTES
    ensures Aligned(base + ptr)
    ensures Emitted(t, feed, prior, buffer.data, start', ptr)
    ensures start <= start'
  {
    var end := |feed|;
    start' := start;
    ptr := aligned;
    var nextPtr := ptr + VECTOR_BYTES;
    while nextPtr <= end
      invariant nextPtr == ptr + VECTOR_BYTES
      invariant aligned <= ptr <= end
      invariant Aligned(base + ptr)
      invariant Emitted(t, feed, prior, buffer.data, start', ptr)
      invariant start <= start'
      decreases end - ptr
    {
      ghost var steps;
      start', steps := ScanBlock(t, feed, buffer, ptr, start', prior);
      ptr := nextPtr;
      nextPtr := nextPtr + VECTOR_BYTES;
    }
  }

  /** Line 96: the mask of the window `feed[|feed| - 16..]` that ends exactly at the end of
      the input, shifted right by the overlap `backs = 16 - (|feed| - ptr)`. Bit j is set
      exactly when byte `ptr + j` is a candidate; bytes before `ptr` drop out. */
  function TailMask(feed: seq<Byte>, ptr: nat): (m: Mask)
    requires VECTOR_BYTES <= |feed| && ptr < |feed| < ptr + VECTOR_BYTES
    ensures forall j :: 0 <= j < 32 ==>
      (m[j] <==> ptr + j < |feed| && IsCandidate(feed[ptr + j]))
  {
    var backs := VECTOR_BYTES - (|feed| - ptr);
    ShiftRight(MaskGen(feed[ptr - backs..ptr - backs + VECTOR_BYTES]), backs)
  }

  /** Lines 91-114, the tail: read the window that ends exactly at the end of `feed`, shift
      its mask right by the overlap `backs` so that bit j stands for byte `ptr + j`, and
      resolve those candidates. Nothing before `ptr` is looked at again. */
  method ScanTail(t: Table, feed: seq<Byte>, buffer: Buffer, ptr: nat, start: nat,
                  ghost prior: seq<Byte>)
    returns (start': nat, ghost steps: nat)
    requires VECTOR_BYTES <= |feed| && ptr < |feed| < ptr + VECTOR_BYTES
    requires CandidatesCover(t)
    requires Emitted(t, feed, prior, buffer.data, start, ptr)
    modifies buffer
    ensures Emitted(t, feed, prior, buffer.data, start', |feed|)
    ensures start <= start'
    ensures steps == PopCount(TailMask(feed, ptr))
  {
    var end := |feed|;
    start' := start;
    var backs := VECTOR_BYTES - (end - ptr);
    var readPtr := ptr - backs;
    var mask := ShiftRight(MaskGen(feed[readPtr..readPtr + VECTOR_BYTES]), backs);
    assert mask == TailMask(feed, ptr);
    ghost var done: nat := 0;
    steps := 0;
    while mask != Zero()
      invariant done <= end - ptr
      invariant Tracks(mask, feed, ptr, done, end - ptr)
      invariant Emitted(t, feed, prior, buffer.data, start', ptr + done)
      invariant start <= start'
      invariant steps + PopCount(mask) == PopCount(TailMask(feed, ptr))
      decreases PopCount(mask)
    {
      TracksAdvance(mask, feed, ptr, done, end - ptr);
      var tz := TrailingZeros(mask);
      var ptr2 := ptr + tz;
      SkipNonCandidates(t, feed, prior, buffer.data, start', mask, ptr, done, tz, end - ptr);
      start' := Resolve(t, feed, buffer, start', ptr2, prior);
      mask := XorBit(mask, tz);
      done := tz + 1;
      steps := steps + 1;
    }
    SkipNonCandidates(t, feed, prior, buffer.data, start', mask, ptr, done, end - ptr, end - ptr);
    PopCountZero(mask);
  }

  /** Lines 116-119, the final flush: push the pending run `feed[start..]` when it is
      non-empty, which completes the escape of `feed`. */
  method FinalFlush(t: Table, feed: seq<Byte>, buffer: Buffer, start: nat, ghost prior: seq<Byte>)
    requires Emitted(t, feed, prior, buffer.data, start, |feed|)
    modifies buffer
    ensures buffer.data == old(buffer.data) + feed[start..]
    ensures buffer.data == prior + NaiveEscape(t, feed)
  {
    var end := |feed|;
    if end > start {
      PushRun(buffer, feed, start, end);
    }
    EscapeRest(t, feed, start);
  }

  /** `escape(feed, buffer)`: appends to `buffer` exactly the byte-by-byte escape of `feed`.
      The scanner reads a full 16-byte window at the start and at the end, so `feed` must be
      at least 16 bytes long; and it only looks up bytes the bit trick flags, so every byte
      the table escapes must be a candidate. */
  method Escape(feed: seq<Byte>, base: nat, buffer: Buffer, t: Table)
    requires |feed| >= VECTOR_BYTES
    requires CandidatesCover(t)
    modifies buffer
    ensures buffer.data == old(buffer.data) + NaiveEscape(t, feed)
  {
    ghost var prior := buffer.data;
    var end := |feed|;
    var aligned := HeadLength(base);
    var start := ScanHead(t, feed, buffer, aligned, prior);
    var ptr: nat;
    ptr, start := ScanBody(t, feed, base, buffer, aligned, start, prior);
    if ptr < end {
      ghost var steps;
      start, steps := ScanTail(t, feed, buffer, ptr, start, prior);
    }
    FinalFlush(t, feed, buffer, start, prior);
  }
}
