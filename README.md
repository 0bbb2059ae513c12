# sailfish SSE2 HTML escape, modelled in Dafny

This project models `escape` from sailfish's runtime, the SSE2 routine that copies a
template's text into the output `Buffer` and escapes HTML-sensitive bytes along the way.
Each byte `b` with `ESCAPE_LUT[b] < ESCAPED_LEN` becomes `ESCAPED[ESCAPE_LUT[b]]`. Every
other byte is copied verbatim, in bulk runs. The scanner finds the bytes to look up with a
bit trick applied to 16 bytes at a time. It works in three phases:

- the **head** is the unaligned first window, up to the first 16-byte-aligned address;
- the **body** is every whole aligned window;
- the **tail** is one overlapping window ending at the end of the input, with its mask
  shifted past the bytes already scanned.

A final flush appends the last pending run.

The main result is `Sse2.Escape`. Given an input of at least 16 bytes and a table whose
escaped bytes all pass the bit trick, the buffer grows by exactly `NaiveEscape(t, feed)`.
That is the byte-by-byte escape of the whole input, in order, with nothing lost or
duplicated at window or phase boundaries.

Files:

- `simd.dfy` (module `Simd`) holds the SSE2 operations as pure functions. A register is
  its 16 byte lanes and a `u32` mask is its 32 bits. The module also defines the
  `maskgen` closure, `trailing_zeros`, `mask ^= 1 << tz`, `mask >> backs` and the
  population count.
- `escape_spec.dfy` (module `EscapeSpec`) holds the escape table as a parameter, the
  reference escape `NaiveEscape` and lemmas about it: it distributes over concatenation,
  leaves clean input unchanged, and splits at an escape point and at the final run.
- `sse2.dfy` (module `Sse2`) holds the output `Buffer` as a class whose `data` only
  grows, the shared candidate step `Resolve`, one method per phase, and `Escape`.

Pointers are indices into the input: `start_ptr` is `start`, `end_ptr` is `|feed|`, and
so on. `base` stands for the address `feed.as_ptr()`. Only `base % 16` matters, and
`base & VECTOR_ALIGN` is written `base % VECTOR_BYTES`. The source writes the per-candidate
step three times inline. The model writes it once, as `Resolve`, and gives each phase
its own method. The source's `debug_assert!`s hold as contracts: the body's windows are
aligned, and after the body loop `ptr <= end < ptr + 16`.

The bit trick is sometimes described as a test for two target byte values. The code's
test `(b | 5) == 0x27 || (b | 2) == 0x3e` flags six bytes: `"`, `#`, `&`, `'`, `<` and
`>`. The model follows the code, and `Simd.IsCandidate` states the six.

## Model

| member | source | states |
|---|---|---|
| `Simd.IsCandidate` | sailfish/src/runtime/escape/sse2.rs:21-30 | a byte passes the bit trick (b or-ed with 5 is 0x27, or b or-ed with 2 is 0x3e) exactly when it is one of 0x22, 0x23, 0x26, 0x27, 0x3c, 0x3e |
| `Simd.MaskGen` | sailfish/src/runtime/escape/sse2.rs:26-31 | the or/compare/or/movemask composition sets mask bit i exactly when window byte i is a candidate, and never sets bits 16 to 31 |
| `Simd.LowestSetFrom` | sailfish/src/runtime/escape/sse2.rs:39-39 | returns the lowest set bit at or above i, with every bit between clear, or 32 when there is none |
| `Simd.TrailingZeros` | sailfish/src/runtime/escape/sse2.rs:39-40 | `trailing_zeros` gives the offset of the lowest set bit, with every lower bit clear, and is 32 exactly for the empty mask |
| `Simd.ShiftRight` | sailfish/src/runtime/escape/sse2.rs:96-96 | bit j of `mask >> b` is bit j+b of `mask`, and the top b bits are zero |
| `Simd.PopCountZero` | sailfish/src/runtime/escape/sse2.rs:67-67 | the population count is zero exactly when no bit is set, so `mask != 0` and "set bits remain" coincide |
| `Simd.PopCountClear` | sailfish/src/runtime/escape/sse2.rs:82-82 | clearing one set bit lowers the population count by exactly one |
| `Simd.ClearLowest` | sailfish/src/runtime/escape/sse2.rs:57-57 | `mask ^= 1 << trailing_zeros` on a non-empty mask clears exactly the lowest set bit, keeps every other bit and drops the population count by one |
| `EscapeSpec.NaiveEscapeAppend` | sailfish/src/runtime/escape/sse2.rs:45-56 | escaping a concatenation is escaping each part in order, so no split point loses, duplicates or reorders bytes |
| `EscapeSpec.NaiveEscapeVerbatim` | sailfish/src/runtime/escape/sse2.rs:116-119 | input containing no byte the table escapes comes out unchanged |
| `EscapeSpec.NaiveEscapeNoCandidates` | sailfish/src/runtime/escape/sse2.rs:64-83 | when every escaped byte is a candidate, input with no candidate comes out unchanged, so a window with an empty mask may be copied as it is |
| `EscapeSpec.NaiveEscapeSingle` | sailfish/src/runtime/escape/sse2.rs:45-54 | a one-byte input comes out as `ESCAPED[ESCAPE_LUT[b]]` when the table escapes b, and as b otherwise |
| `EscapeSpec.EscapePoint` | sailfish/src/runtime/escape/sse2.rs:45-56 | at an escape point p with a clean pending run, the escape of the prefix through p is the escape up to `start`, then the run `start..p`, then the replacement |
| `EscapeSpec.EscapeRest` | sailfish/src/runtime/escape/sse2.rs:116-119 | when nothing from `start` on is escaped, the escape of the input is the escape up to `start` followed by the rest verbatim |
| `Sse2.HeadLength` | sailfish/src/runtime/escape/sse2.rs:34-34 | `aligned_ptr` is the first 16-byte-aligned address strictly after the start, so the head covers 1 to 16 bytes |
| `Sse2.SkipNonCandidates` | sailfish/src/runtime/escape/sse2.rs:39-43 | bytes whose mask bits are clear need no escaping, so the pending run extends over them |
| `Sse2.TracksAdvance` | sailfish/src/runtime/escape/sse2.rs:67-82 | a mask step takes the lowest remaining candidate inside the phase's window, skips only non-candidates and leaves exactly the candidates above it |
| `Sse2.TailMask` | sailfish/src/runtime/escape/sse2.rs:91-96 | the tail window read at `end - 16` and shifted right by `backs` has bit j set exactly when byte `ptr + j` (before `end`) is a candidate |
| `Sse2.Buffer.PushStr` | sailfish/src/runtime/escape/sse2.rs:52-54 | `push_str` appends its argument to the buffer and changes nothing else |
| `Sse2.PushRun` | sailfish/src/runtime/escape/sse2.rs:47-53 | a flushed run is non-empty, lies inside the input, and is appended verbatim |
| `Sse2.Resolve` | sailfish/src/runtime/escape/sse2.rs:45-56 | a confirmed candidate flushes the pending run, pushes its replacement and moves `start` to just past it; an unconfirmed one changes nothing; the buffer stays the escape up to `start` |
| `Sse2.ScanHead` | sailfish/src/runtime/escape/sse2.rs:33-59 | the head resolves the candidates before `aligned` lowest first, stops at the first one at or past it (or at the empty mask), and leaves every byte before `aligned` escaped or pending |
| `Sse2.ScanBlock` | sailfish/src/runtime/escape/sse2.rs:66-83 | one aligned window is resolved completely, in popcount(mask) steps, and `start` only moves forward |
| `Sse2.ScanBody` | sailfish/src/runtime/escape/sse2.rs:61-89 | the body scans aligned windows while one fits, and on exit `ptr` is aligned with `ptr <= end < ptr + 16` |
| `Sse2.ScanTail` | sailfish/src/runtime/escape/sse2.rs:91-114 | the tail resolves exactly the candidates in `ptr..end`, in popcount(shifted mask) steps, without revisiting bytes before `ptr` |
| `Sse2.FinalFlush` | sailfish/src/runtime/escape/sse2.rs:116-119 | the last pending run `feed[start..]` is appended when non-empty, completing the escape of the input |
| `Sse2.Escape` | sailfish/src/runtime/escape/sse2.rs:16-120 | the buffer grows by exactly the byte-by-byte escape of the input |

## Left out

- The SSE2 intrinsics are not modelled as hardware operations. `_mm_set1_epi8`, `_mm_or_si128`,
  `_mm_cmpeq_epi8` and `_mm_movemask_epi8` are lane-wise functions. Aligned and unaligned
  loads are both the 16-byte slice at the index.
- Raw pointers, memory safety, `unsafe` and `#[target_feature(enable = "sse2")]` are left
  out. Positions are indices into the input, and address arithmetic cannot overflow.
- Sse2.Escape: requires at least 16 input bytes, because the head and tail windows read 16
  bytes and shorter inputs would read outside the input. The scanner's behaviour on shorter
  inputs is not modelled.
- Sse2.Escape: requires that every byte the table escapes passes the bit trick. The code
  relies on this and does not check it. The table's contents are defined outside
  `sse2.rs` and are not part of this model.
- `ESCAPE_LUT` and `ESCAPED` are parameters. `ESCAPED_LEN` is taken to be the length of
  `ESCAPED`, as `get_unchecked` requires.
- `std::str::from_utf8_unchecked` and UTF-8 validity are left out. Input and output are
  byte sequences.
- The internals of `Buffer` are left out. It is a sequence that `push_str` extends.
- Sse2.ScanHead: states no step count. Unlike the body and tail loops, the head loop stops
  at the alignment boundary rather than when the mask is empty.
