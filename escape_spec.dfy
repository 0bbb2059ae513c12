/** What escaping means, independently of how the scanner finds the bytes to escape:
    the escape table, the byte-by-byte reference escape, and the facts about it that the
    scanner's proof splits its output by. */
module EscapeSpec {
  import opened Simd

  /** `ESCAPE_LUT` (one entry per byte value) and `ESCAPED` (the replacement strings).
      `ESCAPED_LEN` is the number of replacement strings. */
  datatype EscapeTable = EscapeTable(lut: seq<nat>, escaped: seq<seq<Byte>>)

  /** A table whose lookup is total over the 256 byte values. */
  type Table = t: EscapeTable | |t.lut| == 256 witness EscapeTable(seq(256, _ => 0), [])

  /** `ESCAPE_LUT[b] < ESCAPED_LEN`: the table confirms that `b` must be replaced. */
  predicate Escapes(t: Table, b: Byte)
  {
    t.lut[b as int] < |t.escaped|
  }

  /** `ESCAPED[ESCAPE_LUT[b]]`. */
  function Replacement(t: Table, b: Byte): seq<Byte>
    requires Escapes(t, b)
  {
    t.escaped[t.lut[b as int]]
  }

  /** What a single byte becomes in the output. */
  function EscapeByte(t: Table, b: Byte): seq<Byte>
  {
    if Escapes(t, b) then Replacement(t, b) else [b]
  }

  /** The reference escape: every byte replaced in input order, one at a time. */
  function NaiveEscape(t: Table, s: seq<Byte>): seq<Byte>
  {
    if s == [] then [] else NaiveEscape(t, s[..|s| - 1]) + EscapeByte(t, s[|s| - 1])
  }

  /** The side condition the bit trick depends on: no byte the table escapes is missed by the
      candidate test, so a byte outside the candidate set can be copied without a lookup. */
  ghost predicate CandidatesCover(t: Table)
  {
    forall b: Byte :: Escapes(t, b) ==> IsCandidate(b)
  }

  /** The reference escape is a homomorphism: escaping a concatenation escapes each part in
      order, so no byte is lost, duplicated or reordered across a split point. */
  lemma {:induction false} NaiveEscapeAppend(t: Table, a: seq<Byte>, b: seq<Byte>)
    ensures NaiveEscape(t, a + b) == NaiveEscape(t, a) + NaiveEscape(t, b)
  {
    if b == [] {
      assert a + b == a;
    } else {
      var n := |b| - 1;
      assert (a + b)[..|a + b| - 1] == a + b[..n];
      NaiveEscapeAppend(t, a, b[..n]);
    }
  }

  /** Input in which the table escapes nothing comes out unchanged. */
  lemma {:induction false} NaiveEscapeVerbatim(t: Table, s: seq<Byte>)
    requires forall k :: 0 <= k < |s| ==> !Escapes(t, s[k])
    ensures NaiveEscape(t, s) == s
  {
    if s != [] {
      var n := |s| - 1;
      NaiveEscapeVerbatim(t, s[..n]);
      assert s[..n] + [s[n]] == s;
    }
  }

  /** Input with no candidate byte comes out unchanged, given the side condition: the
      bit-trick prefilter alone justifies copying a run verbatim. */
  lemma NaiveEscapeNoCandidates(t: Table, s: seq<Byte>)
    requires CandidatesCover(t)
    requires forall k :: 0 <= k < |s| ==> !IsCandidate(s[k])
    ensures NaiveEscape(t, s) == s
  {
    NaiveEscapeVerbatim(t, s);
  }

  /** A one-byte input comes out as its replacement when the table escapes it, and as itself
      otherwise. */
  lemma NaiveEscapeSingle(t: Table, b: Byte)
    ensures Escapes(t, b) ==> NaiveEscape(t, [b]) == Replacement(t, b)
    ensures !Escapes(t, b) ==> NaiveEscape(t, [b]) == [b]
  {
    assert [b][..0] == [];
  }

  /** One escape point: when nothing in `s[start..p]` is escaped and `s[p]` is, the escape of
      `s[..p + 1]` is that of `s[..start]`, then the verbatim run `s[start..p]`, then the
      replacement of `s[p]` — the flush-then-replace order of the scanner. */
  lemma EscapePoint(t: Table, s: seq<Byte>, start: nat, p: nat)
    requires start <= p < |s|
    requires forall k :: start <= k < p ==> !Escapes(t, s[k])
    requires Escapes(t, s[p])
    ensures NaiveEscape(t, s[..p + 1])
         == NaiveEscape(t, s[..start]) + s[start..p] + Replacement(t, s[p])
  {
    assert s[..p + 1] == s[..start] + s[start..p] + [s[p]];
    NaiveEscapeAppend(t, s[..start] + s[start..p], [s[p]]);
    NaiveEscapeAppend(t, s[..start], s[start..p]);
    NaiveEscapeVerbatim(t, s[start..p]);
    NaiveEscapeSingle(t, s[p]);
  }

  /** The final flush: when nothing from `start` on is escaped, the escape of the whole input
      is that of `s[..start]` followed by the rest verbatim. */
  lemma EscapeRest(t: Table, s: seq<Byte>, start: nat)
    requires start <= |s|
    requires forall k :: start <= k < |s| ==> !Escapes(t, s[k])
    ensures NaiveEscape(t, s) == NaiveEscape(t, s[..start]) + s[start..]
  {
    assert s == s[..start] + s[start..];
    NaiveEscapeAppend(t, s[..start], s[start..]);
    NaiveEscapeVerbatim(t, s[start..]);
  }
}
