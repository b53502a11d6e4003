/** The identifier range set (QuadRanges): a sorted list of (start, length)
    intervals over the 32-bit id space [0, 2^32 - 1). The top value
    2^32 - 1 is never covered, so that start + length always fits in 32 bits. */
module Ranges {
  import opened Wrappers
  import opened Strings

  const UINT32_MAX: int := 0xFFFF_FFFF
  const TWO_TO_32: int := 0x1_0000_0000

  type u32 = x: int | 0 <= x <= UINT32_MAX

  datatype Range = Range(start: u32, length: u32)

  function End(r: Range): int {
    r.start + r.length
  }

  predicate InRange(r: Range, x: int) {
    r.start <= x < End(r)
  }

  /** A stored interval is non-empty and stays below the reserved top value. */
  predicate WellFormed(r: Range) {
    r.length > 0 && End(r) <= UINT32_MAX
  }

  /** The representation invariant: well-formed intervals, sorted by start and
      pairwise non-overlapping. Touching intervals are allowed: the add
      operation does not always merge them. */
  predicate Valid(rs: seq<Range>)
    decreases |rs|
  {
    |rs| == 0 ||
    (WellFormed(rs[0]) && (|rs| == 1 || End(rs[0]) <= rs[1].start) && Valid(rs[1..]))
  }

  /** x is an element of the set the intervals denote. */
  predicate Covers(rs: seq<Range>, x: int)
    decreases |rs|
  {
    |rs| > 0 && (InRange(rs[0], x) || Covers(rs[1..], x))
  }

  // ---------------------------------------------------------------------
  // Structural facts about Valid and Covers
  // ---------------------------------------------------------------------

  lemma ValidCons(a: Range, rs: seq<Range>)
    requires WellFormed(a) && Valid(rs)
    requires |rs| > 0 ==> End(a) <= rs[0].start
    ensures Valid([a] + rs)
  {
    assert ([a] + rs)[1..] == rs;
  }

  lemma CoversCons(a: Range, rs: seq<Range>, x: int)
    ensures Covers([a] + rs, x) <==> InRange(a, x) || Covers(rs, x)
  {
    assert ([a] + rs)[1..] == rs;
  }

  lemma {:induction false} CoversConcat(a: seq<Range>, b: seq<Range>, x: int)
    ensures Covers(a + b, x) <==> Covers(a, x) || Covers(b, x)
    decreases |a|
  {
    if |a| > 0 {
      CoversConcat(a[1..], b, x);
      assert (a + b)[1..] == a[1..] + b;
    } else {
      assert a + b == b;
    }
  }

  /** Every covered point of a valid set lies at or after its first start and below the top value. */
  lemma {:induction false} CoversBounds(rs: seq<Range>, x: int)
    requires Valid(rs) && Covers(rs, x)
    ensures rs[0].start <= x < UINT32_MAX
    decreases |rs|
  {
    if !InRange(rs[0], x) {
      CoversBounds(rs[1..], x);
    }
  }

  lemma {:induction false} ValidConcat(a: seq<Range>, b: seq<Range>)
    requires Valid(a) && Valid(b)
    requires |a| > 0 && |b| > 0 ==> End(a[|a| - 1]) <= b[0].start
    ensures Valid(a + b)
    decreases |a|
  {
    if |a| == 0 {
      assert a + b == b;
    } else {
      ValidConcat(a[1..], b);
      assert a + b == [a[0]] + (a[1..] + b);
      if |a| == 1 {
        ValidCons(a[0], b);
      } else {
        ValidCons(a[0], a[1..] + b);
      }
    }
  }

  // ---------------------------------------------------------------------
  // quad_ranges_new_empty / quad_ranges_new / quad_ranges_copy
  // ---------------------------------------------------------------------

  function NewEmpty(): (r: seq<Range>)
    ensures Valid(r) && forall x :: !Covers(r, x)
  {
    []
  }

  /** quad_ranges_new: the empty set with one interval added. */
  function New(start: u32, length: u32): (r: seq<Range>)
    ensures Valid(r)
    ensures forall x :: Covers(r, x) <==> start <= x < start + length && x < UINT32_MAX
  {
    Add([], start, length)
  }

  /** quad_ranges_copy: a value copy. */
  function Copy(rs: seq<Range>): (r: seq<Range>)
    ensures |r| == |rs| && forall i :: 0 <= i < |rs| ==> r[i] == rs[i]
  {
    rs
  }

  // ---------------------------------------------------------------------
  // quad_ranges_add
  // ---------------------------------------------------------------------

  /** The chain merge after extending the current interval: absorb every
      following interval that starts strictly before the current end. An
      interval that starts exactly at the end is left alone. */
  function MergeChain(cur: Range, rest: seq<Range>): seq<Range>
    requires WellFormed(cur) && Valid(rest)
    decreases |rest|
  {
    if |rest| > 0 && rest[0].start < End(cur) then
      var newEnd := if End(cur) >= End(rest[0]) then End(cur) else End(rest[0]);
      MergeChain(Range(cur.start, newEnd - cur.start), rest[1..])
    else
      [cur] + rest
  }

  /** The loop of quad_ranges_add, from the current interval rs[0] onwards,
      once start/length have been clamped so that start + length <= 2^32 - 1.
      An interval that is not touched is kept, and the loop moves on. */
  function AddTo(rs: seq<Range>, start: int, length: int): seq<Range>
    requires Valid(rs)
    requires 0 <= start && 0 < length && start + length <= UINT32_MAX
    decreases |rs|
  {
    if |rs| == 0 then
      [Range(start, length)]
    else
      var c := rs[0];
      if start < c.start && start + length < c.start then
        // entirely before the current interval: insert it here
        [Range(start, length)] + rs
      else
        // if it starts before, extend the current interval backwards
        var cur := if start < c.start then Range(start, End(c) - start) else c;
        var s1 := if start < c.start then c.start else start;
        var l1 := if start < c.start then length - (c.start - start) else length;
        if start < c.start && l1 == 0 then
          [cur] + rs[1..]
        else if cur.start <= s1 < End(cur) && s1 + l1 <= End(cur) then
          // fully inside the current interval
          [cur] + rs[1..]
        else
          // drop the part that overlaps the current interval
          var s2 := if cur.start <= s1 < End(cur) then End(cur) else s1;
          var l2 := if cur.start <= s1 < End(cur) then l1 - (End(cur) - s1) else l1;
          if s2 == End(cur) then
            MergeChain(Range(cur.start, cur.length + l2), rs[1..])
          else
            [cur] + AddTo(rs[1..], s2, l2)
  }

  /** quad_ranges_add: a no-op for an empty span or start == 2^32 - 1;
      otherwise the span is clamped to end at 2^32 - 1 and inserted,
      merging with the intervals it overlaps or touches. */
  function Add(rs: seq<Range>, start: u32, length: u32): (r: seq<Range>)
    requires Valid(rs)
    ensures Valid(r)
    ensures length == 0 || start == UINT32_MAX ==> r == rs
    ensures forall x :: Covers(r, x) <==> Covers(rs, x) || (start <= x < start + length && x < UINT32_MAX)
  {
    if length == 0 then rs
    else if start == UINT32_MAX then rs
    else
      var len := if length <= UINT32_MAX - start then length else UINT32_MAX - start;
      AddToValid(rs, start, len);
      AddToCovers(rs, start, len);
      AddTo(rs, start, len)
  }

  lemma {:induction false} MergeChainSpec(cur: Range, rest: seq<Range>)
    requires WellFormed(cur) && Valid(rest)
    requires |rest| > 0 ==> cur.start < rest[0].start
    ensures var r := MergeChain(cur, rest);
      && Valid(r) && |r| > 0 && r[0].start == cur.start
      && forall x :: Covers(r, x) <==> InRange(cur, x) || Covers(rest, x)
    decreases |rest|
  {
    if |rest| > 0 && rest[0].start < End(cur) {
      var newEnd := if End(cur) >= End(rest[0]) then End(cur) else End(rest[0]);
      var cur' := Range(cur.start, newEnd - cur.start);
      MergeChainSpec(cur', rest[1..]);
      forall x
        ensures Covers(rest, x) <==> InRange(rest[0], x) || Covers(rest[1..], x)
      {
      }
    } else {
      ValidCons(cur, rest);
      forall x
        ensures Covers([cur] + rest, x) <==> InRange(cur, x) || Covers(rest, x)
      {
        CoversCons(cur, rest, x);
      }
    }
  }

  lemma CoversConsAll(a: Range, rs: seq<Range>)
    ensures forall x :: Covers([a] + rs, x) <==> InRange(a, x) || Covers(rs, x)
  {
    assert ([a] + rs)[1..] == rs;
  }

  lemma CoversTail(rs: seq<Range>)
    requires |rs| > 0
    ensures forall x :: Covers(rs, x) <==> InRange(rs[0], x) || Covers(rs[1..], x)
  {
  }

  /** AddTo keeps the list valid, and its first interval starts at the
      lower of the new span's start and the old first start. */
  lemma {:induction false} AddToValid(rs: seq<Range>, start: int, length: int)
    requires Valid(rs)
    requires 0 <= start && 0 < length && start + length <= UINT32_MAX
    ensures var r := AddTo(rs, start, length);
      && Valid(r) && |r| > 0
      && r[0].start == (if |rs| > 0 && rs[0].start < start then rs[0].start else start)
    decreases |rs|
  {
    if |rs| == 0 {
      assert AddTo(rs, start, length) == [Range(start, length)] + [];
    } else {
      var c := rs[0];
      var rest := rs[1..];
      if start < c.start && start + length < c.start {
        assert AddTo(rs, start, length) == [Range(start, length)] + rs;
        ValidCons(Range(start, length), rs);
      } else {
        var cur := if start < c.start then Range(start, End(c) - start) else c;
        var s1 := if start < c.start then c.start else start;
        var l1 := if start < c.start then length - (c.start - start) else length;
        if (start < c.start && l1 == 0) || (cur.start <= s1 < End(cur) && s1 + l1 <= End(cur)) {
          assert AddTo(rs, start, length) == [cur] + rest;
          ValidCons(cur, rest);
        } else {
          var s2 := if cur.start <= s1 < End(cur) then End(cur) else s1;
          var l2 := if cur.start <= s1 < End(cur) then l1 - (End(cur) - s1) else l1;
          if s2 == End(cur) {
            var merged := Range(cur.start, cur.length + l2);
            assert AddTo(rs, start, length) == MergeChain(merged, rest);
            MergeChainSpec(merged, rest);
          } else {
            assert cur == c && s2 == start && l2 == length;
            AddToValid(rest, s2, l2);
            var tail := AddTo(rest, s2, l2);
            assert AddTo(rs, start, length) == [cur] + tail;
            ValidCons(cur, tail);
          }
        }
      }
    }
  }

  /** AddTo covers exactly the old ids and the new span. */
  lemma {:induction false} AddToCovers(rs: seq<Range>, start: int, length: int)
    requires Valid(rs)
    requires 0 <= start && 0 < length && start + length <= UINT32_MAX
    ensures forall x :: Covers(AddTo(rs, start, length), x) <==> Covers(rs, x) || start <= x < start + length
    decreases |rs|
  {
    if |rs| == 0 {
      assert AddTo(rs, start, length) == [Range(start, length)] + [];
      CoversConsAll(Range(start, length), []);
    } else {
      var c := rs[0];
      var rest := rs[1..];
      CoversTail(rs);
      if start < c.start && start + length < c.start {
        assert AddTo(rs, start, length) == [Range(start, length)] + rs;
        CoversConsAll(Range(start, length), rs);
      } else {
        var cur := if start < c.start then Range(start, End(c) - start) else c;
        var s1 := if start < c.start then c.start else start;
        var l1 := if start < c.start then length - (c.start - start) else length;
        if (start < c.start && l1 == 0) || (cur.start <= s1 < End(cur) && s1 + l1 <= End(cur)) {
          assert AddTo(rs, start, length) == [cur] + rest;
          assert forall x :: InRange(cur, x) <==> InRange(c, x) || start <= x < start + length;
          CoversConsAll(cur, rest);
        } else {
          var s2 := if cur.start <= s1 < End(cur) then End(cur) else s1;
          var l2 := if cur.start <= s1 < End(cur) then l1 - (End(cur) - s1) else l1;
          if s2 == End(cur) {
            var merged := Range(cur.start, cur.length + l2);
            assert AddTo(rs, start, length) == MergeChain(merged, rest);
            assert forall x :: InRange(merged, x) <==> InRange(c, x) || start <= x < start + length;
            MergeChainSpec(merged, rest);
          } else {
            assert cur == c && s2 == start && l2 == length;
            AddToCovers(rest, s2, l2);
            var tail := AddTo(rest, s2, l2);
            assert AddTo(rs, start, length) == [cur] + tail;
            CoversConsAll(cur, tail);
          }
        }
      }
    }
  }

  // ---------------------------------------------------------------------
  // quad_ranges_remove
  // ---------------------------------------------------------------------

  /** What quad_ranges_remove does to one interval: drop it, split it, trim
      either edge, or keep it. end is the 32-bit start + length. */
  function RemovePiece(cur: Range, start: int, end: int): seq<Range>
    requires 0 <= start && 0 <= end
    requires WellFormed(cur)
  {
    var cs := cur.start;
    var ce := cur.start + cur.length;
    if end > cs && start < ce then
      var atStart := if start > cs then start - cs else 0;
      var atEnd := if end < ce then ce - end else 0;
      if atStart == 0 && atEnd == 0 then []
      else if atStart != 0 && atEnd != 0 then [Range(cs, atStart), Range(ce - atEnd, atEnd)]
      else if atStart != 0 then [Range(cs, atStart)]
      else [Range(ce - atEnd, atEnd)]
    else
      [cur]
  }

  /** Each original interval is visited exactly once by the loop (the index
      adjustments skip the piece a split inserts and revisit the slot a
      deletion frees), so the loop is a map over the intervals. */
  function RemoveEach(rs: seq<Range>, start: int, end: int): seq<Range>
    requires 0 <= start && 0 <= end && Valid(rs)
    decreases |rs|
  {
    if |rs| == 0 then [] else RemovePiece(rs[0], start, end) + RemoveEach(rs[1..], start, end)
  }

  /** quad_ranges_remove. The end of the removed span is computed in 32 bits,
      so it wraps when start + length exceeds 2^32 - 1. */
  function Remove(rs: seq<Range>, start: u32, length: u32): (r: seq<Range>)
    requires Valid(rs)
    ensures length == 0 ==> r == rs
  {
    if length == 0 then rs
    else RemoveEach(rs, start, (start + length) % TWO_TO_32)
  }

  lemma RemovePieceSpec(cur: Range, start: int, end: int)
    requires 0 <= start <= end && WellFormed(cur)
    ensures var p := RemovePiece(cur, start, end);
      && Valid(p)
      && (forall k :: 0 <= k < |p| ==> cur.start <= p[k].start && End(p[k]) <= End(cur))
      && forall x :: Covers(p, x) <==> InRange(cur, x) && !(start <= x < end)
  {
    var cs := cur.start;
    var ce := cur.start + cur.length;
    if end > cs && start < ce {
      var atStart := if start > cs then start - cs else 0;
      var atEnd := if end < ce then ce - end else 0;
      if atStart == 0 && atEnd == 0 {
      } else if atStart != 0 && atEnd != 0 {
        var left, right := Range(cs, atStart), Range(ce - atEnd, atEnd);
        ValidCons(right, []);
        ValidCons(left, [right]);
        CoversConsAll(right, []);
        assert [right] + [] == [right];
        CoversConsAll(left, [right]);
        assert [left] + [right] == [left, right];
      } else if atStart != 0 {
        CoversConsAll(Range(cs, atStart), []);
        assert [Range(cs, atStart)] + [] == [Range(cs, atStart)];
      } else {
        CoversConsAll(Range(ce - atEnd, atEnd), []);
        assert [Range(ce - atEnd, atEnd)] + [] == [Range(ce - atEnd, atEnd)];
      }
    } else {
      CoversConsAll(cur, []);
      assert [cur] + [] == [cur];
    }
  }

  lemma {:induction false} RemoveEachSpec(rs: seq<Range>, start: int, end: int)
    requires 0 <= start <= end && Valid(rs)
    ensures var r := RemoveEach(rs, start, end);
      && Valid(r)
      && (|r| > 0 ==> rs[0].start <= r[0].start)
      && forall x :: Covers(r, x) <==> Covers(rs, x) && !(start <= x < end)
    decreases |rs|
  {
    if |rs| > 0 {
      var p := RemovePiece(rs[0], start, end);
      var t := RemoveEach(rs[1..], start, end);
      RemovePieceSpec(rs[0], start, end);
      RemoveEachSpec(rs[1..], start, end);
      if |p| > 0 && |t| > 0 {
        assert End(p[|p| - 1]) <= End(rs[0]) <= rs[1].start <= t[0].start;
      }
      ValidConcat(p, t);
      forall x
        ensures Covers(p + t, x) <==> Covers(rs, x) && !(start <= x < end)
      {
        CoversConcat(p, t, x);
      }
      if |p| == 0 && |t| > 0 {
        assert (p + t)[0] == t[0];
      }
    }
  }

  /** quad_ranges_remove, when start + length does not wrap: exactly the
      removed span is taken out of the set, and the result stays valid. */
  lemma RemoveSpec(rs: seq<Range>, start: u32, length: u32)
    requires Valid(rs)
    requires start + length <= UINT32_MAX
    ensures Valid(Remove(rs, start, length))
    ensures forall x :: Covers(Remove(rs, start, length), x) <==> Covers(rs, x) && !(start <= x < start + length)
  {
    if length > 0 {
      RemoveEachSpec(rs, start, start + length);
    }
  }

  /** quad_ranges_remove with the end of the span computed without 32-bit
      wrap-around; it agrees with Remove whenever start + length fits. */
  function RemoveClamped(rs: seq<Range>, start: u32, length: u32): seq<Range>
    requires Valid(rs)
  {
    if length == 0 then rs else RemoveEach(rs, start, start + length)
  }

  /** The corrected removal takes out exactly the span, whatever its length,
      and keeps the set valid. */
  lemma RemoveClampedSpec(rs: seq<Range>, start: u32, length: u32)
    requires Valid(rs)
    ensures Valid(RemoveClamped(rs, start, length))
    ensures forall x :: Covers(RemoveClamped(rs, start, length), x) <==> Covers(rs, x) && !(start <= x < start + length)
  {
    if length > 0 {
      RemoveEachSpec(rs, start, start + length);
    }
  }

  lemma RemoveAgreement(rs: seq<Range>, start: u32, length: u32)
    requires Valid(rs) && start + length <= UINT32_MAX
    ensures RemoveClamped(rs, start, length) == Remove(rs, start, length)
  {
  }

  /** With a wrapping span the as-written removal leaves two overlapping
      intervals: removing everything from 5 upwards out of [0, 10) gives
      [0, 5) and [4, 10). */
  lemma RemoveWrapBreaksValid()
    ensures Remove([Range(0, 10)], 5, UINT32_MAX) == [Range(0, 5), Range(4, 6)]
    ensures !Valid(Remove([Range(0, 10)], 5, UINT32_MAX))
    ensures RemoveClamped([Range(0, 10)], 5, UINT32_MAX) == [Range(0, 5)]
  {
    assert RemovePiece(Range(0, 10), 5, 4) == [Range(0, 5), Range(4, 6)];
    assert RemoveEach([Range(0, 10)], 5, 4) == [Range(0, 5), Range(4, 6)] + RemoveEach([], 5, 4);
    assert RemovePiece(Range(0, 10), 5, 5 + UINT32_MAX) == [Range(0, 5)];
    assert RemoveEach([Range(0, 10)], 5, 5 + UINT32_MAX) == [Range(0, 5)] + RemoveEach([], 5, 5 + UINT32_MAX);
  }

  /** Intervals lying wholly at or after the end of the removed span are kept as they are. */
  lemma {:induction false} RemoveEachUntouched(rs: seq<Range>, start: int, end: int)
    requires 0 <= start && 0 <= end && Valid(rs)
    requires |rs| > 0 ==> end <= rs[0].start
    ensures RemoveEach(rs, start, end) == rs
    decreases |rs|
  {
    if |rs| > 0 {
      RemoveEachUntouched(rs[1..], start, end);
      assert [rs[0]] + rs[1..] == rs;
    }
  }

  lemma RemovePieceFront(h: Range, n: int)
    requires WellFormed(h) && 0 < n <= h.length
    ensures RemovePiece(h, h.start, h.start + n) ==
      (if n < h.length then [Range(h.start + n, h.length - n)] else [])
  {
  }

  /** Taking n ids off the front of the first interval. */
  lemma RemoveFront(rs: seq<Range>, n: int)
    requires Valid(rs) && |rs| > 0 && 0 < n <= rs[0].length
    ensures RemoveClamped(rs, rs[0].start, n) ==
      (if n < rs[0].length then [Range(rs[0].start + n, rs[0].length - n)] else []) + rs[1..]
  {
    var h := rs[0];
    var e := h.start + n;
    assert RemoveClamped(rs, h.start, n) == RemoveEach(rs, h.start, e);
    assert RemoveEach(rs, h.start, e) == RemovePiece(h, h.start, e) + RemoveEach(rs[1..], h.start, e);
    RemoveEachUntouched(rs[1..], h.start, e);
    RemovePieceFront(h, n);
  }

  lemma SumLengthsCons(a: Range, rs: seq<Range>)
    ensures SumLengths([a] + rs) == a.length + SumLengths(rs)
  {
    assert ([a] + rs)[1..] == rs;
  }

  lemma SumLengthsZero(rs: seq<Range>)
    requires Valid(rs) && SumLengths(rs) == 0
    ensures |rs| == 0
  {
  }

  // ---------------------------------------------------------------------
  // quad_ranges_merge / quad_ranges_length
  // ---------------------------------------------------------------------

  /** quad_ranges_merge: add every interval of other, in order. */
  function Merge(rs: seq<Range>, other: seq<Range>): (r: seq<Range>)
    requires Valid(rs)
    ensures Valid(r)
    decreases |other|
  {
    if |other| == 0 then rs
    else Merge(Add(rs, other[0].start, other[0].length), other[1..])
  }

  lemma {:induction false} MergeSpec(rs: seq<Range>, other: seq<Range>)
    requires Valid(rs) && Valid(other)
    ensures forall x :: Covers(Merge(rs, other), x) <==> Covers(rs, x) || Covers(other, x)
    decreases |other|
  {
    if |other| > 0 {
      var a := Add(rs, other[0].start, other[0].length);
      MergeSpec(a, other[1..]);
    }
  }

  function SumLengths(rs: seq<Range>): nat
  {
    if |rs| == 0 then 0 else rs[0].length + SumLengths(rs[1..])
  }

  /** quad_ranges_length: the lengths summed in a 32-bit accumulator. */
  function Length(rs: seq<Range>): (n: u32)
    requires Valid(rs)
    ensures n == SumLengths(rs)
    ensures |rs| > 0 ==> rs[0].start + n <= End(rs[|rs| - 1])
  {
    SumLengthsBound(rs);
    SumLengths(rs) % TWO_TO_32
  }

  /** The total of a valid set fits between its first start and its last end,
      so the 32-bit accumulator of quad_ranges_length never wraps. */
  lemma {:induction false} SumLengthsBound(rs: seq<Range>)
    requires Valid(rs)
    ensures |rs| > 0 ==> rs[0].start + SumLengths(rs) <= End(rs[|rs| - 1]) <= UINT32_MAX
    decreases |rs|
  {
    if |rs| > 1 {
      SumLengthsBound(rs[1..]);
      assert rs[1..][|rs| - 2] == rs[|rs| - 1];
    }
  }

  // ---------------------------------------------------------------------
  // quad_ranges_parse
  // ---------------------------------------------------------------------

  const LLONG_MIN: int := -0x8000_0000_0000_0000
  const LLONG_MAX: int := 0x7FFF_FFFF_FFFF_FFFF

  /** strtoll(s, NULL, 10) clamped into [0, 2^32 - 1]. */
  function ParseId(s: string): (v: u32)
  {
    Clamp(Clamp(ScanInteger(s).value, LLONG_MIN, LLONG_MAX), 0, UINT32_MAX)
  }

  /** The span one comma-separated token denotes: "N-M" is N..M inclusive,
      "N" and "N-" run to the top of the domain; None when end < start. */
  datatype Span = Span(start: u32, length: u32)

  function ParseToken(tok: string): (r: Option<Span>)
  {
    var dash := IndexOf(tok, '-');
    var startText := if dash >= 0 then tok[..dash] else tok;
    var endText := if dash >= 0 then tok[dash + 1..] else "";
    var start := ParseId(startText);
    var end := if endText == "" then UINT32_MAX else ParseId(endText);
    if end >= start then
      Some(Span(start, if end - start + 1 <= UINT32_MAX then end - start + 1 else UINT32_MAX))
    else
      None
  }

  function AddTokens(rs: seq<Range>, toks: seq<string>): (r: seq<Range>)
    requires Valid(rs)
    ensures Valid(r)
    decreases |toks|
  {
    if |toks| == 0 then rs
    else
      var sp := ParseToken(toks[0]);
      var rs' := if sp.Some? then Add(rs, sp.value.start, sp.value.length) else rs;
      AddTokens(rs', toks[1..])
  }

  /** quad_ranges_parse. g_strsplit returns no token at all for the empty string. */
  function Parse(text: string): (r: seq<Range>)
    ensures Valid(r)
  {
    if text == "" then [] else AddTokens([], SplitOn(text, ','))
  }

  /** The points a parsed token contributes. */
  predicate TokenCovers(tok: string, x: int) {
    var sp := ParseToken(tok);
    sp.Some? && sp.value.start <= x < sp.value.start + sp.value.length && x < UINT32_MAX
  }

  predicate TokensCover(toks: seq<string>, x: int)
    decreases |toks|
  {
    |toks| > 0 && (TokenCovers(toks[0], x) || TokensCover(toks[1..], x))
  }

  lemma {:induction false} AddTokensSpec(rs: seq<Range>, toks: seq<string>)
    requires Valid(rs)
    ensures forall x :: Covers(AddTokens(rs, toks), x) <==> Covers(rs, x) || TokensCover(toks, x)
    decreases |toks|
  {
    if |toks| > 0 {
      var sp := ParseToken(toks[0]);
      var rs' := if sp.Some? then Add(rs, sp.value.start, sp.value.length) else rs;
      AddTokensSpec(rs', toks[1..]);
    }
  }

  /** The parsed set covers exactly the union of the spans of the comma-separated tokens. */
  lemma ParseSpec(text: string)
    requires text != ""
    ensures forall x :: Covers(Parse(text), x) <==> TokensCover(SplitOn(text, ','), x)
  {
    AddTokensSpec([], SplitOn(text, ','));
  }

  /** A text without a comma is a single token. */
  lemma ParseSingleToken(tok: string)
    requires tok != "" && ',' !in tok
    ensures forall x :: Covers(Parse(tok), x) <==> TokenCovers(tok, x)
  {
    SplitOnNone(tok, ',');
    ParseSpec(tok);
    TokensCoverOne(tok);
  }

  lemma SplitOnNone(s: string, sep: char)
    requires sep !in s
    ensures SplitOn(s, sep) == [s]
  {
    assert IndexOf(s, sep) == -1;
  }

  lemma TokensCoverOne(tok: string)
    ensures forall x :: TokensCover([tok], x) <==> TokenCovers(tok, x)
  {
    assert [tok][1..] == [];
  }

  /** A printed id is digits only, and reads back as itself. */
  lemma PrintedId(n: int)
    requires 0 <= n <= UINT32_MAX
    ensures forall k :: 0 <= k < |IntToString(n)| ==> IsDigit(IntToString(n)[k])
    ensures ParseId(IntToString(n)) == n
  {
    IntToStringScan(n);
  }

  /** "N-M" with N <= M below the top value covers exactly N through M. */
  lemma ParseClosedSpan(n: int, m: int)
    requires 0 <= n <= m < UINT32_MAX
    ensures forall x :: Covers(Parse(IntToString(n) + "-" + IntToString(m)), x) <==> n <= x <= m
  {
    var tok := IntToString(n) + "-" + IntToString(m);
    ClosedToken(n, m, tok);
    ParseSingleToken(tok);
  }

  /** The token "N-M" denotes the span from N of length M - N + 1. */
  lemma ClosedToken(n: int, m: int, tok: string)
    requires 0 <= n <= m < UINT32_MAX && tok == IntToString(n) + "-" + IntToString(m)
    ensures tok != "" && ',' !in tok
    ensures ParseToken(tok) == Some(Span(n, m - n + 1))
  {
    var a := IntToString(n);
    var b := IntToString(m);
    PrintedId(n);
    PrintedId(m);
    assert tok == a + ['-'] + b;
    DashToken(a, b, tok);
    DigitsNoComma(a, b, tok);
  }

  /** A token with a dash: the text before it is the start, the text after
      it the end, and an empty end means the top of the domain. */
  lemma DashToken(a: string, b: string, tok: string)
    requires '-' !in a && tok == a + ['-'] + b
    ensures var start := ParseId(a);
      var end := if b == "" then UINT32_MAX else ParseId(b);
      ParseToken(tok) == if end >= start
        then Some(Span(start, if end - start + 1 <= UINT32_MAX then end - start + 1 else UINT32_MAX))
        else None
  {
    IndexOfAfterFree(a, '-', b);
    assert tok[..|a|] == a && tok[|a| + 1..] == b;
  }

  /** Two numbers printed around a dash hold no comma. */
  lemma DigitsNoComma(a: string, b: string, tok: string)
    requires forall k :: 0 <= k < |a| ==> IsDigit(a[k])
    requires forall k :: 0 <= k < |b| ==> IsDigit(b[k])
    requires tok == a + ['-'] + b
    ensures tok != "" && ',' !in tok
  {
    assert forall k :: 0 <= k < |tok| ==> tok[k] == '-' || IsDigit(tok[k]);
  }

  /** "N" alone runs from N to the top of the domain. */
  lemma ParseOpenSpan(n: int)
    requires 0 <= n < UINT32_MAX
    ensures forall x :: Covers(Parse(IntToString(n)), x) <==> n <= x < UINT32_MAX
  {
    var a := IntToString(n);
    PrintedId(n);
    assert IndexOf(a, '-') == -1;
    assert ParseToken(a).Some? && ParseToken(a).value.start == n;
    ParseSingleToken(a);
  }

  /** "N-" with nothing after the dash also runs to the top of the domain. */
  lemma ParseOpenDash(n: int)
    requires 0 <= n < UINT32_MAX
    ensures forall x :: Covers(Parse(IntToString(n) + "-"), x) <==> n <= x < UINT32_MAX
  {
    var a := IntToString(n);
    var tok := a + "-";
    PrintedId(n);
    assert tok == a + ['-'] + "";
    DashToken(a, "", tok);
    DigitsNoComma(a, "", tok);
    ParseSingleToken(tok);
  }


  // ---------------------------------------------------------------------
  // Worked cases of the range tests
  // ---------------------------------------------------------------------

  lemma AddSingleCases()
    ensures New(17, 42) == [Range(17, 42)]
    ensures Add(New(10, 10), 0, 9) == [Range(0, 9), Range(10, 10)]
    ensures Add(New(10, 10), 0, 10) == [Range(0, 20)]
    ensures Add(New(10, 10), 0, 19) == [Range(0, 20)]
    ensures Add(New(10, 10), 0, 30) == [Range(0, 30)]
    ensures Add(New(10, 10), 12, 5) == [Range(10, 10)]
    ensures Add(New(10, 10), 15, 10) == [Range(10, 15)]
    ensures Add(New(10, 10), 20, 10) == [Range(10, 20)]
    ensures Add(New(10, 10), 21, 10) == [Range(10, 10), Range(21, 10)]
  {
  }

  /** Disjoint spans are kept apart, in order. */
  lemma AddMultiCases()
    ensures Add(Add(New(10, 10), 50, 10), 30, 10) == [Range(10, 10), Range(30, 10), Range(50, 10)]
    ensures Add([Range(10, 10), Range(30, 10), Range(50, 10)], 0, 100) == [Range(0, 100)]
  {
  }

  /** A span overlapping one interval of several extends just that one. */
  lemma AddOverlapCases()
    ensures Add([Range(10, 10), Range(30, 10), Range(50, 10)], 25, 10) == [Range(10, 10), Range(25, 15), Range(50, 10)]
    ensures Add([Range(10, 10), Range(30, 10), Range(50, 10)], 45, 10) == [Range(10, 10), Range(30, 10), Range(45, 15)]
  {
  }

  /** Filling the gap between two intervals exactly extends the first one up
      to the second, but the chain merge only absorbs intervals that start
      strictly before the new end, so the two touching intervals stay apart. */
  lemma AddKeepsTouching()
    ensures Add([Range(0, 5), Range(10, 5)], 5, 5) == [Range(0, 10), Range(10, 5)]
  {
  }

  lemma ParseEmpty()
    ensures Parse("") == []
  {
  }

  /** A missing start reads as 0. */
  lemma ParseMissingStart()
    ensures Parse("-5") == [Range(0, 6)]
  {
    assert ParseToken("-5") == Some(Span(0, 6)) by {
      assert "-5"[..0] == "" && "-5"[1..] == "5";
      assert ScanInteger("5").value == 5 by { assert "5"[..1] == "5"; }
    }
    assert SplitOn("-5", ',') == ["-5"];
  }

  /** A reversed span is ignored. */
  lemma ParseReversed()
    ensures Parse("7-3") == []
  {
    ParseTokenReversed();
    assert SplitOn("7-3", ',') == ["7-3"];
  }

  lemma ParseTokenReversed()
    ensures ParseToken("7-3") == None
  {
    assert IndexOf("7-3", '-') == 1;
    assert "7-3"[..1] == "7" && "7-3"[2..] == "3";
    IntToStringScan(7);
    IntToStringScan(3);
    assert IntToString(7) == "7" && IntToString(3) == "3";
  }
}
