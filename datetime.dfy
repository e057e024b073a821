/**
 * The date/time extractor's entry points: Extract finds every date and
 * time expression in a text, Parse reads the first one. Both resolve the
 * expressions against a reference moment, the current time when the
 * caller passes the zero time.
 *
 * The recognising passes (numeric dates and clock times, month names,
 * weekdays, "saat N", relative expressions) are given as one function
 * from the reference moment to the candidates they find in the text; the
 * overlap resolution and the merging of a date beside a time are the
 * model's own.
 */
module Datetime {
  import Wrappers
  import GoInt
  import Unicode
  import Overlaps
  import opened Calendar
  import opened DatetimeTypes
  import opened DatetimePatterns

  /** The reference moment: the one given, or now when the zero time was passed. */
  function RefTime(ref: Wrappers.Option<Moment>, now: Moment): Moment {
    if ref.Some? then ref.value else now
  }

  /** The passes report slices of the text, whatever the reference. */
  ghost predicate Slices(s: string, passes: Moment -> seq<Result>) {
    forall t :: forall r :: r in passes(t) ==> SliceOf(r, s)
  }

  /** Whether the text is refused before any pass runs: empty, or longer than the byte limit. */
  predicate Refused(lim: Limits, s: string) {
    s == [] || Unicode.ByteLen(s) > lim.maxInputBytes
  }

  /** m is one of the candidates, or the merge of two of them. */
  ghost predicate FromCandidates(cands: seq<Result>, s: string, m: Result) {
    m in cands || exists a, b :: a in cands && b in cands && InText(a, s) && InText(b, s) && TryMerge(a, b, s) == Wrappers.Some(m)
  }

  /** r is extract's result on the candidates: some overlap resolution of them, merged pair by pair. */
  ghost predicate Extracted(lim: Limits, s: string, cands: seq<Result>, r: seq<Result>) {
    exists res :: Overlaps.Resolved(ResultOrder(lim), cands, res) && AllIn(res, s) && r == Merged(res, s, lim.maxMergeGap)
  }

  lemma AllSlicesIn(rs: seq<Result>, s: string)
    requires forall r :: r in rs ==> SliceOf(r, s)
    ensures AllIn(rs, s)
  {
  }

  /**
   * extract: nothing when the passes find nothing; otherwise the candidates
   * with overlaps resolved, then neighbouring dates and times merged. The
   * results are slices of the text, in order and apart, each a candidate or
   * the merge of two, and the first starts no later than any candidate.
   */
  method ExtractFrom(lim: Limits, s: string, cands: seq<Result>) returns (r: seq<Result>)
    requires ValidLimits(lim)
    requires forall c :: c in cands ==> SliceOf(c, s)
    ensures r == [] <==> cands == []
    ensures Ordered(r) && forall m :: m in r ==> SliceOf(m, s) && FromCandidates(cands, s, m)
    ensures r != [] ==> forall c :: c in cands ==> r[0].start <= c.start
    ensures cands != [] ==> Extracted(lim, s, cands, r)
  {
    if cands == [] {
      return [];
    }
    var resolved := ResolveOverlaps(lim, cands);
    ResolvedOrdered(lim, cands, resolved);
    AllSlicesIn(resolved, s);
    r := MergeAdjacent(resolved, s, lim.maxMergeGap);
    MergedFrom(resolved, s, lim.maxMergeGap);
    MergedOrdered(resolved, s, lim.maxMergeGap);
    MergedSlices(resolved, s, lim.maxMergeGap);
    forall m | m in r ensures FromCandidates(cands, s, m) {
      if m !in resolved {
        var j :| MergeOf(resolved, s, lim.maxMergeGap, j, m);
        assert resolved[j] in resolved && resolved[j + 1] in resolved;
      }
    }
    assert Overlaps.FirstEarliest(ResultOrder(lim), cands, resolved);
    assert Overlaps.Resolved(ResultOrder(lim), cands, resolved);
  }

  /**
   * Extract: nothing for an empty or oversized text, else what extract
   * finds against the reference moment.
   */
  method Extract(lim: Limits, s: string, ref: Wrappers.Option<Moment>, now: Moment,
                 passes: Moment -> seq<Result>) returns (r: seq<Result>)
    requires ValidLimits(lim) && Slices(s, passes)
    ensures Refused(lim, s) ==> r == []
    ensures !Refused(lim, s) ==> (r == [] <==> passes(RefTime(ref, now)) == [])
    ensures Ordered(r)
    ensures forall m :: m in r ==> SliceOf(m, s) && FromCandidates(passes(RefTime(ref, now)), s, m)
    ensures !Refused(lim, s) && passes(RefTime(ref, now)) != [] ==> Extracted(lim, s, passes(RefTime(ref, now)), r)
  {
    if s == [] || Unicode.ByteLen(s) > lim.maxInputBytes {
      return [];
    }
    var t := RefTime(ref, now);
    r := ExtractFrom(lim, s, passes(t));
  }

  /**
   * Parse: an error naming the empty input, the byte limit or the
   * unrecognised input; otherwise the first result, which starts no later
   * than any candidate and is one of them or the merge of two.
   */
  method Parse(lim: Limits, s: string, ref: Wrappers.Option<Moment>, now: Moment,
               passes: Moment -> seq<Result>) returns (r: Wrappers.Result<Result>)
    requires ValidLimits(lim) && Slices(s, passes)
    ensures s == [] ==> r == Wrappers.Err("datetime: empty input")
    ensures s != [] && Unicode.ByteLen(s) > lim.maxInputBytes ==>
      r == Wrappers.Err("datetime: input exceeds " + GoInt.FormatInt(lim.maxInputBytes) + " bytes")
    ensures !Refused(lim, s) && passes(RefTime(ref, now)) == [] ==> r == Wrappers.Err("datetime: unrecognized input")
    ensures !Refused(lim, s) && passes(RefTime(ref, now)) != [] ==>
      && r.Ok? && SliceOf(r.value, s)
      && FromCandidates(passes(RefTime(ref, now)), s, r.value)
      && (forall c :: c in passes(RefTime(ref, now)) ==> r.value.start <= c.start)
      && exists rs :: Extracted(lim, s, passes(RefTime(ref, now)), rs) && rs != [] && r.value == rs[0]
  {
    if s == [] {
      return Wrappers.Err("datetime: empty input");
    }
    if Unicode.ByteLen(s) > lim.maxInputBytes {
      return Wrappers.Err("datetime: input exceeds " + GoInt.FormatInt(lim.maxInputBytes) + " bytes");
    }
    var t := RefTime(ref, now);
    var results := ExtractFrom(lim, s, passes(t));
    if |results| == 0 {
      return Wrappers.Err("datetime: unrecognized input");
    }
    return Wrappers.Ok(results[0]);
  }
}
