/**
 * Entity recognition over the matches of the pattern set: URLs (with
 * trailing punctuation trimmed), e-mails (capped at 254 characters), IBANs,
 * licence plates, phones, FIN codes (labeled first, then bare ones that mix
 * letters and digits) and labeled VOEN codes, followed by overlap resolution.
 *
 * The regular expressions themselves are not modelled: each pattern's
 * matches enter as a list of [start, end) spans (for the labeled patterns,
 * the span of the captured code), in the order the matcher reports them.
 */
module NerPatterns {
  import opened NerEntity
  import Sorting
  import Overlaps

  /** A match of one pattern: the half-open rune range [start, end). */
  datatype Span = Span(start: int, end: int)

  /** The matches of every pattern over one input. */
  datatype Matches = Matches(
    urls: seq<Span>, emails: seq<Span>, ibans: seq<Span>, plates: seq<Span>,
    phonesIntl: seq<Span>, phonesLocal: seq<Span>,
    finLabeled: seq<Span>, finBare: seq<Span>, voenLabeled: seq<Span>)

  /** RFC 5321's limit on the length of an address. */
  const MaxEmailLen: int := 254
  /** The most entities one call returns. */
  const MaxEntities: int := 10000
  /** The runes trimmed from the right of a URL match. */
  const UrlCut: string := ".,;:!?)]}>"

  /** Every span is a non-empty range of s. */
  predicate SpansIn(ms: seq<Span>, s: string) {
    forall k :: 0 <= k < |ms| ==> 0 <= ms[k].start < ms[k].end <= |s|
  }

  /** What the patterns guarantee of their matches: spans inside s, and URL matches begin with "http". */
  predicate ValidMatches(s: string, m: Matches) {
    && SpansIn(m.urls, s) && SpansIn(m.emails, s) && SpansIn(m.ibans, s) && SpansIn(m.plates, s)
    && SpansIn(m.phonesIntl, s) && SpansIn(m.phonesLocal, s)
    && SpansIn(m.finLabeled, s) && SpansIn(m.finBare, s) && SpansIn(m.voenLabeled, s)
    && (forall k :: 0 <= k < |m.urls| ==> s[m.urls[k].start] == 'h')
  }

  /** An entity is a non-empty slice of s that carries its own text. */
  predicate SliceOf(e: Entity, s: string) {
    0 <= e.start < e.end <= |s| && e.text == s[e.start..e.end]
  }

  // ---------------------------------------------------------------------
  // The candidate entities of each pattern
  // ---------------------------------------------------------------------

  /** strings.TrimRight with a cut set: drop trailing runes that occur in cut. */
  function TrimRightAny(t: string, cut: string): (r: string)
    ensures r <= t
  {
    if t != [] && t[|t| - 1] in cut then TrimRightAny(t[..|t| - 1], cut) else t
  }

  /** The trimmed text ends in a rune outside cut, and everything trimmed was in cut. */
  lemma {:induction false} TrimRightAnyCut(t: string, cut: string)
    ensures var r := TrimRightAny(t, cut);
      && (r == [] || r[|r| - 1] !in cut)
      && (forall k :: |r| <= k < |t| ==> t[k] in cut)
  {
    if t != [] && t[|t| - 1] in cut {
      TrimRightAnyCut(t[..|t| - 1], cut);
    }
  }

  /** The entity of one URL match: the match trimmed of UrlCut, ending where the trimmed text ends. */
  function UrlEntity(s: string, m: Span): Entity
    requires 0 <= m.start < m.end <= |s|
  {
    var text := TrimRightAny(s[m.start..m.end], UrlCut);
    Entity(text, m.start, m.start + |text|, URL, false)
  }

  /** A URL entity is a non-empty slice of the match, and neither it nor its end carries a cut rune. */
  lemma UrlEntityShape(s: string, m: Span)
    requires 0 <= m.start < m.end <= |s| && s[m.start] == 'h'
    ensures var e := UrlEntity(s, m);
      && SliceOf(e, s) && e.end <= m.end
      && e.text[|e.text| - 1] !in UrlCut
      && (forall k :: e.end <= k < m.end ==> s[k] in UrlCut)
  {
    var t := s[m.start..m.end];
    var text := TrimRightAny(t, UrlCut);
    TrimRightAnyCut(t, UrlCut);
    assert t[0] == 'h' && 'h' !in UrlCut;
    assert text == t[..|text|];
    assert forall k :: m.start + |text| <= k < m.end ==> s[k] == t[k - m.start];
  }

  /** The plain entity of a match: the matched text with the given type and label flag. */
  function SpanEntity(s: string, m: Span, etype: int, labeled: bool): Entity
    requires 0 <= m.start < m.end <= |s|
  {
    Entity(s[m.start..m.end], m.start, m.end, etype, labeled)
  }

  /** The e-mail matches no longer than MaxEmailLen, as entities, in match order. */
  function EmailEntities(s: string, ms: seq<Span>): (r: seq<Entity>)
    requires SpansIn(ms, s)
    ensures |r| <= |ms|
  {
    if ms == [] then []
    else
      var m := ms[|ms| - 1];
      EmailEntities(s, ms[..|ms| - 1]) + (if m.end - m.start > MaxEmailLen then [] else [SpanEntity(s, m, Email, false)])
  }

  /** An e-mail entity is a slice of s no longer than the cap, and every match within the cap yields one. */
  lemma {:induction false} EmailEntitiesShape(s: string, ms: seq<Span>)
    requires SpansIn(ms, s)
    ensures forall e :: e in EmailEntities(s, ms) ==> SliceOf(e, s) && e.etype == Email && |e.text| <= MaxEmailLen
    ensures forall k :: 0 <= k < |ms| && ms[k].end - ms[k].start <= MaxEmailLen ==> SpanEntity(s, ms[k], Email, false) in EmailEntities(s, ms)
  {
    if ms != [] {
      EmailEntitiesShape(s, ms[..|ms| - 1]);
      forall k | 0 <= k < |ms| - 1 ensures ms[..|ms| - 1][k] == ms[k] {}
    }
  }

  /** The starts of the labeled FIN codes. */
  function LabeledStarts(ms: seq<Span>): (r: set<int>)
    ensures forall k :: 0 <= k < |ms| ==> ms[k].start in r
    ensures forall x :: x in r ==> exists k :: 0 <= k < |ms| && ms[k].start == x
  {
    set k | 0 <= k < |ms| :: ms[k].start
  }

  predicate IsUpperAscii(c: char) { 'A' <= c <= 'Z' }
  predicate IsDigitAscii(c: char) { '0' <= c <= '9' }

  /** The text holds at least one ASCII capital and at least one ASCII digit. */
  predicate Mixed(t: string) {
    (exists i :: 0 <= i < |t| && IsUpperAscii(t[i])) && (exists j :: 0 <= j < |t| && IsDigitAscii(t[j]))
  }

  /** The bare FIN matches that do not start where a labeled one does and that mix letters and digits. */
  function BareFinEntities(s: string, ms: seq<Span>, labeled: set<int>): (r: seq<Entity>)
    requires SpansIn(ms, s)
    ensures |r| <= |ms|
  {
    if ms == [] then []
    else
      var m := ms[|ms| - 1];
      BareFinEntities(s, ms[..|ms| - 1], labeled)
      + (if m.start in labeled || !Mixed(s[m.start..m.end]) then [] else [SpanEntity(s, m, FIN, false)])
  }

  /** A bare FIN entity is unlabeled, mixes letters and digits, and does not start at a labeled code. */
  lemma {:induction false} BareFinShape(s: string, ms: seq<Span>, labeled: set<int>)
    requires SpansIn(ms, s)
    ensures forall e :: e in BareFinEntities(s, ms, labeled) ==>
      SliceOf(e, s) && e.etype == FIN && !e.labeled && e.start !in labeled && Mixed(e.text)
  {
    if ms != [] {
      BareFinShape(s, ms[..|ms| - 1], labeled);
    }
  }

  /** The entities of a list of matches, one per match, in order. */
  function SpanEntities(s: string, ms: seq<Span>, etype: int, labeled: bool): (r: seq<Entity>)
    requires SpansIn(ms, s)
    ensures |r| == |ms|
  {
    if ms == [] then [] else SpanEntities(s, ms[..|ms| - 1], etype, labeled) + [SpanEntity(s, ms[|ms| - 1], etype, labeled)]
  }

  /** The k-th entity is the k-th match's. */
  lemma {:induction false} SpanEntitiesAt(s: string, ms: seq<Span>, etype: int, labeled: bool)
    requires SpansIn(ms, s)
    ensures forall k :: 0 <= k < |ms| ==> SpanEntities(s, ms, etype, labeled)[k] == SpanEntity(s, ms[k], etype, labeled)
  {
    if ms != [] {
      SpanEntitiesAt(s, ms[..|ms| - 1], etype, labeled);
    }
  }

  /** The URL entities, one per match, in order. */
  function UrlEntities(s: string, ms: seq<Span>): (r: seq<Entity>)
    requires SpansIn(ms, s)
    ensures |r| == |ms|
  {
    if ms == [] then [] else UrlEntities(s, ms[..|ms| - 1]) + [UrlEntity(s, ms[|ms| - 1])]
  }

  /** The k-th entity is the k-th match's. */
  lemma {:induction false} UrlEntitiesAt(s: string, ms: seq<Span>)
    requires SpansIn(ms, s)
    ensures forall k :: 0 <= k < |ms| ==> UrlEntities(s, ms)[k] == UrlEntity(s, ms[k])
  {
    if ms != [] {
      UrlEntitiesAt(s, ms[..|ms| - 1]);
    }
  }

  /** Every candidate, in the order the patterns are applied: URL, e-mail, IBAN, plate, phone, FIN, VOEN. */
  function Candidates(s: string, m: Matches): seq<Entity>
    requires ValidMatches(s, m)
  {
    UrlEntities(s, m.urls) + EmailEntities(s, m.emails)
    + SpanEntities(s, m.ibans, IBAN, false) + SpanEntities(s, m.plates, LicensePlate, false)
    + SpanEntities(s, m.phonesIntl, Phone, false) + SpanEntities(s, m.phonesLocal, Phone, false)
    + SpanEntities(s, m.finLabeled, FIN, true) + BareFinEntities(s, m.finBare, LabeledStarts(m.finLabeled))
    + SpanEntities(s, m.voenLabeled, VOEN, true)
  }

  // ---------------------------------------------------------------------
  // The append passes
  // ---------------------------------------------------------------------

  lemma EntitiesAssoc(a: seq<Entity>, b: seq<Entity>, c: seq<Entity>)
    ensures (a + b) + c == a + (b + c)
  {
  }

  /** appendURL: one trimmed entity per match. */
  method AppendUrl(all: seq<Entity>, s: string, ms: seq<Span>) returns (r: seq<Entity>)
    requires SpansIn(ms, s)
    ensures r == all + UrlEntities(s, ms)
  {
    r := all;
    var i := 0;
    while i < |ms|
      invariant 0 <= i <= |ms|
      invariant r == all + UrlEntities(s, ms[..i])
    {
      assert ms[..i + 1][..i] == ms[..i];
      var m := ms[i];
      var text := TrimRightAny(s[m.start..m.end], UrlCut);
      var e := Entity(text, m.start, m.start + |text|, URL, false);
      assert e == UrlEntity(s, ms[..i + 1][i]);
      assert UrlEntities(s, ms[..i + 1]) == UrlEntities(s, ms[..i]) + [e];
      EntitiesAssoc(all, UrlEntities(s, ms[..i]), [e]);
      r := r + [e];
      i := i + 1;
    }
    assert ms[..i] == ms;
  }

  /** appendEmail: one entity per match, skipping matches longer than MaxEmailLen. */
  method AppendEmail(all: seq<Entity>, s: string, ms: seq<Span>) returns (r: seq<Entity>)
    requires SpansIn(ms, s)
    ensures r == all + EmailEntities(s, ms)
  {
    r := all;
    var i := 0;
    while i < |ms|
      invariant 0 <= i <= |ms|
      invariant r == all + EmailEntities(s, ms[..i])
    {
      assert ms[..i + 1][..i] == ms[..i];
      var m := ms[i];
      if m.end - m.start <= MaxEmailLen {
        r := r + [Entity(s[m.start..m.end], m.start, m.end, Email, false)];
      }
      i := i + 1;
    }
    assert ms[..i] == ms;
  }

  /** appendIBAN, appendLicensePlate, appendPhone and the labeled VOEN pass: one entity per match. */
  method AppendSpans(all: seq<Entity>, s: string, ms: seq<Span>, etype: int, labeled: bool) returns (r: seq<Entity>)
    requires SpansIn(ms, s)
    ensures r == all + SpanEntities(s, ms, etype, labeled)
  {
    r := all;
    var i := 0;
    while i < |ms|
      invariant 0 <= i <= |ms|
      invariant r == all + SpanEntities(s, ms[..i], etype, labeled)
    {
      assert ms[..i + 1][..i] == ms[..i];
      var m := ms[i];
      r := r + [Entity(s[m.start..m.end], m.start, m.end, etype, labeled)];
      i := i + 1;
    }
    assert ms[..i] == ms;
  }

  /** isMixedAlphanumeric: scans until both an ASCII capital and an ASCII digit have been seen. */
  method IsMixedAlphanumeric(t: string) returns (r: bool)
    ensures r <==> Mixed(t)
  {
    var hasLetter, hasDigit := false, false;
    var i := 0;
    while i < |t|
      invariant 0 <= i <= |t|
      invariant hasLetter <==> exists k :: 0 <= k < i && IsUpperAscii(t[k])
      invariant hasDigit <==> exists k :: 0 <= k < i && IsDigitAscii(t[k])
      invariant !(hasLetter && hasDigit)
    {
      var c := t[i];
      if IsUpperAscii(c) {
        hasLetter := true;
      } else if IsDigitAscii(c) {
        hasDigit := true;
      }
      if hasLetter && hasDigit {
        return true;
      }
      i := i + 1;
    }
    return false;
  }

  /** appendFIN: the labeled codes, then the bare ones that mix letters and digits and do not start at a labeled code. */
  method AppendFin(all: seq<Entity>, s: string, labeledMs: seq<Span>, bareMs: seq<Span>) returns (r: seq<Entity>)
    requires SpansIn(labeledMs, s) && SpansIn(bareMs, s)
    ensures r == all + SpanEntities(s, labeledMs, FIN, true) + BareFinEntities(s, bareMs, LabeledStarts(labeledMs))
  {
    var labeled;
    r, labeled := AppendLabeledFin(all, s, labeledMs);
    r := AppendBareFin(r, s, bareMs, labeled);
  }

  /** appendFIN's first loop: the labeled codes, collecting their starts. */
  method AppendLabeledFin(all: seq<Entity>, s: string, labeledMs: seq<Span>) returns (r: seq<Entity>, labeled: set<int>)
    requires SpansIn(labeledMs, s)
    ensures r == all + SpanEntities(s, labeledMs, FIN, true) && labeled == LabeledStarts(labeledMs)
  {
    labeled := {};
    r := all;
    var i := 0;
    while i < |labeledMs|
      invariant 0 <= i <= |labeledMs|
      invariant labeled == LabeledStarts(labeledMs[..i])
      invariant r == all + SpanEntities(s, labeledMs[..i], FIN, true)
    {
      assert labeledMs[..i + 1][..i] == labeledMs[..i];
      var m := labeledMs[i];
      labeled := labeled + {m.start};
      r := r + [Entity(s[m.start..m.end], m.start, m.end, FIN, true)];
      i := i + 1;
    }
    assert labeledMs[..i] == labeledMs;
  }

  /** appendFIN's second loop: the bare codes that mix letters and digits and do not start at a labeled code. */
  method AppendBareFin(all: seq<Entity>, s: string, bareMs: seq<Span>, labeled: set<int>) returns (r: seq<Entity>)
    requires SpansIn(bareMs, s)
    ensures r == all + BareFinEntities(s, bareMs, labeled)
  {
    r := all;
    var j := 0;
    while j < |bareMs|
      invariant 0 <= j <= |bareMs|
      invariant r == all + BareFinEntities(s, bareMs[..j], labeled)
    {
      assert bareMs[..j + 1][..j] == bareMs[..j];
      var m := bareMs[j];
      if m.start !in labeled {
        var text := s[m.start..m.end];
        var mixed := IsMixedAlphanumeric(text);
        if mixed {
          r := r + [Entity(text, m.start, m.end, FIN, false)];
        }
      }
      j := j + 1;
    }
    assert bareMs[..j] == bareMs;
  }

  // ---------------------------------------------------------------------
  // Overlap resolution
  // ---------------------------------------------------------------------

  /**
   * The sort order of resolveOverlaps: by start, then longer first, then
   * labeled before unlabeled.
   */
  predicate EntityLess(a: Entity, b: Entity) {
    if a.start != b.start then a.start < b.start
    else if a.end - a.start != b.end - b.start then a.end - a.start > b.end - b.start
    else a.labeled && !b.labeled
  }

  lemma EntityLessOrder()
    ensures Sorting.Preorder(EntityLess)
  {
  }

  /** How resolveOverlaps reads an entity: its range, its sort order, and the cap of MaxEntities. */
  const EntityOrder: Overlaps.Order<Entity> :=
    Overlaps.Order((e: Entity) => e.start, (e: Entity) => e.end, EntityLess, MaxEntities)

  lemma EntityOrderOk()
    ensures Sorting.Preorder(EntityOrder.less) && Overlaps.StartFirst(EntityOrder)
  {
    EntityLessOrder();
  }

  /** Every entity is a non-empty range at a non-negative offset. */
  predicate Ranges(es: seq<Entity>) {
    forall e :: e in es ==> 0 <= e.start < e.end
  }

  /**
   * resolveOverlaps: at most MaxEntities entities, all from the input,
   * pairwise disjoint in start order; none is beaten by an input entity
   * with the same start (a longer one, or a labeled one of equal length);
   * below the cap every input entity is kept or starts inside a kept one.
   * Zero or one entity come back unchanged.
   */
  method ResolveOverlaps(entities: seq<Entity>) returns (result: seq<Entity>)
    requires Ranges(entities)
    ensures Overlaps.Resolved(EntityOrder, entities, result)
    ensures |entities| <= 1 ==> result == entities
  {
    EntityOrderOk();
    result := Overlaps.Resolve(EntityOrder, entities);
  }

  /** Every entity is a non-empty slice of s with its own text. */
  predicate AllSlices(es: seq<Entity>, s: string) {
    forall e :: e in es ==> SliceOf(e, s)
  }

  lemma AllSlicesAppend(a: seq<Entity>, b: seq<Entity>, s: string)
    requires AllSlices(a, s) && AllSlices(b, s)
    ensures AllSlices(a + b, s)
  {
  }

  lemma SpanSlices(s: string, ms: seq<Span>, etype: int, labeled: bool)
    requires SpansIn(ms, s)
    ensures AllSlices(SpanEntities(s, ms, etype, labeled), s)
  {
    SpanEntitiesAt(s, ms, etype, labeled);
  }

  lemma UrlSlices(s: string, m: Matches)
    requires ValidMatches(s, m)
    ensures AllSlices(UrlEntities(s, m.urls), s)
  {
    forall k | 0 <= k < |m.urls| ensures SliceOf(UrlEntity(s, m.urls[k]), s) {
      UrlEntityShape(s, m.urls[k]);
    }
    UrlEntitiesAt(s, m.urls);
  }

  /** Every candidate is a non-empty slice of s with its own text. */
  lemma CandidatesSlices(s: string, m: Matches)
    requires ValidMatches(s, m)
    ensures forall e :: e in Candidates(s, m) ==> SliceOf(e, s)
  {
    var url := UrlEntities(s, m.urls);
    var email := EmailEntities(s, m.emails);
    var bare := BareFinEntities(s, m.finBare, LabeledStarts(m.finLabeled));
    UrlSlices(s, m);
    EmailEntitiesShape(s, m.emails);
    BareFinShape(s, m.finBare, LabeledStarts(m.finLabeled));
    var acc := url;
    AllSlicesAppend(acc, email, s);
    acc := acc + email;
    SpanSlices(s, m.ibans, IBAN, false);
    AllSlicesAppend(acc, SpanEntities(s, m.ibans, IBAN, false), s);
    acc := acc + SpanEntities(s, m.ibans, IBAN, false);
    SpanSlices(s, m.plates, LicensePlate, false);
    AllSlicesAppend(acc, SpanEntities(s, m.plates, LicensePlate, false), s);
    acc := acc + SpanEntities(s, m.plates, LicensePlate, false);
    SpanSlices(s, m.phonesIntl, Phone, false);
    AllSlicesAppend(acc, SpanEntities(s, m.phonesIntl, Phone, false), s);
    acc := acc + SpanEntities(s, m.phonesIntl, Phone, false);
    SpanSlices(s, m.phonesLocal, Phone, false);
    AllSlicesAppend(acc, SpanEntities(s, m.phonesLocal, Phone, false), s);
    acc := acc + SpanEntities(s, m.phonesLocal, Phone, false);
    SpanSlices(s, m.finLabeled, FIN, true);
    AllSlicesAppend(acc, SpanEntities(s, m.finLabeled, FIN, true), s);
    acc := acc + SpanEntities(s, m.finLabeled, FIN, true);
    AllSlicesAppend(acc, bare, s);
    acc := acc + bare;
    SpanSlices(s, m.voenLabeled, VOEN, true);
    AllSlicesAppend(acc, SpanEntities(s, m.voenLabeled, VOEN, true), s);
    acc := acc + SpanEntities(s, m.voenLabeled, VOEN, true);
    assert acc == Candidates(s, m);
  }

  /**
   * recognize: apply every pattern in order, then resolve overlaps. Each
   * returned entity is a candidate and a slice of s carrying its own text.
   */
  method Recognize(s: string, m: Matches) returns (r: seq<Entity>)
    requires ValidMatches(s, m)
    ensures Overlaps.Resolved(EntityOrder, Candidates(s, m), r)
    ensures forall e :: e in r ==> SliceOf(e, s)
  {
    var all: seq<Entity> := [];
    all := AppendUrl(all, s, m.urls);
    assert all == UrlEntities(s, m.urls);
    all := AppendEmail(all, s, m.emails);
    all := AppendSpans(all, s, m.ibans, IBAN, false);
    all := AppendSpans(all, s, m.plates, LicensePlate, false);
    all := AppendSpans(all, s, m.phonesIntl, Phone, false);
    all := AppendSpans(all, s, m.phonesLocal, Phone, false);
    all := AppendFin(all, s, m.finLabeled, m.finBare);
    all := AppendSpans(all, s, m.voenLabeled, VOEN, true);
    assert all == Candidates(s, m);
    CandidatesSlices(s, m);
    if |all| == 0 {
      return [];
    }
    r := ResolveOverlaps(all);
  }
}
