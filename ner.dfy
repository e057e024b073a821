/**
 * The public entry points of entity recognition: the input guards of
 * Recognize, and the per-type text lists (Phones, Emails, FINs, VOENs,
 * IBANs, LicensePlates, URLs) built by filtering its result.
 */
module Ner {
  import opened NerEntity
  import opened NerPatterns
  import Unicode
  import Overlaps

  /** Inputs longer than this many bytes give no entities. */
  const MaxInputBytes: int := 0x10_0000

  /**
   * Recognize: nothing for "" or an input over 1 MiB; otherwise the
   * resolved candidates, each a slice of s carrying its own text.
   */
  method Recognize(s: string, m: Matches) returns (r: seq<Entity>)
    requires ValidMatches(s, m)
    ensures s == "" || Unicode.ByteLen(s) > MaxInputBytes ==> r == []
    ensures !(s == "" || Unicode.ByteLen(s) > MaxInputBytes) ==> Overlaps.Resolved(EntityOrder, Candidates(s, m), r)
    ensures forall e :: e in r ==> SliceOf(e, s)
  {
    if s == "" || Unicode.ByteLen(s) > MaxInputBytes {
      return [];
    }
    r := NerPatterns.Recognize(s, m);
  }

  /** The texts of the entities of type typ, in order. */
  function TextsOf(es: seq<Entity>, typ: int): seq<string> {
    if es == [] then []
    else TextsOf(es[..|es| - 1], typ) + (if es[|es| - 1].etype == typ then [es[|es| - 1].text] else [])
  }

  /** A text is listed exactly when some entity of type typ carries it. */
  lemma {:induction false} TextsOfMembers(es: seq<Entity>, typ: int)
    ensures forall t :: t in TextsOf(es, typ) <==> exists e :: e in es && e.etype == typ && e.text == t
    ensures |TextsOf(es, typ)| <= |es|
  {
    if es != [] {
      var init := es[..|es| - 1];
      TextsOfMembers(init, typ);
      assert es == init + [es[|es| - 1]];
      forall t | t in TextsOf(es, typ) ensures exists e :: e in es && e.etype == typ && e.text == t {
        if t in TextsOf(init, typ) {
          var e :| e in init && e.etype == typ && e.text == t;
          assert e in es;
        } else {
          assert es[|es| - 1] in es;
        }
      }
      forall t | exists e :: e in es && e.etype == typ && e.text == t ensures t in TextsOf(es, typ) {
        var e :| e in es && e.etype == typ && e.text == t;
        if e in init {
          assert t in TextsOf(init, typ);
        }
      }
    }
  }

  /** filterTexts: the texts of the entities of type typ, in order. */
  method FilterTexts(es: seq<Entity>, typ: int) returns (out: seq<string>)
    ensures out == TextsOf(es, typ)
  {
    out := [];
    var i := 0;
    while i < |es|
      invariant 0 <= i <= |es|
      invariant out == TextsOf(es[..i], typ)
    {
      assert es[..i + 1][..i] == es[..i];
      if es[i].etype == typ {
        out := out + [es[i].text];
      }
      i := i + 1;
    }
    assert es[..i] == es;
  }

  /**
   * Phones, Emails, FINs, VOENs, IBANs, LicensePlates and URLs: the texts of
   * the recognized entities of one type; each is a slice of s.
   */
  method TextsOfType(s: string, m: Matches, typ: int) returns (out: seq<string>)
    requires ValidMatches(s, m)
    ensures s == "" || Unicode.ByteLen(s) > MaxInputBytes ==> out == []
    ensures forall t :: t in out ==> exists e :: e in Candidates(s, m) && e.etype == typ && e.text == t && SliceOf(e, s)
    ensures !(s == "" || Unicode.ByteLen(s) > MaxInputBytes) ==>
      exists r :: Overlaps.Resolved(EntityOrder, Candidates(s, m), r) && out == TextsOf(r, typ)
  {
    var es := Recognize(s, m);
    out := FilterTexts(es, typ);
    TextsOfMembers(es, typ);
    if !(s == "" || Unicode.ByteLen(s) > MaxInputBytes) {
      forall t | t in out ensures exists e :: e in Candidates(s, m) && e.etype == typ && e.text == t && SliceOf(e, s) {
        var e :| e in es && e.etype == typ && e.text == t;
        assert e in Candidates(s, m);
      }
    }
  }
}
