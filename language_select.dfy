/** The languages the document page's language selectors offer. */
module LanguageSelect {

  /** A language: its code, and the locale key of its name. */
  datatype Language = Language(code: string, name: string)

  const Auto := Language("AUTO", "language.AUTO")

  /** The fixed languages, Indonesian first. */
  const Fixed: seq<Language> := [
    Language("ID", "language.ID"),
    Language("ZH", "language.ZH"),
    Language("EN", "language.EN")]

  const Languages: seq<Language> := [Auto] + Fixed

  /** `filter(lang => lang.code !== 'AUTO')`. */
  function WithoutAuto(ls: seq<Language>): (r: seq<Language>)
    ensures forall l :: l in r <==> l in ls && l.code != "AUTO"
    ensures |r| <= |ls|
  {
    if ls == [] then []
    else if ls[0].code != "AUTO" then [ls[0]] + WithoutAuto(ls[1..])
    else WithoutAuto(ls[1..])
  }

  /** The filter works piece by piece, so it keeps the order of what it
      keeps. */
  lemma {:induction false} WithoutAutoAppend(a: seq<Language>, b: seq<Language>)
    ensures WithoutAuto(a + b) == WithoutAuto(a) + WithoutAuto(b)
  {
    if a == [] {
      assert a + b == b;
    } else {
      assert (a + b)[1..] == a[1..] + b;
      WithoutAutoAppend(a[1..], b);
    }
  }

  /** A list without detection passes the filter unchanged. */
  lemma {:induction false} WithoutAutoKeeps(ls: seq<Language>)
    requires forall i :: 0 <= i < |ls| ==> ls[i].code != "AUTO"
    ensures WithoutAuto(ls) == ls
  {
    if ls != [] {
      WithoutAutoKeeps(ls[1..]);
    }
  }

  /** The filter drops detection from the list and nothing else. */
  lemma FixedLanguages()
    ensures WithoutAuto(Languages) == Fixed
  {
    WithoutAutoAppend([Auto], Fixed);
    WithoutAutoKeeps(Fixed);
  }

  /** The options of a selector: a source selector offers detection unless
      told not to; a target selector never does. */
  function Offered(isSource: bool, disableAuto: bool): (r: seq<Language>)
    ensures isSource && !disableAuto ==> r == Languages
    ensures !isSource || disableAuto ==> r == Fixed
  {
    FixedLanguages();
    if isSource then (if disableAuto then WithoutAuto(Languages) else Languages)
    else WithoutAuto(Languages)
  }

  /** Detection is offered exactly by a source selector that allows it; the
      fixed languages are always offered, in their order, after detection
      when it is offered. */
  lemma OfferedMeaning(isSource: bool, disableAuto: bool)
    ensures Auto in Offered(isSource, disableAuto) <==> isSource && !disableAuto
    ensures Offered(isSource, disableAuto) == (if isSource && !disableAuto then [Auto] else []) + Fixed
  {
    var r := Offered(isSource, disableAuto);
    if !isSource || disableAuto {
      assert forall i :: 0 <= i < |Fixed| ==> Fixed[i].code != Auto.code;
    }
  }
}
