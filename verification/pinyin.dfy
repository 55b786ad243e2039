/**
 * The local pinyin translator (PinyinTranslator): the pinyin library turns the
 * text into an array of syllables, which is then cleaned into a slug.
 * The library itself is a parameter.
 */
module Pinyin {
  import opened Wrappers
  import opened Text
  import opened Translators

  /** What the pinyin library call gives back: the syllable array, or an exception. */
  datatype LibOutcome = Syllables(items: seq<string>) | LibError(message: string)

  type PinyinLibrary = string -> LibOutcome

  /** What one syllable contributes: itself trimmed, or nothing when that is empty. */
  function CleanOne(w: string): (r: seq<string>)
    ensures |r| <= 1
    ensures forall x :: x in r ==> x != [] && NoEdge(x, Space)
  {
    if Trim(w) != [] then [Trim(w)] else []
  }

  /** `.map(item => item.trim()).filter(item => item)`. */
  function CleanSyllables(items: seq<string>): (r: seq<string>)
    ensures |r| <= |items|
    ensures forall w :: w in r ==> w != [] && NoEdge(w, Space)
  {
    if items == [] then [] else CleanOne(items[0]) + CleanSyllables(items[1..])
  }

  /** The string the syllables make before any character is filtered: it neither
      starts nor ends with whitespace, since every syllable is trimmed. */
  function Joined(items: seq<string>): (r: string)
    ensures NoEdge(r, Space)
  {
    var ws := CleanSyllables(items);
    if ws != [] then
      assert ws[0] in ws && ws[|ws| - 1] in ws;
      JoinHyphenLast(ws);
      JoinHyphen(ws)
    else JoinHyphen(ws)
  }

  /** The post-processing chain of `translate`: lower-case, keep `[a-z0-9-]`,
      collapse hyphen runs, drop one hyphen at each end. */
  function PinyinSlug(items: seq<string>): (r: string)
    ensures IsSlugOver(r, LowerDigitHyphen)
  {
    var kept := Keep(Lower(Joined(items)), LowerDigitHyphen);
    var collapsed := CollapseRuns(kept, Hyphen, false);
    StripEdgeHyphenAfterCollapse(collapsed);
    StripEdgeHyphen(collapsed)
  }

  /** `getName()`. */
  function GetPinyinName(): (r: string)
    ensures r == "pinyin"
    ensures ParseProvider(r).None?
  {
    GetName(Pinyin)
  }

  /** `translate(text)`: the library's syllables made into a slug, or, when the
      library throws, an empty failed result carrying its message. */
  function Translate(text: string, library: PinyinLibrary): (r: TranslationResult)
    ensures r.success <==> library(text).Syllables?
    ensures r.success ==> r.text == PinyinSlug(library(text).items) && r.error.None?
    ensures !r.success ==> r.text == "" && r.error == Some(library(text).message)
    ensures IsSlugOver(r.text, LowerDigitHyphen)
  {
    match library(text)
    case Syllables(items) => TranslationResult(PinyinSlug(items), true, None)
    case LibError(message) => TranslationResult("", false, Some(message))
  }

  lemma {:induction false} CleanSyllablesAppend(a: seq<string>, b: seq<string>)
    ensures CleanSyllables(a + b) == CleanSyllables(a) + CleanSyllables(b)
  {
    if a == [] {
      assert a + b == b;
    } else {
      assert (a + b)[0] == a[0] && (a + b)[1..] == a[1..] + b;
      CleanSyllablesAppend(a[1..], b);
      assert CleanOne(a[0]) + (CleanSyllables(a[1..]) + CleanSyllables(b))
          == (CleanOne(a[0]) + CleanSyllables(a[1..])) + CleanSyllables(b);
    }
  }

  /** An empty or whitespace-only syllable contributes nothing to the slug. */
  lemma BlankSyllableIgnored(a: seq<string>, w: string, b: seq<string>)
    requires IsBlank(w)
    ensures PinyinSlug(a + [w] + b) == PinyinSlug(a + b)
  {
    TrimEmpty(w);
    CleanSingle(w);
    var ca, cb := CleanSyllables(a), CleanSyllables(b);
    CleanSyllablesAppend(a, [w]);
    assert CleanSyllables(a + [w]) == ca + [] == ca;
    CleanSyllablesAppend(a + [w], b);
    CleanSyllablesAppend(a, b);
    assert Joined(a + [w] + b) == JoinHyphen(ca + cb) == Joined(a + b);
  }

  lemma CleanSingle(w: string)
    ensures CleanSyllables([w]) == if Trim(w) != [] then [Trim(w)] else []
  {
    assert [w][0] == w && [w][1..] == [];
  }

  /** A syllable that is not blank appears, trimmed, after those before it,
      separated from them by one hyphen. */
  lemma NonBlankSyllableJoined(a: seq<string>, w: string)
    requires !IsBlank(w)
    ensures Joined(a + [w]) == if CleanSyllables(a) == [] then Trim(w) else Joined(a) + "-" + Trim(w)
  {
    TrimEmpty(w);
    CleanSingle(w);
    CleanSyllablesAppend(a, [w]);
    var ca := CleanSyllables(a);
    assert CleanSyllables(a + [w]) == ca + [Trim(w)];
    if ca != [] {
      JoinHyphenAppend(ca, Trim(w));
    } else {
      assert ca + [Trim(w)] == [Trim(w)];
    }
  }
}
