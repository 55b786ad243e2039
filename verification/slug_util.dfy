/**
 * `slugify`, the local slug maker the admin input falls back on when the
 * server cannot produce a slug.
 */
module SlugUtil {
  import opened Text

  /** lower-case, trim, whitespace runs to `-`, drop everything outside `[\w-]`,
      hyphen runs to one `-`, drop leading and trailing hyphens.
      (`/--+/g` to `-` and `/-+/g` to `-` have the same effect.) */
  function Slugify(text: string): (r: string)
    ensures IsSlugOver(r, LowerWordHyphen)
  {
    var trimmed := Trim(Lower(text));
    var spaced := CollapseRuns(trimmed, Space, false);
    var kept := Keep(spaced, WordHyphen);
    var single := CollapseRuns(kept, Hyphen, false);
    StripNoDoubleHyphen(single, Hyphen);
    Strip(single, Hyphen)
  }

  /** A string is left unchanged by slugify exactly when it is already a slug. */
  lemma SlugifyFixpoint(s: string)
    ensures Slugify(s) == s <==> IsSlugOver(s, LowerWordHyphen)
  {
    if IsSlugOver(s, LowerWordHyphen) {
      LowerIdentity(s);
      assert s != [] ==> s[0] in s && s[|s| - 1] in s;
      StripIdentity(s, Space);
      CollapseRunsIdentity(s, Space, false);
      KeepIdentity(s, WordHyphen);
      CollapseRunsIdentity(s, Hyphen, false);
      StripIdentity(s, Hyphen);
    }
  }

  /** Each whitespace run between two slugs becomes exactly one hyphen; for
      instance slugify("hello  world") == "hello-world". */
  lemma SlugifyJoin(a: string, sep: string, b: string)
    requires a != [] && b != [] && IsSlugOver(a, LowerWordHyphen) && IsSlugOver(b, LowerWordHyphen)
    requires sep != [] && IsBlank(sep)
    ensures Slugify(a + sep + b) == a + "-" + b
  {
    var s := a + sep + b;
    assert forall c :: c in s ==> c in a || c in sep || c in b;
    SpaceNotWord();
    LowerIdentity(s);
    assert a[0] in a && b[|b| - 1] in b && s[0] == a[0] && s[|s| - 1] == b[|b| - 1];
    StripIdentity(s, Space);
    assert a[|a| - 1] in a;
    CollapseRunsIdentity(a, Space, false);
    CollapseRunsIdentity(b, Space, true);
    CollapseRunsOfRun(sep, Space, false);
    CollapseRunsAppend(a, sep + b, Space, false);
    CollapseRunsAppend(sep, b, Space, false);
    AppendAssoc(a, sep, b);
    AppendAssoc(a, "-", b);
    var j := a + "-" + b;
    JoinIsSlug(a, b, LowerWordHyphen);
    KeepIdentity(j, WordHyphen);
    CollapseRunsIdentity(j, Hyphen, false);
    StripIdentity(j, Hyphen);
  }

  lemma SlugifyIdempotent(s: string)
    ensures Slugify(Slugify(s)) == Slugify(s)
  {
    SlugifyFixpoint(Slugify(s));
  }

  /** Nothing but separators is lost: the word characters of the result are, in
      order, those of the lower-cased input. */
  lemma SlugifyKeepsWordChars(s: string)
    ensures Keep(Slugify(s), Word) == Keep(Lower(s), Word)
  {
    var trimmed := Trim(Lower(s));
    var spaced := CollapseRuns(trimmed, Space, false);
    var kept := Keep(spaced, WordHyphen);
    var single := CollapseRuns(kept, Hyphen, false);
    SpaceNotWord();
    KeepStrip(single, Hyphen, Word);
    KeepCollapseRuns(kept, Hyphen, false, Word);
    KeepKeep(spaced, WordHyphen, Word);
    KeepCollapseRuns(trimmed, Space, false, Word);
    KeepStrip(Lower(s), Space, Word);
  }

  /** The result is empty exactly when the input holds no word character; so an
      empty, blank or all-symbol input gives "". */
  lemma SlugifyEmpty(s: string)
    ensures Slugify(s) == "" <==> Keep(Lower(s), Word) == ""
  {
    SlugifyKeepsWordChars(s);
    if Keep(Slugify(s), Word) == "" {
      SlugWithoutKeptCharsIsEmpty(Slugify(s), LowerWordHyphen, Word);
    }
  }

  /** slugify as a list of words: lower-case the text, delete every character
      outside `[\w\s-]`, cut what is left into words at each run of `[\s-]`, and
      join the words with single hyphens. So slugify("Hello World!") is
      "hello-world" and slugify("snake_case") keeps its underscore. */
  lemma SlugifyWords(s: string)
    ensures Slugify(s) == JoinHyphen(Words(Keep(Lower(s), WordSpaceHyphen), SpaceHyphen))
  {
    var trimmed := Trim(Lower(s));
    var kept := Keep(CollapseRuns(trimmed, Space, false), WordHyphen);
    CollapseStripIsJoin(kept, Hyphen, false);
    HyphenWordsAfterSpaces([], trimmed, false);
    assert [] + kept == kept && [] + Keep(trimmed, WordSpaceHyphen) == Keep(trimmed, WordSpaceHyphen);
    WordsKeepTrim(Lower(s), WordSpaceHyphen, SpaceHyphen);
  }

  /** A capital letter, a space and a small letter, such as "A b", give two
      one-letter words: "a-b". */
  lemma SlugifyOfTwoLetters(u: char, sp: char, v: char)
    requires IsUpper(u) && IsSpace(sp) && IsLower(v)
    ensures Slugify([u, sp, v]) == [LowerChar(u), '-', v]
  {
    TwoLetterWords(u, sp, v, SpaceHyphen);
    SlugifyWords([u, sp, v]);
  }

  /** Capital letters make no difference. */
  lemma SlugifyIgnoresCase(s: string)
    ensures Slugify(Lower(s)) == Slugify(s)
  {
    LowerIdentity(Lower(s));
  }

  /** slugify turns whitespace into `-` before it deletes the symbols; deleting the
      symbols first and then cutting at whitespace and hyphens gives the same words.
      `pending` is the part of a word read so far, which is empty right after
      whitespace. */
  lemma {:induction false} HyphenWordsAfterSpaces(pending: string, t: string, inRun: bool)
    requires forall c :: c in pending ==> !In(SpaceHyphen, c)
    requires inRun ==> pending == []
    ensures Words(pending + Keep(CollapseRuns(t, Space, inRun), WordHyphen), Hyphen)
         == Words(pending + Keep(t, WordSpaceHyphen), SpaceHyphen)
    decreases |t|
  {
    if t == [] {
      assert pending + [] == pending;
      WordsOfWord(pending, Hyphen);
      WordsOfWord(pending, SpaceHyphen);
    } else {
      var c, t1 := t[0], t[1..];
      assert t == [c] + t1;
      if IsSpace(c) {
        HyphenWordsAfterSpaces([], t1, true);
        SpaceStep(pending, c, t1, inRun);
      } else if !In(WordSpaceHyphen, c) {
        HyphenWordsAfterSpaces(pending, t1, false);
        SymbolStep(pending, c, t1, inRun);
      } else if c == '-' {
        HyphenWordsAfterSpaces([], t1, false);
        HyphenStep(pending, t1, inRun);
      } else {
        assert forall x :: x in pending + [c] ==> x in pending || x == c;
        HyphenWordsAfterSpaces(pending + [c], t1, false);
        WordCharStep(pending, c, t1, inRun);
      }
    }
  }

  lemma SpaceStep(pending: string, c: char, t1: string, inRun: bool)
    requires forall x :: x in pending ==> !In(SpaceHyphen, x)
    requires inRun ==> pending == []
    requires IsSpace(c)
    requires Words([] + Keep(CollapseRuns(t1, Space, true), WordHyphen), Hyphen)
          == Words([] + Keep(t1, WordSpaceHyphen), SpaceHyphen)
    ensures Words(pending + Keep(CollapseRuns([c] + t1, Space, inRun), WordHyphen), Hyphen)
         == Words(pending + Keep([c] + t1, WordSpaceHyphen), SpaceHyphen)
  {
    var y := CollapseRuns(t1, Space, true);
    var p1, q1 := Keep(y, WordHyphen), Keep(t1, WordSpaceHyphen);
    var ws := Words(q1, SpaceHyphen);
    assert [] + p1 == p1 && [] + q1 == q1;
    assert Words(p1, Hyphen) == ws;
    KeepCons(c, t1, WordSpaceHyphen);
    AppendAssoc(pending, [c], q1);
    WordsSplit(pending, c, q1, SpaceHyphen);
    SpaceStepLeft(pending, c, t1, inRun, ws);
  }

  lemma SpaceStepLeft(pending: string, c: char, t1: string, inRun: bool, ws: seq<string>)
    requires forall x :: x in pending ==> !In(SpaceHyphen, x)
    requires inRun ==> pending == []
    requires IsSpace(c)
    requires Words(Keep(CollapseRuns(t1, Space, true), WordHyphen), Hyphen) == ws
    ensures Words(pending + Keep(CollapseRuns([c] + t1, Space, inRun), WordHyphen), Hyphen)
         == (if pending == [] then [] else [pending]) + ws
  {
    var y := CollapseRuns(t1, Space, true);
    var p1 := Keep(y, WordHyphen);
    assert ([c] + t1)[0] == c && ([c] + t1)[1..] == t1;
    if inRun {
      assert CollapseRuns([c] + t1, Space, inRun) == y;
      assert pending + p1 == p1;
    } else {
      assert CollapseRuns([c] + t1, Space, inRun) == "-" + y;
      KeepCons('-', y, WordHyphen);
      AppendAssoc(pending, "-", p1);
      WordsSplit(pending, '-', p1, Hyphen);
    }
  }

  lemma SymbolStep(pending: string, c: char, t1: string, inRun: bool)
    requires !IsSpace(c) && !In(WordSpaceHyphen, c)
    requires Words(pending + Keep(CollapseRuns(t1, Space, false), WordHyphen), Hyphen)
          == Words(pending + Keep(t1, WordSpaceHyphen), SpaceHyphen)
    ensures Words(pending + Keep(CollapseRuns([c] + t1, Space, inRun), WordHyphen), Hyphen)
         == Words(pending + Keep([c] + t1, WordSpaceHyphen), SpaceHyphen)
  {
    var y := CollapseRuns(t1, Space, false);
    assert ([c] + t1)[0] == c && ([c] + t1)[1..] == t1;
    assert CollapseRuns([c] + t1, Space, inRun) == [c] + y;
    assert !In(WordHyphen, c);
    KeepCons(c, y, WordHyphen);
    assert Keep([c] + y, WordHyphen) == Keep(y, WordHyphen);
    KeepCons(c, t1, WordSpaceHyphen);
    assert Keep([c] + t1, WordSpaceHyphen) == Keep(t1, WordSpaceHyphen);
  }

  lemma HyphenStep(pending: string, t1: string, inRun: bool)
    requires forall x :: x in pending ==> !In(SpaceHyphen, x)
    requires Words([] + Keep(CollapseRuns(t1, Space, false), WordHyphen), Hyphen)
          == Words([] + Keep(t1, WordSpaceHyphen), SpaceHyphen)
    ensures Words(pending + Keep(CollapseRuns("-" + t1, Space, inRun), WordHyphen), Hyphen)
         == Words(pending + Keep("-" + t1, WordSpaceHyphen), SpaceHyphen)
  {
    var y := CollapseRuns(t1, Space, false);
    var p1, q1 := Keep(y, WordHyphen), Keep(t1, WordSpaceHyphen);
    assert [] + p1 == p1 && [] + q1 == q1;
    assert ("-" + t1)[0] == '-' && ("-" + t1)[1..] == t1;
    assert CollapseRuns("-" + t1, Space, inRun) == "-" + y;
    KeepCons('-', y, WordHyphen);
    KeepCons('-', t1, WordSpaceHyphen);
    WordsSplit(pending, '-', p1, Hyphen);
    WordsSplit(pending, '-', q1, SpaceHyphen);
    AppendAssoc(pending, "-", p1);
    AppendAssoc(pending, "-", q1);
  }

  lemma WordCharStep(pending: string, c: char, t1: string, inRun: bool)
    requires IsWord(c)
    requires Words((pending + [c]) + Keep(CollapseRuns(t1, Space, false), WordHyphen), Hyphen)
          == Words((pending + [c]) + Keep(t1, WordSpaceHyphen), SpaceHyphen)
    ensures Words(pending + Keep(CollapseRuns([c] + t1, Space, inRun), WordHyphen), Hyphen)
         == Words(pending + Keep([c] + t1, WordSpaceHyphen), SpaceHyphen)
  {
    var y := CollapseRuns(t1, Space, false);
    var p1, q1 := Keep(y, WordHyphen), Keep(t1, WordSpaceHyphen);
    assert ([c] + t1)[0] == c && ([c] + t1)[1..] == t1;
    assert !IsSpace(c) by { SpaceNotWord(); }
    assert CollapseRuns([c] + t1, Space, inRun) == [c] + y;
    KeepCons(c, y, WordHyphen);
    KeepCons(c, t1, WordSpaceHyphen);
    AppendAssoc(pending, [c], p1);
    AppendAssoc(pending, [c], q1);
  }
}
