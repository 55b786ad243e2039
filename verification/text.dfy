/**
 * The string operations the slug pipelines are built from: ASCII lower-casing,
 * JavaScript's `trim`, and the three shapes of global regular-expression
 * replacement the pipelines use:
 *   - `s.replace(/[^C]+/g, '')`   removes every character outside class C   (Keep)
 *   - `s.replace(/[C]+/g, '-')`   turns every maximal run of C into one `-` (CollapseRuns)
 *   - `s.replace(/^C+|C+$/g, '')` removes the leading and trailing runs of C (Strip)
 */
module Text {

  /** JavaScript's `\s`: the WhiteSpace and LineTerminator code points.
      `String.prototype.trim` removes exactly the same set. */
  predicate IsSpace(c: char) {
    var n := c as int;
    (0x09 <= n <= 0x0D) || n == 0x20 || n == 0xA0 || n == 0x1680
    || (0x2000 <= n <= 0x200A) || n == 0x2028 || n == 0x2029
    || n == 0x202F || n == 0x205F || n == 0x3000 || n == 0xFEFF
  }

  predicate IsUpper(c: char) { 'A' <= c <= 'Z' }
  predicate IsLower(c: char) { 'a' <= c <= 'z' }
  predicate IsDigit(c: char) { '0' <= c <= '9' }

  /** JavaScript's `\w` (without the `u` flag): `[A-Za-z0-9_]`. */
  predicate IsWord(c: char) { IsUpper(c) || IsLower(c) || IsDigit(c) || c == '_' }

  /** The character classes the pipelines mention. */
  datatype CharClass =
    | Space                   // \s
    | Hyphen                  // -
    | SpaceUnderscoreHyphen   // [\s_-]
    | WordSpaceHyphen         // [\w\s-]
    | SpaceHyphen             // [\s-]
    | WordHyphen              // [\w-]
    | LowerDigitHyphen        // [a-z0-9-]
    | LowerWordHyphen         // [a-z0-9_-]
    | Alnum                   // [A-Za-z0-9]
    | Word                    // \w

  predicate In(cls: CharClass, c: char) {
    match cls
    case Space => IsSpace(c)
    case Hyphen => c == '-'
    case SpaceUnderscoreHyphen => IsSpace(c) || c == '_' || c == '-'
    case WordSpaceHyphen => IsWord(c) || IsSpace(c) || c == '-'
    case SpaceHyphen => IsSpace(c) || c == '-'
    case WordHyphen => IsWord(c) || c == '-'
    case LowerDigitHyphen => IsLower(c) || IsDigit(c) || c == '-'
    case LowerWordHyphen => IsLower(c) || IsDigit(c) || c == '_' || c == '-'
    case Alnum => IsUpper(c) || IsLower(c) || IsDigit(c)
    case Word => IsWord(c)
  }

  predicate AllIn(s: string, cls: CharClass) {
    forall c :: c in s ==> In(cls, c)
  }

  /** Every character of class `a` is a character of class `b`. */
  predicate SubClass(a: CharClass, b: CharClass) {
    forall c :: In(a, c) ==> In(b, c)
  }

  predicate Disjoint(a: CharClass, b: CharClass) {
    forall c :: In(a, c) ==> !In(b, c)
  }

  /** No whitespace character is a word character. */
  lemma SpaceNotWord()
    ensures Disjoint(Space, Word) && Disjoint(Space, Alnum)
  {
    forall c | IsSpace(c)
      ensures !IsWord(c)
    {
      assert c as int < 0x30 || c as int >= 0xA0;
    }
  }

  /** No two adjacent hyphens. */
  predicate NoDoubleHyphen(s: string) {
    forall i :: 0 <= i < |s| - 1 ==> !(s[i] == '-' && s[i + 1] == '-')
  }

  /** Neither the first nor the last character belongs to `cls`. */
  predicate NoEdge(s: string, cls: CharClass) {
    s == [] || (!In(cls, s[0]) && !In(cls, s[|s| - 1]))
  }

  /** `s.startsWith(prefix)`. */
  predicate StartsWith(s: string, prefix: string) {
    |prefix| <= |s| && s[..|prefix|] == prefix
  }

  /** `s.endsWith(suffix)`. */
  predicate EndsWith(s: string, suffix: string) {
    |suffix| <= |s| && s[|s| - |suffix|..] == suffix
  }

  /** A canonical slug over the characters of `cls`: no `--`, no `-` at either end. */
  predicate IsSlugOver(s: string, cls: CharClass) {
    AllIn(s, cls) && NoDoubleHyphen(s) && NoEdge(s, Hyphen)
  }

  // ---------------------------------------------------------------- lower-casing

  /** `toLowerCase` on one character, restricted to the ASCII letters. */
  function LowerChar(c: char): (r: char)
    ensures !IsUpper(r)
    ensures IsUpper(c) ==> IsLower(r)
    ensures !IsUpper(c) ==> r == c
  {
    if IsUpper(c) then (c as int + 32) as char else c
  }

  function Lower(s: string): (r: string)
    ensures |r| == |s|
    ensures forall c :: c in r ==> !IsUpper(c)
  {
    seq(|s|, i requires 0 <= i < |s| => LowerChar(s[i]))
  }

  lemma LowerIdentity(s: string)
    requires forall c :: c in s ==> !IsUpper(c)
    ensures Lower(s) == s
  {
    assert forall i :: 0 <= i < |s| ==> Lower(s)[i] == s[i];
  }

  // ---------------------------------------------------------------- Keep

  /** `s.replace(/[^cls]+/g, '')` (equivalently without the `+`). */
  function Keep(s: string, cls: CharClass): (r: string)
    ensures |r| <= |s|
    ensures forall c :: c in r ==> c in s && In(cls, c)
  {
    if s == [] then [] else (if In(cls, s[0]) then [s[0]] else []) + Keep(s[1..], cls)
  }

  lemma {:induction false} KeepIdentity(s: string, cls: CharClass)
    requires AllIn(s, cls)
    ensures Keep(s, cls) == s
  {
    if s != [] {
      assert s[0] in s;
      KeepIdentity(s[1..], cls);
      assert [s[0]] + s[1..] == s;
    }
  }

  lemma KeepCons(c: char, x: string, cls: CharClass)
    ensures Keep([c] + x, cls) == (if In(cls, c) then [c] else []) + Keep(x, cls)
  {
    assert ([c] + x)[0] == c && ([c] + x)[1..] == x;
  }

  lemma {:induction false} KeepAppend(a: string, b: string, cls: CharClass)
    ensures Keep(a + b, cls) == Keep(a, cls) + Keep(b, cls)
  {
    if a == [] {
      assert a + b == b;
    } else {
      assert (a + b)[0] == a[0] && (a + b)[1..] == a[1..] + b;
      KeepAppend(a[1..], b, cls);
    }
  }

  /** Filtering by a class, then by a smaller class, is filtering by the smaller one. */
  lemma {:induction false} KeepKeep(s: string, a: CharClass, b: CharClass)
    requires SubClass(b, a)
    ensures Keep(Keep(s, a), b) == Keep(s, b)
  {
    if s != [] {
      KeepKeep(s[1..], a, b);
      var head := if In(a, s[0]) then [s[0]] else [];
      KeepAppend(head, Keep(s[1..], a), b);
      if In(a, s[0]) {
        assert Keep(head, b) == (if In(b, s[0]) then [s[0]] else []) + Keep([], b);
      } else {
        assert Keep(head, b) == [];
      }
    }
  }

  // ---------------------------------------------------------------- CollapseRuns

  /** `s.replace(/[cls]+/g, '-')`: each maximal run of characters of `cls` becomes
      a single `-`. `inRun` says whether the character before `s` was part of a run. */
  function CollapseRuns(s: string, cls: CharClass, inRun: bool): (r: string)
    ensures forall c :: c in r ==> c == '-' || (c in s && !In(cls, c))
    ensures In(cls, '-') ==> NoDoubleHyphen(r)
    ensures In(cls, '-') && inRun && r != [] ==> r[0] != '-'
  {
    if s == [] then []
    else if In(cls, s[0]) then
      (if inRun then [] else "-") + CollapseRuns(s[1..], cls, true)
    else
      [s[0]] + CollapseRuns(s[1..], cls, false)
  }

  /** On a string that holds no run to collapse, collapsing changes nothing. */
  lemma {:induction false} CollapseRunsIdentity(s: string, cls: CharClass, inRun: bool)
    requires forall c :: c in s ==> c == '-' || !In(cls, c)
    requires In(cls, '-') ==> NoDoubleHyphen(s) && (inRun && s != [] ==> s[0] != '-')
    requires !In(cls, '-') ==> forall c :: c in s ==> !In(cls, c)
    ensures CollapseRuns(s, cls, inRun) == s
  {
    if s != [] {
      assert s[0] in s;
      assert forall c :: c in s[1..] ==> c in s;
      if In(cls, s[0]) {
        assert s[0] == '-';
        assert |s| > 1 ==> s[1] != '-';
        CollapseRunsIdentity(s[1..], cls, true);
      } else {
        CollapseRunsIdentity(s[1..], cls, false);
      }
      assert [s[0]] + s[1..] == s;
    }
  }

  /** Collapsing runs keeps every character outside the run class, in order. */
  lemma {:induction false} KeepCollapseRuns(s: string, cls: CharClass, inRun: bool, b: CharClass)
    requires Disjoint(cls, b) && !In(b, '-')
    ensures Keep(CollapseRuns(s, cls, inRun), b) == Keep(s, b)
  {
    if s != [] {
      if In(cls, s[0]) {
        KeepCollapseRuns(s[1..], cls, true, b);
        var head: string := if inRun then [] else "-";
        KeepAppend(head, CollapseRuns(s[1..], cls, true), b);
        assert Keep(head, b) == [];
      } else {
        KeepCollapseRuns(s[1..], cls, false, b);
        KeepAppend([s[0]], CollapseRuns(s[1..], cls, false), b);
        assert Keep([s[0]], b) == (if In(b, s[0]) then [s[0]] else []) + Keep([], b);
      }
    }
  }

  /** Whether the last character CollapseRuns consumed from `x` was part of a run. */
  function RunAfter(x: string, cls: CharClass, inRun: bool): bool {
    if x == [] then inRun else In(cls, x[|x| - 1])
  }

  /** Collapsing works left to right: the second part is collapsed in the run state
      the first part left behind. */
  lemma {:induction false} CollapseRunsAppend(x: string, y: string, cls: CharClass, inRun: bool)
    ensures CollapseRuns(x + y, cls, inRun)
              == CollapseRuns(x, cls, inRun) + CollapseRuns(y, cls, RunAfter(x, cls, inRun))
  {
    if x == [] {
      assert x + y == y;
    } else {
      var first := In(cls, x[0]);
      var head: string := if first then (if inRun then [] else "-") else [x[0]];
      assert (x + y)[0] == x[0] && (x + y)[1..] == x[1..] + y;
      assert CollapseRuns(x + y, cls, inRun) == head + CollapseRuns(x[1..] + y, cls, first);
      assert CollapseRuns(x, cls, inRun) == head + CollapseRuns(x[1..], cls, first);
      CollapseRunsAppend(x[1..], y, cls, first);
      assert RunAfter(x[1..], cls, first) == RunAfter(x, cls, inRun);
      var rest, tail := CollapseRuns(x[1..], cls, first), CollapseRuns(y, cls, RunAfter(x, cls, inRun));
      AppendAssoc(head, rest, tail);
    }
  }

  lemma AppendAssoc(a: string, b: string, c: string)
    ensures a + (b + c) == (a + b) + c
  {
  }

  /** A whole run becomes one hyphen, or nothing when it continues an earlier run. */
  lemma {:induction false} CollapseRunsOfRun(s: string, cls: CharClass, inRun: bool)
    requires s != [] && forall c :: c in s ==> In(cls, c)
    ensures CollapseRuns(s, cls, inRun) == if inRun then [] else "-"
    ensures RunAfter(s, cls, inRun)
  {
    assert s[0] in s && s[|s| - 1] in s;
    if |s| > 1 {
      assert forall c :: c in s[1..] ==> c in s;
      CollapseRunsOfRun(s[1..], cls, true);
    }
  }

  /** Two non-empty slugs joined by one hyphen make a slug. */
  lemma JoinIsSlug(a: string, b: string, cls: CharClass)
    requires a != [] && b != [] && In(cls, '-')
    requires IsSlugOver(a, cls) && IsSlugOver(b, cls)
    ensures IsSlugOver(a + "-" + b, cls)
  {
    var j := a + "-" + b;
    forall i | 0 <= i < |j| - 1
      ensures !(j[i] == '-' && j[i + 1] == '-')
    {
      if i < |a| - 1 {
        assert j[i] == a[i] && j[i + 1] == a[i + 1];
      } else if i == |a| - 1 {
        assert j[i] == a[|a| - 1];
      } else if i == |a| {
        assert j[i + 1] == b[0];
      } else {
        assert j[i] == b[i - |a| - 1] && j[i + 1] == b[i - |a|];
      }
    }
    assert forall c :: c in j ==> c in a || c == '-' || c in b;
    assert j[0] == a[0] && j[|j| - 1] == b[|b| - 1];
  }

  // ---------------------------------------------------------------- Strip

  /** `s.replace(/^cls+/, '')`. */
  function DropLeading(s: string, cls: CharClass): (r: string)
    ensures |r| <= |s| && r == s[|s| - |r|..]
    ensures r == [] || !In(cls, r[0])
  {
    if s != [] && In(cls, s[0]) then DropLeading(s[1..], cls) else s
  }

  /** `s.replace(/cls+$/, '')`. */
  function DropTrailing(s: string, cls: CharClass): (r: string)
    ensures |r| <= |s| && r == s[..|r|]
    ensures r == [] || !In(cls, r[|r| - 1])
  {
    if s != [] && In(cls, s[|s| - 1]) then DropTrailing(s[..|s| - 1], cls) else s
  }

  /** `s.replace(/^cls+|cls+$/g, '')`; with `cls` = Space this is `s.trim()`. */
  function Strip(s: string, cls: CharClass): (r: string)
    ensures NoEdge(r, cls)
    ensures forall c :: c in r ==> c in s
  {
    var t := DropLeading(s, cls);
    var r := DropTrailing(t, cls);
    assert r != [] ==> r[0] == t[0];
    assert forall c :: c in r ==> c in t;
    r
  }

  /** `s.trim()`. */
  function Trim(s: string): (r: string)
    ensures NoEdge(r, Space)
    ensures forall c :: c in r ==> c in s
    ensures NoEdge(s, Space) ==> r == s
  {
    Strip(s, Space)
  }

  /** A string made of whitespace only (the empty string included). */
  predicate IsBlank(s: string) {
    forall c :: c in s ==> IsSpace(c)
  }

  lemma {:induction false} DropLeadingBlank(s: string, cls: CharClass)
    ensures DropLeading(s, cls) == [] <==> forall c :: c in s ==> In(cls, c)
  {
    if s != [] {
      assert s[0] in s;
      if In(cls, s[0]) {
        DropLeadingBlank(s[1..], cls);
        assert forall c :: c in s ==> c == s[0] || c in s[1..];
      }
    }
  }

  /** `s.trim()` is empty exactly when `s` is blank. */
  lemma TrimEmpty(s: string)
    ensures Trim(s) == [] <==> IsBlank(s)
  {
    DropLeadingBlank(s, Space);
    var t := DropLeading(s, Space);
    if t != [] {
      DropTrailingKeepsHead(t, Space);
    }
  }

  lemma {:induction false} DropTrailingKeepsHead(s: string, cls: CharClass)
    requires s != [] && !In(cls, s[0])
    ensures DropTrailing(s, cls) != []
  {
    if In(cls, s[|s| - 1]) {
      DropTrailingKeepsHead(s[..|s| - 1], cls);
    }
  }

  lemma StripIdentity(s: string, cls: CharClass)
    requires NoEdge(s, cls)
    ensures Strip(s, cls) == s
  {
  }

  lemma NoDoubleHyphenSlice(s: string, i: nat, j: nat)
    requires i <= j <= |s| && NoDoubleHyphen(s)
    ensures NoDoubleHyphen(s[i..j])
  {
    forall k | 0 <= k < j - i - 1
      ensures !(s[i..j][k] == '-' && s[i..j][k + 1] == '-')
    {
      assert s[i..j][k] == s[i + k] && s[i..j][k + 1] == s[i + k + 1];
    }
  }

  lemma StripNoDoubleHyphen(s: string, cls: CharClass)
    requires NoDoubleHyphen(s)
    ensures NoDoubleHyphen(Strip(s, cls))
  {
    var t := DropLeading(s, cls);
    NoDoubleHyphenSlice(s, |s| - |t|, |s|);
    NoDoubleHyphenSlice(t, 0, |DropTrailing(t, cls)|);
  }

  lemma {:induction false} KeepDropLeading(s: string, cls: CharClass, b: CharClass)
    requires Disjoint(cls, b)
    ensures Keep(DropLeading(s, cls), b) == Keep(s, b)
  {
    if s != [] && In(cls, s[0]) {
      KeepDropLeading(s[1..], cls, b);
    }
  }

  lemma {:induction false} KeepDropTrailing(s: string, cls: CharClass, b: CharClass)
    requires Disjoint(cls, b)
    ensures Keep(DropTrailing(s, cls), b) == Keep(s, b)
  {
    if s != [] && In(cls, s[|s| - 1]) {
      var init, last := s[..|s| - 1], s[|s| - 1];
      KeepDropTrailing(init, cls, b);
      assert init + [last] == s;
      KeepAppend(init, [last], b);
      assert Keep([last], b) == [] + Keep([], b);
    }
  }

  /** Stripping the ends removes only characters of the stripped class. */
  lemma KeepStrip(s: string, cls: CharClass, b: CharClass)
    requires Disjoint(cls, b)
    ensures Keep(Strip(s, cls), b) == Keep(s, b)
  {
    KeepDropLeading(s, cls, b);
    KeepDropTrailing(DropLeading(s, cls), cls, b);
  }

  /** A string from which filtering by `b` keeps nothing holds no character of `b`. */
  lemma {:induction false} KeepEmpty(s: string, b: CharClass)
    requires Keep(s, b) == ""
    ensures forall c :: c in s ==> !In(b, c)
  {
    if s != [] {
      assert !In(b, s[0]) && Keep(s[1..], b) == "";
      KeepEmpty(s[1..], b);
      assert forall c :: c in s ==> c == s[0] || c in s[1..];
    }
  }

  /** A canonical slug whose characters outside `b` can only be hyphens, and which
      keeps nothing when filtered by `b`, is empty. */
  lemma SlugWithoutKeptCharsIsEmpty(s: string, cls: CharClass, b: CharClass)
    requires IsSlugOver(s, cls) && Keep(s, b) == ""
    requires forall c :: In(cls, c) && !In(b, c) ==> c == '-'
    ensures s == ""
  {
    KeepEmpty(s, b);
  }

  /** `s.replace(/^-|-$/g, '')`: at most one hyphen removed at each end. */
  function StripEdgeHyphen(s: string): (r: string)
    ensures forall c :: c in r ==> c in s
  {
    var t := if s != [] && s[0] == '-' then s[1..] else s;
    if t != [] && t[|t| - 1] == '-' then t[..|t| - 1] else t
  }

  /** Once runs of hyphens are collapsed, removing one hyphen per end is enough to
      leave none at either end. */
  lemma StripEdgeHyphenAfterCollapse(s: string)
    requires NoDoubleHyphen(s)
    ensures NoEdge(StripEdgeHyphen(s), Hyphen) && NoDoubleHyphen(StripEdgeHyphen(s))
  {
    var t := if s != [] && s[0] == '-' then s[1..] else s;
    var i := |s| - |t|;
    NoDoubleHyphenSlice(s, i, |s|);
    assert t == s[i..];
    assert t != [] ==> t[0] != '-' || i == 0;
    var r := StripEdgeHyphen(s);
    if t != [] && t[|t| - 1] == '-' {
      NoDoubleHyphenSlice(t, 0, |t| - 1);
      assert r == t[..|t| - 1];
      assert |t| >= 2 ==> t[|t| - 2] != '-';
    }
  }

  // ---------------------------------------------------------------- join and words

  /** `.join('-')`: the first element starts the result. */
  function JoinHyphen(ws: seq<string>): (r: string)
    ensures ws != [] ==> StartsWith(r, ws[0])
  {
    if ws == [] then [] else if |ws| == 1 then ws[0] else ws[0] + "-" + JoinHyphen(ws[1..])
  }

  /** The last element ends the joined string. */
  lemma {:induction false} JoinHyphenLast(ws: seq<string>)
    requires ws != []
    ensures EndsWith(JoinHyphen(ws), ws[|ws| - 1])
  {
    if |ws| > 1 {
      JoinHyphenLast(ws[1..]);
      assert ws[1..][|ws[1..]| - 1] == ws[|ws| - 1];
      var rest := JoinHyphen(ws[1..]);
      var r := ws[0] + "-" + rest;
      assert r[|r| - |rest|..] == rest;
    }
  }

  lemma {:induction false} JoinHyphenAppend(ws: seq<string>, w: string)
    requires ws != []
    ensures JoinHyphen(ws + [w]) == JoinHyphen(ws) + "-" + w
  {
    if |ws| == 1 {
      assert ws + [w] == [ws[0], w];
    } else {
      assert (ws + [w])[0] == ws[0] && (ws + [w])[1..] == ws[1..] + [w];
      JoinHyphenAppend(ws[1..], w);
      AppendAssoc(ws[0] + "-", JoinHyphen(ws[1..]), "-" + w);
    }
  }

  /** The length of the longest prefix of `k` that holds no character of `sep`. */
  function WordLen(k: string, sep: CharClass): (n: nat)
    ensures n <= |k|
    ensures forall i :: 0 <= i < n ==> !In(sep, k[i])
    ensures n < |k| ==> In(sep, k[n])
  {
    if k == [] || In(sep, k[0]) then 0 else 1 + WordLen(k[1..], sep)
  }

  /** The words of `k`: its maximal non-empty runs of characters outside `sep`,
      in order. */
  function Words(k: string, sep: CharClass): (r: seq<string>)
    ensures forall w :: w in r ==> w != [] && forall c :: c in w ==> !In(sep, c)
    decreases |k|
  {
    if k == [] then []
    else if In(sep, k[0]) then Words(k[1..], sep)
    else
      var n := WordLen(k, sep);
      assert forall c :: c in k[..n] ==> !In(sep, c);
      [k[..n]] + Words(k[n..], sep)
  }

  /** A word followed by the end of the text or by a separator is read whole. */
  lemma {:induction false} WordLenOfWord(w: string, y: string, sep: CharClass)
    requires forall c :: c in w ==> !In(sep, c)
    requires y == [] || In(sep, y[0])
    ensures WordLen(w + y, sep) == |w|
  {
    if w == [] {
      assert w + y == y;
    } else {
      assert w[0] in w && (w + y)[0] == w[0] && (w + y)[1..] == w[1..] + y;
      assert forall c :: c in w[1..] ==> c in w;
      WordLenOfWord(w[1..], y, sep);
    }
  }

  /** A text without separators is one word, or none when it is empty. */
  lemma WordsOfWord(w: string, sep: CharClass)
    requires forall c :: c in w ==> !In(sep, c)
    ensures Words(w, sep) == if w == [] then [] else [w]
  {
    if w != [] {
      WordLenOfWord(w, [], sep);
      assert w + [] == w && w[0] in w;
      assert w[..|w|] == w && w[|w|..] == [];
    }
  }

  /** A separator ends the word before it and starts no word of its own; so
      `Words("a b", Space) == ["a", "b"]`. */
  lemma WordsSplit(w: string, c: char, z: string, sep: CharClass)
    requires forall x :: x in w ==> !In(sep, x)
    requires In(sep, c)
    ensures Words(w + [c] + z, sep) == (if w == [] then [] else [w]) + Words(z, sep)
  {
    var k := w + [c] + z;
    if w == [] {
      assert k[0] == c && k[1..] == z;
    } else {
      assert k == w + ([c] + z);
      WordLenOfWord(w, [c] + z, sep);
      assert w[0] in w && k[0] == w[0];
      assert k[..|w|] == w && k[|w|..] == [c] + z;
      assert ([c] + z)[1..] == z;
    }
  }

  /** A capital letter, a space and a small letter make two one-letter words. */
  lemma TwoLetterWords(u: char, sp: char, v: char, sep: CharClass)
    requires IsUpper(u) && IsSpace(sp) && IsLower(v)
    requires In(sep, sp) && !In(sep, LowerChar(u)) && !In(sep, v)
    ensures JoinHyphen(Words(Keep(Lower([u, sp, v]), WordSpaceHyphen), sep)) == [LowerChar(u), '-', v]
  {
    var a, b := [LowerChar(u)], [v];
    TwoLetterText(u, sp, v);
    WordsSplit(a, sp, b, sep);
    WordsOfWord(b, sep);
    JoinHyphenCons(a, [b]);
    assert JoinHyphen([b]) == b;
  }

  lemma TwoLetterText(u: char, sp: char, v: char)
    requires IsUpper(u) && IsSpace(sp) && IsLower(v)
    ensures Keep(Lower([u, sp, v]), WordSpaceHyphen) == [LowerChar(u)] + [sp] + [v]
  {
    var lowered := Lower([u, sp, v]);
    assert lowered == [LowerChar(u)] + [sp] + [v] by {
      assert lowered[0] == LowerChar(u) && lowered[1] == LowerChar(sp) && lowered[2] == LowerChar(v);
    }
    assert forall c :: c in lowered ==> c == LowerChar(u) || c == sp || c == v;
    KeepIdentity(lowered, WordSpaceHyphen);
  }

  /** A separator at the end adds no word. */
  lemma {:induction false} WordsAppendSep(z: string, c: char, sep: CharClass)
    requires In(sep, c)
    ensures Words(z + [c], sep) == Words(z, sep)
    decreases |z|
  {
    var k := z + [c];
    if z == [] {
      assert k[0] == c && k[1..] == [];
    } else if In(sep, z[0]) {
      assert k[0] == z[0] && k[1..] == z[1..] + [c];
      WordsAppendSep(z[1..], c, sep);
    } else {
      var n := WordLen(z, sep);
      var w, rest := z[..n], z[n..];
      assert z == w + rest;
      WordsAppendSep(rest, c, sep);
      WordsAppendSepAfterWord(w, rest, c, sep);
    }
  }

  /** The step of WordsAppendSep for a text that starts with a whole word. */
  lemma WordsAppendSepAfterWord(w: string, rest: string, c: char, sep: CharClass)
    requires In(sep, c) && w != []
    requires forall i :: 0 <= i < |w| ==> !In(sep, w[i])
    requires rest == [] || In(sep, rest[0])
    requires Words(rest + [c], sep) == Words(rest, sep)
    ensures Words(w + rest + [c], sep) == Words(w + rest, sep)
  {
    assert forall x :: x in w ==> !In(sep, x);
    WordLenOfWord(w, rest + [c], sep);
    WordLenOfWord(w, rest, sep);
    AppendAssoc(w, rest, [c]);
    var k, k' := w + (rest + [c]), w + rest;
    assert k[0] == w[0] && k'[0] == w[0];
    assert k[..|w|] == w && k[|w|..] == rest + [c];
    assert k'[..|w|] == w && k'[|w|..] == rest;
  }

  /** When `y` starts outside `cls`, removing the trailing run of `cls` never reaches `x`. */
  lemma {:induction false} DropTrailingAppend(x: string, y: string, cls: CharClass)
    requires y != [] && !In(cls, y[0])
    ensures DropTrailing(x + y, cls) == x + DropTrailing(y, cls)
    decreases |y|
  {
    var s := x + y;
    if In(cls, y[|y| - 1]) {
      var y' := y[..|y| - 1];
      assert s[|s| - 1] == y[|y| - 1] && s[..|s| - 1] == x + y';
      DropTrailingAppend(x, y', cls);
    }
  }

  /** A word, one hyphen, and then text that does not start with a hyphen: stripping
      the edge hyphens leaves the word joined to the stripped rest, or the word alone
      when nothing is left of the rest. */
  lemma StripAfterWord(w: string, y: string)
    requires w != [] && forall c :: c in w ==> c != '-'
    requires y == [] || y[0] != '-'
    ensures Strip(w + "-" + y, Hyphen)
              == if Strip(y, Hyphen) == [] then w else w + "-" + Strip(y, Hyphen)
  {
    var s := w + "-" + y;
    assert w[0] in w && s[0] == w[0];
    assert DropLeading(s, Hyphen) == s;
    assert w[|w| - 1] in w;
    if y == [] {
      assert s[..|s| - 1] == w;
      assert DropTrailing(w, Hyphen) == w;
    } else {
      DropTrailingAppend(w + "-", y, Hyphen);
      DropTrailingKeepsHead(y, Hyphen);
    }
  }

  /** `join('-')` of a list that starts with `w`: `w` alone, or `w`, a hyphen and
      the rest joined. */
  lemma JoinHyphenCons(w: string, ws: seq<string>)
    ensures JoinHyphen([w] + ws) == if ws == [] then w else w + "-" + JoinHyphen(ws)
  {
    assert ([w] + ws)[0] == w && ([w] + ws)[1..] == ws;
  }

  /** Joining non-empty strings gives the empty string only for the empty list. */
  lemma JoinHyphenEmpty(ws: seq<string>)
    requires forall w :: w in ws ==> w != []
    ensures JoinHyphen(ws) == [] <==> ws == []
  {
    if ws != [] {
      assert ws[0] in ws;
    }
  }

  lemma StripLeadingHyphen(y: string)
    ensures Strip("-" + y, Hyphen) == Strip(y, Hyphen)
  {
    assert ("-" + y)[0] == '-' && ("-" + y)[1..] == y;
  }

  /** Turning each run of `sep` into one `-` and then removing the edge hyphens
      joins the words of the text with single hyphens, whatever the run state at
      the start. */
  lemma {:induction false} CollapseStripIsJoin(k: string, sep: CharClass, inRun: bool)
    requires In(sep, '-')
    ensures Strip(CollapseRuns(k, sep, inRun), Hyphen) == JoinHyphen(Words(k, sep))
    decreases |k|
  {
    if k == [] {
    } else if In(sep, k[0]) {
      assert k == [k[0]] + k[1..];
      CollapseStripIsJoin(k[1..], sep, true);
      CollapseStripSep(k[0], k[1..], sep, inRun);
    } else {
      var n := WordLen(k, sep);
      var w := k[..n];
      assert forall c :: c in w ==> !In(sep, c);
      if n == |k| {
        assert k == w;
        CollapseStripWordEnd(w, sep, inRun);
      } else {
        var c, z := k[n], k[n + 1..];
        assert k == w + [c] + z;
        CollapseStripIsJoin(z, sep, true);
        CollapseStripWordSep(w, c, z, sep, inRun);
      }
    }
  }

  /** CollapseStripIsJoin for a text that starts with a separator, given it for the
      rest. */
  lemma CollapseStripSep(c: char, z: string, sep: CharClass, inRun: bool)
    requires In(sep, '-') && In(sep, c)
    requires Strip(CollapseRuns(z, sep, true), Hyphen) == JoinHyphen(Words(z, sep))
    ensures Strip(CollapseRuns([c] + z, sep, inRun), Hyphen) == JoinHyphen(Words([c] + z, sep))
  {
    StripCollapseSep(c, z, sep, inRun);
    WordsLeadingSep(c, z, sep);
  }

  /** A leading separator leaves nothing behind once the edge hyphens are stripped. */
  lemma StripCollapseSep(c: char, z: string, sep: CharClass, inRun: bool)
    requires In(sep, c)
    ensures Strip(CollapseRuns([c] + z, sep, inRun), Hyphen) == Strip(CollapseRuns(z, sep, true), Hyphen)
  {
    var y := CollapseRuns(z, sep, true);
    assert ([c] + z)[0] == c && ([c] + z)[1..] == z;
    if inRun {
      assert CollapseRuns([c] + z, sep, inRun) == y;
    } else {
      assert CollapseRuns([c] + z, sep, inRun) == "-" + y;
      StripLeadingHyphen(y);
    }
  }

  /** A leading separator starts no word. */
  lemma WordsLeadingSep(c: char, z: string, sep: CharClass)
    requires In(sep, c)
    ensures Words([c] + z, sep) == Words(z, sep)
  {
    assert ([c] + z)[0] == c && ([c] + z)[1..] == z;
  }

  /** CollapseStripIsJoin for a text that is one word. */
  lemma CollapseStripWordEnd(w: string, sep: CharClass, inRun: bool)
    requires In(sep, '-') && w != [] && forall c :: c in w ==> !In(sep, c)
    ensures Strip(CollapseRuns(w, sep, inRun), Hyphen) == JoinHyphen(Words(w, sep))
  {
    assert w[0] in w && w[|w| - 1] in w;
    CollapseRunsIdentity(w, sep, inRun);
    WordsOfWord(w, sep);
    StripIdentity(w, Hyphen);
  }

  /** CollapseStripIsJoin for a text that starts with a word and a separator,
      given it for what follows the separator. */
  lemma CollapseStripWordSep(w: string, c: char, z: string, sep: CharClass, inRun: bool)
    requires In(sep, '-') && w != [] && forall x :: x in w ==> !In(sep, x)
    requires In(sep, c)
    requires Strip(CollapseRuns(z, sep, true), Hyphen) == JoinHyphen(Words(z, sep))
    ensures Strip(CollapseRuns(w + [c] + z, sep, inRun), Hyphen) == JoinHyphen(Words(w + [c] + z, sep))
  {
    var y := CollapseRuns(z, sep, true);
    var ws := Words(z, sep);
    CollapseWordSep(w, c, z, sep, inRun);
    StripAfterWord(w, y);
    WordsSplit(w, c, z, sep);
    JoinHyphenCons(w, ws);
    JoinHyphenEmpty(ws);
  }

  /** A word followed by a separator run: the word stays, and the run becomes one `-`. */
  lemma CollapseWordSep(w: string, c: char, z: string, sep: CharClass, inRun: bool)
    requires In(sep, '-') && w != [] && forall x :: x in w ==> !In(sep, x)
    requires In(sep, c)
    ensures CollapseRuns(w + [c] + z, sep, inRun) == w + "-" + CollapseRuns(z, sep, true)
  {
    var y := CollapseRuns(z, sep, true);
    assert w[|w| - 1] in w;
    CollapseRunsIdentity(w, sep, inRun);
    AppendAssoc(w, [c], z);
    CollapseRunsAppend(w, [c] + z, sep, inRun);
    assert ([c] + z)[0] == c && ([c] + z)[1..] == z;
    assert CollapseRuns([c] + z, sep, false) == "-" + y;
    AppendAssoc(w, "-", y);
  }

  lemma {:induction false} WordsKeepDropLeading(x: string, keep: CharClass, sep: CharClass)
    requires SubClass(Space, keep) && SubClass(Space, sep)
    ensures Words(Keep(DropLeading(x, Space), keep), sep) == Words(Keep(x, keep), sep)
  {
    if x != [] && IsSpace(x[0]) {
      var z := Keep(x[1..], keep);
      assert Keep(x, keep) == [x[0]] + z;
      assert ([x[0]] + z)[0] == x[0] && ([x[0]] + z)[1..] == z;
      WordsKeepDropLeading(x[1..], keep, sep);
    }
  }

  lemma {:induction false} WordsKeepDropTrailing(x: string, keep: CharClass, sep: CharClass)
    requires SubClass(Space, keep) && SubClass(Space, sep)
    ensures Words(Keep(DropTrailing(x, Space), keep), sep) == Words(Keep(x, keep), sep)
    decreases |x|
  {
    if x != [] && IsSpace(x[|x| - 1]) {
      var init, last := x[..|x| - 1], x[|x| - 1];
      assert x == init + [last];
      assert DropTrailing(x, Space) == DropTrailing(init, Space);
      KeepLastSpace(init, last, keep);
      WordsAppendSep(Keep(init, keep), last, sep);
      WordsKeepDropTrailing(init, keep, sep);
    } else {
      assert DropTrailing(x, Space) == x;
    }
  }

  lemma KeepLastSpace(init: string, last: char, keep: CharClass)
    requires In(keep, last)
    ensures Keep(init + [last], keep) == Keep(init, keep) + [last]
  {
    KeepAppend(init, [last], keep);
    assert Keep([last], keep) == [last] + Keep([], keep);
  }

  /** Whitespace trimmed from the ends is separators only, so it takes no word
      away. */
  lemma WordsKeepTrim(x: string, keep: CharClass, sep: CharClass)
    requires SubClass(Space, keep) && SubClass(Space, sep)
    ensures Words(Keep(Trim(x), keep), sep) == Words(Keep(x, keep), sep)
  {
    WordsKeepDropLeading(x, keep, sep);
    WordsKeepDropTrailing(DropLeading(x, Space), keep, sep);
  }
}
