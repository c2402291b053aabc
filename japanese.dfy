/** The furigana annotator: `convertAnkiFuriganaToRuby` rewrites every
    `phrase[reading]` that stands at the start of the text or right after a
    whitespace character into `<ruby>phrase<rt>reading</rt></ruby>`, then
    deletes every U+0020 space of the result. */
module Japanese {
  import opened Strings

  /** One character of `JapaneseRegexString`: CJK ideographs 一-龠, hiragana
      ぁ-ゔ, katakana ァ-ヴ and ー, ASCII letters and digits, full-width
      letters and digits, and 々 〆 〤. */
  predicate IsPhraseChar(c: char)
  {
    ('\U{4E00}' <= c <= '\U{9FA0}')
    || ('\U{3041}' <= c <= '\U{3094}')
    || ('\U{30A1}' <= c <= '\U{30F4}') || c == '\U{30FC}'
    || ('a' <= c <= 'z') || ('A' <= c <= 'Z') || ('0' <= c <= '9')
    || ('\U{FF41}' <= c <= '\U{FF5A}') || ('\U{FF21}' <= c <= '\U{FF3A}') || ('\U{FF10}' <= c <= '\U{FF19}')
    || c == '\U{3005}' || c == '\U{3006}' || c == '\U{3024}'
  }

  /** One character of the phrase class, or with `spaced` of
      `JapaneseRegexStringSpaced`, which adds the space. */
  predicate InClass(c: char, spaced: bool)
  {
    IsPhraseChar(c) || (spaced && c == ' ')
  }

  /** No whitespace character belongs to the phrase class. */
  lemma {:induction false} WhitespaceNotPhrase(c: char)
    requires IsJsWhitespace(c)
    ensures !IsPhraseChar(c)
  {
  }

  /** Length of the longest prefix of `s` in the class: what a greedy `(?:…)+` takes. */
  function ClassRun(s: string, spaced: bool): nat
  {
    if |s| > 0 && InClass(s[0], spaced) then 1 + ClassRun(s[1..], spaced) else 0
  }

  /** The run is a prefix of class characters ended by the end of the text or
      by a character outside the class. */
  lemma {:induction false} ClassRunSpec(s: string, spaced: bool)
    ensures ClassRun(s, spaced) <= |s|
    ensures forall i :: 0 <= i < ClassRun(s, spaced) ==> InClass(s[i], spaced)
    ensures ClassRun(s, spaced) < |s| ==> !InClass(s[ClassRun(s, spaced)], spaced)
  {
    if |s| > 0 && InClass(s[0], spaced) {
      ClassRunSpec(s[1..], spaced);
    }
  }

  /** A run of class characters followed by a non-class character is taken whole. */
  lemma {:induction false} ClassRunOf(a: string, b: string, spaced: bool)
    requires forall i :: 0 <= i < |a| ==> InClass(a[i], spaced)
    requires |b| > 0 && !InClass(b[0], spaced)
    ensures ClassRun(a + b, spaced) == |a|
  {
    var s := a + b;
    ClassRunSpec(s, spaced);
    assert s[|a|] == b[0];
    assert forall i :: 0 <= i < |a| ==> s[i] == a[i];
  }

  /** The two captures of one match of the annotation pattern. */
  datatype Annotation = Annotation(phrase: string, reading: string)

  /** The text `phrase[reading]` that a match spans. */
  function MatchText(a: Annotation): string
  {
    a.phrase + "[" + a.reading + "]"
  }

  /** `(JapaneseRegexString)\[(JapaneseRegexStringSpaced)\]` tried at the
      start of `s`. Both runs are greedy and neither class holds a bracket,
      so backtracking cannot find another match. */
  function MatchAnnotation(s: string): Option<Annotation>
  {
    var k := ClassRun(s, false);
    if 0 < k < |s| && s[k] == '[' then
      var m := k + 1 + ClassRun(s[k + 1..], true);
      if k + 1 < m < |s| && s[m] == ']' then Some(Annotation(s[..k], s[k + 1..m]))
      else None
    else None
  }

  /** A match spans its text at the front of `s`, and its two captures are
      non-empty runs of their classes. */
  lemma {:induction false} MatchSome(s: string, a: Annotation)
    requires MatchAnnotation(s) == Some(a)
    ensures MatchText(a) <= s
    ensures |a.phrase| > 0 && |a.reading| > 0
    ensures forall i :: 0 <= i < |a.phrase| ==> IsPhraseChar(a.phrase[i])
    ensures forall i :: 0 <= i < |a.reading| ==> InClass(a.reading[i], true)
  {
    var k := ClassRun(s, false);
    ClassRunSpec(s, false);
    var m := k + 1 + ClassRun(s[k + 1..], true);
    ClassRunSpec(s[k + 1..], true);
    assert s[..m + 1] == MatchText(a);
    forall i | 0 <= i < |a.reading| ensures InClass(a.reading[i], true) {
      assert a.reading[i] == s[k + 1..][i];
    }
  }

  /** Every match holds a `[`. */
  lemma {:induction false} MatchNeedsBracket(s: string)
    ensures MatchAnnotation(s).Some? ==> '[' in s
  {
    var k := ClassRun(s, false);
    if 0 < k < |s| && s[k] == '[' {
      assert s[k] in s;
    }
  }

  /** `match.split(c)[0]`: the text before the first `c`. */
  function Before(s: string, c: char): (t: string)
    ensures t <= s && c !in t
    ensures |t| < |s| ==> s[|t|] == c
  {
    if |s| == 0 || s[0] == c then [] else [s[0]] + Before(s[1..], c)
  }

  /** The text after the first `c`, from which `split(c)[1]` is taken. */
  function After(s: string, c: char): (t: string)
    requires c in s
    ensures s == Before(s, c) + [c] + t
  {
    if s[0] == c then s[1..] else After(s[1..], c)
  }

  lemma {:induction false} BeforeOf(a: string, c: char, b: string)
    requires c !in a
    ensures Before(a + [c] + b, c) == a
    ensures After(a + [c] + b, c) == b
    decreases |a|
  {
    if |a| > 0 {
      assert (a + [c] + b)[1..] == a[1..] + [c] + b;
      BeforeOf(a[1..], c, b);
    }
  }

  lemma {:induction false} BeforeAbsent(s: string, c: char)
    requires c !in s
    ensures Before(s, c) == s
    decreases |s|
  {
    if |s| > 0 {
      BeforeAbsent(s[1..], c);
    }
  }

  function Ruby(phrase: string, reading: string): string
  {
    "<ruby>" + phrase + "<rt>" + reading + "</rt></ruby>"
  }

  /** The replacement callback: the phrase is `match.split("[")[0]` and the
      reading `match.split("[")[1].split("]")[0]`. */
  function RubyOfMatch(m: string): string
    requires '[' in m
  {
    var phrase := Before(m, '[');
    var reading := Before(Before(After(m, '['), '['), ']');
    Ruby(phrase, reading)
  }

  /** Splitting a match on its brackets gives back exactly the two captures. */
  lemma {:induction false} SplitRecoversCaptures(a: Annotation)
    requires '[' !in a.phrase && '[' !in a.reading && ']' !in a.reading
    ensures '[' in MatchText(a)
    ensures RubyOfMatch(MatchText(a)) == Ruby(a.phrase, a.reading)
  {
    var m := MatchText(a);
    assert m == a.phrase + ['['] + (a.reading + "]");
    BeforeOf(a.phrase, '[', a.reading + "]");
    BeforeAbsent(a.reading + "]", '[');
    BeforeOf(a.reading, ']', []);
    assert a.reading + "]" == a.reading + [']'] + [];
  }

  /** Neither captured run holds a bracket. */
  lemma {:induction false} CapturesBracketFree(a: Annotation)
    requires forall i :: 0 <= i < |a.phrase| ==> IsPhraseChar(a.phrase[i])
    requires forall i :: 0 <= i < |a.reading| ==> InClass(a.reading[i], true)
    ensures '[' !in a.phrase && '[' !in a.reading && ']' !in a.reading && ']' !in a.phrase
  {
  }

  /** The global replace with a lookbehind `(?<=(\s|^))`: `atBoundary` holds
      at the start of the input and right after a whitespace character of
      the input, which the lookbehind inspects without consuming. */
  function Annotate(s: string, atBoundary: bool): string
    decreases |s|
  {
    if |s| == 0 then []
    else if atBoundary && MatchAnnotation(s).Some? then
      var a := MatchAnnotation(s).value;
      MatchSome(s, a);
      var n := |MatchText(a)|;
      assert '[' in s[..n] by { assert s[..n][|a.phrase|] == '['; }
      // the character before the rest is the closing `]`, not whitespace
      RubyOfMatch(s[..n]) + Annotate(s[n..], false)
    else
      [s[0]] + Annotate(s[1..], IsJsWhitespace(s[0]))
  }

  /** `convertAnkiFuriganaToRuby`. */
  function ConvertAnkiFuriganaToRuby(s: string): string
  {
    ReplaceAll(Annotate(s, true), " ", "")
  }

  lemma {:induction false} AbsentNotContained(s: string, c: char)
    requires c !in s
    ensures !Contains(s, [c])
  {
    forall i | 0 <= i < |s| ensures !OccursAt(s, [c], i) {
      NotOccursAtHead(s, [c], i);
    }
  }

  /** The result never holds a U+0020 space. */
  lemma {:induction false} ConvertHasNoSpace(s: string)
    ensures ' ' !in ConvertAnkiFuriganaToRuby(s)
  {
    ReplaceAllDeletesChar(Annotate(s, true), ' ');
  }

  /** Without a `[` nothing is annotated. */
  lemma {:induction false} AnnotateWithoutBracket(s: string, b: bool)
    requires '[' !in s
    ensures Annotate(s, b) == s
    decreases |s|
  {
    if |s| > 0 {
      MatchNeedsBracket(s);
      AnnotateWithoutBracket(s[1..], IsJsWhitespace(s[0]));
    }
  }

  /** An input holding no `[` comes back with only its spaces removed. */
  lemma {:induction false} ConvertWithoutBracket(s: string)
    requires '[' !in s
    ensures ConvertAnkiFuriganaToRuby(s) == ReplaceAll(s, " ", "")
  {
    AnnotateWithoutBracket(s, true);
  }

  /** The match the two runs and the brackets delimit. */
  lemma {:induction false} MatchAt(s: string, k: nat, m: nat)
    requires 0 < k < |s| && ClassRun(s, false) == k && s[k] == '['
    requires k + 1 < m < |s| && ClassRun(s[k + 1..], true) == m - k - 1 && s[m] == ']'
    ensures MatchAnnotation(s) == Some(Annotation(s[..k], s[k + 1..m]))
  {
  }

  /** `phrase[reading]` at the front of a text is matched with exactly these captures. */
  lemma {:induction false} MatchOfText(phrase: string, reading: string, rest: string)
    requires |phrase| > 0 && forall i :: 0 <= i < |phrase| ==> IsPhraseChar(phrase[i])
    requires |reading| > 0 && forall i :: 0 <= i < |reading| ==> InClass(reading[i], true)
    ensures MatchAnnotation(phrase + "[" + reading + "]" + rest) == Some(Annotation(phrase, reading))
  {
    var s := phrase + "[" + reading + "]" + rest;
    var k, m := |phrase|, |phrase| + 1 + |reading|;
    var tail := reading + ("]" + rest);
    assert s == phrase + ("[" + tail);
    ClassRunOf(phrase, "[" + tail, false);
    assert s[k + 1..] == tail;
    ClassRunOf(reading, "]" + rest, true);
    assert s[..k] == phrase;
    assert s[k + 1..m] == reading;
    MatchAt(s, k, m);
  }

  /** A match at a boundary is replaced by its ruby markup. */
  lemma {:induction false} AnnotateHit(s: string, a: Annotation)
    requires MatchAnnotation(s) == Some(a)
    ensures |MatchText(a)| <= |s| && s[..|MatchText(a)|] == MatchText(a)
    ensures Annotate(s, true) == RubyOfMatch(MatchText(a)) + Annotate(s[|MatchText(a)|..], false)
  {
    MatchSome(s, a);
  }

  /** At a boundary, `phrase[reading]` becomes ruby markup, and the text
      after the `]` is not at a boundary. */
  lemma {:induction false} AnnotateMatch(phrase: string, reading: string, rest: string)
    requires |phrase| > 0 && forall i :: 0 <= i < |phrase| ==> IsPhraseChar(phrase[i])
    requires |reading| > 0 && forall i :: 0 <= i < |reading| ==> InClass(reading[i], true)
    ensures Annotate(phrase + "[" + reading + "]" + rest, true)
         == Ruby(phrase, reading) + Annotate(rest, false)
  {
    var s := phrase + "[" + reading + "]" + rest;
    var a := Annotation(phrase, reading);
    MatchOfText(phrase, reading, rest);
    AnnotateHit(s, a);
    assert s[|MatchText(a)|..] == rest;
    CapturesBracketFree(a);
    SplitRecoversCaptures(a);
  }

  /** Whitespace before an annotation is kept: the lookbehind only looks at it. */
  lemma {:induction false} AnnotateAfterWhitespace(w: char, phrase: string, reading: string, rest: string, b: bool)
    requires IsJsWhitespace(w)
    requires |phrase| > 0 && forall i :: 0 <= i < |phrase| ==> IsPhraseChar(phrase[i])
    requires |reading| > 0 && forall i :: 0 <= i < |reading| ==> InClass(reading[i], true)
    ensures Annotate([w] + phrase + "[" + reading + "]" + rest, b)
         == [w] + Ruby(phrase, reading) + Annotate(rest, false)
  {
    var s := [w] + phrase + "[" + reading + "]" + rest;
    WhitespaceNotPhrase(w);
    assert MatchAnnotation(s).None?;
    assert s[1..] == phrase + "[" + reading + "]" + rest;
    AnnotateMatch(phrase, reading, rest);
  }

  /** Text free of whitespace that does not start at a boundary is left alone. */
  lemma {:induction false} AnnotateOffBoundary(s: string)
    requires forall i :: 0 <= i < |s| ==> !IsJsWhitespace(s[i])
    ensures Annotate(s, false) == s
    decreases |s|
  {
    if |s| > 0 {
      AnnotateOffBoundary(s[1..]);
    }
  }

  /** An annotation glued to a preceding character that is neither
      whitespace nor a phrase character (`>猫[ねこ]`) is not rewritten. */
  lemma {:induction false} NotRewrittenAfterOtherChar(c: char, t: string)
    requires !IsJsWhitespace(c) && !IsPhraseChar(c)
    requires forall i :: 0 <= i < |t| ==> !IsJsWhitespace(t[i])
    ensures ConvertAnkiFuriganaToRuby([c] + t) == [c] + t
  {
    var s := [c] + t;
    assert MatchAnnotation(s).None?;
    assert s[1..] == t;
    AnnotateOffBoundary(t);
    assert ' ' !in s by {
      assert forall i :: 0 <= i < |s| ==> !IsJsWhitespace(s[i]);
    }
    AbsentNotContained(s, ' ');
    ReplaceAllAbsent(s, " ", "");
  }

  /** Characters outside both classes, the brackets and the markup's `<`,
      `>` and `/` are never added or removed by the annotation. */
  predicate Untouched(x: char)
  {
    !InClass(x, true) && x != '[' && x != ']' && x != '<' && x != '>' && x != '/'
  }

  lemma {:induction false} RubyCount(a: Annotation, x: char)
    requires Untouched(x)
    requires forall i :: 0 <= i < |a.phrase| ==> IsPhraseChar(a.phrase[i])
    requires forall i :: 0 <= i < |a.reading| ==> InClass(a.reading[i], true)
    ensures multiset(Ruby(a.phrase, a.reading))[x] == 0
    ensures multiset(MatchText(a))[x] == 0
  {
    assert x !in a.phrase;
    assert x !in a.reading;
    assert x !in Ruby(a.phrase, a.reading);
    assert x !in MatchText(a);
  }

  lemma {:induction false} MatchKeepsCount(s: string, n: nat, x: char)
    requires Untouched(x) && MatchAnnotation(s).Some? && n == |MatchText(MatchAnnotation(s).value)|
    ensures n <= |s|
    ensures multiset(Annotate(s, true))[x] == multiset(Annotate(s[n..], false))[x]
    ensures multiset(s[..n])[x] == 0
  {
    var a := MatchAnnotation(s).value;
    MatchSome(s, a);
    assert s[..n] == MatchText(a);
    CapturesBracketFree(a);
    SplitRecoversCaptures(a);
    RubyCount(a, x);
    assert Annotate(s, true) == RubyOfMatch(s[..n]) + Annotate(s[n..], false);
  }

  lemma {:induction false} AnnotateCopies(s: string, b: bool)
    requires |s| > 0 && !(b && MatchAnnotation(s).Some?)
    ensures Annotate(s, b) == [s[0]] + Annotate(s[1..], IsJsWhitespace(s[0]))
  {
  }

  lemma {:induction false} MultisetSplit(s: string, n: nat)
    requires n <= |s|
    ensures multiset(s) == multiset(s[..n]) + multiset(s[n..])
  {
    assert s == s[..n] + s[n..];
  }

  lemma {:induction false} AnnotateKeepsCount(s: string, b: bool, x: char)
    requires Untouched(x)
    ensures multiset(Annotate(s, b))[x] == multiset(s)[x]
    decreases |s|, 1
  {
    if |s| > 0 {
      if b && MatchAnnotation(s).Some? {
        MatchCaseKeepsCount(s, x);
      } else {
        CopyCaseKeepsCount(s, b, x);
      }
    }
  }

  lemma {:induction false} MatchCaseKeepsCount(s: string, x: char)
    requires Untouched(x) && |s| > 0 && MatchAnnotation(s).Some?
    ensures multiset(Annotate(s, true))[x] == multiset(s)[x]
    decreases |s|, 0
  {
    var n := |MatchText(MatchAnnotation(s).value)|;
    MatchKeepsCount(s, n, x);
    AnnotateKeepsCount(s[n..], false, x);
    MultisetSplit(s, n);
  }

  lemma {:induction false} CopyCaseKeepsCount(s: string, b: bool, x: char)
    requires Untouched(x) && |s| > 0 && !(b && MatchAnnotation(s).Some?)
    ensures multiset(Annotate(s, b))[x] == multiset(s)[x]
    decreases |s|, 0
  {
    AnnotateKeepsCount(s[1..], IsJsWhitespace(s[0]), x);
    AnnotateCopies(s, b);
    MultisetSplit(s, 1);
    assert s[..1] == [s[0]];
  }

  /** Every whitespace character other than U+0020 (newline, tab, ideographic
      space, …) survives in the same number. */
  lemma {:induction false} ConvertKeepsOtherWhitespace(s: string, x: char)
    requires IsJsWhitespace(x) && x != ' '
    ensures multiset(ConvertAnkiFuriganaToRuby(s))[x] == multiset(s)[x]
  {
    WhitespaceNotPhrase(x);
    AnnotateKeepsCount(s, true, x);
    ReplaceAllKeepsCount(Annotate(s, true), " ", x);
  }

  lemma {:induction false} NoSpaceInRuby(phrase: string, reading: string)
    requires ' ' !in phrase && ' ' !in reading
    ensures ' ' !in Ruby(phrase, reading)
  {
    assert ' ' !in "<ruby>" && ' ' !in "<rt>" && ' ' !in "</rt></ruby>";
  }

  /** `田中[たなか]さん` becomes `<ruby>田中<rt>たなか</rt></ruby>さん`. */
  lemma {:induction false} ExampleTanaka()
    ensures ConvertAnkiFuriganaToRuby("田中[たなか]さん")
         == "<ruby>" + "田中" + "<rt>" + "たなか" + "</rt></ruby>" + "さん"
  {
    assert "田中[たなか]さん" == "田中" + "[" + "たなか" + "]" + "さん";
    AnnotateMatch("田中", "たなか", "さん");
    AnnotateWithoutBracket("さん", false);
    NoSpaceInRuby("田中", "たなか");
    AbsentNotContained(Ruby("田中", "たなか") + "さん", ' ');
    ReplaceAllAbsent(Ruby("田中", "たなか") + "さん", " ", "");
  }

  /** Deleting the spaces of `a + " " + b`, where only the middle one is a space. */
  lemma {:induction false} DeleteAfterPlain(a: string, c: char, b: string)
    requires c !in a
    ensures ReplaceAll(a + ([c] + b), [c], []) == a + ReplaceAll([c] + b, [c], [])
  {
    ReplaceAllSkip(a, [c] + b, [c], []);
  }

  lemma {:induction false} DeleteLeading(c: char, b: string)
    requires c !in b
    ensures ReplaceAll([c] + b, [c], []) == b
  {
    ReplaceAllHit([c], b, []);
    AbsentNotContained(b, c);
    ReplaceAllAbsent(b, [c], []);
  }

  /** Deleting `c` from `a + [c] + b`, where only the middle character is a `c`. */
  lemma {:induction false} StripOneSpace(a: string, c: char, b: string)
    requires c !in a && c !in b
    ensures ReplaceAll(a + [c] + b, [c], []) == a + b
  {
    assert a + [c] + b == a + ([c] + b);
    DeleteAfterPlain(a, c, b);
    DeleteLeading(c, b);
  }

  lemma {:induction false} AnnotateSpacedReading()
    ensures Annotate("猫[ね こ]", true) == Ruby("猫", "ね こ")
  {
    assert "猫[ね こ]" == "猫" + "[" + "ね こ" + "]" + "";
    AnnotateMatch("猫", "ね こ", "");
  }

  /** A single space inside a reading is dropped from the finished markup. */
  lemma {:induction false} StripRubySpace(phrase: string, r1: string, r2: string)
    requires ' ' !in phrase && ' ' !in r1 && ' ' !in r2
    ensures ReplaceAll(Ruby(phrase, r1 + [' '] + r2), " ", "") == Ruby(phrase, r1 + r2)
  {
    var a := "<ruby>" + phrase + "<rt>" + r1;
    var b := r2 + "</rt></ruby>";
    assert ' ' !in "<ruby>" && ' ' !in "<rt>" && ' ' !in "</rt></ruby>";
    assert Ruby(phrase, r1 + [' '] + r2) == a + [' '] + b;
    StripOneSpace(a, ' ', b);
  }

  /** Spaces inside a reading are matched and then stripped. */
  lemma {:induction false} ExampleSpacedReading()
    ensures ConvertAnkiFuriganaToRuby("猫[ね こ]") == Ruby("猫", "ねこ")
  {
    AnnotateSpacedReading();
    assert "ね こ" == "ね" + [' '] + "こ";
    StripRubySpace("猫", "ね", "こ");
    assert "ね" + "こ" == "ねこ";
  }

  /** `>猫[ねこ]` is not at a boundary and stays as it is. */
  lemma {:induction false} ExampleNoBoundary()
    ensures ConvertAnkiFuriganaToRuby(">猫[ねこ]") == ">猫[ねこ]"
  {
    NotRewrittenAfterOtherChar('>', "猫[ねこ]");
    assert ">猫[ねこ]" == ['>'] + "猫[ねこ]";
  }
}
