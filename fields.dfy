/** The field-templating engine: a card template is rewritten once per
    `(name, value)` field of a note, by a fixed chain of passes (conditional
    sections, hints, audio, plain substitution, furigana), and the result is
    finished by normalising `<br>`/`<hr>`, decoding entities and deleting
    script blocks.

    Every directive pattern the engine builds is `{{` + kind + name + `}}`
    compiled as a regular expression. The model matches it as a literal
    string, which is what the regular expression does for a plain field
    name (see `PlainName`). */
module Fields {
  import opened Strings
  import Records
  import Japanese

  // ---------------------------------------------------------------------
  // Field names and directives
  // ---------------------------------------------------------------------

  /** A character with a meaning of its own in regular-expression syntax. */
  predicate IsRegexSyntax(c: char)
  {
    c in "\\^$.|?*+()[]{}"
  }

  predicate IsAsciiDigit(c: char)
  {
    '0' <= c <= '9'
  }

  predicate AllDigits(s: string)
  {
    forall i | 0 <= i < |s| :: IsAsciiDigit(s[i])
  }

  /** `\d+` or `\d+,\d*`: in `{{s}}` the inner `{s}` is then read as a
      quantifier on the first brace (ECMAScript, Annex B), so the pattern no
      longer matches the directive text. */
  predicate IsQuantifierBody(s: string)
  {
    (|s| > 0 && AllDigits(s))
    || exists k | 0 < k < |s| :: s[k] == ',' && AllDigits(s[..k]) && AllDigits(s[k + 1..])
  }

  /** A field name whose directive patterns match exactly their own text. */
  predicate PlainName(name: string)
  {
    (forall i | 0 <= i < |name| :: !IsRegexSyntax(name[i])) && !IsQuantifierBody(name)
  }

  /** The directive `{{kind name}}`. */
  function Tag(kind: string, name: string): (t: string)
    ensures |t| == |kind| + |name| + 4 && t[0] == '{' && t[1] == '{' && t[|t| - 2..] == "}}"
  {
    "{{" + kind + name + "}}"
  }

  /** The record each pass hands to the next. */
  datatype Flattened = Flattened(card: string, name: string, value: string)

  /** `Partial<FieldOptions>`: an absent flag is `None`. */
  datatype FieldOptions = FieldOptions(mainAudio: Option<bool>, disableAutoplay: Option<bool>)

  predicate BraceFree(s: string)
  {
    '{' !in s && '}' !in s
  }

  lemma {:induction false} PlainNameBraceFree(name: string)
    requires PlainName(name)
    ensures BraceFree(name)
  {
    assert IsRegexSyntax('{') && IsRegexSyntax('}');
  }

  /** Two directives of one field with different kinds never start at the
      same place. */
  lemma {:induction false} TagMismatch(k1: string, k2: string, name: string, rest: string)
    requires k1 != k2 && BraceFree(k1) && BraceFree(k2) && BraceFree(name)
    ensures !(Tag(k2, name) <= Tag(k1, name) + rest)
  {
    var s := Tag(k1, name) + rest;
    var t := Tag(k2, name);
    var m1, m2 := |k1| + |name|, |k2| + |name|;
    if m1 < m2 {
      assert s[2 + m1] == '}';
      assert t[2 + m1] == (k2 + name)[m1];
    } else if m2 < m1 {
      assert t[2 + m2] == '}';
      assert s[2 + m2] == (k1 + name)[m2];
    } else {
      assert exists i :: 0 <= i < |k1| && k1[i] != k2[i];
      var i :| 0 <= i < |k1| && k1[i] != k2[i];
      assert s[2 + i] == k1[i] && t[2 + i] == k2[i];
    }
  }

  /** A directive, split after its two braces. */
  lemma {:induction false} TagBraces(kind: string, name: string, rest: string)
    ensures Tag(kind, name) + rest == ['{'] + (['{'] + ((kind + name + "}}") + rest))
  {
  }

  /** No directive of another kind starts at either brace of `Tag(k1, name)`. */
  lemma {:induction false} TagSplit(k1: string, k2: string, name: string, rest: string)
    requires k1 != k2 && BraceFree(k1) && BraceFree(k2) && BraceFree(name)
    ensures !(Tag(k2, name) <= ['{'] + (['{'] + ((k1 + name + "}}") + rest)))
    ensures !(Tag(k2, name) <= ['{'] + ((k1 + name + "}}") + rest))
    ensures '{' !in k1 + name + "}}" && Tag(k2, name)[0] == '{'
  {
    var tail := k1 + name + "}}";
    TagMismatch(k1, k2, name, rest);
    TagBraces(k1, name, rest);
    assert tail[0] in tail;
    assert (['{'] + (tail + rest))[1] == tail[0];
    assert Tag(k2, name)[1] == '{';
  }

  /** Scanning for one directive steps over a whole directive of another kind. */
  lemma {:induction false} ReplaceAllSkipTag(k1: string, k2: string, name: string, rest: string, r: string)
    requires k1 != k2 && BraceFree(k1) && BraceFree(k2) && BraceFree(name)
    ensures ReplaceAll(Tag(k1, name) + rest, Tag(k2, name), r)
         == Tag(k1, name) + ReplaceAll(rest, Tag(k2, name), r)
  {
    TagSplit(k1, k2, name, rest);
    TagBraces(k1, name, rest);
    TagBraces(k1, name, ReplaceAll(rest, Tag(k2, name), r));
    ReplaceAllSkipPair('{', '{', k1 + name + "}}", rest, Tag(k2, name), r);
  }

  lemma {:induction false} DeleteLazySkipTag(k1: string, k2: string, name: string, rest: string, close: string)
    requires k1 != k2 && BraceFree(k1) && BraceFree(k2) && BraceFree(name)
    ensures DeleteLazy(Tag(k1, name) + rest, Tag(k2, name), close)
         == Tag(k1, name) + DeleteLazy(rest, Tag(k2, name), close)
  {
    TagSplit(k1, k2, name, rest);
    TagBraces(k1, name, rest);
    TagBraces(k1, name, DeleteLazy(rest, Tag(k2, name), close));
    DeleteLazySkipPair('{', '{', k1 + name + "}}", rest, Tag(k2, name), close);
  }

  /** The empty options object `{}`. */
  const NoOptions := FieldOptions(None, None)

  /** JavaScript truthiness of an optional boolean. */
  predicate Truthy(b: Option<bool>)
  {
    b == Some(true)
  }

  // ---------------------------------------------------------------------
  // Conditional sections
  // ---------------------------------------------------------------------

  /** `value.trim() === ""`. */
  predicate IsBlank(value: string)
  {
    Trim(value) == []
  }

  /** The directive kinds a field's passes look for. */
  const Kinds: seq<string> := ["#", "^", "/", "hint:", "", "furigana:"]

  /** `card` carries some directive of field `name`. */
  predicate Mentions(card: string, name: string)
  {
    exists k | 0 <= k < |Kinds| :: Contains(card, Tag(Kinds[k], name))
  }

  /** A non-blank field deletes every shortest `{{^N}}…{{/N}}` section and
      then every `{{#N}}` and `{{/N}}` marker; a blank field deletes every
      shortest `{{#N}}…{{/N}}` section and then every `{{^N}}` and `{{/N}}`. */
  function FlattenFieldConditionals(card: string, name: string, value: string): Flattened
  {
    var close := Tag("/", name);
    var shown := if IsBlank(value) then Tag("^", name) else Tag("#", name);
    var hidden := if IsBlank(value) then Tag("#", name) else Tag("^", name);
    var c1 := DeleteLazy(card, hidden, close);
    var c2 := ReplaceAll(c1, shown, "");
    Flattened(ReplaceAll(c2, close, ""), name, value)
  }

  /** `x` holds none of the three section markers of field `name`. */
  predicate Unmarked(x: string, name: string)
  {
    !Contains(x, Tag("#", name)) && !Contains(x, Tag("^", name)) && !Contains(x, Tag("/", name))
  }

  /** A card with no section marker of the field passes through unchanged. */
  lemma {:induction false} ConditionalsUnmentioned(card: string, name: string, value: string)
    requires Unmarked(card, name)
    ensures FlattenFieldConditionals(card, name, value) == Flattened(card, name, value)
  {
    var close := Tag("/", name);
    var shown := if IsBlank(value) then Tag("^", name) else Tag("#", name);
    var hidden := if IsBlank(value) then Tag("#", name) else Tag("^", name);
    assert !Contains(card, close) && !Contains(card, shown) && !Contains(card, hidden);
    DeleteLazyAbsent(card, hidden, close);
    ReplaceAllAbsent(card, shown, "");
    ReplaceAllAbsent(card, close, "");
  }

  /** A directive of a brace-free name cannot straddle the end of a text
      that lacks it when the text goes on with `{{`. */
  lemma {:induction false} NoStraddle(x: string, t: string, k: string, name: string)
    requires BraceFree(k) && BraceFree(name) && |t| >= 2 && t[0] == '{' && t[1] == '{'
    requires !Contains(x, Tag(k, name))
    ensures NoneBefore(x + t, Tag(k, name), |x|)
  {
    var s, p := x + t, Tag(k, name);
    assert p[2..] == k + name + "}}";
    assert '{' !in p[2..];
    assert s[|x|] == '{' && s[|x| + 1] == '{';
    forall i | 0 <= i < |x| ensures !OccursAt(s, p, i) {
      OccursInFront(x, t, p, i);
      var d := |x| - i;
      OccursIndex(s, p, i, d);
      OccursIndex(s, p, i, 2);
      assert 2 <= d < |p| ==> p[d] == p[2..][d - 2];
      assert p[2] == p[2..][0];
    }
  }

  /** In `x{{/N}}` with no `{{/N}}` in `x`, the final closer is the first. */
  lemma {:induction false} CloserFirst(x: string, name: string)
    requires BraceFree(name) && !Contains(x, Tag("/", name))
    ensures !Contains(x + Tag("/", name)[..|Tag("/", name)| - 1], Tag("/", name))
  {
    var close := Tag("/", name);
    var c := close[..|close| - 1];
    assert c[0] == '{' && c[1] == '{';
    NoStraddle(x, c, "/", name);
  }

  /** `{{k N}} mid {{/N}}` is deleted as a whole section when `mid` holds no
      brace, or holds no `{{/N}}` of a brace-free name. */
  lemma {:induction false} DeleteSection(k: string, name: string, mid: string, rest: string)
    ensures ('{' !in mid || (BraceFree(name) && !Contains(mid, Tag("/", name)))) ==>
              DeleteLazy(Tag(k, name) + (mid + (Tag("/", name) + rest)), Tag(k, name), Tag("/", name))
              == DeleteLazy(rest, Tag(k, name), Tag("/", name))
  {
    var close := Tag("/", name);
    if '{' !in mid {
      FirstCloseAfter(mid, close);
    } else if BraceFree(name) && !Contains(mid, close) {
      CloserFirst(mid, name);
    }
    if '{' !in mid || (BraceFree(name) && !Contains(mid, close)) {
      var s := Tag(k, name) + (mid + (close + rest));
      assert s == Tag(k, name) + mid + close + rest;
      DeleteLazyHit(Tag(k, name), mid, close, rest);
    }
  }

  /** The two sections a shown and a hidden directive open, for one field. */
  function Sections(name: string, x: string, y: string): string
  {
    Tag("#", name) + (x + (Tag("/", name) + (Tag("^", name) + (y + Tag("/", name)))))
  }

  /** Scanning for `{{k N}}` copies a text that lacks it, up to a following `{{`. */
  lemma {:induction false} SkipUnmarked(x: string, t: string, k: string, name: string, close: string, r: string)
    requires BraceFree(k) && BraceFree(name) && |t| >= 2 && t[0] == '{' && t[1] == '{'
    requires !Contains(x, Tag(k, name))
    ensures DeleteLazy(x + t, Tag(k, name), close) == x + DeleteLazy(t, Tag(k, name), close)
    ensures ReplaceAll(x + t, Tag(k, name), r) == x + ReplaceAll(t, Tag(k, name), r)
  {
    NoStraddle(x, t, k, name);
    DeleteLazySkipUntil(x, t, Tag(k, name), close);
    ReplaceAllSkipUntil(x, t, Tag(k, name), r);
  }

  lemma {:induction false} HiddenNegated(name: string, x: string, y: string)
    requires BraceFree(name) && !Contains(x, Tag("^", name)) && !Contains(y, Tag("/", name))
    ensures DeleteLazy(Sections(name, x, y), Tag("^", name), Tag("/", name)) == Tag("#", name) + (x + Tag("/", name))
  {
    var open, close := Tag("^", name), Tag("/", name);
    var t := close + (open + (y + close));
    DeleteLazySkipTag("#", "^", name, x + t, close);
    SkipUnmarked(x, t, "^", name, close, "");
    DeleteLazySkipTag("/", "^", name, open + (y + close), close);
    assert y + close == y + (close + []);
    DeleteSection("^", name, y, []);
    assert close + [] == close;
  }

  lemma {:induction false} OpenerDropped(k: string, name: string, x: string)
    requires BraceFree(name) && BraceFree(k) && k != "/" && !Contains(x, Tag(k, name))
    ensures ReplaceAll(Tag(k, name) + (x + Tag("/", name)), Tag(k, name), "") == x + Tag("/", name)
  {
    var open, close := Tag(k, name), Tag("/", name);
    ReplaceAllHit(open, x + close, "");
    SkipUnmarked(x, close, k, name, close, "");
    assert close == close + [];
    ReplaceAllSkipTag("/", k, name, [], "");
  }

  lemma {:induction false} CloserDropped(name: string, x: string)
    requires '{' !in x || (BraceFree(name) && !Contains(x, Tag("/", name)))
    ensures ReplaceAll(x + Tag("/", name), Tag("/", name), "") == x
  {
    var close := Tag("/", name);
    if '{' !in x {
      ReplaceAllSkip(x, close, close, "");
    } else {
      SkipUnmarked(x, close, "/", name, close, "");
    }
    assert close == close + [];
    ReplaceAllHit(close, [], "");
    assert x + [] == x;
  }

  lemma {:induction false} HiddenPositive(name: string, x: string, y: string)
    requires BraceFree(name) && !Contains(x, Tag("/", name)) && !Contains(y, Tag("#", name))
    ensures DeleteLazy(Sections(name, x, y), Tag("#", name), Tag("/", name)) == Tag("^", name) + (y + Tag("/", name))
  {
    var open, close := Tag("#", name), Tag("/", name);
    DeleteSection("#", name, x, Tag("^", name) + (y + close));
    DeleteLazySkipTag("^", "#", name, y + close, close);
    SkipUnmarked(y, close, "#", name, close, "");
    assert close == close + [];
    DeleteLazySkipTag("/", "#", name, [], close);
  }

  /** `{{#N}}x{{/N}}{{^N}}y{{/N}}` keeps `x` for a non-blank value and `y`
      for a blank one, whatever other directives `x` and `y` hold. */
  lemma {:induction false} ConditionalSections(name: string, x: string, y: string, value: string)
    requires PlainName(name) && Unmarked(x, name) && Unmarked(y, name)
    ensures FlattenFieldConditionals(Sections(name, x, y), name, value).card == if IsBlank(value) then y else x
  {
    PlainNameBraceFree(name);
    if IsBlank(value) {
      HiddenPositive(name, x, y);
      OpenerDropped("^", name, y);
      CloserDropped(name, y);
    } else {
      HiddenNegated(name, x, y);
      OpenerDropped("#", name, x);
      CloserDropped(name, x);
    }
  }

  /** A section `{{k N}}x{{/N}}` left alone by the lazy scan for the other
      section kind. */
  lemma {:induction false} SectionSkipped(k: string, other: string, name: string, x: string)
    requires BraceFree(name) && BraceFree(k) && BraceFree(other) && k != other && k != "/" && other != "/"
    requires !Contains(x, Tag(other, name))
    ensures DeleteLazy(Tag(k, name) + (x + Tag("/", name)), Tag(other, name), Tag("/", name))
         == Tag(k, name) + (x + Tag("/", name))
  {
    var open, close := Tag(other, name), Tag("/", name);
    DeleteLazySkipTag(k, other, name, x + close, close);
    SkipUnmarked(x, close, other, name, close, "");
    assert close == close + [];
    DeleteLazySkipTag("/", other, name, [], close);
  }

  /** A lone `{{#N}}x{{/N}}` shows `x` for a non-blank value and nothing for
      a blank one. */
  lemma {:induction false} PositiveSection(name: string, x: string, value: string)
    requires PlainName(name) && Unmarked(x, name)
    ensures FlattenFieldConditionals(Tag("#", name) + (x + Tag("/", name)), name, value).card
         == if IsBlank(value) then [] else x
  {
    PlainNameBraceFree(name);
    var close := Tag("/", name);
    if IsBlank(value) {
      assert x + close == x + (close + []);
      DeleteSection("#", name, x, []);
    } else {
      SectionSkipped("#", "^", name, x);
      OpenerDropped("#", name, x);
      CloserDropped(name, x);
    }
  }

  /** A lone `{{^N}}x{{/N}}` shows `x` for a blank value and nothing for a
      non-blank one. */
  lemma {:induction false} NegativeSection(name: string, x: string, value: string)
    requires PlainName(name) && Unmarked(x, name)
    ensures FlattenFieldConditionals(Tag("^", name) + (x + Tag("/", name)), name, value).card
         == if IsBlank(value) then x else []
  {
    PlainNameBraceFree(name);
    var close := Tag("/", name);
    if IsBlank(value) {
      SectionSkipped("^", "#", name, x);
      OpenerDropped("^", name, x);
      CloserDropped(name, x);
    } else {
      assert x + close == x + (close + []);
      DeleteSection("^", name, x, []);
    }
  }

  /** The usual use of a section, `{{#N}}{{N}}{{/N}}`, leaves `{{N}}` for a
      non-blank value and nothing for a blank one. */
  lemma {:induction false} FieldInSection(name: string, value: string)
    requires PlainName(name)
    ensures FlattenFieldConditionals(Tag("#", name) + (Tag("", name) + Tag("/", name)), name, value).card
         == if IsBlank(value) then [] else Tag("", name)
  {
    PlainNameBraceFree(name);
    var x := Tag("", name);
    assert "" + name == name;
    TagNotInTag("", name, "#", name);
    TagNotInTag("", name, "^", name);
    TagNotInTag("", name, "/", name);
    PositiveSection(name, x, value);
  }

  // ---------------------------------------------------------------------
  // Hints
  // ---------------------------------------------------------------------

  /** The element a `{{hint:N}}` becomes: labelled with the name, with an
      inline handler `${…}` that writes the raw value into it. */
  function HintMarkup(name: string, value: string): string
  {
    HintOpen(name) + ("{" + HintHandler(name, value))
  }

  function HintOpen(name: string): string
  {
    "<em class=\"hint\" id=\"hint-" + name + "\" onClick=$"
  }

  function HintHandler(name: string, value: string): string
  {
    "e => document" + ".getElementById(`hint-" + name + "`).innerHTML=`" + value + "`}>" + name + "</em>"
  }

  function FlattenFieldHint(card: string, name: string, value: string): Flattened
  {
    Flattened(ReplaceAll(card, Tag("hint:", name), HintMarkup(name, value)), name, value)
  }

  lemma {:induction false} HintUnmentioned(card: string, name: string, value: string)
    requires !Contains(card, Tag("hint:", name))
    ensures FlattenFieldHint(card, name, value) == Flattened(card, name, value)
  {
    ReplaceAllAbsent(card, Tag("hint:", name), HintMarkup(name, value));
  }

  // ---------------------------------------------------------------------
  // Audio
  // ---------------------------------------------------------------------

  const SoundOpen := "[sound:"

  /** Length of the first line of `s`: what `.` can cross without the `s` flag. */
  function LineLength(s: string): (n: nat)
    ensures n <= |s|
    ensures forall i | 0 <= i < n :: !IsLineTerminator(s[i])
    ensures n < |s| ==> IsLineTerminator(s[n])
  {
    if |s| == 0 || IsLineTerminator(s[0]) then 0 else 1 + LineLength(s[1..])
  }

  /** The capture `p1` of `/\[sound:(.*)\]/` when a match starts at the front
      of `s`: the greedy `.*` runs to the last `]` of the line. */
  function SoundCapture(s: string): (r: Option<string>)
    ensures r.Some? ==> SoundOpen <= s && SoundOpen + r.value + "]" <= s
    ensures r.Some? ==> var n := LineLength(s[|SoundOpen|..]);
              |r.value| < n && ']' !in s[|SoundOpen| + |r.value| + 1..|SoundOpen| + n]
    ensures r.None? && SoundOpen <= s ==> ']' !in s[|SoundOpen|..|SoundOpen| + LineLength(s[|SoundOpen|..])]
  {
    if SoundOpen <= s then
      var rest := s[|SoundOpen|..];
      var n := LineLength(rest);
      var line := rest[..n];
      assert s[|SoundOpen|..|SoundOpen| + n] == line;
      match FindLast(line, "]")
      case None =>
        FindLastCharNone(line, ']');
        None
      case Some(j) =>
        FindLastCharSome(line, ']', j);
        assert s[|SoundOpen| + j + 1..|SoundOpen| + n] == line[j + 1..];
        assert SoundOpen + line[..j] + "]" == s[..|SoundOpen| + j + 1];
        Some(line[..j])
    else None
  }

  /** The attributes between the id and the source of the `<audio>` element:
      the element is the main audio when `mainAudio` is set, and plays on its
      own when it is the main audio and `disableAutoplay` is not set. */
  function AudioAttributes(options: FieldOptions): string
  {
    var main := Truthy(options.mainAudio);
    (if main then "name=\"main-audio\"" else "") + " "
    + (if main && !Truthy(options.disableAutoplay) then "autoplay" else "")
  }


  /** The replay button that follows each `<audio>` element: a grey circle
      with a black triangle. Its inline handler `${e => {…}}` restarts the
      element. */
  function ReplayButton(name: string): string
  {
    ReplayOpen() + ("{" + ("e => " + ("{" + ReplayRest(name))))
  }

  function ReplayOpen(): string
  {
    "\n      " + "<div class=\"replay-button\">" + "\n        " + "<svg style=\"overflow: visible\"" + " onClick=$"
  }

  function ReplayRest(name: string): string
  {
    "const a = " + "document.getElementById(" + "'audio-" + name + "'); a.currentTime = 0;" + " a.play();}}" + Svg()
    + "      </div>\n"
  }

  // The geometry of an equilateral triangle of side `triangleS = 35` in a
  // circle of radius `2 * triangleH / 3`, each number written the way
  // JavaScript prints the double it computes.

  /** `rectS + 10`. */
  function ViewWidth(): string { "50.414518843273804" }
  /** `rectS`, the circle's diameter `2 * radius`. */
  function RectS(): string { "40.414518843273804" }
  /** `radius` and `rectS / 2`. */
  function Radius(): string { "20.207259421636902" }
  /** `rectS - triangleH`, the triangle's left edge. */
  function TriangleLeft(): string { "10.103629710818453" }
  /** `(rectS - triangleS) / 2`, its top corner. */
  function TriangleTop(): string { "2.707259421636902" }
  /** `rectS - (rectS - triangleS) / 2`, its bottom corner. */
  function TriangleBottom(): string { "37.707259421636905" }

  /** The rest of the `<svg>` element after its handler. */
  function Svg(): string
  {
    " viewBox=\"0 0 " + ViewWidth() + " " + RectS() + "\" width=\"" + RectS() + "px\">\n"
    + Circle() + Triangle() + "        </svg>\n"
  }

  function Circle(): string
  {
    "          <circle  fill=\"grey\"" + " stroke=\"black\" cx=\"" + Radius()
    + "\" cy=\"" + Radius() + "\" r=\"" + Radius() + "\" />\n"
  }

  function Triangle(): string
  {
    "          <path fill=\"black\"" + " d=\"M " + TriangleLeft() + " " + TriangleTop()
    + " L " + RectS() + " " + Radius() + " L " + TriangleLeft() + " " + TriangleBottom() + " Z\" />\n"
  }

  /** The `<audio>` element for `[sound:p1]` of field `name`. */
  function AudioElement(name: string, p1: string, options: FieldOptions): string
  {
    "<audio " + AudioId(name) + " " + AudioAttributes(options) + " " + MediaSource(p1) + "></audio>"
  }

  /** The id attribute the replay button looks the element up by. */
  function AudioId(name: string): string
  {
    "id=\"audio-" + name + "\""
  }

  /** The src attribute: the captured file under `media/`. */
  function MediaSource(p1: string): string
  {
    "src=\"media/" + p1 + "\""
  }

  /** What one `[sound:p1]` of field `name` becomes, up to the indentation
      the template ends with. */
  function AudioMarkup(name: string, p1: string, options: FieldOptions): string
  {
    AudioElement(name, p1, options) + ReplayButton(name) + Indent
  }

  const Indent := "      "

  /** `value.replaceAll(/\[sound:(.*)\]/g, markup)`: scanning left to right,
      each match is replaced by `markup` of its capture and scanning resumes
      after its `]`. */
  function AudioRewrite(value: string, markup: string -> string): string
    decreases |value|
  {
    if |value| == 0 then []
    else match SoundCapture(value)
      case Some(p1) =>
        markup(p1) + AudioRewrite(value[|SoundOpen| + |p1| + 1..], markup)
      case None =>
        [value[0]] + AudioRewrite(value[1..], markup)
  }

  /** A value with no `[sound:` is left as it is. */
  lemma {:induction false} AudioRewriteNoSound(value: string, markup: string -> string)
    ensures !Contains(value, SoundOpen) ==> AudioRewrite(value, markup) == value
    decreases |value|
  {
    if |value| > 0 && !Contains(value, SoundOpen) {
      OccursAtZero(value, SoundOpen);
      assert SoundCapture(value).None?;
      ContainsTail(value, SoundOpen);
      AudioRewriteNoSound(value[1..], markup);
      assert [value[0]] + value[1..] == value;
    }
  }

  /** The callback of the audio pass for field `name`. */
  function MarkupFor(name: string, options: FieldOptions): string -> string
  {
    p1 => AudioMarkup(name, p1, options)
  }

  /** The audio pass rewrites the value and leaves the card alone. */
  function FlattenFieldAudio(card: string, name: string, value: string, options: FieldOptions): (r: Flattened)
    ensures r.card == card && r.name == name
  {
    Flattened(card, name, AudioRewrite(value, MarkupFor(name, options)))
  }

  /** Without a sound reference the audio pass changes nothing. */
  lemma {:induction false} AudioWithoutSound(card: string, name: string, value: string, options: FieldOptions)
    requires !Contains(value, SoundOpen)
    ensures FlattenFieldAudio(card, name, value, options) == Flattened(card, name, value)
  {
    AudioRewriteNoSound(value, MarkupFor(name, options));
  }

  // ---------------------------------------------------------------------
  // Plain substitution and furigana
  // ---------------------------------------------------------------------

  function FlattenFieldNormal(card: string, name: string, value: string): Flattened
  {
    Flattened(ReplaceAll(card, Tag("", name), value), name, value)
  }

  lemma {:induction false} NormalUnmentioned(card: string, name: string, value: string)
    requires !Contains(card, Tag("", name))
    ensures FlattenFieldNormal(card, name, value) == Flattened(card, name, value)
  {
    ReplaceAllAbsent(card, Tag("", name), value);
  }

  function FlattenFieldFurigana(card: string, name: string, value: string): Flattened
  {
    Flattened(ReplaceAll(card, Tag("furigana:", name), Japanese.ConvertAnkiFuriganaToRuby(value)), name, value)
  }

  lemma {:induction false} FuriganaUnmentioned(card: string, name: string, value: string)
    requires !Contains(card, Tag("furigana:", name))
    ensures FlattenFieldFurigana(card, name, value) == Flattened(card, name, value)
  {
    ReplaceAllAbsent(card, Tag("furigana:", name), Japanese.ConvertAnkiFuriganaToRuby(value));
  }

  // ---------------------------------------------------------------------
  // Texts without `{{`
  // ---------------------------------------------------------------------

  /** Two texts without `{{` joined where no two braces meet. */
  lemma {:induction false} JoinNoDoubleBrace(a: string, b: string)
    requires !Contains(a, "{{") && !Contains(b, "{{")
    requires |a| > 0 && |b| > 0 ==> !(a[|a| - 1] == '{' && b[0] == '{')
    ensures !Contains(a + b, "{{")
  {
    var s := a + b;
    forall i | 0 <= i ensures !OccursAt(s, "{{", i) {
      OccursInFront(a, b, "{{", i);
      OccursInBack(a, b, "{{", i);
      if i == |a| - 1 && |b| > 0 {
        assert s[i + 1] == b[0];
        if s[i] == '{' {
          NotOccursAtHead(s, "{{", i + 1);
          assert s[i..i + 2] == [s[i], s[i + 1]];
        }
      }
    }
  }

  lemma {:induction false} BraceFreeNoDoubleBrace(s: string)
    requires '{' !in s
    ensures !Contains(s, "{{")
  {
    MissingHeadNotContained(s, "{{");
  }

  /** A lone `{` is never doubled. */
  lemma {:induction false} LoneBrace(b: string)
    requires '{' !in b
    ensures !Contains("{" + b, "{{")
  {
    BraceFreeNoDoubleBrace(b);
    JoinNoDoubleBrace("{", b);
  }

  /** Text with no `{` of its own around two braces kept apart by `mid`. */
  lemma {:induction false} TwoBraces(a: string, mid: string, b: string)
    requires '{' !in a && '{' !in mid && '{' !in b && |mid| > 0
    ensures !Contains(a + ("{" + (mid + ("{" + b))), "{{")
  {
    LoneBrace(b);
    BraceFreeNoDoubleBrace(mid);
    JoinNoDoubleBrace(mid, "{" + b);
    var m := mid + ("{" + b);
    assert m[0] == mid[0];
    JoinNoDoubleBrace("{", m);
    BraceFreeNoDoubleBrace(a);
    JoinNoDoubleBrace(a, "{" + m);
  }

  lemma {:induction false} HintMarkupNoDoubleBrace(name: string, value: string)
    requires '{' !in name && '{' !in value
    ensures !Contains(HintMarkup(name, value), "{{")
  {
    LoneBrace(HintHandler(name, value));
    BraceFreeNoDoubleBrace(HintOpen(name));
    JoinNoDoubleBrace(HintOpen(name), "{" + HintHandler(name, value));
  }

  lemma {:induction false} NumbersBraceFree()
    ensures '{' !in ViewWidth() && '{' !in RectS() && '{' !in Radius()
    ensures '{' !in TriangleLeft() && '{' !in TriangleTop() && '{' !in TriangleBottom()
  {
  }

  lemma {:induction false} CircleBraceFree()
    ensures '{' !in Circle()
  {
    NumbersBraceFree();
  }

  lemma {:induction false} TriangleBraceFree()
    ensures '{' !in Triangle()
  {
    NumbersBraceFree();
  }

  lemma {:induction false} SvgBraceFree()
    ensures '{' !in Svg()
  {
    NumbersBraceFree();
    CircleBraceFree();
    TriangleBraceFree();
  }

  lemma {:induction false} ReplayRestBraceFree(name: string)
    requires '{' !in name
    ensures '{' !in ReplayRest(name)
  {
    SvgBraceFree();
  }

  lemma {:induction false} AudioElementBraceFree(name: string, p1: string, options: FieldOptions)
    requires '{' !in name && '{' !in p1
    ensures '{' !in AudioElement(name, p1, options)
  {
    assert '{' !in AudioAttributes(options);
  }

  /** Brace-free text in front of text without `{{`. */
  lemma {:induction false} BraceFreeJoin(a: string, b: string)
    requires '{' !in a && !Contains(b, "{{")
    ensures !Contains(a + b, "{{")
  {
    BraceFreeNoDoubleBrace(a);
    if |a| > 0 {
      assert a[|a| - 1] in a;
    }
    JoinNoDoubleBrace(a, b);
  }

  /** Text without `{{`, then brace-free text, then text without `{{`. */
  lemma {:induction false} BraceFreeBetween(a: string, t: string, b: string)
    requires !Contains(a, "{{") && '{' !in t && |t| > 0 && !Contains(b, "{{")
    ensures !Contains(a + t, "{{") && !Contains(a + t + b, "{{")
  {
    BraceFreeNoDoubleBrace(t);
    assert t[0] in t;
    JoinNoDoubleBrace(a, t);
    assert (a + t)[|a + t| - 1] == t[|t| - 1];
    assert t[|t| - 1] in t;
    JoinNoDoubleBrace(a + t, b);
  }

  lemma {:induction false} ReplayButtonNoDoubleBrace(name: string)
    requires '{' !in name
    ensures !Contains(ReplayButton(name), "{{")
  {
    ReplayRestBraceFree(name);
    assert '{' !in ReplayOpen();
    TwoBraces(ReplayOpen(), "e => ", ReplayRest(name));
  }

  /** The markup of one match has no `{{` and ends in brace-free text. */
  lemma {:induction false} AudioMarkupNoDoubleBrace(name: string, p1: string, options: FieldOptions,
                                                    rest: string)
    requires '{' !in name && '{' !in p1 && !Contains(rest, "{{")
    ensures !Contains(AudioMarkup(name, p1, options) + rest, "{{")
  {
    var e, b := AudioElement(name, p1, options), ReplayButton(name);
    ReplayButtonNoDoubleBrace(name);
    AudioElementBraceFree(name, p1, options);
    BraceFreeJoin(e, b);
    BraceFreeBetween(e + b, Indent, rest);
  }

  /** The capture of a match is part of the value. */
  lemma {:induction false} CaptureBraceFree(value: string, p1: string)
    requires '{' !in value && SoundCapture(value) == Some(p1)
    ensures '{' !in p1 && |SoundOpen| + |p1| + 1 <= |value|
  {
    assert p1 == value[|SoundOpen|..|SoundOpen| + |p1|];
  }

  /** `markup` of a brace-free capture adds no `{{`, whatever follows it. */
  ghost predicate KeepsBraces(markup: string -> string)
  {
    forall p, rest | '{' !in p && !Contains(rest, "{{") :: !Contains(markup(p) + rest, "{{")
  }

  lemma {:induction false} MarkupForApply(name: string, options: FieldOptions, p: string)
    ensures MarkupFor(name, options)(p) == AudioMarkup(name, p, options)
  {
  }

  lemma {:induction false} MarkupForNoDoubleBrace(name: string, options: FieldOptions, p: string, rest: string)
    requires '{' !in name && '{' !in p && !Contains(rest, "{{")
    ensures !Contains(MarkupFor(name, options)(p) + rest, "{{")
  {
    MarkupForApply(name, options, p);
    AudioMarkupNoDoubleBrace(name, p, options, rest);
  }

  lemma {:induction false} MarkupForKeepsBraces(name: string, options: FieldOptions)
    requires '{' !in name
    ensures KeepsBraces(MarkupFor(name, options))
  {
    forall p, rest | '{' !in p && !Contains(rest, "{{")
      ensures !Contains(MarkupFor(name, options)(p) + rest, "{{")
    {
      MarkupForNoDoubleBrace(name, options, p, rest);
    }
  }

  /** The audio pass brings no `{{` into a value that had no brace. */
  lemma {:induction false} AudioRewriteNoDoubleBrace(value: string, markup: string -> string)
    requires '{' !in value && KeepsBraces(markup)
    ensures !Contains(AudioRewrite(value, markup), "{{")
    decreases |value|
  {
    if |value| > 0 {
      match SoundCapture(value)
      case Some(p1) =>
        CaptureBraceFree(value, p1);
        var rest := value[|SoundOpen| + |p1| + 1..];
        assert forall c | c in rest :: c in value;
        AudioRewriteNoDoubleBrace(rest, markup);
        assert !Contains(markup(p1) + AudioRewrite(rest, markup), "{{");
      case None =>
        assert forall c | c in value[1..] :: c in value;
        AudioRewriteNoDoubleBrace(value[1..], markup);
        BraceFreeJoin([value[0]], AudioRewrite(value[1..], markup));
    }
  }

  /** No line terminator in `s`: all of it is on one line. */
  predicate OneLine(s: string)
  {
    forall i | 0 <= i < |s| :: !IsLineTerminator(s[i])
  }

  /** The first line of `u + v` is `u` when `v` starts a new line. */
  lemma {:induction false} LineLengthOf(u: string, v: string)
    requires OneLine(u) && (|v| == 0 || IsLineTerminator(v[0]))
    ensures LineLength(u + v) == |u|
    decreases |u|
  {
    if |u| > 0 {
      assert (u + v)[1..] == u[1..] + v;
      LineLengthOf(u[1..], v);
    } else {
      assert u + v == v;
    }
  }

  /** A match that ends its line captures everything up to the line's last `]`. */
  lemma {:induction false} SoundCaptureOf(x: string, rest: string)
    requires OneLine(x) && (|rest| == 0 || IsLineTerminator(rest[0]))
    ensures SoundCapture(SoundOpen + x + "]" + rest) == Some(x)
  {
    var s := SoundOpen + x + "]" + rest;
    var u := x + "]";
    assert s[|SoundOpen|..] == u + rest;
    assert OneLine(u) by {
      forall i | 0 <= i < |u| ensures !IsLineTerminator(u[i]) {
        if i < |x| {
          assert u[i] == x[i];
        }
      }
    }
    LineLengthOf(u, rest);
    assert (u + rest)[..|u|] == u;
    FindLastCharAtEnd(x, ']');
    assert u[..|x|] == x;
  }

  /** `[sound:x]` that ends its line becomes the markup of `x`; scanning
      goes on after it. */
  lemma {:induction false} AudioMatch(x: string, rest: string, markup: string -> string)
    requires OneLine(x) && (|rest| == 0 || IsLineTerminator(rest[0]))
    ensures AudioRewrite(SoundOpen + x + "]" + rest, markup) == markup(x) + AudioRewrite(rest, markup)
  {
    SoundCaptureOf(x, rest);
    var s := SoundOpen + x + "]" + rest;
    assert s[|SoundOpen| + |x| + 1..] == rest;
  }

  /** A value that is one sound reference becomes one piece of markup. */
  lemma {:induction false} AudioSingle(x: string, markup: string -> string)
    requires OneLine(x)
    ensures AudioRewrite(SoundOpen + x + "]", markup) == markup(x)
  {
    AudioMatch(x, [], markup);
    assert SoundOpen + x + "]" + [] == SoundOpen + x + "]";
    assert markup(x) + [] == markup(x);
  }

  /** Two sound references on one line make one match: the greedy capture
      runs from the first `[sound:` to the last `]`. */
  lemma {:induction false} AudioSameLine(x: string, mid: string, y: string, markup: string -> string)
    requires OneLine(x) && OneLine(mid) && OneLine(y)
    ensures AudioRewrite(SoundOpen + x + "]" + mid + SoundOpen + y + "]", markup)
         == markup(x + "]" + mid + SoundOpen + y)
  {
    var z := x + "]" + mid + SoundOpen + y;
    assert OneLine(z) by {
      forall i | 0 <= i < |z| ensures !IsLineTerminator(z[i]) {
        if i < |x| {
          assert z[i] == x[i];
        } else if |x| + 1 <= i < |x| + 1 + |mid| {
          assert z[i] == mid[i - |x| - 1];
        } else if |x| + 1 + |mid| + |SoundOpen| <= i {
          assert z[i] == y[i - |x| - 1 - |mid| - |SoundOpen|];
        }
      }
    }
    AudioSingle(z, markup);
    assert SoundOpen + z + "]" == SoundOpen + x + "]" + mid + SoundOpen + y + "]";
  }

  /** Sound references on separate lines are rewritten one by one. */
  lemma {:induction false} AudioSeparateLines(x: string, y: string, markup: string -> string)
    requires OneLine(x) && OneLine(y)
    ensures AudioRewrite(SoundOpen + x + "]" + "\n" + SoundOpen + y + "]", markup)
         == markup(x) + "\n" + markup(y)
  {
    var first := SoundOpen + x + "]";
    var second := SoundOpen + y + "]";
    var rest := ['\n'] + second;
    var s := SoundOpen + x + "]" + "\n" + SoundOpen + y + "]";
    assert s == first + rest;
    AudioMatch(x, rest, markup);
    AudioRewriteNoMatch('\n', second, markup);
    AudioSingle(y, markup);
    assert AudioRewrite(s, markup) == markup(x) + (['\n'] + markup(y));
  }

  /** A character other than `[` is copied. */
  lemma {:induction false} AudioRewriteNoMatch(c: char, t: string, markup: string -> string)
    requires c != '['
    ensures AudioRewrite([c] + t, markup) == [c] + AudioRewrite(t, markup)
  {
    assert !(SoundOpen <= [c] + t) by {
      assert ([c] + t)[0] != SoundOpen[0];
    }
    assert ([c] + t)[1..] == t;
  }

  /** `name="main-audio"` is written exactly when `mainAudio` is set. */
  lemma {:induction false} MainAudioAttribute(options: FieldOptions)
    ensures Contains(AudioAttributes(options), "name=\"main-audio\"") <==> Truthy(options.mainAudio)
  {
    var a := AudioAttributes(options);
    var m := "name=\"main-audio\"";
    if Truthy(options.mainAudio) {
      assert a[0..|m|] == m;
      assert OccursAt(a, m, 0);
    } else {
      assert 'n' !in a;
      MissingCharNotContained(a, m, 0);
    }
  }

  /** `autoplay` is written exactly when `mainAudio` is set and
      `disableAutoplay` is not. */
  lemma {:induction false} AutoplayAttribute(options: FieldOptions)
    ensures Contains(AudioAttributes(options), "autoplay")
        <==> Truthy(options.mainAudio) && !Truthy(options.disableAutoplay)
  {
    var a := AudioAttributes(options);
    var p := "autoplay";
    if Truthy(options.mainAudio) && !Truthy(options.disableAutoplay) {
      var k := |"name=\"main-audio\""| + 1;
      assert a[k..k + |p|] == p;
      assert OccursAt(a, p, k);
    } else {
      assert 'p' !in a;
      MissingCharNotContained(a, p, 4);
    }
  }

  /** Without options the element is neither the main audio nor autoplayed. */
  lemma {:induction false} DefaultAttributes()
    ensures !Contains(AudioAttributes(NoOptions), "name=\"main-audio\"")
    ensures !Contains(AudioAttributes(NoOptions), "autoplay")
  {
    MainAudioAttribute(NoOptions);
    AutoplayAttribute(NoOptions);
  }

  /** The element of a match names the field's audio id, carries the
      attributes and points at the captured media file. */
  lemma {:induction false} AudioElementParts(name: string, p1: string, options: FieldOptions)
    ensures Contains(AudioElement(name, p1, options), "id=\"audio-" + name + "\"")
    ensures Contains(AudioElement(name, p1, options), AudioAttributes(options))
    ensures Contains(AudioElement(name, p1, options), "src=\"media/" + p1 + "\"")
  {
    ElementJoin("<audio ", AudioId(name), AudioAttributes(options), MediaSource(p1), "></audio>");
  }

  /** The three pieces of an element, each found in the whole. */
  lemma {:induction false} ElementJoin(a: string, id: string, at: string, src: string, b: string)
    ensures var e := a + id + " " + at + " " + src + b;
              Contains(e, id) && Contains(e, at) && Contains(e, src)
  {
    var sp := " ";
    assert a + id + sp + at + sp + src + b == a + id + (sp + at + sp + src + b);
    ContainsBetween(a, id, sp + at + sp + src + b);
    assert a + id + sp + at + sp + src + b == a + id + sp + at + (sp + src + b);
    ContainsBetween(a + id + sp, at, sp + src + b);
    ContainsBetween(a + id + sp + at + sp, src, b);
  }

  /** The markup of a match starts with its `<audio>` element. */
  lemma {:induction false} MarkupStartsWithElement(name: string, p1: string, options: FieldOptions)
    ensures AudioElement(name, p1, options) <= MarkupFor(name, options)(p1)
  {
    MarkupForApply(name, options, p1);
    PrefixOfJoin(AudioElement(name, p1, options), ReplayButton(name), Indent);
  }

  lemma {:induction false} PrefixOfJoin(a: string, b: string, c: string)
    ensures a <= a + b + c
  {
    assert (a + b + c)[..|a|] == a;
  }


  // ---------------------------------------------------------------------
  // One field, all fields
  // ---------------------------------------------------------------------

  /** The five passes, each on the previous one's card and value. */
  function FlattenField(card: string, name: string, value: string, options: FieldOptions): string
  {
    var f1 := FlattenFieldConditionals(card, name, value);
    var f2 := FlattenFieldHint(f1.card, f1.name, f1.value);
    var f3 := FlattenFieldAudio(f2.card, f2.name, f2.value, options);
    var f4 := FlattenFieldNormal(f3.card, f3.name, f3.value);
    var f5 := FlattenFieldFurigana(f4.card, f4.name, f4.value);
    f5.card
  }

  /** A card with no directive of the field comes out of all five passes as it went in. */
  lemma {:induction false} FlattenFieldUnmentioned(card: string, name: string, value: string, options: FieldOptions)
    requires !Mentions(card, name)
    ensures FlattenField(card, name, value, options) == card
  {
    assert Kinds[0] == "#" && Kinds[1] == "^" && Kinds[2] == "/";
    assert Kinds[3] == "hint:" && Kinds[4] == "" && Kinds[5] == "furigana:";
    ConditionalsUnmentioned(card, name, value);
    HintUnmentioned(card, name, value);
    var f3 := FlattenFieldAudio(card, name, value, options);
    NormalUnmentioned(card, name, f3.value);
    FuriganaUnmentioned(card, name, f3.value);
  }

  /** Text without `{{` holds no directive. */
  lemma {:induction false} NoTagIn(s: string, kind: string, name: string)
    requires !Contains(s, "{{")
    ensures !Contains(s, Tag(kind, name))
  {
    assert "{{" <= Tag(kind, name);
    NotContainsExtension(s, "{{", Tag(kind, name));
  }

  /** A pass looking for one kind of directive leaves a directive of another
      kind alone. */
  lemma {:induction false} TagKept(k1: string, k2: string, name: string, r: string, close: string)
    requires k1 != k2 && BraceFree(k1) && BraceFree(k2) && BraceFree(name)
    ensures ReplaceAll(Tag(k1, name), Tag(k2, name), r) == Tag(k1, name)
    ensures DeleteLazy(Tag(k1, name), Tag(k2, name), close) == Tag(k1, name)
  {
    var t := Tag(k1, name);
    assert t + [] == t;
    ReplaceAllSkipTag(k1, k2, name, [], r);
    DeleteLazySkipTag(k1, k2, name, [], close);
  }

  /** A directive replaced by itself alone. */
  lemma {:induction false} TagReplaced(kind: string, name: string, r: string)
    ensures ReplaceAll(Tag(kind, name), Tag(kind, name), r) == r
  {
    var t := Tag(kind, name);
    ReplaceAllHit(t, [], r);
    assert t + [] == t && r + [] == r;
  }

  /** The conditional pass leaves any directive other than `#`, `^`, `/` alone. */
  lemma {:induction false} ConditionalsKeepTag(kind: string, name: string, value: string)
    requires BraceFree(kind) && BraceFree(name) && kind != "#" && kind != "^" && kind != "/"
    ensures FlattenFieldConditionals(Tag(kind, name), name, value).card == Tag(kind, name)
  {
    var close := Tag("/", name);
    var shown := if IsBlank(value) then "^" else "#";
    var hidden := if IsBlank(value) then "#" else "^";
    TagKept(kind, hidden, name, "", close);
    TagKept(kind, shown, name, "", close);
    TagKept(kind, "/", name, "", close);
  }

  /** `{{hint:N}}` becomes the hint element, built from the raw value. */
  lemma {:induction false} HintGetsRawValue(name: string, value: string, options: FieldOptions)
    requires PlainName(name) && '{' !in value
    ensures FlattenField(Tag("hint:", name), name, value, options) == HintMarkup(name, value)
  {
    PlainNameBraceFree(name);
    ConditionalsKeepTag("hint:", name, value);
    var h := HintMarkup(name, value);
    TagReplaced("hint:", name, h);
    HintMarkupNoDoubleBrace(name, value);
    var v := AudioRewrite(value, MarkupFor(name, options));
    NoTagIn(h, "", name);
    ReplaceAllAbsent(h, Tag("", name), v);
    NoTagIn(h, "furigana:", name);
    ReplaceAllAbsent(h, Tag("furigana:", name), Japanese.ConvertAnkiFuriganaToRuby(v));
  }

  /** `{{N}}` becomes the value after the audio pass. */
  lemma {:induction false} PlainGetsAudioValue(name: string, value: string, options: FieldOptions)
    requires PlainName(name) && '{' !in value
    ensures FlattenField(Tag("", name), name, value, options) == AudioRewrite(value, MarkupFor(name, options))
  {
    PlainNameBraceFree(name);
    ConditionalsKeepTag("", name, value);
    TagKept("", "hint:", name, HintMarkup(name, value), "");
    var v := AudioRewrite(value, MarkupFor(name, options));
    TagReplaced("", name, v);
    MarkupForKeepsBraces(name, options);
    AudioRewriteNoDoubleBrace(value, MarkupFor(name, options));
    NoTagIn(v, "furigana:", name);
    ReplaceAllAbsent(v, Tag("furigana:", name), Japanese.ConvertAnkiFuriganaToRuby(v));
  }

  /** A value that carries a directive of its own field is expanded again:
      `{{N}}` with the value `{{furigana:N}} a` does not become that value,
      because the furigana pass then rewrites the `{{furigana:N}}` the plain
      pass inserted. */
  lemma {:induction false} ValueReexpanded(name: string, options: FieldOptions)
    requires PlainName(name)
    ensures FlattenField(Tag("", name), name, Tag("furigana:", name) + " a", options)
         == Japanese.ConvertAnkiFuriganaToRuby(Tag("furigana:", name) + " a") + " a"
  {
    var t := Tag("furigana:", name);
    NoSoundIn(name, t + " a");
    PlainThenFurigana(name, t + " a", options);
    FuriganaOfItself(t, Japanese.ConvertAnkiFuriganaToRuby(t + " a"));
  }

  /** For a value without sound references, `{{N}}` becomes the value with
      its own `{{furigana:N}}` directives rewritten. */
  lemma {:induction false} PlainThenFurigana(name: string, v: string, options: FieldOptions)
    requires PlainName(name) && !Contains(v, SoundOpen)
    ensures FlattenField(Tag("", name), name, v, options)
         == ReplaceAll(v, Tag("furigana:", name), Japanese.ConvertAnkiFuriganaToRuby(v))
  {
    PlainNameBraceFree(name);
    var k := Tag("", name);
    ConditionalsKeepTag("", name, v);
    var f1 := FlattenFieldConditionals(k, name, v);
    assert f1 == Flattened(k, name, v);
    TagKept("", "hint:", name, HintMarkup(name, v), "");
    var f2 := FlattenFieldHint(k, name, v);
    assert f2 == Flattened(k, name, v);
    AudioWithoutSound(k, name, v, options);
    var f3 := FlattenFieldAudio(k, name, v, options);
    assert f3 == Flattened(k, name, v);
    TagReplaced("", name, v);
    var f4 := FlattenFieldNormal(k, name, v);
    assert f4 == Flattened(v, name, v);
  }

  lemma {:induction false} NoSoundIn(name: string, v: string)
    requires PlainName(name) && v == Tag("furigana:", name) + " a"
    ensures !Contains(v, SoundOpen)
  {
    assert IsRegexSyntax('[');
    assert SoundOpen[0] == '[' && '[' !in v;
    MissingHeadNotContained(v, SoundOpen);
  }

  lemma {:induction false} FuriganaOfItself(t: string, c: string)
    requires |t| > 0 && t[0] == '{'
    ensures ReplaceAll(t + " a", t, c) == c + " a"
  {
    ReplaceAllHit(t, " a", c);
    assert '{' !in " a";
    MissingHeadNotContained(" a", t);
    ReplaceAllAbsent(" a", t, c);
  }

  /** `{{furigana:N}}` becomes the ruby markup of the value after the audio
      pass, not of the raw value. */
  lemma {:induction false} FuriganaGetsAudioValue(name: string, value: string, options: FieldOptions)
    requires PlainName(name)
    ensures FlattenField(Tag("furigana:", name), name, value, options)
         == Japanese.ConvertAnkiFuriganaToRuby(AudioRewrite(value, MarkupFor(name, options)))
  {
    PlainNameBraceFree(name);
    var k := "furigana:";
    var t := Tag(k, name);
    ConditionalsKeepTag(k, name, value);
    var f1 := FlattenFieldConditionals(t, name, value);
    assert f1 == Flattened(t, name, value);
    TagKept(k, "hint:", name, HintMarkup(name, value), "");
    var f2 := FlattenFieldHint(t, name, value);
    assert f2 == Flattened(t, name, value);
    var v := AudioRewrite(value, MarkupFor(name, options));
    TagKept(k, "", name, v, "");
    var f4 := FlattenFieldNormal(t, name, v);
    assert f4 == Flattened(t, name, v);
    TagReplaced(k, name, Japanese.ConvertAnkiFuriganaToRuby(v));
  }

  /** `t` is a directive the passes of field `name` look for. */
  predicate Addresses(t: string, name: string)
  {
    exists j | 0 <= j < |Kinds| :: t == Tag(Kinds[j], name)
  }

  /** One directive holds another only when they are the same. */
  lemma {:induction false} TagNotInTag(k: string, m: string, k2: string, n: string)
    requires BraceFree(k + m) && BraceFree(k2 + n) && k + m != k2 + n
    ensures !Contains(Tag(k, m), Tag(k2, n))
  {
    var s, p := Tag(k, m), Tag(k2, n);
    var u, v := k + m, k2 + n;
    assert s == "{{" + u + "}}" && p == "{{" + v + "}}";
    TagInjective(k, m, k2, n);
    assert |v| < |u| ==> s[2 + |v|] == u[|v|] && u[|v|] in u && p[2 + |v|] == '}';
    assert |u| < |v| ==> p[2 + |u|] == v[|u|] && v[|u|] in v && s[2 + |u|] == '}';
    forall i | 0 <= i <= |s| - |p| ensures !OccursAt(s, p, i) {
      OccursIndex(s, p, i, 1);
      assert 0 < i ==> s[i + 1] == u[i - 1] && u[i - 1] in u;
      assert s[0..|s|] == s;
      OccursIndex(s, p, i, 2 + |u|);
      OccursIndex(s, p, i, 2 + |v|);
    }
  }

  lemma {:induction false} TagInjective(k: string, m: string, k2: string, n: string)
    ensures Tag(k, m) == Tag(k2, n) ==> k + m == k2 + n
  {
    if Tag(k, m) == Tag(k2, n) {
      assert Tag(k, m)[2..|Tag(k, m)| - 2] == k + m;
    }
  }

  /** A directive the passes of `name` do not look for holds none they do. */
  lemma {:induction false} NotAddressedNotMentioned(k: string, m: string, name: string)
    requires BraceFree(k + m) && PlainName(name) && !Addresses(Tag(k, m), name)
    ensures !Mentions(Tag(k, m), name)
  {
    PlainNameBraceFree(name);
    forall j | 0 <= j < |Kinds| ensures !Contains(Tag(k, m), Tag(Kinds[j], name)) {
      var kind := Kinds[j];
      assert BraceFree(kind);
      assert BraceFree(kind + name);
      assert Tag(k, m) != Tag(kind, name);
      assert "{{" + (kind + name) + "}}" == Tag(kind, name);
      TagNotInTag(k, m, kind, name);
    }
  }

  /** A directive that no field of the note addresses survives it. */
  lemma {:induction false} MarkerUntouched(k: string, m: string, fields: seq<(string, string)>,
                                           options: Option<(string, string) -> FieldOptions>)
    requires BraceFree(k + m)
    requires forall i | 0 <= i < |fields| :: PlainName(fields[i].0) && !Addresses(Tag(k, m), fields[i].0)
    ensures FoldFields(Tag(k, m), fields, options) == Tag(k, m)
  {
    forall i | 0 <= i < |fields| ensures !Mentions(Tag(k, m), fields[i].0) {
      NotAddressedNotMentioned(k, m, fields[i].0);
    }
    FoldFieldsUnmentioned(Tag(k, m), fields, options);
  }

  /** Without an options callback no element is the main audio or autoplays. */
  lemma {:induction false} WithoutOptions(name: string, value: string)
    ensures AudioAttributes(OptionsFor(None, name, value)) == " "
    ensures !Contains(AudioAttributes(OptionsFor(None, name, value)), "autoplay")
  {
    DefaultAttributes();
  }


  function OptionsFor(options: Option<(string, string) -> FieldOptions>, name: string, value: string): FieldOptions
  {
    match options
    case None => NoOptions
    case Some(f) => f(name, value)
  }

  /** The template after `flattenField` has run for each pair of `fields`, in order. */
  function FoldFields(template: string, fields: seq<(string, string)>,
                      options: Option<(string, string) -> FieldOptions>): string
    decreases |fields|
  {
    if |fields| == 0 then template
    else
      var last := fields[|fields| - 1];
      var before := FoldFields(template, fields[..|fields| - 1], options);
      FlattenField(before, last.0, last.1, OptionsFor(options, last.0, last.1))
  }

  // ---------------------------------------------------------------------
  // Finishing
  // ---------------------------------------------------------------------

  /** Drops every `</br>`, then writes every `<br>` as `<br/>`. */
  function FixBr(card: string): (r: string)
    ensures !Contains(r, "<br>")
  {
    var c := ReplaceAll(card, "</br>", "");
    assert "<br>"[1..] == "br>" && "<br/>"[1..] == "br/>" && "<br/>"[3] == '/';
    ReplaceAllRemoves(c, "<br>", "<br/>");
    ReplaceAll(c, "<br>", "<br/>")
  }

  /** `fixBr` is not idempotent: deleting one `</br>` can bring two
      halves of another together. */
  lemma {:induction false} FixBrNotIdempotent()
    ensures FixBr("<</br>/br>") == "</br>" && FixBr("</br>") == ""
  {
    var c := "</br>";
    FixBrMerges();
    ClosingBrKept();
    FixBrOf("<</br>/br>", c, c);
    ReplaceAllHit(c, [], "");
    assert c + [] == c;
    FixBrOf(c, "", "");
  }

  lemma {:induction false} FixBrOf(card: string, c: string, r: string)
    requires ReplaceAll(card, "</br>", "") == c && ReplaceAll(c, "<br>", "<br/>") == r
    ensures FixBr(card) == r
  {
  }

  /** Deleting the inner `</br>` of `<</br>/br>` leaves a `</br>`. */
  lemma {:induction false} FixBrMerges()
    ensures ReplaceAll("<</br>/br>", "</br>", "") == "</br>"
  {
    var c := "</br>";
    var s := ['<'] + (c + "/br>");
    assert "<</br>/br>" == s;
    OccursIndex(s, c, 0, 1);
    OccursAtZero(s, c);
    ReplaceAllSkipOne('<', c + "/br>", c, "");
    ReplaceAllHit(c, "/br>", "");
    MissingCharNotContained("/br>", c, 0);
    ReplaceAllAbsent("/br>", c, "");
  }

  /** `</br>` holds no `<br>`. */
  lemma {:induction false} ClosingBrKept()
    ensures ReplaceAll("</br>", "<br>", "<br/>") == "</br>"
  {
    var c := "</br>";
    forall i | 0 <= i <= |c| - 4 ensures !OccursAt(c, "<br>", i) {
      OccursIndex(c, "<br>", i, 1 - i);
    }
    ReplaceAllAbsent(c, "<br>", "<br/>");
  }

  /** Drops every `</hr>`, then writes every `<hr>` as `<hr/>`. */
  function FixHr(card: string): (r: string)
    ensures !Contains(r, "<hr>")
  {
    var c := ReplaceAll(card, "</hr>", "");
    assert "<hr>"[1..] == "hr>" && "<hr/>"[1..] == "hr/>" && "<hr/>"[3] == '/';
    ReplaceAllRemoves(c, "<hr>", "<hr/>");
    ReplaceAll(c, "<hr>", "<hr/>")
  }

  /** Deletes from the first `<script>` that has a `</script>` after it to the
      last `</script>`, and so on through the rest of the text. */
  function RemoveScriptTags(card: string): (r: string)
    ensures NoBlock(r, "<script>", "</script>")
  {
    DeleteGreedyClean(card, "<script>", "</script>");
    DeleteGreedy(card, "<script>", "</script>")
  }

  /** Running the script pass again deletes nothing more. */
  lemma {:induction false} RemoveScriptTagsIdempotent(card: string)
    ensures RemoveScriptTags(RemoveScriptTags(card)) == RemoveScriptTags(card)
  {
    DeleteGreedyIdempotent(card, "<script>", "</script>");
  }

  /** The finishing chain; `decode` stands for the HTML entity decoder. */
  function Finish(card: string, decode: string -> string): (r: string)
    ensures NoBlock(r, "<script>", "</script>")
  {
    RemoveScriptTags(decode(FixHr(FixBr(card))))
  }

  /** One more field folds in after the ones already done. */
  lemma {:induction false} FoldFieldsStep(template: string, fields: seq<(string, string)>, i: nat,
                                          options: Option<(string, string) -> FieldOptions>)
    requires i < |fields|
    ensures FoldFields(template, fields[..i + 1], options)
         == FlattenField(FoldFields(template, fields[..i], options), fields[i].0, fields[i].1,
                         OptionsFor(options, fields[i].0, fields[i].1))
  {
    assert fields[..i + 1][..i] == fields[..i];
    assert fields[..i + 1][i] == fields[i];
  }

  /** Fields run in order: folding `a + b` is folding `b` into the result of `a`. */
  lemma {:induction false} FoldFieldsAppend(template: string, a: seq<(string, string)>, b: seq<(string, string)>,
                                            options: Option<(string, string) -> FieldOptions>)
    ensures FoldFields(template, a + b, options) == FoldFields(FoldFields(template, a, options), b, options)
    decreases |b|
  {
    if |b| == 0 {
      assert a + b == a;
    } else {
      var b' := b[..|b| - 1];
      assert (a + b)[..|a + b| - 1] == a + b';
      assert (a + b)[|a + b| - 1] == b[|b| - 1];
      FoldFieldsAppend(template, a, b', options);
    }
  }

  /** A template that mentions none of the fields comes back as it is. */
  lemma {:induction false} FoldFieldsUnmentioned(template: string, fields: seq<(string, string)>,
                                                 options: Option<(string, string) -> FieldOptions>)
    requires forall i | 0 <= i < |fields| :: !Mentions(template, fields[i].0)
    ensures FoldFields(template, fields, options) == template
    decreases |fields|
  {
    if |fields| > 0 {
      var last := fields[|fields| - 1];
      var front := fields[..|fields| - 1];
      assert forall i | 0 <= i < |front| :: front[i] == fields[i];
      FoldFieldsUnmentioned(template, front, options);
      FlattenFieldUnmentioned(template, last.0, last.1, OptionsFor(options, last.0, last.1));
    }
  }

  /** `fillAnkiTemplate`: every field of the note, in order, then the finishing chain. */
  method FillAnkiTemplate(template: string, fields: Records.Record<string>,
                          options: Option<(string, string) -> FieldOptions>,
                          decode: string -> string) returns (html: string)
    ensures html == Finish(FoldFields(template, fields, options), decode)
  {
    var card := template;
    var i := 0;
    while i < |fields|
      invariant 0 <= i <= |fields|
      invariant card == FoldFields(template, fields[..i], options)
    {
      var (name, value) := fields[i];
      FoldFieldsStep(template, fields, i, options);
      card := FlattenField(card, name, value, OptionsFor(options, name, value));
      i := i + 1;
    }
    assert fields[..i] == fields;
    html := RemoveScriptTags(decode(FixHr(FixBr(card))));
  }

  // ---------------------------------------------------------------------
  // Sound references
  // ---------------------------------------------------------------------

  /** `s.replace("[sound:", "").replace("]", "")`: first occurrences only. */
  function StripAnkiSoundFormat(s: string): string
  {
    ReplaceFirst(ReplaceFirst(s, SoundOpen, ""), "]", "")
  }

  function ToHTMLAudio(ankiAudio: string): string
  {
    "<audio src=\"" + StripAnkiSoundFormat(ankiAudio) + "\"></audio>"
  }

  /** `[sound:x]y` loses its first `[sound:` and first `]`. */
  lemma {:induction false} StripSound(x: string, y: string)
    requires ']' !in x
    ensures StripAnkiSoundFormat(SoundOpen + x + "]" + y) == x + y
  {
    var s := SoundOpen + x + "]" + y;
    assert s[..|SoundOpen|] == SoundOpen;
    ReplaceFirstAt(s, SoundOpen, "", 0);
    var u := x + "]" + y;
    assert s[..0] + "" + s[|SoundOpen|..] == u;
    CharOccursAt(u, ']', |x|);
    forall j | 0 <= j < |x| ensures !OccursAt(u, "]", j) {
      OccursIndex(u, "]", j, 0);
      assert u[j] == x[j];
    }
    ReplaceFirstAt(u, "]", "", |x|);
    assert u[..|x|] + "" + u[|x| + 1..] == x + y;
  }

  /** Text with neither `[sound:` nor `]` is returned as it is. */
  lemma {:induction false} StripPlain(s: string)
    requires !Contains(s, SoundOpen) && ']' !in s
    ensures StripAnkiSoundFormat(s) == s
  {
    ReplaceFirstAbsent(s, SoundOpen, "");
    BracketFree(s);
    ReplaceFirstAbsent(s, "]", "");
  }

  lemma {:induction false} BracketFree(s: string)
    requires ']' !in s
    ensures !Contains(s, "]")
  {
    MissingCharNotContained(s, "]", 0);
  }

  /** `toHTMLAudio("[sound:x]")` points an `<audio>` element at `x`. */
  lemma {:induction false} ToHTMLAudioOf(x: string)
    requires ']' !in x
    ensures ToHTMLAudio(SoundOpen + x + "]") == "<audio src=\"" + x + "\"></audio>"
  {
    StripSound(x, "");
    assert SoundOpen + x + "]" + "" == SoundOpen + x + "]";
    assert x + "" == x;
  }
}
