/** The substitution that puts the looked-up word in bold italics inside the
    example sentence. The source compiles the word as a case-insensitive
    regular expression and substitutes every match; for a word without
    regular-expression metacharacters that is a literal, case-insensitive,
    left-to-right, non-overlapping replacement, which is what is modelled here.
    Case folding is ASCII only. */
module Emphasis {

  /** ASCII lower-casing; every other character is its own lower case. */
  function Lower(c: char): char {
    if 'A' <= c <= 'Z' then (c as int + 32) as char else c
  }

  /** Two strings are equal up to ASCII case. */
  predicate CaseEq(a: string, b: string) {
    |a| == |b| && forall i :: 0 <= i < |a| ==> Lower(a[i]) == Lower(b[i])
  }

  /** `text` begins with a case-insensitive occurrence of `w`. */
  predicate StartsWithCI(text: string, w: string) {
    |w| <= |text| && CaseEq(text[..|w|], w)
  }

  /** Some position of `text` begins an occurrence of `w`. */
  predicate Occurs(text: string, w: string) {
    exists i :: 0 <= i <= |text| && StartsWithCI(text[i..], w)
  }

  /** The characters that make a pattern anything other than a literal. */
  const RegexMeta: set<char> := {'.', '^', '$', '*', '+', '?', '{', '}', '[', ']', '\\', '|', '(', ')'}

  /** A word whose regular expression matches exactly its own (case-folded) text. */
  predicate LiteralWord(w: string) {
    w != "" && forall i :: 0 <= i < |w| ==> w[i] !in RegexMeta
  }

  /** A piece of the example sentence: a character kept as it is, or an
      occurrence of the word (in the casing the sentence has it). */
  datatype Piece = Kept(c: char) | Hit(matched: string)

  function Text(p: Piece): string {
    match p
    case Kept(c) => [c]
    case Hit(m) => m
  }

  /** The text a sequence of pieces was cut from. */
  function Flatten(ps: seq<Piece>): string {
    if ps == [] then "" else Text(ps[0]) + Flatten(ps[1..])
  }

  /** The pieces are what a left-to-right scan for `w` produces: each hit is an
      occurrence, and no kept character starts one. */
  predicate Greedy(ps: seq<Piece>, w: string) {
    ps == [] ||
    ((match ps[0]
      case Hit(m) => CaseEq(m, w)
      case Kept(_) => !StartsWithCI(Flatten(ps), w))
     && Greedy(ps[1..], w))
  }

  /** Cuts `text` into kept characters and occurrences of `w`, scanning left to
      right and resuming after each occurrence. */
  function Segments(text: string, w: string): (ps: seq<Piece>)
    requires w != ""
    ensures Flatten(ps) == text
    ensures Greedy(ps, w)
    decreases |text|
  {
    if text == [] then []
    else if StartsWithCI(text, w) then [Hit(text[..|w|])] + Segments(text[|w|..], w)
    else [Kept(text[0])] + Segments(text[1..], w)
  }

  /** There is only one greedy segmentation of a text: `Segments` is fully
      determined by covering the text, matching on hits and not matching on
      kept characters. */
  lemma {:induction false} SegmentsUnique(ps: seq<Piece>, text: string, w: string)
    requires w != ""
    requires Flatten(ps) == text && Greedy(ps, w)
    ensures ps == Segments(text, w)
    decreases |ps|
  {
    if ps != [] {
      var rest := Flatten(ps[1..]);
      match ps[0]
      case Hit(m) =>
        assert text == m + rest;
        assert text[..|w|] == m;
        assert text[|w|..] == rest;
        SegmentsUnique(ps[1..], rest, w);
      case Kept(c) =>
        assert text == [c] + rest;
        assert text[1..] == rest;
        SegmentsUnique(ps[1..], rest, w);
    }
  }

  /** Every hit replaced by `replacement`, every kept character copied. */
  function Render(ps: seq<Piece>, replacement: string): string {
    if ps == [] then ""
    else (if ps[0].Hit? then replacement else Text(ps[0])) + Render(ps[1..], replacement)
  }

  /** The replacement text, with the closing tags in the order the source writes them. */
  function HitMarkup(word: string): string {
    "<b><i>" + word + "</b></i>"
  }

  /** The example sentence with every occurrence of `word` emphasised; a
      sentence without an occurrence comes back unchanged. */
  function Emphasize(example: string, word: string): (r: string)
    requires LiteralWord(word)
    ensures !Occurs(example, word) ==> r == example
  {
    if Occurs(example, word) then Render(Segments(example, word), HitMarkup(word))
    else
      NoOccurrenceUnchanged(example, word, HitMarkup(word));
      Render(Segments(example, word), HitMarkup(word))
  }

  /** Emphasize replaces exactly the occurrences of a greedy scan by the
      markup and keeps every other character: for ANY way of cutting the
      sentence into occurrences and untouched characters that a left-to-right
      scan would produce, the result is that cut rendered. */
  lemma EmphasizeSpec(example: string, word: string, ps: seq<Piece>)
    requires LiteralWord(word)
    requires Flatten(ps) == example && Greedy(ps, word)
    ensures Emphasize(example, word) == Render(ps, HitMarkup(word))
  {
    SegmentsUnique(ps, example, word);
  }

  /** A sentence that does not contain the word comes back unchanged. */
  lemma {:induction false} NoOccurrenceUnchanged(text: string, w: string, replacement: string)
    requires w != ""
    requires !Occurs(text, w)
    ensures Render(Segments(text, w), replacement) == text
    decreases |text|
  {
    if text != [] {
      assert text[0..] == text;
      assert !StartsWithCI(text, w);
      var tail := text[1..];
      assert !Occurs(tail, w) by {
        forall i | 0 <= i <= |tail|
          ensures !StartsWithCI(tail[i..], w)
        {
          assert tail[i..] == text[i + 1..];
        }
      }
      NoOccurrenceUnchanged(tail, w, replacement);
      assert Segments(text, w) == [Kept(text[0])] + Segments(tail, w);
      assert text == [text[0]] + tail;
    }
  }

  /** A sentence that begins with the word, in any casing, begins with the markup. */
  lemma LeadingOccurrence(text: string, word: string)
    requires LiteralWord(word)
    requires StartsWithCI(text, word)
    ensures Emphasize(text, word) == HitMarkup(word) + Emphasize(text[|word|..], word)
  {
  }

  /** The occurrence is found whatever its casing and written with the word's own casing. */
  lemma EmphasizeExample()
    ensures Emphasize("Cat", "cat") == "<b><i>cat</b></i>"
  {
    LeadingOccurrence("Cat", "cat");
    assert "Cat"[3..] == "";
  }
}
