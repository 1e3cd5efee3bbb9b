/** The values `Card.contruct` derives from a dictionary entry before it
    assembles the request: the kept meaning groups, the example sentence, the
    word-type label, the chosen definition and the phonetic; and the rule that
    picks the picture among the image search's thumbnails. */
module Derive {
  import opened Wrappers
  import opened DictEntry
  import Emphasis

  // ---------------------------------------------------------------------
  // Generic list helpers: Python's `filter` and "first element of a
  // filtered list" (`[x for x in xs if p(x)][0]`, which raises IndexError
  // when nothing qualifies).

  /** The elements of `s` that satisfy `p`, in their original order. */
  function Filter<T>(s: seq<T>, p: T -> bool): (r: seq<T>)
    ensures |r| <= |s|
    ensures forall i :: 0 <= i < |r| ==> p(r[i]) && r[i] in s
    ensures forall i :: 0 <= i < |s| && p(s[i]) ==> s[i] in r
  {
    if s == [] then [] else (if p(s[0]) then [s[0]] else []) + Filter(s[1..], p)
  }

  /** Filtering distributes over concatenation: together with the one-element
      case this pins `Filter` down as the order-preserving selection. */
  lemma {:induction false} FilterAppend<T>(a: seq<T>, b: seq<T>, p: T -> bool)
    ensures Filter(a + b, p) == Filter(a, p) + Filter(b, p)
    decreases |a|
  {
    if a == [] {
      assert a + b == b;
    } else {
      assert (a + b)[0] == a[0];
      assert (a + b)[1..] == a[1..] + b;
      FilterAppend(a[1..], b, p);
      calc {
        Filter(a + b, p);
        (if p(a[0]) then [a[0]] else []) + Filter(a[1..] + b, p);
        (if p(a[0]) then [a[0]] else []) + (Filter(a[1..], p) + Filter(b, p));
        Filter(a, p) + Filter(b, p);
      }
    }
  }

  /** The index of the first element that satisfies `p`, if there is one. */
  function FirstIndex<T>(s: seq<T>, p: T -> bool): (r: Option<nat>)
    ensures r.Some? ==> r.value < |s| && p(s[r.value])
    ensures r.Some? ==> forall j :: 0 <= j < r.value ==> !p(s[j])
    ensures r.None? <==> forall j :: 0 <= j < |s| ==> !p(s[j])
  {
    if s == [] then None
    else if p(s[0]) then Some(0)
    else match FirstIndex(s[1..], p)
      case None => None
      case Some(k) => Some(k + 1)
  }

  // ---------------------------------------------------------------------
  // Meaning groups

  /** A meaning group survives the filter when its part of speech and its
      definition list are both truthy. */
  predicate Usable(m: Meaning) {
    Present(m.partOfSpeech) && m.definitions != []
  }

  function KeptMeanings(ms: seq<Meaning>): (r: seq<Meaning>)
    ensures forall i :: 0 <= i < |r| ==> Usable(r[i])
  {
    Filter(ms, Usable)
  }

  /** The kept meanings are the usable ones in their original order: a group
      list splits into parts whose kept groups are concatenated, a usable group
      is kept and an unusable one dropped. */
  lemma KeptMeaningsOrder(a: seq<Meaning>, m: Meaning, b: seq<Meaning>)
    ensures KeptMeanings(a + [m] + b)
            == KeptMeanings(a) + (if Usable(m) then [m] else []) + KeptMeanings(b)
  {
    FilterAppend(a + [m], b, Usable);
    FilterAppend(a, [m], Usable);
    assert [m][1..] == [];
    assert Filter([m], Usable) == (if Usable(m) then [m] else []);
  }

  /** The first definition of a group, which is what every later rule reads. */
  function FirstDefinition(m: Meaning): Definition
    requires m.definitions != []
  {
    m.definitions[0]
  }

  // ---------------------------------------------------------------------
  // Example sentence

  predicate HasExample(m: Meaning) {
    m.definitions != [] && Present(FirstDefinition(m).example)
  }

  /** The emphasis used when no kept group has an example. */
  function FallbackMarkup(word: string): string {
    "<b><i>" + word + "</i></b>"
  }

  /** The example sentence on the front of the card: the first kept group
      whose first definition has an example supplies it, with the word
      emphasised; when no group has one, the bare word in markup is used. */
  function Example(kept: seq<Meaning>, word: string): (r: string)
    requires Emphasis.LiteralWord(word)
    ensures forall k :: 0 <= k < |kept| && HasExample(kept[k]) && (forall j :: 0 <= j < k ==> !HasExample(kept[j])) ==>
              r == Emphasis.Emphasize(FirstDefinition(kept[k]).example.value, word)
    ensures (forall i :: 0 <= i < |kept| ==> !HasExample(kept[i])) ==> r == FallbackMarkup(word)
  {
    match FirstIndex(kept, HasExample)
    case None => FallbackMarkup(word)
    case Some(k) => Emphasis.Emphasize(FirstDefinition(kept[k]).example.value, word)
  }

  // ---------------------------------------------------------------------
  // Word-type label

  function Label(pos: string): string {
    "(" + pos + ")"
  }

  /** One parenthesised part of speech per kept group, in encounter order. */
  function Labels(kept: seq<Meaning>): (r: seq<string>)
    requires forall i :: 0 <= i < |kept| ==> Usable(kept[i])
    ensures |r| == |kept|
    ensures forall i :: 0 <= i < |kept| ==> Usable(kept[i]) && r[i] == Label(kept[i].partOfSpeech.value)
  {
    if kept == [] then []
    else
      assert Usable(kept[0]);
      [Label(kept[0].partOfSpeech.value)] + Labels(kept[1..])
  }

  /** Python's `sep.join(parts)`: empty for no parts, the part itself for one
      part, otherwise it starts with the first part; `JoinAppend` gives how
      each further part is added. */
  function Join(parts: seq<string>, sep: string): (r: string)
    ensures parts == [] ==> r == ""
    ensures |parts| == 1 ==> r == parts[0]
    ensures parts != [] ==> parts[0] <= r
  {
    if parts == [] then ""
    else if |parts| == 1 then parts[0]
    else
      var rest := Join(parts[1..], sep);
      parts[0] + sep + rest
  }

  /** The label on the back of the card, for example "(noun) (verb)": empty
      exactly when no group is kept, otherwise opening with the first kept
      group's label; `WordTypeAppend` gives how each further label is added. */
  function WordType(kept: seq<Meaning>): (r: string)
    requires forall i :: 0 <= i < |kept| ==> Usable(kept[i])
    ensures r == "" <==> kept == []
    ensures kept != [] ==> Usable(kept[0]) && Label(kept[0].partOfSpeech.value) <= r
  {
    Join(Labels(kept), " ")
  }

  /** Joining one more part appends the separator and that part. */
  lemma {:induction false} JoinAppend(parts: seq<string>, p: string, sep: string)
    requires parts != []
    ensures Join(parts + [p], sep) == Join(parts, sep) + sep + p
    decreases |parts|
  {
    if |parts| == 1 {
      assert parts + [p] == [parts[0], p];
      assert [parts[0], p][1..] == [p];
    } else {
      var q := parts + [p];
      assert q[0] == parts[0];
      assert q[1..] == parts[1..] + [p];
      JoinAppend(parts[1..], p, sep);
      calc {
        Join(q, sep);
        q[0] + sep + Join(q[1..], sep);
        parts[0] + sep + (Join(parts[1..], sep) + sep + p);
        (parts[0] + sep + Join(parts[1..], sep)) + sep + p;
        Join(parts, sep) + sep + p;
      }
    }
  }

  /** One more kept group adds its label, after a space unless it is the
      first: with the empty list as the base this determines the whole label
      for any parts of speech, spaces included. */
  lemma WordTypeAppend(kept: seq<Meaning>, m: Meaning)
    requires forall i :: 0 <= i < |kept| ==> Usable(kept[i])
    requires Usable(m)
    ensures forall i :: 0 <= i < |kept + [m]| ==> Usable((kept + [m])[i])
    ensures WordType(kept + [m]) == (if kept == [] then "" else WordType(kept) + " ") + Label(m.partOfSpeech.value)
  {
    var l := Label(m.partOfSpeech.value);
    assert forall i :: 0 <= i < |kept + [m]| ==> Usable((kept + [m])[i]) by {
      forall i | 0 <= i < |kept + [m]|
        ensures Usable((kept + [m])[i])
      {
        if i < |kept| {
          assert (kept + [m])[i] == kept[i];
        }
      }
    }
    assert Labels(kept + [m]) == Labels(kept) + [l];
    if kept != [] {
      JoinAppend(Labels(kept), l, " ");
    } else {
      assert kept + [m] == [m];
    }
  }

  /** Position of the first space in `s`, or |s| when there is none. */
  function SpaceIndex(s: string): (i: nat)
    ensures i <= |s|
    ensures i < |s| ==> s[i] == ' '
    ensures forall j :: 0 <= j < i ==> s[j] != ' '
  {
    if s == [] || s[0] == ' ' then 0 else 1 + SpaceIndex(s[1..])
  }

  /** Python's `s.split(" ")`: the fields between single spaces. */
  function Split(s: string): seq<string>
    decreases |s|
  {
    var i := SpaceIndex(s);
    if i == |s| then [s] else [s[..i]] + Split(s[i + 1..])
  }

  predicate NoSpace(s: string) {
    forall i :: 0 <= i < |s| ==> s[i] != ' '
  }

  lemma SpaceIndexAfter(p: string, rest: string)
    requires NoSpace(p)
    ensures SpaceIndex(p + " " + rest) == |p|
    decreases |p|
  {
    if p != [] {
      assert (p + " " + rest)[1..] == p[1..] + " " + rest;
      SpaceIndexAfter(p[1..], rest);
    }
  }

  /** A field without a space, followed by a space, splits off first. */
  lemma SplitAfter(p: string, rest: string)
    requires NoSpace(p)
    ensures Split(p + " " + rest) == [p] + Split(rest)
  {
    var s := p + " " + rest;
    SpaceIndexAfter(p, rest);
    assert s[..|p|] == p;
    assert s[|p| + 1..] == rest;
  }

  /** Joining with a space and splitting on it again gives the parts back,
      provided no part holds a space itself. */
  lemma {:induction false} SplitJoin(parts: seq<string>)
    requires parts != []
    requires forall i :: 0 <= i < |parts| ==> NoSpace(parts[i])
    ensures Split(Join(parts, " ")) == parts
    decreases |parts|
  {
    if |parts| == 1 {
      assert SpaceIndex(parts[0]) == |parts[0]|;
    } else {
      var p, rest := parts[0], Join(parts[1..], " ");
      SplitAfter(p, rest);
      SplitJoin(parts[1..]);
      calc {
        Split(Join(parts, " "));
        Split(p + " " + rest);
        [p] + Split(rest);
        [p] + parts[1..];
        parts;
      }
    }
  }

  lemma LabelNoSpace(pos: string)
    requires NoSpace(pos)
    ensures NoSpace(Label(pos))
  {
    var l := Label(pos);
    forall j | 0 <= j < |l|
      ensures l[j] != ' '
    {
      if 0 < j < |l| - 1 {
        assert l[j] == pos[j - 1];
      }
    }
  }

  /** The word-type label splits back into one label per kept group, in
      order, whenever the parts of speech contain no space. */
  lemma WordTypeFields(kept: seq<Meaning>)
    requires kept != []
    requires forall i :: 0 <= i < |kept| ==> Usable(kept[i]) && NoSpace(kept[i].partOfSpeech.value)
    ensures Split(WordType(kept)) == Labels(kept)
  {
    var ls := Labels(kept);
    forall i | 0 <= i < |ls|
      ensures NoSpace(ls[i])
    {
      LabelNoSpace(kept[i].partOfSpeech.value);
    }
    SplitJoin(ls);
  }

  /** Parts of speech in encounter order: noun then verb gives "(noun) (verb)". */
  lemma LabelExample()
    ensures WordType([Meaning(Some("noun"), [Definition(None, None)]), Meaning(Some("verb"), [Definition(None, None)])])
            == "(noun) (verb)"
  {
  }

  // ---------------------------------------------------------------------
  // Chosen definition: `min(candidates, key=len)`

  predicate HasDefinition(m: Meaning) {
    m.definitions != [] && Present(FirstDefinition(m).definition)
  }

  /** The truthy first-definition texts of the kept groups, in order. */
  function Candidates(kept: seq<Meaning>): (r: seq<string>)
    ensures |r| <= |kept|
    ensures forall i :: 0 <= i < |r| ==> r[i] != ""
    ensures r == [] <==> forall i :: 0 <= i < |kept| ==> !HasDefinition(kept[i])
  {
    if kept == [] then []
    else (if HasDefinition(kept[0]) then [FirstDefinition(kept[0]).definition.value] else [])
         + Candidates(kept[1..])
  }

  /** Candidates is the order-preserving selection of first definitions. */
  lemma {:induction false} CandidatesAppend(a: seq<Meaning>, b: seq<Meaning>)
    ensures Candidates(a + b) == Candidates(a) + Candidates(b)
    decreases |a|
  {
    if a == [] {
      assert a + b == b;
    } else {
      assert (a + b)[0] == a[0];
      assert (a + b)[1..] == a[1..] + b;
      CandidatesAppend(a[1..], b);
    }
  }

  /** The candidates are exactly the first-definition texts of the kept
      groups that have one. */
  lemma {:induction false} CandidatesAre(kept: seq<Meaning>)
    ensures forall c :: c in Candidates(kept) <==>
              exists j :: 0 <= j < |kept| && HasDefinition(kept[j]) && c == FirstDefinition(kept[j]).definition.value
    decreases |kept|
  {
    if kept != [] {
      CandidatesAre(kept[1..]);
      forall c | c in Candidates(kept)
        ensures exists j :: 0 <= j < |kept| && HasDefinition(kept[j]) && c == FirstDefinition(kept[j]).definition.value
      {
        if !(HasDefinition(kept[0]) && c == FirstDefinition(kept[0]).definition.value) {
          assert c in Candidates(kept[1..]);
          var j :| 0 <= j < |kept[1..]| && HasDefinition(kept[1..][j]) && c == FirstDefinition(kept[1..][j]).definition.value;
          assert kept[1..][j] == kept[j + 1];
        }
      }
      forall c, j | 0 <= j < |kept| && HasDefinition(kept[j]) && c == FirstDefinition(kept[j]).definition.value
        ensures c in Candidates(kept)
      {
        if j > 0 {
          assert kept[1..][j - 1] == kept[j];
        }
      }
    }
  }

  /** The index a stable minimum by length returns: the first of the shortest. */
  function ShortestIndex(s: seq<string>): (i: nat)
    requires s != []
    ensures i < |s|
    ensures forall k :: 0 <= k < |s| ==> |s[i]| <= |s[k]|
    ensures forall k :: 0 <= k < i ==> |s[k]| > |s[i]|
  {
    if |s| == 1 then 0
    else
      var j := 1 + ShortestIndex(s[1..]);
      if |s[0]| <= |s[j]| then 0 else j
  }

  /** The minimality and tie-breaking conditions leave exactly one choice. */
  lemma ShortestIndexUnique(s: seq<string>, i: nat)
    requires i < |s|
    requires forall k :: 0 <= k < |s| ==> |s[i]| <= |s[k]|
    requires forall k :: 0 <= k < i ==> |s[k]| > |s[i]|
    ensures i == ShortestIndex(s)
  {
    var m := ShortestIndex(s);
    assert |s[m]| <= |s[i]| && |s[i]| <= |s[m]|;
  }

  datatype AssemblyError = NoDefinition

  /** The definition on the back of the card; `min` of an empty list raises. */
  function ChooseDefinition(kept: seq<Meaning>): (r: Result<string, AssemblyError>)
    ensures r.Failure? <==> Candidates(kept) == []
  {
    var cs := Candidates(kept);
    if cs == [] then Failure(NoDefinition) else Success(cs[ShortestIndex(cs)])
  }

  /** The chosen definition is a candidate, no candidate is shorter, every
      candidate before it is strictly longer (ties go to the earliest), and it
      is the first definition of a kept group. */
  lemma ChosenIsShortest(kept: seq<Meaning>)
    requires Candidates(kept) != []
    ensures var d, cs := ChooseDefinition(kept).value, Candidates(kept);
            && d in cs
            && (forall c :: c in cs ==> |d| <= |c|)
            && (exists i :: 0 <= i < |cs| && cs[i] == d && forall k :: 0 <= k < i ==> |cs[k]| > |d|)
            && exists j :: 0 <= j < |kept| && HasDefinition(kept[j]) && d == FirstDefinition(kept[j]).definition.value
  {
    CandidatesAre(kept);
    var cs := Candidates(kept);
    var i := ShortestIndex(cs);
    assert cs[i] == ChooseDefinition(kept).value;
  }

  /** First definitions of 12, 5 and 20 characters: the 5-character one is chosen. */
  lemma ShortestExample()
    ensures var kept := [Meaning(Some("noun"), [Definition(Some("twelve chars"), None)]),
                         Meaning(Some("verb"), [Definition(Some("five!"), None)]),
                         Meaning(Some("adj"), [Definition(Some("twenty characters!!!"), None)])];
            ChooseDefinition(kept) == Success("five!")
  {
  }

  // ---------------------------------------------------------------------
  // Phonetic and audio

  predicate HasAudio(p: Phonetic) {
    Present(p.text) && Present(p.audio)
  }

  /** The pronunciation and audio URL: from the first phonetic entry that has
      both, ignoring the manual input; else from the manual input (`None` when
      the user does not answer "y"), else both empty. */
  function PickPhonetic(phonetics: seq<Phonetic>, manual: Option<(string, string)>): (r: (string, string))
    ensures forall k :: 0 <= k < |phonetics| && HasAudio(phonetics[k]) && (forall j :: 0 <= j < k ==> !HasAudio(phonetics[j])) ==>
              r == (phonetics[k].text.value, phonetics[k].audio.value)
    ensures (forall k :: 0 <= k < |phonetics| ==> !HasAudio(phonetics[k])) ==>
              r == (if manual.Some? then manual.value else ("", ""))
  {
    match FirstIndex(phonetics, HasAudio)
    case Some(k) => (phonetics[k].text.value, phonetics[k].audio.value)
    case None => if manual.Some? then manual.value else ("", "")
  }

  // ---------------------------------------------------------------------
  // Picture

  predicate Contains(s: string, t: string) {
    exists i :: 0 <= i <= |s| && t <= s[i..]
  }

  predicate IsThumbnail(src: Option<string>) {
    Present(src) && Contains(src.value, "gstatic")
  }

  /** The picture URL from the `src` attributes of the result page's images,
      in document order: the first truthy one hosted on "gstatic", else "". */
  function PickImage(srcs: seq<Option<string>>): (url: string)
    ensures url == "" <==> forall k :: 0 <= k < |srcs| ==> !IsThumbnail(srcs[k])
    ensures url != "" ==> Contains(url, "gstatic")
  {
    match FirstIndex(srcs, IsThumbnail)
    case Some(k) => srcs[k].value
    case None => ""
  }

  /** The first thumbnail in document order is the one picked. */
  lemma ImageFromFirst(srcs: seq<Option<string>>, k: nat)
    requires k < |srcs| && IsThumbnail(srcs[k])
    requires forall j :: 0 <= j < k ==> !IsThumbnail(srcs[j])
    ensures PickImage(srcs) == srcs[k].value
  {
  }
}
