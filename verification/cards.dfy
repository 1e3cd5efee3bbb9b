/** The note request `Card` assembles for the local flashcard service, and the
    `Card` object itself: its fields are set once by the constructor, and
    `Construct` stores the request in `content`, adding the picture and audio
    attachments to the note afterwards. */
module Cards {
  import opened Wrappers
  import opened DictEntry
  import opened Derive
  import Emphasis

  /** A media file the service downloads and puts into the named note fields. */
  datatype Attachment = Attachment(url: string, filename: string, fields: seq<string>)

  /** The `note` parameter of the request. `front` and `back` are the two
      entries of its `fields` object; `closeAfterAdding` its only option. A
      missing key is `None`. */
  datatype Note = Note(
    deckName: string,
    modelName: string,
    front: string,
    back: string,
    closeAfterAdding: bool,
    tags: seq<string>,
    picture: Option<seq<Attachment>>,
    audio: Option<seq<Attachment>>)

  /** The whole request: action, protocol version and the note. */
  datatype Envelope = Envelope(action: string, version: int, note: Note)

  const ProtocolVersion: int := 6
  const AutoTag: string := "AutoAdded"

  /** Headless mode adds the note directly; otherwise the add-cards dialog opens. */
  function ActionFor(nogui: bool): (action: string)
    ensures action == "addNote" <==> nogui
    ensures action == "guiAddCards" <==> !nogui
  {
    if nogui then "addNote" else "guiAddCards"
  }

  function FrontText(example: string, phonetic: string): string {
    example + " " + phonetic + "\n\n\n"
  }

  function BackText(wordType: string, definition: string): string {
    wordType + " " + definition + "\n\n\n"
  }

  function PictureFor(word: string, url: string): seq<Attachment> {
    [Attachment(url, word + ".png", ["Back"])]
  }

  function AudioFor(word: string, url: string): seq<Attachment> {
    [Attachment(url, word + ".mp3", ["Front"])]
  }

  /** The request `contruct` stores for `word`, or the error it raises when
      no kept meaning group has a first definition (`min` of an empty list).
      The picture URL is the image search's result and `manual` the
      pronunciation typed in when the entry has none (`None`: the user did not
      answer "y"). */
  function Assemble(deck: string, word: string, cardType: string, action: string, entry: Entry,
                    imageUrl: string, manual: Option<(string, string)>): (r: Result<Envelope, AssemblyError>)
    requires Emphasis.LiteralWord(word)
    ensures r.Failure? <==>
            forall i :: 0 <= i < |KeptMeanings(entry.meanings)| ==> !HasDefinition(KeptMeanings(entry.meanings)[i])
  {
    var kept := KeptMeanings(entry.meanings);
    match ChooseDefinition(kept)
    case Failure(e) => Failure(e)
    case Success(definition) =>
      var picked := PickPhonetic(entry.phonetics, manual);
      var draft := Draft(action, deck, cardType,
                         FrontText(Example(kept, word), picked.0), BackText(WordType(kept), definition));
      var pictured := if imageUrl != "" then InsertPicture(draft, word, imageUrl) else draft;
      Success(if picked.1 != "" then InsertAudio(pictured, word, picked.1) else pictured)
  }

  /** The request as first stored: protocol version 6, the "AutoAdded" tag,
      the dialog closing after adding, and no attachment yet. */
  function Draft(action: string, deck: string, cardType: string, front: string, back: string): (r: Envelope)
    ensures r.action == action && r.version == ProtocolVersion
    ensures r.note.deckName == deck && r.note.modelName == cardType
    ensures r.note.front == front && r.note.back == back
    ensures r.note.closeAfterAdding && r.note.tags == [AutoTag]
    ensures r.note.picture.None? && r.note.audio.None?
  {
    Envelope(action, ProtocolVersion, Note(deck, cardType, front, back, true, [AutoTag], None, None))
  }

  /** The request with a picture entry inserted into its note; nothing else changes. */
  function InsertPicture(env: Envelope, word: string, url: string): (r: Envelope)
    ensures r.note.picture == Some([Attachment(url, word + ".png", ["Back"])])
    ensures r.action == env.action && r.version == env.version
    ensures r.note.(picture := env.note.picture) == env.note
  {
    env.(note := env.note.(picture := Some(PictureFor(word, url))))
  }

  /** The request with an audio entry inserted into its note; nothing else changes. */
  function InsertAudio(env: Envelope, word: string, url: string): (r: Envelope)
    ensures r.note.audio == Some([Attachment(url, word + ".mp3", ["Front"])])
    ensures r.action == env.action && r.version == env.version
    ensures r.note.(audio := env.note.audio) == env.note
  {
    env.(note := env.note.(audio := Some(AudioFor(word, url))))
  }

  /** Assembly unfolded into the steps `Card.Construct` takes (a proof helper). */
  lemma AssembleSteps(deck: string, word: string, cardType: string, action: string, entry: Entry,
                      imageUrl: string, manual: Option<(string, string)>)
    requires Emphasis.LiteralWord(word)
    requires ChooseDefinition(KeptMeanings(entry.meanings)).Success?
    ensures var kept := KeptMeanings(entry.meanings);
            var picked := PickPhonetic(entry.phonetics, manual);
            var draft := Draft(action, deck, cardType, FrontText(Example(kept, word), picked.0),
                               BackText(WordType(kept), ChooseDefinition(kept).value));
            var pictured := if imageUrl != "" then InsertPicture(draft, word, imageUrl) else draft;
            Assemble(deck, word, cardType, action, entry, imageUrl, manual)
            == Success(if picked.1 != "" then InsertAudio(pictured, word, picked.1) else pictured)
  {
  }

  /** The fixed parts of the request and the two texts of the note. */
  lemma EnvelopeFields(deck: string, word: string, cardType: string, action: string, entry: Entry,
                       imageUrl: string, manual: Option<(string, string)>)
    requires Emphasis.LiteralWord(word)
    requires Assemble(deck, word, cardType, action, entry, imageUrl, manual).Success?
    ensures var env := Assemble(deck, word, cardType, action, entry, imageUrl, manual).value;
            var kept := KeptMeanings(entry.meanings);
            && env.action == action
            && env.version == ProtocolVersion
            && env.note.deckName == deck
            && env.note.modelName == cardType
            && env.note.tags == [AutoTag]
            && env.note.closeAfterAdding
            && env.note.front == FrontText(Example(kept, word), PickPhonetic(entry.phonetics, manual).0)
            && env.note.back == BackText(WordType(kept), ChooseDefinition(kept).value)
  {
    AssembleSteps(deck, word, cardType, action, entry, imageUrl, manual);
  }

  /** The picture is attached exactly when its URL is non-empty, and the audio
      exactly when the chosen audio URL is non-empty. */
  lemma EnvelopeAttachments(deck: string, word: string, cardType: string, action: string, entry: Entry,
                            imageUrl: string, manual: Option<(string, string)>)
    requires Emphasis.LiteralWord(word)
    requires Assemble(deck, word, cardType, action, entry, imageUrl, manual).Success?
    ensures var note := Assemble(deck, word, cardType, action, entry, imageUrl, manual).value.note;
            var audioUrl := PickPhonetic(entry.phonetics, manual).1;
            && (note.picture.Some? <==> imageUrl != "")
            && (imageUrl != "" ==> note.picture == Some(PictureFor(word, imageUrl)))
            && (note.audio.Some? <==> audioUrl != "")
            && (audioUrl != "" ==> note.audio == Some(AudioFor(word, audioUrl)))
  {
    AssembleSteps(deck, word, cardType, action, entry, imageUrl, manual);
  }

  class Card {
    var deck: string
    var word: string
    var cardType: string
    var action: string
    var dictionaryData: Entry
    /** The request once `Construct` has succeeded; `None` before. */
    var content: Option<Envelope>

    /** The entry is the dictionary's answer for `word`, fetched by the caller. */
    constructor (deck: string, word: string, cardType: string, nogui: bool, dictionaryData: Entry)
      ensures this.deck == deck && this.word == word && this.cardType == cardType
      ensures this.action == ActionFor(nogui)
      ensures this.dictionaryData == dictionaryData
      ensures content == None
    {
      this.deck := deck;
      this.word := word;
      this.cardType := cardType;
      this.action := ActionFor(nogui);
      this.dictionaryData := dictionaryData;
      content := None;
    }

    /** Derives the card's texts, stores the request without attachments and
        then inserts the picture and audio entries into its note. When there
        is no definition to choose it fails before touching `content`. */
    method Construct(imageUrl: string, manual: Option<(string, string)>)
      returns (r: Result<Envelope, AssemblyError>)
      requires Emphasis.LiteralWord(word)
      modifies this`content
      ensures r == Assemble(deck, word, cardType, action, dictionaryData, imageUrl, manual)
      ensures content == if r.Success? then Some(r.value) else old(content)
    {
      var meanings := KeptMeanings(dictionaryData.meanings);
      var example := Example(meanings, word);
      var wordType := WordType(meanings);
      var definition := ChooseDefinition(meanings);
      if definition.Failure? {
        return Failure(definition.error);
      }
      var picked := PickPhonetic(dictionaryData.phonetics, manual);
      var phonetic, audioUrl := picked.0, picked.1;
      AssembleSteps(deck, word, cardType, action, dictionaryData, imageUrl, manual);

      var envelope := Draft(action, deck, cardType, FrontText(example, phonetic), BackText(wordType, definition.value));
      content := Some(envelope);
      if imageUrl != "" {
        envelope := InsertPicture(envelope, word, imageUrl);
        content := Some(envelope);
      }
      if audioUrl != "" {
        envelope := InsertAudio(envelope, word, audioUrl);
        content := Some(envelope);
      }
      r := Success(envelope);
    }
  }

  /** The audio attachment comes from the first phonetic entry that has both a
      transcription and a URL, which is also the pronunciation on the front. */
  lemma AudioFromFirstPhonetic(deck: string, word: string, cardType: string, action: string, entry: Entry,
                               imageUrl: string, manual: Option<(string, string)>, k: nat)
    requires Emphasis.LiteralWord(word)
    requires k < |entry.phonetics| && HasAudio(entry.phonetics[k])
    requires forall j :: 0 <= j < k ==> !HasAudio(entry.phonetics[j])
    requires Assemble(deck, word, cardType, action, entry, imageUrl, manual).Success?
    ensures var env := Assemble(deck, word, cardType, action, entry, imageUrl, manual).value;
            && env.note.audio == Some(AudioFor(word, entry.phonetics[k].audio.value))
            && env.note.front == FrontText(Example(KeptMeanings(entry.meanings), word),
                                           entry.phonetics[k].text.value)
  {
    AssembleSteps(deck, word, cardType, action, entry, imageUrl, manual);
  }

  /** With no phonetic entry and no manual input there is no audio attachment
      and the pronunciation on the front is empty. */
  lemma NoPhoneticNoAudio(deck: string, word: string, cardType: string, action: string, entry: Entry,
                          imageUrl: string)
    requires Emphasis.LiteralWord(word)
    requires forall k :: 0 <= k < |entry.phonetics| ==> !HasAudio(entry.phonetics[k])
    requires Assemble(deck, word, cardType, action, entry, imageUrl, None).Success?
    ensures var env := Assemble(deck, word, cardType, action, entry, imageUrl, None).value;
            && env.note.audio.None?
            && env.note.front == FrontText(Example(KeptMeanings(entry.meanings), word), "")
  {
    AssembleSteps(deck, word, cardType, action, entry, imageUrl, None);
  }

  /** The entry of an example end-to-end case: one noun group whose only
      definition reads "a trial" and has no example. */
  function TestMeaning(): Meaning {
    Meaning(Some("noun"), [Definition(Some("a trial"), None)])
  }

  /** The word "test" is a literal pattern, and with that entry the front
      gets the fallback markup, since no definition has an example. */
  lemma TestExample()
    ensures Emphasis.LiteralWord("test") && Example([TestMeaning()], "test") == "<b><i>test</i></b>"
  {
    assert Emphasis.LiteralWord("test") by {
      forall i | 0 <= i < 4
        ensures "test"[i] !in Emphasis.RegexMeta
      {
      }
    }
    assert !HasExample(TestMeaning());
  }

  /** What else `contruct` derives from that entry: the group is kept, its
      definition is chosen and the label is "(noun)". */
  lemma TestDerivations()
    ensures KeptMeanings([TestMeaning()]) == [TestMeaning()]
    ensures ChooseDefinition([TestMeaning()]) == Success("a trial")
    ensures WordType([TestMeaning()]) == "(noun)"
  {
    var m := TestMeaning();
    assert Usable(m) && HasDefinition(m);
    assert KeptMeanings([m]) == [m];
    assert Candidates([m]) == ["a trial"];
    assert Label(m.partOfSpeech.value) == "(noun)";
    assert Labels([m]) == ["(noun)"];
  }

  /** An example end-to-end case: the word "test", no example, no phonetic
      with audio, no manual input, GUI mode. The request is a `guiAddCards`
      request whose front is the bare word in markup and whose back is the
      label and the definition. */
  lemma EndToEndTexts(url: string)
    ensures var r := Assemble("Words", "test", "Basic", ActionFor(false), Entry([TestMeaning()], []), url, None);
            && r.Success?
            && r.value.action == "guiAddCards"
            && r.value.note.front == "<b><i>test</i></b> \n\n\n"
            && r.value.note.back == "(noun) a trial\n\n\n"
  {
    TestExample();
    TestDerivations();
    assert PickPhonetic([], None) == ("", "");
    EnvelopeFields("Words", "test", "Basic", ActionFor(false), Entry([TestMeaning()], []), url, None);
  }

  /** The same case with a thumbnail found: one picture named "test.png" for
      the back, and no audio. */
  lemma EndToEndAttachments()
    ensures var url := "https://t0.gstatic.com/x";
            var r := Assemble("Words", "test", "Basic", ActionFor(false), Entry([TestMeaning()], []), url, None);
            && r.Success?
            && r.value.note.picture == Some([Attachment(url, "test.png", ["Back"])])
            && r.value.note.audio.None?
  {
    var url := "https://t0.gstatic.com/x";
    TestExample();
    TestDerivations();
    assert PickPhonetic([], None) == ("", "");
    EnvelopeAttachments("Words", "test", "Basic", ActionFor(false), Entry([TestMeaning()], []), url, None);
    assert "test" + ".png" == "test.png";
  }
}
