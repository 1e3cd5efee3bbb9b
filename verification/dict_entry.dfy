/** The dictionary entry that the online dictionary returns for one word, as a
    typed record. The string values the card code reads with `get` are
    optional here, and Python's truthiness test on such a value becomes
    `Present`; the lists are plain sequences. */
module DictEntry {
  import opened Wrappers

  /** One definition of a meaning group; both texts may be missing. */
  datatype Definition = Definition(definition: Option<string>, example: Option<string>)

  /** A meaning group: an optional part of speech and its definitions
      (a missing `definitions` key and an empty list are both falsy). */
  datatype Meaning = Meaning(partOfSpeech: Option<string>, definitions: seq<Definition>)

  /** A phonetic transcription with an optional audio URL. */
  datatype Phonetic = Phonetic(text: Option<string>, audio: Option<string>)

  datatype Entry = Entry(meanings: seq<Meaning>, phonetics: seq<Phonetic>)

  /** Truthiness of an optional string: present and not empty. */
  predicate Present(o: Option<string>) {
    o.Some? && o.value != ""
  }
}
