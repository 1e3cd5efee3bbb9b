# ankiadd card assembly, in Dafny

A model of the core of `ankiadd.py`, a command-line helper that looks a word
up in an online dictionary and asks a locally running flashcard service
(the AnkiConnect RPC protocol) to add a note for it. The model covers the
deterministic part of the `Card` class:

- the action choice made by the constructor (`addNote` in headless mode,
  `guiAddCards` otherwise);
- `Card.contruct`: filtering the dictionary entry's meaning groups, choosing
  and emphasising the example sentence, the word-type label, the shortest
  first definition, the phonetic and audio URL, and the request envelope with
  its optional picture and audio attachments, stored in the card's `content`;
- the shape check `Card.add` applies to the service's reply;
- the rule that picks the picture among the image search's thumbnails.

Files (one module each):

- `wrappers.dfy` — `Option` and `Result`.
- `dict_entry.dfy` — the dictionary entry as a typed record. The string
  values the source reads with `get` (`partOfSpeech`, `definition`,
  `example`, `text`, `audio`) are `Option`s, and Python's truthiness of such a
  value is `Present`; the lists (`meanings`, `definitions`, `phonetics`) are
  plain sequences, a missing `definitions` being represented by the empty
  list, which the source treats the same way.
- `emphasis.dfy` — the case-insensitive substitution of the word in the
  example sentence, specified by a greedy left-to-right segmentation of the
  sentence into kept characters and occurrences.
- `derive.dfy` — the derivations of `contruct` (kept meanings, example,
  label, definition, phonetic) and the thumbnail rule.
- `cards.dfy` — the request envelope, its assembly `Assemble`, and the class
  `Card`, whose `Construct` stores the draft request in `content` and then
  inserts the attachments into it, as the source does.
- `response.dfy` — the reply check.

Inputs the source fetches are parameters: the dictionary entry is passed to
the `Card` constructor, the thumbnail URL and the manually typed
pronunciation (`None` when the user answers anything other than "y") are
passed to `Construct`, and the decoded reply is passed to `CheckResponse`.

The source writes the emphasis for an occurrence as `<b><i>` + word +
`</b></i>`, closing the tags in the swapped order, while the fallback writes
`</i></b>`. The model keeps both exactly as written (`Emphasis.HitMarkup`,
`Derive.FallbackMarkup`).

## Model

| member | source | states |
|---|---|---|
| `Emphasis.Segments` | ankiadd.py:77-78 | the cut of the example sentence covers it exactly, every hit is a case-insensitive occurrence of the word and no kept character starts one (left-to-right, non-overlapping matching) |
| `Emphasis.SegmentsUnique` | ankiadd.py:77-78 | any such greedy cut of the sentence is the one the scan produces: the matching is fully determined |
| `Emphasis.Emphasize` | ankiadd.py:77-78 | the substitution of the word in the example sentence; a sentence without an occurrence of the word comes back unchanged |
| `Emphasis.EmphasizeSpec` | ankiadd.py:77-78 | the emphasised sentence replaces exactly the occurrences of a greedy cut by `<b><i>word</b></i>` and copies every other character |
| `Emphasis.NoOccurrenceUnchanged` | ankiadd.py:77-78 | a sentence without an occurrence of the word is returned unchanged |
| `Emphasis.LeadingOccurrence` | ankiadd.py:77-78 | a sentence that begins with the word in any casing begins with the markup, followed by the emphasised rest |
| `Emphasis.EmphasizeExample` | ankiadd.py:77-78 | the sentence "Cat" with the word "cat" becomes "<b><i>cat</b></i>": found in any casing, written in the word's own casing |
| `Derive.Filter` | ankiadd.py:62-68 | the filtered list holds only elements satisfying the condition, holds every such element, and is no longer than the input |
| `Derive.FilterAppend` | ankiadd.py:62-68 | filtering distributes over concatenation, so the original order is kept |
| `Derive.FirstIndex` | ankiadd.py:71-75 | the "first element of a filtered list" idiom: the index found satisfies the condition and no earlier one does; none is found exactly when no element satisfies it (the IndexError case) |
| `Derive.KeptMeanings` | ankiadd.py:62-68 | every kept meaning group has a non-empty part of speech and a non-empty definition list |
| `Derive.KeptMeaningsOrder` | ankiadd.py:62-68 | a group is kept exactly when it is usable, and kept groups stay in their original order relative to the rest of the list |
| `Derive.Example` | ankiadd.py:70-80 | when the k-th kept group is the first whose first definition has a non-empty example, the front's example is that example with the word emphasised; when no kept group has one, it is `<b><i>word</i></b>` |
| `Derive.Labels` | ankiadd.py:82-88 | one label per kept group, the i-th being "(" + its part of speech + ")" |
| `Derive.Join` | ankiadd.py:82 | `" ".join`: no parts give the empty string, one part gives that part, and otherwise the result starts with the first part |
| `Derive.JoinAppend` | ankiadd.py:82 | joining a non-empty list with one more part gives the previous join, the separator and that part: with `Join` this fixes the result for every list |
| `Derive.WordType` | ankiadd.py:82-88 | the label is empty exactly when no group is kept, and otherwise starts with the first kept group's "(pos)" |
| `Derive.WordTypeAppend` | ankiadd.py:82-88 | one more kept group adds its "(pos)", after a single space unless it is the first; this determines the whole label for any parts of speech, spaces included |
| `Derive.SplitJoin` | ankiadd.py:82-88 | for a non-empty list of parts none of which contains a space, joining with a single space and splitting on spaces gives the parts back |
| `Derive.WordTypeFields` | ankiadd.py:82-88 | when at least one group is kept and no kept part of speech contains a space, the word-type label splits into exactly the parenthesised parts of speech of the kept groups, in encounter order |
| `Derive.LabelExample` | ankiadd.py:82-88 | a noun group then a verb group give "(noun) (verb)" |
| `Derive.Candidates` | ankiadd.py:90-95 | the candidate definitions are non-empty, and there are none exactly when no kept group has a non-empty first definition |
| `Derive.CandidatesAre` | ankiadd.py:90-95 | a string is a candidate exactly when it is the non-empty first definition of some kept group |
| `Derive.CandidatesAppend` | ankiadd.py:90-95 | candidates are collected in group order (distributes over concatenation) |
| `Derive.ShortestIndex` | ankiadd.py:90-97 | the stable minimum by length: no element is shorter, and every earlier element is strictly longer |
| `Derive.ShortestIndexUnique` | ankiadd.py:90-97 | minimality with earliest-wins tie-breaking leaves exactly one index |
| `Derive.ChooseDefinition` | ankiadd.py:90-97 | choosing fails exactly when there is no candidate (`min` of an empty list raises) |
| `Derive.ChosenIsShortest` | ankiadd.py:90-97 | the chosen definition is a candidate, no candidate is shorter, all candidates before it are strictly longer, and it is the non-empty first definition of a kept group |
| `Derive.ShortestExample` | ankiadd.py:90-97 | first definitions of 12, 5 and 20 characters give the 5-character one |
| `Derive.PickPhonetic` | ankiadd.py:99-113 | the first phonetic entry with both a non-empty text and audio supplies both, whatever the manual input; with no such entry, the manual input is used when given and both are empty otherwise |
| `Derive.PickImage` | ankiadd.py:47-57 | the picture URL is empty exactly when no image `src` is a non-empty string containing "gstatic", and otherwise contains "gstatic" |
| `Derive.ImageFromFirst` | ankiadd.py:51-55 | the first such `src` in document order is the one picked |
| `Cards.ActionFor` | ankiadd.py:29 | the action is "addNote" exactly in headless mode and "guiAddCards" exactly otherwise |
| `Cards.Assemble` | ankiadd.py:59-150 | the request `contruct` builds, or the error it raises: assembly fails exactly when no kept meaning group has a non-empty first definition (`min` of an empty list) |
| `Cards.Draft` | ankiadd.py:117-132 | the request first stored: the given action, deck, note type, Front and Back, version 6, tag "AutoAdded", closeAfterAdding, and no picture or audio yet |
| `Cards.InsertPicture` | ankiadd.py:134-141 | the note gets the picture entry `[url, word.png, ["Back"]]`, and nothing else in the request changes |
| `Cards.InsertAudio` | ankiadd.py:143-150 | the note gets the audio entry `[url, word.mp3, ["Front"]]`, and nothing else in the request changes |
| `Cards.EnvelopeFields` | ankiadd.py:117-132 | the request carries the card's action, version 6, deck, note type, tag "AutoAdded" and closeAfterAdding; Front is example + " " + phonetic + three newlines and Back is label + " " + definition + three newlines |
| `Cards.EnvelopeAttachments` | ankiadd.py:134-150 | a picture entry `[url, word.png, ["Back"]]` exists exactly when the image URL is non-empty, an audio entry `[url, word.mp3, ["Front"]]` exactly when the chosen audio URL is non-empty |
| `Cards.Card.constructor` | ankiadd.py:23-31 | the card stores deck, word, note type and entry, its action is the mode's action, and it has no content yet |
| `Cards.Card.Construct` | ankiadd.py:59-150 | the result is the assembled request or the error, `content` holds the request afterwards on success and is untouched on failure, and no other field changes |
| `Cards.AudioFromFirstPhonetic` | ankiadd.py:143-150 | the audio attachment and the pronunciation on the front both come from the first phonetic entry with text and audio |
| `Cards.NoPhoneticNoAudio` | ankiadd.py:108-113 | with no usable phonetic and no manual input there is no audio attachment and the front's pronunciation is empty |
| `Cards.EndToEndTexts` | ankiadd.py:59-132 | the word "test" with one noun definition "a trial", no example, no phonetic and no manual input in GUI mode gives a `guiAddCards` request with Front "<b><i>test</i></b> " and Back "(noun) a trial", each followed by three newlines |
| `Cards.EndToEndAttachments` | ankiadd.py:134-150 | the same case with a thumbnail found has one picture for the back named test.png and no audio |
| `Response.CheckResponse` | ankiadd.py:163-171 | the reply is accepted exactly when its keys are `error` and `result` and `error` is null, and then `result` is returned; a wrong size fails first, then a missing `error`, then a missing `result`; a non-null `error` fails carrying that value |
| `Response.ExampleReplies` | ankiadd.py:163-171 | `{result: 123, error: null}` gives 123, `{result: null, error: "deck not found"}` fails with "deck not found", a reply without `error` fails |

## Left out

- The dictionary lookup over HTTP (ankiadd.py:34-40): its first array element is the `Entry` passed to the `Card` constructor. A failed lookup, which raises in the source, is not modelled.
- The image search (ankiadd.py:43-57): the HTTP fetch and HTML parsing are not modelled; only the choice among the `src` attributes is (`Derive.PickImage`), and `Construct` takes the resulting URL as a parameter.
- The JSON encoding of the request and the POST to the local service (ankiadd.py:152-161): the decoded reply is the parameter of `Response.CheckResponse`, which stands alone rather than as a method of `Card`.
- Argument parsing, logging, the per-word loop, the interactive prompts and `exit()` (ankiadd.py:5-19, 174-207). The phonetic prompt (ankiadd.py:109-113) becomes the `manual` parameter.
- Regular-expression semantics: the word is compiled as a regular expression in the source; the model treats it as a literal and therefore requires that it contain no regular-expression metacharacter (`Emphasis.LiteralWord`). Words that would raise a regex error or match as a pattern are outside the model.
- Case folding is ASCII only; Python's Unicode case-insensitive matching (for example the Kelvin sign matching "k") is not modelled.
- Cards.Card.Construct: requires a literal, non-empty word even when the entry has no example and the source would never compile the pattern. The model assumes the dictionary lookup gives no usable entry for an empty word (`-w ""`); whether it does depends on the remote service, so that case is outside the model.
- A dictionary entry without a `meanings` or `phonetics` list (the source raises a TypeError in `filter`) is not modelled: the typed record always has both lists, and fields of unexpected JSON types are not representable.
- Response.CheckResponse: a reply that is not a JSON object is not modelled, JSON numbers are integers, and the exception's message is represented by the `error` value itself rather than its string form.
