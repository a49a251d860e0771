# RunAnything editor core, modelled in Dafny

RunAnything is a browser editor. The user picks a language runtime from the
catalog of a Piston execution service, writes code, posts it to the service,
and reads the output in a console drawer. The user can also open a local file
into the editor or save the editor buffer to a file. This project models the
parts of the page that hold logic, and proves properties of that model:

- **Runtime keys** (`runtime_keys.dfy`, module `RuntimeKeys`). The
  `LanguageSelect` component turns the catalog into picker entries. A language
  with one runtime is keyed by its bare name. A language with several runtimes
  is keyed by `language-version`. The `forEach` loop is the method
  `DeriveEntries`. The `filter(...).length` count is `CountLanguage`. The
  component's list state is the class `LanguageSelect`: its mount effect has no
  dependencies, so the list is derived once.
- **The session** (`app.dfy`, module `App`). The state hooks of `App` are the
  fields of the class `Session`. Its methods are the transitions:
  `changeLanguage`, `run` with its success continuation, the console hotkey,
  `downloadFile`, the file reader's `onload`, the hotkey table, and the
  continuation of the catalog fetch. HTTP responses, the fetched catalog and
  the file reader's data URL are method inputs. The posted request and the
  saved file are method outputs.
- **Key resolution** (`App.LanguageOf`, `App.VersionOf`, `App.FindRuntime`).
  These model `key.split("-")[0]`, `key.split("-")[1]` and
  `runtimes.find(...)`; `App.ResolveVersion` combines them into the version
  `changeLanguage` settles on. `Text.Split` is JavaScript's `split` with a
  one-character separator.
- **File import** (`data_url.dfy`, `base64.dfy`). `DataUrl.Match` models the
  regular expression `^data:(.*);base64,(.*)$` applied to a `data:` URL
  (RFC 2397, section 3). There, `.` matches anything except the four
  JavaScript line terminators, and the greedy first group leaves the second
  group the text after the last `;base64,`. `Base64.Atob` is the browser's
  `atob` (WHATWG HTML Living Standard), which runs the "forgiving-base64
  decode" of the WHATWG Infra Standard and throws where that fails.
  `Base64.Encode` is the padded encoding of RFC 4648, section 4. It is the
  decoder's partner in the round-trip lemma.

The central result is `App.SelectionRoundTrip`. Take a catalog where no
language or version contains `-` and no language is empty. Choosing any
derived entry then gives `changeLanguage` that entry's own language and
version. `App.RequestForEntry` carries this on to the body that `run` posts.

`Session.Valid()` says the selected key is never empty. The constructor
establishes it, and every transition that may change the session keeps it
(`ensures old(Valid()) ==> Valid()`). `Session.DownloadFile` has no
`modifies` clause, so it cannot change any field. The only writes to `language` store a truthy key, and clearing the
picker does not touch `language`. So the "Please select a language" branch of
`run` cannot be reached from the initial state: `Session.Run` and
`Session.OnHotkey` ensure that from a valid state a request is always posted. The model still
states that branch: `Session.Run` with an empty key sends nothing and changes nothing.

## Behaviour of the code worth knowing

The model keeps each of these as the code has it, and a lemma exhibits each
one.

- `split("-")[1]` takes the text between the first hyphen and the next one,
  so a version holding a hyphen is truncated: `3.11-rc1` resolves to `3.11`
  (`App.HyphenatedVersionIsTruncated`). A single-runtime language whose name
  holds a hyphen is split as if its key were composite: `objective-c` is sent
  as language `objective` with version `c` (`App.HyphenatedLanguageIsMisread`).
- A stale bare key, one that matches no runtime of the current catalog, throws
  instead of falling back: `find` gives `undefined` and `.version` of it
  throws (`App.UnknownBareKeyThrows`, the `NoSuchRuntime` outcome of
  `Session.ChangeLanguage`). A key derived from the current catalog never
  hits this case (`App.BareKeyResolves`).
- Clearing the picker sets `languageVersion` to `""` and leaves `language`
  as it was (`Session.ChangeLanguage`).
- No failure handler is attached to the post, so a failed post leaves
  `loading` set (`Session.OnRunFailure`).
- `atob` yields one character per byte (`Base64.Latin1`), so a file comes
  back as its bytes read one character each (`App.LoadedFileContents`): only
  ASCII text survives import and then export unchanged.

## Model

| member | source | states |
|---|---|---|
| `Text.Split` | src/App.js:95-97 | `split(sep)` gives at least one segment, no segment contains `sep`, joining the segments gives back the input, and there are two or more segments exactly when `sep` occurs |
| `Text.SplitJoin` | src/App.js:95-97 | splitting the join of hyphen-free segments gives back those segments |
| `Text.SplitPair` | src/App.js:96 | `(a + "-" + b).split("-")` is `[a, b]` when neither part contains a hyphen |
| `Text.SplitAfterSegment` | src/App.js:96 | a hyphen-free leading segment is split off in front of the split of the rest |
| `RuntimeKeys.CountLanguage` | src/components/LanguageSelect.js:13 | the count of runtimes with a given language is at most the catalog size, and is zero exactly when no runtime has that language |
| `RuntimeKeys.EntryFor` | src/components/LanguageSelect.js:13-25 | the entry pushed for one runtime is labelled with its language and described by its version, and its value is the bare language or the composite key, which starts with the language |
| `RuntimeKeys.DerivedEntries` | src/components/LanguageSelect.js:11-28 | the list stored after the loop has one entry per runtime, each labelled with that runtime's language and described by its version |
| `RuntimeKeys.DeriveEntries` | src/components/LanguageSelect.js:11-26 | one entry per runtime, in catalog order; each label is the runtime's language and each description its version; the value is `language-version` when the language occurs more than once, else the bare language |
| `RuntimeKeys.EntryShape` | src/components/LanguageSelect.js:13-25 | the same per-entry shape for the derived list, with every runtime's language counted at least once |
| `RuntimeKeys.CountOfPair` | src/components/LanguageSelect.js:13 | two different positions with the same language make its count at least two |
| `RuntimeKeys.CountOneIsUnique` | src/components/LanguageSelect.js:13 | a language counted once occurs at exactly one position |
| `RuntimeKeys.DistinctLanguagesCountOnce` | src/components/LanguageSelect.js:13 | when languages are pairwise distinct, each is counted exactly once |
| `RuntimeKeys.NoSuffixWhenLanguagesDistinct` | src/components/LanguageSelect.js:21-25 | when languages are pairwise distinct, every entry value is the bare language |
| `RuntimeKeys.CompositeKeyParts` | src/components/LanguageSelect.js:16 | for a hyphen-free language, the composite key contains a hyphen, its first split segment is the language, and the version follows the first hyphen |
| `RuntimeKeys.KeysUnique` | src/components/LanguageSelect.js:13-25 | when (language, version) pairs are unique and no language contains a hyphen, entry values are pairwise distinct |
| `RuntimeKeys.LanguageSelect.constructor` | src/components/LanguageSelect.js:7-30 | after the first mount the list state is the list derived from the runtimes passed at mount |
| `RuntimeKeys.LanguageSelect.Rerender` | src/components/LanguageSelect.js:8-30 | a later render with any catalog leaves the list unchanged, because the effect has no dependencies |
| `Base64.StripWhitespace` | src/App.js:181 | the result holds no ASCII whitespace and is the input itself when the input holds none |
| `Base64.RemovePadding` | src/App.js:181 | the padding step removes at most two trailing `=`, only when the length is a multiple of four; it then removes both of a final `==` and otherwise a single final `=` |
| `Base64.DecodeValues` | src/App.js:181 | groups of four 6-bit values give three bytes and a final group of two or three gives one or two, so the output has `n * 3 / 4` bytes |
| `Base64.ForgivingDecode` | src/App.js:181 | a successful decode gives three bytes for every four characters left after whitespace and padding are removed, and one or two for a final group of two or three |
| `Base64.Atob` | src/App.js:181 | `atob` succeeds exactly when the forgiving decode does, and then yields a string of byte-valued characters, three for every four characters of data |
| `Base64.AtobFailsExactly` | src/App.js:181 | `atob` throws exactly when, after whitespace and padding are removed, the length leaves remainder 1 modulo 4 or a character outside the alphabet is left |
| `Base64.Latin1` | src/App.js:181 | `atob`'s output has one character per byte, and each character's code is that byte |
| `Base64.EncodeValues` | src/App.js:181 | the RFC 4648 body of `n` bytes is `4 * (n / 3)` values plus 2 or 3 for a final partial group |
| `Base64.DecodeEncodeValues` | src/App.js:181 | decoding the encoded 6-bit groups gives back the bytes |
| `Base64.RemovePaddingOfEncode` | src/App.js:181 | the padding step of the decoder strips exactly the `=` padding of an RFC 4648 encoding |
| `Base64.AtobEncode` | src/App.js:181 | `atob` of any RFC 4648 encoding succeeds and gives back the encoded bytes, one character each |
| `Base64.AtobIgnoresWhitespace` | src/App.js:181 | inserting ASCII whitespace anywhere does not change `atob`'s result |
| `Base64.AtobRejectsForeignChar` | src/App.js:181 | for a payload of any length without whitespace, a character outside the alphabet makes `atob` throw, unless it is an `=` followed only by `=` |
| `Base64.AtobRejectsInnerPadding` | src/App.js:181 | `atob("QQ=A")` throws: an `=` inside a padded-length payload is not padding |
| `DataUrl.LastMarker` | src/App.js:175 | finds the last `;base64,` at or before a bound, or reports that there is none |
| `DataUrl.Match` | src/App.js:175-179 | a match splits the URL into `data:`, group 1, `;base64,` and group 2, with no line terminator in either group and no further `;base64,` in group 2 |
| `DataUrl.Payload` | src/App.js:175-179 | `match[2]` exists exactly when the URL matches, and is then the whole text after the last `;base64,`: a suffix directly preceded by the marker, holding no line terminator and no further marker |
| `DataUrl.MatchComplete` | src/App.js:175-176 | every `data:` URL of that form without line terminators matches, and group 1 is as long as possible |
| `DataUrl.MatchExact` | src/App.js:175-179 | when the text after the marker holds no `;base64,`, the groups are exactly the two parts |
| `DataUrl.MarkersApart` | src/App.js:175 | two occurrences of `;base64,` never overlap |
| `App.LanguageOf` | src/App.js:134 | `key.split("-")[0]` is the longest hyphen-free prefix of the key, and is the whole key when the key has no hyphen |
| `App.VersionOf` | src/App.js:96-97 | `key.split("-")[1]` is the hyphen-free text after the first hyphen, ending at the next hyphen or at the end |
| `App.FindRuntime` | src/App.js:105 | `find` stops at the first runtime with the language, or reports that no runtime has it |
| `App.Truthy` | src/App.js:94-116 | the picker value is truthy exactly when it is a non-empty string, so `null` and `""` take the clearing branch |
| `App.ResolveVersion` | src/App.js:94-107 | a hyphenated key resolves to `split("-")[1]`, the text after its first hyphen up to the next hyphen or the end; a bare key resolves if and only if some runtime has it as language, and then to the version of the first such runtime, where `find` stops |
| `App.BuildRequest` | src/App.js:133-148 | the posted body names the text of the key before its first hyphen (`split("-")[0]`) as language and the stored version, holds the buffer as its one `run.java` file, has empty stdin and args `1 2 3`, timeouts 10000 and 3000 ms, and memory limits -1 |
| `App.Session.constructor` | src/App.js:66-73 | initial state: key `javascript-16.3.0`, version `16.3.0`, empty buffer, console closed, no output, not loading, empty catalog |
| `App.Session.ReceiveRuntimes` | src/App.js:85-90 | the fetched catalog replaces `runtimes` and nothing else changes |
| `App.Session.ChangeLanguage` | src/App.js:91-120 | a falsy key only clears `languageVersion`; a hyphenated key sets `language` and `split("-")[1]`; a bare key sets `language` and the version of the first matching runtime, or throws with no change when there is none; the notified pair is returned |
| `App.Session.Run` | src/App.js:122-148 | an empty key sends nothing and changes nothing; otherwise only `loading` is set and the request is the body above; from any valid state a request is always sent, so the "Please select a language" branch is unreachable |
| `App.Session.OnRunSuccess` | src/App.js:149-154 | a response with a `run` part sets the output, opens the console and clears `loading`, and nothing else; a response without one throws and changes nothing |
| `App.Session.OnRunFailure` | src/App.js:133-155 | with no failure handler a failed post changes nothing, so `loading` stays set |
| `App.Session.ToggleConsole` | src/App.js:81 | the hotkey flips `consoleOpen` and nothing else |
| `App.Session.DownloadFile` | src/App.js:159-167 | the buffer is handed to `download` as `file.txt` of type `text/plain`, and no field changes |
| `App.Session.OnFileLoad` | src/App.js:174-187 | a URL that does not match, or a payload `atob` rejects, throws and leaves the buffer unchanged; otherwise the buffer is replaced wholesale by the decoded group 2, and nothing else changes |
| `App.Session.OnHotkey` | src/App.js:79-83 | `ctrl+R` runs, `ctrl+shift+c` toggles the console, and `ctrl+s` saves, each with the state change and effect of its handler; from a valid state `ctrl+R` always posts |
| `App.BareKeyResolves` | src/App.js:104-107 | a derived key without a hyphen resolves through `find` to its own runtime's version and language |
| `App.SelectionRoundTrip` | src/App.js:91-113 | with hyphen-free languages and versions and non-empty languages, every derived key is truthy and resolves to its runtime's language and version |
| `App.RequestForEntry` | src/App.js:132-148 | after choosing a derived entry, the posted request names that runtime's language and version and carries the buffer as its only file |
| `App.ExampleKeys` | src/components/LanguageSelect.js:13-25 | for two Python builds and one JavaScript build, the keys are `python-3.10`, `python-2.7` and `javascript` |
| `App.ExampleResolution` | src/App.js:95-107 | in that catalog, `python-3.10` resolves to Python 3.10 and `javascript` to JavaScript 16.3.0 |
| `App.VersionStopsAtHyphen` | src/App.js:96 | `split("-")[1]` stops at the second hyphen |
| `App.HyphenatedVersionIsTruncated` | src/App.js:96-97 | the entry for Python `3.11-rc1` resolves to version `3.11` |
| `App.HyphenatedLanguageIsMisread` | src/App.js:95-98 | a single runtime `objective-c` gets version `c`, and `objective` is sent as its language |
| `App.UnknownBareKeyThrows` | src/App.js:105 | every bare key that matches no runtime of the catalog fails to resolve, so `changeLanguage` throws |
| `App.StaleKeyExample` | src/App.js:105 | the key `ruby` against a catalog holding only Python fails to resolve |
| `App.LoadedFileContents` | src/App.js:175-181 | for a file's data URL of any media type without line terminators, group 2 is the base64 of the file, and it decodes to the file's bytes, one character each |

## Left out

- Presentation: all JSX, the Mantine and Monaco components, styles, the About
  modal, and the loading overlay. Typing into the editor (`onChange` of the
  editor) and opening or closing the console drawer with the mouse are
  UI wiring.
- `src/index.js`, which only starts React.
- `download()`: the Blob, the object URL, the temporary anchor, the
  `setTimeout` clean-up and the IE branch are host I/O. The Blob's UTF-8
  encoding of the saved text is part of this, so the model proves nothing
  about the bytes of the saved file.
- The HTTP calls and `FileReader.readAsDataURL`: the model takes the catalog,
  the execution response and the data URL as inputs. The server picker,
  which has one fixed option, and the request URL are left out with them.
- Asynchrony: overlapping runs, promise ordering and stale closures in the
  hotkey handlers. Each continuation is a method called on the current state.
- Notifications and `console.log`. The one exception is the language and
  version that `changeLanguage` announces, which the method returns.
- Catalog entries and responses hold only the fields the page reads:
  `language` and `version`, and `run.output`.
- App.Session.OnRunSuccess: treats `output` as a string. A response whose `run`
  part lacks `output` would store `undefined`, and that case is not modelled.
