/**
 * The session state of the editor page (src/App.js) and the transitions that
 * update it: language selection, the run request and its continuation, the
 * console hotkey, saving, and loading a file into the editor buffer.
 */
module App {
  import opened Wrappers
  import opened Text
  import opened RuntimeKeys
  import Base64
  import DataUrl

  datatype SourceFile = SourceFile(name: string, content: string)

  /** The body of `POST {server}/piston/execute`. */
  datatype ExecuteRequest = ExecuteRequest(
    language: string,
    version: string,
    files: seq<SourceFile>,
    stdin: string,
    args: seq<string>,
    compileTimeout: int,
    runTimeout: int,
    compileMemoryLimit: int,
    runMemoryLimit: int)

  /** The part of the service's answer the page reads: `data.run.output`. */
  datatype RunStage = RunStage(output: string)
  datatype ExecuteResponse = ExecuteResponse(run: Option<RunStage>)

  /** What `download(data, filename, type)` is handed. */
  datatype Download = Download(data: string, filename: string, mimeType: string)

  /** A snapshot of every session field. */
  datatype SessionState = SessionState(
    language: string,
    languageVersion: string,
    editorValue: string,
    consoleOpen: bool,
    consoleOutput: Option<string>,
    loading: bool,
    runtimes: seq<Runtime>)

  /** How `changeLanguage` ends: the notified language and version, a cleared selection, or a throw. */
  datatype ChangeOutcome = Changed(language: string, version: string) | Cleared | NoSuchRuntime

  /** How the file reader's `onload` ends; the two failures are throws. */
  datatype LoadOutcome = Loaded | ParseFailed | DecodeFailed

  /** The three registered hotkeys. */
  datatype Hotkey = CtrlR | CtrlShiftC | CtrlS

  /** What a hotkey sets off besides the change of state. */
  datatype Effect = Posted(request: ExecuteRequest) | NotRunnable | ConsoleToggled | Saved(file: Download)

  const InitialLanguage: string := "javascript-16.3.0"
  const InitialVersion: string := "16.3.0"
  const SourceName: string := "run.java"
  const RunArgs: seq<string> := ["1", "2", "3"]
  const CompileTimeoutMs: int := 10000
  const RunTimeoutMs: int := 3000
  const Unlimited: int := -1
  const SaveName: string := "file.txt"
  const SaveType: string := "text/plain"

  /** JavaScript truthiness of the picker's value: neither `null` nor `""`. */
  predicate Truthy(key: Option<string>)
  {
    key.Some? && key.value != ""
  }

  /** `key.split("-")[0]`: the text before the first hyphen. */
  function LanguageOf(key: string): (lang: string)
    ensures Hyphen !in lang
    ensures lang <= key
    ensures |lang| < |key| ==> key[|lang|] == Hyphen
    ensures Hyphen !in key ==> lang == key
  {
    var parts := Split(key, Hyphen);
    if |parts| >= 2 then
      assert key == parts[0] + [Hyphen] + Join(parts[1..], Hyphen);
      parts[0]
    else
      parts[0]
  }

  /** `key.split("-")[1]`: the text between the first hyphen and the next one, or the end. */
  function VersionOf(key: string): (v: string)
    requires Hyphen in key
    ensures Hyphen !in v
    ensures LanguageOf(key) + [Hyphen] + v <= key
    ensures |LanguageOf(key)| + 1 + |v| < |key| ==> key[|LanguageOf(key)| + 1 + |v|] == Hyphen
  {
    var parts := Split(key, Hyphen);
    var tail := Join(parts[1..], Hyphen);
    assert key == parts[0] + [Hyphen] + tail;
    assert parts[1..][0] == parts[1];
    assert |parts| >= 3 ==> parts[1..][1..] == parts[2..];
    assert |parts| >= 3 ==> tail == parts[1] + [Hyphen] + Join(parts[2..], Hyphen);
    parts[1]
  }

  /** `runtimes.find(l => l.language === lang)`, as the position it stops at. */
  function FindRuntime(catalog: seq<Runtime>, lang: string): (r: Option<nat>)
    ensures r.Some? ==> r.value < |catalog| && catalog[r.value].language == lang
    ensures r.Some? ==> forall j :: 0 <= j < r.value ==> catalog[j].language != lang
    ensures r.None? ==> forall j :: 0 <= j < |catalog| ==> catalog[j].language != lang
    decreases |catalog|
  {
    if |catalog| == 0 then None
    else if catalog[0].language == lang then Some(0)
    else match FindRuntime(catalog[1..], lang)
      case None => None
      case Some(i) => Some(i + 1)
  }

  /** The version `changeLanguage` settles on for a truthy key; None where it throws. */
  function ResolveVersion(catalog: seq<Runtime>, key: string): (r: Option<string>)
    ensures Hyphen in key ==> r.Some? && Hyphen !in r.value && LanguageOf(key) + [Hyphen] + r.value <= key
    ensures Hyphen in key && r.Some? && |LanguageOf(key)| + 1 + |r.value| < |key| ==>
      key[|LanguageOf(key)| + 1 + |r.value|] == Hyphen
    ensures Hyphen !in key ==> (r.None? <==> forall a :: 0 <= a < |catalog| ==> catalog[a].language != key)
    ensures Hyphen !in key && r.Some? ==>
      exists a :: 0 <= a < |catalog| && catalog[a] == Runtime(key, r.value) &&
        (forall b :: 0 <= b < a ==> catalog[b].language != key)
  {
    if Hyphen in key then Some(VersionOf(key))
    else match FindRuntime(catalog, key)
      case None => None
      case Some(i) => Some(catalog[i].version)
  }

  /** The request body `run` posts. */
  function BuildRequest(language: string, languageVersion: string, editorValue: string): (r: ExecuteRequest)
    ensures Hyphen !in r.language && r.language <= language && r.version == languageVersion
    ensures |r.language| < |language| ==> language[|r.language|] == Hyphen
    ensures r.files == [SourceFile(SourceName, editorValue)] && r.stdin == "" && r.args == RunArgs
    ensures r.compileTimeout == CompileTimeoutMs && r.runTimeout == RunTimeoutMs
    ensures r.compileMemoryLimit == Unlimited && r.runMemoryLimit == Unlimited
  {
    ExecuteRequest(LanguageOf(language), languageVersion, [SourceFile(SourceName, editorValue)],
                   "", RunArgs, CompileTimeoutMs, RunTimeoutMs, Unlimited, Unlimited)
  }

  class Session {
    var language: string
    var languageVersion: string
    var editorValue: string
    var consoleOpen: bool
    var consoleOutput: Option<string>
    var loading: bool
    var runtimes: seq<Runtime>

    function State(): SessionState
      reads this
    {
      SessionState(language, languageVersion, editorValue, consoleOpen, consoleOutput, loading, runtimes)
    }

    /** The selected key is never empty: the only writes to it store a truthy key. */
    predicate Valid()
      reads this
    {
      language != ""
    }

    /** The initial values of the page's state hooks. */
    constructor ()
      ensures State() == SessionState(InitialLanguage, InitialVersion, "", false, None, false, [])
      ensures Valid()
    {
      language := InitialLanguage;
      editorValue := "";
      consoleOpen := false;
      consoleOutput := None;
      languageVersion := InitialVersion;
      runtimes := [];
      loading := false;
    }

    /** The continuation of the one-time catalog fetch. */
    method ReceiveRuntimes(data: seq<Runtime>)
      modifies this
      ensures State() == old(State()).(runtimes := data)
      ensures old(Valid()) ==> Valid()
    {
      runtimes := data;
    }

    /** `changeLanguage(key)`, the picker's change handler. */
    method ChangeLanguage(key: Option<string>) returns (outcome: ChangeOutcome)
      modifies this
      ensures !Truthy(key) ==> outcome == Cleared && State() == old(State()).(languageVersion := "")
      ensures Truthy(key) && ResolveVersion(old(runtimes), key.value).None? ==>
        outcome == NoSuchRuntime && State() == old(State())
      ensures Truthy(key) && ResolveVersion(old(runtimes), key.value).Some? ==>
        var v := ResolveVersion(old(runtimes), key.value).value;
        outcome == Changed(LanguageOf(key.value), v) &&
        State() == old(State()).(language := key.value, languageVersion := v)
      ensures old(Valid()) ==> Valid()
    {
      outcome := Cleared;
      var version := "";
      if Truthy(key) {
        var k := key.value;
        if Hyphen in k {
          var parts := Split(k, Hyphen);
          version := parts[1];
          languageVersion := parts[1];
          language := k;
          outcome := Changed(parts[0], version);
        } else {
          var found := FindRuntime(runtimes, k);
          if found.None? {
            // `find` gave `undefined`; reading `.version` of it throws.
            return NoSuchRuntime;
          }
          version := runtimes[found.value].version;
          languageVersion := version;
          language := k;
          outcome := Changed(k, version);
        }
      }
      if !Truthy(key) {
        languageVersion := "";
      }
    }

    /** `run()`: with a key selected, sets `loading` and yields the request it posts. */
    method Run() returns (request: Option<ExecuteRequest>)
      modifies this
      ensures old(language) == "" ==> request.None? && State() == old(State())
      ensures old(language) != "" ==>
        request == Some(BuildRequest(old(language), old(languageVersion), old(editorValue))) &&
        State() == old(State()).(loading := true)
      ensures old(Valid()) ==> request.Some?
      ensures old(Valid()) ==> Valid()
    {
      if language == "" {
        return None;
      }
      loading := true;
      request := Some(BuildRequest(language, languageVersion, editorValue));
    }

    /** The `.then` continuation of the post; a response without `run` throws before any update. */
    method OnRunSuccess(response: ExecuteResponse) returns (handled: bool)
      modifies this
      ensures response.run.None? ==> !handled && State() == old(State())
      ensures response.run.Some? ==>
        handled &&
        State() == old(State()).(consoleOutput := Some(response.run.value.output), consoleOpen := true, loading := false)
      ensures old(Valid()) ==> Valid()
    {
      if response.run.None? {
        return false;
      }
      consoleOutput := Some(response.run.value.output);
      consoleOpen := true;
      loading := false;
      handled := true;
    }

    /** A failed post: no handler is attached, so `loading` stays set. */
    method OnRunFailure()
      ensures State() == old(State())
      ensures old(Valid()) ==> Valid()
    {
    }

    /** The `ctrl+shift+c` handler. */
    method ToggleConsole()
      modifies this
      ensures State() == old(State()).(consoleOpen := !old(consoleOpen))
      ensures old(Valid()) ==> Valid()
    {
      consoleOpen := !consoleOpen;
    }

    /** `downloadFile()`: hands the buffer to `download` and changes no field. */
    method DownloadFile() returns (file: Download)
      ensures file.data == editorValue
      ensures file.filename == SaveName && file.mimeType == SaveType
    {
      file := Download(editorValue, SaveName, SaveType);
    }

    /** The file reader's `onload`: the whole buffer is replaced by the decoded payload. */
    method OnFileLoad(result: string) returns (outcome: LoadOutcome)
      modifies this
      ensures DataUrl.Payload(result).None? ==> outcome == ParseFailed && State() == old(State())
      ensures DataUrl.Payload(result).Some? && Base64.Atob(DataUrl.Payload(result).value).None? ==>
        outcome == DecodeFailed && State() == old(State())
      ensures DataUrl.Payload(result).Some? && Base64.Atob(DataUrl.Payload(result).value).Some? ==>
        outcome == Loaded &&
        State() == old(State()).(editorValue := Base64.Atob(DataUrl.Payload(result).value).value)
      ensures old(Valid()) ==> Valid()
    {
      var match_ := DataUrl.Match(result);
      if match_.None? {
        return ParseFailed;
      }
      var content := match_.value.1;
      var text := Base64.Atob(content);
      if text.None? {
        // `atob` throws InvalidCharacterError before the buffer is set.
        return DecodeFailed;
      }
      editorValue := text.value;
      outcome := Loaded;
    }

    /** The hotkey table: `ctrl+R` runs, `ctrl+shift+c` toggles the console, `ctrl+s` saves. */
    method OnHotkey(key: Hotkey) returns (effect: Effect)
      modifies this
      ensures key == CtrlR && old(language) == "" ==> effect == NotRunnable && State() == old(State())
      ensures key == CtrlR && old(language) != "" ==>
        effect == Posted(BuildRequest(old(language), old(languageVersion), old(editorValue))) &&
        State() == old(State()).(loading := true)
      ensures key == CtrlShiftC ==>
        effect == ConsoleToggled && State() == old(State()).(consoleOpen := !old(consoleOpen))
      ensures key == CtrlS ==>
        effect == Saved(Download(old(editorValue), SaveName, SaveType)) && State() == old(State())
      ensures key == CtrlR && old(Valid()) ==> effect.Posted?
      ensures old(Valid()) ==> Valid()
    {
      match key {
        case CtrlR =>
          var request := Run();
          effect := if request.Some? then Posted(request.value) else NotRunnable;
        case CtrlShiftC =>
          ToggleConsole();
          effect := ConsoleToggled;
        case CtrlS =>
          var file := DownloadFile();
          effect := Saved(file);
      }
    }
  }

  /** A derived key without a hyphen resolves through `find` to its own runtime. */
  lemma BareKeyResolves(catalog: seq<Runtime>, i: nat)
    requires i < |catalog|
    requires Hyphen !in DerivedEntries(catalog)[i].value
    ensures ResolveVersion(catalog, DerivedEntries(catalog)[i].value) == Some(catalog[i].version)
    ensures LanguageOf(DerivedEntries(catalog)[i].value) == catalog[i].language
  {
    EntryShape(catalog, i);
    var key := DerivedEntries(catalog)[i].value;
    var j := FindRuntime(catalog, key).value;
    CountOneIsUnique(catalog, i, j);
  }

  /**
   * The round trip between derivation and resolution: when no language or
   * version holds a hyphen and no language is empty, choosing entry `i` selects
   * runtime `i`'s language and version.
   */
  lemma SelectionRoundTrip(catalog: seq<Runtime>, i: nat)
    requires forall a :: 0 <= a < |catalog| ==> Hyphen !in catalog[a].language && Hyphen !in catalog[a].version
    requires forall a :: 0 <= a < |catalog| ==> catalog[a].language != ""
    requires i < |catalog|
    ensures Truthy(Some(DerivedEntries(catalog)[i].value))
    ensures ResolveVersion(catalog, DerivedEntries(catalog)[i].value) == Some(catalog[i].version)
    ensures LanguageOf(DerivedEntries(catalog)[i].value) == catalog[i].language
  {
    EntryShape(catalog, i);
    var rt := catalog[i];
    if CountLanguage(catalog, rt.language) == 1 {
      BareKeyResolves(catalog, i);
    } else {
      SplitPair(rt.language, Hyphen, rt.version);
      assert CompositeKey(rt)[|rt.language|] == Hyphen;
    }
  }

  /** Choosing entry `i` and running posts runtime `i` with the whole buffer as its one file. */
  lemma RequestForEntry(catalog: seq<Runtime>, i: nat, buffer: string)
    requires forall a :: 0 <= a < |catalog| ==> Hyphen !in catalog[a].language && Hyphen !in catalog[a].version
    requires forall a :: 0 <= a < |catalog| ==> catalog[a].language != ""
    requires i < |catalog|
    ensures var key := DerivedEntries(catalog)[i].value;
      var request := BuildRequest(key, ResolveVersion(catalog, key).value, buffer);
      request.language == catalog[i].language && request.version == catalog[i].version &&
      request.files == [SourceFile(SourceName, buffer)] && request.stdin == "" && request.args == RunArgs
  {
    SelectionRoundTrip(catalog, i);
  }

  /** Two builds of Python and one of JavaScript. */
  const ExampleRuntimes: seq<Runtime> := [Runtime("python", "3.10"), Runtime("python", "2.7"), Runtime("javascript", "16.3.0")]

  lemma ExampleCounts()
    ensures CountLanguage(ExampleRuntimes, "python") == 2
    ensures CountLanguage(ExampleRuntimes, "javascript") == 1
  {
    var c := ExampleRuntimes;
    assert c[1..] == [Runtime("python", "2.7"), Runtime("javascript", "16.3.0")];
    assert c[1..][1..] == [Runtime("javascript", "16.3.0")];
    assert c[1..][1..][1..] == [];
  }

  /** The Python builds get composite keys, JavaScript its bare name. */
  lemma ExampleKeys()
    ensures DerivedEntries(ExampleRuntimes)[0].value == "python-3.10"
    ensures DerivedEntries(ExampleRuntimes)[1].value == "python-2.7"
    ensures DerivedEntries(ExampleRuntimes)[2].value == "javascript"
  {
    ExampleCounts();
    EntryShape(ExampleRuntimes, 0);
    EntryShape(ExampleRuntimes, 1);
    EntryShape(ExampleRuntimes, 2);
  }

  /** Choosing `python-3.10` or `javascript` selects the runtime behind it. */
  lemma ExampleResolution()
    ensures ResolveVersion(ExampleRuntimes, "python-3.10") == Some("3.10")
    ensures LanguageOf("python-3.10") == "python"
    ensures ResolveVersion(ExampleRuntimes, "javascript") == Some("16.3.0")
    ensures LanguageOf("javascript") == "javascript"
  {
    ExampleKeys();
    SelectionRoundTrip(ExampleRuntimes, 0);
    SelectionRoundTrip(ExampleRuntimes, 2);
  }

  /** Two Python builds, one of them a release candidate whose version holds a hyphen. */
  const CandidateRuntimes: seq<Runtime> := [Runtime("python", "3.11-rc1"), Runtime("python", "3.10")]

  lemma CandidateKey()
    ensures DerivedEntries(CandidateRuntimes)[0].value == "python-3.11-rc1"
  {
    var c := CandidateRuntimes;
    assert CountLanguage(c, "python") == 2 by {
      assert c[1..] == [Runtime("python", "3.10")];
      assert c[1..][1..] == [];
    }
    EntryShape(c, 0);
  }

  /** `split("-")[1]` stops at the second hyphen. */
  lemma VersionStopsAtHyphen(lang: string, v: string, rest: string)
    requires Hyphen !in lang && Hyphen !in v
    ensures Hyphen in lang + [Hyphen] + (v + [Hyphen] + rest)
    ensures VersionOf(lang + [Hyphen] + (v + [Hyphen] + rest)) == v
  {
    var key := lang + [Hyphen] + (v + [Hyphen] + rest);
    assert key[|lang|] == Hyphen;
    SplitAfterSegment(lang, Hyphen, v + [Hyphen] + rest);
    SplitAfterSegment(v, Hyphen, rest);
  }

  /** `split("-")[1]` truncates a version that holds a hyphen. */
  lemma HyphenatedVersionIsTruncated()
    ensures ResolveVersion(CandidateRuntimes, DerivedEntries(CandidateRuntimes)[0].value) == Some("3.11")
    ensures CandidateRuntimes[0].version == "3.11-rc1"
  {
    CandidateKey();
    assert "python-3.11-rc1" == "python" + [Hyphen] + ("3.11" + [Hyphen] + "rc1");
    VersionStopsAtHyphen("python", "3.11", "rc1");
  }

  /** A single-build language whose name holds a hyphen is split as if it were a composite key. */
  lemma HyphenatedLanguageIsMisread()
    ensures var c := [Runtime("objective-c", "2.0")];
      DerivedEntries(c)[0].value == "objective-c" &&
      ResolveVersion(c, "objective-c") == Some("c") && LanguageOf("objective-c") == "objective"
  {
    var c := [Runtime("objective-c", "2.0")];
    assert CountLanguage(c, "objective-c") == 1;
    assert "objective-c" == "objective" + [Hyphen] + "c";
    SplitPair("objective", Hyphen, "c");
  }

  /** A bare key that matches no runtime makes `changeLanguage` throw. */
  lemma UnknownBareKeyThrows(catalog: seq<Runtime>, key: string)
    requires Hyphen !in key
    requires forall a :: 0 <= a < |catalog| ==> catalog[a].language != key
    ensures ResolveVersion(catalog, key) == None
  {
  }

  /** A stale key: `ruby` after the catalog came back with Python only. */
  lemma StaleKeyExample()
    ensures ResolveVersion([Runtime("python", "3.10")], "ruby") == None
  {
    assert Hyphen !in "ruby";
    UnknownBareKeyThrows([Runtime("python", "3.10")], "ruby");
  }

  /** Opening a file: the payload of its data URL decodes to its bytes, one character each. */
  lemma LoadedFileContents(mediaType: string, bytes: seq<Base64.Byte>)
    requires DataUrl.NoLineTerminator(mediaType)
    ensures var url := DataUrl.Scheme + mediaType + DataUrl.Marker + Base64.Encode(bytes);
      DataUrl.Payload(url) == Some(Base64.Encode(bytes)) &&
      Base64.Atob(Base64.Encode(bytes)) == Some(Base64.Latin1(bytes))
  {
    var e := Base64.Encode(bytes);
    Base64.EncodingChars(bytes);
    assert DataUrl.NoLineTerminator(e);
    forall j: nat ensures !DataUrl.MarkerAt(e, j) {
      if j < |e| { assert e[j] != ';'; }
    }
    DataUrl.MatchExact(mediaType, e);
    Base64.AtobEncode(bytes);
  }
}
