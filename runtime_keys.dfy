/**
 * The selectable entries that the `LanguageSelect` component derives from the
 * runtime catalog (src/components/LanguageSelect.js): a language offered by a
 * single runtime is keyed by its bare name, a language offered by several is
 * keyed by `language-version`.
 */
module RuntimeKeys {
  import opened Text

  /** One runtime of the execution service's catalog. */
  datatype Runtime = Runtime(language: string, version: string)

  /** One option of the language picker; `caption` is the option's `label` (a keyword in Dafny). */
  datatype Entry = Entry(caption: string, value: string, description: string)

  const Hyphen: char := '-'

  /** `runtimes.filter(l => l.language === lang).length`. */
  function CountLanguage(catalog: seq<Runtime>, lang: string): (n: nat)
    ensures n <= |catalog|
    ensures n == 0 <==> forall i :: 0 <= i < |catalog| ==> catalog[i].language != lang
    decreases |catalog|
  {
    if |catalog| == 0 then 0
    else (if catalog[0].language == lang then 1 else 0) + CountLanguage(catalog[1..], lang)
  }

  /** The composite key, `language + "-" + version`. */
  function CompositeKey(rt: Runtime): string
  {
    rt.language + [Hyphen] + rt.version
  }

  /** The entry that the loop body pushes for runtime `rt` of `catalog`. */
  function EntryFor(catalog: seq<Runtime>, rt: Runtime): (e: Entry)
    ensures e.caption == rt.language && e.description == rt.version
    ensures rt.language <= e.value
    ensures e.value == rt.language || e.value == CompositeKey(rt)
  {
    if CountLanguage(catalog, rt.language) > 1 then Entry(rt.language, CompositeKey(rt), rt.version)
    else Entry(rt.language, rt.language, rt.version)
  }

  /** The whole derived list, one entry per runtime, in catalog order. */
  function DerivedEntries(catalog: seq<Runtime>): (entries: seq<Entry>)
    ensures |entries| == |catalog|
    ensures forall i :: 0 <= i < |catalog| ==>
      entries[i].caption == catalog[i].language && entries[i].description == catalog[i].version
  {
    seq(|catalog|, i requires 0 <= i < |catalog| => EntryFor(catalog, catalog[i]))
  }

  /** The `forEach` loop of the component's mount effect, pushing into `rtl`. */
  method DeriveEntries(runtimes: seq<Runtime>) returns (rtl: seq<Entry>)
    ensures |rtl| == |runtimes|
    ensures forall i :: 0 <= i < |runtimes| ==>
      rtl[i].caption == runtimes[i].language && rtl[i].description == runtimes[i].version
    ensures forall i :: 0 <= i < |runtimes| ==>
      if CountLanguage(runtimes, runtimes[i].language) > 1 then rtl[i].value == CompositeKey(runtimes[i])
      else rtl[i].value == runtimes[i].language
    ensures rtl == DerivedEntries(runtimes)
  {
    rtl := [];
    for k := 0 to |runtimes|
      invariant |rtl| == k
      invariant forall i :: 0 <= i < k ==> rtl[i] == EntryFor(runtimes, runtimes[i])
    {
      var rt := runtimes[k];
      if CountLanguage(runtimes, rt.language) > 1 {
        rtl := rtl + [Entry(rt.language, rt.language + [Hyphen] + rt.version, rt.version)];
        continue;
      }
      rtl := rtl + [Entry(rt.language, rt.language, rt.version)];
    }
  }

  /** Every runtime's own language occurs at least once in the catalog. */
  lemma {:induction false} CountOfMember(catalog: seq<Runtime>, i: nat)
    requires i < |catalog|
    ensures CountLanguage(catalog, catalog[i].language) >= 1
  {
  }

  /** Two different positions with one language make that language count at least twice. */
  lemma {:induction false} CountOfPair(catalog: seq<Runtime>, i: nat, j: nat)
    requires i < j < |catalog|
    requires catalog[i].language == catalog[j].language
    ensures CountLanguage(catalog, catalog[i].language) >= 2
    decreases |catalog|
  {
    var lang := catalog[i].language;
    if i == 0 {
      assert catalog[1..][j - 1] == catalog[j];
      assert CountLanguage(catalog[1..], lang) >= 1;
    } else {
      assert catalog[1..][i - 1] == catalog[i] && catalog[1..][j - 1] == catalog[j];
      CountOfPair(catalog[1..], i - 1, j - 1);
    }
  }

  /** A language counted once belongs to exactly one position of the catalog. */
  lemma CountOneIsUnique(catalog: seq<Runtime>, i: nat, j: nat)
    requires i < |catalog| && j < |catalog|
    requires catalog[i].language == catalog[j].language
    requires CountLanguage(catalog, catalog[i].language) == 1
    ensures i == j
  {
    if i < j { CountOfPair(catalog, i, j); }
    if j < i { CountOfPair(catalog, j, i); }
  }

  /** When no two runtimes share a language, every language is counted exactly once. */
  lemma {:induction false} DistinctLanguagesCountOnce(catalog: seq<Runtime>, i: nat)
    requires forall a, b :: 0 <= a < b < |catalog| ==> catalog[a].language != catalog[b].language
    requires i < |catalog|
    ensures CountLanguage(catalog, catalog[i].language) == 1
    decreases |catalog|
  {
    var lang := catalog[i].language;
    if i == 0 {
      assert forall b :: 0 <= b < |catalog[1..]| ==> catalog[1..][b] == catalog[b + 1];
      assert CountLanguage(catalog[1..], lang) == 0;
    } else {
      assert catalog[1..][i - 1] == catalog[i];
      DistinctLanguagesCountOnce(catalog[1..], i - 1);
    }
  }

  /** The shape of entry `i`, whichever branch of the loop body produced it. */
  lemma EntryShape(catalog: seq<Runtime>, i: nat)
    requires i < |catalog|
    ensures |DerivedEntries(catalog)| == |catalog|
    ensures DerivedEntries(catalog)[i].caption == catalog[i].language
    ensures DerivedEntries(catalog)[i].description == catalog[i].version
    ensures CountLanguage(catalog, catalog[i].language) == 1 ==>
      DerivedEntries(catalog)[i].value == catalog[i].language
    ensures CountLanguage(catalog, catalog[i].language) != 1 ==>
      DerivedEntries(catalog)[i].value == CompositeKey(catalog[i])
  {
    CountOfMember(catalog, i);
  }

  /** A catalog of distinct languages yields no version suffix at all. */
  lemma NoSuffixWhenLanguagesDistinct(catalog: seq<Runtime>)
    requires forall a, b :: 0 <= a < b < |catalog| ==> catalog[a].language != catalog[b].language
    ensures forall i :: 0 <= i < |catalog| ==> DerivedEntries(catalog)[i].value == catalog[i].language
  {
    forall i | 0 <= i < |catalog|
      ensures DerivedEntries(catalog)[i].value == catalog[i].language
    {
      DistinctLanguagesCountOnce(catalog, i);
    }
  }

  /** The bare language is what precedes the first hyphen of a composite key. */
  lemma CompositeKeyParts(rt: Runtime)
    requires Hyphen !in rt.language
    ensures Hyphen in CompositeKey(rt)
    ensures Split(CompositeKey(rt), Hyphen)[0] == rt.language
    ensures CompositeKey(rt)[|rt.language| + 1..] == rt.version
  {
    SplitAfterSegment(rt.language, Hyphen, rt.version);
    assert CompositeKey(rt)[|rt.language|] == Hyphen;
  }

  /**
   * Keys are pairwise distinct when (language, version) pairs are unique and no
   * language holds a hyphen.
   */
  lemma KeysUnique(catalog: seq<Runtime>)
    requires forall a, b :: 0 <= a < b < |catalog| ==> catalog[a] != catalog[b]
    requires forall a :: 0 <= a < |catalog| ==> Hyphen !in catalog[a].language
    ensures forall i, j :: 0 <= i < j < |catalog| ==>
      DerivedEntries(catalog)[i].value != DerivedEntries(catalog)[j].value
  {
    forall i, j | 0 <= i < j < |catalog|
      ensures DerivedEntries(catalog)[i].value != DerivedEntries(catalog)[j].value
    {
      var ri, rj := catalog[i], catalog[j];
      var ni, nj := CountLanguage(catalog, ri.language), CountLanguage(catalog, rj.language);
      EntryShape(catalog, i);
      EntryShape(catalog, j);
      CompositeKeyParts(ri);
      CompositeKeyParts(rj);
      if ni == 1 && nj == 1 {
        if ri.language == rj.language { CountOneIsUnique(catalog, i, j); }
      }
    }
  }

  /**
   * The component's list state. Its mount effect has no dependencies, so the
   * list is derived once, from the runtimes passed at first mount.
   */
  class LanguageSelect {
    var runtimesList: seq<Entry>

    /** First mount: the effect clears the list, then stores the derived one. */
    constructor (runtimes: seq<Runtime>)
      ensures runtimesList == DerivedEntries(runtimes)
    {
      runtimesList := [];
      var rtl := DeriveEntries(runtimes);
      runtimesList := rtl;
    }

    /** A later render with another catalog does not run the effect again. */
    method Rerender(runtimes: seq<Runtime>)
      ensures runtimesList == old(runtimesList)
    {
    }
  }
}
