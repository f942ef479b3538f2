/** The table from target-language name to speech-synthesis language code,
    and the lookup `lang_code_map.get(target, "en")`. */
module LanguageMap {
  import opened Outcomes

  /** `lang_code_map`. */
  const LangCodes: map<string, string> := map[
    "French" := "fr",
    "Spanish" := "es",
    "Hindi" := "hi",
    "German" := "de",
    "Chinese" := "zh-CN",
    "Nepali" := "ne"
  ]

  /** The code used for a name the table does not hold. */
  const DefaultCode: string := "en"

  /** The target languages in the table's insertion order: the choices of the
      language drop-down (`list(lang_code_map.keys())`). */
  const Languages: seq<string> := ["French", "Spanish", "Hindi", "German", "Chinese", "Nepali"]

  /** `lang_code_map.get(target, "en")`. */
  function LangCode(target: string): (code: string)
    ensures target in LangCodes ==> code == LangCodes[target]
    ensures target !in LangCodes ==> code == DefaultCode
  {
    if target in LangCodes then LangCodes[target] else DefaultCode
  }

  /** The language offered at the first position of `names` whose code is
      `code`, if any: a reverse lookup over the drop-down's choices. */
  function LanguageWithCode(names: seq<string>, code: string): (r: Option<string>)
    ensures r.Some? ==> r.value in names && LangCode(r.value) == code
    ensures r.None? ==> forall k :: 0 <= k < |names| ==> LangCode(names[k]) != code
  {
    if names == [] then None
    else if LangCode(names[0]) == code then Some(names[0])
    else LanguageWithCode(names[1..], code)
  }

  /** The six names of the drop-down are exactly the keys of the table. */
  lemma LanguagesAreKeys()
    ensures forall name :: name in Languages <==> name in LangCodes
    ensures |Languages| == |LangCodes|
  {
  }

  /** Each offered language maps to its documented code, and any other name
      to `"en"`. */
  lemma LangCodeTable(other: string)
    requires other !in Languages
    ensures LangCode("French") == "fr" && LangCode("Spanish") == "es"
    ensures LangCode("Hindi") == "hi" && LangCode("German") == "de"
    ensures LangCode("Chinese") == "zh-CN" && LangCode("Nepali") == "ne"
    ensures LangCode(other) == "en"
  {
  }

  /** The codes of the offered languages are pairwise distinct: the code
      of a selection identifies it. */
  lemma {:induction false} CodeIdentifiesLanguage(target: string)
    requires target in Languages
    ensures LanguageWithCode(Languages, LangCode(target)) == Some(target)
  {
    var k :| 0 <= k < |Languages| && Languages[k] == target;
    ReverseLookup(k);
  }

  /** The reverse lookup of the code at position `k` finds the language at
      position `k`: no earlier language has that code. */
  lemma {:induction false} ReverseLookup(k: nat)
    requires k < |Languages|
    ensures LanguageWithCode(Languages, LangCode(Languages[k])) == Some(Languages[k])
  {
    var codes := ["fr", "es", "hi", "de", "zh-CN", "ne"];
    assert forall n :: 0 <= n < |Languages| ==> LangCode(Languages[n]) == codes[n];
    assert forall n, m :: 0 <= n < m < |codes| ==> codes[n] != codes[m];
    FirstWithCode(Languages, codes[k], k);
  }

  /** In a list whose entry `k` has the code and no earlier entry does, the
      reverse lookup finds entry `k`. */
  lemma {:induction false} FirstWithCode(names: seq<string>, code: string, k: nat)
    requires k < |names| && LangCode(names[k]) == code
    requires forall n :: 0 <= n < k ==> LangCode(names[n]) != code
    ensures LanguageWithCode(names, code) == Some(names[k])
    decreases k
  {
    if k > 0 {
      assert forall n :: 0 <= n < k - 1 ==> names[1..][n] == names[n + 1];
      FirstWithCode(names[1..], code, k - 1);
    }
  }

  /** `"en"` is used only for a name outside the table: no offered language
      has it. */
  lemma DefaultIsNotOffered()
    ensures LanguageWithCode(Languages, DefaultCode) == None
  {
    assert forall k :: 0 <= k < |Languages| ==> Languages[k] in LangCodes && LangCodes[Languages[k]] != DefaultCode;
  }
}
