/**
 * The translation function behind the `$t` store: look the key up in the current
 * locale, fall back to English, fall back to the key itself, and substitute `{name}`
 * placeholders.
 */
module I18n {
  import opened Wrappers
  import opened Text

  /** Locale code to (key to text). */
  type Table = map<string, map<string, string>>

  /** The locale the store starts with. */
  const InitialLocale := "en"

  const NoKey := "no key provided to $t()"
  /** The error property access on a missing English table raises. */
  const NoEnglishTable := "TypeError"

  function NoTranslation(key: string): string {
    "no translation for key \"" + key + "\""
  }

  /** `table[locale][key]`, as a text JavaScript treats as true, or `None`. */
  function Lookup(table: Table, locale: string, key: string): Option<string> {
    if locale in table && key in table[locale] && table[locale][key] != [] then Some(table[locale][key])
    else None
  }

  /** The placeholder `{name}`. */
  function Placeholder(name: string): (p: string)
    ensures p != []
  {
    "{" + name + "}"
  }

  /** Substitutes each variable in turn, in key order, replacing every occurrence of its
      placeholder. */
  function Substitute(text: string, vars: seq<(string, string)>): string
    decreases |vars|
  {
    if vars == [] then text
    else
      var (name, value) := vars[|vars| - 1];
      ReplaceAll(Substitute(text, vars[..|vars| - 1]), Placeholder(name), value)
  }

  /** The text chosen for the key before substitution: the locale's own (an unknown
      locale counts as English), then the English one. `None` when neither exists. */
  function Chosen(table: Table, locale: string, key: string): Option<string> {
    var effective := if locale in table then locale else "en";
    var own := Lookup(table, effective, key);
    if own.None? && effective != "en" then Lookup(table, "en", key) else own
  }

  /** `translate(locale, key, vars)`: the text, or the message of the error thrown.
      Reading the English table throws when it is missing, both when an unknown locale
      is replaced by English and when a key missing from a known locale is looked up
      in English. */
  function Translation(table: Table, locale: string, key: string, vars: seq<(string, string)>): (r: Result<string, string>)
    ensures key == [] ==> r == Err(NoKey)
    ensures key != [] && locale == [] ==> r == Err(NoTranslation(key))
    ensures key != [] && locale != [] ==>
              (r == Err(NoEnglishTable) <==>
                 "en" !in table && (locale !in table || Lookup(table, locale, key).None?))
    ensures r.Ok? && Chosen(table, locale, key).None? ==> r.value == key
    ensures r.Ok? && Chosen(table, locale, key).Some? ==> r.value == Substitute(Chosen(table, locale, key).value, vars)
    ensures key != [] && locale != [] && ("en" in table || (locale in table && Lookup(table, locale, key).Some?)) ==>
              r.Ok?
  {
    if key == [] then Err(NoKey)
    else if locale == [] then Err(NoTranslation(key))
    else if "en" !in table && (locale !in table || Lookup(table, locale, key).None?) then Err(NoEnglishTable)
    else
      match Chosen(table, locale, key)
      case None => Ok(key)
      case Some(text) => Ok(Substitute(text, vars))
  }

  /** The `forEach` over the variables, written as the loop it is. */
  method SubstituteAll(text: string, vars: seq<(string, string)>) returns (result: string)
    ensures result == Substitute(text, vars)
  {
    result := text;
    for i := 0 to |vars|
      invariant result == Substitute(text, vars[..i])
    {
      assert vars[..i + 1][..i] == vars[..i];
      var (name, value) := vars[i];
      result := ReplaceAll(result, Placeholder(name), value);
    }
    assert vars[..|vars|] == vars;
  }

  /** `translate`, step by step as the source does it. */
  method Translate(table: Table, locale: string, key: string, vars: seq<(string, string)>)
    returns (r: Result<string, string>)
    ensures r == Translation(table, locale, key, vars)
  {
    if key == [] {
      return Err(NoKey);
    }
    if locale == [] {
      return Err(NoTranslation(key));
    }
    var current := locale;
    if current !in table {
      current := "en";
    }
    if current !in table {
      return Err(NoEnglishTable);
    }
    var text := Lookup(table, current, key);
    if text.None? && current != "en" {
      if "en" !in table {
        return Err(NoEnglishTable);
      }
      text := Lookup(table, "en", key);
    }
    if text.None? {
      return Ok(key);
    }
    var substituted := SubstituteAll(text.value, vars);
    r := Ok(substituted);
  }

  /** A locale missing from the table translates exactly as English does. */
  lemma UnknownLocaleIsEnglish(table: Table, locale: string, key: string, vars: seq<(string, string)>)
    requires locale != [] && locale !in table
    ensures Translation(table, locale, key, vars) == Translation(table, "en", key, vars)
  {
  }

  /** A key missing from the locale is taken from English. */
  lemma EnglishFallback(table: Table, locale: string, key: string, vars: seq<(string, string)>)
    requires key != [] && locale != [] && locale in table && locale != "en"
    requires Lookup(table, locale, key).None? && Lookup(table, "en", key).Some?
    ensures Translation(table, locale, key, vars) == Ok(Substitute(table["en"][key], vars))
  {
    assert Chosen(table, locale, key) == Lookup(table, "en", key) == Some(table["en"][key]);
  }

  /** A key found nowhere translates to itself, whatever the variables, once there is
      an English table to fall back on. */
  lemma MissingKeyEchoed(table: Table, locale: string, key: string, vars: seq<(string, string)>)
    requires key != [] && locale != [] && "en" in table
    requires Lookup(table, locale, key).None? && Lookup(table, "en", key).None?
    ensures Translation(table, locale, key, vars) == Ok(key)
  {
  }

  /** A text in which no placeholder of the variables occurs is returned unchanged. */
  lemma {:induction false} NoPlaceholdersVerbatim(text: string, vars: seq<(string, string)>)
    requires forall i :: 0 <= i < |vars| ==> !Contains(text, Placeholder(vars[i].0))
    ensures Substitute(text, vars) == text
    decreases |vars|
  {
    if vars != [] {
      var init := vars[..|vars| - 1];
      forall i | 0 <= i < |init| ensures !Contains(text, Placeholder(init[i].0)) {
        assert init[i] == vars[i];
      }
      NoPlaceholdersVerbatim(text, init);
      ReplaceAbsent(text, Placeholder(vars[|vars| - 1].0), vars[|vars| - 1].1);
    }
  }

  /** Each variable's placeholder is replaced by its value wherever it occurs. */
  lemma SingleVariable(text: string, name: string, value: string)
    ensures Substitute(text, [(name, value)]) == ReplaceAll(text, Placeholder(name), value)
  {
    assert [(name, value)][..0] == [];
  }
}
