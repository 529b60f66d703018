/**
 * The searchable language dropdown (frontend/src/components/LanguageSelector.js). The catalog
 * (`QUIZ_LANGUAGES` from ../data/languages) is a parameter of the model.
 */
module LanguageSelector {
  import opened Wrappers
  import opened Text
  import opened Seqs

  /** `lang.toLowerCase().includes(term)`. */
  function Matcher(term: string): string -> bool {
    lang => Includes(ToLower(lang), term)
  }

  /** The normalised query: `search.trim().toLowerCase()`. */
  function SearchTerm(search: string): string {
    ToLower(Trim(search))
  }

  /** `filteredLanguages`: the whole catalog for a blank query, otherwise the entries whose
      lower-case form contains the lower-cased, trimmed query, in catalog order. */
  function FilterLanguages(catalog: seq<string>, search: string): (r: seq<string>)
    ensures IsBlank(search) ==> r == catalog
    ensures !IsBlank(search) ==> forall lang ::
      lang in r <==> lang in catalog && exists i :: OccursAt(ToLower(lang), SearchTerm(search), i)
    ensures |r| <= |catalog|
  {
    var term := SearchTerm(search);
    if term == [] then catalog else Filter(Matcher(term), catalog)
  }

  /** The result is always a subsequence of the catalog, and filtering a concatenated catalog
      filters each part: the catalog order is kept. */
  lemma FilterKeepsCatalogOrder(catalog: seq<string>, more: seq<string>, search: string)
    ensures IsSubsequence(FilterLanguages(catalog, search), catalog)
    ensures FilterLanguages(catalog + more, search) == FilterLanguages(catalog, search) + FilterLanguages(more, search)
  {
    var term := SearchTerm(search);
    if term == [] {
      SubsequenceOfItself(catalog);
    } else {
      FilterIsSubsequence(Matcher(term), catalog);
      FilterAppend(Matcher(term), catalog, more);
    }
  }

  lemma {:induction false} SubsequenceOfItself(s: seq<string>)
    ensures IsSubsequence(s, s)
    decreases |s|
  {
    if s != [] {
      SubsequenceOfItself(s[1..]);
    }
  }

  /** Upper- or lower-casing the query does not change the result. */
  lemma FilterIgnoresQueryCase(catalog: seq<string>, search: string)
    ensures FilterLanguages(catalog, ToLower(search)) == FilterLanguages(catalog, search)
  {
    TrimLowerCommute(search);
    ToLowerIdempotent(Trim(search));
  }

  /** Whitespace around the query does not change the result. */
  lemma FilterIgnoresSurroundingWhitespace(catalog: seq<string>, search: string)
    ensures FilterLanguages(catalog, Trim(search)) == FilterLanguages(catalog, search)
  {
    TrimIdempotent(search);
  }

  /** `displayLabel`: the chosen language, or the placeholder when none is chosen. */
  function DisplayLabel(value: string): (text: string)
    ensures value != "" ==> text == value
    ensures value == "" ==> text == "Select language"
  {
    if value != "" then value else "Select language"
  }

  /** The dropdown's own state. `disabled` and the selected value are props of the parent. */
  class Dropdown {
    const catalog: seq<string>
    var open: bool
    var search: string

    constructor (catalog: seq<string>)
      ensures this.catalog == catalog && !open && search == ""
    {
      this.catalog := catalog;
      open := false;
      search := "";
    }

    /** The trigger's `onClick`: flip `open` unless disabled. */
    method Toggle(disabled: bool)
      modifies this`open
      ensures open == if disabled then old(open) else !old(open)
      ensures !disabled ==> DropdownShown(disabled) == !old(open)
    {
      if !disabled {
        open := !open;
      }
    }

    /** The search box's `onChange`. */
    method SetSearch(text: string)
      modifies this`search
      ensures search == text
    {
      search := text;
    }

    /** `handleSelect(lang)`: the `onChange` call it makes (None when disabled) and closing. */
    method Select(lang: string, disabled: bool) returns (change: Option<string>)
      modifies this`open
      ensures disabled ==> change == None && open == old(open)
      ensures !disabled ==> change == Some(lang) && !open
      ensures !DropdownShown(disabled)
    {
      if disabled {
        return None;
      }
      change := Some(lang);
      open := false;
    }

    /** `open && !disabled`: the dropdown panel is rendered. */
    predicate DropdownShown(disabled: bool)
      reads this
    {
      open && !disabled
    }

    /** The entries listed in the panel. */
    function Listed(): (r: seq<string>)
      reads this
      ensures IsSubsequence(r, catalog)
    {
      FilterKeepsCatalogOrder(catalog, [], search);
      FilterLanguages(catalog, search)
    }

    /** The "No languages found" row is rendered iff nothing matches. */
    predicate ShowsNoMatch()
      reads this
    {
      |Listed()| == 0
    }
  }

  /** A disabled dropdown never shows its panel, whatever `open` holds. */
  lemma DisabledHidesPanel(d: Dropdown)
    ensures !d.DropdownShown(true)
  {
  }

  /** The "No languages found" row appears exactly when the catalog is empty (blank query) or no
      entry's lower-case form contains the normalised query. */
  lemma NoMatchRow(d: Dropdown)
    ensures IsBlank(d.search) ==> (d.ShowsNoMatch() <==> d.catalog == [])
    ensures !IsBlank(d.search) ==> (d.ShowsNoMatch() <==>
      forall lang :: lang in d.catalog ==> !exists i :: OccursAt(ToLower(lang), SearchTerm(d.search), i))
  {
    var r := FilterLanguages(d.catalog, d.search);
    if !IsBlank(d.search) && r != [] {
      assert r[0] in r;
    }
  }
}
