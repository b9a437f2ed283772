/** The language step of onboarding: tiles for the language codes and the browser storage
    entry `wikifacts_languages` holding the selected codes. Storage holds the decoded list. */
module LanguageOnboarding {
  import opened Text
  import opened Selection

  class LanguagePage {
    var selected: seq<string>
    var stored: Option<seq<string>>

    /** The page before its load effect has run, over what storage already holds. */
    constructor(saved: Option<seq<string>>)
      ensures selected == [] && stored == saved
    {
      selected := [];
      stored := saved;
    }

    /** The load effect: the saved list, or nothing selected when nothing is saved. */
    method Load()
      modifies this
      ensures stored.Some? ==> selected == stored.value
      ensures stored.None? ==> selected == []
      ensures stored == old(stored)
    {
      if stored.Some? {
        selected := stored.value;
      } else {
        selected := [];
      }
    }

    /** `toggleLanguage`: the code toggled, then the selection saved. */
    method ToggleLanguage(code: string)
      modifies this
      ensures selected == Toggle(old(selected), code)
      ensures code in selected <==> code !in old(selected)
      ensures stored == Some(selected)
      ensures old(NoDup(selected)) ==> NoDup(selected)
    {
      selected := Toggle(selected, code);
      stored := Some(selected);
    }

    /** The Next button is enabled exactly when some language is selected. */
    predicate CanProceed()
      reads this
      ensures CanProceed() <==> exists code :: code in selected
    {
      assert selected != [] ==> selected[0] in selected;
      selected != []
    }
  }

  /** Selecting a language enables Next, and clicking it again restores the earlier state. */
  method ToggleBackAndForth(page: LanguagePage, code: string)
    requires code !in page.selected
    modifies page
    ensures page.selected == old(page.selected)
    ensures page.stored == Some(page.selected)
  {
    page.ToggleLanguage(code);
    assert page.CanProceed();
    ToggleTwice(old(page.selected), code);
    page.ToggleLanguage(code);
  }
}
