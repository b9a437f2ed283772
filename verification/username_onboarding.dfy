/** The optional Wikipedia-username step of onboarding. Each edit of the box clears the
    current verdict and, for non-blank input, schedules a lookup of the typed name in
    Wikipedia's user list; a finished lookup sets the verdict. Next stores the name in the
    browser entry `wikifacts_wikipedia_username` only when it was verified.

    Lookups are modelled by the list of names whose lookups are scheduled or in flight
    (`pending`); they may finish in any order, and the response of each is a parameter. */
module UsernameOnboarding {
  import opened Text

  /** The first entry of the user list in the lookup's response, as far as the page reads it:
      the `missing` and `invalid` flags and the numeric user id, if any. */
  datatype UserEntry = UserEntry(missing: bool, invalid: bool, userid: Option<int>)

  /** A lookup either fails (network or parse error) or yields the first user entry, if any. */
  datatype Lookup = Failed | Answered(user: Option<UserEntry>)

  /** The messages shown under the box. */
  datatype Message = EnterUsername | NotOnWikipedia | BadFormat | Verified | Unverifiable | CheckFailed

  function MessageText(m: Message): string {
    match m
    case EnterUsername => "Please enter a username"
    case NotOnWikipedia => "This username doesn't exist on Wikipedia"
    case BadFormat => "This is not a valid Wikipedia username format"
    case Verified => "✓ Account verified"
    case Unverifiable => "Unable to verify this username"
    case CheckFailed => "Error checking username. You can skip this step if needed."
  }

  datatype Verdict = Verdict(valid: bool, existsOnWiki: bool, message: Message)

  /** A JavaScript number is truthy unless it is 0 (NaN cannot arise from a JSON integer). */
  predicate Truthy(n: Option<int>) { n.Some? && n.value != 0 }

  /** `validateUsername`: blank input is refused without a lookup; otherwise the response
      is classified, in this order, as missing, invalid, found, or unverifiable. */
  function ValidateUsername(username: string, lookup: Lookup): (r: Verdict)
    ensures r.valid ==> r.existsOnWiki
    ensures r.valid <==> JsTrim(username) != [] && lookup.Answered? && lookup.user.Some?
                         && !lookup.user.value.missing && !lookup.user.value.invalid
                         && Truthy(lookup.user.value.userid)
    ensures JsTrim(username) == [] ==> r == Verdict(false, false, EnterUsername)
  {
    if JsTrim(username) == [] then Verdict(false, false, EnterUsername)
    else match lookup
      case Failed => Verdict(false, false, CheckFailed)
      case Answered(user) =>
        if user.Some? && user.value.missing then
          Verdict(false, false, NotOnWikipedia)
        else if user.Some? && user.value.invalid then
          Verdict(false, false, BadFormat)
        else if user.Some? && Truthy(user.value.userid) then
          Verdict(true, true, Verified)
        else
          Verdict(false, false, Unverifiable)
  }

  /** A verified name is never blank. */
  lemma VerifiedNotBlank(username: string, lookup: Lookup)
    requires ValidateUsername(username, lookup).valid
    ensures JsTrim(username) != [] && username != []
  {
  }

  class UsernamePage {
    var username: string
    var verdict: Option<Verdict>
    var skip: bool
    var stored: Option<string>
    var pending: seq<string>
    /** The name and response the current verdict was computed from. */
    ghost var checkedName: string
    ghost var checkedLookup: Lookup

    /** The current verdict is the verdict on `checkedName`. */
    ghost predicate Valid()
      reads this
    {
      verdict.Some? ==> verdict.value == ValidateUsername(checkedName, checkedLookup)
    }

    /** The current verdict is about the name in the box. */
    ghost predicate Fresh()
      reads this
    {
      verdict.Some? ==> checkedName == username
    }

    /** Mounting the page: a non-empty saved name is put in the box and looked up at once. */
    constructor(saved: Option<string>)
      ensures Valid() && Fresh()
      ensures saved.Some? && saved.value != [] ==> username == saved.value && pending == [saved.value]
      ensures saved.None? || saved.value == [] ==> username == [] && pending == []
      ensures verdict.None? && !skip && stored == saved
    {
      if saved.Some? && saved.value != [] {
        username := saved.value;
        pending := [saved.value];
      } else {
        username := [];
        pending := [];
      }
      verdict := None;
      skip := false;
      stored := saved;
      checkedName := [];
      checkedLookup := Failed;
    }

    /** `handleUsernameChange`: the new text, no verdict, and a lookup of non-blank text
        scheduled; lookups scheduled earlier stay scheduled. */
    method ChangeUsername(value: string)
      requires Valid()
      modifies this
      ensures username == value && verdict.None?
      ensures pending == old(pending) + (if JsTrim(value) != [] then [value] else [])
      ensures skip == old(skip) && stored == old(stored)
      ensures Valid() && Fresh()
    {
      username := value;
      verdict := None;
      if JsTrim(value) != [] {
        pending := pending + [value];
      }
    }

    /** A scheduled lookup finishes, as written: its verdict is shown whatever the box now holds. */
    method FinishLookupAsWritten(i: nat, lookup: Lookup)
      requires Valid() && i < |pending|
      modifies this
      ensures verdict == Some(ValidateUsername(old(pending)[i], lookup))
      ensures pending == old(pending)[..i] + old(pending)[i + 1..]
      ensures username == old(username) && skip == old(skip) && stored == old(stored)
      ensures Valid()
    {
      var name := pending[i];
      verdict := Some(ValidateUsername(name, lookup));
      checkedName, checkedLookup := name, lookup;
      pending := pending[..i] + pending[i + 1..];
    }

    /** A scheduled lookup finishes, with its verdict shown only while the box still holds
        the name it looked up. */
    method FinishLookup(i: nat, lookup: Lookup)
      requires Valid() && i < |pending|
      modifies this
      ensures old(pending)[i] == old(username) ==> verdict == Some(ValidateUsername(old(username), lookup))
      ensures old(pending)[i] != old(username) ==> verdict == old(verdict)
      ensures pending == old(pending)[..i] + old(pending)[i + 1..]
      ensures username == old(username) && skip == old(skip) && stored == old(stored)
      ensures Valid() && (old(Fresh()) ==> Fresh())
    {
      var name := pending[i];
      if name == username {
        verdict := Some(ValidateUsername(name, lookup));
        checkedName, checkedLookup := name, lookup;
      }
      pending := pending[..i] + pending[i + 1..];
    }

    /** `handleSkipToggle`: turning skip on empties the box and clears the verdict; turning
        it off changes nothing else. */
    method ToggleSkip()
      requires Valid()
      modifies this
      ensures skip == !old(skip)
      ensures skip ==> username == [] && verdict.None?
      ensures !skip ==> username == old(username) && verdict == old(verdict)
      ensures pending == old(pending) && stored == old(stored)
      ensures Valid() && (old(Fresh()) ==> Fresh())
    {
      skip := !skip;
      if skip {
        username := [];
        verdict := None;
      }
    }

    /** `canProceed`: skipping, or a non-empty name with a positive verdict. */
    predicate CanProceed()
      reads this
      ensures CanProceed() && !skip && Valid() && Fresh() ==>
        JsTrim(username) != [] && ValidateUsername(username, checkedLookup).valid
    {
      skip || (username != [] && verdict.Some? && verdict.value.valid)
    }

    /** `handleNext`: the name is stored exactly when not skipping, the box is non-empty and
        the verdict is positive; otherwise the entry is removed. */
    method Next()
      requires Valid()
      modifies this
      ensures stored.Some? <==> !skip && username != [] && verdict.Some? && verdict.value.valid
      ensures stored.Some? ==> stored.value == username
      ensures old(Fresh()) && stored.Some? ==> ValidateUsername(stored.value, checkedLookup).valid
      ensures username == old(username) && verdict == old(verdict) && skip == old(skip) && pending == old(pending)
      ensures Valid() && Fresh() == old(Fresh())
    {
      if !skip && username != [] && verdict.Some? && verdict.value.valid {
        stored := Some(username);
      } else {
        stored := None;
      }
    }
  }

  /** A response that finds a user. */
  const Found: Lookup := Answered(Some(UserEntry(false, false, Some(1))))

  /** With the page as written, a name typed and then replaced by a blank (such as `" "`
      after `"Jimbo"`, see `BlankAfterName`) is stored as verified: the lookup of the
      earlier name lands after the edit. */
  method StaleVerdictAsWritten(name: string, blank: string) returns (page: UsernamePage)
    requires JsTrim(name) != [] && blank != [] && JsTrim(blank) == []
    ensures page.CanProceed() && page.stored == Some(blank)
    ensures !ValidateUsername(blank, Found).valid
  {
    page := new UsernamePage(None);
    page.ChangeUsername(name);
    page.ChangeUsername(blank);
    assert page.pending == [name];
    page.FinishLookupAsWritten(0, Found);
    page.Next();
  }

  /** `" "` typed after `"Jimbo"` is such a pair. */
  lemma BlankAfterName(name: string, blank: string)
    requires name == "Jimbo" && blank == " "
    ensures JsTrim(name) != [] && blank != [] && JsTrim(blank) == []
  {
    assert !IsJsSpace(name[0]);
    assert IsJsSpace(blank[0]);
  }

  /** What the user and the network can do before Next: edit the box, let scheduled lookup
      `i` finish with a response, or toggle skip. */
  datatype Event = Edit(value: string) | Finish(i: nat, lookup: Lookup) | Toggle

  /** With lookups that only apply to the name still in the box, every stored name was
      itself verified, whatever the order of edits, finished lookups and toggles before
      Next (a finish with no such scheduled lookup does nothing). */
  method EditsThenNext(events: seq<Event>, saved: Option<string>) returns (page: UsernamePage)
    ensures page.stored.Some? ==> page.stored.value == page.username && !page.skip
    ensures page.stored.Some? ==> JsTrim(page.stored.value) != []
                                  && ValidateUsername(page.stored.value, page.checkedLookup).valid
  {
    page := new UsernamePage(saved);
    var n := 0;
    while n < |events|
      invariant 0 <= n <= |events|
      invariant page.Valid() && page.Fresh()
    {
      match events[n] {
        case Edit(value) => page.ChangeUsername(value);
        case Finish(i, lookup) =>
          if i < |page.pending| {
            page.FinishLookup(i, lookup);
          }
        case Toggle => page.ToggleSkip();
      }
      n := n + 1;
    }
    page.Next();
    if page.stored.Some? {
      VerifiedNotBlank(page.stored.value, page.checkedLookup);
    }
  }
}
