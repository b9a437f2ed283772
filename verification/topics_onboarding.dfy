/** The topic step of onboarding: tiles for eight predefined topics, a box for custom
    topics, and the browser storage entry `wikifacts_topics` that holds the selected
    predefined topics followed by the custom ones. Storage holds the decoded list. */
module TopicsOnboarding {
  import opened Text
  import opened Selection

  const TopicKeys: seq<string> :=
    ["science", "history", "sports", "technology", "art", "music", "literature", "geography"]

  predicate IsPredefined(t: string) { t in TopicKeys }

  /** The saved list, or the empty list when nothing is saved. */
  function SavedList(stored: Option<seq<string>>): seq<string> {
    if stored.Some? then stored.value else []
  }

  /** Every selected tile is a predefined topic. */
  predicate AllPredefined(s: seq<string>) {
    forall k :: 0 <= k < |s| ==> IsPredefined(s[k])
  }

  class TopicsPage {
    var selected: seq<string>
    var otherTopics: string
    var customTopics: seq<string>
    var stored: Option<seq<string>>

    /** The page before its load effect has run, over what storage already holds. */
    constructor(saved: Option<seq<string>>)
      ensures selected == [] && otherTopics == [] && customTopics == [] && stored == saved
    {
      selected := [];
      otherTopics := [];
      customTopics := [];
      stored := saved;
    }

    /** The load effect: the saved list split, in order, into predefined and custom topics. */
    method Load()
      modifies this
      ensures selected == Keep(SavedList(stored), IsPredefined)
      ensures customTopics == Drop(SavedList(stored), IsPredefined)
      ensures multiset(selected) + multiset(customTopics) == multiset(SavedList(stored))
      ensures AllPredefined(selected)
      ensures CanProceed() <==> exists t :: t in SavedList(stored) && IsPredefined(t)
      ensures stored == old(stored) && otherTopics == old(otherTopics)
    {
      var saved := SavedList(stored);
      KeepDropPartition(saved, IsPredefined);
      selected := Keep(saved, IsPredefined);
      customTopics := Drop(saved, IsPredefined);
      assert forall k :: 0 <= k < |selected| ==> selected[k] in selected;
      if selected != [] {
        assert selected[0] in selected;
      }
    }

    /** `toggleTopic`: the tile's key toggled, then the whole list saved. */
    method ToggleTopic(key: string)
      modifies this
      ensures selected == Toggle(old(selected), key)
      ensures stored == Some(selected + customTopics)
      ensures customTopics == old(customTopics) && otherTopics == old(otherTopics)
      ensures old(AllPredefined(selected)) && IsPredefined(key) ==> AllPredefined(selected)
    {
      selected := Toggle(selected, key);
      stored := Some(selected + customTopics);
      assert forall k :: 0 <= k < |selected| ==> selected[k] in selected;
      assert forall k :: 0 <= k < |old(selected)| ==> old(selected)[k] in old(selected);
    }

    /** Typing in the custom-topic box. */
    method SetOtherTopics(value: string)
      modifies this
      ensures otherTopics == value
      ensures selected == old(selected) && customTopics == old(customTopics) && stored == old(stored)
    {
      otherTopics := value;
    }

    /** `handleKeyPress`: Enter without Shift adds the trimmed text as a custom topic when it
        is non-empty and new, saves, and clears the box; anything else changes nothing. */
    method KeyPress(key: string, shiftKey: bool)
      modifies this
      ensures var topic := JsTrim(old(otherTopics));
              if key == "Enter" && !shiftKey && topic != [] && topic !in old(customTopics) then
                customTopics == old(customTopics) + [topic] && otherTopics == []
                && stored == Some(selected + customTopics)
              else
                customTopics == old(customTopics) && otherTopics == old(otherTopics) && stored == old(stored)
      ensures selected == old(selected)
      ensures old(NoDup(customTopics)) ==> NoDup(customTopics)
    {
      if key == "Enter" && !shiftKey {
        var topic := JsTrim(otherTopics);
        if topic != [] && topic !in customTopics {
          ghost var before := customTopics;
          customTopics := customTopics + [topic];
          stored := Some(selected + customTopics);
          otherTopics := [];
          forall i, j | 0 <= i < j < |customTopics| && NoDup(before) ensures customTopics[i] != customTopics[j] {
            if j == |before| {
              assert customTopics[i] == before[i];
            }
          }
        }
      }
    }

    /** `removeCustomTopic`: the topic dropped from the custom list, then the whole list saved. */
    method RemoveCustomTopic(topic: string)
      modifies this
      ensures customTopics == Without(old(customTopics), topic)
      ensures topic !in customTopics
      ensures forall t :: t != topic ==> (t in customTopics <==> t in old(customTopics))
      ensures stored == Some(selected + customTopics)
      ensures selected == old(selected) && otherTopics == old(otherTopics)
      ensures old(NoDup(customTopics)) ==> NoDup(customTopics)
    {
      WithoutNoDup(customTopics, topic);
      customTopics := Without(customTopics, topic);
      stored := Some(selected + customTopics);
    }

    /** The Next button is enabled exactly when a predefined tile is selected; custom topics
        do not count. */
    predicate CanProceed()
      reads this
      ensures AllPredefined(selected) ==> (CanProceed() <==> exists t :: t in selected && IsPredefined(t))
    {
      assert selected != [] ==> selected[0] in selected;
      selected != []
    }
  }
}
