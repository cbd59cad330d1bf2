/**
 * The `ContentSection` component as an object: its four state fields, updated in place
 * by one method per event, each proved to make exactly the transition `Panel` defines.
 * The ghost field `pendingCooldowns` counts the refresh cooldown timers that have been
 * scheduled and have not fired yet.
 */
module Component {
  import opened Wrappers
  import opened Markup
  import opened Content
  import opened Shuffle
  import opened Panel

  class ContentSection {
    var shuffledItems: seq<ContentItem>
    var currentIndex: nat
    var isRefreshable: bool
    var isScrambling: bool
    ghost var pendingCooldowns: nat

    /** The four fields as a value. */
    function State(): PanelState
      reads this
    {
      PanelState(shuffledItems, currentIndex, isRefreshable, isScrambling)
    }

    /**
     * The index points at an entry, and the gate is closed exactly while the one
     * cooldown timer an accepted refresh schedules has not fired.
     */
    ghost predicate Valid()
      reads this
    {
      Panel.Valid(State()) && pendingCooldowns <= 1 && (isRefreshable <==> pendingCooldowns == 0)
    }

    /** Mounting: no entries yet, index 0, refresh allowed, scrambling, no timer. */
    constructor ()
      ensures Valid() && State() == Initial && pendingCooldowns == 0
    {
      shuffledItems := [];
      currentIndex := 0;
      isRefreshable := true;
      isScrambling := true;
      pendingCooldowns := 0;
    }

    /** The effect on `allItems`: shuffle a non-empty list in and restart from its first entry. */
    method ItemsArrived(allItems: Option<seq<ContentItem>>, choices: seq<nat>)
      requires Valid()
      requires allItems.Some? && |allItems.value| > 0 ==> ValidChoices(choices, |allItems.value|)
      modifies this
      ensures Valid()
      ensures State() == OnItems(old(State()), allItems, choices)
      ensures pendingCooldowns == old(pendingCooldowns)
    {
      if allItems.Some? && |allItems.value| > 0 {
        var shuffled := ShuffleArray(allItems.value, choices);
        shuffledItems := shuffled;
        currentIndex := 0;
        isScrambling := true;
      }
    }

    /**
     * `handleRefresh`. When accepted it schedules the cooldown timer, which `scheduled`
     * reports; a rejected request changes nothing.
     */
    method HandleRefresh() returns (scheduled: bool)
      requires Valid()
      modifies this
      ensures Valid()
      ensures State() == OnRefresh(old(State()))
      ensures scheduled == (old(isRefreshable) && |old(shuffledItems)| > 1)
      ensures pendingCooldowns == old(pendingCooldowns) + (if scheduled then 1 else 0)
    {
      if !isRefreshable || |shuffledItems| <= 1 {
        return false;
      }
      isRefreshable := false;
      isScrambling := true;
      currentIndex := (currentIndex + 1) % |shuffledItems|;
      pendingCooldowns := pendingCooldowns + 1;
      scheduled := true;
    }

    /** `onAnimationEnd` of the scramble. */
    method AnimationEnded()
      requires Valid()
      modifies this
      ensures Valid()
      ensures State() == OnAnimationEnd(old(State()))
      ensures pendingCooldowns == old(pendingCooldowns)
    {
      isScrambling := false;
    }

    /** The cooldown timer fires; only a scheduled timer can. */
    method CooldownFired()
      requires Valid() && pendingCooldowns > 0
      modifies this
      ensures Valid()
      ensures State() == OnCooldown(old(State()))
      ensures pendingCooldowns == old(pendingCooldowns) - 1
    {
      isRefreshable := true;
      pendingCooldowns := pendingCooldowns - 1;
    }

    /**
     * What a render reads off the state: the processed current entry, the body text on
     * display (plain while scrambling, markup afterwards) and whether the refresh button
     * is disabled while the fetch is `isLoading`.
     */
    method Render(isLoading: bool) returns (processed: Processed, shown: String, disabled: bool)
      requires Valid()
      ensures processed == ProcessItem(CurrentItem(State()))
      ensures shown == Shown(State())
      ensures disabled == ButtonDisabled(State(), isLoading)
      ensures isScrambling ==> shown == processed.stripped
      ensures !isScrambling ==> shown == MarkdownToHtml(processed.body)
    {
      var current := if currentIndex < |shuffledItems| then Some(shuffledItems[currentIndex]) else None;
      processed := ProcessItem(current);
      shown := if isScrambling then processed.stripped else MarkdownToHtml(processed.body);
      disabled := !isRefreshable || isLoading;
    }
  }
}
