/**
 * The state of the content panel and how each of its four events changes it: the
 * entries arriving from the fetch, a refresh request, the end of the scramble
 * animation, and the end of the refresh cooldown. Each event runs to completion before
 * the next, and sees the state the previous one left.
 */
module Panel {
  import opened Wrappers
  import opened Markup
  import opened Content
  import opened Shuffle

  /** The four `useState` fields of the component. */
  datatype PanelState = PanelState(
    shuffledItems: seq<ContentItem>,
    currentIndex: nat,
    isRefreshable: bool,
    isScrambling: bool)

  /** The state on mount: no entries, index 0, refresh allowed, scrambling. */
  const Initial: PanelState := PanelState([], 0, true, true)

  /** The index points at an entry, or there are no entries and it is 0. */
  predicate Valid(st: PanelState) {
    st.currentIndex < |st.shuffledItems| || (st.shuffledItems == [] && st.currentIndex == 0)
  }

  /** `shuffledItems[currentIndex]`, which is `undefined` past the end. */
  function CurrentItem(st: PanelState): Option<ContentItem> {
    if st.currentIndex < |st.shuffledItems| then Some(st.shuffledItems[st.currentIndex]) else None
  }

  /** The index after `c` in a rotation over `n` entries: `(prev + 1) % length`. */
  function Advance(c: nat, n: nat): (r: nat)
    requires n > 0
    ensures r < n
  {
    (c + 1) % n
  }

  /**
   * The entries effect: a defined, non-empty list is shuffled (with the draws
   * `choices`) and shown from its first entry, scrambling; anything else changes nothing.
   */
  function OnItems(st: PanelState, allItems: Option<seq<ContentItem>>, choices: seq<nat>): (r: PanelState)
    requires allItems.Some? && |allItems.value| > 0 ==> ValidChoices(choices, |allItems.value|)
    ensures allItems.None? || allItems.value == [] ==> r == st
    ensures allItems.Some? && allItems.value != [] ==>
      && |r.shuffledItems| == |allItems.value|
      && multiset(r.shuffledItems) == multiset(allItems.value)
      && r.currentIndex == 0 && r.isScrambling && r.isRefreshable == st.isRefreshable
  {
    if allItems.Some? && |allItems.value| > 0 then
      ShuffledPermutes(allItems.value, choices);
      st.(shuffledItems := Shuffled(allItems.value, choices), currentIndex := 0, isScrambling := true)
    else
      st
  }

  /**
   * `handleRefresh`: ignored while cooling down or with fewer than two entries;
   * otherwise it closes the gate, restarts the scramble and moves to the next entry.
   */
  function OnRefresh(st: PanelState): PanelState {
    if !st.isRefreshable || |st.shuffledItems| <= 1 then st
    else
      st.(isRefreshable := false, isScrambling := true,
          currentIndex := Advance(st.currentIndex, |st.shuffledItems|))
  }

  /** `onAnimationEnd`: the scramble has finished and the markup is shown. */
  function OnAnimationEnd(st: PanelState): PanelState {
    st.(isScrambling := false)
  }

  /** The `setTimeout` callback scheduled by an accepted refresh: the gate opens again. */
  function OnCooldown(st: PanelState): PanelState {
    st.(isRefreshable := true)
  }

  /** The refresh button's `disabled` attribute. */
  function ButtonDisabled(st: PanelState, isLoading: bool): bool {
    !st.isRefreshable || isLoading
  }

  /** The body text on display: the plain text while scrambling, the markup afterwards. */
  function Shown(st: PanelState): String {
    var p := ProcessItem(CurrentItem(st));
    if st.isScrambling then p.stripped else MarkdownToHtml(p.body)
  }

  /** `k` accepted refreshes, each followed by its cooldown. */
  function Rounds(st: PanelState, k: nat): PanelState {
    if k == 0 then st else OnCooldown(OnRefresh(Rounds(st, k - 1)))
  }

  /** The index reached from `c` after `k` advances over `n` entries. */
  function AdvanceTimes(c: nat, n: nat, k: nat): (r: nat)
    requires n > 0
  {
    if k == 0 then c else Advance(AdvanceTimes(c, n, k - 1), n)
  }
}
