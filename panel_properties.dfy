/**
 * What the panel's events promise: the index always points at an entry, a refresh is
 * accepted exactly when the gate is open and there are two or more entries, repeated
 * refreshes visit every entry once before coming back, and only the cooldown reopens
 * the gate.
 */
module PanelProperties {
  import opened Wrappers
  import opened Markup
  import opened Content
  import opened Shuffle
  import opened Panel

  /** Euclidean division is unique: `a == q * n + r` with `0 <= r < n` fixes `a % n`. */
  lemma ModUnique(a: int, n: int, q: int, r: int)
    requires n > 0 && 0 <= r < n && a == q * n + r
    ensures a % n == r
  {
    var d := a / n;
    assert a == d * n + a % n;
    assert (q - d) * n == a % n - r;
    if q - d >= 1 {
      assert false;
    } else if q - d <= -1 {
      assert false;
    }
  }

  /** Advancing from the remainder of `x` lands on the remainder of `x + 1`. */
  lemma ModNext(x: nat, n: nat)
    requires n > 0
    ensures ((x % n) + 1) % n == (x + 1) % n
  {
    var q := x / n;
    var r := x % n;
    assert x == q * n + r;
    if r + 1 < n {
      ModUnique(r + 1, n, 0, r + 1);
      ModUnique(x + 1, n, q, r + 1);
    } else {
      ModUnique(r + 1, n, 1, 0);
      ModUnique(x + 1, n, q + 1, 0);
    }
  }

  /** `k` advances from `c` land on `(c + k) % n`. */
  lemma {:induction false} AdvanceTimesOffset(c: nat, n: nat, k: nat)
    requires c < n
    ensures AdvanceTimes(c, n, k) == (c + k) % n
  {
    if k == 0 {
      ModUnique(c, n, 0, c);
    } else {
      var x := c + k - 1;
      AdvanceTimesOffset(c, n, k - 1);
      assert AdvanceTimes(c, n, k) == Advance(x % n, n) == ((x % n) + 1) % n;
      ModNext(x, n);
      assert x + 1 == c + k;
    }
  }

  /**
   * The rotation has period `n`: `n` advances return to the start, and the first `n`
   * visit `n` different positions, so every entry is shown once per cycle.
   */
  lemma AdvanceCycle(c: nat, n: nat)
    requires c < n
    ensures AdvanceTimes(c, n, n) == c
    ensures forall k1, k2 :: 0 <= k1 < k2 < n ==> AdvanceTimes(c, n, k1) != AdvanceTimes(c, n, k2)
  {
    AdvanceTimesOffset(c, n, n);
    ModUnique(c + n, n, 1, c);
    forall k1, k2 | 0 <= k1 < k2 < n ensures AdvanceTimes(c, n, k1) != AdvanceTimes(c, n, k2) {
      AdvanceTimesOffset(c, n, k1);
      AdvanceTimesOffset(c, n, k2);
      if c + k1 < n { ModUnique(c + k1, n, 0, c + k1); } else { ModUnique(c + k1, n, 1, c + k1 - n); }
      if c + k2 < n { ModUnique(c + k2, n, 0, c + k2); } else { ModUnique(c + k2, n, 1, c + k2 - n); }
    }
  }

  /** The mount state is valid, and every event keeps the index on an entry. */
  lemma ValidInvariant(st: PanelState, allItems: Option<seq<ContentItem>>, choices: seq<nat>)
    requires Valid(st)
    requires allItems.Some? && |allItems.value| > 0 ==> ValidChoices(choices, |allItems.value|)
    ensures Valid(Initial)
    ensures Valid(OnItems(st, allItems, choices))
    ensures Valid(OnRefresh(st))
    ensures Valid(OnAnimationEnd(st))
    ensures Valid(OnCooldown(st))
  {
  }

  /** With a valid state there is a current entry exactly when there are entries. */
  lemma CurrentItemPresent(st: PanelState)
    requires Valid(st)
    ensures CurrentItem(st).Some? <==> st.shuffledItems != []
  {
  }

  /**
   * A refresh changes the state exactly when the gate is open and there are at least
   * two entries; a rejected one changes nothing at all.
   */
  lemma RefreshGate(st: PanelState)
    ensures OnRefresh(st) != st <==> st.isRefreshable && |st.shuffledItems| > 1
  {
  }

  /**
   * An accepted refresh closes the gate, restarts the scramble, keeps the entries and
   * moves to the next entry in the rotation; the entry it shows is a different one.
   */
  lemma RefreshAccepted(st: PanelState)
    requires Valid(st) && st.isRefreshable && |st.shuffledItems| > 1
    ensures var r := OnRefresh(st);
      && !r.isRefreshable && r.isScrambling && r.shuffledItems == st.shuffledItems
      && r.currentIndex == (st.currentIndex + 1) % |st.shuffledItems|
      && r.currentIndex != st.currentIndex
      && ButtonDisabled(r, false)
  {
    var n := |st.shuffledItems|;
    if st.currentIndex + 1 < n {
      ModUnique(st.currentIndex + 1, n, 0, st.currentIndex + 1);
    } else {
      ModUnique(st.currentIndex + 1, n, 1, 0);
    }
  }

  /** A second refresh before the cooldown has fired is ignored. */
  lemma DoubleRefreshIgnored(st: PanelState)
    ensures OnRefresh(OnRefresh(st)) == OnRefresh(st)
  {
  }

  /** With one entry or none, refresh requests never change anything, whatever the gate. */
  lemma FewEntriesNeverRefresh(st: PanelState)
    requires |st.shuffledItems| <= 1
    ensures OnRefresh(st) == st
  {
  }

  /**
   * Only the cooldown opens a closed gate: the other three events leave a closed gate
   * closed, and the cooldown always opens it.
   */
  lemma OnlyCooldownReopens(st: PanelState, allItems: Option<seq<ContentItem>>, choices: seq<nat>)
    requires !st.isRefreshable
    requires allItems.Some? && |allItems.value| > 0 ==> ValidChoices(choices, |allItems.value|)
    ensures !OnItems(st, allItems, choices).isRefreshable
    ensures !OnRefresh(st).isRefreshable
    ensures !OnAnimationEnd(st).isRefreshable
    ensures OnCooldown(st).isRefreshable
    ensures ButtonDisabled(st, false) && !ButtonDisabled(OnCooldown(st), false)
  {
  }

  /**
   * The end of the animation reveals the same entry: the selection and the gate are
   * untouched and the markup of the body is shown in place of its plain text.
   */
  lemma AnimationEndReveals(st: PanelState)
    ensures var r := OnAnimationEnd(st);
      && r.shuffledItems == st.shuffledItems && r.currentIndex == st.currentIndex
      && r.isRefreshable == st.isRefreshable && !r.isScrambling
      && Shown(r) == MarkdownToHtml(ProcessItem(CurrentItem(st)).body)
  {
  }

  /**
   * `k` rounds of an accepted refresh followed by its cooldown keep the entries, leave
   * the gate open, and advance the index `k` times.
   */
  lemma {:induction false} RoundsAdvance(st: PanelState, k: nat)
    requires Valid(st) && st.isRefreshable && |st.shuffledItems| > 1
    ensures var r := Rounds(st, k);
      && r.shuffledItems == st.shuffledItems && r.isRefreshable && Valid(r)
      && r.currentIndex == AdvanceTimes(st.currentIndex, |st.shuffledItems|, k)
  {
    if k > 0 {
      RoundsAdvance(st, k - 1);
    }
  }

  /**
   * With `n >= 2` entries, `n` refreshes, each after the previous cooldown, return to
   * the starting entry, and the first `n` of them show `n` different entries.
   */
  lemma RefreshCycle(st: PanelState)
    requires Valid(st) && st.isRefreshable && |st.shuffledItems| > 1
    ensures Rounds(st, |st.shuffledItems|).currentIndex == st.currentIndex
    ensures forall k1, k2 :: 0 <= k1 < k2 < |st.shuffledItems| ==>
      Rounds(st, k1).currentIndex != Rounds(st, k2).currentIndex
  {
    var n := |st.shuffledItems|;
    RoundsAdvance(st, n);
    AdvanceCycle(st.currentIndex, n);
    forall k1, k2 | 0 <= k1 < k2 < n ensures Rounds(st, k1).currentIndex != Rounds(st, k2).currentIndex {
      RoundsAdvance(st, k1);
      RoundsAdvance(st, k2);
    }
  }

  /**
   * Arriving entries restart the rotation: the panel shows the first entry of a
   * permutation of the list, scrambling, and the gate is left as it was; an absent or
   * empty list changes nothing.
   */
  lemma ItemsRestart(st: PanelState, items: seq<ContentItem>, choices: seq<nat>)
    requires items != [] && ValidChoices(choices, |items|)
    ensures var r := OnItems(st, Some(items), choices);
      && r.shuffledItems == Shuffled(items, choices)
      && multiset(r.shuffledItems) == multiset(items)
      && CurrentItem(r) == Some(r.shuffledItems[0])
      && r.shuffledItems[0] in items
      && r.isScrambling && r.isRefreshable == st.isRefreshable
    ensures OnItems(st, None, choices) == st && OnItems(st, Some([]), choices) == st
  {
    var r := OnItems(st, Some(items), choices);
    assert r.shuffledItems[0] in multiset(r.shuffledItems);
  }
}
