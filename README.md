# ContentSection — a verified model

This project models the core of `ContentSection`, the component of the site that shows
one text entry of a section (projects, specialities, thoughts) at a time. The entry's
plain text is revealed by a scramble animation and then replaced by its markup, and a
refresh button advances to the next entry of a shuffled rotation. Four pieces are modelled:

- **Markup passes** (`markup.dfy`, `markup_properties.dfy`). `stripMarkdownLinks` and
  `markdownToHTML` each chain three global regular-expression substitutions in a fixed
  order: bold `**X**`, then italic `_X_`, then link `[X](Y)`. Each substitution is a
  left-to-right scanner, `Markup.Pass`. At each position it tries the anchored pattern
  (`Markup.MatchAt`). On a match it emits the replacement and resumes after the match;
  otherwise it copies one character and moves on. Each pass runs on the output of the
  previous one.
- **Leading-label split** (`content.dfy`, `content_properties.dfy`). `processedContent`
  matches `^\*\*([^*]+)\*\*(:?)\s*` at the start of the current entry's content. A match
  yields a title, a colon flag, the body after the match and the body's plain text.
  Without a match the title is empty and the body is the whole content. `\s` is the
  ECMAScript WhiteSpace and LineTerminator set (`Content.IsJsWhitespace`).
- **Fisher-Yates shuffle** (`shuffle.dfy`). `shuffleArray` copies its input into an
  array and swaps in place from the last index down to 1. The random index drawn at step
  `i` is supplied as `choices[i]`, with `choices[i] <= i`. The method is proved equal to
  the function `Shuffle.Shuffled`, which is proved to return a permutation.
- **Selection and reveal state** (`panel.dfy`, `panel_properties.dfy`,
  `content_section.dfy`). The component holds four state fields: `shuffledItems`,
  `currentIndex`, `isRefreshable` and `isScrambling`. `Component.ContentSection` is a
  class with one mutating method per event:
  - the entries arrive;
  - a refresh is requested;
  - the scramble animation ends;
  - the 500 ms cooldown timer fires.

  Each method is proved to make exactly the transition that the matching function of
  `Panel` defines, and the properties of the rotation and the gate are lemmas about
  those functions. A ghost field counts scheduled cooldown timers. With it, the class
  invariant states that the gate is closed exactly while one timer is pending.

## Behaviour worth knowing

These follow from the code as written, and the model keeps each of them:

- **Colon inside the label.** The colon group only matches a colon directly after the
  closing `**`. So `"**Note:** rest of text"` gives title `"Note:"`, no colon flag and
  body `"rest of text"` (`ContentProperties.ColonInsideLabel`,
  `ContentProperties.NoteExample`).
- **Button disabled state.** The button is disabled when the gate is closed or the fetch
  is loading. The number of entries plays no part: with fewer than two entries the button
  stays enabled, but the refresh it triggers is ignored
  (`PanelProperties.FewEntriesNeverRefresh`).
- **The cooldown timer is never cancelled.** A pending timer still opens the gate later,
  whatever happened in between, and arriving entries leave the gate as it was
  (`PanelProperties.OnlyCooldownReopens`).
- **No guard on arriving entries.** The query is keyed by `["content", sectionType]`
  (line 70), and the entries effect adds no guard of its own. The model therefore accepts
  an entries event at any time. Which lists reach `allItems` depends on the query
  library's keying, which is not modelled.
- **Link targets are not protected.** The italic pass runs before the link pass, so an
  underscore pair inside a link target is rewritten to `<em>…</em>` inside the `href`
  (`MarkupExamples.ItalicRewritesLinkTarget`).
- **Stripping is not idempotent in general.** It leaves already-plain text unchanged
  (`MarkupProperties.StripFixedIff`), but a second application can change its own output
  again (`MarkupExamples.StripNotIdempotent`).

## Model

| member | source | states |
|---|---|---|
| Markup.Pass | nextjs-site/components/ContentSection.tsx:31-33 | definition: one global substitution, scanning left to right and resuming after each match; see `PassNoSpan`, `PassSkipsPrefix`, `PassAtMatch`, `PlainPassLength`, `HtmlPassLength` |
| Markup.Replacement | nextjs-site/components/ContentSection.tsx:39-44 | definition: `$1` when stripping; `<strong>`, `<em>` or the anchor element when rendering; see `PlainShrinks`, `HtmlGrows`, `HtmlLinkExample` |
| Markup.StripMarkdownLinks | nextjs-site/components/ContentSection.tsx:29-34 | definition: bold, then italic, then link pass, each replacing a span by its text; see `StripNeverLonger`, `StripFixedIff`, `StripExample`, `StripNotIdempotent` |
| Markup.MarkdownToHtml | nextjs-site/components/ContentSection.tsx:37-45 | definition: the same three passes producing HTML; see `HtmlFixedIff`, `HtmlBoldExample`, `HtmlLinkExample`, `ItalicRewritesLinkTarget` |
| Markup.MatchAt | nextjs-site/components/ContentSection.tsx:31-33 | a match found at the start of `s` is well formed (non-empty text free of its closing delimiter; for a link, non-empty target without `)`) and its source text is a prefix of `s` |
| MarkupProperties.MatchAtComplete | nextjs-site/components/ContentSection.tsx:31-33 | conversely, whenever a well-formed span's source text starts `s`, the matcher finds exactly that span, so the matcher is complete for each pattern |
| MarkupProperties.MatchNeedsOpener | nextjs-site/components/ContentSection.tsx:31-33 | no match can start at a character other than the pattern's opening `*`, `_` or `[` |
| MarkupProperties.NoSpanCons | nextjs-site/components/ContentSection.tsx:31-33 | text has no span at any position iff none starts at its first character and none occurs in the rest |
| MarkupProperties.PassNoSpan | nextjs-site/components/ContentSection.tsx:31-33 | a global substitution returns text with no complete span unchanged |
| MarkupProperties.PassSkipsPrefix | nextjs-site/components/ContentSection.tsx:31-33 | a prefix without the pattern's opener is copied through and the scan continues on the rest |
| MarkupProperties.PassAtMatch | nextjs-site/components/ContentSection.tsx:39-44 | a span at the start is replaced by its replacement and scanning resumes right after the span |
| MarkupProperties.PlainShrinks | nextjs-site/components/ContentSection.tsx:31-33 | each plain replacement (`$1`) is strictly shorter than the span it replaces |
| MarkupProperties.HtmlGrows | nextjs-site/components/ContentSection.tsx:39-44 | each HTML replacement is strictly longer than the span it replaces |
| MarkupProperties.PlainPassLength | nextjs-site/components/ContentSection.tsx:31-33 | a plain substitution never lengthens text, and keeps its length iff the text has no span |
| MarkupProperties.HtmlPassLength | nextjs-site/components/ContentSection.tsx:39-44 | an HTML substitution never shortens text, and keeps its length iff the text has no span |
| MarkupProperties.StripNeverLonger | nextjs-site/components/ContentSection.tsx:29-34 | `stripMarkdownLinks` never makes text longer |
| MarkupProperties.StripFixedIff | nextjs-site/components/ContentSection.tsx:29-34 | `stripMarkdownLinks` returns its input unchanged iff the input has no complete bold, italic or link span |
| MarkupProperties.HtmlFixedIff | nextjs-site/components/ContentSection.tsx:37-45 | `markdownToHTML` never shortens text, returns its input unchanged iff the input has no complete span, and otherwise makes it strictly longer |
| MarkupExamples.PassNoOpener | nextjs-site/components/ContentSection.tsx:31-33 | text without the opening character passes through a substitution unchanged |
| MarkupExamples.PassOneSpan | nextjs-site/components/ContentSection.tsx:39-44 | text that is exactly one well-formed span becomes exactly its replacement |
| MarkupExamples.StripExample | nextjs-site/components/ContentSection.tsx:29-34 | `"**b**x_i_y[l](u)"` becomes `"bxiyl"` when `b`, `i`, `l` and `u` are non-empty, `b`, `x`, `i`, `y` and `l` are free of `*`, `_` and `[`, `l` has no `]`, and `u` is free of `*`, `_` and `)` |
| MarkupExamples.StripLiteralExample | nextjs-site/components/ContentSection.tsx:29-34 | with the words "Bold", " and ", "italic", "link" and "http://x", `"**Bold** and _italic_ and [link](http://x)"` strips to `"Bold and italic and link"` |
| MarkupExamples.HtmlBoldExample | nextjs-site/components/ContentSection.tsx:39 | `markdownToHTML("**b**")` is `"<strong>b</strong>"` for `b` non-empty and free of `*`, `_` and `[` |
| MarkupExamples.HtmlLinkExample | nextjs-site/components/ContentSection.tsx:41-44 | `markdownToHTML("[l](u)")` is the anchor with `href="u"`, `target="_blank"`, `rel="noopener noreferrer"`, the accent classes, and text `l`, for `l` non-empty and free of `*`, `_`, `[` and `]`, and `u` non-empty and free of `*`, `_` and `)` |
| MarkupExamples.UnterminatedBoldExample | nextjs-site/components/ContentSection.tsx:29-45 | an unterminated `"**w"` is left unchanged by both chains when `w` is free of `*`, `_` and `[` |
| MarkupExamples.BoldLiteralExample | nextjs-site/components/ContentSection.tsx:37-45 | with the word "Bold", `markdownToHTML("**Bold**")` is `"<strong>Bold</strong>"` |
| MarkupExamples.UnterminatedLiteralExample | nextjs-site/components/ContentSection.tsx:29-45 | `"**unterminated bold"` is left unchanged by both chains |
| MarkupExamples.StripNotIdempotent | nextjs-site/components/ContentSection.tsx:29-34 | `"**_a*_*"` strips to `"**a**"`, which strips again to `"a"` |
| MarkupExamples.ItalicRewritesLinkTarget | nextjs-site/components/ContentSection.tsx:40-44 | in `"[l](u_e_v)"`, with `l`, `u` and `e` non-empty, `l` free of `*`, `_`, `[` and `]`, and `u`, `e` and `v` free of `*`, `_`, `[` and `)`, the underscore pair ends up as `<em>e</em>` inside the anchor's `href` |
| Content.IsJsWhitespace | nextjs-site/components/ContentSection.tsx:94 | definition: the characters `\s` matches, the ECMAScript WhiteSpace and LineTerminator set; see `SkipWhitespace`, `SplitLeadingBold` |
| Content.SkipWhitespace | nextjs-site/components/ContentSection.tsx:94 | `\s*` stops at the first non-whitespace character at or after its start, and skips only whitespace |
| Content.MatchLabel | nextjs-site/components/ContentSection.tsx:94 | a label match never extends past the content |
| Content.SplitLabel | nextjs-site/components/ContentSection.tsx:94-102 | definition: title, colon flag and body from the label match, or empty title and the whole content without one; see `SplitLeadingBold`, `LabelReassembles`, `NoLabel` |
| Content.ProcessContent | nextjs-site/components/ContentSection.tsx:96-110 | definition: the split plus the plain text of its body; see `ProcessedFromSplit` |
| Content.ProcessItem | nextjs-site/components/ContentSection.tsx:89-111 | definition: empty fields without a current entry, else the processed content; see `NoCurrentItem`, `ProcessedFromSplit` |
| ContentProperties.BoldPrefixMatches | nextjs-site/components/ContentSection.tsx:94 | content starting `**L**`, L non-empty without `*`, matches the bold part with group L, leaving the rest |
| ContentProperties.SplitLeadingBold | nextjs-site/components/ContentSection.tsx:94-102 | when the bold part matches with label L and leaves `rest` (which `BoldPrefixMatches` gives for any `**L**` + rest): title is L; `hasColon` iff rest starts with `:`; the body is what follows the optional colon once leading whitespace is skipped, so it never starts with whitespace |
| ContentProperties.LabelMatchShape | nextjs-site/components/ContentSection.tsx:94-100 | every label match consists of `**`, a non-empty title without `*`, `**`, the colon exactly when one follows, and a maximal run of whitespace |
| ContentProperties.LabelReassembles | nextjs-site/components/ContentSection.tsx:94-102 | with a title, content equals `"**" + title + "**" + (":" if hasColon) + ws + body`, with ws all whitespace |
| ContentProperties.NoLabel | nextjs-site/components/ContentSection.tsx:103-109 | the title is empty iff there is no leading bold span; then the colon flag is false and the body is the whole content |
| ContentProperties.ColonInsideLabel | nextjs-site/components/ContentSection.tsx:94-99 | `"**w:**rest"`, with `w` free of `*` and `rest` not starting with `:`, gives title `"w:"` and no colon flag |
| ContentProperties.LeadingBoldLabel | nextjs-site/components/ContentSection.tsx:94-102 | content written as `**L**` + rest, L non-empty without `*`, splits with title L, the colon flag iff rest starts with `:`, and a body that is the rest after the optional colon and its leading whitespace |
| ContentProperties.BodyAfterOneSpace | nextjs-site/components/ContentSection.tsx:94-100 | when one whitespace character is followed by a non-whitespace one, the skipped run is exactly that character |
| ContentProperties.NoteExample | nextjs-site/components/ContentSection.tsx:94-102 | `"**w:** text"`, with `w` free of `*` and `text` non-empty and not starting with whitespace, gives title `"w:"`, no colon flag and body `text`, e.g. `"**Note:** rest of text"` gives `"Note:"`, false and `"rest of text"` |
| ContentProperties.ProcessedFromSplit | nextjs-site/components/ContentSection.tsx:96-110 | in both branches the plain text is `stripMarkdownLinks(body)`, and title, flag and body come from the split |
| ContentProperties.NoCurrentItem | nextjs-site/components/ContentSection.tsx:90-91 | with no current entry all four fields are empty or false |
| Shuffle.Swap | nextjs-site/components/ContentSection.tsx:52 | exchanges two positions and keeps the length; see `SwapPermutes` |
| Shuffle.ShuffleFrom | nextjs-site/components/ContentSection.tsx:50-53 | definition: the swaps from index `i` down to 1 with the drawn indices; see `ShuffleFromPermutes` |
| Shuffle.Shuffled | nextjs-site/components/ContentSection.tsx:48-55 | definition: all the swaps from the last index down; see `ShuffledPermutes`, `ShuffleArray` |
| Shuffle.SwapPermutes | nextjs-site/components/ContentSection.tsx:52 | a swap keeps every element with its multiplicity |
| Shuffle.ShuffleFromPermutes | nextjs-site/components/ContentSection.tsx:50-53 | the steps from `i` down to 1 keep the length and the multiset |
| Shuffle.ShuffledPermutes | nextjs-site/components/ContentSection.tsx:48-55 | the shuffle returns a permutation of its input, and inputs of length at most 1 come back unchanged |
| Shuffle.ShuffleArray | nextjs-site/components/ContentSection.tsx:48-55 | the in-place swap loop over a copy returns `Shuffled(items, choices)`: same length and multiset, identity on length at most 1; the input is a value and stays as it was |
| Panel.CurrentItem | nextjs-site/components/ContentSection.tsx:87 | definition: the entry at the current index, if any; see `CurrentItemPresent` |
| Panel.OnRefresh | nextjs-site/components/ContentSection.tsx:113-123 | definition: ignored unless the gate is open and there are two or more entries, else close the gate, scramble and advance; see `RefreshGate`, `RefreshAccepted`, `DoubleRefreshIgnored`, `RefreshCycle` |
| Panel.OnAnimationEnd | nextjs-site/components/ContentSection.tsx:136 | definition: clears the scrambling flag; see `AnimationEndReveals` |
| Panel.OnCooldown | nextjs-site/components/ContentSection.tsx:122 | definition: opens the gate; see `OnlyCooldownReopens`, `RoundsAdvance` |
| Panel.ButtonDisabled | nextjs-site/components/ContentSection.tsx:148 | definition: gate closed or fetch loading; see `RefreshAccepted`, `OnlyCooldownReopens`, `FewEntriesNeverRefresh` |
| Panel.Shown | nextjs-site/components/ContentSection.tsx:182-191 | definition: plain text while scrambling, else the markup of the body; see `AnimationEndReveals`, `Render` |
| Panel.Advance | nextjs-site/components/ContentSection.tsx:119 | the next index `(prev + 1) % n` is below `n` |
| Panel.OnItems | nextjs-site/components/ContentSection.tsx:79-85 | a missing or empty list changes nothing; a non-empty one installs a permutation of it, index 0, scrambling, gate untouched |
| PanelProperties.AdvanceTimesOffset | nextjs-site/components/ContentSection.tsx:119 | `k` advances from `c` land on `(c + k) % n` |
| PanelProperties.AdvanceCycle | nextjs-site/components/ContentSection.tsx:119 | `n` advances return to the start, and the first `n` visit `n` different indices |
| PanelProperties.ValidInvariant | nextjs-site/components/ContentSection.tsx:61-64 | the mount state has the index on an entry or on 0 with no entries, and every event keeps that |
| PanelProperties.CurrentItemPresent | nextjs-site/components/ContentSection.tsx:87 | in a valid state a current entry exists iff there are entries |
| PanelProperties.RefreshGate | nextjs-site/components/ContentSection.tsx:113-114 | a refresh changes the state iff the gate is open and there are at least two entries |
| PanelProperties.RefreshAccepted | nextjs-site/components/ContentSection.tsx:116-119 | an accepted refresh closes the gate, sets scrambling, keeps the entries, moves to `(prev + 1) % n`, a different index, and disables the button |
| PanelProperties.DoubleRefreshIgnored | nextjs-site/components/ContentSection.tsx:113-116 | a second refresh before the cooldown changes nothing |
| PanelProperties.FewEntriesNeverRefresh | nextjs-site/components/ContentSection.tsx:114 | with at most one entry a refresh never changes the state |
| PanelProperties.OnlyCooldownReopens | nextjs-site/components/ContentSection.tsx:113-122 | only the timer callback sets the gate: entries arriving (lines 79-85), refresh and animation end (line 136) leave a closed gate closed; the cooldown opens it and re-enables the button (line 148) |
| PanelProperties.AnimationEndReveals | nextjs-site/components/ContentSection.tsx:182-191 | animation end (line 136) changes only the scrambling flag, after which the markup of the same entry's body is on display |
| PanelProperties.RoundsAdvance | nextjs-site/components/ContentSection.tsx:113-122 | `k` rounds of accepted refresh plus cooldown keep the entries, leave the gate open and advance the index `k` times |
| PanelProperties.RefreshCycle | nextjs-site/components/ContentSection.tsx:113-122 | with `n >= 2` entries, `n` refresh rounds return to the starting entry and the first `n` visit `n` different indices |
| PanelProperties.ItemsRestart | nextjs-site/components/ContentSection.tsx:79-85 | arriving entries show the first entry of a permutation of the list, which is one of the list's entries, scrambling, gate as it was; a missing or empty list changes nothing |
| Component.ContentSection.constructor | nextjs-site/components/ContentSection.tsx:61-64 | the initial state: no entries, index 0, refresh allowed, scrambling, no timer pending |
| Component.ContentSection.ItemsArrived | nextjs-site/components/ContentSection.tsx:79-85 | the fields become `OnItems` of the old fields, shuffled through the in-place shuffle; the invariant holds |
| Component.ContentSection.HandleRefresh | nextjs-site/components/ContentSection.tsx:113-123 | the fields become `OnRefresh` of the old fields; a timer is scheduled exactly when the refresh is accepted; the invariant holds |
| Component.ContentSection.AnimationEnded | nextjs-site/components/ContentSection.tsx:136 | only the scrambling flag is cleared |
| Component.ContentSection.CooldownFired | nextjs-site/components/ContentSection.tsx:122 | a scheduled timer firing reopens the gate and is no longer pending |
| Component.ContentSection.Render | nextjs-site/components/ContentSection.tsx:182-191 | the processed current entry; the shown text is the plain text while scrambling, else the markup of the body; the button is disabled iff the gate is closed or the fetch is loading (line 148); the processed entry is `processedContent` of `shuffledItems[currentIndex]` (lines 87-111) |

## Left out

- The `useQuery` fetch, HTTP status handling and JSON decoding are network I/O through a
  library. Their result enters the model only as the `allItems` argument of the entries
  event, where `None` stands for `undefined`. `isLoading` is a parameter.
- The `useScramble` engine and its settings belong to an external animation library.
  Only its completion is modelled, as the animation-end event.
- `Math.random()` and `Math.floor(r * (i + 1))` are floating point. They are replaced
  by the caller-supplied draw `choices[i]`, with `0 <= choices[i] <= i`.
- The 500 ms delay of `setTimeout` is real time. The timer is a discrete cooldown event
  with no clock.
- The `animationPresets` timing constants and all JSX, CSS and `dangerouslySetInnerHTML`
  rendering are presentation only. The exception is the choice of which body string is
  shown, which `Render` models.
- HTML escaping is not modelled because the code performs none.
- Full JavaScript regular-expression semantics are not modelled. The three
  substitution patterns and the label pattern are written out as scanners, because each
  character class excludes its own closing delimiter, which makes every match unique.
- Strings are sequences of Unicode scalar values. Characters outside the Basic
  Multilingual Plane count as one character, not as two UTF-16 code units. This does
  not change any match, because every delimiter is ASCII.
- `sectionType`, the dependency that restarts the entries effect, is not modelled
  separately. A new entry list arriving is modelled as the same event.
- The query library's caching and keying by `["content", sectionType]` belong to an
  external library. The model accepts an entries event at any time, whatever list it carries.
