/**
 * What the leading-label split promises: it recognises exactly the contents that start
 * with a bold span, splits them into label, colon flag, whitespace and body so that they
 * put back together into the content, and leaves every other content whole.
 */
module ContentProperties {
  import opened Wrappers
  import opened Markup
  import opened MarkupProperties
  import opened Content

  /** The bold span at the front of `content` ends at index `4 + |name|`. */
  lemma BoldPrefixMatches(name: String, rest: String)
    requires name != [] && '*' !in name
    ensures MatchAt(Bold, "**" + name + "**" + rest) == Some(Match(name, []))
    ensures ("**" + name + "**" + rest)[|Source(Bold, Match(name, []))|..] == rest
  {
    var content := "**" + name + "**" + rest;
    assert content == Source(Bold, Match(name, [])) + rest;
    MatchAtComplete(Bold, Match(name, []), content);
  }

  /**
   * A content whose leading bold part matches with label `L`, leaving `rest` (by
   * `BoldPrefixMatches`, any `**L**` + `rest` for a non-empty `L` without `*`) has title `L`; the
   * colon counts exactly when it comes right after the closing `**`; the body is what
   * follows the colon once all the whitespace after it is skipped, so it never starts
   * with whitespace.
   */
  lemma SplitLeadingBold(content: String, name: String, rest: String)
    requires MatchAt(Bold, content) == Some(Match(name, []))
    requires |name| + 4 <= |content| && content[|name| + 4..] == rest
    ensures var p := SplitLabel(content);
      && p.title == name
      && p.hasColon == (rest != [] && rest[0] == ':')
      && var after := if p.hasColon then rest[1..] else rest;
         |p.body| <= |after|
         && p.body == after[|after| - |p.body|..]
         && (forall k :: 0 <= k < |after| - |p.body| ==> IsJsWhitespace(after[k]))
         && (p.body != [] ==> !IsJsWhitespace(p.body[0]))
  {
    var colon := rest != [] && rest[0] == ':';
    var start := |name| + 4 + (if colon then 1 else 0);
    SplitAfterMatch(content, name);
    SkipSplits(content, start);
  }

  /** Skipping whitespace from `start` leaves a suffix of `content[start..]` after a run of whitespace. */
  lemma SkipSplits(content: String, start: nat)
    requires start <= |content|
    ensures var w := SkipWhitespace(content, start);
      var after := content[start..];
      var body := content[w..];
      && |body| <= |after| && body == after[|after| - |body|..]
      && (forall k :: 0 <= k < |after| - |body| ==> IsJsWhitespace(after[k]))
      && (body != [] ==> !IsJsWhitespace(body[0]))
  {
    var w := SkipWhitespace(content, start);
    var after := content[start..];
    assert content[w..] == after[w - start..];
    forall k | 0 <= k < w - start ensures IsJsWhitespace(after[k]) {
      assert after[k] == content[start + k];
    }
  }

  /**
   * Once the bold part has matched with label `name`, the colon is the character right
   * after it, and the body starts at the first non-whitespace character after that.
   */
  lemma SplitAfterMatch(content: String, name: String)
    requires MatchAt(Bold, content) == Some(Match(name, []))
    ensures |name| + 4 <= |content|
    ensures var rest := content[|name| + 4..];
      var colon := rest != [] && rest[0] == ':';
      var start := |name| + 4 + (if colon then 1 else 0);
      && start <= |content|
      && content[start..] == (if colon then rest[1..] else rest)
      && SplitLabel(content) == LabelSplit(name, colon, content[SkipWhitespace(content, start)..])
  {
    var e := |name| + 4;
    assert |Source(Bold, Match(name, []))| == e;
    if e < |content| {
      assert content[e..][0] == content[e];
      assert content[e + 1..] == content[e..][1..];
    }
  }

  /**
   * A label match spans `**`, a non-empty title without `*`, `**`, the colon when there
   * is one, and a run of whitespace that is as long as it can be.
   */
  lemma LabelMatchShape(content: String)
    requires MatchLabel(content).Some?
    ensures var lm := MatchLabel(content).value;
      var k := |lm.title| + 4 + (if lm.hasColon then 1 else 0);
      && lm.title != [] && '*' !in lm.title
      && k <= lm.length <= |content|
      && lm.hasColon == (|lm.title| + 4 < |content| && content[|lm.title| + 4] == ':')
      && content[..lm.length] == "**" + lm.title + "**" + (if lm.hasColon then ":" else "") + content[k..lm.length]
      && (forall j :: k <= j < lm.length ==> IsJsWhitespace(content[j]))
      && (lm.length < |content| ==> !IsJsWhitespace(content[lm.length]))
  {
    var m := MatchAt(Bold, content).value;
    var e := |Source(Bold, m)|;
    assert content[..e] == "**" + m.text + "**";
    var lm := MatchLabel(content).value;
    var k := |lm.title| + 4 + (if lm.hasColon then 1 else 0);
    assert content[..lm.length] == content[..e] + content[e..k] + content[k..lm.length];
  }

  /**
   * The label split loses nothing: a content with a label is `**`, the label, `**`, the
   * colon when there is one, a run of whitespace, and the body, in that order.
   */
  lemma LabelReassembles(content: String)
    requires SplitLabel(content).title != []
    ensures var p := SplitLabel(content);
      var k := |p.title| + 4 + (if p.hasColon then 1 else 0);
      && k + |p.body| <= |content|
      && content == "**" + p.title + "**" + (if p.hasColon then ":" else "")
                    + content[k..|content| - |p.body|] + p.body
      && (forall j :: k <= j < |content| - |p.body| ==> IsJsWhitespace(content[j]))
  {
    LabelMatchShape(content);
    var lm := MatchLabel(content).value;
    assert content == content[..lm.length] + content[lm.length..];
  }

  /**
   * Without a bold span at its front, a content has no label and no colon, and its body
   * is the whole content. A label is found exactly when the content starts with a bold
   * span.
   */
  lemma NoLabel(content: String)
    ensures SplitLabel(content).title == [] <==> MatchAt(Bold, content) == None
    ensures MatchAt(Bold, content) == None ==>
      SplitLabel(content) == LabelSplit("", false, content)
  {
  }

  /**
   * The label split of `**L**` + `rest`, for a non-empty `L` without `*`: the title is
   * `L`, the colon flag says whether `rest` starts with `:`, and the body is what is left
   * after that colon and the whitespace behind it.
   */
  lemma LeadingBoldLabel(content: String, name: String, rest: String)
    requires name != [] && '*' !in name && content == "**" + name + "**" + rest
    ensures var p := SplitLabel(content);
      && p.title == name
      && p.hasColon == (rest != [] && rest[0] == ':')
      && var after := if p.hasColon then rest[1..] else rest;
         |p.body| <= |after|
         && p.body == after[|after| - |p.body|..]
         && (forall k :: 0 <= k < |after| - |p.body| ==> IsJsWhitespace(after[k]))
         && (p.body != [] ==> !IsJsWhitespace(p.body[0]))
  {
    BoldPrefixMatches(name, rest);
    SplitLeadingBold(content, name, rest);
  }

  /**
   * A colon inside the bold span belongs to the label: `**Note:** rest` has the label
   * "Note:" and no colon flag, because the colon group only matches directly after the
   * closing `**`.
   */
  lemma ColonInsideLabel(word: String, rest: String)
    requires '*' !in word && (rest == [] || rest[0] != ':')
    ensures SplitLabel("**" + word + ":**" + rest).title == word + ":"
    ensures !SplitLabel("**" + word + ":**" + rest).hasColon
  {
    var content := "**" + word + ":**" + rest;
    assert content == "**" + (word + ":") + "**" + rest;
    BoldPrefixMatches(word + ":", rest);
    SplitLeadingBold(content, word + ":", rest);
  }

  /** A body that follows a whitespace run of `after` which stops at `after[1]` is `after[1..]`. */
  lemma BodyAfterOneSpace(after: String, body: String)
    requires |after| >= 2 && IsJsWhitespace(after[0]) && !IsJsWhitespace(after[1])
    requires |body| <= |after| && body == after[|after| - |body|..]
    requires forall k :: 0 <= k < |after| - |body| ==> IsJsWhitespace(after[k])
    requires body != [] ==> !IsJsWhitespace(body[0])
    ensures body == after[1..]
  {
    if |body| == |after| {
      assert false;
    } else if |body| < |after| - 1 {
      assert false;
    }
  }

  /**
   * `**w:** text`, where `text` does not start with whitespace, splits into title "w:",
   * no colon flag and body `text`: `**Note:** rest of text` gives "Note:", false and
   * "rest of text".
   */
  lemma NoteExample(word: String, text: String)
    requires '*' !in word && text != [] && !IsJsWhitespace(text[0])
    ensures SplitLabel("**" + word + ":** " + text) == LabelSplit(word + ":", false, text)
  {
    var content := "**" + word + ":** " + text;
    var rest := " " + text;
    assert content == "**" + (word + ":") + "**" + rest;
    assert rest[0] == ' ' && rest[1] == text[0] && rest[1..] == text;
    LeadingBoldLabel(content, word + ":", rest);
    BodyAfterOneSpace(rest, SplitLabel(content).body);
  }

  /**
   * In both branches `processedContent` takes its title, colon flag and body from the
   * label split, and its plain text is that body stripped of markup.
   */
  lemma ProcessedFromSplit(content: String)
    ensures var p := ProcessContent(content);
      var split := SplitLabel(content);
      p.title == split.title && p.hasColon == split.hasColon && p.body == split.body
      && p.stripped == StripMarkdownLinks(split.body)
  {
  }

  /** With no current entry every field of the processed content is empty or false. */
  lemma NoCurrentItem()
    ensures ProcessItem(None) == Processed([], false, [], [])
  {
  }
}
