/**
 * The content script's extractPageContent, with every DOM read turned
 * into a field of Page.
 */
module Content {
  import opened Options
  import opened JsText
  import opened BackgroundText

  const MaxContent := 2000
  const MeetHost := "meet.google.com"
  const MeetDefaultTitle := "Google Meet"
  const MeetIdleText := "Google Meet active"
  const ParticipantsLabel := " Participants: "
  const ParticipantSeparator := ", "

  /** A text node met by the tree walker, with its parent's computed style. */
  datatype TextNode = TextNode(text: string, display: string, visibility: string, parentAriaHidden: bool)

  /**
   * What the script reads from the page: the host, the text of the first
   * `title` or `[data-meeting-title]` element (None when there is none),
   * document.title, the participant elements' texts, body.innerText, the
   * text nodes in document order, and the index of the node whose filter
   * call throws, if one does.
   */
  datatype Page = Page(
    hostname: string,
    titleElementText: Option<string>,
    documentTitle: string,
    participantTexts: seq<string>,
    bodyInnerText: string,
    textNodes: seq<TextNode>,
    walkerThrowsAt: Option<nat>)

  predicate IsMeet(page: Page) {
    Includes(page.hostname, MeetHost)
  }

  /** The walker's acceptNode filter. */
  predicate Accepted(n: TextNode) {
    n.display != "none" && n.visibility != "hidden" && !n.parentAriaHidden
  }

  /** What one accepted node adds: its trimmed text and a space, or nothing when that text is empty. */
  function NodeContribution(n: TextNode): string {
    if Accepted(n) && Trim(n.text) != [] then Trim(n.text) + " " else []
  }

  /** A node adds nothing exactly when it is rejected or its text is blank. */
  lemma NodeContributionEmpty(n: TextNode)
    ensures NodeContribution(n) == [] <==> !Accepted(n) || NonSpaces(n.text) == []
  {
    TrimEmptyIffBlank(n.text);
  }

  /** The text the walk has accumulated over `nodes`. */
  function WalkText(nodes: seq<TextNode>): (t: string)
  {
    if nodes == [] then [] else WalkText(nodes[..|nodes| - 1]) + NodeContribution(nodes[|nodes| - 1])
  }

  /** One more node extends the walk by that node's contribution. */
  lemma WalkTextStep(nodes: seq<TextNode>, i: nat)
    requires i < |nodes|
    ensures WalkText(nodes[..i + 1]) == WalkText(nodes[..i]) + NodeContribution(nodes[i])
  {
    assert nodes[..i + 1][..i] == nodes[..i];
  }

  /** The walk yields nothing exactly when no accepted node has non-blank text. */
  lemma {:induction false} WalkTextEmpty(nodes: seq<TextNode>)
    ensures WalkText(nodes) == [] <==> forall i :: 0 <= i < |nodes| ==> NodeContribution(nodes[i]) == []
  {
    if nodes != [] {
      var init := nodes[..|nodes| - 1];
      var last := NodeContribution(nodes[|nodes| - 1]);
      WalkTextEmpty(init);
      assert WalkText(nodes) == WalkText(init) + last;
      if WalkText(nodes) == [] {
        assert |WalkText(init)| == 0 && |last| == 0;
        assert forall i :: 0 <= i < |init| ==> NodeContribution(init[i]) == [];
        forall i | 0 <= i < |nodes|
          ensures NodeContribution(nodes[i]) == []
        {
          if i < |init| {
            assert init[i] == nodes[i];
          } else {
            assert i == |nodes| - 1;
          }
        }
      } else if WalkText(init) != [] {
        var i :| 0 <= i < |init| && NodeContribution(init[i]) != [];
        assert init[i] == nodes[i];
      } else {
        assert last != [];
      }
    }
  }



  /** A walk over hidden or blank nodes only yields nothing, so the fallbacks take over. */
  lemma HiddenNodesAddNothing(nodes: seq<TextNode>)
    requires forall i :: 0 <= i < |nodes| ==> !Accepted(nodes[i]) || NonSpaces(nodes[i].text) == []
    ensures WalkText(nodes) == []
  {
    forall i | 0 <= i < |nodes| ensures NodeContribution(nodes[i]) == [] {
      NodeContributionEmpty(nodes[i]);
    }
    WalkTextEmpty(nodes);
  }

  /** The text accumulated over the first k nodes begins the text of the whole walk. */
  lemma {:induction false} WalkTextPrefix(nodes: seq<TextNode>, k: nat)
    requires k <= |nodes|
    ensures StartsWith(WalkText(nodes), WalkText(nodes[..k]))
    decreases |nodes| - k
  {
    if k < |nodes| {
      var init := nodes[..|nodes| - 1];
      WalkTextPrefix(init, k);
      assert init[..k] == nodes[..k];
      assert WalkText(nodes) == WalkText(init) + NodeContribution(nodes[|nodes| - 1]);
    } else {
      assert nodes[..k] == nodes;
    }
  }

  /** The loop body: an accepted node's trimmed, non-empty text is added with a space. */
  method AddNode(text: string, node: TextNode) returns (r: string)
    ensures r == text + NodeContribution(node)
  {
    r := text;
    if Accepted(node) {
      var t := Trim(node.text);
      if t != "" {
        AppendAssoc(text, t, " ");
        r := text + t + " ";
      }
    }
  }

  /**
   * Method 2, the visible-text walk: the trimmed accumulation, or, when the
   * filter throws part-way, what had been accumulated (the catch block does
   * not trim).
   */
  function WalkResult(page: Page): (text: string)
    ensures page.walkerThrowsAt.None? || page.walkerThrowsAt.value >= |page.textNodes| ==>
              text == [] || (!IsSpace(text[0]) && !IsSpace(text[|text| - 1]))
    ensures page.walkerThrowsAt.Some? && page.walkerThrowsAt.value < |page.textNodes| ==>
              StartsWith(WalkText(page.textNodes), text)
  {
    if page.walkerThrowsAt.Some? && page.walkerThrowsAt.value < |page.textNodes| then
      WalkTextPrefix(page.textNodes, page.walkerThrowsAt.value);
      WalkText(page.textNodes[..page.walkerThrowsAt.value])
    else
      Trim(WalkText(page.textNodes))
  }

  method Walk(page: Page) returns (text: string)
    ensures text == WalkResult(page)
  {
    text := "";
    var i := 0;
    while i < |page.textNodes|
      invariant 0 <= i <= |page.textNodes|
      invariant text == WalkText(page.textNodes[..i])
      invariant page.walkerThrowsAt.Some? ==> page.walkerThrowsAt.value >= i
    {
      if page.walkerThrowsAt == Some(i) {
        return;
      }
      text := AddNode(text, page.textNodes[i]);
      WalkTextStep(page.textNodes, i);
      i := i + 1;
    }
    assert page.textNodes[..i] == page.textNodes;
    text := Trim(text);
  }

  /** `.map(t => t.trim())`. */
  function TrimAll(texts: seq<string>): (t: seq<string>)
    ensures |t| == |texts| && forall j :: 0 <= j < |texts| ==> t[j] == Trim(texts[j])
  {
    seq(|texts|, j requires 0 <= j < |texts| => Trim(texts[j]))
  }

  /** The participant names, trimmed, with blank ones dropped: `.map(trim).filter(t => t)`. */
  function Participants(texts: seq<string>): (r: seq<string>)
    ensures |r| <= |texts|
    ensures forall x :: x in r <==> x != [] && x in TrimAll(texts)
  {
    if texts == [] then []
    else
      var rest := Participants(texts[1..]);
      var head := Trim(texts[0]);
      assert TrimAll(texts) == [head] + TrimAll(texts[1..]);
      if head != [] then [head] + rest else rest
  }

  /** The names keep the order of their elements: the list of a concatenation is the concatenation of the lists. */
  lemma {:induction false} ParticipantsAppend(a: seq<string>, b: seq<string>)
    ensures Participants(a + b) == Participants(a) + Participants(b)
    decreases |a|
  {
    if a == [] {
      assert a + b == b;
    } else {
      assert (a + b)[0] == a[0];
      assert (a + b)[1..] == a[1..] + b;
      ParticipantsAppend(a[1..], b);
    }
  }

  /** The Meet text before filtering: title, then (when participant elements exist) their names. */
  function MeetSource(page: Page): (s: string)
    ensures page.participantTexts == [] ==> s == MeetTitle(page)
    ensures page.participantTexts != [] ==>
              s == MeetTitle(page) + ParticipantsLabel + Join(Participants(page.participantTexts), ParticipantSeparator)
  {
    if page.participantTexts == [] then MeetTitle(page)
    else MeetTitle(page) + ParticipantsLabel + Join(Participants(page.participantTexts), ParticipantSeparator)
  }

  /** `titleElement?.textContent || document.title || 'Google Meet'`. */
  function MeetTitle(page: Page): (t: string)
    ensures t != []
  {
    if page.titleElementText.Some? && page.titleElementText.value != "" then page.titleElementText.value
    else if page.documentTitle != "" then page.documentTitle
    else MeetDefaultTitle
  }

  /** The Meet path's text: filtered, trimmed, and never empty. */
  function MeetText(page: Page): (t: string)
    ensures t != []
  {
    var trimmed := Trim(DropNetworkPhrases(MeetSource(page)));
    if trimmed != "" then trimmed else MeetIdleText
  }

  /** `document.body.innerText.trim().replace(/\s+/g, ' ')`, or "" when innerText is empty. */
  function InnerText(page: Page): (t: string)
    ensures page.bodyInnerText == "" ==> t == ""
    ensures |t| <= |page.bodyInnerText|
    ensures t == [] || (!IsSpace(t[0]) && !IsSpace(t[|t| - 1]))
    ensures NoSpaceRuns(t)
  {
    if page.bodyInnerText != "" then CollapseSpaces(Trim(page.bodyInnerText)) else ""
  }

  /** The general path's source before filtering: the first non-empty of the four methods. */
  function GeneralSource(page: Page): (s: string)
    ensures InnerText(page) != "" ==> s == InnerText(page)
    ensures InnerText(page) == "" && WalkResult(page) != "" ==> s == WalkResult(page)
    ensures InnerText(page) == "" && WalkResult(page) == "" && page.documentTitle != "" ==> s == page.documentTitle
    ensures InnerText(page) == "" && WalkResult(page) == "" && page.documentTitle == "" ==> s == page.hostname
  {
    if InnerText(page) != "" then InnerText(page)
    else if WalkResult(page) != "" then WalkResult(page)
    else if page.documentTitle != "" then page.documentTitle
    else page.hostname
  }

  /** The text before the final cut: the Meet path's, or the general path's after both filters. */
  function UncutText(page: Page): (text: string)
    ensures IsMeet(page) ==> text != []
    ensures !IsMeet(page) ==> |text| <= |GeneralSource(page)|
  {
    if IsMeet(page) then MeetText(page) else DropNetworkPhrases(GeneralSource(page))
  }

  /** The text extractPageContent resolves with. */
  function PageText(page: Page): (r: string)
    ensures |r| <= MaxContent
  {
    Prefix(UncutText(page), MaxContent)
  }

  /** extractPageContent, after its 1.5-second delay. */
  method ExtractPageContent(page: Page) returns (textContent: string)
    ensures textContent == PageText(page)
  {
    textContent := "";
    if Includes(page.hostname, MeetHost) {
      textContent := MeetTitle(page);
      if |page.participantTexts| > 0 {
        var participants := Participants(page.participantTexts);
        textContent := textContent + ParticipantsLabel + Join(participants, ParticipantSeparator);
      }
      textContent := RemoveAll(textContent, NetworkPhrase);
      textContent := RemoveAll(textContent, ConnectionPhrase);
      textContent := Trim(textContent);
      if textContent == "" {
        textContent := MeetIdleText;
      }
    }
    if textContent == "" {
      if page.bodyInnerText != "" {
        textContent := CollapseSpaces(Trim(page.bodyInnerText));
      }
      if textContent == "" {
        textContent := Walk(page);
      }
      if textContent == "" {
        textContent := if page.documentTitle != "" then page.documentTitle else page.hostname;
      }
      textContent := RemoveAll(textContent, NetworkPhrase);
      textContent := RemoveAll(textContent, ConnectionPhrase);
    }
    textContent := Prefix(textContent, MaxContent);
  }

  /** On a Meet host the result is never empty. */
  lemma MeetTextNonEmpty(page: Page)
    requires IsMeet(page)
    ensures PageText(page) != []
  {
  }

  /** On a Meet host the general path never runs: the body, the walk and the host do not matter. */
  lemma MeetIgnoresGeneralPath(p: Page, q: Page)
    requires IsMeet(p) && IsMeet(q)
    requires p.titleElementText == q.titleElementText && p.documentTitle == q.documentTitle
    requires p.participantTexts == q.participantTexts
    ensures PageText(p) == PageText(q)
  {
    assert MeetTitle(p) == MeetTitle(q);
    assert MeetSource(p) == MeetSource(q);
    assert UncutText(p) == MeetText(p) && UncutText(q) == MeetText(q);
  }

  /** With no walker failure, the walk is consulted only when innerText has no visible character. */
  lemma InnerTextFirst(page: Page)
    requires !IsMeet(page)
    ensures InnerText(page) == [] <==> NonSpaces(page.bodyInnerText) == []
    ensures NonSpaces(page.bodyInnerText) != [] ==>
              PageText(page) == Prefix(DropNetworkPhrases(CollapseSpaces(Trim(page.bodyInnerText))), MaxContent)
  {
    TrimEmptyIffBlank(page.bodyInnerText);
    CollapseEmptyIff(Trim(page.bodyInnerText));
  }

  /** innerText made of two words around a run of white space becomes the two words and one ' '. */
  lemma InnerTextCollapsesRun(page: Page, a: string, w: string, b: string)
    requires page.bodyInnerText == a + w + b
    requires a != [] && !IsSpace(a[0]) && !IsSpace(a[|a| - 1])
    requires w != [] && forall i :: 0 <= i < |w| ==> IsSpace(w[i])
    requires b != [] && !IsSpace(b[0]) && !IsSpace(b[|b| - 1])
    ensures InnerText(page) == CollapseSpaces(a) + " " + CollapseSpaces(b)
  {
    var s := a + w + b;
    assert s[0] == a[0] && s[|s| - 1] == b[|b| - 1];
    TrimOfTrimmed(s);
    CollapseRun(a, w, b);
  }

  lemma TrimEmptyIffBlank(s: string)
    ensures Trim(s) == [] <==> NonSpaces(s) == []
  {
    var t := Trim(s);
    TrimKeepsNonSpaces(s);
    if t != [] {
      assert NonSpaces(t) == [t[0]] + NonSpaces(t[1..]);
    }
  }

  lemma CollapseEmptyIff(s: string)
    ensures CollapseSpaces(s) == [] <==> s == []
  {
  }

  /** Without phrases to drop and under 2000 characters, the page title is passed on unchanged when nothing else is found. */
  lemma TitleFallback(page: Page)
    requires !IsMeet(page) && InnerText(page) == [] && WalkResult(page) == [] && page.documentTitle != []
    requires !OccursIn(page.documentTitle, NetworkPhrase) && !OccursIn(page.documentTitle, ConnectionPhrase)
    requires |page.documentTitle| <= MaxContent
    ensures PageText(page) == page.documentTitle
  {
  }

  /** The last resort is the hostname, filtered and cut like any other source. */
  lemma HostnameFallback(page: Page)
    requires !IsMeet(page) && InnerText(page) == [] && WalkResult(page) == [] && page.documentTitle == []
    ensures PageText(page) == Prefix(DropNetworkPhrases(page.hostname), MaxContent)
  {
  }
}
