/** The pure helpers of the extension's background worker: URL admission and text preparation. */
module BackgroundText {
  import opened JsText

  const HttpScheme := "http://"
  const HttpsScheme := "https://"
  const ChromeScheme := "chrome://"
  const DevtoolsScheme := "devtools://"

  /** Longest text kept after white-space collapsing, before phrases are removed. */
  const MaxPreparedText := 5000

  const NetworkPhrase := "paused due to problems with your network"
  const ConnectionPhrase := "connection issue"

  const YoutubePrefix := "Potential study content: "
  const MeetPrefix := "Meeting activity: "
  const ChessPrefix := "Gaming activity: "

  /**
   * isValidUrl: a non-empty URL with an http or https scheme that is not an
   * internal chrome:// or devtools:// page (an absent URL reads as "").
   */
  predicate IsValidUrl(url: string): (b: bool)
    ensures b ==> |url| >= |HttpScheme| && url[..4] == "http"
  {
    && url != ""
    && (StartsWith(url, HttpScheme) || StartsWith(url, HttpsScheme))
    && !StartsWith(url, ChromeScheme)
    && !StartsWith(url, DevtoolsScheme)
  }

  /** The internal-scheme tests never reject anything the http/https test admitted. */
  lemma ValidUrlIsHttpOrHttps(url: string)
    ensures IsValidUrl(url) <==> (StartsWith(url, HttpScheme) || StartsWith(url, HttpsScheme))
  {
    if StartsWith(url, HttpScheme) || StartsWith(url, HttpsScheme) {
      assert url[0] == 'h';
    }
  }

  /** The label put before the text for the sites the classifier is nudged on; youtube first, then meet, then chess. */
  function TopicPrefix(hostname: string): (p: string)
    ensures Includes(hostname, "youtube.com") ==> p == YoutubePrefix
    ensures !Includes(hostname, "youtube.com") && Includes(hostname, "meet.google.com") ==> p == MeetPrefix
    ensures (!Includes(hostname, "youtube.com") && !Includes(hostname, "meet.google.com")
             && Includes(hostname, "chess.com")) ==> p == ChessPrefix
    ensures (!Includes(hostname, "youtube.com") && !Includes(hostname, "meet.google.com")
             && !Includes(hostname, "chess.com")) ==> p == ""
  {
    if Includes(hostname, "youtube.com") then YoutubePrefix
    else if Includes(hostname, "meet.google.com") then MeetPrefix
    else if Includes(hostname, "chess.com") then ChessPrefix
    else ""
  }

  /** The text after collapsing, trimming and cutting, before the phrase filters. */
  function CutText(content: string): (t: string)
    ensures |t| <= MaxPreparedText
    ensures NoSpaceRuns(t)
    ensures t == [] || !IsSpace(t[0])
  {
    var c := CollapseSpaces(content);
    var tr := Trim(c);
    TrimIsInfix(c);
    var k :| 0 <= k <= |c| && StartsWith(c[k..], tr);
    NoSpaceRunsInfix(c, k, tr);
    Prefix(tr, MaxPreparedText)
  }

  /** Two words around a run of white space come out joined by exactly one ' '. */
  lemma CutTextCollapsesRun(a: string, w: string, b: string)
    requires a != [] && !IsSpace(a[0]) && !IsSpace(a[|a| - 1])
    requires w != [] && forall i :: 0 <= i < |w| ==> IsSpace(w[i])
    requires b != [] && !IsSpace(b[0]) && !IsSpace(b[|b| - 1])
    requires |a| + 1 + |b| <= MaxPreparedText
    ensures CutText(a + w + b) == CollapseSpaces(a) + " " + CollapseSpaces(b)
  {
    CollapseRun(a, w, b);
    var c := CollapseSpaces(a) + " " + CollapseSpaces(b);
    assert c[0] == CollapseSpaces(a)[0] && c[|c| - 1] == CollapseSpaces(b)[|CollapseSpaces(b)| - 1];
    TrimOfTrimmed(c);
  }

  lemma NoSpaceRunsInfix(c: string, k: nat, t: string)
    requires k <= |c| && StartsWith(c[k..], t) && NoSpaceRuns(c)
    ensures NoSpaceRuns(t)
  {
    forall i | 0 <= i < |t| - 1 ensures !(IsSpace(t[i]) && IsSpace(t[i + 1])) {
      assert t[i] == c[k + i] && t[i + 1] == c[k + i + 1];
    }
  }

  /** The two `replace(/…/gi, '')` filters shared by the worker and the content script. */
  function DropNetworkPhrases(s: string): (r: string)
    ensures |r| <= |s|
    ensures !OccursIn(s, NetworkPhrase) && !OccursIn(s, ConnectionPhrase) ==> r == s
    ensures OccursIn(s, NetworkPhrase) ==> |r| <= |s| - |NetworkPhrase|
    ensures !OccursIn(s, NetworkPhrase) && OccursIn(s, ConnectionPhrase) ==> |r| <= |s| - |ConnectionPhrase|
  {
    RemoveAll(RemoveAll(s, NetworkPhrase), ConnectionPhrase)
  }

  /**
   * The network filter is global: the leftmost occurrence goes, and the
   * filter goes on in what follows; the connection filter then changes
   * nothing when its phrase is absent.
   */
  lemma DropNetworkPhrasesLeftmost(a: string, q: string, b: string)
    requires |q| == |NetworkPhrase| && MatchesAtStart(q, NetworkPhrase)
    requires forall i :: 0 <= i < |a| ==> !MatchesAtStart((a + q + b)[i..], NetworkPhrase)
    requires !OccursIn(a + RemoveAll(b, NetworkPhrase), ConnectionPhrase)
    ensures DropNetworkPhrases(a + q + b) == a + RemoveAll(b, NetworkPhrase)
  {
    RemoveAllLeftmost(a, q, b, NetworkPhrase);
  }

  /** preprocessText: collapse, trim, cut to 5000 characters, drop the two network phrases, then add a site label. */
  function PreprocessText(content: string, hostname: string): (r: string)
    ensures |r| <= MaxPreparedText + |TopicPrefix(hostname)|
    ensures StartsWith(r, TopicPrefix(hostname))
  {
    TopicPrefix(hostname) + DropNetworkPhrases(CutText(content))
  }

  /** Prefix-free contents are only collapsed, trimmed and cut: no run of spaces survives, nothing else is lost. */
  lemma PreprocessWithoutPhrases(content: string, hostname: string)
    requires !OccursIn(CutText(content), NetworkPhrase)
    requires !OccursIn(CutText(content), ConnectionPhrase)
    ensures PreprocessText(content, hostname) == TopicPrefix(hostname) + CutText(content)
    ensures NoSpaceRuns(PreprocessText(content, hostname)[|TopicPrefix(hostname)|..])
  {
    var r := PreprocessText(content, hostname);
    assert r[|TopicPrefix(hostname)|..] == CutText(content);
  }
}
