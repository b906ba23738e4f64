/**
 * One run of processActivity, the tracking tick of the background worker,
 * as a function of the worker's state before the tick and of what the
 * browser, the classifier and the server answer during it.
 */
module Sampler {
  import opened Options
  import opened JsText
  import opened BackgroundText
  import opened Dedup
  import opened Screenshot

  /** The tick period, and the least time between two successful submissions. */
  const UpdateIntervalMs := 300000
  /** Entries younger than this survive the cleanup after a successful cycle. */
  const RetentionMs := 3600000
  const TickSeconds := 180
  const MaxClassifyText := 5000
  const MaxStoredText := 2000
  const DefaultActivityType := "Studying"
  const DefaultScore: real := 0.9

  /** The tab captured when tracking started (an absent title or url reads as ""). */
  datatype Tab = Tab(id: int, url: string, title: string, active: bool, status: string)

  /** The body POSTed to /api/classify. */
  datatype ClassifyRequest = ClassifyRequest(text: string, imageBase64: string, url: string)

  /** The JSON reply of /api/classify (its `label` field is `verdict` here); an absent field reads as None. */
  datatype ClassifyReply = ClassifyReply(verdict: string, activityType: Option<string>, score: Option<real>)

  /**
   * What the outside world answers during one tick: the clock, the stored
   * token, chrome.idle.queryState, the URL parser's hostname (or the error
   * it throws), the content script's text, captureScreenshot's result, the
   * classifier, and whether the server acknowledges each time update.
   */
  datatype TickEnv = TickEnv(
    now: nat,
    token: Option<string>,
    idleState: string,
    hostname: Result<string>,
    pageContent: string,
    screenshot: ScreenshotResult,
    classify: ClassifyRequest -> Result<ClassifyReply>,
    updateAcknowledged: BufferedActivity -> bool)

  /** Where the tick stopped. */
  datatype TickStage = RateLimited | NoToken | NotActive | Failed | Submitted

  datatype TickOutcome = TickOutcome(
    buffer: seq<BufferedActivity>,
    lastUpdateTime: int,
    acknowledged: seq<BufferedActivity>,
    stage: TickStage)

  predicate Truthy(s: string) {
    s != ""
  }

  /** `content || tab.title || tab.url || hostname || 'Unknown'`. */
  function FinalContent(content: string, tab: Tab, hostname: string): (c: string)
    ensures c != ""
    ensures Truthy(content) ==> c == content
    ensures !Truthy(content) && Truthy(tab.title) ==> c == tab.title
    ensures !Truthy(content) && !Truthy(tab.title) && Truthy(tab.url) ==> c == tab.url
    ensures !Truthy(content) && !Truthy(tab.title) && !Truthy(tab.url) && Truthy(hostname) ==> c == hostname
    ensures !Truthy(content) && !Truthy(tab.title) && !Truthy(tab.url) && !Truthy(hostname) ==> c == "Unknown"
  {
    if Truthy(content) then content
    else if Truthy(tab.title) then tab.title
    else if Truthy(tab.url) then tab.url
    else if Truthy(hostname) then hostname
    else "Unknown"
  }

  /** `imageBase64 || ''`. */
  function ImageOrEmpty(shot: ScreenshotResult): string {
    match shot.imageBase64
    case Some(image) => image
    case None => ""
  }

  /** `classifyData.activityType || 'Studying'`. */
  function ActivityTypeOf(reply: ClassifyReply): (t: string)
    ensures t != ""
    ensures reply.activityType.Some? && reply.activityType.value != "" ==> t == reply.activityType.value
  {
    match reply.activityType
    case Some(t) => if t != "" then t else DefaultActivityType
    case None => DefaultActivityType
  }

  /** `classifyData.score || 0.9`: an absent or zero score becomes 0.9. */
  function ScoreOf(reply: ClassifyReply): (s: real)
    ensures s != 0.0
    ensures reply.score.Some? && reply.score.value != 0.0 ==> s == reply.score.value
  {
    match reply.score
    case Some(s) => if s != 0.0 then s else DefaultScore
    case None => DefaultScore
  }

  /** The record pushed into activityBuffer after a successful classification. */
  function BuildRecord(tab: Tab, now: nat, text: string, shot: ScreenshotResult, reply: ClassifyReply): (r: BufferedActivity)
    ensures r.seconds == TickSeconds
    ensures r.isProductive <==> reply.verdict == "productive"
    ensures r.activityType != "" && (reply.activityType.Some? && reply.activityType.value != "" ==> r.activityType == reply.activityType.value)
    ensures reply.activityType.None? || reply.activityType == Some("") ==> r.activityType == DefaultActivityType
    ensures |r.text| <= MaxStoredText && StartsWith(text, r.text)
    ensures reply.score.None? || reply.score == Some(0.0) ==> r.score == DefaultScore
    ensures r.url == tab.url && r.timestamp == now
  {
    BufferedActivity(
      seconds := TickSeconds,
      isProductive := reply.verdict == "productive",
      activityType := ActivityTypeOf(reply),
      url := tab.url,
      text := Prefix(text, MaxStoredText),
      imageBase64 := ImageOrEmpty(shot),
      score := ScoreOf(reply),
      timestamp := now)
  }

  predicate Recent(a: BufferedActivity, now: int) {
    now - a.timestamp < RetentionMs
  }

  /** `activityBuffer.filter(a => now - a.timestamp < 3600000)`. */
  function Retain(buffer: seq<BufferedActivity>, now: int): (r: seq<BufferedActivity>)
    ensures |r| <= |buffer|
    ensures forall a :: a in r <==> a in buffer && Recent(a, now)
    ensures (forall i :: 0 <= i < |buffer| ==> Recent(buffer[i], now)) ==> r == buffer
  {
    if buffer == [] then []
    else
      var tail := buffer[1..];
      var rest := Retain(tail, now);
      assert buffer == [buffer[0]] + tail;
      assert (forall i :: 0 <= i < |buffer| ==> Recent(buffer[i], now)) ==>
             (forall i :: 0 <= i < |tail| ==> Recent(tail[i], now)) by {
        if forall i :: 0 <= i < |buffer| ==> Recent(buffer[i], now) {
          forall i | 0 <= i < |tail| ensures Recent(tail[i], now) {
            assert tail[i] == buffer[i + 1];
          }
        }
      }
      (if Recent(buffer[0], now) then [buffer[0]] else []) + rest
  }

  /** `filter` keeps the buffer's order: the cleanup of a concatenation is the concatenation of the cleanups. */
  lemma {:induction false} RetainAppend(a: seq<BufferedActivity>, b: seq<BufferedActivity>, now: int)
    ensures Retain(a + b, now) == Retain(a, now) + Retain(b, now)
    decreases |a|
  {
    if a == [] {
      assert a + b == b;
    } else {
      assert (a + b)[0] == a[0];
      assert (a + b)[1..] == a[1..] + b;
      RetainAppend(a[1..], b, now);
    }
  }

  /** The for-loop of POSTs: the entries acknowledged before the first failure. */
  function Acknowledged(ds: seq<BufferedActivity>, ok: BufferedActivity -> bool): (r: seq<BufferedActivity>)
    ensures |r| <= |ds| && r == ds[..|r|]
    ensures forall i :: 0 <= i < |r| ==> ok(ds[i])
    ensures |r| < |ds| ==> !ok(ds[|r|])
    ensures |r| == |ds| <==> forall a :: a in ds ==> ok(a)
  {
    if ds == [] || !ok(ds[0]) then [] else [ds[0]] + Acknowledged(ds[1..], ok)
  }

  predicate Unchanged(o: TickOutcome, buffer: seq<BufferedActivity>, last: int) {
    o.buffer == buffer && o.lastUpdateTime == last && o.acknowledged == []
  }

  /** The record a tick would push, when it gets that far. */
  function TickRecord(tab: Tab, host: string, env: TickEnv, reply: ClassifyReply): BufferedActivity {
    var text := PreprocessText(FinalContent(env.pageContent, tab, host), host);
    BuildRecord(tab, env.now, text, env.screenshot, reply)
  }

  function ClassifyRequestOf(tab: Tab, host: string, env: TickEnv): (q: ClassifyRequest)
  {
    var text := PreprocessText(FinalContent(env.pageContent, tab, host), host);
    ClassifyRequest(Prefix(text, MaxClassifyText), ImageOrEmpty(env.screenshot), tab.url)
  }

  /** The classify body carries at most 5000 characters of text, the screenshot or '', and the tab's URL. */
  lemma ClassifyRequestShape(tab: Tab, host: string, env: TickEnv)
    ensures var q := ClassifyRequestOf(tab, host, env);
            && |q.text| <= MaxClassifyText && q.url == tab.url
            && (env.screenshot.imageBase64.None? ==> q.imageBase64 == "")
            && (env.screenshot.imageBase64.Some? ==> q.imageBase64 == env.screenshot.imageBase64.value)
  {
  }

  /** The gates of the tick, in the order the source checks them. */
  predicate GatesPass(last: int, env: TickEnv) {
    && env.now - last >= UpdateIntervalMs
    && env.token.Some? && env.token.value != ""
    && env.idleState == "active"
  }

  /**
   * processActivity. The clock moves only on a full success, and then to
   * `now`; a tick stopped by a gate changes nothing.
   */
  function Tick(buffer: seq<BufferedActivity>, last: int, tab: Tab, env: TickEnv): (o: TickOutcome)
    ensures o.stage == Submitted ==> GatesPass(last, env) && o.lastUpdateTime == env.now
    ensures o.stage != Submitted ==> o.lastUpdateTime == last
    ensures !GatesPass(last, env) ==> o.buffer == buffer && o.acknowledged == []
    ensures |o.buffer| <= |buffer| + 1
  {
    if env.now - last < UpdateIntervalMs then TickOutcome(buffer, last, [], RateLimited)
    else if env.token.None? || env.token.value == "" then TickOutcome(buffer, last, [], NoToken)
    else if env.idleState != "active" then TickOutcome(buffer, last, [], NotActive)
    else if env.hostname.Thrown? then TickOutcome(buffer, last, [], Failed)
    else Classified(buffer, last, tab, env.hostname.value, env)
  }

  /** The tick once the hostname is known: classify, then push and submit. */
  function Classified(buffer: seq<BufferedActivity>, last: int, tab: Tab, host: string, env: TickEnv): (o: TickOutcome)
    ensures o.stage == Submitted || o.stage == Failed
    ensures o.stage == Submitted ==> o.lastUpdateTime == env.now
    ensures o.stage == Failed ==> o.lastUpdateTime == last
    ensures |o.buffer| <= |buffer| + 1
  {
    var reply := env.classify(ClassifyRequestOf(tab, host, env));
    if reply.Thrown? then TickOutcome(buffer, last, [], Failed)
    else Submit(buffer, last, TickRecord(tab, host, env, reply.value), env.now, env.updateAcknowledged)
  }

  /** Push the record, POST the deduplicated buffer, and clean up only when every POST succeeded. */
  function Submit(buffer: seq<BufferedActivity>, last: int, r: BufferedActivity, now: nat,
                  ok: BufferedActivity -> bool): (o: TickOutcome)
    ensures o.stage == Submitted || o.stage == Failed
    ensures o.acknowledged <= Dedup.Dedup(buffer + [r])
    ensures o.stage == Submitted ==> o.lastUpdateTime == now && o.acknowledged == Dedup.Dedup(buffer + [r])
                                     && o.buffer == Retain(buffer + [r], now)
    ensures o.stage == Failed ==> o.lastUpdateTime == last && o.buffer == buffer + [r]
    ensures |o.buffer| <= |buffer| + 1
  {
    var pushed := buffer + [r];
    var deduped := Dedup.Dedup(pushed);
    var acked := Acknowledged(deduped, ok);
    if |acked| == |deduped| then TickOutcome(Retain(pushed, now), now, acked, Submitted)
    else TickOutcome(pushed, last, acked, Failed)
  }

  /** Inside the five-minute window, without a token, or when the system is not active, nothing changes. */
  lemma TickGatesChangeNothing(buffer: seq<BufferedActivity>, last: int, tab: Tab, env: TickEnv)
    requires !GatesPass(last, env)
    ensures Unchanged(Tick(buffer, last, tab, env), buffer, last)
    ensures Tick(buffer, last, tab, env).stage != Submitted
  {
  }

  /** Past the gates, with a hostname and a classification, the tick pushes the record and submits. */
  lemma TickSubmitsRecord(buffer: seq<BufferedActivity>, last: int, tab: Tab, env: TickEnv, host: string, reply: ClassifyReply)
    requires GatesPass(last, env) && env.hostname == Ok(host)
    requires env.classify(ClassifyRequestOf(tab, host, env)) == Ok(reply)
    ensures Tick(buffer, last, tab, env) == Submit(buffer, last, TickRecord(tab, host, env, reply), env.now, env.updateAcknowledged)
  {
    assert Tick(buffer, last, tab, env) == Classified(buffer, last, tab, host, env);
  }

  /** A tick that fails to parse the URL or to classify leaves the state as it was. */
  lemma TickClassifyFailureChangesNothing(buffer: seq<BufferedActivity>, last: int, tab: Tab, env: TickEnv)
    requires GatesPass(last, env)
    requires env.hostname.Thrown? || env.classify(ClassifyRequestOf(tab, env.hostname.value, env)).Thrown?
    ensures Unchanged(Tick(buffer, last, tab, env), buffer, last)
    ensures Tick(buffer, last, tab, env).stage == Failed
  {
  }

  /**
   * A successful cycle: every deduplicated entry was acknowledged, the
   * clock moved to `now`, and the buffer keeps exactly the entries of the
   * last hour, the one just pushed among them.
   */
  lemma SubmitSucceeded(buffer: seq<BufferedActivity>, last: int, r: BufferedActivity, now: nat, ok: BufferedActivity -> bool)
    requires r.timestamp == now
    requires forall a :: a in Dedup.Dedup(buffer + [r]) ==> ok(a)
    ensures var o := Submit(buffer, last, r, now, ok);
            && o.stage == Submitted
            && o.lastUpdateTime == now
            && o.acknowledged == Dedup.Dedup(buffer + [r])
            && o.buffer == Retain(buffer + [r], now) == Retain(buffer, now) + [r]
            && r in o.buffer
            && (forall a :: a in o.buffer <==> (a in buffer + [r] && Recent(a, now)))
  {
    assert r in buffer + [r];
    assert Recent(r, now);
    RetainAppend(buffer, [r], now);
    assert Retain([r], now) == [r];
  }

  /** A failed time update: the pushed entry stays buffered and the clock is not advanced. */
  lemma SubmitFailureKeepsRecord(buffer: seq<BufferedActivity>, last: int, r: BufferedActivity, now: nat, ok: BufferedActivity -> bool)
    requires exists a :: a in Dedup.Dedup(buffer + [r]) && !ok(a)
    ensures var o := Submit(buffer, last, r, now, ok);
            o.stage == Failed && o.buffer == buffer + [r] && o.lastUpdateTime == last
  {
  }

  /**
   * Entries are posted again: an entry that survived the last cleanup and
   * still wins its key is acknowledged again by the next successful cycle
   * whose new record has another key.
   */
  lemma SubmitRepostsSurvivors(buffer: seq<BufferedActivity>, last: int, r: BufferedActivity, now: nat,
                              ok: BufferedActivity -> bool, e: BufferedActivity)
    requires e in Dedup.Dedup(buffer)
    requires DedupKey(e) != DedupKey(r)
    requires Submit(buffer, last, r, now, ok).stage == Submitted
    ensures e in Submit(buffer, last, r, now, ok).acknowledged
  {
    DedupAppendKeeps(buffer, e, r);
  }

  /** Acknowledged is the prefix before the first refused POST. */
  lemma {:induction false} AcknowledgedIsPrefixBeforeFailure(ds: seq<BufferedActivity>, ok: BufferedActivity -> bool, i: nat)
    requires i <= |ds|
    requires forall j :: 0 <= j < i ==> ok(ds[j])
    requires i < |ds| ==> !ok(ds[i])
    ensures Acknowledged(ds, ok) == ds[..i]
  {
    if i > 0 {
      AcknowledgedIsPrefixBeforeFailure(ds[1..], ok, i - 1);
      assert ds[1..][..i - 1] == ds[1..i];
      assert ds[..i] == [ds[0]] + ds[1..i];
    }
  }

  /**
   * The submission as written: deduplicateActivities throws, the catch
   * block swallows the error, and no POST is made.
   */
  function SubmitAsWritten(buffer: seq<BufferedActivity>, last: int, r: BufferedActivity, now: nat): (o: TickOutcome)
    ensures o.stage == Submitted || o.stage == Failed
    ensures o.stage == Submitted ==> o.lastUpdateTime == now
    ensures o.stage == Failed ==> o.lastUpdateTime == last && o.buffer == buffer + [r] && o.acknowledged == []
  {
    var pushed := buffer + [r];
    match DedupAsWritten(pushed)
    case Thrown(_) => TickOutcome(pushed, last, [], Failed)
    case Ok(deduped) => TickOutcome(Retain(pushed, now), now, deduped, Submitted)
  }

  /**
   * As written, a tick that reaches the submission never submits: nothing
   * is posted, the buffer only grows and the clock never advances, so
   * every later tick classifies again.
   */
  lemma SubmitAsWrittenNeverSubmits(buffer: seq<BufferedActivity>, last: int, r: BufferedActivity, now: nat)
    ensures var o := SubmitAsWritten(buffer, last, r, now);
            o.stage == Failed && o.acknowledged == [] && o.buffer == buffer + [r] && |o.buffer| == |buffer| + 1
            && o.lastUpdateTime == last
  {
  }
}
