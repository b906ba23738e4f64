/**
 * captureScreenshot: the bounded retry loop around the browser's
 * captureVisibleTab. The browser calls are inputs: the tab lookup, the
 * outcome of activating the tab, and the outcome of each capture attempt.
 * The sleeps it would make are returned, in order, as `delays` (ms).
 */
module Screenshot {
  import opened Options
  import opened JsText
  import opened BackgroundText

  /** What chrome.tabs.get reports about the tab. */
  datatype TabState = TabState(url: string, status: string)

  /** One call of captureVisibleTab: a data URL, or a rejection with its message. */
  datatype Capture = Captured(dataUrl: string) | CaptureFailed(message: string)

  /** `{ imageBase64, error }` as returned to the tick. */
  datatype ScreenshotResult = ScreenshotResult(imageBase64: Option<string>, error: Option<string>)

  const MaxAttempts := 3
  const BackoffStepMs := 2000
  const NotReadyDelayMs := 2000
  const MeetDelayMs := 5000
  const InvalidUrlError := "Invalid URL"

  /** The waits after failed attempts 1..n: 2000 ms, 4000 ms, ... */
  function Backoff(n: nat): (ds: seq<nat>)
    ensures |ds| == n
    ensures forall i :: 0 <= i < n ==> ds[i] == BackoffStepMs * (i + 1)
  {
    if n == 0 then [] else Backoff(n - 1) + [BackoffStepMs * n]
  }

  /** The waits before the first attempt: a loading tab, then a Google Meet tab. */
  function Prelude(tab: TabState): seq<nat> {
    (if tab.status != "complete" then [NotReadyDelayMs] else [])
    + (if Includes(tab.url, "meet.google.com") then [MeetDelayMs] else [])
  }

  method CaptureScreenshot(lookup: Result<TabState>, activation: Option<string>, capture: nat -> Capture)
    returns (result: ScreenshotResult, attempts: nat, delays: seq<nat>)
    ensures attempts <= MaxAttempts
    ensures lookup.Thrown? ==> attempts == 0 && delays == [] && result == ScreenshotResult(None, Some(lookup.error))
    ensures lookup.Ok? && !IsValidUrl(lookup.value.url) ==>
              attempts == 0 && delays == [] && result == ScreenshotResult(None, Some(InvalidUrlError))
    ensures lookup.Ok? && IsValidUrl(lookup.value.url) && activation.Some? ==>
              && attempts == 0 && result == ScreenshotResult(None, activation)
              && delays == (if lookup.value.status != "complete" then [NotReadyDelayMs] else [])
    ensures attempts > 0 ==> lookup.Ok? && IsValidUrl(lookup.value.url) && activation.None?
    ensures lookup.Ok? && IsValidUrl(lookup.value.url) && activation.None? ==>
              && attempts >= 1
              && delays == Prelude(lookup.value) + Backoff(attempts - 1)
              && (forall k :: 1 <= k < attempts ==> capture(k).CaptureFailed?)
              && (result.imageBase64.Some? <==> capture(attempts).Captured?)
              && (capture(attempts).Captured? ==>
                    result == ScreenshotResult(Some(capture(attempts).dataUrl), None))
              && (capture(attempts).CaptureFailed? ==>
                    attempts == MaxAttempts && result == ScreenshotResult(None, Some(capture(attempts).message)))
  {
    attempts, delays := 0, [];
    if lookup.Thrown? {
      return ScreenshotResult(None, Some(lookup.error)), attempts, delays;
    }
    var tab := lookup.value;
    if !IsValidUrl(tab.url) {
      return ScreenshotResult(None, Some(InvalidUrlError)), attempts, delays;
    }
    if tab.status != "complete" {
      delays := delays + [NotReadyDelayMs];
    }
    if activation.Some? {
      return ScreenshotResult(None, activation), attempts, delays;
    }
    if Includes(tab.url, "meet.google.com") {
      delays := delays + [MeetDelayMs];
    }
    assert delays == Prelude(tab);
    var waits;
    result, attempts, waits := RetryCapture(capture);
    delays := delays + waits;
  }

  /** The `while (attempts < maxAttempts)` loop: capture, and back off 2000 * attempts ms after a failure that is not the last. */
  method RetryCapture(capture: nat -> Capture) returns (result: ScreenshotResult, attempts: nat, delays: seq<nat>)
    ensures 1 <= attempts <= MaxAttempts
    ensures delays == Backoff(attempts - 1)
    ensures forall k :: 1 <= k < attempts ==> capture(k).CaptureFailed?
    ensures result.imageBase64.Some? <==> capture(attempts).Captured?
    ensures capture(attempts).Captured? ==> result == ScreenshotResult(Some(capture(attempts).dataUrl), None)
    ensures capture(attempts).CaptureFailed? ==>
              attempts == MaxAttempts && result == ScreenshotResult(None, Some(capture(attempts).message))
  {
    attempts, delays := 0, [];
    result := ScreenshotResult(None, None);
    var done := false;
    while attempts < MaxAttempts && !done
      invariant 0 <= attempts <= MaxAttempts
      invariant forall k :: 1 <= k < attempts ==> capture(k).CaptureFailed?
      invariant !done ==> attempts < MaxAttempts && delays == Backoff(attempts)
      invariant !done ==> attempts == 0 || capture(attempts).CaptureFailed?
      invariant done ==> attempts >= 1 && delays == Backoff(attempts - 1)
      invariant done && capture(attempts).Captured? ==>
                  result == ScreenshotResult(Some(capture(attempts).dataUrl), None)
      invariant done && capture(attempts).CaptureFailed? ==>
                  attempts == MaxAttempts && result == ScreenshotResult(None, Some(capture(attempts).message))
    {
      attempts := attempts + 1;
      match capture(attempts) {
        case Captured(dataUrl) =>
          result := ScreenshotResult(Some(dataUrl), None);
          done := true;
        case CaptureFailed(message) =>
          if attempts == MaxAttempts {
            result := ScreenshotResult(None, Some(message));
            done := true;
          } else {
            delays := delays + [BackoffStepMs * attempts];
          }
      }
    }
  }
}
