/**
 * The background worker's module-level state and its event listeners, as
 * a class whose methods are the listeners. Each listener runs to
 * completion before the next event is handled.
 */
module Tracker {
  import opened Options
  import opened JsText
  import opened BackgroundText
  import opened Dedup
  import opened Sampler

  /** A chrome.storage.onChanged entry for isExtensionEnabled; None is an absent newValue. */
  datatype StorageChange = StorageChange(newValue: Option<bool>)

  /**
   * The guard of the idle listener's resume branch as written:
   * getActiveTabUrl() returns a Promise, so once the extension is enabled
   * isValidUrl calls startsWith on it and throws; the branch never starts
   * tracking.
   */
  function IdleResumeGuard(enabled: bool): (r: Result<bool>)
    ensures enabled <==> r.Thrown?
    ensures r != Ok(true)
  {
    if enabled then Thrown("TypeError: url.startsWith is not a function") else Ok(false)
  }

  class Tracker {
    var intervalId: Option<nat>
    var isTracking: bool
    var lastUpdateTime: int
    var activityBuffer: seq<BufferedActivity>
    var isExtensionEnabled: bool
    /** chrome.storage.local's isExtensionEnabled entry. */
    var storedEnabled: Option<bool>
    /** The tab captured by the running interval's processActivity closure. */
    var trackedTab: Option<Tab>
    /** Interval timers registered and not yet cleared. */
    var liveTimers: set<nat>
    /** The id the next setInterval call returns. */
    var nextTimerId: nat

    /**
     * At most one interval runs and intervalId names it; a running
     * interval has a tab to sample and was started while enabled.
     */
    predicate Valid()
      reads this
    {
      TimersValid() && (intervalId.Some? ==> isExtensionEnabled)
    }

    /** The part of Valid that does not depend on the enabled flag. */
    predicate TimersValid()
      reads this
    {
      && (intervalId.None? ==> liveTimers == {} && trackedTab.None?)
      && (intervalId.Some? ==>
            liveTimers == {intervalId.value} && intervalId.value < nextTimerId
            && trackedTab.Some? && isTracking)
    }

    /**
     * The worker's state when the script is loaded: the globals take their
     * initial values, while chrome.storage.local keeps the entry `stored`
     * from before the load.
     */
    constructor (stored: Option<bool>)
      ensures Valid()
      ensures intervalId == None && !isTracking && lastUpdateTime == 0 && activityBuffer == []
      ensures isExtensionEnabled && storedEnabled == stored && liveTimers == {} && trackedTab == None
    {
      intervalId := None;
      isTracking := false;
      lastUpdateTime := 0;
      activityBuffer := [];
      isExtensionEnabled := true;
      storedEnabled := stored;
      trackedTab := None;
      liveTimers := {};
      nextTimerId := 0;
    }

    /** clearTrackingInterval: stop the running interval, if any; a second call changes nothing. */
    method ClearTrackingInterval()
      requires TimersValid()
      modifies this
      ensures Valid()
      ensures intervalId == None && liveTimers == {} && trackedTab == None
      ensures old(intervalId).None? ==> liveTimers == old(liveTimers) && trackedTab == old(trackedTab)
      ensures isTracking == old(isTracking) && lastUpdateTime == old(lastUpdateTime)
      ensures activityBuffer == old(activityBuffer) && isExtensionEnabled == old(isExtensionEnabled)
      ensures storedEnabled == old(storedEnabled) && nextTimerId == old(nextTimerId)
    {
      if intervalId.Some? {
        liveTimers := liveTimers - {intervalId.value};
        intervalId := None;
        trackedTab := None;
      }
    }

    /** processActivity for `tab`, with the answers of the outside world in `env`. */
    method ProcessActivity(tab: Tab, env: TickEnv) returns (acknowledged: seq<BufferedActivity>, stage: TickStage)
      modifies this
      ensures var o := Tick(old(activityBuffer), old(lastUpdateTime), tab, env);
              activityBuffer == o.buffer && lastUpdateTime == o.lastUpdateTime
              && acknowledged == o.acknowledged && stage == o.stage
      ensures intervalId == old(intervalId) && isTracking == old(isTracking)
      ensures isExtensionEnabled == old(isExtensionEnabled) && storedEnabled == old(storedEnabled)
      ensures trackedTab == old(trackedTab) && liveTimers == old(liveTimers) && nextTimerId == old(nextTimerId)
    {
      acknowledged := [];
      if env.now - lastUpdateTime < UpdateIntervalMs {
        TickGatesChangeNothing(activityBuffer, lastUpdateTime, tab, env);
        return [], RateLimited;
      }
      if env.token.None? || env.token.value == "" {
        TickGatesChangeNothing(activityBuffer, lastUpdateTime, tab, env);
        return [], NoToken;
      }
      if env.idleState != "active" {
        TickGatesChangeNothing(activityBuffer, lastUpdateTime, tab, env);
        return [], NotActive;
      }
      if env.hostname.Thrown? {
        TickClassifyFailureChangesNothing(activityBuffer, lastUpdateTime, tab, env);
        return [], Failed;
      }
      var host := env.hostname.value;
      var finalContent := FinalContent(env.pageContent, tab, host);
      finalContent := PreprocessText(finalContent, host);
      var request := ClassifyRequest(Prefix(finalContent, MaxClassifyText), ImageOrEmpty(env.screenshot), tab.url);
      assert request == ClassifyRequestOf(tab, host, env);
      var reply := env.classify(request);
      if reply.Thrown? {
        TickClassifyFailureChangesNothing(activityBuffer, lastUpdateTime, tab, env);
        return [], Failed;
      }
      var record := BuildRecord(tab, env.now, finalContent, env.screenshot, reply.value);
      assert record == TickRecord(tab, host, env, reply.value);
      TickSubmitsRecord(activityBuffer, lastUpdateTime, tab, env, host, reply.value);
      acknowledged, stage := SubmitRecord(record, env.now, env.updateAcknowledged);
    }

    /** Push the record, POST the deduplicated buffer in order until one fails, and clean up after a full success. */
    method SubmitRecord(record: BufferedActivity, now: nat, ok: BufferedActivity -> bool)
      returns (acknowledged: seq<BufferedActivity>, stage: TickStage)
      modifies this
      ensures var o := Submit(old(activityBuffer), old(lastUpdateTime), record, now, ok);
              activityBuffer == o.buffer && lastUpdateTime == o.lastUpdateTime
              && acknowledged == o.acknowledged && stage == o.stage
      ensures intervalId == old(intervalId) && isTracking == old(isTracking)
      ensures isExtensionEnabled == old(isExtensionEnabled) && storedEnabled == old(storedEnabled)
      ensures trackedTab == old(trackedTab) && liveTimers == old(liveTimers) && nextTimerId == old(nextTimerId)
    {
      activityBuffer := activityBuffer + [record];
      var deduped := Deduplicate(activityBuffer);
      acknowledged := [];
      var i := 0;
      while i < |deduped|
        invariant 0 <= i <= |deduped|
        invariant acknowledged == deduped[..i]
        invariant forall j :: 0 <= j < i ==> ok(deduped[j])
      {
        if !ok(deduped[i]) {
          AcknowledgedIsPrefixBeforeFailure(deduped, ok, i);
          return acknowledged, Failed;
        }
        acknowledged := acknowledged + [deduped[i]];
        i := i + 1;
      }
      AcknowledgedIsPrefixBeforeFailure(deduped, ok, i);
      assert deduped[..i] == deduped;
      activityBuffer := Retain(activityBuffer, now);
      lastUpdateTime := now;
      stage := Submitted;
    }

    /**
     * startTracking: for a valid URL while enabled, replace the running
     * interval; when the system is active, run one tick at once and start
     * the five-minute interval.
     */
    method StartTracking(tab: Tab, initialIdle: string, env: TickEnv)
      requires Valid()
      modifies this
      ensures Valid()
      ensures !IsValidUrl(tab.url) || !old(isExtensionEnabled) ==>
                intervalId == old(intervalId) && liveTimers == old(liveTimers) && isTracking == old(isTracking)
                && activityBuffer == old(activityBuffer) && lastUpdateTime == old(lastUpdateTime)
                && trackedTab == old(trackedTab) && nextTimerId == old(nextTimerId)
      ensures IsValidUrl(tab.url) && old(isExtensionEnabled) ==> isTracking
      ensures IsValidUrl(tab.url) && old(isExtensionEnabled) && initialIdle == "active" ==>
                var o := Tick(old(activityBuffer), old(lastUpdateTime), tab, env);
                && activityBuffer == o.buffer && lastUpdateTime == o.lastUpdateTime
                && intervalId == Some(old(nextTimerId)) && liveTimers == {old(nextTimerId)}
                && trackedTab == Some(tab) && nextTimerId == old(nextTimerId) + 1
      ensures IsValidUrl(tab.url) && old(isExtensionEnabled) && initialIdle != "active" ==>
                intervalId == None && liveTimers == {} && trackedTab == None
                && activityBuffer == old(activityBuffer) && lastUpdateTime == old(lastUpdateTime)
                && nextTimerId == old(nextTimerId)
      ensures isExtensionEnabled == old(isExtensionEnabled) && storedEnabled == old(storedEnabled)
    {
      if !IsValidUrl(tab.url) || !isExtensionEnabled {
        return;
      }
      ClearTrackingInterval();
      isTracking := true;
      if initialIdle == "active" {
        var _, _ := ProcessActivity(tab, env);
        intervalId := Some(nextTimerId);
        liveTimers := {nextTimerId};
        trackedTab := Some(tab);
        nextTimerId := nextTimerId + 1;
      }
    }

    /** The running interval fires: one tick for the tab it was started on. */
    method TimerFires(env: TickEnv) returns (acknowledged: seq<BufferedActivity>)
      requires Valid()
      modifies this
      ensures Valid()
      ensures old(intervalId).Some? ==>
                var o := Tick(old(activityBuffer), old(lastUpdateTime), old(trackedTab).value, env);
                activityBuffer == o.buffer && lastUpdateTime == o.lastUpdateTime && acknowledged == o.acknowledged
      ensures old(intervalId).None? ==>
                activityBuffer == old(activityBuffer) && lastUpdateTime == old(lastUpdateTime) && acknowledged == []
      ensures intervalId == old(intervalId) && liveTimers == old(liveTimers) && trackedTab == old(trackedTab)
      ensures isExtensionEnabled == old(isExtensionEnabled) && storedEnabled == old(storedEnabled)
      ensures isTracking == old(isTracking) && nextTimerId == old(nextTimerId)
    {
      acknowledged := [];
      if intervalId.Some? {
        var stage;
        acknowledged, stage := ProcessActivity(trackedTab.value, env);
      }
    }

    /** checkExtensionState: only an explicit `false` in storage disables the extension. */
    method CheckExtensionState()
      requires Valid()
      modifies this
      ensures Valid()
      ensures isExtensionEnabled <==> old(storedEnabled) != Some(false)
      ensures !isExtensionEnabled ==> intervalId == None && liveTimers == {}
      ensures isExtensionEnabled ==>
                intervalId == old(intervalId) && liveTimers == old(liveTimers) && trackedTab == old(trackedTab)
      ensures activityBuffer == old(activityBuffer) && lastUpdateTime == old(lastUpdateTime)
      ensures storedEnabled == old(storedEnabled) && isTracking == old(isTracking) && nextTimerId == old(nextTimerId)
    {
      isExtensionEnabled := storedEnabled != Some(false);
      if !isExtensionEnabled {
        ClearTrackingInterval();
      }
    }

    /** onInstalled: store isExtensionEnabled = true. */
    method OnInstalled()
      requires Valid()
      modifies this
      ensures Valid()
      ensures storedEnabled == Some(true)
      ensures intervalId == old(intervalId) && isExtensionEnabled == old(isExtensionEnabled)
      ensures activityBuffer == old(activityBuffer) && lastUpdateTime == old(lastUpdateTime)
      ensures isTracking == old(isTracking) && trackedTab == old(trackedTab)
      ensures liveTimers == old(liveTimers) && nextTimerId == old(nextTimerId)
    {
      storedEnabled := Some(true);
    }

    /** onStartup: empty the buffer, reset the clock, and re-read the enabled flag. */
    method OnStartup()
      requires Valid()
      modifies this
      ensures Valid()
      ensures activityBuffer == [] && lastUpdateTime == 0
      ensures isExtensionEnabled <==> old(storedEnabled) != Some(false)
      ensures !isExtensionEnabled ==> intervalId == None && liveTimers == {}
      ensures isExtensionEnabled ==>
                intervalId == old(intervalId) && liveTimers == old(liveTimers) && trackedTab == old(trackedTab)
      ensures storedEnabled == old(storedEnabled) && isTracking == old(isTracking) && nextTimerId == old(nextTimerId)
    {
      activityBuffer := [];
      lastUpdateTime := 0;
      CheckExtensionState();
    }

    /**
     * storage.onChanged: a change of isExtensionEnabled in the local area
     * sets the flag to the new value's truthiness; disabling stops the
     * interval and empties the buffer. Enabling does not restart tracking.
     */
    method OnStorageChanged(area: string, change: Option<StorageChange>)
      requires Valid()
      modifies this
      ensures Valid()
      ensures area != "local" || change.None? ==>
                isExtensionEnabled == old(isExtensionEnabled) && intervalId == old(intervalId)
                && activityBuffer == old(activityBuffer) && storedEnabled == old(storedEnabled)
                && liveTimers == old(liveTimers) && trackedTab == old(trackedTab)
      ensures area == "local" && change.Some? ==>
                (isExtensionEnabled <==> change.value.newValue == Some(true))
                && storedEnabled == change.value.newValue
      ensures area == "local" && change.Some? && change.value.newValue != Some(true) ==>
                intervalId == None && liveTimers == {} && trackedTab == None && activityBuffer == []
      ensures area == "local" && change.Some? && change.value.newValue == Some(true) ==>
                intervalId == old(intervalId) && activityBuffer == old(activityBuffer)
                && liveTimers == old(liveTimers) && trackedTab == old(trackedTab)
      ensures lastUpdateTime == old(lastUpdateTime) && isTracking == old(isTracking) && nextTimerId == old(nextTimerId)
    {
      if area == "local" && change.Some? {
        storedEnabled := change.value.newValue;
        isExtensionEnabled := change.value.newValue == Some(true);
        if !isExtensionEnabled {
          ClearTrackingInterval();
          activityBuffer := [];
        }
      }
    }

    /**
     * idle.onStateChanged: idle or locked stops the interval. On active the
     * resume guard throws or is false (IdleResumeGuard), so nothing changes.
     */
    method OnIdleStateChanged(state: string)
      requires Valid()
      modifies this
      ensures Valid()
      ensures state == "idle" || state == "locked" ==> intervalId == None && liveTimers == {} && trackedTab == None
      ensures state != "idle" && state != "locked" ==>
                intervalId == old(intervalId) && liveTimers == old(liveTimers) && trackedTab == old(trackedTab)
      ensures activityBuffer == old(activityBuffer) && lastUpdateTime == old(lastUpdateTime)
      ensures isExtensionEnabled == old(isExtensionEnabled) && isTracking == old(isTracking)
      ensures storedEnabled == old(storedEnabled) && nextTimerId == old(nextTimerId)
    {
      if state == "idle" || state == "locked" {
        ClearTrackingInterval();
      } else if state == "active" {
        var guard := IdleResumeGuard(isExtensionEnabled);
        assert guard != Ok(true);
      }
    }

    /** tabs.onActivated: stop the interval, then track the newly active tab when it is trackable. */
    method OnTabActivated(lookup: Result<Tab>, initialIdle: string, env: TickEnv)
      requires Valid()
      modifies this
      ensures Valid()
      ensures !(lookup.Ok? && IsValidUrl(lookup.value.url) && old(isExtensionEnabled) && initialIdle == "active") ==>
                intervalId == None && liveTimers == {} && trackedTab == None
                && activityBuffer == old(activityBuffer) && lastUpdateTime == old(lastUpdateTime)
                && nextTimerId == old(nextTimerId)
      ensures lookup.Ok? && IsValidUrl(lookup.value.url) && old(isExtensionEnabled) && initialIdle == "active" ==>
                intervalId == Some(old(nextTimerId)) && liveTimers == {old(nextTimerId)} && trackedTab == Some(lookup.value)
                && nextTimerId == old(nextTimerId) + 1
                && var o := Tick(old(activityBuffer), old(lastUpdateTime), lookup.value, env);
                   activityBuffer == o.buffer && lastUpdateTime == o.lastUpdateTime
      ensures lookup.Ok? && IsValidUrl(lookup.value.url) && old(isExtensionEnabled) ==> isTracking
      ensures !(lookup.Ok? && IsValidUrl(lookup.value.url) && old(isExtensionEnabled)) ==> isTracking == old(isTracking)
      ensures isExtensionEnabled == old(isExtensionEnabled) && storedEnabled == old(storedEnabled)
    {
      ClearTrackingInterval();
      if lookup.Ok? && IsValidUrl(lookup.value.url) && isExtensionEnabled {
        StartTracking(lookup.value, initialIdle, env);
      }
    }

    /** tabs.onUpdated: a finished load of the active, trackable tab (re)starts tracking. */
    method OnTabUpdated(changeStatus: Option<string>, tab: Tab, initialIdle: string, env: TickEnv)
      requires Valid()
      modifies this
      ensures Valid()
      ensures !(tab.active && changeStatus == Some("complete") && IsValidUrl(tab.url) && old(isExtensionEnabled)) ==>
                intervalId == old(intervalId) && liveTimers == old(liveTimers) && trackedTab == old(trackedTab)
                && activityBuffer == old(activityBuffer) && lastUpdateTime == old(lastUpdateTime)
                && isTracking == old(isTracking) && nextTimerId == old(nextTimerId)
      ensures tab.active && changeStatus == Some("complete") && IsValidUrl(tab.url) && old(isExtensionEnabled) ==> isTracking
      ensures tab.active && changeStatus == Some("complete") && IsValidUrl(tab.url) && old(isExtensionEnabled) && initialIdle == "active" ==>
                intervalId == Some(old(nextTimerId)) && liveTimers == {old(nextTimerId)} && trackedTab == Some(tab)
                && nextTimerId == old(nextTimerId) + 1
                && var o := Tick(old(activityBuffer), old(lastUpdateTime), tab, env);
                   activityBuffer == o.buffer && lastUpdateTime == o.lastUpdateTime
      ensures tab.active && changeStatus == Some("complete") && IsValidUrl(tab.url) && old(isExtensionEnabled) && initialIdle != "active" ==>
                intervalId == None && liveTimers == {} && trackedTab == None
                && activityBuffer == old(activityBuffer) && lastUpdateTime == old(lastUpdateTime)
                && nextTimerId == old(nextTimerId)
      ensures isExtensionEnabled == old(isExtensionEnabled) && storedEnabled == old(storedEnabled)
    {
      if tab.active && changeStatus == Some("complete") && IsValidUrl(tab.url) && isExtensionEnabled {
        StartTracking(tab, initialIdle, env);
      }
    }
  }
}
