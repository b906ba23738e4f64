/**
 * deduplicateActivities: the buffered activities collapsed to one per
 * (url, activityType, minute) key, the latest write winning.
 */
module Dedup {
  import opened Decimal
  import opened Options

  /** One entry of the background worker's activityBuffer, as pushed by a successful tick. */
  datatype BufferedActivity = BufferedActivity(
    seconds: int,
    isProductive: bool,
    activityType: string,
    url: string,
    text: string,
    imageBase64: string,
    score: real,
    timestamp: nat)

  const MinuteMs := 60000

  /** The Map key: `${url}-${activityType}-${Math.floor(timestamp / 60000)}`. */
  function DedupKey(a: BufferedActivity): string {
    a.url + "-" + a.activityType + "-" + NatToString(a.timestamp / MinuteMs)
  }

  /** The key reads url, a dash, the type, a dash, then the minute's digits. */
  lemma DedupKeyShape(a: BufferedActivity)
    ensures var k := DedupKey(a);
            var m := NatToString(a.timestamp / MinuteMs);
            && |k| == |a.url| + |a.activityType| + |m| + 2
            && k[..|a.url|] == a.url && k[|a.url|] == '-'
            && k[|a.url| + 1..][..|a.activityType|] == a.activityType
            && k[|a.url| + |a.activityType| + 1] == '-'
            && k[|k| - |m|..] == m && AllDigits(m)
  {
    var k := DedupKey(a);
    var m := NatToString(a.timestamp / MinuteMs);
    assert k[|a.url| + 1..][..|a.activityType|] == a.activityType;
    assert k[|k| - |m|..] == m;
  }

  /** Position of the last occurrence of `c` in `s`, or -1. */
  function LastIndex(s: string, c: char): (r: int)
    ensures -1 <= r < |s|
    ensures r >= 0 ==> s[r] == c
  {
    if s == [] then -1 else if s[|s| - 1] == c then |s| - 1 else LastIndex(s[..|s| - 1], c)
  }

  lemma {:induction false} LastIndexOfSeparator(x: string, c: char, y: string)
    requires forall i :: 0 <= i < |y| ==> y[i] != c
    ensures LastIndex(x + [c] + y, c) == |x|
    decreases |y|
  {
    var s := x + [c] + y;
    if y != [] {
      var y' := y[..|y| - 1];
      assert s[..|s| - 1] == x + [c] + y';
      LastIndexOfSeparator(x, c, y');
    }
  }

  /** Two strings split at their last `c` agree on both halves. */
  lemma SplitAtLastSeparator(x1: string, y1: string, x2: string, y2: string, c: char)
    requires forall i :: 0 <= i < |y1| ==> y1[i] != c
    requires forall i :: 0 <= i < |y2| ==> y2[i] != c
    requires x1 + [c] + y1 == x2 + [c] + y2
    ensures x1 == x2 && y1 == y2
  {
    var s := x1 + [c] + y1;
    LastIndexOfSeparator(x1, c, y1);
    LastIndexOfSeparator(x2, c, y2);
    assert x1 == s[..|x1|] && x2 == s[..|x2|];
    assert y1 == s[|x1| + 1..] && y2 == s[|x2| + 1..];
  }

  /**
   * When activity types contain no '-' (nor can a numeral), the string key
   * determines the url, the activity type and the minute.
   */
  lemma DedupKeyDeterminesBucket(a: BufferedActivity, b: BufferedActivity)
    requires forall i :: 0 <= i < |a.activityType| ==> a.activityType[i] != '-'
    requires forall i :: 0 <= i < |b.activityType| ==> b.activityType[i] != '-'
    requires DedupKey(a) == DedupKey(b)
    ensures a.url == b.url && a.activityType == b.activityType
    ensures a.timestamp / MinuteMs == b.timestamp / MinuteMs
  {
    var da, db := NatToString(a.timestamp / MinuteMs), NatToString(b.timestamp / MinuteMs);
    assert forall i :: 0 <= i < |da| ==> IsDigit(da[i]);
    assert forall i :: 0 <= i < |db| ==> IsDigit(db[i]);
    assert DedupKey(a) == (a.url + "-" + a.activityType) + ['-'] + da;
    assert DedupKey(b) == (b.url + "-" + b.activityType) + ['-'] + db;
    SplitAtLastSeparator(a.url + "-" + a.activityType, da, b.url + "-" + b.activityType, db, '-');
    NatToStringInjective(a.timestamp / MinuteMs, b.timestamp / MinuteMs);
    assert a.url + "-" + a.activityType == a.url + ['-'] + a.activityType;
    assert b.url + "-" + b.activityType == b.url + ['-'] + b.activityType;
    SplitAtLastSeparator(a.url, a.activityType, b.url, b.activityType, '-');
  }

  /** With a '-' inside an activity type, two different buckets share one key. */
  lemma DedupKeyCollidesOnDashedType(ts: nat)
    ensures var a := BufferedActivity(180, true, "b-c", "http://a", "", "", 0.9, ts);
            var b := BufferedActivity(180, true, "c", "http://a-b", "", "", 0.9, ts);
            a.url != b.url && DedupKey(a) == DedupKey(b)
  {
    assert "http://a" + "-" + "b-c" == "http://a-b" + "-" + "c";
  }

  /**
   * The JavaScript Map after some iterations: a key keeps the position of
   * its first insertion (`order`), a later `set` only replaces the value.
   */
  datatype DedupState = DedupState(order: seq<string>, latest: map<string, BufferedActivity>)

  /** One iteration of the loop body: insert when the key is new or the timestamp strictly newer. */
  /** One iteration of the loop over the buffer. */
  function Step(st: DedupState, a: BufferedActivity): DedupState {
    var k := DedupKey(a);
    if k !in st.latest then DedupState(st.order + [k], st.latest[k := a])
    else if a.timestamp > st.latest[k].timestamp then DedupState(st.order, st.latest[k := a])
    else st
  }

  function StateOf(buffer: seq<BufferedActivity>): (st: DedupState)
    ensures |st.order| <= |buffer|
    decreases |buffer|
  {
    if buffer == [] then DedupState([], map[])
    else Step(StateOf(buffer[..|buffer| - 1]), buffer[|buffer| - 1])
  }

  /** No earlier entry with the same key has a timestamp as large as entry i. */
  ghost predicate FirstMaximal(buffer: seq<BufferedActivity>, i: int)
    requires 0 <= i < |buffer|
  {
    forall i' :: 0 <= i' < i && DedupKey(buffer[i']) == DedupKey(buffer[i]) ==> buffer[i'].timestamp < buffer[i].timestamp
  }

  /** The Map's own shape: keys listed once each, in `order`, each value filed under its own key. */
  ghost predicate WellFormed(st: DedupState) {
    && (forall i, j :: 0 <= i < j < |st.order| ==> st.order[i] != st.order[j])
    && (forall i :: 0 <= i < |st.order| ==> st.order[i] in st.latest)
    && (forall k :: k in st.latest ==> k in st.order)
    && (forall k :: k in st.latest ==> DedupKey(st.latest[k]) == k)
  }

  /** Every entry seen so far has its key in the Map, with a value at least as new. */
  ghost predicate Covers(buffer: seq<BufferedActivity>, st: DedupState) {
    forall i :: 0 <= i < |buffer| ==>
      DedupKey(buffer[i]) in st.latest && buffer[i].timestamp <= st.latest[DedupKey(buffer[i])].timestamp
  }

  /** Entry i of the buffer is the value held for key k, and the earliest maximal one. */
  ghost predicate WitnessAt(buffer: seq<BufferedActivity>, st: DedupState, k: string, i: int) {
    0 <= i < |buffer| && k in st.latest && buffer[i] == st.latest[k] && FirstMaximal(buffer, i)
  }

  ghost predicate Witnessed(buffer: seq<BufferedActivity>, st: DedupState) {
    forall k :: k in st.latest ==> exists i :: WitnessAt(buffer, st, k, i)
  }

  /** What the Map holds after a loop over `buffer`. */
  ghost predicate Summarizes(buffer: seq<BufferedActivity>, st: DedupState) {
    WellFormed(st) && Covers(buffer, st) && Witnessed(buffer, st) && |st.order| <= |buffer|
  }

  lemma StepWellFormed(st: DedupState, a: BufferedActivity)
    requires WellFormed(st)
    ensures WellFormed(Step(st, a))
  {
  }

  lemma StepCovers(b: seq<BufferedActivity>, st: DedupState, a: BufferedActivity)
    requires WellFormed(st) && Covers(b, st)
    ensures Covers(b + [a], Step(st, a))
  {
    var b', st', k := b + [a], Step(st, a), DedupKey(a);
    forall i | 0 <= i < |b'|
      ensures DedupKey(b'[i]) in st'.latest && b'[i].timestamp <= st'.latest[DedupKey(b'[i])].timestamp
    {
      if i < |b| {
        assert b'[i] == b[i];
      }
    }
  }

  lemma StepWitnessed(b: seq<BufferedActivity>, st: DedupState, a: BufferedActivity)
    requires WellFormed(st) && Covers(b, st) && Witnessed(b, st)
    ensures Witnessed(b + [a], Step(st, a))
  {
    var b', st', k := b + [a], Step(st, a), DedupKey(a);
    var n := |b|;
    forall k' | k' in st'.latest ensures exists i :: WitnessAt(b', st', k', i) {
      if k' == k && st'.latest[k] == a && (k !in st.latest || a.timestamp > st.latest[k].timestamp) {
        forall i' | 0 <= i' < n && DedupKey(b'[i']) == k ensures b'[i'].timestamp < a.timestamp {
          assert b'[i'] == b[i'];
        }
        assert WitnessAt(b', st', k', n);
      } else {
        assert k' in st.latest && st'.latest[k'] == st.latest[k'];
        var i :| WitnessAt(b, st, k', i);
        forall i' | 0 <= i' < i ensures b'[i'] == b[i'] { }
        assert WitnessAt(b', st', k', i);
      }
    }
  }

  lemma StepSummarizes(b: seq<BufferedActivity>, st: DedupState, a: BufferedActivity)
    requires Summarizes(b, st)
    ensures Summarizes(b + [a], Step(st, a))
  {
    StepWellFormed(st, a);
    StepCovers(b, st, a);
    StepWitnessed(b, st, a);
  }

  lemma {:induction false} StateOfSummarizes(buffer: seq<BufferedActivity>)
    ensures Summarizes(buffer, StateOf(buffer))
    decreases |buffer|
  {
    if buffer != [] {
      var init, a := buffer[..|buffer| - 1], buffer[|buffer| - 1];
      assert init + [a] == buffer;
      var st := StateOf(init);
      assert StateOf(buffer) == Step(st, a);
      StateOfSummarizes(init);
      StepSummarizes(init, st, a);
    }
  }

  lemma StateOfWellFormed(buffer: seq<BufferedActivity>)
    ensures WellFormed(StateOf(buffer))
  {
    StateOfSummarizes(buffer);
  }

  /** `Array.from(map.values())`: the values in first-insertion order of their keys. */
  function Values(st: DedupState): (vs: seq<BufferedActivity>)
    requires forall i :: 0 <= i < |st.order| ==> st.order[i] in st.latest
    ensures |vs| == |st.order|
    ensures forall j :: 0 <= j < |vs| ==> vs[j] == st.latest[st.order[j]]
  {
    seq(|st.order|, j requires 0 <= j < |st.order| => st.latest[st.order[j]])
  }

  /** deduplicateActivities with the result read from `deduped` (see the as-written variant below). */
  function Dedup(buffer: seq<BufferedActivity>): (out: seq<BufferedActivity>)
    ensures |out| <= |buffer|
    ensures out == [] <==> buffer == []
  {
    StateOfSummarizes(buffer);
    assert buffer != [] ==> DedupKey(buffer[0]) in StateOf(buffer).order;
    Values(StateOf(buffer))
  }

  /** Never longer than the buffer. */
  lemma DedupNoLonger(buffer: seq<BufferedActivity>)
    ensures |Dedup(buffer)| <= |buffer|
  {
    StateOfSummarizes(buffer);
  }

  /** Each output entry is the value filed under its own key, hence one entry per key. */
  lemma DedupEntryKeys(buffer: seq<BufferedActivity>)
    ensures forall j :: 0 <= j < |Dedup(buffer)| ==> DedupKey(Dedup(buffer)[j]) == StateOf(buffer).order[j]
  {
    StateOfSummarizes(buffer);
  }

  /** Every output entry was in the buffer, and no two output entries share a key. */
  lemma DedupFromInputOnePerKey(buffer: seq<BufferedActivity>)
    ensures forall j :: 0 <= j < |Dedup(buffer)| ==> Dedup(buffer)[j] in buffer
    ensures forall i, j :: 0 <= i < j < |Dedup(buffer)| ==> DedupKey(Dedup(buffer)[i]) != DedupKey(Dedup(buffer)[j])
  {
    var st, out := StateOf(buffer), Dedup(buffer);
    StateOfSummarizes(buffer);
    DedupEntryKeys(buffer);
    forall j | 0 <= j < |out| ensures out[j] in buffer {
      var i :| WitnessAt(buffer, st, st.order[j], i);
    }
  }

  /** Every key of the buffer is represented, by an entry at least as new as any with that key. */
  lemma DedupKeepsLatest(buffer: seq<BufferedActivity>)
    ensures forall i :: 0 <= i < |buffer| ==>
              exists j :: 0 <= j < |Dedup(buffer)| && DedupKey(Dedup(buffer)[j]) == DedupKey(buffer[i])
    ensures forall i, j :: 0 <= i < |buffer| && 0 <= j < |Dedup(buffer)| && DedupKey(buffer[i]) == DedupKey(Dedup(buffer)[j])
              ==> buffer[i].timestamp <= Dedup(buffer)[j].timestamp
  {
    var st, out := StateOf(buffer), Dedup(buffer);
    StateOfSummarizes(buffer);
    DedupEntryKeys(buffer);
    forall i | 0 <= i < |buffer|
      ensures exists j :: 0 <= j < |out| && DedupKey(out[j]) == DedupKey(buffer[i])
    {
      var k := DedupKey(buffer[i]);
      assert k in st.order;
      var j :| 0 <= j < |st.order| && st.order[j] == k;
      assert DedupKey(out[j]) == k;
    }
  }

  /** Among entries of one key sharing the largest timestamp, the earliest is kept (the comparison is strict). */
  lemma DedupTiesKeepFirst(buffer: seq<BufferedActivity>)
    ensures forall j :: 0 <= j < |Dedup(buffer)| ==>
              exists i :: 0 <= i < |buffer| && buffer[i] == Dedup(buffer)[j] && FirstMaximal(buffer, i)
  {
    var st, out := StateOf(buffer), Dedup(buffer);
    StateOfSummarizes(buffer);
    forall j | 0 <= j < |out|
      ensures exists i :: 0 <= i < |buffer| && buffer[i] == out[j] && FirstMaximal(buffer, i)
    {
      var i :| WitnessAt(buffer, st, st.order[j], i);
    }
  }

  /** The loop of deduplicateActivities over a Map, with its key order kept beside it. */
  method Deduplicate(buffer: seq<BufferedActivity>) returns (out: seq<BufferedActivity>)
    ensures out == Dedup(buffer)
  {
    var order: seq<string> := [];
    var deduped: map<string, BufferedActivity> := map[];
    for i := 0 to |buffer|
      invariant DedupState(order, deduped) == StateOf(buffer[..i])
      invariant forall j :: 0 <= j < |order| ==> order[j] in deduped
    {
      var activity := buffer[i];
      var key := DedupKey(activity);
      assert buffer[..i + 1][..i] == buffer[..i];
      if key !in deduped || activity.timestamp > deduped[key].timestamp {
        if key !in deduped {
          order := order + [key];
        }
        deduped := deduped[key := activity];
      }
    }
    assert buffer[..|buffer|] == buffer;
    out := [];
    for j := 0 to |order|
      invariant out == Values(DedupState(order, deduped))[..j]
    {
      out := out + [deduped[order[j]]];
    }
  }

  lemma {:induction false} DistinctKeysCount(s: seq<string>)
    requires forall i, j :: 0 <= i < j < |s| ==> s[i] != s[j]
    ensures |(set x | x in s)| == |s|
  {
    if s != [] {
      DistinctKeysCount(s[1..]);
      assert (set x | x in s) == {s[0]} + (set x | x in s[1..]);
      assert s[0] !in (set x | x in s[1..]);
    }
  }

  /** Repeated samples of one minute bucket (the same url, type and minute) fold to a single entry. */
  lemma DedupSameKeyCollapses(buffer: seq<BufferedActivity>)
    requires buffer != []
    requires forall i :: 0 <= i < |buffer| ==> DedupKey(buffer[i]) == DedupKey(buffer[0])
    ensures |Dedup(buffer)| == 1
  {
    var st, k := StateOf(buffer), DedupKey(buffer[0]);
    StateOfSummarizes(buffer);
    forall j | 0 <= j < |st.order| ensures st.order[j] == k {
      var i :| WitnessAt(buffer, st, st.order[j], i);
    }
    assert k in st.order;
    DistinctKeysCount(st.order);
    var ks := set x | x in st.order;
    assert ks == {k};
    assert |Dedup(buffer)| == |st.order| == |ks|;
  }

  /**
   * A surviving entry stays in the output when an activity with another key
   * is pushed: this is why every later successful tick posts it again.
   */
  lemma DedupAppendKeeps(buffer: seq<BufferedActivity>, e: BufferedActivity, pushed: BufferedActivity)
    requires e in Dedup(buffer)
    requires DedupKey(e) != DedupKey(pushed)
    ensures e in Dedup(buffer + [pushed])
  {
    var b' := buffer + [pushed];
    assert b'[..|b'| - 1] == buffer;
    var st := StateOf(buffer);
    StateOfWellFormed(buffer);
    var j :| 0 <= j < |Dedup(buffer)| && Dedup(buffer)[j] == e;
    var k := st.order[j];
    assert st.latest[k] == e;
    var st' := Step(st, pushed);
    assert StateOf(b') == st';
    assert st'.order[j] == k && st'.latest[k] == e;
    assert Dedup(b')[j] == e;
  }

  /**
   * deduplicateActivities as written returns `Array.from(duped.values())`;
   * `duped` is not defined anywhere, so every call throws a ReferenceError
   * after the loop has run.
   */
  function DedupAsWritten(buffer: seq<BufferedActivity>): (r: Result<seq<BufferedActivity>>)
    ensures r.Thrown?
  {
    Thrown("ReferenceError: duped is not defined")
  }

  /** Even a one-entry buffer, which the intended code returns unchanged, makes the written code throw. */
  lemma DedupAsWrittenThrowsOnSingleEntry(a: BufferedActivity)
    ensures Dedup([a]) == [a]
    ensures DedupAsWritten([a]) != Ok(Dedup([a]))
  {
    assert [a][..0] == [];
    assert StateOf([a]) == DedupState([DedupKey(a)], map[DedupKey(a) := a]);
  }
}
