/**
 * The Productivity collection and the three controller actions that write
 * to it. A record is identified by its user and its day; the collection is
 * a map from that pair to the record, and findOneAndUpdate with
 * `{ new: true, upsert: true }` is one atomic map update.
 */
module Store {
  import opened Options

  type UserId = string

  /** getHours() of the request time. */
  type Hour = h: int | 0 <= h < 24

  /** One element of hourlyData; a field the update does not set takes its schema default 0. */
  datatype HourEntry = HourEntry(hour: Hour, productiveTime: int, unproductiveTime: int)

  /** A Productivity document; `date` is a day number (local midnight of that day). */
  datatype DayRecord = DayRecord(
    user: UserId,
    date: int,
    productiveTime: int,
    unproductiveTime: int,
    hourlyData: seq<HourEntry>,
    category: Option<string>)

  datatype Key = Key(user: UserId, day: int)

  /** The document an upsert inserts before applying its update: every schema default. */
  function Fresh(user: UserId, day: int): (r: DayRecord)
    ensures r.user == user && r.date == day && Balanced(r)
  {
    DayRecord(user, day, 0, 0, [], None)
  }

  /** The document findOneAndUpdate starts from. */
  function Existing(records: map<Key, DayRecord>, user: UserId, day: int): DayRecord {
    var key := Key(user, day);
    if key in records then records[key] else Fresh(user, day)
  }

  /** `if (category)`: only a present, non-empty category is written. */
  predicate Truthy(category: Option<string>) {
    category.Some? && category.value != ""
  }

  /** The hourly element updateTime pushes: the chosen field holds `seconds`, the other its default. */
  function PushedEntry(hour: Hour, seconds: int, isProductive: bool): HourEntry {
    if isProductive then HourEntry(hour, seconds, 0) else HourEntry(hour, 0, seconds)
  }

  /** updateTime's `$inc` on the chosen counter, `$push` of one hourly element, and `$set` of a truthy category. */
  function TimeUpdated(r: DayRecord, hour: Hour, seconds: int, isProductive: bool, category: Option<string>): (u: DayRecord)
    ensures u.user == r.user && u.date == r.date
    ensures isProductive ==> u.productiveTime == r.productiveTime + seconds && u.unproductiveTime == r.unproductiveTime
    ensures !isProductive ==> u.unproductiveTime == r.unproductiveTime + seconds && u.productiveTime == r.productiveTime
    ensures |u.hourlyData| == |r.hourlyData| + 1 && u.hourlyData[..|r.hourlyData|] == r.hourlyData
    ensures u.hourlyData[|r.hourlyData|] == PushedEntry(hour, seconds, isProductive)
    ensures u.category == if Truthy(category) then category else r.category
  {
    var counted :=
      if isProductive then r.(productiveTime := r.productiveTime + seconds)
      else r.(unproductiveTime := r.unproductiveTime + seconds);
    var pushed := counted.(hourlyData := r.hourlyData + [PushedEntry(hour, seconds, isProductive)]);
    if Truthy(category) then pushed.(category := category) else pushed
  }

  /** addProductiveTime's `$inc`: one counter moves, nothing is appended. */
  function ProductiveAdded(r: DayRecord, seconds: int): (u: DayRecord)
    ensures u.productiveTime == r.productiveTime + seconds
    ensures u.unproductiveTime == r.unproductiveTime
    ensures u.hourlyData == r.hourlyData && u.category == r.category
    ensures u.user == r.user && u.date == r.date
  {
    r.(productiveTime := r.productiveTime + seconds)
  }

  /** addUnproductiveTime's `$inc`. */
  function UnproductiveAdded(r: DayRecord, seconds: int): (u: DayRecord)
    ensures u.unproductiveTime == r.unproductiveTime + seconds
    ensures u.productiveTime == r.productiveTime
    ensures u.hourlyData == r.hourlyData && u.category == r.category
    ensures u.user == r.user && u.date == r.date
  {
    r.(unproductiveTime := r.unproductiveTime + seconds)
  }

  /** The two time fields of an hourly element, as values to sum. */
  function EntryProductive(e: HourEntry): int { e.productiveTime }
  function EntryUnproductive(e: HourEntry): int { e.unproductiveTime }

  /** The sum of one field over a list of hourly elements. */
  function HourlyTotal(hs: seq<HourEntry>, f: HourEntry -> int): int {
    if hs == [] then 0 else HourlyTotal(hs[..|hs| - 1], f) + f(hs[|hs| - 1])
  }

  /** The day's counters equal the sums of its hourly elements. */
  predicate Balanced(r: DayRecord) {
    r.productiveTime == HourlyTotal(r.hourlyData, EntryProductive)
    && r.unproductiveTime == HourlyTotal(r.hourlyData, EntryUnproductive)
  }

  /** A freshly upserted record holds zero time, no hourly elements and no category. */
  lemma FreshIsEmpty(user: UserId, day: int)
    ensures var r := Fresh(user, day);
            r.productiveTime == 0 && r.unproductiveTime == 0 && r.hourlyData == [] && r.category == None
            && Balanced(r)
  {
  }

  /** updateTime keeps a record balanced: the pushed element carries exactly the seconds added. */
  lemma TimeUpdatedKeepsBalance(r: DayRecord, hour: Hour, seconds: int, isProductive: bool, category: Option<string>)
    requires Balanced(r)
    ensures Balanced(TimeUpdated(r, hour, seconds, isProductive, category))
  {
    var u := TimeUpdated(r, hour, seconds, isProductive, category);
    assert u.hourlyData[..|u.hourlyData| - 1] == r.hourlyData;
  }

  /** addProductiveTime with a non-zero amount unbalances every balanced record. */
  lemma ProductiveAddedBreaksBalance(r: DayRecord, seconds: int)
    requires Balanced(r) && seconds != 0
    ensures !Balanced(ProductiveAdded(r, seconds))
  {
  }

  /** The same for addUnproductiveTime. */
  lemma UnproductiveAddedBreaksBalance(r: DayRecord, seconds: int)
    requires Balanced(r) && seconds != 0
    ensures !Balanced(UnproductiveAdded(r, seconds))
  {
  }

  /** A record is filed under its own user and day. */
  ghost predicate Filed(records: map<Key, DayRecord>) {
    forall k :: k in records ==> records[k].user == k.user && records[k].date == k.day
  }

  /** What TodayTimeasync answers: today's record, or zero defaults with category ''. */
  datatype TodaySummary = TodaySummary(productiveTime: int, unproductiveTime: int, hourlyData: seq<HourEntry>, category: string)

  function TodayTime(records: map<Key, DayRecord>, user: UserId, today: int): (s: TodaySummary)
    ensures Key(user, today) !in records ==> s == TodaySummary(0, 0, [], "")
    ensures Key(user, today) in records ==>
              var r := records[Key(user, today)];
              s.productiveTime == r.productiveTime && s.unproductiveTime == r.unproductiveTime
              && s.hourlyData == r.hourlyData
  {
    var key := Key(user, today);
    if key !in records then TodaySummary(0, 0, [], "")
    else
      var r := records[key];
      TodaySummary(r.productiveTime, r.unproductiveTime, r.hourlyData, if r.category.Some? then r.category.value else "")
  }

  class ProductivityStore {
    var records: map<Key, DayRecord>

    ghost predicate Valid()
      reads this
    {
      Filed(records)
    }

    /** Every record holds as much time as its hourly elements. */
    ghost predicate AllBalanced()
      reads this
    {
      forall k :: k in records ==> Balanced(records[k])
    }

    constructor ()
      ensures Valid() && AllBalanced()
      ensures records == map[]
    {
      records := map[];
    }

    /** POST /update-time for `user` on day `today` at hour `hour`. */
    method UpdateTime(user: UserId, today: int, hour: Hour, seconds: int, isProductive: bool, category: Option<string>)
      returns (entry: DayRecord)
      requires Valid()
      modifies this
      ensures Valid()
      ensures entry == TimeUpdated(Existing(old(records), user, today), hour, seconds, isProductive, category)
      ensures records == old(records)[Key(user, today) := entry]
      ensures old(AllBalanced()) ==> AllBalanced()
    {
      var key := Key(user, today);
      var current := if key in records then records[key] else Fresh(user, today);
      entry := TimeUpdated(current, hour, seconds, isProductive, category);
      if AllBalanced() {
        if key !in records {
          FreshIsEmpty(user, today);
        }
        TimeUpdatedKeepsBalance(current, hour, seconds, isProductive, category);
      }
      records := records[key := entry];
    }

    /** POST /productive: `$inc` of productiveTime only. */
    method AddProductiveTime(user: UserId, today: int, seconds: int) returns (entry: DayRecord)
      requires Valid()
      modifies this
      ensures Valid()
      ensures entry == ProductiveAdded(Existing(old(records), user, today), seconds)
      ensures records == old(records)[Key(user, today) := entry]
    {
      var key := Key(user, today);
      var current := if key in records then records[key] else Fresh(user, today);
      entry := ProductiveAdded(current, seconds);
      records := records[key := entry];
    }

    /** POST /unproductive: `$inc` of unproductiveTime only. */
    method AddUnproductiveTime(user: UserId, today: int, seconds: int) returns (entry: DayRecord)
      requires Valid()
      modifies this
      ensures Valid()
      ensures entry == UnproductiveAdded(Existing(old(records), user, today), seconds)
      ensures records == old(records)[Key(user, today) := entry]
    {
      var key := Key(user, today);
      var current := if key in records then records[key] else Fresh(user, today);
      entry := UnproductiveAdded(current, seconds);
      records := records[key := entry];
    }
  }

  /** An upsert on a missing key creates exactly one record, built from the defaults. */
  lemma UpsertCreatesFromDefaults(records: map<Key, DayRecord>, user: UserId, today: int, hour: Hour,
                                  seconds: int, isProductive: bool, category: Option<string>)
    requires Key(user, today) !in records
    ensures var u := TimeUpdated(Existing(records, user, today), hour, seconds, isProductive, category);
            && u.productiveTime == (if isProductive then seconds else 0)
            && u.unproductiveTime == (if isProductive then 0 else seconds)
            && u.hourlyData == [PushedEntry(hour, seconds, isProductive)]
            && (u.category.Some? <==> Truthy(category))
            && |records[Key(user, today) := u].Keys| == |records.Keys| + 1
  {
    var u := TimeUpdated(Existing(records, user, today), hour, seconds, isProductive, category);
    assert records[Key(user, today) := u].Keys == records.Keys + {Key(user, today)};
  }
}
