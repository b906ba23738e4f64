/**
 * getCategories: the month's productive time summed per category, in an
 * object filled by a loop over the records and then listed entry by entry.
 */
module CategoryView {
  import opened Options
  import opened Store
  import opened Rollups

  /** One element of the response: `{ category, productiveTime }`. */
  datatype CategoryTotal = CategoryTotal(category: string, productiveTime: int)

  /** The record's category when it is truthy, the only kind the loop looks at. */
  function CategoryOf(r: DayRecord): Option<string> {
    if Truthy(r.category) then r.category else None
  }

  /** The productive time of the records filed under category `c`. */
  function CategorySum(entries: seq<DayRecord>, c: string): int {
    if entries == [] then 0
    else
      var last := entries[|entries| - 1];
      CategorySum(entries[..|entries| - 1], c) + (if CategoryOf(last) == Some(c) then last.productiveTime else 0)
  }

  /** The truthy categories in the order the loop first meets them (the object's key order). */
  function CategoryOrder(entries: seq<DayRecord>): seq<string> {
    if entries == [] then []
    else
      var order := CategoryOrder(entries[..|entries| - 1]);
      var c := CategoryOf(entries[|entries| - 1]);
      if c.Some? && c.value !in order then order + [c.value] else order
  }

  /** The response: one element per category, in key order, with its sum. */
  function CategoryTotals(entries: seq<DayRecord>): (totals: seq<CategoryTotal>)
    ensures forall i, j :: 0 <= i < j < |totals| ==> totals[i].category != totals[j].category
    ensures forall k :: 0 <= k < |totals| ==>
              exists i :: 0 <= i < |entries| && CategoryOf(entries[i]) == Some(totals[k].category)
  {
    var order := CategoryOrder(entries);
    CategoryOrderDistinct(entries);
    assert forall k :: 0 <= k < |order| ==> exists i :: 0 <= i < |entries| && CategoryOf(entries[i]) == Some(order[k]) by {
      forall k | 0 <= k < |order|
        ensures exists i :: 0 <= i < |entries| && CategoryOf(entries[i]) == Some(order[k])
      {
        CategoryListedIffCarried(entries, order[k]);
      }
    }
    seq(|order|, k requires 0 <= k < |order| => CategoryTotal(order[k], CategorySum(entries, order[k])))
  }

  /** A category the loop has not met yet has no time. */
  lemma {:induction false} UnseenCategoryIsZero(entries: seq<DayRecord>, c: string)
    requires c !in CategoryOrder(entries)
    ensures CategorySum(entries, c) == 0
    decreases |entries|
  {
    if entries != [] {
      var init := entries[..|entries| - 1];
      var o := CategoryOf(entries[|entries| - 1]);
      assert CategoryOrder(init) <= CategoryOrder(entries);
      assert c !in CategoryOrder(init);
      UnseenCategoryIsZero(init, c);
      assert o == Some(c) ==> c in CategoryOrder(entries);
    }
  }

  method Categories(entries: seq<DayRecord>) returns (result: seq<CategoryTotal>)
    ensures result == CategoryTotals(entries)
  {
    var categoryMap: map<string, int> := map[];
    var order: seq<string> := [];
    var i := 0;
    while i < |entries|
      invariant 0 <= i <= |entries|
      invariant order == CategoryOrder(entries[..i])
      invariant forall c :: c in categoryMap <==> c in order
      invariant forall c :: c in categoryMap ==> categoryMap[c] == CategorySum(entries[..i], c)
    {
      var entry := entries[i];
      assert entries[..i + 1][..i] == entries[..i];
      if entry.category.Some? && entry.category.value != "" {
        var c := entry.category.value;
        var prior := if c in categoryMap then categoryMap[c] else 0;
        if c !in categoryMap {
          UnseenCategoryIsZero(entries[..i], c);
          order := order + [c];
        }
        categoryMap := categoryMap[c := prior + entry.productiveTime];
      }
      i := i + 1;
    }
    assert entries[..i] == entries;
    result := seq(|order|, k requires 0 <= k < |order| => CategoryTotal(order[k], categoryMap[order[k]]));
  }

  predicate Distinct(order: seq<string>) {
    forall i, j :: 0 <= i < j < |order| ==> order[i] != order[j]
  }

  /** Each category appears at most once in the response. */
  lemma {:induction false} CategoryOrderDistinct(entries: seq<DayRecord>)
    ensures Distinct(CategoryOrder(entries))
    decreases |entries|
  {
    if entries != [] {
      var init := entries[..|entries| - 1];
      CategoryOrderDistinct(init);
      var order := CategoryOrder(init);
      var c := CategoryOf(entries[|entries| - 1]);
      if c.Some? && c.value !in order {
        var grown := order + [c.value];
        forall i, j | 0 <= i < j < |grown|
          ensures grown[i] != grown[j]
        {
          assert grown[i] == order[i];
          if j < |order| {
            assert grown[j] == order[j];
          } else {
            assert grown[j] == c.value;
            assert order[i] in order;
          }
        }
        assert CategoryOrder(entries) == grown;
        assert Distinct(grown);
      }
    }
  }

  /** A category is listed exactly when some record carries it as a truthy category. */
  lemma {:induction false} CategoryListedIffCarried(entries: seq<DayRecord>, c: string)
    ensures c in CategoryOrder(entries) <==> exists i :: 0 <= i < |entries| && CategoryOf(entries[i]) == Some(c)
    decreases |entries|
  {
    if entries != [] {
      var init := entries[..|entries| - 1];
      CategoryListedIffCarried(init, c);
      if exists i :: 0 <= i < |init| && CategoryOf(init[i]) == Some(c) {
        var i :| 0 <= i < |init| && CategoryOf(init[i]) == Some(c);
        assert entries[i] == init[i];
      }
      if exists i :: 0 <= i < |entries| && CategoryOf(entries[i]) == Some(c) {
        var i :| 0 <= i < |entries| && CategoryOf(entries[i]) == Some(c);
        if i < |init| {
          assert init[i] == entries[i];
        }
      }
    }
  }

  /** The part of a record's productive time that getCategories attributes to some category. */
  function CategorizedProductive(r: DayRecord): int {
    if CategoryOf(r).Some? then r.productiveTime else 0
  }

  /** The sum of the totals of the categories in `order`. */
  function ListedTotal(entries: seq<DayRecord>, order: seq<string>): int {
    if order == [] then 0 else CategorySum(entries, order[0]) + ListedTotal(entries, order[1..])
  }

  lemma {:induction false} ListedTotalAppend(entries: seq<DayRecord>, a: seq<string>, b: seq<string>)
    ensures ListedTotal(entries, a + b) == ListedTotal(entries, a) + ListedTotal(entries, b)
    decreases |a|
  {
    if a == [] {
      assert a + b == b;
    } else {
      assert (a + b)[1..] == a[1..] + b;
      ListedTotalAppend(entries, a[1..], b);
    }
  }

  /** Appending a record adds its time to the one listed category it carries, if that one is listed. */
  lemma {:induction false} ListedTotalSnoc(init: seq<DayRecord>, r: DayRecord, order: seq<string>)
    requires Distinct(order)
    ensures ListedTotal(init + [r], order)
         == ListedTotal(init, order) + (if CategoryOf(r).Some? && CategoryOf(r).value in order then r.productiveTime else 0)
    decreases |order|
  {
    assert (init + [r])[..|init|] == init;
    if order != [] {
      ListedTotalSnoc(init, r, order[1..]);
      if CategoryOf(r) == Some(order[0]) {
        assert order[0] !in order[1..] by {
          forall k | 0 <= k < |order[1..]|
            ensures order[1..][k] != order[0]
          {
            assert order[1..][k] == order[k + 1];
          }
        }
      }
    }
  }

  /**
   * Nothing is lost or counted twice: the listed totals add up to the
   * productive time of the records that carry a truthy category.
   */
  lemma {:induction false} CategoriesCoverCategorized(entries: seq<DayRecord>)
    ensures ListedTotal(entries, CategoryOrder(entries)) == SumBy(entries, CategorizedProductive)
    decreases |entries|
  {
    if entries != [] {
      var init := entries[..|entries| - 1];
      var r := entries[|entries| - 1];
      var order := CategoryOrder(init);
      assert init + [r] == entries;
      CategoriesCoverCategorized(init);
      CategoryOrderDistinct(init);
      ListedTotalSnoc(init, r, order);
      SumByAppend(init, [r], CategorizedProductive);
      var c := CategoryOf(r);
      if c.Some? && c.value !in order {
        ListedTotalAppend(entries, order, [c.value]);
        UnseenCategoryIsZero(init, c.value);
        assert ListedTotal(entries, [c.value]) == CategorySum(entries, c.value) == r.productiveTime;
      }
    }
  }

  /**
   * getCategories over the month's answer: a category is listed exactly
   * when one of the user's stored days from today-30 on carries it, and the
   * listed totals add up to those days' categorized productive time.
   */
  lemma CategoriesOfMonth(records: map<Key, DayRecord>, user: UserId, today: int, entries: seq<DayRecord>, c: string)
    requires Answers(records, user, today - MonthBack, None, entries)
    ensures var keys := WindowKeys(records, user, today - MonthBack, None);
            && (c in CategoryOrder(entries) <==> exists k :: k in keys && CategoryOf(records[k]) == Some(c))
            && ListedTotal(entries, CategoryOrder(entries)) == KeySum(records, keys, CategorizedProductive)
  {
    var keys := WindowKeys(records, user, today - MonthBack, None);
    CategoryListedIffCarried(entries, c);
    CategoriesCoverCategorized(entries);
    AnswerSumIsWindowSum(records, user, today - MonthBack, None, entries, CategorizedProductive);
    if exists k :: k in keys && CategoryOf(records[k]) == Some(c) {
      var k :| k in keys && CategoryOf(records[k]) == Some(c);
      var i :| 0 <= i < |entries| && entries[i].date == k.day;
      assert CategoryOf(entries[i]) == Some(c);
    }
    if exists i :: 0 <= i < |entries| && CategoryOf(entries[i]) == Some(c) {
      var i :| 0 <= i < |entries| && CategoryOf(entries[i]) == Some(c);
      assert Key(user, entries[i].date) in keys;
    }
  }
}
