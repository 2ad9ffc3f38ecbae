/**
 * Listing order of the blog's tables. Rows are identified by their primary
 * key (a `nat`); `date` gives each row's sort key (`pub_date`). Posts are
 * listed newest first (`ordering = ['-pub_date']`), comments oldest first
 * (`ordering = ['pub_date']`). The database leaves the order of rows with
 * equal dates unspecified; so does this model.
 */
module Ordering {

  /** `a` may be listed before `b`. */
  predicate Precedes(date: map<nat, int>, a: nat, b: nat, newestFirst: bool)
    requires a in date && b in date
  {
    if newestFirst then date[b] <= date[a] else date[a] <= date[b]
  }

  predicate Sorted(s: seq<nat>, date: map<nat, int>, newestFirst: bool)
    requires forall i :: 0 <= i < |s| ==> s[i] in date
  {
    forall i, j :: 0 <= i < j < |s| ==> Precedes(date, s[i], s[j], newestFirst)
  }

  predicate Distinct(s: seq<nat>)
  {
    forall i, j :: 0 <= i < j < |s| ==> s[i] != s[j]
  }

  /** `x` may come first among `ids`. */
  predicate IsFirst(x: nat, ids: set<nat>, date: map<nat, int>, newestFirst: bool)
    requires x in date && ids <= date.Keys
  {
    forall y :: y in ids ==> Precedes(date, x, y, newestFirst)
  }

  /** Every non-empty finite set of rows has a row that may be listed first. */
  lemma {:induction false} FirstExists(ids: set<nat>, date: map<nat, int>, newestFirst: bool)
    requires ids != {} && ids <= date.Keys
    ensures exists x :: x in ids && IsFirst(x, ids, date, newestFirst)
    decreases ids
  {
    var y :| y in ids;
    if ids == {y} {
      assert IsFirst(y, ids, date, newestFirst);
    } else {
      var rest := ids - {y};
      FirstExists(rest, date, newestFirst);
      var z :| z in rest && IsFirst(z, rest, date, newestFirst);
      if Precedes(date, z, y, newestFirst) {
        assert IsFirst(z, ids, date, newestFirst);
      } else {
        // the order is total, so `y` precedes `z` and hence every other row
        forall w | w in ids ensures Precedes(date, y, w, newestFirst) {
          if w != y {
            assert Precedes(date, z, w, newestFirst);
          }
        }
      }
    }
  }

  /**
   * The rows `ids` as a listing: each row exactly once, in date order.
   */
  ghost function Listing(ids: set<nat>, date: map<nat, int>, newestFirst: bool): (r: seq<nat>)
    requires ids <= date.Keys
    ensures |r| == |ids|
    ensures forall x :: x in r <==> x in ids
    ensures Distinct(r)
    ensures Sorted(r, date, newestFirst)
    decreases ids
  {
    if ids == {} then []
    else
      FirstExists(ids, date, newestFirst);
      var x :| x in ids && IsFirst(x, ids, date, newestFirst);
      [x] + Listing(ids - {x}, date, newestFirst)
  }
}
