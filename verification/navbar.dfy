/**
 * The navigation bar: the once-a-day page-view recording per path, the
 * active-link highlight and the language toggle.
 */
module Navbar {
  import opened Wrappers
  import opened JsString
  import opened Decimal
  import opened I18n

  /** One day in milliseconds, written as the source writes it. */
  const Day: nat := 24 * 60 * 60 * 1000

  /** The storage key of a path's last recorded visit. */
  function VisitKey(path: string): (key: string)
    ensures |key| == |path| + 3 && key[..3] == "pv_" && key[3..] == path
  {
    "pv_" + path
  }

  lemma VisitKeyInjective(a: string, b: string)
    ensures VisitKey(a) == VisitKey(b) ==> a == b
  {
  }

  /** Whether the `page_views` insert came back (with or without a database error) or threw. */
  datatype InsertOutcome = Returned | Threw

  /** The browser storage (all keys, not only the visit stamps) and whether an insert was sent. */
  datatype Visit = Visit(storage: map<string, string>, inserted: bool)

  /** `last && now - Number(last) < DAY`; a stamp that is not a number compares false. */
  predicate RecentlyRecorded(last: Option<string>, now: nat) {
    Truthy(last) && ToNumber(last.value).Some? && now - ToNumber(last.value).value < Day
  }

  /**
   * `recordVisit`: skip when the path's stamp is less than a day old, else
   * insert a page view and, when the insert did not throw, stamp the path
   * with the current time.
   */
  function RecordVisit(storage: map<string, string>, path: string, now: nat, outcome: InsertOutcome): (v: Visit)
    ensures VisitKey(path) !in storage ==> v.inserted
    ensures forall t: nat :: VisitKey(path) in storage && storage[VisitKey(path)] == FromNat(t) ==>
              (v.inserted <==> now - t >= Day)
    ensures VisitKey(path) in storage && ToNumber(storage[VisitKey(path)]).None? ==> v.inserted
    ensures v.inserted && outcome == Returned ==> v.storage == storage[VisitKey(path) := FromNat(now)]
    ensures !v.inserted || outcome == Threw ==> v.storage == storage
  {
    var key := VisitKey(path);
    var last := if key in storage then Some(storage[key]) else None;
    assert forall t: nat :: key in storage && storage[key] == FromNat(t) ==> ToNumber(storage[key]) == Some(t) by {
      forall t: nat | key in storage && storage[key] == FromNat(t) ensures ToNumber(storage[key]) == Some(t) {
        ToNumberFromNat(t);
      }
    }
    if RecentlyRecorded(last, now) then Visit(storage, false)
    else if outcome == Threw then Visit(storage, true)
    else Visit(storage[key := FromNat(now)], true)
  }

  /** A second visit to the same path less than a day (86,400,000 ms) after a recorded one sends nothing. */
  lemma {:induction false} RevisitWithinDaySkipped(storage: map<string, string>, path: string, t0: nat, t1: nat, o: InsertOutcome)
    requires t0 <= t1 < t0 + 86400000
    ensures var first := RecordVisit(storage, path, t0, Returned);
            first.inserted ==> !RecordVisit(first.storage, path, t1, o).inserted
  {
    var first := RecordVisit(storage, path, t0, Returned);
    if first.inserted {
      assert first.storage[VisitKey(path)] == FromNat(t0);
      ToNumberFromNat(t0);
    }
  }

  /** A visit a day (86,400,000 ms) or more after a recorded one is recorded again. */
  lemma {:induction false} RevisitAfterDayRecorded(storage: map<string, string>, path: string, t0: nat, t1: nat, o: InsertOutcome)
    requires t1 >= t0 + 86400000
    ensures var first := RecordVisit(storage, path, t0, Returned);
            first.inserted ==> RecordVisit(first.storage, path, t1, o).inserted
  {
    var first := RecordVisit(storage, path, t0, Returned);
    if first.inserted {
      assert first.storage[VisitKey(path)] == FromNat(t0);
      ToNumberFromNat(t0);
    }
  }

  /** Visiting one path neither reads nor writes the stamp of another. */
  lemma OtherPathsUntouched(storage: map<string, string>, path: string, other: string, now: nat, o: InsertOutcome)
    requires other != path
    ensures var v := RecordVisit(storage, path, now, o);
            (VisitKey(other) in v.storage <==> VisitKey(other) in storage)
            && (VisitKey(other) in storage ==> v.storage[VisitKey(other)] == storage[VisitKey(other)])
  {
    VisitKeyInjective(path, other);
  }

  /** The links in menu order. */
  const NavPaths: seq<string> := ["/", "/students", "/business", "/portfolio", "/contact"]

  /** `location.pathname === link.path`. */
  predicate IsActive(pathname: string, linkPath: string) {
    pathname == linkPath
  }

  /** The menu paths are distinct, so at most one link is highlighted; on a menu path exactly that one. */
  lemma AtMostOneActive(pathname: string)
    ensures forall i, j :: 0 <= i < |NavPaths| && 0 <= j < |NavPaths| && IsActive(pathname, NavPaths[i]) && IsActive(pathname, NavPaths[j]) ==> i == j
  {
    forall i, j | 0 <= i < |NavPaths| && 0 <= j < |NavPaths| && IsActive(pathname, NavPaths[i]) && IsActive(pathname, NavPaths[j])
      ensures i == j
    {
      assert NavPaths[i] == NavPaths[j];
      assert NavPaths[0] == "/" && NavPaths[1] == "/students" && NavPaths[2] == "/business";
      assert NavPaths[3] == "/portfolio" && NavPaths[4] == "/contact";
    }
  }

  /** `setLang(lang === 'en' ? 'ar' : 'en')`. */
  function Toggle(lang: Lang): (r: Lang)
    ensures r != lang
  {
    if lang == En then Ar else En
  }

  lemma ToggleTwice(lang: Lang)
    ensures Toggle(Toggle(lang)) == lang
  {
  }
}
