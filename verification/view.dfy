/**
 * The unified view every surface of the tracker reads: the catalog
 * left-joined with the progress table on the peak name, the header
 * statistics and per-region tallies computed from it, and the log book's
 * search and status filter.
 */
module View {
  import opened Wrappers
  import opened Text
  import opened Catalog
  import opened Progress

  /** A catalog peak with its progress fields attached. */
  datatype ViewRow = ViewRow(
    peak: Peak,
    bagged: bool,
    date: string,
    photo: string,
    activityLink: string)

  /** A peak with no progress row: not bagged, every text field "". */
  function Unrecorded(p: Peak): ViewRow {
    ViewRow(p, false, "", "", "")
  }

  function Joined(p: Peak, r: ProgressRow): ViewRow {
    ViewRow(p, r.bagged, r.date, r.photo, r.activityLink)
  }

  /** The progress rows of one peak, in table order. */
  function Matching(rows: seq<ProgressRow>, name: string): (ms: seq<ProgressRow>)
    ensures |ms| <= |rows|
    ensures forall i :: 0 <= i < |ms| ==> ms[i].mountain == name
  {
    if rows == [] then []
    else if rows[0].mountain == name then [rows[0]] + Matching(rows[1..], name)
    else Matching(rows[1..], name)
  }

  /** With one row per peak, a peak matches its own row or nothing. */
  lemma {:induction false} MatchingUnique(rows: seq<ProgressRow>, name: string)
    requires UniqueNames(rows)
    ensures name !in Mountains(rows) ==> Matching(rows, name) == []
    ensures forall j :: 0 <= j < |rows| && rows[j].mountain == name ==> Matching(rows, name) == [rows[j]]
  {
    if rows != [] {
      var t := rows[1..];
      assert UniqueNames(t) by {
        forall i, j | 0 <= i < j < |t| ensures t[i].mountain != t[j].mountain {
          assert t[i] == rows[i + 1] && t[j] == rows[j + 1];
        }
      }
      MatchingUnique(t, name);
      assert Mountains(rows) == {rows[0].mountain} + Mountains(t) by {
        assert rows == [rows[0]] + t;
        forall x | x in Mountains(t) ensures x in Mountains(rows) {
          var i :| 0 <= i < |t| && t[i].mountain == x;
          assert rows[i + 1] == t[i];
        }
      }
      if rows[0].mountain == name {
        assert name !in Mountains(t) by {
          forall i | 0 <= i < |t| ensures t[i].mountain != name {
            assert t[i] == rows[i + 1];
          }
        }
      }
      forall j | 0 <= j < |rows| && rows[j].mountain == name ensures Matching(rows, name) == [rows[j]] {
        if j > 0 {
          assert t[j - 1] == rows[j];
        }
      }
    }
  }

  function JoinAll(p: Peak, ms: seq<ProgressRow>): (vs: seq<ViewRow>)
    ensures |vs| == |ms|
    ensures forall i :: 0 <= i < |ms| ==> vs[i] == Joined(p, ms[i])
  {
    if ms == [] then [] else [Joined(p, ms[0])] + JoinAll(p, ms[1..])
  }

  /** The rows one catalog peak contributes to a left join. */
  function JoinPeak(p: Peak, rows: seq<ProgressRow>): (vs: seq<ViewRow>)
    ensures |vs| >= 1
    ensures forall i :: 0 <= i < |vs| ==> vs[i].peak == p
  {
    var ms := Matching(rows, p.mountain);
    if ms == [] then [Unrecorded(p)] else JoinAll(p, ms)
  }

  /** `pd.merge(catalog, progress, on='Mountain', how='left')` with the blanks filled. */
  function Merge(catalog: seq<Peak>, rows: seq<ProgressRow>): (v: seq<ViewRow>)
    ensures |v| >= |catalog|
    ensures forall i :: 0 <= i < |v| ==> v[i].peak in catalog
  {
    if catalog == [] then []
    else
      var head := JoinPeak(catalog[0], rows);
      var tail := Merge(catalog[1..], rows);
      assert forall i :: 0 <= i < |tail| ==> tail[i].peak in catalog[1..];
      head + tail
  }

  /** A left join loses no catalog peak, whatever the progress table holds. */
  lemma {:induction false} MergeCovers(catalog: seq<Peak>, rows: seq<ProgressRow>)
    ensures forall p :: p in catalog ==> exists x :: x in Merge(catalog, rows) && x.peak == p
  {
    if catalog != [] {
      var head := JoinPeak(catalog[0], rows);
      var tail := Merge(catalog[1..], rows);
      var v := Merge(catalog, rows);
      assert v == head + tail;
      MergeCovers(catalog[1..], rows);
      forall p | p in catalog ensures exists x :: x in v && x.peak == p {
        if p == catalog[0] {
          assert v[0] == head[0];
        } else {
          assert p in catalog[1..];
          var x :| x in tail && x.peak == p;
          assert x in v;
        }
      }
    }
  }

  /** The view row a peak gets from the first of its progress rows, or the defaults. */
  function RowFor(p: Peak, rows: seq<ProgressRow>): ViewRow {
    var ms := Matching(rows, p.mountain);
    if ms == [] then Unrecorded(p) else Joined(p, ms[0])
  }

  lemma {:induction false} MergeIsRowFor(catalog: seq<Peak>, rows: seq<ProgressRow>)
    requires UniqueNames(rows)
    ensures |Merge(catalog, rows)| == |catalog|
    ensures forall i :: 0 <= i < |catalog| ==> Merge(catalog, rows)[i] == RowFor(catalog[i], rows)
  {
    if catalog != [] {
      var p := catalog[0];
      MatchingUnique(rows, p.mountain);
      MergeIsRowFor(catalog[1..], rows);
      var head := JoinPeak(p, rows);
      assert |head| == 1 && head[0] == RowFor(p, rows);
      var v := Merge(catalog, rows);
      assert v == head + Merge(catalog[1..], rows);
      forall i | 0 < i < |catalog| ensures v[i] == RowFor(catalog[i], rows) {
        assert v[i] == Merge(catalog[1..], rows)[i - 1];
        assert catalog[i] == catalog[1..][i - 1];
      }
    }
  }

  /**
   * With one progress row per peak the view has exactly one row per catalog
   * peak, in catalog order, carrying the peak's progress fields or the
   * defaults when it has none.
   */
  lemma MergeOneRowPerPeak(catalog: seq<Peak>, rows: seq<ProgressRow>)
    requires UniqueNames(rows)
    ensures |Merge(catalog, rows)| == |catalog|
    ensures forall i :: 0 <= i < |catalog| ==> Merge(catalog, rows)[i].peak == catalog[i]
    ensures forall i :: 0 <= i < |catalog| && catalog[i].mountain !in Mountains(rows) ==>
      Merge(catalog, rows)[i] == Unrecorded(catalog[i])
    ensures forall i, j :: 0 <= i < |catalog| && 0 <= j < |rows| && rows[j].mountain == catalog[i].mountain ==>
      Merge(catalog, rows)[i] == Joined(catalog[i], rows[j])
  {
    MergeIsRowFor(catalog, rows);
    forall i | 0 <= i < |catalog| ensures Merge(catalog, rows)[i].peak == catalog[i] {
      MatchingUnique(rows, catalog[i].mountain);
    }
    forall i | 0 <= i < |catalog| && catalog[i].mountain !in Mountains(rows)
      ensures Merge(catalog, rows)[i] == Unrecorded(catalog[i])
    {
      MatchingUnique(rows, catalog[i].mountain);
    }
    forall i, j | 0 <= i < |catalog| && 0 <= j < |rows| && rows[j].mountain == catalog[i].mountain
      ensures Merge(catalog, rows)[i] == Joined(catalog[i], rows[j])
    {
      MatchingUnique(rows, catalog[i].mountain);
    }
  }

  /** The view built from a file that predates activity links: every link is "" and every peak still gets its row. */
  lemma OldFileLoadsWithEmptyLinks(catalog: seq<Peak>, f: ProgressFile)
    requires !f.hasLinkColumn
    ensures |Merge(catalog, LoadProgress(Some(f), catalog))| == |catalog|
    ensures forall x :: x in Merge(catalog, LoadProgress(Some(f), catalog)) ==> x.activityLink == ""
  {
    var rows := LoadProgress(Some(f), catalog);
    MergeOneRowPerPeak(catalog, rows);
    var v := Merge(catalog, rows);
    forall x | x in v ensures x.activityLink == "" {
      var i :| 0 <= i < |v| && v[i] == x;
      if catalog[i].mountain in Mountains(rows) {
        var j :| 0 <= j < |rows| && rows[j].mountain == catalog[i].mountain;
      }
    }
  }

  /**
   * The unified view as the program builds it: filling ActivityLink reads a
   * column the table must have, so a progress file without that column stops
   * the program (`None`).
   */
  function ViewAsWritten(catalog: seq<Peak>, store: Option<ProgressFile>): (v: Option<seq<ViewRow>>)
    ensures v.None? <==> store.Some? && !store.value.hasLinkColumn
  {
    if store.Some? && !store.value.hasLinkColumn then None
    else Some(Merge(catalog, LoadProgress(store, catalog)))
  }

  /** A progress file with columns Mountain, Bagged, Date and Photo only: the program as written cannot show any view. */
  lemma OldFileBreaksViewAsWritten(catalog: seq<Peak>)
    ensures ViewAsWritten(catalog, Some(ProgressFile(false, [FileRow("Snowdon", Some(true), "2024-05-01", "", "")]))) == None
  {
  }

  /** After a reset (no progress file) the view lists every catalog peak once, none of them bagged. */
  lemma ViewAfterReset(catalog: seq<Peak>)
    ensures forall x :: x in Merge(catalog, LoadProgress(None, catalog)) ==> !x.bagged && x.date == "" && x.photo == "" && x.activityLink == ""
    ensures UniqueNames(Defaults(catalog)) ==> |Merge(catalog, LoadProgress(None, catalog))| == |catalog|
  {
    var rows := Defaults(catalog);
    JoinedDefaultsBlank(catalog, rows);
    if UniqueNames(rows) {
      MergeOneRowPerPeak(catalog, rows);
    }
  }

  lemma {:induction false} JoinedDefaultsBlank(catalog: seq<Peak>, rows: seq<ProgressRow>)
    requires forall r :: r in rows ==> !r.bagged && r.date == "" && r.photo == "" && r.activityLink == ""
    ensures forall x :: x in Merge(catalog, rows) ==> !x.bagged && x.date == "" && x.photo == "" && x.activityLink == ""
  {
    if catalog != [] {
      JoinedDefaultsBlank(catalog[1..], rows);
      var ms := Matching(rows, catalog[0].mountain);
      MatchingInRows(rows, catalog[0].mountain);
      var head := JoinPeak(catalog[0], rows);
      forall x | x in head ensures !x.bagged && x.date == "" && x.photo == "" && x.activityLink == "" {
        if ms != [] {
          var i :| 0 <= i < |head| && head[i] == x;
          assert ms[i] in ms;
        }
      }
    }
  }

  lemma {:induction false} MatchingInRows(rows: seq<ProgressRow>, name: string)
    ensures forall r :: r in Matching(rows, name) ==> r in rows
  {
    if rows != [] {
      MatchingInRows(rows[1..], name);
    }
  }

  /** Ticking a peak's box shows it with the new flag in the next view; every other row of the view is as before. */
  lemma ToggleShowsInView(catalog: seq<Peak>, rows: seq<ProgressRow>, name: string, bagged: bool)
    requires UniqueNames(rows)
    ensures |Merge(catalog, Upsert(rows, name, bagged))| == |catalog|
    ensures forall i :: 0 <= i < |catalog| && catalog[i].mountain == name ==>
      Merge(catalog, Upsert(rows, name, bagged))[i].bagged == bagged
    ensures forall i :: 0 <= i < |catalog| && catalog[i].mountain != name ==>
      Merge(catalog, Upsert(rows, name, bagged))[i] == Merge(catalog, rows)[i]
  {
    var up := Upsert(rows, name, bagged);
    UpsertEffect(rows, name, bagged);
    MergeOneRowPerPeak(catalog, rows);
    MergeOneRowPerPeak(catalog, up);
    forall i | 0 <= i < |catalog| && catalog[i].mountain == name
      ensures Merge(catalog, up)[i].bagged == bagged
    {
      var j :| 0 <= j < |up| && up[j].mountain == name;
      assert up[j] in up;
    }
    forall i | 0 <= i < |catalog| && catalog[i].mountain != name
      ensures Merge(catalog, up)[i] == Merge(catalog, rows)[i]
    {
      if catalog[i].mountain in Mountains(rows) {
        var j :| 0 <= j < |rows| && rows[j].mountain == catalog[i].mountain;
        assert up[j] == rows[j];
      }
    }
  }

  // ---------------------------------------------------------------------
  // Statistics

  function BaggedCount(view: seq<ViewRow>): (n: nat)
    ensures n <= |view|
  {
    if view == [] then 0 else (if view[0].bagged then 1 else 0) + BaggedCount(view[1..])
  }

  function TotalHeight(view: seq<ViewRow>): nat {
    if view == [] then 0 else view[0].peak.height + TotalHeight(view[1..])
  }

  /** Elevation gained: the heights of the bagged rows only. */
  function BaggedElevation(view: seq<ViewRow>): (e: nat)
    ensures e <= TotalHeight(view)
  {
    if view == [] then 0
    else (if view[0].bagged then view[0].peak.height else 0) + BaggedElevation(view[1..])
  }

  lemma DivBounds(n: nat, d: nat)
    requires d > 0
    ensures (n / d) * d <= n < (n / d) * d + d
  {
  }

  lemma MulMonotone(a: nat, b: nat, d: nat)
    requires a <= b
    ensures a * d <= b * d
  {
  }

  /** Completion in whole percent, truncated; 0 for an empty view. */
  function Percent(bagged: nat, total: nat): (p: nat)
    ensures total == 0 ==> p == 0
    ensures total > 0 ==> p * total <= bagged * 100 < (p + 1) * total
    ensures bagged <= total ==> p <= 100
  {
    if total > 0 then
      var p := bagged * 100 / total;
      DivBounds(bagged * 100, total);
      assert (p + 1) * total == p * total + total;
      assert bagged <= total ==> p <= 100 by {
        if bagged <= total {
          MulMonotone(bagged, total, 100);
          if p > 100 {
            MulMonotone(101, p, total);
            assert false;
          }
        }
      }
      p
    else 0
  }

  lemma PercentExample()
    ensures Percent(1, 3) == 33
  {
  }

  datatype Stats = Stats(total: nat, bagged: nat, remaining: nat, percent: nat, elevation: nat)

  /** The header figures: summited/total, completion, elevation gained, remaining. */
  function Summarise(view: seq<ViewRow>): (s: Stats)
    ensures s.total == |view|
    ensures s.bagged + s.remaining == s.total
    ensures s.percent <= 100 && (s.total == 0 ==> s.percent == 0)
    ensures s.elevation <= TotalHeight(view)
  {
    var total := |view|;
    var bagged := BaggedCount(view);
    Stats(total, bagged, total - bagged, Percent(bagged, total), BaggedElevation(view))
  }

  /** An unbagged row's height never counts towards the elevation gained, whatever it is. */
  lemma {:induction false} ElevationIgnoresUnbagged(view: seq<ViewRow>, i: nat, h: nat)
    requires i < |view| && !view[i].bagged
    ensures BaggedElevation(view[i := view[i].(peak := view[i].peak.(height := h))]) == BaggedElevation(view)
  {
    var v' := view[i := view[i].(peak := view[i].peak.(height := h))];
    if i > 0 {
      assert v'[1..] == view[1..][i - 1 := view[i].(peak := view[i].peak.(height := h))];
      ElevationIgnoresUnbagged(view[1..], i - 1, h);
    } else {
      assert v'[1..] == view[1..];
    }
  }

  // ---------------------------------------------------------------------
  // Per-region tallies

  datatype Tally = Tally(completed: nat, total: nat)

  function Regions(view: seq<ViewRow>): set<string> {
    set i | 0 <= i < |view| :: view[i].peak.region
  }

  function RegionRows(view: seq<ViewRow>, region: string): nat {
    if view == [] then 0
    else (if view[0].peak.region == region then 1 else 0) + RegionRows(view[1..], region)
  }

  function RegionBagged(view: seq<ViewRow>, region: string): nat {
    if view == [] then 0
    else (if view[0].peak.region == region && view[0].bagged then 1 else 0) + RegionBagged(view[1..], region)
  }

  lemma {:induction false} RegionCountsSnoc(view: seq<ViewRow>, x: ViewRow, region: string)
    ensures RegionRows(view + [x], region) == RegionRows(view, region) + (if x.peak.region == region then 1 else 0)
    ensures RegionBagged(view + [x], region) == RegionBagged(view, region) + (if x.peak.region == region && x.bagged then 1 else 0)
  {
    if view != [] {
      assert (view + [x])[1..] == view[1..] + [x];
      RegionCountsSnoc(view[1..], x, region);
    } else {
      assert [] + [x] == [x];
    }
  }

  /** `groupby('Region')['Bagged'].agg(['sum', 'count'])`, one row at a time. */
  function RegionTally(view: seq<ViewRow>): (m: map<string, Tally>)
    ensures m.Keys == Regions(view)
    ensures forall region :: region in m ==> 0 < m[region].total && m[region].completed <= m[region].total
  {
    if view == [] then map[]
    else
      var init := view[..|view| - 1];
      var x := view[|view| - 1];
      var m := RegionTally(init);
      assert Regions(view) == Regions(init) + {x.peak.region} by {
        forall r | r in Regions(view) ensures r in Regions(init) + {x.peak.region} {
          var i :| 0 <= i < |view| && view[i].peak.region == r;
          if i < |view| - 1 { assert init[i] == view[i]; }
        }
        forall r | r in Regions(init) ensures r in Regions(view) {
          var i :| 0 <= i < |init| && init[i].peak.region == r;
          assert view[i] == init[i];
        }
      }
      var t := if x.peak.region in m then m[x.peak.region] else Tally(0, 0);
      m[x.peak.region := Tally(t.completed + (if x.bagged then 1 else 0), t.total + 1)]
  }

  /** Each region's tally is the number of its rows and of its bagged rows. */
  lemma {:induction false} RegionTallyCounts(view: seq<ViewRow>, region: string)
    ensures region in RegionTally(view) ==>
      RegionTally(view)[region] == Tally(RegionBagged(view, region), RegionRows(view, region))
    ensures region !in RegionTally(view) ==> RegionRows(view, region) == 0 && RegionBagged(view, region) == 0
  {
    if view != [] {
      var init := view[..|view| - 1];
      var x := view[|view| - 1];
      assert view == init + [x];
      RegionTallyCounts(init, region);
      RegionCountsSnoc(init, x, region);
    }
  }

  // ---------------------------------------------------------------------
  // The log book

  datatype Show = All | ToDo | Completed

  /** `str.contains(term, case=False)` read as a plain substring test. */
  function MatchesSearch(mountain: string, term: string): (b: bool)
    ensures b <==> exists k :: OccursAt(Lower(mountain), Lower(term), k)
    ensures Lower(mountain) == Lower(term) ==> b
    ensures b ==> |term| <= |mountain|
  {
    assert Lower(term) <= Lower(term);
    ContainsLength(Lower(mountain), Lower(term));
    ContainsIffOccurs(Lower(mountain), Lower(term));
    Contains(Lower(mountain), Lower(term))
  }

  /** Searching "snow" finds "Snowdon": case is ignored and a part of the name is enough. */
  lemma SearchExampleSnowdon()
    ensures MatchesSearch("Snowdon", "snow")
  {
    assert Lower("Snowdon")[0..4] == Lower("snow");
    assert OccursAt(Lower("Snowdon"), Lower("snow"), 0);
  }

  /** Whether the log book lists a row: it passes the search (an empty search passes everything) and the status filter. */
  function Shown(x: ViewRow, term: string, show: Show): (b: bool)
    ensures term == [] && show == All ==> b
    ensures b && show == ToDo ==> !x.bagged
    ensures b && show == Completed ==> x.bagged
    ensures b && term != [] ==> MatchesSearch(x.peak.mountain, term)
  {
    (term == [] || MatchesSearch(x.peak.mountain, term))
    && match show
       case All => true
       case ToDo => !x.bagged
       case Completed => x.bagged
  }

  /** The rows the log book lists for a search text and a status filter, in view order. */
  function LogBook(view: seq<ViewRow>, term: string, show: Show): (r: seq<ViewRow>)
    ensures |r| <= |view|
    ensures forall x :: x in r <==> x in view && Shown(x, term, show)
  {
    if view == [] then []
    else
      var rest := LogBook(view[1..], term, show);
      assert forall x :: x in view <==> x == view[0] || x in view[1..] by {
        assert view == [view[0]] + view[1..];
      }
      if Shown(view[0], term, show) then [view[0]] + rest else rest
  }

  /** With no search text and no status filter the log book lists the whole view. */
  lemma {:induction false} LogBookAllIsView(view: seq<ViewRow>)
    ensures LogBook(view, "", All) == view
  {
    if view != [] {
      LogBookAllIsView(view[1..]);
    }
  }

  /** "To Do" and "Completed" split the listed rows, and their sizes are the header's remaining and summited figures. */
  lemma {:induction false} LogBookCounts(view: seq<ViewRow>, term: string)
    ensures |LogBook(view, term, ToDo)| + |LogBook(view, term, Completed)| == |LogBook(view, term, All)|
    ensures term == [] ==> |LogBook(view, term, Completed)| == Summarise(view).bagged
    ensures term == [] ==> |LogBook(view, term, ToDo)| == Summarise(view).remaining
  {
    if view != [] {
      LogBookCounts(view[1..], term);
    }
  }

  /** The elevation gained is the total height of the log book's "Completed" list. */
  lemma {:induction false} ElevationOverCompleted(view: seq<ViewRow>)
    ensures BaggedElevation(view) == TotalHeight(LogBook(view, "", Completed))
  {
    if view != [] {
      ElevationOverCompleted(view[1..]);
    }
  }
}
