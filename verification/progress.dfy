/**
 * The progress store: one row per peak with the Bagged flag, the date
 * reached, the photo path and the activity link. Covers loading (with
 * de-duplication and defaults), saving, and the field edits the log book
 * makes. A blank cell in the Date, Photo or ActivityLink column is written
 * "" here, since every reader fills those blanks with "".
 */
module Progress {
  import opened Wrappers
  import opened Catalog

  /** A row of the in-memory progress table. */
  datatype ProgressRow = ProgressRow(
    mountain: string,
    bagged: bool,
    date: string,
    photo: string,
    activityLink: string)

  /** A row as read from the progress file: the Bagged cell may be blank. */
  datatype FileRow = FileRow(
    mountain: string,
    bagged: Option<bool>,
    date: string,
    photo: string,
    activityLink: string)

  /**
   * The progress file. Files written before activity links existed have no
   * ActivityLink column; `activityLink` in their rows is then meaningless.
   */
  datatype ProgressFile = ProgressFile(hasLinkColumn: bool, rows: seq<FileRow>)

  /** The row a peak gets before anything is recorded about it. */
  function Blank(mountain: string, bagged: bool): ProgressRow {
    ProgressRow(mountain, bagged, "", "", "")
  }

  function Mountains(rows: seq<ProgressRow>): set<string> {
    set i | 0 <= i < |rows| :: rows[i].mountain
  }

  /** At most one row per peak. */
  predicate UniqueNames(rows: seq<ProgressRow>) {
    forall i, j :: 0 <= i < j < |rows| ==> rows[i].mountain != rows[j].mountain
  }

  /** No later row of the file names the same peak as row `k`. */
  predicate IsLastOccurrence(rows: seq<FileRow>, k: int)
    requires 0 <= k < |rows|
  {
    forall j :: k < j < |rows| ==> rows[j].mountain != rows[k].mountain
  }

  predicate UniqueFileNames(rows: seq<FileRow>) {
    forall i, j :: 0 <= i < j < |rows| ==> rows[i].mountain != rows[j].mountain
  }

  function FileMountains(rows: seq<FileRow>): set<string> {
    set i | 0 <= i < |rows| :: rows[i].mountain
  }

  lemma FileMountainsCons(h: FileRow, t: seq<FileRow>)
    ensures FileMountains([h] + t) == {h.mountain} + FileMountains(t)
  {
    var s := [h] + t;
    assert forall i :: 0 < i < |s| ==> s[i] == t[i - 1];
    assert s[0] == h;
    forall x | x in FileMountains(t) ensures x in FileMountains(s) {
      var i :| 0 <= i < |t| && t[i].mountain == x;
      assert s[i + 1] == t[i];
    }
  }

  /** `drop_duplicates(subset=['Mountain'], keep='last')`: keeps each row that no later row supersedes, in file order. */
  function DedupKeepLast(rows: seq<FileRow>): (r: seq<FileRow>)
    ensures |r| <= |rows|
    ensures UniqueFileNames(r)
    ensures FileMountains(r) == FileMountains(rows)
  {
    if rows == [] then []
    else
      var rest := DedupKeepLast(rows[1..]);
      assert rows == [rows[0]] + rows[1..];
      FileMountainsCons(rows[0], rows[1..]);
      FileMountainsCons(rows[0], rest);
      if rows[0].mountain in FileMountains(rows[1..]) then rest
      else [rows[0]] + rest
  }

  /** Every row the file's last occurrence of a peak holds is kept. */
  lemma {:induction false} DedupKeepsLast(rows: seq<FileRow>, k: int)
    requires 0 <= k < |rows| && IsLastOccurrence(rows, k)
    ensures rows[k] in DedupKeepLast(rows)
  {
    if k == 0 {
      assert rows[0].mountain !in FileMountains(rows[1..]) by {
        forall i | 0 <= i < |rows[1..]| ensures rows[1..][i].mountain != rows[0].mountain {
          assert rows[1..][i] == rows[i + 1];
        }
      }
    } else {
      assert IsLastOccurrence(rows[1..], k - 1) by {
        forall j | k - 1 < j < |rows[1..]| ensures rows[1..][j].mountain != rows[1..][k - 1].mountain {
          assert rows[1..][j] == rows[j + 1];
        }
      }
      DedupKeepsLast(rows[1..], k - 1);
    }
  }

  /** Every kept row is the last occurrence of its peak in the file. */
  lemma {:induction false} DedupOnlyLast(rows: seq<FileRow>, r: FileRow)
    requires r in DedupKeepLast(rows)
    ensures exists k :: 0 <= k < |rows| && rows[k] == r && IsLastOccurrence(rows, k)
  {
    var rest := DedupKeepLast(rows[1..]);
    if r in rest {
      DedupOnlyLast(rows[1..], r);
      var k :| 0 <= k < |rows[1..]| && rows[1..][k] == r && IsLastOccurrence(rows[1..], k);
      assert rows[k + 1] == r;
      assert IsLastOccurrence(rows, k + 1) by {
        forall j | k + 1 < j < |rows| ensures rows[j].mountain != rows[k + 1].mountain {
          assert rows[j] == rows[1..][j - 1];
        }
      }
    } else {
      assert r == rows[0] && rows[0].mountain !in FileMountains(rows[1..]);
      assert IsLastOccurrence(rows, 0) by {
        forall j | 0 < j < |rows| ensures rows[j].mountain != rows[0].mountain {
          assert rows[j] == rows[1..][j - 1];
        }
      }
    }
  }

  /** Two rows for the same peak: only the later one survives. */
  lemma DedupKeepsLaterOfTwo(earlier: FileRow, later: FileRow)
    requires earlier.mountain == later.mountain
    ensures DedupKeepLast([earlier, later]) == [later]
  {
    assert [earlier, later][1..] == [later];
    FileMountainsCons(later, []);
    assert [later] + [] == [later];
  }

  /** A file already free of duplicates is kept as it is. */
  lemma {:induction false} DedupUnique(rows: seq<FileRow>)
    requires UniqueFileNames(rows)
    ensures DedupKeepLast(rows) == rows
  {
    if rows != [] {
      assert rows[0].mountain !in FileMountains(rows[1..]) by {
        forall i | 0 <= i < |rows[1..]| ensures rows[1..][i].mountain != rows[0].mountain {
          assert rows[1..][i] == rows[i + 1];
        }
      }
      DedupUnique(rows[1..]);
    }
  }

  /** `fillna(False)` on Bagged; the ActivityLink of a file without that column reads as "". */
  function FromFileRow(r: FileRow, hasLinkColumn: bool): (p: ProgressRow)
    ensures p.mountain == r.mountain && p.date == r.date && p.photo == r.photo
    ensures p.bagged <==> r.bagged == Some(true)
    ensures p.activityLink == (if hasLinkColumn then r.activityLink else "")
  {
    ProgressRow(r.mountain, r.bagged.GetOr(false), r.date, r.photo, if hasLinkColumn then r.activityLink else "")
  }

  function FromFileRows(rows: seq<FileRow>, hasLinkColumn: bool): (ps: seq<ProgressRow>)
    ensures |ps| == |rows|
    ensures forall i :: 0 <= i < |rows| ==> ps[i] == FromFileRow(rows[i], hasLinkColumn)
  {
    if rows == [] then [] else [FromFileRow(rows[0], hasLinkColumn)] + FromFileRows(rows[1..], hasLinkColumn)
  }

  /** The table synthesised when there is no progress file: one unbagged row per catalog peak, in catalog order. */
  function Defaults(catalog: seq<Peak>): (rows: seq<ProgressRow>)
    ensures |rows| == |catalog|
    ensures forall i :: 0 <= i < |catalog| ==> rows[i] == Blank(catalog[i].mountain, false)
  {
    if catalog == [] then [] else [Blank(catalog[0].mountain, false)] + Defaults(catalog[1..])
  }

  /** Loading the store: defaults when the file is absent, else the de-duplicated file with blanks filled. */
  function LoadProgress(store: Option<ProgressFile>, catalog: seq<Peak>): (rows: seq<ProgressRow>)
    ensures store.Some? ==> UniqueNames(rows)
    ensures store.Some? ==> Mountains(rows) == FileMountains(store.value.rows)
    ensures store.None? ==> rows == Defaults(catalog)
  {
    match store
    case None => Defaults(catalog)
    case Some(f) =>
      var kept := DedupKeepLast(f.rows);
      var rows := FromFileRows(kept, f.hasLinkColumn);
      assert Mountains(rows) == FileMountains(kept) by {
        assert forall i :: 0 <= i < |kept| ==> rows[i].mountain == kept[i].mountain;
      }
      rows
  }

  /** `to_csv`: the table as a file with every column present and no blank Bagged cell. */
  function ToFileRows(rows: seq<ProgressRow>): (fs: seq<FileRow>)
    ensures |fs| == |rows|
    ensures forall i :: 0 <= i < |rows| ==> fs[i].mountain == rows[i].mountain && fs[i].bagged.Some?
    ensures FromFileRows(fs, true) == rows
  {
    if rows == [] then []
    else
      var r := rows[0];
      [FileRow(r.mountain, Some(r.bagged), r.date, r.photo, r.activityLink)] + ToFileRows(rows[1..])
  }

  /** The file `to_csv` writes: every column present, one file row per table row, in order. */
  function Save(rows: seq<ProgressRow>): (f: ProgressFile)
    ensures f.hasLinkColumn && |f.rows| == |rows|
    ensures FromFileRows(f.rows, true) == rows
  {
    ProgressFile(true, ToFileRows(rows))
  }

  /** Saving a table keyed by peak and loading it again gives the same table. */
  lemma SaveLoadRoundTrip(rows: seq<ProgressRow>, catalog: seq<Peak>)
    requires UniqueNames(rows)
    ensures LoadProgress(Some(Save(rows)), catalog) == rows
  {
    DedupUnique(ToFileRows(rows));
  }

  /** A freshly loaded store is a fixed point of save-then-load. */
  lemma LoadSaveLoad(store: Option<ProgressFile>, catalog: seq<Peak>)
    requires store.Some? || UniqueNames(Defaults(catalog))
    ensures LoadProgress(Some(Save(LoadProgress(store, catalog))), catalog) == LoadProgress(store, catalog)
  {
    SaveLoadRoundTrip(LoadProgress(store, catalog), catalog);
  }

  /** The field changes the log book makes. */
  datatype Edit = SetBagged(bagged: bool) | SetDate(date: string) | SetPhoto(photo: string)

  function Apply(r: ProgressRow, e: Edit): (r': ProgressRow)
    ensures r'.mountain == r.mountain
    ensures r'.bagged == (if e.SetBagged? then e.bagged else r.bagged)
    ensures r'.date == (if e.SetDate? then e.date else r.date)
    ensures r'.photo == (if e.SetPhoto? then e.photo else r.photo)
    ensures r'.activityLink == r.activityLink
  {
    match e
    case SetBagged(b) => r.(bagged := b)
    case SetDate(d) => r.(date := d)
    case SetPhoto(p) => r.(photo := p)
  }

  /** `progress_df.loc[progress_df['Mountain'] == name, column] = value`: the edit on every row of that peak, no other row touched. */
  function EditWhere(rows: seq<ProgressRow>, name: string, e: Edit): (r: seq<ProgressRow>)
    ensures |r| == |rows|
    ensures forall i :: 0 <= i < |rows| && rows[i].mountain == name ==> r[i] == Apply(rows[i], e)
    ensures forall i :: 0 <= i < |rows| && rows[i].mountain != name ==> r[i] == rows[i]
  {
    if rows == [] then []
    else [if rows[0].mountain == name then Apply(rows[0], e) else rows[0]] + EditWhere(rows[1..], name, e)
  }

  /** An edit never changes which peaks the table has, so it keeps names unique. */
  lemma EditKeepsNames(rows: seq<ProgressRow>, name: string, e: Edit)
    ensures Mountains(EditWhere(rows, name, e)) == Mountains(rows)
    ensures UniqueNames(rows) ==> UniqueNames(EditWhere(rows, name, e))
  {
    var r := EditWhere(rows, name, e);
    assert forall i :: 0 <= i < |rows| ==> r[i].mountain == rows[i].mountain;
  }

  /** An edit for a peak with no row leaves the table as it is. */
  lemma EditAbsentIsNoop(rows: seq<ProgressRow>, name: string, e: Edit)
    requires name !in Mountains(rows)
    ensures EditWhere(rows, name, e) == rows
  {
    assert forall i :: 0 <= i < |rows| ==> rows[i].mountain != name;
  }

  /**
   * The checkbox write: a peak with no row gets one new row holding only the
   * name and the flag, appended; otherwise Bagged is set on that peak's rows.
   */
  function Upsert(rows: seq<ProgressRow>, name: string, bagged: bool): (r: seq<ProgressRow>)
    ensures name !in Mountains(rows) ==> r == rows + [Blank(name, bagged)]
    ensures name in Mountains(rows) ==> r == EditWhere(rows, name, SetBagged(bagged))
  {
    if name !in Mountains(rows) then rows + [Blank(name, bagged)]
    else EditWhere(rows, name, SetBagged(bagged))
  }

  /** After the checkbox write the peak has a row, every row of it carries the new flag, and nothing else changed. */
  lemma UpsertEffect(rows: seq<ProgressRow>, name: string, bagged: bool)
    ensures Mountains(Upsert(rows, name, bagged)) == Mountains(rows) + {name}
    ensures |Upsert(rows, name, bagged)| == |rows| + (if name in Mountains(rows) then 0 else 1)
    ensures forall i :: 0 <= i < |rows| && rows[i].mountain != name ==> Upsert(rows, name, bagged)[i] == rows[i]
    ensures forall i :: 0 <= i < |rows| && rows[i].mountain == name ==> Upsert(rows, name, bagged)[i] == rows[i].(bagged := bagged)
    ensures forall r :: r in Upsert(rows, name, bagged) && r.mountain == name ==> r.bagged == bagged
    ensures UniqueNames(rows) ==> UniqueNames(Upsert(rows, name, bagged))
  {
    var r := Upsert(rows, name, bagged);
    if name in Mountains(rows) {
      EditKeepsNames(rows, name, SetBagged(bagged));
    } else {
      assert Mountains(r) == Mountains(rows) + {name} by {
        assert forall i :: 0 <= i < |rows| ==> r[i] == rows[i];
        assert r[|rows|].mountain == name;
      }
    }
  }

  /** Ticking the same box twice stores one record, not two. */
  lemma UpsertIdempotent(rows: seq<ProgressRow>, name: string, bagged: bool)
    ensures Upsert(Upsert(rows, name, bagged), name, bagged) == Upsert(rows, name, bagged)
  {
    var once := Upsert(rows, name, bagged);
    UpsertEffect(rows, name, bagged);
    assert name in Mountains(once);
    var twice := EditWhere(once, name, SetBagged(bagged));
    assert |twice| == |once|;
    forall i | 0 <= i < |once| ensures twice[i] == once[i] {
      if once[i].mountain == name {
        assert once[i] in once;
      }
    }
  }
}
