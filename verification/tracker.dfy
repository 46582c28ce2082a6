/**
 * One session of the tracker: the progress table held in memory, the
 * progress file it is persisted to, and the reset generation. The log
 * book's edits change the table in place and persist it at once; a
 * factory reset deletes the file and bumps the generation.
 */
module Tracker {
  import opened Wrappers
  import opened Catalog
  import opened Progress
  import opened Naming
  import opened View

  class Tracker {
    /** The catalog as loaded, read-only for the whole session. */
    const catalog: seq<Peak>
    /** Whether the "/data" volume exists, which decides where photos go. */
    const hasDataVolume: bool
    /** The progress file as last persisted; `None` when there is none. */
    var store: Option<ProgressFile>
    /** The in-memory progress table. */
    var rows: seq<ProgressRow>
    /** The reset generation that widget keys carry. */
    var resetId: nat

    /** Start of a session: the generation is 0 and the table is loaded from the store. */
    constructor (catalog: seq<Peak>, store: Option<ProgressFile>, hasDataVolume: bool)
      ensures this.catalog == catalog && this.hasDataVolume == hasDataVolume
      ensures this.store == store && resetId == 0
      ensures rows == LoadProgress(store, catalog)
    {
      this.catalog := catalog;
      this.hasDataVolume := hasDataVolume;
      this.store := store;
      this.rows := LoadProgress(store, catalog);
      this.resetId := 0;
    }

    /** The unified view of the current table. */
    function View(): (v: seq<ViewRow>)
      reads this
      ensures |v| >= |catalog|
      ensures forall p :: p in catalog ==> exists x :: x in v && x.peak == p
    {
      MergeCovers(catalog, rows);
      Merge(catalog, rows)
    }

    /** A re-run of the page: the table is read again from the store. */
    method Reload()
      modifies this
      ensures rows == LoadProgress(store, catalog)
      ensures store == old(store) && resetId == old(resetId)
    {
      rows := LoadProgress(store, catalog);
    }

    /** The table is written to the progress file. */
    method Persist()
      modifies this
      ensures store == Some(Save(rows))
      ensures rows == old(rows) && resetId == old(resetId)
    {
      store := Some(Save(rows));
    }

    /** The "Summited" checkbox changed: upsert the flag and persist. */
    method ToggleBagged(name: string, bagged: bool)
      requires name in Names(catalog)
      modifies this
      ensures rows == Upsert(old(rows), name, bagged)
      ensures store == Some(Save(rows)) && resetId == old(resetId)
      ensures UniqueNames(old(rows)) ==> UniqueNames(rows)
      ensures Mountains(rows) <= Mountains(old(rows)) + Names(catalog)
    {
      if name !in Mountains(rows) {
        rows := rows + [Blank(name, bagged)];
      } else {
        rows := EditWhere(rows, name, SetBagged(bagged));
      }
      UpsertEffect(old(rows), name, bagged);
      Persist();
    }

    /** A date was picked: set Date on the peak's rows and persist. */
    method SetDate(name: string, date: string)
      requires name in Names(catalog)
      modifies this
      ensures rows == EditWhere(old(rows), name, Edit.SetDate(date))
      ensures store == Some(Save(rows)) && resetId == old(resetId)
      ensures UniqueNames(old(rows)) ==> UniqueNames(rows)
      ensures Mountains(rows) <= Mountains(old(rows)) + Names(catalog)
    {
      rows := EditWhere(rows, name, Edit.SetDate(date));
      EditKeepsNames(old(rows), name, Edit.SetDate(date));
      Persist();
    }

    /** "Delete Photo": clear Photo on the peak's rows and persist. */
    method DeletePhoto(name: string)
      requires name in Names(catalog)
      modifies this
      ensures rows == EditWhere(old(rows), name, SetPhoto(""))
      ensures store == Some(Save(rows)) && resetId == old(resetId)
      ensures UniqueNames(old(rows)) ==> UniqueNames(rows)
      ensures Mountains(rows) <= Mountains(old(rows)) + Names(catalog)
    {
      rows := EditWhere(rows, name, SetPhoto(""));
      EditKeepsNames(old(rows), name, SetPhoto(""));
      Persist();
    }

    /** A photo was uploaded for the view row at `idx`: record its path on the peak's rows and persist. */
    method AttachPhoto(name: string, idx: nat) returns (path: string)
      requires idx < |View()| && View()[idx].peak.mountain == name
      modifies this
      ensures path == PhotoPath(hasDataVolume, name, idx)
      ensures rows == EditWhere(old(rows), name, SetPhoto(path))
      ensures store == Some(Save(rows)) && resetId == old(resetId)
      ensures UniqueNames(old(rows)) ==> UniqueNames(rows)
      ensures Mountains(rows) <= Mountains(old(rows)) + Names(catalog)
    {
      path := PhotoPath(hasDataVolume, name, idx);
      rows := EditWhere(rows, name, SetPhoto(path));
      EditKeepsNames(old(rows), name, SetPhoto(path));
      Persist();
    }

    /** "Factory Reset": the progress file is deleted and the generation goes up by one. */
    method FactoryReset()
      modifies this
      ensures store == None && resetId == old(resetId) + 1
      ensures rows == old(rows)
    {
      store := None;
      resetId := resetId + 1;
    }
  }

  /** A reset followed by the re-run leaves one unbagged row per catalog peak and fresh checkbox keys. */
  method ResetThenReload(t: Tracker)
    modifies t
    ensures t.rows == Defaults(t.catalog)
    ensures forall x :: x in t.View() ==> !x.bagged
    ensures forall i, m, j, n :: CheckboxKey(i, m, old(t.resetId)) != CheckboxKey(j, n, t.resetId)
  {
    t.FactoryReset();
    t.Reload();
    ViewAfterReset(t.catalog);
    forall i: nat, m: string, j: nat, n: string
      ensures CheckboxKey(i, m, old(t.resetId)) != CheckboxKey(j, n, t.resetId)
    {
      CheckboxKeysChangeOnReset(i, m, old(t.resetId), j, n, t.resetId);
    }
  }
}
