/** The notification database as the command operations of NCutil.py change
    it: the committed `app_info` table, and a count of the restarts of the
    notification processes that follow each batch. */
module NotificationDb {
  import opened AlertFlags
  import opened AppTable
  import opened Wrappers

  class Database {
    /** The committed `app_info` table: what a newly opened connection reads. */
    var rows: seq<AppRow>
    /** How many times `kill_notification_center` has run. */
    var restarts: nat

    constructor (initial: seq<AppRow>)
      ensures rows == initial && restarts == 0
    {
      rows := initial;
      restarts := 0;
    }

    /** `set_flags`: UPDATE every row with this bundle id, then commit. */
    method SetFlags(flags: nat, id: string)
      modifies this
      ensures rows == UpdateFlags(old(rows), id, flags)
      ensures restarts == old(restarts)
    {
      rows := UpdateFlags(rows, id, flags);
    }

    /** `insert_app`: on one connection, append a row for each id that the
        existence check (on a connection of its own, so seeing only the table
        as committed before the batch) does not find; the new app id is read
        through the batch's own cursor, so it follows the rows appended so
        far. Commit once at the end and restart. On an empty table the first
        new id raises IndexError: nothing is committed and nothing restarts. */
    method InsertApp(ids: seq<string>) returns (indexError: bool, warned: seq<string>)
      modifies this
      ensures indexError <==> old(rows) == [] && ids != []
      ensures indexError ==> rows == old(rows) && restarts == old(restarts)
      ensures !indexError ==> AppendedFor(old(rows), rows, Absent(old(rows), ids))
      ensures !indexError ==> restarts == old(restarts) + 1
      ensures warned == Present(old(rows), ids)
      ensures IncreasingIds(old(rows)) ==> IncreasingIds(rows)
      ensures UniqueBundleIds(old(rows)) && (forall i, j :: 0 <= i < j < |ids| ==> ids[i] != ids[j]) ==>
        UniqueBundleIds(rows)
    {
      var committed := rows;
      var working := rows;
      warned := [];
      indexError := false;
      for i := 0 to |ids|
        invariant AppendedFor(committed, working, Absent(committed, ids[..i]))
        invariant warned == Present(committed, ids[..i])
        invariant committed == [] ==> i == 0
        invariant rows == committed && restarts == old(restarts)
      {
        var id := ids[i];
        assert ids[..i + 1] == ids[..i] + [id];
        PresentSnoc(committed, ids[..i], id);
        if !BundleIdExists(committed, id) {
          var next := GetAvailableId(working);
          if next.Nothing? {
            NothingPresentInEmpty(committed, ids);
            indexError := true;
            return;
          }
          assert AppRow(next.value, id, 0).bundleId == id;
          var row: AppRow :| row.appId == next.value && row.bundleId == id;
          InsertStep(committed, working, ids[..i], id, row);
          working := working + [row];
        } else {
          InsertStep(committed, working, ids[..i], id, AppRow(0, id, 0));
          warned := warned + [id];
        }
      }
      assert ids[..|ids|] == ids;
      if IncreasingIds(committed) {
        AppendedKeepsIncreasing(committed, working, Absent(committed, ids));
      }
      if UniqueBundleIds(committed) && (forall i, j :: 0 <= i < j < |ids| ==> ids[i] != ids[j]) {
        AppendedKeepsUnique(committed, working, ids);
      }
      rows := working;
      restarts := restarts + 1;
    }

    /** `remove_app`: on one connection, DELETE each id that the existence
        check (on the committed table) finds and warn about the others;
        commit once at the end and restart. */
    method RemoveApp(ids: seq<string>) returns (warned: seq<string>)
      modifies this
      ensures rows == DeleteAll(old(rows), Present(old(rows), ids))
      ensures rows == DeleteAll(old(rows), ids)
      ensures warned == Absent(old(rows), ids)
      ensures restarts == old(restarts) + 1
      ensures UniqueBundleIds(old(rows)) ==> UniqueBundleIds(rows)
      ensures IncreasingIds(old(rows)) ==> IncreasingIds(rows)
    {
      var committed := rows;
      var working := rows;
      warned := [];
      assert ids[..0] == [];
      for i := 0 to |ids|
        invariant working == DeleteAll(committed, Present(committed, ids[..i]))
        invariant warned == Absent(committed, ids[..i])
        invariant rows == committed && restarts == old(restarts)
      {
        var id := ids[i];
        RemoveStep(committed, ids, i);
        if !BundleIdExists(committed, id) {
          warned := warned + [id];
        } else {
          working := Delete(working, id);
        }
      }
      assert ids[..|ids|] == ids;
      DeletePresentIsDeleteAll(committed, ids);
      DeleteAllKeepsInvariants(committed, ids);
      rows := working;
      restarts := restarts + 1;
    }

    /** `set_alert`: reject an unknown style token or an empty batch with exit
        status 1 before anything changes; otherwise, id by id, warn about an
        unknown id, or encode the style into its flags and write them (each
        write committed at once) when they change; then restart. */
    method SetAlert(style: string, ids: seq<string>) returns (exitCode: nat, warned: seq<string>)
      modifies this
      ensures ParseStyle(style).Nothing? || ids == [] ==>
        exitCode == 1 && rows == old(rows) && restarts == old(restarts) && warned == []
      ensures ParseStyle(style).Some? && ids != [] ==>
        exitCode == 0 &&
        rows == StyleAll(old(rows), ParseStyle(style).value, ids) &&
        warned == Absent(old(rows), ids) &&
        restarts == old(restarts) + 1
      ensures SameKeys(old(rows), rows)
    {
      warned := [];
      var parsed := ParseStyle(style);
      if parsed.Nothing? {
        return 1, [];
      }
      if ids == [] {
        return 1, [];
      }
      var st := parsed.value;
      for i := 0 to |ids|
        invariant rows == StyleAll(old(rows), st, ids[..i])
        invariant warned == Absent(old(rows), ids[..i])
        invariant restarts == old(restarts)
      {
        var id := ids[i];
        assert ids[..i + 1] == ids[..i] + [id];
        PresentSnoc(old(rows), ids[..i], id);
        StyleAllSnoc(old(rows), st, ids[..i], id);
        if !BundleIdExists(rows, id) {
          warned := warned + [id];
        } else {
          var current := GetFlags(rows, id);
          var updated := EncodeStyle(current, st);
          if updated != current {
            SetFlags(updated, id);
          }
        }
      }
      assert ids[..|ids|] == ids;
      restarts := restarts + 1;
      exitCode := 0;
    }

    /** `remove_system_center`: set style none on every bundle id the pattern
        `_SYSTEM_CENTER_:%` matches (`matches` stands for that LIKE); with no
        match, `set_alert` refuses the empty batch with exit status 1. */
    method RemoveSystemCenter(matches: string -> bool) returns (exitCode: nat, warned: seq<string>)
      modifies this
      ensures MatchingIds(old(rows), matches) == [] ==>
        exitCode == 1 && rows == old(rows) && restarts == old(restarts)
      ensures MatchingIds(old(rows), matches) != [] ==>
        exitCode == 0 && rows == StyleAll(old(rows), NoStyle, MatchingIds(old(rows), matches)) &&
        restarts == old(restarts) + 1
      ensures warned == []
    {
      var ids := MatchingIds(rows, matches);
      NothingAbsent(rows, ids);
      exitCode, warned := SetAlert(StyleName(NoStyle), ids);
    }
  }

  /** On an empty table the existence check finds nothing. */
  lemma {:induction false} NothingPresentInEmpty(rows: seq<AppRow>, ids: seq<string>)
    requires rows == []
    ensures Present(rows, ids) == []
  {
    if ids != [] {
      NothingPresentInEmpty(rows, ids[..|ids| - 1]);
    }
  }

  /** A batch made only of ids in the table draws no warning. */
  lemma {:induction false} NothingAbsent(rows: seq<AppRow>, ids: seq<string>)
    requires forall x :: x in ids ==> BundleIdExists(rows, x)
    ensures Absent(rows, ids) == []
  {
    if ids != [] {
      assert ids[|ids| - 1] in ids;
      assert forall x :: x in ids[..|ids| - 1] ==> x in ids;
      NothingAbsent(rows, ids[..|ids| - 1]);
    }
  }
}
