/** The `app_info` table of the notification database, as a sequence of rows
    in the order its unordered SELECTs return them (taken to be storage
    order), and the statements NCutil.py runs against it: the
    SELECT, UPDATE and DELETE of one bundle id, the id allocator, and the
    effect of a whole `set_alert`, `insert_app` or `remove_app` batch. */
module AppTable {
  import opened FlagBits
  import opened AlertFlags
  import opened Wrappers

  /** One row: the allocated app id, the bundle id and the flags. The other
      columns of the table are not read by the tool and are not modelled. */
  datatype AppRow = AppRow(appId: int, bundleId: string, flags: nat)

  // ----- single statements -----

  /** `bundleid_exists`: some row has exactly this bundle id. */
  function BundleIdExists(rows: seq<AppRow>, id: string): (b: bool)
    ensures b <==> exists i :: 0 <= i < |rows| && rows[i].bundleId == id
  {
    if rows == [] then false
    else rows[0].bundleId == id || BundleIdExists(rows[1..], id)
  }

  /** Row i is the first row, in table order, with this bundle id. */
  ghost predicate IsFirstMatch(rows: seq<AppRow>, id: string, i: int)
  {
    0 <= i < |rows| && rows[i].bundleId == id &&
    forall j :: 0 <= j < i ==> rows[j].bundleId != id
  }

  /** `get_flags`: the flags of the first row the SELECT returns, or 0. */
  function GetFlags(rows: seq<AppRow>, id: string): (f: nat)
    ensures !BundleIdExists(rows, id) ==> f == 0
    ensures forall i :: IsFirstMatch(rows, id, i) ==> f == rows[i].flags
  {
    if rows == [] then 0
    else if rows[0].bundleId == id then rows[0].flags
    else GetFlags(rows[1..], id)
  }

  /** The UPDATE of `set_flags`: every row with this bundle id gets the new
      flags; nothing else changes. */
  function UpdateFlags(rows: seq<AppRow>, id: string, flags: nat): (r: seq<AppRow>)
    ensures |r| == |rows|
    ensures forall i :: 0 <= i < |rows| ==>
      r[i] == if rows[i].bundleId == id then rows[i].(flags := flags) else rows[i]
  {
    if rows == [] then []
    else
      var head := if rows[0].bundleId == id then rows[0].(flags := flags) else rows[0];
      [head] + UpdateFlags(rows[1..], id, flags)
  }

  /** The DELETE of `remove_app`: drop every row with this bundle id. */
  function Delete(rows: seq<AppRow>, id: string): (r: seq<AppRow>)
    ensures |r| <= |rows|
    ensures forall x :: x in r <==> x in rows && x.bundleId != id
  {
    if rows == [] then []
    else (if rows[0].bundleId == id then [] else [rows[0]]) + Delete(rows[1..], id)
  }

  /** `get_matching_ids`: the bundle ids, in storage order, that the pattern
      matches. `matches` stands for SQLite's LIKE against the pattern. */
  function MatchingIds(rows: seq<AppRow>, matches: string -> bool): (r: seq<string>)
    ensures |r| <= |rows|
    ensures forall x :: x in r <==> exists i :: 0 <= i < |rows| && rows[i].bundleId == x && matches(x)
  {
    if rows == [] then []
    else
      var head := if matches(rows[0].bundleId) then [rows[0].bundleId] else [];
      head + MatchingIds(rows[1..], matches)
  }

  /** `get_available_id`: the last row's app id plus one; an empty table
      raises IndexError, modelled as Nothing. */
  function GetAvailableId(rows: seq<AppRow>): (r: Option<int>)
    ensures r.Nothing? <==> rows == []
    ensures r.Some? ==> r.value == rows[|rows| - 1].appId + 1
  {
    if rows == [] then Nothing else Some(rows[|rows| - 1].appId + 1)
  }

  /** `get_alert_style`: the style of the first matching row, or Nothing
      (the tool exits with status 1) when the bundle id is not in the table. */
  function GetAlertStyle(rows: seq<AppRow>, id: string): (r: Option<Style>)
    ensures r.Nothing? <==> !BundleIdExists(rows, id)
    ensures forall i :: IsFirstMatch(rows, id, i) ==> r == Some(DecodeStyle(rows[i].flags))
  {
    if !BundleIdExists(rows, id) then Nothing else Some(DecodeStyle(GetFlags(rows, id)))
  }

  // ----- table invariants -----

  /** No two rows share a bundle id (what insert's existence check aims for). */
  ghost predicate UniqueBundleIds(rows: seq<AppRow>)
  {
    forall i, j :: 0 <= i < j < |rows| ==> rows[i].bundleId != rows[j].bundleId
  }

  /** App ids strictly increase in storage order. */
  ghost predicate IncreasingIds(rows: seq<AppRow>)
  {
    forall i, j :: 0 <= i < j < |rows| ==> rows[i].appId < rows[j].appId
  }

  /** Row by row, only the flags may differ. */
  ghost predicate SameKeys(a: seq<AppRow>, b: seq<AppRow>)
  {
    |a| == |b| && forall i :: 0 <= i < |a| ==> a[i].appId == b[i].appId && a[i].bundleId == b[i].bundleId
  }

  // ----- batches -----

  /** The ids of a batch that the existence check finds in `rows`. */
  function Present(rows: seq<AppRow>, ids: seq<string>): (r: seq<string>)
    ensures forall x :: x in r <==> x in ids && BundleIdExists(rows, x)
  {
    if ids == [] then []
    else
      var last := ids[|ids| - 1];
      Present(rows, ids[..|ids| - 1]) + (if BundleIdExists(rows, last) then [last] else [])
  }

  /** The ids of a batch that the existence check does not find in `rows`. */
  function Absent(rows: seq<AppRow>, ids: seq<string>): (r: seq<string>)
    ensures forall x :: x in r <==> x in ids && !BundleIdExists(rows, x)
  {
    if ids == [] then []
    else
      var last := ids[|ids| - 1];
      Absent(rows, ids[..|ids| - 1]) + (if BundleIdExists(rows, last) then [] else [last])
  }

  /** One iteration of `set_alert`'s loop: an unknown id is skipped; otherwise
      the style is encoded into the first match's flags and written back only
      when it changes them. */
  function StyleOne(rows: seq<AppRow>, st: Style, id: string): (r: seq<AppRow>)
    ensures SameKeys(rows, r)
    ensures forall i :: 0 <= i < |rows| && rows[i].bundleId != id ==> r[i] == rows[i]
  {
    if !BundleIdExists(rows, id) then rows
    else
      var current := GetFlags(rows, id);
      var updated := EncodeStyle(current, st);
      if updated != current then UpdateFlags(rows, id, updated) else rows
  }

  /** `set_alert`'s loop over the whole batch, each write committed at once.
      It never adds, removes, reorders or renumbers rows. */
  function StyleAll(rows: seq<AppRow>, st: Style, ids: seq<string>): (r: seq<AppRow>)
    ensures SameKeys(rows, r)
  {
    if ids == [] then rows
    else StyleOne(StyleAll(rows, st, ids[..|ids| - 1]), st, ids[|ids| - 1])
  }

  /** `remove_app`'s deletes, one bundle id after another: exactly the rows
      whose bundle id is not in the batch remain. */
  function DeleteAll(rows: seq<AppRow>, ids: seq<string>): (r: seq<AppRow>)
    ensures forall x :: x in r <==> x in rows && x.bundleId !in ids
  {
    if ids == [] then rows
    else
      assert ids == ids[..|ids| - 1] + [ids[|ids| - 1]];
      Delete(DeleteAll(rows, ids[..|ids| - 1]), ids[|ids| - 1])
  }

  /** `after` is `before` with one row per id of `added` appended, in order,
      the k-th numbered from the last row of `before` plus k + 1. The flags
      of the appended rows are left open. */
  ghost predicate AppendedFor(before: seq<AppRow>, after: seq<AppRow>, added: seq<string>)
  {
    (added != [] ==> before != []) &&
    |after| == |before| + |added| &&
    after[..|before|] == before &&
    forall k :: 0 <= k < |added| ==>
      after[|before| + k].bundleId == added[k] &&
      after[|before| + k].appId == before[|before| - 1].appId + 1 + k
  }

  // ----- lemmas: one more id in a batch -----

  lemma PresentSnoc(rows: seq<AppRow>, ids: seq<string>, id: string)
    ensures Present(rows, ids + [id]) == Present(rows, ids) + (if BundleIdExists(rows, id) then [id] else [])
    ensures Absent(rows, ids + [id]) == Absent(rows, ids) + (if BundleIdExists(rows, id) then [] else [id])
  {
    assert (ids + [id])[..|ids|] == ids;
  }

  lemma DeleteAllSnoc(rows: seq<AppRow>, ids: seq<string>, id: string)
    ensures DeleteAll(rows, ids + [id]) == Delete(DeleteAll(rows, ids), id)
  {
    assert (ids + [id])[..|ids|] == ids;
  }

  /** One more id in a remove batch: it is deleted exactly when the
      existence check finds it, and warned about otherwise. */
  lemma RemoveStep(rows: seq<AppRow>, ids: seq<string>, i: int)
    requires 0 <= i < |ids|
    ensures Absent(rows, ids[..i + 1]) ==
      Absent(rows, ids[..i]) + (if BundleIdExists(rows, ids[i]) then [] else [ids[i]])
    ensures DeleteAll(rows, Present(rows, ids[..i + 1])) ==
      if BundleIdExists(rows, ids[i]) then Delete(DeleteAll(rows, Present(rows, ids[..i])), ids[i])
      else DeleteAll(rows, Present(rows, ids[..i]))
  {
    var id := ids[i];
    assert ids[..i + 1] == ids[..i] + [id];
    PresentSnoc(rows, ids[..i], id);
    var present := Present(rows, ids[..i]);
    if BundleIdExists(rows, id) {
      DeleteAllSnoc(rows, present, id);
    } else {
      assert present + [] == present;
    }
  }

  lemma StyleAllSnoc(rows: seq<AppRow>, st: Style, ids: seq<string>, id: string)
    ensures StyleAll(rows, st, ids + [id]) == StyleOne(StyleAll(rows, st, ids), st, id)
    ensures BundleIdExists(StyleAll(rows, st, ids), id) == BundleIdExists(rows, id)
  {
    assert (ids + [id])[..|ids|] == ids;
    StyleAllReadBack(rows, st, ids, id);
  }

  // ----- lemmas: single statements -----

  /** After the UPDATE, the first match reads back the new flags, and every
      other bundle id reads back what it did before. */
  lemma {:induction false} GetFlagsAfterUpdate(rows: seq<AppRow>, id: string, flags: nat, other: string)
    ensures BundleIdExists(UpdateFlags(rows, id, flags), other) == BundleIdExists(rows, other)
    ensures GetFlags(UpdateFlags(rows, id, flags), other) ==
      if other == id && BundleIdExists(rows, id) then flags else GetFlags(rows, other)
  {
    if rows != [] {
      GetFlagsAfterUpdate(rows[1..], id, flags, other);
      var r := UpdateFlags(rows, id, flags);
      assert r[1..] == UpdateFlags(rows[1..], id, flags);
    }
  }

  /** After the DELETE, the bundle id is gone and every other one is as before. */
  lemma DeleteRemoves(rows: seq<AppRow>, id: string, other: string)
    ensures BundleIdExists(Delete(rows, id), other) <==> other != id && BundleIdExists(rows, other)
  {
    var r := Delete(rows, id);
    if BundleIdExists(r, other) {
      var i :| 0 <= i < |r| && r[i].bundleId == other;
      assert r[i] in r;
    }
    if other != id && BundleIdExists(rows, other) {
      var i :| 0 <= i < |rows| && rows[i].bundleId == other;
      assert rows[i] in rows;
      assert rows[i] in r;
    }
  }

  /** Deleting works row by row, so the rows that stay keep their order. */
  lemma {:induction false} DeleteConcat(a: seq<AppRow>, b: seq<AppRow>, id: string)
    ensures Delete(a + b, id) == Delete(a, id) + Delete(b, id)
  {
    if a == [] {
      assert a + b == b;
    } else {
      var head := if a[0].bundleId == id then [] else [a[0]];
      var left := Delete(a[1..], id);
      var right := Delete(b, id);
      DeleteFirst(a, b, id);
      DeleteConcat(a[1..], b, id);
      AppendAssoc(head, left, right);
    }
  }

  lemma AppendAssoc(x: seq<AppRow>, y: seq<AppRow>, z: seq<AppRow>)
    ensures x + (y + z) == (x + y) + z
  {
  }

  /** The DELETE decides the first row of a non-empty table on its own. */
  lemma DeleteFirst(a: seq<AppRow>, b: seq<AppRow>, id: string)
    requires a != []
    ensures Delete(a, id) == (if a[0].bundleId == id then [] else [a[0]]) + Delete(a[1..], id)
    ensures Delete(a + b, id) == (if a[0].bundleId == id then [] else [a[0]]) + Delete(a[1..] + b, id)
  {
    assert (a + b)[0] == a[0] && (a + b)[1..] == a[1..] + b;
  }

  /** Deleting a bundle id no row has changes nothing. */
  lemma {:induction false} DeleteAbsent(rows: seq<AppRow>, id: string)
    requires !BundleIdExists(rows, id)
    ensures Delete(rows, id) == rows
  {
    if rows != [] {
      DeleteAbsent(rows[1..], id);
    }
  }

  /** Next id after an append is the appended row's id plus one. */
  lemma NextIdAfterAppend(rows: seq<AppRow>, row: AppRow)
    ensures GetAvailableId(rows + [row]) == Some(row.appId + 1)
  {
  }

  /** Deleting any other bundle id after an append leaves the appended row
      last, so the next id still follows it. */
  lemma NextIdAfterAppendThenDeleteOther(rows: seq<AppRow>, row: AppRow, id: string)
    requires row.bundleId != id
    ensures GetAvailableId(Delete(rows + [row], id)) == Some(row.appId + 1)
  {
    DeleteConcat(rows, [row], id);
    assert Delete([row], id) == [row] by { assert [row][1..] == []; }
  }

  /** Deleting the last row makes its app id the next one handed out again. */
  lemma DeletedLastIdReused()
    ensures var rows := [AppRow(1, "com.a", 0), AppRow(2, "com.b", 0)];
      GetAvailableId(Delete(rows, "com.b")) == Some(rows[1].appId)
  {
    var rows := [AppRow(1, "com.a", 0), AppRow(2, "com.b", 0)];
    assert rows[1..][1..] == [];
    assert Delete(rows[1..], "com.b") == [];
    assert Delete(rows, "com.b") == [AppRow(1, "com.a", 0)];
  }

  /** With increasing ids the allocated id is larger than every id in use,
      hence fresh. */
  lemma AvailableIdIsFresh(rows: seq<AppRow>)
    requires IncreasingIds(rows) && rows != []
    ensures forall i :: 0 <= i < |rows| ==> rows[i].appId < GetAvailableId(rows).value
  {
    assert GetAvailableId(rows).value == rows[|rows| - 1].appId + 1;
    forall i | 0 <= i < |rows| ensures rows[i].appId < GetAvailableId(rows).value {
      if i < |rows| - 1 {
        assert rows[i].appId < rows[|rows| - 1].appId;
      }
    }
  }

  /** The allocator reads the last row, not the largest id: when the table is
      not ordered by id the id it hands out can already be taken. */
  lemma AvailableIdCanCollide()
    ensures var rows := [AppRow(2, "com.a", 0), AppRow(1, "com.b", 0)];
      GetAvailableId(rows) == Some(rows[0].appId)
  {
  }

  // ----- lemmas: set_alert -----

  /** Rows whose bundle id is not in the batch are left exactly as they were. */
  lemma {:induction false} StyleAllOnlyNamed(rows: seq<AppRow>, st: Style, ids: seq<string>)
    ensures |StyleAll(rows, st, ids)| == |rows|
    ensures forall i :: 0 <= i < |rows| && rows[i].bundleId !in ids ==>
      StyleAll(rows, st, ids)[i] == rows[i]
  {
    if ids != [] {
      var front := ids[..|ids| - 1];
      StyleAllOnlyNamed(rows, st, front);
      var prefix := StyleAll(rows, st, front);
      assert ids == front + [ids[|ids| - 1]];
      forall i | 0 <= i < |rows| && rows[i].bundleId !in ids
        ensures StyleAll(rows, st, ids)[i] == rows[i]
      {
        assert prefix[i] == rows[i];
      }
    }
  }

  /** One styling step for `id` leaves the style of every other bundle id as
      read by `get_flags`, and the set of bundle ids, untouched. */
  lemma StyleOneFrame(rows: seq<AppRow>, st: Style, id: string, other: string)
    requires other != id
    ensures BundleIdExists(StyleOne(rows, st, id), other) == BundleIdExists(rows, other)
    ensures GetFlags(StyleOne(rows, st, id), other) == GetFlags(rows, other)
  {
    if BundleIdExists(rows, id) {
      GetFlagsAfterUpdate(rows, id, EncodeStyle(GetFlags(rows, id), st), other);
    }
  }

  /** One styling step for `id` makes the first match of `id` carry the new
      style and keeps every other bit of its flags. */
  lemma StyleOneSets(rows: seq<AppRow>, st: Style, id: string)
    requires BundleIdExists(rows, id)
    ensures BundleIdExists(StyleOne(rows, st, id), id)
    ensures GetFlags(StyleOne(rows, st, id), id) == EncodeStyle(GetFlags(rows, id), st)
  {
    var current := GetFlags(rows, id);
    EncodeUnchanged(current, st);
    GetFlagsAfterUpdate(rows, id, EncodeStyle(current, st), id);
  }

  /** `get_alert_style` after `set_alert`: every id of the batch that was in
      the table now reads back the style that was set, even if the table
      holds duplicates of it; ids outside the batch read back as before. */
  lemma {:induction false} StyleAllReadBack(rows: seq<AppRow>, st: Style, ids: seq<string>, id: string)
    ensures BundleIdExists(StyleAll(rows, st, ids), id) == BundleIdExists(rows, id)
    ensures id in ids && BundleIdExists(rows, id) ==>
      GetAlertStyle(StyleAll(rows, st, ids), id) == Some(st)
    ensures id !in ids ==> GetFlags(StyleAll(rows, st, ids), id) == GetFlags(rows, id)
  {
    if ids != [] {
      var front := ids[..|ids| - 1];
      var last := ids[|ids| - 1];
      var prefix := StyleAll(rows, st, front);
      StyleAllReadBack(rows, st, front, id);
      assert ids == front + [last];
      if last == id {
        if BundleIdExists(rows, id) {
          StyleOneSets(prefix, st, id);
          DecodeEncode(GetFlags(prefix, id), st);
        }
      } else {
        StyleOneFrame(prefix, st, last, id);
      }
    }
  }

  /** After `set_alert`, every id of the batch that was in the table has, in
      its first row, its old flags with the style encoded, however often the
      batch names it. */
  lemma {:induction false} StyleAllFlags(rows: seq<AppRow>, st: Style, ids: seq<string>, id: string)
    requires id in ids && BundleIdExists(rows, id)
    ensures GetFlags(StyleAll(rows, st, ids), id) == EncodeStyle(GetFlags(rows, id), st)
  {
    var front := ids[..|ids| - 1];
    var last := ids[|ids| - 1];
    var prefix := StyleAll(rows, st, front);
    assert ids == front + [last];
    StyleAllReadBack(rows, st, front, id);
    if last == id {
      StyleOneSets(prefix, st, id);
      if id in front {
        StyleAllFlags(rows, st, front, id);
        EncodeIdempotent(GetFlags(rows, id), st);
      }
    } else {
      StyleAllFlags(rows, st, front, id);
      StyleOneFrame(prefix, st, last, id);
    }
  }

  /** With unique bundle ids, a styled row keeps every flag bit except the two
      style bits, which now spell the style. */
  lemma StyleOneUniqueRow(rows: seq<AppRow>, st: Style, id: string, i: int)
    requires UniqueBundleIds(rows) && 0 <= i < |rows| && rows[i].bundleId == id
    ensures StyleOne(rows, st, id)[i] == rows[i].(flags := EncodeStyle(rows[i].flags, st))
  {
    assert GetFlags(rows, id) == rows[i].flags;
    EncodeUnchanged(rows[i].flags, st);
  }

  // ----- lemmas: insert_app and remove_app -----

  /** After an insert batch every id of the batch is in the table. */
  lemma AppendedAllExist(before: seq<AppRow>, after: seq<AppRow>, ids: seq<string>)
    requires AppendedFor(before, after, Absent(before, ids))
    ensures forall x :: x in ids ==> BundleIdExists(after, x)
  {
    var added := Absent(before, ids);
    forall x | x in ids ensures BundleIdExists(after, x) {
      if BundleIdExists(before, x) {
        var i :| 0 <= i < |before| && before[i].bundleId == x;
        assert after[i] == before[i];
      } else {
        var k :| 0 <= k < |added| && added[k] == x;
        assert after[|before| + k].bundleId == x;
      }
    }
  }

  /** An insert batch leaves the rows already there, and so the flags read for
      any id that was present, untouched. */
  lemma AppendedKeepsFlags(before: seq<AppRow>, after: seq<AppRow>, added: seq<string>, id: string)
    requires AppendedFor(before, after, added) && BundleIdExists(before, id)
    ensures GetFlags(after, id) == GetFlags(before, id)
  {
    GetFlagsPrefix(before, after[|before|..], id);
    assert after == before + after[|before|..];
  }

  lemma {:induction false} GetFlagsPrefix(a: seq<AppRow>, b: seq<AppRow>, id: string)
    requires BundleIdExists(a, id)
    ensures GetFlags(a + b, id) == GetFlags(a, id)
  {
    if a[0].bundleId != id {
      assert (a + b)[1..] == a[1..] + b;
      GetFlagsPrefix(a[1..], b, id);
    }
  }

  /** Ids handed out in a batch continue after the last row, so increasing ids
      stay increasing, and the next allocation follows the batch's last id. */
  lemma AppendedKeepsIncreasing(before: seq<AppRow>, after: seq<AppRow>, added: seq<string>)
    requires AppendedFor(before, after, added) && IncreasingIds(before)
    ensures IncreasingIds(after)
    ensures added != [] ==> GetAvailableId(after) == Some(before[|before| - 1].appId + |added| + 1)
  {
    var n := |before|;
    forall i, j | 0 <= i < j < |after| ensures after[i].appId < after[j].appId {
      if j < n {
        assert after[i] == before[..n][i] && after[j] == before[..n][j];
      } else if i < n {
        assert after[i] == after[..n][i];
        if i < n - 1 { assert before[i].appId < before[n - 1].appId; }
        AppendedRow(before, after, added, j);
      } else {
        AppendedRow(before, after, added, i);
        AppendedRow(before, after, added, j);
      }
    }
    if added != [] {
      AppendedRow(before, after, added, |after| - 1);
    }
  }

  /** Appending one more row, numbered after the last one, for one more new id. */
  lemma AppendOne(before: seq<AppRow>, after: seq<AppRow>, added: seq<string>, row: AppRow)
    requires AppendedFor(before, after, added) && after != []
    requires row.appId == after[|after| - 1].appId + 1
    ensures AppendedFor(before, after + [row], added + [row.bundleId])
  {
    var n := |before|;
    assert |after| == n + |added|;
    assert n > 0;
    assert (after + [row])[..n] == after[..n];
    assert |after + [row]| == n + |added + [row.bundleId]|;
    forall k | 0 <= k < |added| + 1
      ensures (after + [row])[n + k].bundleId == (added + [row.bundleId])[k]
      ensures (after + [row])[n + k].appId == before[n - 1].appId + 1 + k
    {
      if k < |added| {
        AppendedRow(before, after, added, n + k);
      } else if added != [] {
        AppendedRow(before, after, added, |after| - 1);
      } else {
        KeptRow(before, after, added, n - 1);
      }
    }
  }

  /** One iteration of `insert_app`'s loop, on the batch's appended rows. */
  lemma InsertStep(committed: seq<AppRow>, working: seq<AppRow>, done: seq<string>, id: string, row: AppRow)
    requires AppendedFor(committed, working, Absent(committed, done))
    requires !BundleIdExists(committed, id) ==>
      working != [] && row.appId == working[|working| - 1].appId + 1 && row.bundleId == id
    ensures !BundleIdExists(committed, id) ==>
      AppendedFor(committed, working + [row], Absent(committed, done + [id]))
    ensures BundleIdExists(committed, id) ==>
      AppendedFor(committed, working, Absent(committed, done + [id]))
  {
    PresentSnoc(committed, done, id);
    if !BundleIdExists(committed, id) {
      AppendOne(committed, working, Absent(committed, done), row);
    } else {
      assert Absent(committed, done) + [] == Absent(committed, done);
    }
  }

  /** The existence checks of one insert batch all see the table as it was
      before the batch, so an id given twice is inserted twice. */
  lemma InsertTwiceInOneBatch(before: seq<AppRow>, after: seq<AppRow>, id: string)
    requires !BundleIdExists(before, id)
    requires AppendedFor(before, after, Absent(before, [id, id]))
    ensures !UniqueBundleIds(after)
  {
    assert [id, id][..1] == [id] && [id][..0] == [];
    assert Absent(before, [id]) == [id];
    assert Absent(before, [id, id]) == [id, id];
    AppendedRow(before, after, [id, id], |before|);
    AppendedRow(before, after, [id, id], |before| + 1);
  }

  /** With distinct new ids absent from a table of unique ids, an insert batch
      keeps bundle ids unique. */
  lemma AppendedKeepsUnique(before: seq<AppRow>, after: seq<AppRow>, ids: seq<string>)
    requires UniqueBundleIds(before)
    requires forall i, j :: 0 <= i < j < |ids| ==> ids[i] != ids[j]
    requires AppendedFor(before, after, Absent(before, ids))
    ensures UniqueBundleIds(after)
  {
    var added := Absent(before, ids);
    AbsentDistinct(before, ids);
    var n := |before|;
    forall i, j | 0 <= i < j < |after| ensures after[i].bundleId != after[j].bundleId {
      if j < n {
        KeptRow(before, after, added, i);
        KeptRow(before, after, added, j);
      } else if i < n {
        KeptRow(before, after, added, i);
        AppendedRow(before, after, added, j);
        assert BundleIdExists(before, after[i].bundleId);
        assert !BundleIdExists(before, added[j - n]);
      } else {
        AppendedRow(before, after, added, i);
        AppendedRow(before, after, added, j);
      }
    }
  }

  /** The rows of `before` are still there, at the same positions. */
  lemma KeptRow(before: seq<AppRow>, after: seq<AppRow>, added: seq<string>, i: int)
    requires AppendedFor(before, after, added) && 0 <= i < |before|
    ensures after[i] == before[i]
  {
    assert after[..|before|][i] == after[i];
  }

  /** The j-th row of `after`, past the old rows, is the one appended for
      `added[j - |before|]`. */
  lemma AppendedRow(before: seq<AppRow>, after: seq<AppRow>, added: seq<string>, j: int)
    requires AppendedFor(before, after, added) && |before| <= j < |after|
    ensures after[j].bundleId == added[j - |before|]
    ensures after[j].appId == before[|before| - 1].appId + 1 + (j - |before|)
  {
    var k := j - |before|;
    assert 0 <= k < |added|;
    assert after[|before| + k].bundleId == added[k];
  }

  lemma {:induction false} AbsentDistinct(rows: seq<AppRow>, ids: seq<string>)
    requires forall i, j :: 0 <= i < j < |ids| ==> ids[i] != ids[j]
    ensures forall i, j :: 0 <= i < j < |Absent(rows, ids)| ==> Absent(rows, ids)[i] != Absent(rows, ids)[j]
  {
    if ids != [] {
      var front := ids[..|ids| - 1];
      var last := ids[|ids| - 1];
      AbsentDistinct(rows, front);
      assert forall j :: 0 <= j < |front| ==> front[j] == ids[j] != last;
      assert last !in front;
    }
  }

  /** Deleting the ids the existence check found is deleting all of them:
      an id that is not in the table deletes nothing. */
  lemma {:induction false} DeletePresentIsDeleteAll(rows: seq<AppRow>, ids: seq<string>)
    ensures DeleteAll(rows, Present(rows, ids)) == DeleteAll(rows, ids)
  {
    if ids != [] {
      var front := ids[..|ids| - 1];
      var last := ids[|ids| - 1];
      DeletePresentIsDeleteAll(rows, front);
      if BundleIdExists(rows, last) {
        var p := Present(rows, front) + [last];
        assert p[..|p| - 1] == Present(rows, front);
      } else {
        assert Present(rows, ids) == Present(rows, front);
        DeleteAllMembers(rows, front);
        DeleteAbsent(DeleteAll(rows, front), last);
      }
    }
  }

  /** What a remove batch leaves: exactly the rows whose bundle id is not in
      the batch. */
  lemma {:induction false} DeleteAllMembers(rows: seq<AppRow>, ids: seq<string>)
    ensures forall id :: id in ids ==> !BundleIdExists(DeleteAll(rows, ids), id)
    ensures forall id :: BundleIdExists(DeleteAll(rows, ids), id) <==> BundleIdExists(rows, id) && id !in ids
  {
    if ids != [] {
      var front := ids[..|ids| - 1];
      var last := ids[|ids| - 1];
      DeleteAllMembers(rows, front);
      assert forall id :: id in ids <==> id in front || id == last;
      forall id ensures BundleIdExists(DeleteAll(rows, ids), id) <==> BundleIdExists(rows, id) && id !in ids {
        DeleteRemoves(DeleteAll(rows, front), last, id);
      }
    }
  }

  /** A remove batch works row by row: removing from two halves of a table is
      removing from each half, so surviving rows keep their relative order. */
  lemma {:induction false} DeleteAllConcat(a: seq<AppRow>, b: seq<AppRow>, ids: seq<string>)
    ensures DeleteAll(a + b, ids) == DeleteAll(a, ids) + DeleteAll(b, ids)
  {
    if ids != [] {
      var front := ids[..|ids| - 1];
      DeleteAllConcat(a, b, front);
      DeleteConcat(DeleteAll(a, front), DeleteAll(b, front), ids[|ids| - 1]);
    }
  }

  /** Styling only rewrites flags, so both table invariants survive it. */
  lemma SameKeysKeepInvariants(a: seq<AppRow>, b: seq<AppRow>)
    requires SameKeys(a, b)
    ensures UniqueBundleIds(a) ==> UniqueBundleIds(b)
    ensures IncreasingIds(a) ==> IncreasingIds(b)
  {
  }

  /** A DELETE keeps a subsequence of the rows, so bundle ids stay unique. */
  lemma {:induction false} DeleteKeepsUnique(rows: seq<AppRow>, id: string)
    requires UniqueBundleIds(rows)
    ensures UniqueBundleIds(Delete(rows, id))
  {
    if rows != [] {
      var tail := rows[1..];
      assert UniqueBundleIds(tail) by {
        forall i, j | 0 <= i < j < |tail| ensures tail[i].bundleId != tail[j].bundleId {
          assert tail[i] == rows[i + 1] && tail[j] == rows[j + 1];
        }
      }
      DeleteKeepsUnique(tail, id);
      var rest := Delete(tail, id);
      if rows[0].bundleId != id {
        forall j | 0 <= j < |rest| ensures rest[j].bundleId != rows[0].bundleId {
          assert rest[j] in tail;
          var k :| 0 <= k < |tail| && tail[k] == rest[j];
          assert rows[k + 1] == rest[j];
        }
        ConsUnique(rows[0], rest);
      }
    }
  }

  lemma ConsUnique(head: AppRow, rest: seq<AppRow>)
    requires UniqueBundleIds(rest)
    requires forall j :: 0 <= j < |rest| ==> rest[j].bundleId != head.bundleId
    ensures UniqueBundleIds([head] + rest)
  {
    var s := [head] + rest;
    forall i, j | 0 <= i < j < |s| ensures s[i].bundleId != s[j].bundleId {
      assert s[j] == rest[j - 1];
      if i > 0 { assert s[i] == rest[i - 1]; }
    }
  }

  /** A DELETE keeps a subsequence of the rows, so app ids stay increasing. */
  lemma {:induction false} DeleteKeepsIncreasing(rows: seq<AppRow>, id: string)
    requires IncreasingIds(rows)
    ensures IncreasingIds(Delete(rows, id))
  {
    if rows != [] {
      var tail := rows[1..];
      assert IncreasingIds(tail) by {
        forall i, j | 0 <= i < j < |tail| ensures tail[i].appId < tail[j].appId {
          assert tail[i] == rows[i + 1] && tail[j] == rows[j + 1];
        }
      }
      DeleteKeepsIncreasing(tail, id);
      var rest := Delete(tail, id);
      if rows[0].bundleId != id {
        forall j | 0 <= j < |rest| ensures rows[0].appId < rest[j].appId {
          assert rest[j] in tail;
          var k :| 0 <= k < |tail| && tail[k] == rest[j];
          assert rows[k + 1] == rest[j];
        }
        ConsIncreasing(rows[0], rest);
      }
    }
  }

  lemma ConsIncreasing(head: AppRow, rest: seq<AppRow>)
    requires IncreasingIds(rest)
    requires forall j :: 0 <= j < |rest| ==> head.appId < rest[j].appId
    ensures IncreasingIds([head] + rest)
  {
    var s := [head] + rest;
    forall i, j | 0 <= i < j < |s| ensures s[i].appId < s[j].appId {
      assert s[j] == rest[j - 1];
      if i > 0 { assert s[i] == rest[i - 1]; }
    }
  }

  /** A whole remove batch keeps both table invariants. */
  lemma {:induction false} DeleteAllKeepsInvariants(rows: seq<AppRow>, ids: seq<string>)
    ensures UniqueBundleIds(rows) ==> UniqueBundleIds(DeleteAll(rows, ids))
    ensures IncreasingIds(rows) ==> IncreasingIds(DeleteAll(rows, ids))
  {
    if ids != [] {
      var front := DeleteAll(rows, ids[..|ids| - 1]);
      DeleteAllKeepsInvariants(rows, ids[..|ids| - 1]);
      if UniqueBundleIds(rows) { DeleteKeepsUnique(front, ids[|ids| - 1]); }
      if IncreasingIds(rows) { DeleteKeepsIncreasing(front, ids[|ids| - 1]); }
    }
  }

  /** After `remove_system_center`, every bundle id in the table that the
      pattern matches has both style bits cleared, and so reads back style
      none; the others read back as before. */
  lemma SystemCenterCleared(rows: seq<AppRow>, matches: string -> bool, id: string)
    requires BundleIdExists(rows, id)
    ensures matches(id) ==>
      GetFlags(StyleAll(rows, NoStyle, MatchingIds(rows, matches)), id) ==
        EncodeStyle(GetFlags(rows, id), NoStyle)
    ensures matches(id) ==>
      GetAlertStyle(StyleAll(rows, NoStyle, MatchingIds(rows, matches)), id) == Some(NoStyle)
    ensures !matches(id) ==>
      GetFlags(StyleAll(rows, NoStyle, MatchingIds(rows, matches)), id) == GetFlags(rows, id)
  {
    var ids := MatchingIds(rows, matches);
    StyleAllReadBack(rows, NoStyle, ids, id);
    if matches(id) {
      StyleAllFlags(rows, NoStyle, ids, id);
    }
  }

  // ----- scenarios -----

  /** A fresh table with `com.a` at flags 0: setting alerts gives flags 0b10000,
      and reading the style back gives alerts. */
  lemma ScenarioSetAlerts()
    ensures var before := [AppRow(1, "com.a", 0)];
      var after := StyleAll(before, Alerts, ["com.a"]);
      after == [AppRow(1, "com.a", 16)] && GetAlertStyle(after, "com.a") == Some(Alerts)
  {
    var before := [AppRow(1, "com.a", 0)];
    EncodeSamples();
    StyleAllSnoc(before, Alerts, [], "com.a");
    assert [] + ["com.a"] == ["com.a"];
    assert StyleOne(before, Alerts, "com.a") == UpdateFlags(before, "com.a", 16);
  }

  /** `_SYSTEM_CENTER_:Alerts` at flags 0b11000 set to none drops to 0b00000;
      the other row is untouched. */
  lemma ScenarioSystemCenterNone()
    ensures var before := [AppRow(1, "_SYSTEM_CENTER_:Alerts", 24), AppRow(2, "com.b", 24)];
      StyleAll(before, NoStyle, ["_SYSTEM_CENTER_:Alerts"]) ==
        [AppRow(1, "_SYSTEM_CENTER_:Alerts", 0), AppRow(2, "com.b", 24)]
  {
    var before := [AppRow(1, "_SYSTEM_CENTER_:Alerts", 24), AppRow(2, "com.b", 24)];
    EncodeSamples();
    StyleAllSnoc(before, NoStyle, [], "_SYSTEM_CENTER_:Alerts");
    assert [] + ["_SYSTEM_CENTER_:Alerts"] == ["_SYSTEM_CENTER_:Alerts"];
    assert StyleOne(before, NoStyle, "_SYSTEM_CENTER_:Alerts") == UpdateFlags(before, "_SYSTEM_CENTER_:Alerts", 0);
  }
}
