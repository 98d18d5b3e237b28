/** The reconciliation block of `main` in rofi-zotero.py: the four query
    results (authors, titles, dates, attachment paths) are folded into
    dictionaries keyed by item id, and one `(label, item id)` entry per titled
    item is built and sorted. The model follows the code as written: the
    final author run is never stored, there are no authors at all when the
    author query is empty, and the duplicate guard on paths compares the raw
    path with the text of the whole list. */
module Catalog {
  import opened Common
  import opened Ordering
  import opened Format

  /** (itemID, creator last name) */
  type AuthorRow = Row<string>

  /** The title of an item and the storage key of one of its attachments. */
  datatype TitleInfo = TitleInfo(title: string, key: string)

  /** (itemID, title, attachment key) */
  type TitleRow = Row<TitleInfo>

  /** (itemID, date) */
  type DateRow = Row<string>

  /** (itemID, raw attachment path or NULL) */
  type PathRow = Row<Option<string>>

  datatype BuildError =
    | MissingStorageKey(id: ItemId)   // `keys[path_id]` raises KeyError
    | AuthorsUnbound                  // `authors` was never assigned

  lemma IdSetSnoc<T>(rows: seq<Row<T>>)
    requires rows != []
    ensures IdSet(rows) == IdSet(rows[..|rows| - 1]) + {rows[|rows| - 1].id}
  {
    var pre := rows[..|rows| - 1];
    forall k | k in IdSet(rows) ensures k in IdSet(pre) + {rows[|rows| - 1].id} {
      var i :| 0 <= i < |rows| && rows[i].id == k;
      if i < |rows| - 1 { assert pre[i].id == k; }
    }
    forall k | k in IdSet(pre) ensures k in IdSet(rows) {
      var i :| 0 <= i < |pre| && pre[i].id == k;
      assert rows[i].id == k;
    }
  }

  // ---------------------------------------------------------------------
  // Authors: contiguous runs of equal ids
  // ---------------------------------------------------------------------

  /** A non-empty list of author names. */
  type Names = s: seq<string> | |s| > 0 witness [""]

  /** A maximal stretch of consecutive author rows with the same id. */
  datatype Run = Run(id: ItemId, names: Names)

  /** The runs of `rows`, in order. */
  function Runs(rows: seq<AuthorRow>): (rs: seq<Run>)
    ensures rs == [] <==> rows == []
    ensures rs != [] ==> rs[|rs| - 1].id == rows[|rows| - 1].id
  {
    if rows == [] then []
    else
      var rest := Runs(rows[..|rows| - 1]);
      var r := rows[|rows| - 1];
      if rest != [] && rest[|rest| - 1].id == r.id then
        rest[..|rest| - 1] + [Run(r.id, rest[|rest| - 1].names + [r.val])]
      else
        rest + [Run(r.id, [r.val])]
  }

  /** The ids of the runs `rs`. */
  function RunIds(rs: seq<Run>): set<ItemId> {
    set j | 0 <= j < |rs| :: rs[j].id
  }

  /** The dictionary built by storing each run, in order, under its id. */
  function StoredAuthors(rs: seq<Run>): (m: map<ItemId, string>)
    ensures m.Keys == RunIds(rs)
  {
    if rs == [] then map[]
    else
      var n := |rs| - 1;
      var m0 := StoredAuthors(rs[..n]);
      assert RunIds(rs) == RunIds(rs[..n]) + {rs[n].id} by {
        assert rs[..n] + [rs[n]] == rs;
        RunIdsAppend(rs[..n], rs[n]);
      }
      m0[rs[n].id := FormatAuthors(rs[n].names)]
  }

  /** A later run with the same id overwrites an earlier one: what is
      stored under an id is the last run with that id. */
  lemma {:induction false} LastRunWins(rs: seq<Run>, j: nat)
    requires j < |rs| && forall l :: j < l < |rs| ==> rs[l].id != rs[j].id
    ensures rs[j].id in StoredAuthors(rs)
    ensures StoredAuthors(rs)[rs[j].id] == FormatAuthors(rs[j].names)
  {
    var n := |rs| - 1;
    StoredSnoc(rs);
    if j < n {
      var pre := rs[..n];
      assert pre[j] == rs[j];
      assert forall l :: j < l < n ==> pre[l] == rs[l];
      LastRunWins(pre, j);
      assert rs[n].id != rs[j].id;
    }
  }

  /** What the author loop leaves behind: nothing at all for an empty
      query, otherwise every run but the last, stored in order. */
  function AuthorsOf(rows: seq<AuthorRow>): (r: Option<map<ItemId, string>>)
    ensures r.None? <==> rows == []
    ensures r.Some? ==> r.value.Keys <= IdSet(rows)
  {
    if rows == [] then None
    else
      var rs := Runs(rows);
      var n := |rs| - 1;
      assert RunIds(rs[..n]) <= IdSet(rows) by {
        assert rs[..n] + [rs[n]] == rs;
        RunIdsAppend(rs[..n], rs[n]);
        RunIdsAreRowIds(rows);
      }
      Some(StoredAuthors(rs[..n]))
  }

  /** Storing one more run updates the dictionary under its id. */
  lemma StoredSnoc(rs: seq<Run>)
    requires rs != []
    ensures StoredAuthors(rs) == StoredAuthors(rs[..|rs| - 1])[rs[|rs| - 1].id := FormatAuthors(rs[|rs| - 1].names)]
  {
  }

  /** The state of the author loop after the first `i` rows: the current
      name list and id are the last run, and the dictionary holds the runs
      before it. */
  ghost predicate GroupState(rows: seq<AuthorRow>, i: nat, id: ItemId, authorList: seq<string>, m: map<ItemId, string>)
    requires 0 < |rows| && i <= |rows|
  {
    if i == 0 then id == rows[0].id && authorList == [] && m == map[]
    else
      var rs := Runs(rows[..i]);
      rs[|rs| - 1].id == id && rs[|rs| - 1].names == authorList && m == StoredAuthors(rs[..|rs| - 1])
  }

  /** One iteration of the author loop keeps `GroupState`. */
  lemma GroupStep(rows: seq<AuthorRow>, i: nat, id: ItemId, authorList: seq<string>, m: map<ItemId, string>)
    requires i < |rows| && GroupState(rows, i, id, authorList, m)
    ensures rows[i].id != id ==>
      GroupState(rows, i + 1, rows[i].id, [rows[i].val], m[id := FormatAuthors(authorList)])
    ensures rows[i].id == id ==> GroupState(rows, i + 1, id, authorList + [rows[i].val], m)
  {
    assert rows[..i + 1][..i] == rows[..i];
    RunsSnoc(rows[..i + 1]);
    var next := Runs(rows[..i + 1]);
    if i > 0 {
      var runs := Runs(rows[..i]);
      if rows[i].id != id {
        StoredSnoc(runs);
        assert next[..|next| - 1] == runs;
      } else {
        assert next[..|next| - 1] == runs[..|runs| - 1];
      }
    }
  }

  /** The author loop of `main`: a running name list and id, flushed into
      the dictionary whenever the id changes. */
  method GroupAuthors(rows: seq<AuthorRow>) returns (authors: Option<map<ItemId, string>>)
    ensures authors == AuthorsOf(rows)
  {
    if |rows| == 0 {
      return None;
    }
    var id := rows[0].id;
    var authorList: seq<string> := [];
    var m: map<ItemId, string> := map[];
    for i := 0 to |rows|
      invariant GroupState(rows, i, id, authorList, m)
    {
      GroupStep(rows, i, id, authorList, m);
      if rows[i].id != id {
        m := m[id := FormatAuthors(authorList)];
        authorList := [];
        id := rows[i].id;
      }
      authorList := authorList + [rows[i].val];
    }
    assert rows[..|rows|] == rows;
    authors := Some(m);
  }

  /** The rows of each id are adjacent: wherever the id changes, the new id
      has not occurred before. */
  ghost predicate Contiguous(rows: seq<AuthorRow>) {
    forall j :: 0 < j < |rows| && rows[j].id != rows[j - 1].id ==> rows[j].id !in IdSet(rows[..j])
  }

  /** All names of item `k`, in row order. */
  function NamesOf(rows: seq<AuthorRow>, k: ItemId): (names: seq<string>)
    ensures |names| > 0 <==> k in IdSet(rows)
  {
    if rows == [] then []
    else
      IdSetSnoc(rows);
      NamesOf(rows[..|rows| - 1], k) + (if rows[|rows| - 1].id == k then [rows[|rows| - 1].val] else [])
  }

  /** How the runs of `rows` arise from the runs of all rows but the last:
      the last row extends the last run or starts a new one. */
  lemma RunsSnoc(rows: seq<AuthorRow>)
    requires rows != []
    ensures var pre, r := Runs(rows[..|rows| - 1]), rows[|rows| - 1];
      if pre != [] && pre[|pre| - 1].id == r.id then
        Runs(rows) == pre[..|pre| - 1] + [Run(r.id, pre[|pre| - 1].names + [r.val])]
      else
        Runs(rows) == pre + [Run(r.id, [r.val])]
  {
  }

  lemma RunIdsReplaceLast(rs: seq<Run>, x: Run)
    requires rs != [] && x.id == rs[|rs| - 1].id
    ensures RunIds(rs[..|rs| - 1] + [x]) == RunIds(rs) + {x.id}
  {
    var ts := rs[..|rs| - 1] + [x];
    forall k | k in RunIds(rs) ensures k in RunIds(ts) {
      var j :| 0 <= j < |rs| && rs[j].id == k;
      assert ts[j].id == k;
    }
    forall k | k in RunIds(ts) ensures k in RunIds(rs) {
      var j :| 0 <= j < |ts| && ts[j].id == k;
      assert rs[j].id == k;
    }
    assert rs[|rs| - 1].id == x.id;
  }

  lemma RunIdsAppend(rs: seq<Run>, x: Run)
    ensures RunIds(rs + [x]) == RunIds(rs) + {x.id}
  {
    var ts := rs + [x];
    forall k | k in RunIds(rs) ensures k in RunIds(ts) {
      var j :| 0 <= j < |rs| && rs[j].id == k;
      assert ts[j].id == k;
    }
    assert ts[|rs|].id == x.id;
  }

  /** A new row adds its id to the runs' ids. */
  lemma RunIdsSnoc(rows: seq<AuthorRow>)
    requires rows != []
    ensures RunIds(Runs(rows)) == RunIds(Runs(rows[..|rows| - 1])) + {rows[|rows| - 1].id}
  {
    var r := rows[|rows| - 1];
    RunsSnoc(rows);
    var rs0 := Runs(rows[..|rows| - 1]);
    if rs0 != [] && rs0[|rs0| - 1].id == r.id {
      var x := Run(r.id, rs0[|rs0| - 1].names + [r.val]);
      assert Runs(rows) == rs0[..|rs0| - 1] + [x];
      RunIdsReplaceLast(rs0, x);
    } else {
      var x := Run(r.id, [r.val]);
      assert Runs(rows) == rs0 + [x];
      RunIdsAppend(rs0, x);
    }
  }

  /** Every id of the rows heads some run, and every run's id is a row id. */
  lemma {:induction false} RunIdsAreRowIds(rows: seq<AuthorRow>)
    ensures RunIds(Runs(rows)) == IdSet(rows)
  {
    if rows != [] {
      RunIdsAreRowIds(rows[..|rows| - 1]);
      IdSetSnoc(rows);
      RunIdsSnoc(rows);
    }
  }

  /** The author names of the rows, in row order. */
  function NameList(rows: seq<AuthorRow>): (names: seq<string>)
    ensures |names| == |rows|
    ensures forall i :: 0 <= i < |rows| ==> names[i] == rows[i].val
  {
    seq(|rows|, i requires 0 <= i < |rows| => rows[i].val)
  }

  /** The names of the runs `rs`, one run after the other. */
  function Flat(rs: seq<Run>): seq<string> {
    if rs == [] then [] else Flat(rs[..|rs| - 1]) + rs[|rs| - 1].names
  }

  lemma FlatSnoc(rs: seq<Run>, x: Run)
    ensures Flat(rs + [x]) == Flat(rs) + x.names
  {
    assert (rs + [x])[..|rs|] == rs;
  }

  /** The runs partition the rows: their names, one run after the other, are
      the names of the rows in order. */
  lemma {:induction false} RunsFlatten(rows: seq<AuthorRow>)
    ensures Flat(Runs(rows)) == NameList(rows)
  {
    if rows != [] {
      var n := |rows| - 1;
      var pre, r := rows[..n], rows[n];
      var rs0 := Runs(pre);
      assert NameList(rows) == NameList(pre) + [r.val];
      RunsFlatten(pre);
      RunsSnoc(rows);
      if rs0 != [] && rs0[|rs0| - 1].id == r.id {
        var m := |rs0| - 1;
        var x := Run(r.id, rs0[m].names + [r.val]);
        assert Flat(Runs(rows)) == Flat(rs0) + [r.val] by {
          assert Runs(rows) == rs0[..m] + [x];
          FlatSnoc(rs0[..m], x);
          assert rs0[..m] + [rs0[m]] == rs0;
          FlatSnoc(rs0[..m], rs0[m]);
        }
      } else {
        assert Flat(Runs(rows)) == Flat(rs0) + [r.val] by {
          assert Runs(rows) == rs0 + [Run(r.id, [r.val])];
          FlatSnoc(rs0, Run(r.id, [r.val]));
        }
      }
    }
  }

  /** The ids of the rows, in row order. */
  function IdList(rows: seq<AuthorRow>): (ids: seq<ItemId>)
    ensures |ids| == |rows|
    ensures forall i :: 0 <= i < |rows| ==> ids[i] == rows[i].id
  {
    seq(|rows|, i requires 0 <= i < |rows| => rows[i].id)
  }

  /** `n` copies of `k`. */
  function Rep(n: nat, k: ItemId): (s: seq<ItemId>)
    ensures |s| == n && forall i :: 0 <= i < n ==> s[i] == k
  {
    if n == 0 then [] else Rep(n - 1, k) + [k]
  }

  /** The id of each run repeated once per name, one run after the other. */
  function FlatIds(rs: seq<Run>): seq<ItemId> {
    if rs == [] then [] else FlatIds(rs[..|rs| - 1]) + Rep(|rs[|rs| - 1].names|, rs[|rs| - 1].id)
  }

  lemma FlatIdsSnoc(rs: seq<Run>, x: Run)
    ensures FlatIds(rs + [x]) == FlatIds(rs) + Rep(|x.names|, x.id)
  {
    assert (rs + [x])[..|rs|] == rs;
  }

  /** Adding a name to the last run adds one copy of its id at the end. */
  lemma FlatIdsExtendLast(pre: seq<Run>, last: Run, v: string)
    ensures FlatIds(pre + [Run(last.id, last.names + [v])]) == FlatIds(pre + [last]) + [last.id]
  {
    var x := Run(last.id, last.names + [v]);
    FlatIdsSnoc(pre, x);
    FlatIdsSnoc(pre, last);
    assert Rep(|x.names|, x.id) == Rep(|last.names|, last.id) + [last.id];
  }

  /** A new run of one name adds one copy of its id at the end. */
  lemma FlatIdsNewRun(rs: seq<Run>, k: ItemId, v: string)
    ensures FlatIds(rs + [Run(k, [v])]) == FlatIds(rs) + [k]
  {
    FlatIdsSnoc(rs, Run(k, [v]));
    assert Rep(1, k) == [k];
  }

  /** The other half of the partition: every name of a run comes from a row
      carrying that run's id, so the runs are the rows cut into pieces. */
  lemma {:induction false} RunsCarryRowIds(rows: seq<AuthorRow>)
    ensures FlatIds(Runs(rows)) == IdList(rows)
  {
    if rows != [] {
      var n := |rows| - 1;
      var pre, r := rows[..n], rows[n];
      assert IdList(rows) == IdList(pre) + [r.id];
      RunsCarryRowIds(pre);
      RunsSnoc(rows);
      var rs0 := Runs(pre);
      if rs0 != [] && rs0[|rs0| - 1].id == r.id {
        var m := |rs0| - 1;
        assert rs0[..m] + [rs0[m]] == rs0;
        FlatIdsExtendLast(rs0[..m], rs0[m], r.val);
      } else {
        FlatIdsNewRun(rs0, r.id, r.val);
      }
    }
  }

  /** The runs are maximal: neighbouring runs have different ids. */
  lemma {:induction false} RunsAreMaximal(rows: seq<AuthorRow>)
    ensures var rs := Runs(rows); forall j :: 0 < j < |rs| ==> rs[j].id != rs[j - 1].id
  {
    if rows != [] {
      var n := |rows| - 1;
      var pre, r := rows[..n], rows[n];
      var rs0, rs := Runs(pre), Runs(rows);
      RunsAreMaximal(pre);
      RunsSnoc(rows);
      if rs0 != [] && rs0[|rs0| - 1].id == r.id {
        var m := |rs0| - 1;
        assert rs == rs0[..m] + [Run(r.id, rs0[m].names + [r.val])];
        assert forall j :: 0 <= j < m ==> rs[j] == rs0[j];
        assert rs[m].id == rs0[m].id;
      } else {
        assert rs == rs0 + [Run(r.id, [r.val])];
        assert forall j :: 0 <= j < |rs0| ==> rs[j] == rs0[j];
      }
    }
  }

  lemma ContiguousPrefix(rows: seq<AuthorRow>)
    requires rows != [] && Contiguous(rows)
    ensures Contiguous(rows[..|rows| - 1])
  {
    var pre := rows[..|rows| - 1];
    forall j | 0 < j < |pre| && pre[j].id != pre[j - 1].id ensures pre[j].id !in IdSet(pre[..j]) {
      assert pre[j] == rows[j] && pre[j - 1] == rows[j - 1] && pre[..j] == rows[..j];
    }
  }

  /** Under contiguity, a row whose id differs from the row before it has
      an id no earlier row has. */
  lemma ContiguousNewId(rows: seq<AuthorRow>)
    requires |rows| > 1 && Contiguous(rows)
    requires rows[|rows| - 1].id != rows[|rows| - 2].id
    ensures rows[|rows| - 1].id !in IdSet(rows[..|rows| - 1])
  {
  }

  /** When ids are contiguous, no two runs share an id. */
  lemma {:induction false} ContiguousRunsDistinct(rows: seq<AuthorRow>)
    requires Contiguous(rows)
    ensures var rs := Runs(rows); forall j, l :: 0 <= j < l < |rs| ==> rs[j].id != rs[l].id
  {
    if rows != [] {
      var pre := rows[..|rows| - 1];
      var r := rows[|rows| - 1];
      ContiguousPrefix(rows);
      ContiguousRunsDistinct(pre);
      RunsSnoc(rows);
      var rs0, rs := Runs(pre), Runs(rows);
      if rs0 != [] && rs0[|rs0| - 1].id == r.id {
        assert forall j :: 0 <= j < |rs0| - 1 ==> rs[j] == rs0[j];
      } else {
        assert forall j :: 0 <= j < |rs0| ==> rs[j] == rs0[j];
        if rs0 != [] { ContiguousNewId(rows); }
        assert r.id !in RunIds(rs0) by {
          RunIdsAreRowIds(pre);
        }
      }
    }
  }

  /** When ids are contiguous, each run holds all names of its id. */
  lemma {:induction false} ContiguousRunsHoldAllNames(rows: seq<AuthorRow>)
    requires Contiguous(rows)
    ensures var rs := Runs(rows); forall j :: 0 <= j < |rs| ==> rs[j].names == NamesOf(rows, rs[j].id)
  {
    if rows != [] {
      var n := |rows| - 1;
      var pre, r := rows[..n], rows[n];
      var rs0, rs := Runs(pre), Runs(rows);
      ContiguousPrefix(rows);
      ContiguousRunsHoldAllNames(pre);
      ContiguousRunsDistinct(rows);
      RunsSnoc(rows);
      var extend := rs0 != [] && rs0[|rs0| - 1].id == r.id;
      var kept := if extend then |rs0| - 1 else |rs0|;
      assert |rs| == kept + 1 && rs[kept].id == r.id;
      assert forall j :: 0 <= j < kept ==> rs[j] == rs0[j];
      assert extend ==> rs[kept].names == rs0[kept].names + [r.val];
      assert !extend ==> rs[kept].names == [r.val] && NamesOf(pre, r.id) == [] by {
        if !extend {
          if rs0 != [] { ContiguousNewId(rows); }
          RunIdsAreRowIds(pre);
        }
      }
      forall j | 0 <= j < |rs| ensures rs[j].names == NamesOf(rows, rs[j].id) {
        assert NamesOf(rows, rs[j].id) == NamesOf(pre, rs[j].id) + (if r.id == rs[j].id then [r.val] else []);
        if j < kept {
          assert rs[j].id != rs[kept].id;
        }
      }
    }
  }

  /** For contiguous author rows, the loop stores an entry for every item
      except the one in the last row. */
  lemma ContiguousAuthorKeys(rows: seq<AuthorRow>)
    requires rows != [] && Contiguous(rows)
    ensures forall k :: k in AuthorsOf(rows).value <==> k in IdSet(rows) && k != rows[|rows| - 1].id
  {
    var rs := Runs(rows);
    var n := |rs| - 1;
    var stored := rs[..n];
    assert AuthorsOf(rows).value.Keys == RunIds(stored);
    ContiguousRunsDistinct(rows);
    RunIdsAreRowIds(rows);
    forall k ensures k in RunIds(stored) <==> k in IdSet(rows) && k != rows[|rows| - 1].id {
      if k in IdSet(rows) && k != rows[|rows| - 1].id {
        var j :| 0 <= j < |rs| && rs[j].id == k;
        assert stored[j].id == k;
      }
      if k in RunIds(stored) {
        var j :| 0 <= j < n && stored[j].id == k;
        assert rs[j] == stored[j];
      }
    }
  }

  /** For contiguous author rows, the entry a stored run leaves is the
      formatted list of all names of its item. */
  lemma StoredRunHoldsAllNames(rows: seq<AuthorRow>, j: nat)
    requires rows != [] && Contiguous(rows) && j < |Runs(rows)| - 1
    ensures var rs := Runs(rows); var stored := rs[..|rs| - 1];
      && rs[j].id in IdSet(rows) && rs[j].id in StoredAuthors(stored)
      && StoredAuthors(stored)[rs[j].id] == FormatAuthors(NamesOf(rows, rs[j].id))
  {
    var rs := Runs(rows);
    var n := |rs| - 1;
    var stored := rs[..n];
    assert stored[j] == rs[j];
    assert rs[j].id in IdSet(rows) by { RunIdsAreRowIds(rows); }
    assert rs[j].names == NamesOf(rows, rs[j].id) by { ContiguousRunsHoldAllNames(rows); }
    assert forall l :: j < l < n ==> stored[l].id != stored[j].id by {
      ContiguousRunsDistinct(rows);
      assert forall l :: j < l < n ==> stored[l] == rs[l];
    }
    LastRunWins(stored, j);
  }

  /** For contiguous author rows, each stored entry is the formatted list of
      all names of its item. */
  lemma ContiguousAuthorValues(rows: seq<AuthorRow>)
    requires rows != [] && Contiguous(rows)
    ensures var m := AuthorsOf(rows).value;
      forall k :: k in m ==> k in IdSet(rows) && m[k] == FormatAuthors(NamesOf(rows, k))
  {
    var rs := Runs(rows);
    var stored := rs[..|rs| - 1];
    var m := StoredAuthors(stored);
    assert AuthorsOf(rows).value == m;
    forall k | k in m ensures k in IdSet(rows) && m[k] == FormatAuthors(NamesOf(rows, k)) {
      var j :| 0 <= j < |stored| && stored[j].id == k;
      assert stored[j] == rs[j];
      StoredRunHoldsAllNames(rows, j);
    }
  }

  /** For contiguous author rows, the loop stores, for every item except the
      one in the last row, the formatted list of all its names; the last
      item's authors are never stored. */
  lemma ContiguousAuthors(rows: seq<AuthorRow>)
    requires rows != [] && Contiguous(rows)
    ensures var m := AuthorsOf(rows).value;
      && (forall k :: k in m <==> k in IdSet(rows) && k != rows[|rows| - 1].id)
      && (forall k :: k in m ==> m[k] == FormatAuthors(NamesOf(rows, k)))
  {
    ContiguousAuthorKeys(rows);
    ContiguousAuthorValues(rows);
  }

  /** In particular, a library whose author rows all belong to one item
      shows no author for it. */
  lemma OneItemGetsNoAuthors(rows: seq<AuthorRow>)
    requires rows != []
    requires forall i :: 0 <= i < |rows| ==> rows[i].id == rows[0].id
    ensures AuthorsOf(rows) == Some(map[])
  {
    ContiguousAuthors(rows);
    var m := AuthorsOf(rows).value;
    assert forall k :: k in IdSet(rows) ==> k == rows[|rows| - 1].id;
    assert m == map[];
  }

  // ---------------------------------------------------------------------
  // Titles and years: first row per id wins
  // ---------------------------------------------------------------------

  /** The dictionary a "first row wins" loop builds: a row's payload is
      stored only when its id is not yet present. */
  function FirstSeen<T>(rows: seq<Row<T>>): (m: map<ItemId, T>)
    ensures m.Keys == IdSet(rows)
  {
    if rows == [] then map[]
    else
      var m := FirstSeen(rows[..|rows| - 1]);
      var r := rows[|rows| - 1];
      IdSetSnoc(rows);
      if r.id in m then m else m[r.id := r.val]
  }

  /** What the fold stores under an id is the payload of the id's first row. */
  lemma {:induction false} FirstSeenIsFirstRow<T>(rows: seq<Row<T>>, k: ItemId)
    requires k in IdSet(rows)
    ensures FirstSeen(rows)[k] == rows[FirstIndex(rows, k)].val
  {
    var n := |rows| - 1;
    var pre := rows[..n];
    IdSetSnoc(rows);
    if k in IdSet(pre) {
      FirstSeenIsFirstRow(pre, k);
      var i := FirstIndex(pre, k);
      assert pre[i] == rows[i];
      assert forall j :: 0 <= j < i ==> pre[j] == rows[j];
      assert FirstIndex(rows, k) == i;
    } else {
      assert forall j :: 0 <= j < n ==> pre[j] == rows[j];
      assert FirstIndex(rows, k) == n;
    }
  }

  /** Rows appended later never change what is already recorded for an id. */
  lemma {:induction false} FirstSeenIgnoresLaterRows<T>(rows: seq<Row<T>>, later: seq<Row<T>>, k: ItemId)
    requires k in IdSet(rows)
    ensures k in IdSet(rows + later) && FirstSeen(rows + later)[k] == FirstSeen(rows)[k]
  {
    if later == [] {
      assert rows + later == rows;
    } else {
      var n := |later| - 1;
      assert (rows + later)[..|rows + later| - 1] == rows + later[..n];
      FirstSeenIgnoresLaterRows(rows, later[..n], k);
    }
  }

  /** The year shown for a date: the text before its first "-". */
  function YearOf(date: string): (y: string)
    ensures StartsWith(date, y) && '-' !in y
    ensures |y| < |date| ==> date[|y|] == '-'
  {
    BeforeFirst(date, '-')
  }

  /** The dictionary the date loop builds: the year of a row is stored only
      when its id is not yet present. */
  function YearsOf(rows: seq<DateRow>): (m: map<ItemId, string>)
    ensures m.Keys == IdSet(rows)
  {
    if rows == [] then map[]
    else
      var m := YearsOf(rows[..|rows| - 1]);
      var r := rows[|rows| - 1];
      IdSetSnoc(rows);
      if r.id in m then m else m[r.id := YearOf(r.val)]
  }

  /** An item's year comes from its first date. */
  lemma {:induction false} YearsAreFirstDates(rows: seq<DateRow>)
    ensures forall k :: k in YearsOf(rows) ==> YearsOf(rows)[k] == YearOf(FirstSeen(rows)[k])
  {
    if rows != [] {
      YearsAreFirstDates(rows[..|rows| - 1]);
    }
  }

  /** The title loop of `main`: `titles` and `keys` keep the first row per
      id; `order` is the insertion order of the dictionary. */
  method CollectTitles(rows: seq<TitleRow>) returns (titles: map<ItemId, TitleInfo>, order: seq<ItemId>)
    ensures titles == FirstSeen(rows)
    ensures forall k :: k in order <==> k in titles
    ensures Distinct(order)
    ensures |order| > 0 <==> |rows| > 0
  {
    titles, order := map[], [];
    for i := 0 to |rows|
      invariant titles == FirstSeen(rows[..i])
      invariant forall k :: k in order <==> k in titles
      invariant Distinct(order)
      invariant |order| > 0 <==> i > 0
    {
      var k := rows[i].id;
      assert rows[..i + 1][..i] == rows[..i];
      if k !in titles {
        titles := titles[k := rows[i].val];
        order := order + [k];
      } else {
        assert k in order;
      }
    }
    assert rows[..|rows|] == rows;
  }

  /** The date loop of `main`: `years` keeps, per id, the year of its first
      date row. */
  method CollectYears(rows: seq<DateRow>) returns (years: map<ItemId, string>)
    ensures years == YearsOf(rows)
  {
    years := map[];
    for i := 0 to |rows|
      invariant years == YearsOf(rows[..i])
    {
      var k := rows[i].id;
      assert rows[..i + 1][..i] == rows[..i];
      if k !in years {
        years := years[k := YearOf(rows[i].val)];
      }
    }
    assert rows[..|rows|] == rows;
  }

  // ---------------------------------------------------------------------
  // Attachment paths
  // ---------------------------------------------------------------------

  const AttachmentsPrefix: string := "attachments:"
  const StoragePrefix: string := "storage:"
  const StorageDir: string := "storage"

  /** A raw path in the library's storage folder whose item has no storage
      key: resolving it raises `KeyError`. */
  predicate MissingKey(row: PathRow, titles: map<ItemId, TitleInfo>) {
    row.val.Some? && StartsWith(row.val.value, StoragePrefix) && row.id !in titles
  }

  /** Where a raw attachment path points: relative to the base directory for
      "attachments:", inside `storage/<key>/` of the data directory for
      "storage:", and as written otherwise. */
  function ResolvePath(id: ItemId, raw: string, titles: map<ItemId, TitleInfo>, baseDir: string, dataDir: string)
    : (r: Result<string, BuildError>)
    ensures r.Err? <==> MissingKey(Row(id, Some(raw)), titles)
    ensures r.Err? ==> r.error == MissingStorageKey(id)
    ensures StartsWith(raw, AttachmentsPrefix) ==>
      r == Ok(baseDir + "/" + raw[|AttachmentsPrefix|..])
    ensures StartsWith(raw, StoragePrefix) && id in titles ==>
      r == Ok(dataDir + "/" + StorageDir + "/" + titles[id].key + "/" + raw[|StoragePrefix|..])
    ensures !StartsWith(raw, AttachmentsPrefix) && !StartsWith(raw, StoragePrefix) ==> r == Ok(raw)
  {
    if StartsWith(raw, AttachmentsPrefix) then
      assert raw[0] == 'a';
      Ok(Join(baseDir, raw[|AttachmentsPrefix|..]))
    else if StartsWith(raw, StoragePrefix) then
      if id in titles then Ok(Join(Join(Join(dataDir, StorageDir), titles[id].key), raw[|StoragePrefix|..]))
      else Err(MissingStorageKey(id))
    else Ok(raw)
  }

  /** `s` with every backslash and every quote `q` preceded by a backslash. */
  function Escape(s: string, q: char): (r: string)
    ensures '\\' !in s && q !in s ==> r == s
    ensures |r| >= |s|
  {
    if s == [] then []
    else (if s[0] == '\\' || s[0] == q then ['\\', s[0]] else [s[0]]) + Escape(s[1..], q)
  }

  /** Python's `repr` of a string: single quotes, unless the string holds a
      single quote and no double quote; the chosen quote and backslashes are
      escaped. */
  function StrRepr(s: string): (r: string)
    ensures |r| >= |s| + 2
    ensures '\'' !in s && '\\' !in s ==> r == "'" + s + "'"
    ensures '\'' in s && '"' !in s && '\\' !in s ==> r == "\"" + s + "\""
  {
    if '\'' in s && '"' !in s then "\"" + Escape(s, '"') + "\"" else "'" + Escape(s, '\'') + "'"
  }

  /** `str()` of a list of paths: "[PosixPath('a'), PosixPath('b')]". */
  function ListRepr(ps: seq<string>): (r: string)
    ensures |r| > 0 && r[0] == '['
  {
    "[" + ReprItems(ps) + "]"
  }

  function ReprItems(ps: seq<string>): string {
    if ps == [] then ""
    else if |ps| == 1 then "PosixPath(" + StrRepr(ps[0]) + ")"
    else "PosixPath(" + StrRepr(ps[0]) + "), " + ReprItems(ps[1..])
  }

  /** A raw path that cannot look like the text of a list. */
  predicate NoListLiteral(row: PathRow) {
    row.val.None? || !StartsWith(row.val.value, "[")
  }

  /** One iteration of the path loop: NULL paths are skipped, and so is a
      raw path equal to the text of the list already stored for its item;
      any other path is resolved and appended to its item's list. */
  function PathStep(paths: map<ItemId, seq<string>>, row: PathRow, titles: map<ItemId, TitleInfo>, baseDir: string, dataDir: string)
    : (r: Result<map<ItemId, seq<string>>, BuildError>)
    ensures row.val.None? ==> r == Ok(paths)
    ensures r.Err? <==> MissingKey(row, titles)
    ensures r.Err? ==> r.error == MissingStorageKey(row.id)
    ensures r.Ok? ==> r.value.Keys == paths.Keys + (if row.val.Some? then {row.id} else {})
  {
    assert MissingKey(row, titles) && row.id in paths ==> ListRepr(paths[row.id]) != row.val.value by {
      if MissingKey(row, titles) && row.id in paths {
        assert row.val.value[0] == 's';
      }
    }
    if row.val.None? then Ok(paths)
    else if row.id in paths && ListRepr(paths[row.id]) == row.val.value then Ok(paths)
    else match ResolvePath(row.id, row.val.value, titles, baseDir, dataDir)
      case Err(e) => Err(e)
      case Ok(p) => Ok(paths[row.id := (if row.id in paths then paths[row.id] else []) + [p]])
  }

  /** The cases of one step, as the loop body takes them. */
  lemma PathStepCases(paths: map<ItemId, seq<string>>, row: PathRow, titles: map<ItemId, TitleInfo>, baseDir: string, dataDir: string)
    requires row.val.Some? && !(row.id in paths && ListRepr(paths[row.id]) == row.val.value)
    ensures var r, res := PathStep(paths, row, titles, baseDir, dataDir), ResolvePath(row.id, row.val.value, titles, baseDir, dataDir);
      && (res.Err? ==> r == Err(res.error))
      && (res.Ok? ==> r == Ok(paths[row.id := (if row.id in paths then paths[row.id] else []) + [res.value]]))
  {
  }

  /** A step changes only the list of its row's item, and only by adding at
      most one path at its end. */
  lemma PathStepTouchesOneItem(paths: map<ItemId, seq<string>>, row: PathRow, titles: map<ItemId, TitleInfo>, baseDir: string, dataDir: string)
    ensures var r := PathStep(paths, row, titles, baseDir, dataDir);
      && (r.Ok? ==> r.value - {row.id} == paths - {row.id})
      && (r.Ok? && row.id in paths ==> paths[row.id] <= r.value[row.id] && |r.value[row.id]| <= |paths[row.id]| + 1)
  {
  }

  /** The ids of the rows that have a path. */
  function PathIds(rows: seq<PathRow>): set<ItemId> {
    set i | 0 <= i < |rows| && rows[i].val.Some? :: rows[i].id
  }

  lemma PathIdsSnoc(rows: seq<PathRow>)
    requires rows != []
    ensures var r := rows[|rows| - 1];
      PathIds(rows) == PathIds(rows[..|rows| - 1]) + (if r.val.Some? then {r.id} else {})
  {
    var pre := rows[..|rows| - 1];
    forall k | k in PathIds(rows) ensures k in PathIds(pre) || (rows[|rows| - 1].val.Some? && k == rows[|rows| - 1].id) {
      var i :| 0 <= i < |rows| && rows[i].val.Some? && rows[i].id == k;
      if i < |rows| - 1 { assert pre[i] == rows[i]; }
    }
    forall k | k in PathIds(pre) ensures k in PathIds(rows) {
      var i :| 0 <= i < |pre| && pre[i].val.Some? && pre[i].id == k;
      assert rows[i] == pre[i];
    }
  }

  /** The path loop of `main` over all rows; the first error stops it. When
      it succeeds, exactly the items with a path have a list. */
  function CollectPaths(rows: seq<PathRow>, titles: map<ItemId, TitleInfo>, baseDir: string, dataDir: string)
    : (r: Result<map<ItemId, seq<string>>, BuildError>)
    ensures r.Ok? ==> r.value.Keys == PathIds(rows)
  {
    if rows == [] then Ok(map[])
    else
      PathIdsSnoc(rows);
      match CollectPaths(rows[..|rows| - 1], titles, baseDir, dataDir)
      case Err(e) => Err(e)
      case Ok(paths) => PathStep(paths, rows[|rows| - 1], titles, baseDir, dataDir)
  }

  /** Once the loop has failed, the remaining rows do not matter. */
  lemma {:induction false} ErrorStops(rows: seq<PathRow>, i: nat, titles: map<ItemId, TitleInfo>, baseDir: string, dataDir: string)
    requires i <= |rows| && CollectPaths(rows[..i], titles, baseDir, dataDir).Err?
    ensures CollectPaths(rows, titles, baseDir, dataDir) == CollectPaths(rows[..i], titles, baseDir, dataDir)
  {
    if i < |rows| {
      var n := |rows| - 1;
      assert rows[..n][..i] == rows[..i];
      ErrorStops(rows[..n], i, titles, baseDir, dataDir);
    } else {
      assert rows[..i] == rows;
    }
  }

  /** Appends `p` to the list of item `id`, creating the list first when
      the item has none. */
  method AppendPath(paths: map<ItemId, seq<string>>, id: ItemId, p: string) returns (m: map<ItemId, seq<string>>)
    ensures m == paths[id := (if id in paths then paths[id] else []) + [p]]
  {
    m := paths;
    if id !in m {
      m := m[id := []];
    }
    m := m[id := m[id] + [p]];
  }

  /** The path loop of `main`. */
  method ResolvePaths(rows: seq<PathRow>, titles: map<ItemId, TitleInfo>, baseDir: string, dataDir: string)
    returns (r: Result<map<ItemId, seq<string>>, BuildError>)
    ensures r == CollectPaths(rows, titles, baseDir, dataDir)
  {
    var paths: map<ItemId, seq<string>> := map[];
    for i := 0 to |rows|
      invariant CollectPaths(rows[..i], titles, baseDir, dataDir) == Ok(paths)
    {
      var row := rows[i];
      ghost var step := PathStep(paths, row, titles, baseDir, dataDir);
      assert CollectPaths(rows[..i + 1], titles, baseDir, dataDir) == step by {
        assert rows[..i + 1][..i] == rows[..i];
      }
      if row.val.None? {
        continue;
      }
      var path := row.val.value;
      if row.id in paths && ListRepr(paths[row.id]) == path {
        continue;
      }
      var resolved := ResolvePath(row.id, path, titles, baseDir, dataDir);
      PathStepCases(paths, row, titles, baseDir, dataDir);
      if resolved.Err? {
        ErrorStops(rows, i + 1, titles, baseDir, dataDir);
        return Err(resolved.error);
      }
      paths := AppendPath(paths, row.id, resolved.value);
    }
    assert rows[..|rows|] == rows;
    return Ok(paths);
  }

  /** The resolved paths of item `k`, one per row with a path, in row order. */
  function ResolvedOf(rows: seq<PathRow>, k: ItemId, titles: map<ItemId, TitleInfo>, baseDir: string, dataDir: string)
    : (ps: seq<string>)
    ensures |ps| > 0 ==> exists i :: 0 <= i < |rows| && rows[i].id == k && rows[i].val.Some?
  {
    if rows == [] then []
    else
      var n := |rows| - 1;
      var pre := ResolvedOf(rows[..n], k, titles, baseDir, dataDir);
      assert forall i :: 0 <= i < n ==> rows[..n][i] == rows[i];
      var row := rows[n];
      if row.id == k && row.val.Some? then
        match ResolvePath(k, row.val.value, titles, baseDir, dataDir)
        case Ok(p) => pre + [p]
        case Err(_) => pre
      else pre
  }

  /** The loop fails exactly when some "storage:" path belongs to an item
      without a storage key: such a path never equals the text of a list,
      so the guard cannot skip it. */
  lemma {:induction false} PathErrorsAreMissingKeys(rows: seq<PathRow>, titles: map<ItemId, TitleInfo>, baseDir: string, dataDir: string)
    ensures CollectPaths(rows, titles, baseDir, dataDir).Err? <==> exists i :: 0 <= i < |rows| && MissingKey(rows[i], titles)
  {
    if rows != [] {
      var n := |rows| - 1;
      var pre, row := rows[..n], rows[n];
      PathErrorsAreMissingKeys(pre, titles, baseDir, dataDir);
      assert (exists i :: 0 <= i < |rows| && MissingKey(rows[i], titles))
        <==> (exists i :: 0 <= i < n && MissingKey(pre[i], titles)) || MissingKey(row, titles) by {
        assert forall i :: 0 <= i < n ==> pre[i] == rows[i];
      }
    }
  }

  /** One more row keeps the loop's lists equal to the resolved rows, for
      an item `k`, when the row's raw path does not start with "[". */
  lemma ResolvedStep(pre: seq<PathRow>, row: PathRow, k: ItemId, titles: map<ItemId, TitleInfo>, baseDir: string, dataDir: string)
    requires NoListLiteral(row)
    requires CollectPaths(pre, titles, baseDir, dataDir).Ok? && CollectPaths(pre + [row], titles, baseDir, dataDir).Ok?
    requires var m0 := CollectPaths(pre, titles, baseDir, dataDir).value;
      && (k in m0 <==> ResolvedOf(pre, k, titles, baseDir, dataDir) != [])
      && (k in m0 ==> m0[k] == ResolvedOf(pre, k, titles, baseDir, dataDir))
    ensures var m := CollectPaths(pre + [row], titles, baseDir, dataDir).value;
      && (k in m <==> ResolvedOf(pre + [row], k, titles, baseDir, dataDir) != [])
      && (k in m ==> m[k] == ResolvedOf(pre + [row], k, titles, baseDir, dataDir))
  {
    var rows := pre + [row];
    assert rows[..|pre|] == pre && rows[|pre|] == row;
    var m0 := CollectPaths(pre, titles, baseDir, dataDir).value;
    CollectPathsSnoc(pre, row, titles, baseDir, dataDir);
    var m := PathStep(m0, row, titles, baseDir, dataDir).value;
    if row.id != k {
      PathStepTouchesOneItem(m0, row, titles, baseDir, dataDir);
      assert k in m <==> k in m - {row.id};
      assert k in m0 <==> k in m0 - {row.id};
      assert k in m ==> m[k] == (m - {row.id})[k];
      assert k in m0 ==> m0[k] == (m0 - {row.id})[k];
    } else if row.val.Some? {
      var raw := row.val.value;
      assert |raw| > 0 ==> raw[..1] == [raw[0]];
      assert k in m0 ==> ListRepr(m0[k]) != raw;
    }
  }

  /** Unless a raw path starts with "[", the guard never fires, so when the
      loop succeeds exactly the items with a path get a list, holding all
      their resolved paths in row order, duplicates included. */
  lemma {:induction false} PathListsAreResolvedRows(rows: seq<PathRow>, titles: map<ItemId, TitleInfo>, baseDir: string, dataDir: string)
    requires forall i :: 0 <= i < |rows| ==> NoListLiteral(rows[i])
    ensures var r := CollectPaths(rows, titles, baseDir, dataDir);
      r.Ok? ==> forall k ::
        && (k in r.value <==> ResolvedOf(rows, k, titles, baseDir, dataDir) != [])
        && (k in r.value ==> r.value[k] == ResolvedOf(rows, k, titles, baseDir, dataDir))
  {
    if rows != [] && CollectPaths(rows, titles, baseDir, dataDir).Ok? {
      var n := |rows| - 1;
      var pre, row := rows[..n], rows[n];
      assert rows == pre + [row];
      CollectPathsSnoc(pre, row, titles, baseDir, dataDir);
      assert forall i :: 0 <= i < n ==> pre[i] == rows[i];
      PathListsAreResolvedRows(pre, titles, baseDir, dataDir);
      forall k ensures var m := CollectPaths(rows, titles, baseDir, dataDir).value;
        && (k in m <==> ResolvedOf(rows, k, titles, baseDir, dataDir) != [])
        && (k in m ==> m[k] == ResolvedOf(rows, k, titles, baseDir, dataDir))
      {
        ResolvedStep(pre, row, k, titles, baseDir, dataDir);
      }
    }
  }

  /** The loop over one more row is one more step. */
  lemma CollectPathsSnoc(rows: seq<PathRow>, row: PathRow, titles: map<ItemId, TitleInfo>, baseDir: string, dataDir: string)
    ensures var r := CollectPaths(rows, titles, baseDir, dataDir);
      && (r.Err? ==> CollectPaths(rows + [row], titles, baseDir, dataDir) == r)
      && (r.Ok? ==> CollectPaths(rows + [row], titles, baseDir, dataDir) == PathStep(r.value, row, titles, baseDir, dataDir))
  {
    assert (rows + [row])[..|rows|] == rows;
  }

  /** A path without a prefix that does not start with "[" is appended as
      written. */
  lemma PlainPathStep(paths: map<ItemId, seq<string>>, id: ItemId, p: string, titles: map<ItemId, TitleInfo>, baseDir: string, dataDir: string)
    requires PlainPath(p)
    ensures PathStep(paths, Row(id, Some(p)), titles, baseDir, dataDir)
      == Ok(paths[id := (if id in paths then paths[id] else []) + [p]])
  {
    assert id in paths ==> ListRepr(paths[id])[0] != p[0];
  }

  /** A raw path the loop stores as written: no prefix, and not starting
      with "[". */
  predicate PlainPath(p: string) {
    |p| > 0 && p[0] != '[' && !StartsWith(p, AttachmentsPrefix) && !StartsWith(p, StoragePrefix)
  }

  /** The guard compares a raw path with the text of a whole list, so a
      repeated path is stored twice. */
  lemma DuplicatePathsAreKept(id: ItemId, p: string, titles: map<ItemId, TitleInfo>, baseDir: string, dataDir: string)
    requires PlainPath(p)
    ensures CollectPaths([Row(id, Some(p)), Row(id, Some(p))], titles, baseDir, dataDir) == Ok(map[id := [p, p]])
  {
    var row := Row(id, Some(p));
    var one := map[id := [p]];
    assert CollectPaths([row], titles, baseDir, dataDir) == Ok(one) by {
      CollectPathsSnoc([], row, titles, baseDir, dataDir);
      PlainPathStep(map[], id, p, titles, baseDir, dataDir);
      assert [] + [row] == [row];
      assert CollectPaths([], titles, baseDir, dataDir) == Ok(map[]);
      assert [] + [p] == [p];
      assert map[][id := [p]] == one;
    }
    assert [row, row] == [row] + [row];
    CollectPathsSnoc([row], row, titles, baseDir, dataDir);
    PlainPathStep(one, id, p, titles, baseDir, dataDir);
    assert [p] + [p] == [p, p];
    assert one[id := [p, p]] == map[id := [p, p]];
  }

  /** The guard does fire for a raw path spelled like the stored list, such
      as "[PosixPath('a.pdf')]" after "a.pdf". */
  lemma ListTextIsSkipped(id: ItemId, p: string, titles: map<ItemId, TitleInfo>, baseDir: string, dataDir: string)
    requires PlainPath(p)
    ensures CollectPaths([Row(id, Some(p)), Row(id, Some(ListRepr([p])))], titles, baseDir, dataDir) == Ok(map[id := [p]])
  {
    var row, text := Row(id, Some(p)), Row(id, Some(ListRepr([p])));
    var one := map[id := [p]];
    assert CollectPaths([row], titles, baseDir, dataDir) == Ok(one) by {
      CollectPathsSnoc([], row, titles, baseDir, dataDir);
      PlainPathStep(map[], id, p, titles, baseDir, dataDir);
      assert [] + [row] == [row];
      assert CollectPaths([], titles, baseDir, dataDir) == Ok(map[]);
      assert [] + [p] == [p];
      assert map[][id := [p]] == one;
    }
    assert [row, text] == [row] + [text];
    CollectPathsSnoc([row], text, titles, baseDir, dataDir);
  }

  /** `keys` keeps the storage key of an item's first title row, and every
      "storage:" path of the item is resolved with that key, so a second
      stored attachment points into the first attachment's folder. */
  lemma StorageUsesFirstKey(titleRows: seq<TitleRow>, id: ItemId, raw: string, baseDir: string, dataDir: string)
    requires StartsWith(raw, StoragePrefix) && id in IdSet(titleRows)
    ensures ResolvePath(id, raw, FirstSeen(titleRows), baseDir, dataDir)
      == Ok(dataDir + "/" + StorageDir + "/" + titleRows[FirstIndex(titleRows, id)].val.key + "/" + raw[|StoragePrefix|..])
  {
    FirstSeenIsFirstRow(titleRows, id);
  }

  // ---------------------------------------------------------------------
  // The item list
  // ---------------------------------------------------------------------

  /** One line of the item picker: its text and the item's id. */
  datatype Entry = Entry(text: string, id: ItemId)

  /** Python's `<` on `(label, id)` tuples: labels first, then ids. */
  predicate EntryLt(x: Entry, y: Entry): (b: bool)
    ensures b <==> StrLt(x.text, y.text) || (x.text == y.text && x.id < y.id)
    ensures b ==> x != y
  {
    if x.text != y.text then StrLt(x.text, y.text)
    else
      StrLtIrreflexive(x.text);
      x.id < y.id
  }

  /** `EntryLt` is a strict total order. */
  lemma EntryLtIsStrictTotal()
    ensures Asymmetric(EntryLt)
    ensures NotLtTransitive(EntryLt)
    ensures forall x, y :: x == y || EntryLt(x, y) || EntryLt(y, x)
  {
    forall x, y | EntryLt(x, y) ensures !EntryLt(y, x) {
      if x.text != y.text { StrLtAsymmetric(x.text, y.text); }
    }
    forall x, y ensures x == y || EntryLt(x, y) || EntryLt(y, x) {
      StrLtTrichotomy(x.text, y.text);
    }
    forall x, y, z | !EntryLt(y, x) && !EntryLt(z, y) ensures !EntryLt(z, x) {
      StrLtTrichotomy(x.text, y.text);
      StrLtTrichotomy(y.text, z.text);
      if x.text != z.text {
        if x.text == y.text {
          assert StrLt(y.text, z.text);
        } else if y.text == z.text {
          assert StrLt(x.text, y.text);
        } else {
          StrLtTransitive(x.text, y.text, z.text);
        }
        StrLtAsymmetric(x.text, z.text);
      }
    }
  }

  /** A sorted list of distinct entries is strictly increasing. */
  lemma SortedDistinctIsIncreasing(s: seq<Entry>)
    requires AdjacentSorted(s, EntryLt) && Distinct(s)
    ensures forall i, j :: 0 <= i < j < |s| ==> EntryLt(s[i], s[j])
  {
    EntryLtIsStrictTotal();
    AdjacentSortedIsSorted(s, EntryLt);
  }

  /** Python's `dict.get`. */
  function Get(m: map<ItemId, string>, k: ItemId): (v: Option<string>)
    ensures v.Some? <==> k in m
    ensures v.Some? ==> v.value == m[k]
  {
    if k in m then Some(m[k]) else None
  }

  /** The picker label of a titled item. */
  function ItemLabel(k: ItemId, titles: map<ItemId, TitleInfo>, authors: map<ItemId, string>, years: map<ItemId, string>): (r: string)
    requires k in titles
    ensures k in authors && authors[k] != "" ==> StartsWith(r, authors[k])
    ensures !(k in authors && authors[k] != "") ==> StartsWith(r, "Unknown")
    ensures var title := titles[k].title;
      |r| >= |title| + 3 && r[|r| - |title| - 3..] == " - " + title
  {
    var title, author, year := titles[k].title, Get(authors, k), Get(years, k);
    ItemLabelEndsWithTitle(title, author, year);
    var r := FormatItem(title, author, year);
    assert r == Who(author) + (When(year) + " - " + title);
    r
  }

  /** The dictionary of authors the item labels see: empty when there are
      no author rows (only reachable when there are no titles either). */
  function AuthorMap(rows: seq<AuthorRow>): map<ItemId, string> {
    if rows == [] then map[] else AuthorsOf(rows).value
  }

  /** `entries` lists each titled item exactly once, with its label. */
  ghost predicate ListsTitledItems(entries: seq<Entry>, titles: map<ItemId, TitleInfo>, authors: map<ItemId, string>, years: map<ItemId, string>) {
    forall e :: e in entries <==> e.id in titles && e.text == ItemLabel(e.id, titles, authors, years)
  }

  /** Lines 548-555 of `main`: one `(label, id)` entry per title, in the
      dictionary's order, then `list.sort()`. */
  method ItemList(titles: map<ItemId, TitleInfo>, order: seq<ItemId>, authors: map<ItemId, string>, years: map<ItemId, string>)
    returns (entries: seq<Entry>)
    requires forall k :: k in order <==> k in titles
    requires Distinct(order)
    ensures ListsTitledItems(entries, titles, authors, years)
    ensures forall i, j :: 0 <= i < j < |entries| ==> EntryLt(entries[i], entries[j])
  {
    var items: seq<Entry> := [];
    for j := 0 to |order|
      invariant |items| == j
      invariant forall t :: 0 <= t < j ==> order[t] in titles && items[t] == Entry(ItemLabel(order[t], titles, authors, years), order[t])
    {
      items := items + [Entry(ItemLabel(order[j], titles, authors, years), order[j])];
    }
    ItemsListTitles(items, order, titles, authors, years);
    var a := new Entry[|items|](t requires 0 <= t < |items| => items[t]);
    assert a[..] == items;
    EntryLtIsStrictTotal();
    InsertionSort(a, EntryLt);
    entries := a[..];
    assert forall e :: e in entries <==> e in items by {
      forall e ensures e in entries <==> e in items {
        assert e in entries <==> e in multiset(entries);
      }
    }
    PermutationKeepsDistinct(items, entries);
    SortedDistinctIsIncreasing(entries);
  }

  /** The unsorted list built from the titles in dictionary order already
      lists each titled item once. */
  lemma ItemsListTitles(items: seq<Entry>, order: seq<ItemId>, titles: map<ItemId, TitleInfo>, authors: map<ItemId, string>, years: map<ItemId, string>)
    requires forall k :: k in order <==> k in titles
    requires Distinct(order)
    requires |items| == |order|
    requires forall t :: 0 <= t < |order| ==> order[t] in titles && items[t] == Entry(ItemLabel(order[t], titles, authors, years), order[t])
    ensures ListsTitledItems(items, titles, authors, years)
    ensures Distinct(items)
  {
    forall e: Entry | e.id in titles ensures exists t :: 0 <= t < |order| && order[t] == e.id {
      assert e.id in order;
    }
    forall s, t | 0 <= s < t < |items| ensures items[s] != items[t] {
      assert order[s] != order[t];
    }
  }

  /** What `main` has built before it asks for an item: the sorted picker
      lines and the attachment paths per item. */
  datatype Catalog = Catalog(entries: seq<Entry>, paths: map<ItemId, seq<string>>)

  /** Lines 503-556 of `main`: fold the four query results into
      dictionaries, build one labelled entry per titled item, and sort. */
  method Reconcile(authorRows: seq<AuthorRow>, titleRows: seq<TitleRow>, dateRows: seq<DateRow>, pathRows: seq<PathRow>,
                   baseDir: string, dataDir: string)
    returns (r: Result<Catalog, BuildError>)
    ensures var p := CollectPaths(pathRows, FirstSeen(titleRows), baseDir, dataDir);
      && (p.Err? ==> r == Err(p.error))
      && (p.Ok? && authorRows == [] && titleRows != [] ==> r == Err(AuthorsUnbound))
      && (r.Ok? <==> p.Ok? && (authorRows != [] || titleRows == []))
      && (r.Ok? ==> r.value.paths == p.value)
    ensures r.Ok? ==> ListsTitledItems(r.value.entries, FirstSeen(titleRows), AuthorMap(authorRows), YearsOf(dateRows))
    ensures r.Ok? ==> forall i, j :: 0 <= i < j < |r.value.entries| ==> EntryLt(r.value.entries[i], r.value.entries[j])
  {
    var authors := GroupAuthors(authorRows);
    var titles, order := CollectTitles(titleRows);
    var years := CollectYears(dateRows);
    var paths := ResolvePaths(pathRows, titles, baseDir, dataDir);
    if paths.Err? {
      return Err(paths.error);
    }
    if authors.None? && |order| > 0 {
      return Err(AuthorsUnbound);
    }
    var am := if authors.Some? then authors.value else map[];
    assert am == AuthorMap(authorRows);
    var entries := ItemList(titles, order, am, years);
    return Ok(Catalog(entries, paths.value));
  }
}
