/** Lines 570-597 of `main`: the item picked in the first menu selects an
    item id, its attachment paths are sorted, and a single attachment is
    opened directly while several are offered in a second menu. The pickers'
    replies are parameters: `None` for an empty reply, otherwise the integer
    rofi printed, which Python uses as a list index (negative values count
    from the end). */
module Selection {
  import opened Common
  import opened Ordering
  import opened Format
  import opened Catalog

  datatype SelectError =
    | IndexOutOfRange(index: int)   // `IndexError` from a list subscript
    | NoPaths(id: ItemId)           // `KeyError` from `paths[item_id]`

  datatype Outcome =
    | Cancelled                     // a picker returned nothing
    | Open(path: string)            // the file handed to `open_file`
    | Failed(error: SelectError)

  /** Python's `<` on strings is a strict total order. */
  lemma StrLtIsStrictTotal()
    ensures Asymmetric(StrLt)
    ensures NotLtTransitive(StrLt)
  {
    forall x, y | StrLt(x, y) ensures !StrLt(y, x) {
      StrLtAsymmetric(x, y);
    }
    forall x, y, z | !StrLt(y, x) && !StrLt(z, y) ensures !StrLt(z, x) {
      StrLtTrichotomy(x, y);
      StrLtTrichotomy(y, z);
      if x != y && y != z {
        StrLtTransitive(x, y, z);
      }
      if StrLt(z, x) {
        StrLtAsymmetric(z, x);
      }
    }
  }

  /** `files_to_open.sort()`: the same paths in ascending string order. */
  method SortPaths(ps: seq<string>) returns (files: seq<string>)
    ensures multiset(files) == multiset(ps)
    ensures Sorted(files, StrLt)
  {
    var a := new string[|ps|](i requires 0 <= i < |ps| => ps[i]);
    assert a[..] == ps;
    StrLtIsStrictTotal();
    InsertionSort(a, StrLt);
    files := a[..];
    AdjacentSortedIsSorted(files, StrLt);
  }

  /** The lines of the attachment menu: each path formatted with the
      script's `format_path` options. */
  function AttachmentMenu(files: seq<string>): (lines: seq<string>)
    ensures |lines| == |files|
    ensures forall i :: 0 <= i < |lines| ==> |lines[i]| <= PathMaxLen && '/' !in lines[i]
    ensures forall i :: 0 <= i < |lines| && |AfterLast(files[i], '/')| <= PathMaxLen ==>
      lines[i] == AfterLast(files[i], '/')
  {
    seq(|files|, i requires 0 <= i < |files| => FormatPath(files[i], PathMaxLen, PathFullPath, PathEndingRounded))
  }

  /** From the two pickers' replies to the file to open. */
  method SelectAttachment(entries: seq<Entry>, paths: map<ItemId, seq<string>>, itemPick: Option<int>, filePick: Option<int>)
    returns (r: Outcome, files: seq<string>)
    ensures itemPick.None? ==> r == Cancelled
    ensures itemPick.Some? && !IndexOk(itemPick.value, |entries|) ==> r == Failed(IndexOutOfRange(itemPick.value))
    ensures itemPick.Some? && IndexOk(itemPick.value, |entries|) ==>
      var id := entries[IndexAt(itemPick.value, |entries|)].id;
      && (id !in paths ==> r == Failed(NoPaths(id)))
      && (id in paths ==> multiset(files) == multiset(paths[id]) && Sorted(files, StrLt))
      && (id in paths && |files| == 1 ==> r == Open(files[0]))
      && (id in paths && |files| != 1 && filePick.None? ==> r == Cancelled)
      && (id in paths && |files| != 1 && filePick.Some? && !IndexOk(filePick.value, |files|) ==>
            r == Failed(IndexOutOfRange(filePick.value)))
      && (id in paths && |files| != 1 && filePick.Some? && IndexOk(filePick.value, |files|) ==>
            r == Open(files[IndexAt(filePick.value, |files|)]))
    ensures r.Open? ==>
      && itemPick.Some? && IndexOk(itemPick.value, |entries|)
      && var id := entries[IndexAt(itemPick.value, |entries|)].id;
         id in paths && r.path in paths[id]
  {
    files := [];
    if itemPick.None? {
      return Cancelled, files;
    }
    var i := itemPick.value;
    if !IndexOk(i, |entries|) {
      return Failed(IndexOutOfRange(i)), files;
    }
    var id := entries[IndexAt(i, |entries|)].id;
    if id !in paths {
      return Failed(NoPaths(id)), files;
    }
    files := SortPaths(paths[id]);
    if |files| == 1 {
      assert files[0] in multiset(paths[id]);
      return Open(files[0]), files;
    }
    var menu := AttachmentMenu(files);
    if filePick.None? {
      return Cancelled, files;
    }
    var j := filePick.value;
    if !IndexOk(j, |files|) {
      return Failed(IndexOutOfRange(j)), files;
    }
    var chosen := files[IndexAt(j, |files|)];
    assert chosen in multiset(paths[id]);
    return Open(chosen), files;
  }
}
