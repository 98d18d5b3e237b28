/** Shared vocabulary of the model: optional values and results, the rows the
    four library queries return, and the handful of Python string and list
    operations the script relies on, with their Python semantics written out. */
module Common {

  datatype Option<T> = None | Some(value: T)

  datatype Result<T, E> = Ok(value: T) | Err(error: E)

  /** Python truthiness of an optional string: `None` and `""` are both false. */
  predicate Truthy(o: Option<string>): (b: bool)
    ensures b <==> o != None && o != Some("")
  {
    o.Some? && o.value != ""
  }

  /** Item identifiers are the integer row ids of the library database. */
  type ItemId = int

  /** One row of a query result: the parent item's id and the rest of the row. */
  datatype Row<T> = Row(id: ItemId, val: T)

  /** The ids that occur in a row sequence. */
  function IdSet<T>(rows: seq<Row<T>>): set<ItemId> {
    set i | 0 <= i < |rows| :: rows[i].id
  }

  /** The position of the first row carrying id `k`. */
  ghost function FirstIndex<T>(rows: seq<Row<T>>, k: ItemId): (i: nat)
    requires k in IdSet(rows)
    ensures i < |rows| && rows[i].id == k
    ensures forall j :: 0 <= j < i ==> rows[j].id != k
  {
    if rows[0].id == k then 0
    else
      assert k in IdSet(rows[1..]) by {
        var i :| 0 <= i < |rows| && rows[i].id == k;
        assert rows[1..][i - 1].id == k;
      }
      1 + FirstIndex(rows[1..], k)
  }

  /** Python's `s.startswith(p)`. */
  predicate StartsWith(s: string, p: string) {
    |p| <= |s| && s[..|p|] == p
  }

  /** `t` occurs in `s` at offset `k`. */
  ghost predicate OccursAt(s: string, t: string, k: nat) {
    k + |t| <= |s| && s[k..k + |t|] == t
  }

  /** Python's substring test `t in s`. */
  function Contains(s: string, t: string): (b: bool)
    ensures b <==> exists k: nat :: OccursAt(s, t, k)
  {
    if StartsWith(s, t) then
      assert OccursAt(s, t, 0);
      true
    else if |s| == 0 then
      assert forall k: nat :: !OccursAt(s, t, k);
      false
    else
      var b := Contains(s[1..], t);
      assert forall k: nat :: OccursAt(s[1..], t, k) <==> OccursAt(s, t, k + 1) by {
        forall k: nat ensures OccursAt(s[1..], t, k) <==> OccursAt(s, t, k + 1) {
          if k + |t| <= |s| - 1 {
            assert s[1..][k..k + |t|] == s[k + 1..k + 1 + |t|];
          }
        }
      }
      assert forall k: nat :: OccursAt(s, t, k) && k > 0 ==> OccursAt(s[1..], t, k - 1);
      b
  }

  /** Python's `s.split(c)[0]`: the text before the first `c`, or all of `s`. */
  function BeforeFirst(s: string, c: char): (r: string)
    ensures StartsWith(s, r)
    ensures c !in r
    ensures |r| < |s| ==> s[|r|] == c
  {
    if s == [] || s[0] == c then []
    else [s[0]] + BeforeFirst(s[1..], c)
  }

  /** The text after the last `c` of `s`, or all of `s`: the final component
      of a path when `c` is the separator. */
  function AfterLast(s: string, c: char): (r: string)
    ensures |r| <= |s| && r == s[|s| - |r|..]
    ensures c !in r
    ensures |r| < |s| ==> s[|s| - |r| - 1] == c
  {
    if s == [] || s[|s| - 1] == c then []
    else AfterLast(s[..|s| - 1], c) + [s[|s| - 1]]
  }

  /** How Python clamps a slice bound `i` against a length `n`: a negative
      bound counts from the end, and the result is clipped to [0, n]. */
  function SliceBound(i: int, n: nat): (b: nat)
    ensures b <= n
    ensures 0 <= i <= n ==> b == i
    ensures 0 - n <= i < 0 ==> b == n + i
    ensures i > n ==> b == n
    ensures i < 0 - n ==> b == 0
  {
    if i < 0 then (if i + n < 0 then 0 else i + n)
    else if i > n then n
    else i
  }

  /** Python's `s[:j]`. */
  function SliceTo<T>(s: seq<T>, j: int): seq<T> {
    s[..SliceBound(j, |s|)]
  }

  /** Python's `s[i:]`. */
  function SliceFrom<T>(s: seq<T>, i: int): seq<T> {
    s[SliceBound(i, |s|)..]
  }

  /** Python's list subscript `xs[i]` succeeds exactly for -|xs| <= i < |xs|. */
  predicate IndexOk(i: int, n: nat) {
    0 - n <= i < n
  }

  /** The position Python's `xs[i]` reads: negative indices count from the end. */
  function IndexAt(i: int, n: nat): (p: nat)
    requires IndexOk(i, n)
    ensures p < n
    ensures i >= 0 ==> p == i
    ensures i < 0 ==> p + (-i) == n
  {
    if i < 0 then n + i else i
  }

  /** `a / b` on paths, read as joining two strings with the separator. */
  function Join(a: string, b: string): string {
    a + "/" + b
  }
}
