/** The per-cell tables of both sketches (`motionGrid`, `revealedCells`,
    `cellBrightness`) are arrays of columns indexed [gridX][gridY]; here
    they are sequences of columns. */
module Tables {

  /** `cols` columns of `rows` entries each. */
  predicate IsTable<T>(t: seq<seq<T>>, cols: nat, rows: nat) {
    |t| == cols && forall i :: 0 <= i < |t| ==> |t[i]| == rows
  }

  /** A `cols` x `rows` table holding `v` everywhere. */
  function Filled<T>(cols: nat, rows: nat, v: T): (t: seq<seq<T>>)
    ensures IsTable(t, cols, rows)
    ensures forall i, j :: 0 <= i < cols && 0 <= j < rows ==> t[i][j] == v
  {
    seq(cols, _ => seq(rows, _ => v))
  }

  /** The table with entry [i][j] set to v: `t[i][j] = v`. */
  function Update<T>(t: seq<seq<T>>, i: nat, j: nat, v: T): (r: seq<seq<T>>)
    requires i < |t| && j < |t[i]|
    ensures |r| == |t| && forall a :: 0 <= a < |t| ==> |r[a]| == |t[a]|
    ensures forall a, b :: 0 <= a < |t| && 0 <= b < |t[a]| ==> r[a][b] == if a == i && b == j then v else t[a][b]
  {
    t[i := t[i][j := v]]
  }

  /** Two tables of the same shape with the same entries are equal. */
  lemma TableExtensionality<T>(a: seq<seq<T>>, b: seq<seq<T>>, cols: nat, rows: nat)
    requires IsTable(a, cols, rows) && IsTable(b, cols, rows)
    requires forall i, j :: 0 <= i < cols && 0 <= j < rows ==> a[i][j] == b[i][j]
    ensures a == b
  {
    forall i | 0 <= i < cols
      ensures a[i] == b[i]
    {
      assert forall j :: 0 <= j < rows ==> a[i][j] == b[i][j];
    }
  }

  /** Each cell of `was` or-ed with the same cell of `motion`: the revealed
      table after a detection pass. */
  function Merge(was: seq<seq<bool>>, motion: seq<seq<bool>>, cols: nat, rows: nat): (r: seq<seq<bool>>)
    requires IsTable(was, cols, rows) && IsTable(motion, cols, rows)
    ensures IsTable(r, cols, rows)
  {
    seq(cols, i requires 0 <= i < cols => seq(rows, j requires 0 <= j < rows => was[i][j] || motion[i][j]))
  }

  /** Merging never clears a cell, sets exactly the cells where motion was
      seen, and leaves every other cell as it was. */
  lemma MergeMeaning(was: seq<seq<bool>>, motion: seq<seq<bool>>, cols: nat, rows: nat)
    requires IsTable(was, cols, rows) && IsTable(motion, cols, rows)
    ensures forall i, j :: 0 <= i < cols && 0 <= j < rows && was[i][j] ==> Merge(was, motion, cols, rows)[i][j]
    ensures forall i, j :: 0 <= i < cols && 0 <= j < rows && motion[i][j] ==> Merge(was, motion, cols, rows)[i][j]
    ensures forall i, j :: 0 <= i < cols && 0 <= j < rows && !motion[i][j] ==> Merge(was, motion, cols, rows)[i][j] == was[i][j]
    ensures NoneTrue(motion) ==> Merge(was, motion, cols, rows) == was
  {
    if NoneTrue(motion) {
      TableExtensionality(Merge(was, motion, cols, rows), was, cols, rows);
    }
  }

  predicate AllTrue(t: seq<seq<bool>>) {
    forall i, j :: 0 <= i < |t| && 0 <= j < |t[i]| ==> t[i][j]
  }

  predicate NoneTrue(t: seq<seq<bool>>) {
    forall i, j :: 0 <= i < |t| && 0 <= j < |t[i]| ==> !t[i][j]
  }

  /** Number of true entries of one column, counted front to back. */
  function ColumnCount(c: seq<bool>): nat {
    if |c| == 0 then 0 else ColumnCount(c[..|c| - 1]) + (if c[|c| - 1] then 1 else 0)
  }

  /** Number of true entries of a (possibly ragged) table, column after column. */
  function Count(t: seq<seq<bool>>): nat {
    if |t| == 0 then 0 else Count(t[..|t| - 1]) + ColumnCount(t[|t| - 1])
  }

  /** A column has at most as many true entries as entries, all of them
      exactly when every entry is true, and none exactly when no entry is. */
  lemma {:induction false} ColumnCountRange(c: seq<bool>)
    ensures ColumnCount(c) <= |c|
    ensures ColumnCount(c) == |c| <==> forall j :: 0 <= j < |c| ==> c[j]
    ensures ColumnCount(c) == 0 <==> forall j :: 0 <= j < |c| ==> !c[j]
  {
    if |c| > 0 {
      var init := c[..|c| - 1];
      ColumnCountRange(init);
      assert forall j :: 0 <= j < |init| ==> init[j] == c[j];
    }
  }

  lemma AddColumn(k: nat, rows: nat, n: nat, m: nat)
    requires n <= k * rows && m <= rows
    ensures n + m <= (k + 1) * rows
    ensures n + m == (k + 1) * rows <==> n == k * rows && m == rows
  {
  }

  /** In a table of `cols` x `rows`, the count is at most cols * rows; it
      equals cols * rows exactly when every cell is true and 0 exactly when
      none is. */
  lemma {:induction false} CountRange(t: seq<seq<bool>>, cols: nat, rows: nat)
    requires IsTable(t, cols, rows)
    ensures Count(t) <= cols * rows
    ensures Count(t) == cols * rows <==> AllTrue(t)
    ensures Count(t) == 0 <==> NoneTrue(t)
    decreases cols
  {
    if cols > 0 {
      var init := t[..cols - 1];
      var last := t[cols - 1];
      CountRange(init, cols - 1, rows);
      ColumnCountRange(last);
      AddColumn(cols - 1, rows, Count(init), ColumnCount(last));
      assert forall i :: 0 <= i < cols - 1 ==> init[i] == t[i];
      if AllTrue(init) && ColumnCount(last) == rows {
        forall i, j | 0 <= i < |t| && 0 <= j < |t[i]|
          ensures t[i][j]
        {
          if i < cols - 1 {
            assert init[i][j];
          }
        }
      }
      if NoneTrue(init) && ColumnCount(last) == 0 {
        forall i, j | 0 <= i < |t| && 0 <= j < |t[i]|
          ensures !t[i][j]
        {
          if i < cols - 1 {
            assert !init[i][j];
          }
        }
      }
    }
  }

  /** The counting loop of `getInstallationStatus` and `logDebugInfo`. */
  method CountTrue(t: seq<seq<bool>>) returns (count: nat)
    ensures count == Count(t)
  {
    count := 0;
    var i := 0;
    while i < |t|
      invariant 0 <= i <= |t|
      invariant count == Count(t[..i])
    {
      var j := 0;
      while j < |t[i]|
        invariant 0 <= j <= |t[i]|
        invariant count == Count(t[..i]) + ColumnCount(t[i][..j])
      {
        assert t[i][..j + 1][..j] == t[i][..j];
        if t[i][j] {
          count := count + 1;
        }
        j := j + 1;
      }
      assert t[i][..j] == t[i];
      assert t[..i + 1][..i] == t[..i];
      i := i + 1;
    }
    assert t[..i] == t;
  }
}
