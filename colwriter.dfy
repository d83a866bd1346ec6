/**
 * A column writer: prints rows of strings as aligned columns, each column
 * with its own padding, colour and trimming. The writer's output is the
 * sequence of strings handed to it, one per print call; the pager pipe and
 * buffering behind it are not part of this model.
 */
module Colwriter {
  import opened Ansi
  import opened Strs

  /** The three padding functions a column can be configured with. */
  datatype PaddingFunc = LeftPad | RightPad | NoPad {
    function Apply(str: string, padding: int, pad: string): (r: string)
      ensures this != NoPad && padding <= ByteLen(str) ==> r == str
      ensures this == NoPad ==> r == str
    {
      match this
      case LeftPad => PadLeft(str, padding, pad)
      case RightPad => PadRight(str, padding, pad)
      case NoPad => PadNone(str, padding, pad)
    }
  }

  /** What a method that may panic did. */
  datatype Outcome = Done | Panic(message: string)

  /**
   * PadLeft prefixes str with copies of pad up to the width padding, the
   * width of str being Go's len: the bytes of its UTF-8 encoding.
   */
  function PadLeft(str: string, padding: int, pad: string): (r: string)
    ensures padding <= ByteLen(str) ==> r == str
    ensures |str| <= |r| && r[|r| - |str|..] == str
    ensures padding > ByteLen(str) ==> r[..|r| - |str|] == Repeat(pad, padding - ByteLen(str))
    ensures |pad| == 1 ==> forall k :: 0 <= k < |r| - |str| ==> r[k] == pad[0]
    ensures ByteLen(pad) == 1 ==> ByteLen(r) == (if padding > ByteLen(str) then padding else ByteLen(str))
  {
    var missing := padding - ByteLen(str);
    if missing < 0 then str
    else
      ByteLenAppend(Repeat(pad, missing), str);
      ByteLenRepeat(pad, missing);
      Repeat(pad, missing) + str
  }

  /** PadRight suffixes str with copies of pad up to the width padding, in bytes. */
  function PadRight(str: string, padding: int, pad: string): (r: string)
    ensures padding <= ByteLen(str) ==> r == str
    ensures |str| <= |r| && r[..|str|] == str
    ensures padding > ByteLen(str) ==> r[|str|..] == Repeat(pad, padding - ByteLen(str))
    ensures |pad| == 1 ==> forall k :: |str| <= k < |r| ==> r[k] == pad[0]
    ensures ByteLen(pad) == 1 ==> ByteLen(r) == (if padding > ByteLen(str) then padding else ByteLen(str))
  {
    var missing := padding - ByteLen(str);
    if missing < 0 then str
    else
      ByteLenAppend(str, Repeat(pad, missing));
      ByteLenRepeat(pad, missing);
      str + Repeat(pad, missing)
  }

  /**
   * With a pad of any length, padding - len(str) copies of it are added:
   * that many times its characters and its bytes.
   */
  lemma PadLength(str: string, padding: int, pad: string)
    requires padding > ByteLen(str)
    ensures |PadLeft(str, padding, pad)| == |str| + (padding - ByteLen(str)) * |pad|
    ensures |PadRight(str, padding, pad)| == |str| + (padding - ByteLen(str)) * |pad|
    ensures ByteLen(PadLeft(str, padding, pad)) == ByteLen(str) + (padding - ByteLen(str)) * ByteLen(pad)
    ensures ByteLen(PadRight(str, padding, pad)) == ByteLen(str) + (padding - ByteLen(str)) * ByteLen(pad)
  {
    var missing := padding - ByteLen(str);
    var fill := Repeat(pad, missing);
    assert PadLeft(str, padding, pad) == fill + str;
    assert PadRight(str, padding, pad) == str + fill;
    ByteLenRepeat(pad, missing);
    ByteLenAppend(fill, str);
    ByteLenAppend(str, fill);
  }

  /** PadNone adds no padding. */
  function PadNone(str: string, padding: int, pad: string): (r: string)
    ensures r == str
  {
    str
  }

  /** The separator after cell i of a row when the first row's last column is max. */
  function Sep(i: nat, max: int): string {
    if i < max then " " else "\n"
  }

  /** The per-column configuration a row is rendered with. */
  datatype Layout = Layout(size: seq<int>, colors: seq<COLOR>, padding: seq<PaddingFunc>, trim: seq<bool>) {
    predicate Fits(row: seq<string>) {
      |row| <= |size| && |row| <= |colors| && |row| <= |padding| && |row| <= |trim|
    }
  }

  predicate AllFit(lay: Layout, rows: seq<seq<string>>) {
    forall k :: 0 <= k < |rows| ==> lay.Fits(rows[k])
  }

  /** A header cell: padded, underlined, in the bright column colour. */
  function HeaderCell(lay: Layout, str: string, i: nat, max: int): (r: string)
    requires i < |lay.size| && i < |lay.colors| && i < |lay.padding|
    ensures |r| >= 1 && r[|r| - 1] == (if i < max then ' ' else '\n')
  {
    Color(Underline(lay.padding[i].Apply(str, lay.size[i], " ")), lay.colors[i], true) + Sep(i, max)
  }

  /** The text a data cell pads: trimmed when the column says so. */
  function CellText(lay: Layout, str: string, i: nat): (text: string)
    requires i < |lay.trim|
    ensures ByteLen(text) <= ByteLen(str)
    ensures ESC in text ==> ESC in str
  {
    if lay.trim[i] then
      TrimSpaceBytes(str);
      if ESC in TrimSpace(str) then TrimSpaceKeeps(str, ESC); TrimSpace(str) else TrimSpace(str)
    else str
  }

  /** A data cell: trimmed if the column says so, padded, coloured. */
  function DataCell(lay: Layout, str: string, i: nat, max: int, bright: bool): (r: string)
    requires i < |lay.size| && i < |lay.colors| && i < |lay.padding| && i < |lay.trim|
    ensures |r| >= 1 && r[|r| - 1] == (if i < max then ' ' else '\n')
  {
    Color(lay.padding[i].Apply(CellText(lay, str, i), lay.size[i], " "), lay.colors[i], bright) + Sep(i, max)
  }

  /** Removing the escape codes of a data cell leaves its padded text and its separator. */
  lemma DataCellVisible(lay: Layout, str: string, i: nat, max: int, bright: bool)
    requires i < |lay.size| && i < |lay.colors| && i < |lay.padding| && i < |lay.trim|
    requires lay.colors[i] >= DEFAULT
    ensures RemoveANSI(DataCell(lay, str, i, max, bright))
         == RemoveANSI(lay.padding[i].Apply(CellText(lay, str, i), lay.size[i], " ")) + Sep(i, max)
  {
    var padded := lay.padding[i].Apply(CellText(lay, str, i), lay.size[i], " ");
    var colored := Color(padded, lay.colors[i], bright);
    assert DataCell(lay, str, i, max, bright) == colored + Sep(i, max);
    SepPlain(i, max);
    RemoveANSIAppend(colored, Sep(i, max));
    RemoveANSIColor(padded, lay.colors[i], bright);
  }

  /** The separator is a boundary for escape sequences and carries none itself. */
  lemma SepPlain(i: nat, max: int)
    ensures Boundary(Sep(i, max)) && RemoveANSI(Sep(i, max)) == Sep(i, max)
  {
    RemoveANSIPlain(Sep(i, max));
  }

  /** Removing the escape codes of a header cell leaves its padded text and its separator. */
  lemma HeaderCellVisible(lay: Layout, str: string, i: nat, max: int)
    requires i < |lay.size| && i < |lay.colors| && i < |lay.padding|
    requires lay.colors[i] >= DEFAULT
    ensures RemoveANSI(HeaderCell(lay, str, i, max))
         == RemoveANSI(lay.padding[i].Apply(str, lay.size[i], " ")) + Sep(i, max)
  {
    var padded := lay.padding[i].Apply(str, lay.size[i], " ");
    var colored := Color(Underline(padded), lay.colors[i], true);
    assert HeaderCell(lay, str, i, max) == colored + Sep(i, max);
    SepPlain(i, max);
    RemoveANSIAppend(colored, Sep(i, max));
    RemoveANSIColor(Underline(padded), lay.colors[i], true);
    RemoveANSIUnderline(padded);
  }

  /**
   * A left- or right-padded text with no escape codes that fits its column
   * is shown exactly size bytes wide.
   */
  lemma CellWidth(pf: PaddingFunc, text: string, size: int)
    requires pf != NoPad && ESC !in text && ByteLen(text) <= size
    ensures RemoveANSI(pf.Apply(text, size, " ")) == pf.Apply(text, size, " ")
    ensures ByteLen(pf.Apply(text, size, " ")) == size
  {
    var padded := pf.Apply(text, size, " ");
    assert ByteLen(" ") == 1;
    var fill := Repeat(" ", if size > ByteLen(text) then size - ByteLen(text) else 0);
    assert ESC !in fill;
    assert padded == text || padded == fill + text || padded == text + fill;
    assert ESC !in padded;
    RemoveANSIPlain(padded);
  }

  function HeaderPieces(lay: Layout, row: seq<string>, max: int): seq<string>
    requires lay.Fits(row)
  {
    seq(|row|, i requires 0 <= i < |row| => HeaderCell(lay, row[i], i, max))
  }

  function RowPieces(lay: Layout, row: seq<string>, max: int, bright: bool): seq<string>
    requires lay.Fits(row)
  {
    seq(|row|, i requires 0 <= i < |row| => DataCell(lay, row[i], i, max, bright))
  }

  /** The cells of each data row; row k is bright when k is even. */
  function DataGrid(lay: Layout, rows: seq<seq<string>>, max: int): (grid: seq<seq<string>>)
    requires AllFit(lay, rows)
    ensures |grid| == |rows|
  {
    seq(|rows|, k requires 0 <= k < |rows| => RowPieces(lay, rows[k], max, k % 2 == 0))
  }

  /** Everything Write prints for rows, in print order: one string per cell. */
  function Render(lay: Layout, rows: seq<seq<string>>, headers: bool): (r: seq<string>)
    requires AllFit(lay, rows)
    ensures |r| == Cells(rows)
  {
    if rows == [] then []
    else
      var max := |rows[0]| - 1;
      var data := if headers then rows[1..] else rows;
      assert AllFit(lay, data);
      FlattenLength(DataGrid(lay, data, max));
      CellsShape(DataGrid(lay, data, max), data);
      if headers then
        CellsFirst(rows);
        HeaderPieces(lay, rows[0], max) + Flatten(DataGrid(lay, rows[1..], max))
      else Flatten(DataGrid(lay, rows, max))
  }

  /** The rows of a grid one after the other. */
  function Flatten<T>(grid: seq<seq<T>>): seq<T> {
    if grid == [] then [] else Flatten(grid[..|grid| - 1]) + grid[|grid| - 1]
  }

  /** The number of cells in a grid. */
  function Cells<T>(grid: seq<seq<T>>): nat {
    if grid == [] then 0 else Cells(grid[..|grid| - 1]) + |grid[|grid| - 1]|
  }

  /** The width ComputeSize leaves for column i: the running maximum from init. */
  function Widest(init: int, rows: seq<seq<string>>, i: nat): int {
    if rows == [] then init
    else
      var w := Widest(init, rows[..|rows| - 1], i);
      var last := rows[|rows| - 1];
      if i < |last| && ByteLen(last[i]) > w then ByteLen(last[i]) else w
  }

  function Widths(sizes: seq<int>, rows: seq<seq<string>>): seq<int> {
    seq(|sizes|, i requires 0 <= i < |sizes| => Widest(sizes[i], rows, i))
  }

  /** Widest is the maximum of init and the byte lengths of column i. */
  lemma {:induction false} WidestIsMax(init: int, rows: seq<seq<string>>, i: nat)
    ensures Widest(init, rows, i) >= init
    ensures forall k :: 0 <= k < |rows| && i < |rows[k]| ==> Widest(init, rows, i) >= ByteLen(rows[k][i])
    ensures Widest(init, rows, i) == init
         || exists k :: 0 <= k < |rows| && i < |rows[k]| && Widest(init, rows, i) == ByteLen(rows[k][i])
  {
    if rows != [] {
      var front := rows[..|rows| - 1];
      WidestIsMax(init, front, i);
      assert forall k :: 0 <= k < |front| ==> front[k] == rows[k];
    }
  }

  lemma FlattenSnoc<T>(grid: seq<seq<T>>, k: nat)
    requires k < |grid|
    ensures Flatten(grid[..k + 1]) == Flatten(grid[..k]) + grid[k]
  {
    assert grid[..k + 1][..k] == grid[..k];
  }

  lemma {:induction false} FlattenLength<T>(grid: seq<seq<T>>)
    ensures |Flatten(grid)| == Cells(grid)
  {
    if grid != [] {
      FlattenLength(grid[..|grid| - 1]);
    }
  }

  /** Cell i of row k sits after the cells of rows 0 .. k-1. */
  lemma {:induction false} FlattenAt<T>(grid: seq<seq<T>>, k: nat, i: nat)
    requires k < |grid| && i < |grid[k]|
    ensures Cells(grid[..k]) + i < |Flatten(grid)|
    ensures Flatten(grid)[Cells(grid[..k]) + i] == grid[k][i]
  {
    var n := |grid| - 1;
    var front := grid[..n];
    FlattenLength(front);
    if k < n {
      assert front[..k] == grid[..k];
      FlattenAt(front, k, i);
    } else {
      assert grid[..k] == front;
    }
  }

  /** Grids of the same shape have the same number of cells. */
  lemma {:induction false} CellsShape<A, B>(a: seq<seq<A>>, b: seq<seq<B>>)
    requires |a| == |b| && forall k :: 0 <= k < |a| ==> |a[k]| == |b[k]|
    ensures Cells(a) == Cells(b)
  {
    if a != [] {
      CellsShape(a[..|a| - 1], b[..|b| - 1]);
    }
  }

  lemma {:induction false} CellsFirst<T>(grid: seq<seq<T>>)
    requires grid != []
    ensures Cells(grid) == |grid[0]| + Cells(grid[1..])
  {
    if |grid| > 1 {
      var n := |grid| - 1;
      CellsFirst(grid[..n]);
      assert grid[..n][1..] == grid[1..][..n - 1];
    } else {
      assert grid[..0] == [] && grid[1..] == [];
    }
  }

  /** The data grid has one piece per cell, and cell i of row k is its DataCell. */
  lemma GridShape(lay: Layout, data: seq<seq<string>>, max: int, k: nat)
    requires AllFit(lay, data) && k < |data|
    ensures Cells(DataGrid(lay, data, max)[..k]) == Cells(data[..k])
    ensures DataGrid(lay, data, max)[k] == RowPieces(lay, data[k], max, k % 2 == 0)
  {
    var grid := DataGrid(lay, data, max);
    forall j | 0 <= j < k
      ensures |grid[..k][j]| == |data[..k][j]|
    {
      assert grid[j] == RowPieces(lay, data[j], max, j % 2 == 0);
    }
    CellsShape(grid[..k], data[..k]);
  }

  /** Cell i of data row k sits after the cells of the rows before it. */
  lemma DataGridAt(lay: Layout, data: seq<seq<string>>, max: int, k: nat, i: nat)
    requires AllFit(lay, data) && k < |data| && i < |data[k]|
    ensures Cells(data[..k]) + i < |Flatten(DataGrid(lay, data, max))|
    ensures Flatten(DataGrid(lay, data, max))[Cells(data[..k]) + i]
         == DataCell(lay, data[k][i], i, max, k % 2 == 0)
  {
    GridShape(lay, data, max, k);
    FlattenAt(DataGrid(lay, data, max), k, i);
  }

  /**
   * Without headers every row is a data row: cell i of row k follows all
   * earlier cells, is bright exactly when k is even, and (by DataCell) ends
   * with " " before the first row's last column and with a newline from it
   * on.
   */
  lemma RenderCellAt(lay: Layout, rows: seq<seq<string>>, k: nat, i: nat)
    requires AllFit(lay, rows) && k < |rows| && i < |rows[k]|
    ensures Cells(rows[..k]) + i < |Render(lay, rows, false)|
    ensures Render(lay, rows, false)[Cells(rows[..k]) + i]
         == DataCell(lay, rows[k][i], i, |rows[0]| - 1, k % 2 == 0)
  {
    DataGridAt(lay, rows, |rows[0]| - 1, k, i);
  }

  /** With headers set, the first row is printed first, underlined, bright and padded. */
  lemma RenderHeaderAt(lay: Layout, rows: seq<seq<string>>, i: nat)
    requires AllFit(lay, rows) && rows != [] && i < |rows[0]|
    ensures i < |Render(lay, rows, true)|
    ensures Render(lay, rows, true)[i]
         == Color(Underline(lay.padding[i].Apply(rows[0][i], lay.size[i], " ")), lay.colors[i], true)
            + Sep(i, |rows[0]| - 1)
  {
  }

  /**
   * Once its escape codes are removed, cell shows width bytes of text and
   * then the separator sep.
   */
  predicate Shows(cell: string, width: int, sep: char) {
    var shown := RemoveANSI(cell);
    ByteLen(shown) == width + 1 && shown != [] && shown[|shown| - 1] == sep
  }

  /**
   * A data cell of a padded column whose text fits the column shows, once
   * its escape codes are removed, exactly the column's width in bytes and
   * then its separator.
   */
  lemma CellShown(lay: Layout, str: string, i: nat, max: int, bright: bool)
    requires i < |lay.size| && i < |lay.colors| && i < |lay.padding| && i < |lay.trim|
    requires lay.colors[i] >= DEFAULT && lay.padding[i] != NoPad
    requires ESC !in str && ByteLen(str) <= lay.size[i]
    ensures Shows(DataCell(lay, str, i, max, bright), lay.size[i], if i < max then ' ' else '\n')
  {
    var text := CellText(lay, str, i);
    var padded := lay.padding[i].Apply(text, lay.size[i], " ");
    var shown := RemoveANSI(DataCell(lay, str, i, max, bright));
    assert shown == padded + Sep(i, max) by {
      DataCellVisible(lay, str, i, max, bright);
      CellWidth(lay.padding[i], text, lay.size[i]);
    }
    assert ByteLen(padded) == lay.size[i] by {
      CellWidth(lay.padding[i], text, lay.size[i]);
    }
    var sep := Sep(i, max);
    assert sep == [if i < max then ' ' else '\n'];
    assert ByteLen(sep) == 1;
    ByteLenAppend(padded, sep);
    assert shown[|shown| - 1] == sep[0];
  }

  /**
   * The columns line up: with the widths ComputeSize leaves, every cell of
   * a padded column printed without a header shows, once its escape codes
   * are removed, exactly the column's width in bytes and then its
   * separator, provided its text carries no escape codes of its own.
   */
  lemma RenderAligned(lay: Layout, init: int, rows: seq<seq<string>>, k: nat, i: nat)
    requires AllFit(lay, rows) && k < |rows| && i < |rows[k]|
    requires lay.size[i] == Widest(init, rows, i)
    requires lay.colors[i] >= DEFAULT && lay.padding[i] != NoPad
    requires ESC !in rows[k][i]
    ensures Cells(rows[..k]) + i < |Render(lay, rows, false)|
    ensures Shows(Render(lay, rows, false)[Cells(rows[..k]) + i], lay.size[i],
                  if i < |rows[0]| - 1 then ' ' else '\n')
  {
    RenderCellAt(lay, rows, k, i);
    WidestIsMax(init, rows, i);
    CellShown(lay, rows[k][i], i, |rows[0]| - 1, k % 2 == 0);
  }

  /**
   * With headers set, cell i of data row k (k >= 1) is printed after the
   * header cells and the cells of the data rows before it; it is bright
   * exactly when k - 1 is even, as Write counts lineNum from the first row
   * after the header.
   */
  lemma RenderHeadedCellAt(lay: Layout, rows: seq<seq<string>>, k: nat, i: nat)
    requires AllFit(lay, rows) && 1 <= k < |rows| && i < |rows[k]|
    ensures |rows[0]| + Cells(rows[1..][..k - 1]) + i < |Render(lay, rows, true)|
    ensures Render(lay, rows, true)[|rows[0]| + Cells(rows[1..][..k - 1]) + i]
         == DataCell(lay, rows[k][i], i, |rows[0]| - 1, (k - 1) % 2 == 0)
  {
    var max := |rows[0]| - 1;
    var data := rows[1..];
    assert AllFit(lay, data);
    assert data[k - 1] == rows[k];
    DataGridAt(lay, data, max, k - 1, i);
    var head := HeaderPieces(lay, rows[0], max);
    assert Render(lay, rows, true) == head + Flatten(DataGrid(lay, data, max));
  }

  /** Under a header row the data cells line up in the same way. */
  lemma RenderHeadedAligned(lay: Layout, init: int, rows: seq<seq<string>>, k: nat, i: nat)
    requires AllFit(lay, rows) && 1 <= k < |rows| && i < |rows[k]|
    requires lay.size[i] == Widest(init, rows, i)
    requires lay.colors[i] >= DEFAULT && lay.padding[i] != NoPad
    requires ESC !in rows[k][i]
    ensures |rows[0]| + Cells(rows[1..][..k - 1]) + i < |Render(lay, rows, true)|
    ensures Shows(Render(lay, rows, true)[|rows[0]| + Cells(rows[1..][..k - 1]) + i], lay.size[i],
                  if i < |rows[0]| - 1 then ' ' else '\n')
  {
    RenderHeadedCellAt(lay, rows, k, i);
    WidestIsMax(init, rows, i);
    CellShown(lay, rows[k][i], i, |rows[0]| - 1, (k - 1) % 2 == 0);
  }

  /** The header row lines up with the data below it in the same way. */
  lemma HeaderAligned(lay: Layout, init: int, rows: seq<seq<string>>, i: nat)
    requires AllFit(lay, rows) && rows != [] && i < |rows[0]|
    requires lay.size[i] == Widest(init, rows, i)
    requires lay.colors[i] >= DEFAULT && lay.padding[i] != NoPad
    requires ESC !in rows[0][i]
    ensures i < |Render(lay, rows, true)|
    ensures Shows(Render(lay, rows, true)[i], lay.size[i], if i < |rows[0]| - 1 then ' ' else '\n')
  {
    var max := |rows[0]| - 1;
    var padded := lay.padding[i].Apply(rows[0][i], lay.size[i], " ");
    RenderHeaderAt(lay, rows, i);
    assert Render(lay, rows, true)[i] == HeaderCell(lay, rows[0][i], i, max);
    WidestIsMax(init, rows, i);
    HeaderCellVisible(lay, rows[0][i], i, max);
    CellWidth(lay.padding[i], rows[0][i], lay.size[i]);
    ByteLenAppend(padded, Sep(i, max));
  }

  /** ColWriter: the column configuration, the open flag and the output so far. */
  class ColWriter {
    var Size: array<int>
    var Colors: seq<COLOR>
    var Padding: seq<PaddingFunc>
    var Headers: bool
    var UseLess: bool
    var Trim: seq<bool>
    var written: seq<string>
    var isOpen: bool

    ghost predicate Valid()
      reads this`Size, this`Colors, this`Padding, this`Trim
    {
      |Colors| == Size.Length && |Padding| == Size.Length && |Trim| == Size.Length
    }

    function Columns(): Layout
      reads this`Size, this`Colors, this`Padding, this`Trim, Size
    {
      Layout(Size[..], Colors, Padding, Trim)
    }

    /** New: numColumns columns of width 0, uncoloured, right-padded but the last. */
    constructor New(numColumns: nat)
      requires numColumns >= 1
      ensures Valid() && fresh(Size)
      ensures Size[..] == seq(numColumns, _ => 0)
      ensures Colors == seq(numColumns, _ => DEFAULT)
      ensures Padding == seq(numColumns, i => if i < numColumns - 1 then RightPad else NoPad)
      ensures Trim == seq(numColumns, _ => false)
      ensures !Headers && !UseLess && !isOpen && written == []
    {
      var size := new int[numColumns];
      var colors: seq<COLOR> := [];
      var padding: seq<PaddingFunc> := [];
      var i := 0;
      while i < numColumns
        invariant 0 <= i <= numColumns
        invariant forall j :: 0 <= j < i ==> size[j] == 0
        invariant colors == seq(i, _ => DEFAULT)
        invariant padding == seq(i, _ => RightPad)
      {
        size[i] := 0;
        colors := colors + [DEFAULT];
        padding := padding + [RightPad];
        i := i + 1;
      }
      padding := padding[numColumns - 1 := NoPad];
      Size := size;
      Colors := colors;
      Padding := padding;
      Headers := false;
      UseLess := false;
      Trim := seq(numColumns, _ => false);
      written := [];
      isOpen := false;
    }

    /** ComputeSize widens every column to the longest of its cells in rows. */
    method ComputeSize(rows: seq<seq<string>>)
      requires forall k :: 0 <= k < |rows| ==> |rows[k]| <= Size.Length
      modifies Size
      ensures Size[..] == Widths(old(Size[..]), rows)
    {
      ghost var init := Size[..];
      var r := 0;
      while r < |rows|
        invariant 0 <= r <= |rows|
        invariant forall c :: 0 <= c < Size.Length ==> Size[c] == Widest(init[c], rows[..r], c)
      {
        var row := rows[r];
        var i := 0;
        assert rows[..r + 1][..r] == rows[..r];
        while i < |row|
          invariant 0 <= i <= |row|
          invariant forall c :: 0 <= c < i ==> Size[c] == Widest(init[c], rows[..r + 1], c)
          invariant forall c :: i <= c < Size.Length ==> Size[c] == Widest(init[c], rows[..r], c)
        {
          var width := ByteLen(row[i]);
          if !(Size[i] > width) {
            Size[i] := width;
          }
          i := i + 1;
        }
        r := r + 1;
      }
      assert rows[..|rows|] == rows;
    }

    /** Open marks the writer open; the pager it may start is not modelled. */
    method Open()
      modifies this`isOpen
      ensures isOpen
    {
      isOpen := true;
    }

    /** Close panics on an unopened writer and clears the flag otherwise. */
    method Close() returns (r: Outcome)
      modifies this`isOpen
      ensures r == if old(isOpen) then Done else Panic("Close() on unopened ColWriter\n")
      ensures !isOpen
    {
      if !isOpen {
        return Panic("Close() on unopened ColWriter\n");
      }
      isOpen := false;
      return Done;
    }

    /** WriteString passes str through on an isOpen writer and panics otherwise. */
    method WriteString(str: string) returns (r: Outcome)
      modifies this`written
      ensures r == if isOpen then Done else Panic("WriteString() on unopened ColWriter\n")
      ensures written == if isOpen then old(written) + [str] else old(written)
    {
      if !isOpen {
        return Panic("WriteString() on unopened ColWriter\n");
      }
      written := written + [str];
      return Done;
    }

    /** One header cell as Write prints it. */
    method FormatHeader(ghost lay: Layout, str: string, i: nat, max: int) returns (out: string)
      requires Valid() && lay == Columns() && i < Size.Length
      ensures out == HeaderCell(lay, str, i, max)
    {
      out := Padding[i].Apply(str, Size[i], " ");
      out := Underline(out);
      out := Color(out, Colors[i], true);
      if i < max {
        out := out + " ";
      } else {
        out := out + "\n";
      }
    }

    /** One data cell as Write prints it. */
    method FormatData(ghost lay: Layout, str: string, i: nat, max: int, bright: bool) returns (out: string)
      requires Valid() && lay == Columns() && i < Size.Length
      ensures out == DataCell(lay, str, i, max, bright)
    {
      var text := str;
      if Trim[i] {
        text := TrimSpace(text);
      }
      assert text == CellText(lay, str, i);
      out := Padding[i].Apply(text, Size[i], " ");
      out := Color(out, Colors[i], bright);
      if i < max {
        out := out + " ";
      } else {
        out := out + "\n";
      }
    }

    /** Prints the header row: each cell padded, underlined and bright. */
    method WriteHeader(head: seq<string>, max: int)
      requires Valid() && Columns().Fits(head)
      modifies this`written
      ensures written == old(written) + HeaderPieces(Columns(), head, max)
    {
      ghost var lay := Columns();
      ghost var pieces := HeaderPieces(lay, head, max);
      var i := 0;
      while i < |head|
        invariant 0 <= i <= |head|
        invariant written == old(written) + pieces[..i]
      {
        var out := FormatHeader(lay, head[i], i, max);
        TakeSnoc(pieces, i);
        AppendAssoc(old(written), pieces[..i], [out]);
        written := written + [out];
        i := i + 1;
      }
      assert pieces[..|head|] == pieces;
    }

    /** Prints one data row: each cell trimmed if asked, padded and coloured. */
    method WriteRow(row: seq<string>, max: int, bright: bool)
      requires Valid() && Columns().Fits(row)
      modifies this`written
      ensures written == old(written) + RowPieces(Columns(), row, max, bright)
    {
      ghost var lay := Columns();
      ghost var pieces := RowPieces(lay, row, max, bright);
      var i := 0;
      while i < |row|
        invariant 0 <= i <= |row|
        invariant written == old(written) + pieces[..i]
      {
        var out := FormatData(lay, row[i], i, max, bright);
        TakeSnoc(pieces, i);
        AppendAssoc(old(written), pieces[..i], [out]);
        written := written + [out];
        i := i + 1;
      }
      assert pieces[..|row|] == pieces;
    }

    /** Prints data rows, alternating bright and normal colours. */
    method WriteData(data: seq<seq<string>>, max: int)
      requires Valid() && AllFit(Columns(), data)
      modifies this`written
      ensures written == old(written) + Flatten(DataGrid(Columns(), data, max))
    {
      ghost var lay := Columns();
      ghost var grid := DataGrid(lay, data, max);
      var lineNum := 0;
      while lineNum < |data|
        invariant 0 <= lineNum <= |data|
        invariant lay == Columns()
        invariant written == old(written) + Flatten(grid[..lineNum])
      {
        WriteRow(data[lineNum], max, lineNum % 2 == 0);
        assert lay == Columns();
        FlattenSnoc(grid, lineNum);
        AppendAssoc(old(written), Flatten(grid[..lineNum]), grid[lineNum]);
        lineNum := lineNum + 1;
      }
      assert grid[..|data|] == grid;
    }

    /** Prints rows with the current column widths. */
    method PrintRows(rows: seq<seq<string>>)
      requires Valid() && AllFit(Columns(), rows)
      modifies this`written
      ensures written == old(written) + Render(Columns(), rows, Headers)
    {
      if |rows| == 0 {
        return;
      }
      ghost var lay := Columns();
      var max := |rows[0]| - 1;
      if Headers {
        WriteHeader(rows[0], max);
        assert lay == Columns();
        WriteData(rows[1..], max);
        assert lay == Columns();
        AppendAssoc(old(written), HeaderPieces(lay, rows[0], max), Flatten(DataGrid(lay, rows[1..], max)));
      } else {
        WriteData(rows, max);
        assert lay == Columns();
      }
    }

    /**
     * Write widens the columns to fit rows and prints them, one string per
     * cell; on an unopened writer it panics before changing anything.
     */
    method Write(rows: seq<seq<string>>) returns (r: Outcome)
      requires Valid()
      requires forall k :: 0 <= k < |rows| ==> |rows[k]| <= Size.Length
      modifies this`written, Size
      ensures r == if isOpen then Done else Panic("Write() on unopened ColWriter\n")
      ensures !isOpen ==> written == old(written) && Size[..] == old(Size[..])
      ensures isOpen ==> Size[..] == Widths(old(Size[..]), rows)
      ensures isOpen ==> AllFit(Columns(), rows)
                         && written == old(written) + Render(Columns(), rows, Headers)
    {
      if !isOpen {
        return Panic("Write() on unopened ColWriter\n");
      }
      ComputeSize(rows);
      PrintRows(rows);
      return Done;
    }
  }
}
