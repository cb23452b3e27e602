/** The SmartFlowLayout engine: a metadata table, a row counter, a reusable
    row buffer and the two global gaps, updated in place by its methods. */
module FlowLayout {
  import opened FlowTypes
  import opened FlowSpec

  /** Registering the widgets of `os` and then `x`, all with metadata `v`, is registering `x` last. */
  lemma RegisterOneMore(m: Meta, os: seq<Widget>, x: Widget, v: FlowMeta)
    ensures m + (map w | w in os + [x] :: v) == (m + map w | w in os :: v)[x := v]
  {
    var lhs := m + (map w | w in os + [x] :: v);
    var rhs := (m + map w | w in os :: v)[x := v];
    assert forall w :: w in lhs <==> w in rhs;
    assert forall w :: w in lhs ==> lhs[w] == rhs[w];
  }

  /** A new row numbered `r` above every existing row keeps all rows below `r + 1`. */
  lemma ColumnRowsBelow(m: Meta, os: seq<Widget>, r: nat)
    requires RowsBelow(m, r)
    ensures RowsBelow(m + map w | w in os :: FreshMeta(r), r + 1)
  {
  }

  class SmartFlowLayout {
    /** The metadata table, keyed by widget identity. */
    var meta: Meta
    /** The row buffer, rebuilt by every layout and minimum-size pass. */
    var rows: seq<seq<Widget>>
    /** The row counter: the row the next registration takes. */
    var row: nat
    var gapX: real
    var gapY: real

    /** Every stored row index is below the counter, so `rows[meta[w].row]` is in range. */
    ghost predicate Valid()
      reads this
    {
      RowsBelow(meta, row)
    }

    /** An empty engine with the default gaps of 7 units. */
    constructor ()
      ensures Valid()
      ensures meta == map[] && rows == [] && row == 0
      ensures gapX == 7.0 && gapY == 7.0
    {
      meta := map[];
      rows := [];
      row := 0;
      gapX := 7.0;
      gapY := 7.0;
    }

    /** Sets the two global gaps. */
    method SetGlobalGap(x: real, y: real)
      requires Valid()
      modifies this
      ensures Valid()
      ensures gapX == x && gapY == y
      ensures meta == old(meta) && rows == old(rows) && row == old(row)
    {
      gapX := x;
      gapY := y;
    }

    /** Looks up the entry of `obj`, registering it on a fresh row of its own if it has none. */
    method EnsureMeta(obj: Widget) returns (m: FlowMeta)
      requires Valid()
      modifies this
      ensures Valid()
      ensures m == Entry(old(meta), old(row), obj)
      ensures meta == old(meta)[obj := m]
      ensures row == if obj in old(meta) then old(row) else old(row) + 1
      ensures rows == old(rows) && gapX == old(gapX) && gapY == old(gapY)
    {
      if obj !in meta {
        meta := meta[obj := FreshMeta(row)];
        row := row + 1;
      }
      m := meta[obj];
    }

    /** Sets the gap override of `obj`, registering it first if needed. */
    method SetGap(obj: Widget, gap: Position)
      requires Valid()
      modifies this
      ensures Valid()
      ensures meta == old(meta)[obj := Entry(old(meta), old(row), obj).(gap := Some(gap))]
      ensures row == if obj in old(meta) then old(row) else old(row) + 1
      ensures rows == old(rows) && gapX == old(gapX) && gapY == old(gapY)
    {
      var m := EnsureMeta(obj);
      meta := meta[obj := m.(gap := Some(gap))];
    }

    /** Sets the fixed size of `obj`, registering it first if needed. */
    method SetResize(obj: Widget, size: Size)
      requires Valid()
      modifies this
      ensures Valid()
      ensures meta == old(meta)[obj := Entry(old(meta), old(row), obj).(size := Some(size))]
      ensures row == if obj in old(meta) then old(row) else old(row) + 1
      ensures rows == old(rows) && gapX == old(gapX) && gapY == old(gapY)
    {
      var m := EnsureMeta(obj);
      meta := meta[obj := m.(size := Some(size))];
    }

    /** Sets the fixed position of `obj`, registering it first if needed. */
    method SetMove(obj: Widget, pos: Position)
      requires Valid()
      modifies this
      ensures Valid()
      ensures meta == old(meta)[obj := Entry(old(meta), old(row), obj).(move := Some(pos))]
      ensures row == if obj in old(meta) then old(row) else old(row) + 1
      ensures rows == old(rows) && gapX == old(gapX) && gapY == old(gapY)
    {
      var m := EnsureMeta(obj);
      meta := meta[obj := m.(move := Some(pos))];
    }

    /** Puts `obj` alone on a new row, replacing any metadata it had. */
    method AddRow(obj: Widget)
      requires Valid()
      modifies this
      ensures Valid()
      ensures meta == old(meta)[obj := FreshMeta(old(row))]
      ensures row == old(row) + 1
      ensures rows == old(rows) && gapX == old(gapX) && gapY == old(gapY)
    {
      meta := meta[obj := FreshMeta(row)];
      row := row + 1;
    }

    /** Puts all of `objs` on one new row, replacing any metadata they had. */
    method AddColumn(objs: seq<Widget>)
      requires Valid()
      modifies this
      ensures Valid()
      ensures meta == old(meta) + map w | w in objs :: FreshMeta(old(row))
      ensures row == old(row) + 1
      ensures rows == old(rows) && gapX == old(gapX) && gapY == old(gapY)
    {
      for i := 0 to |objs|
        invariant meta == old(meta) + map w | w in objs[..i] :: FreshMeta(row)
        invariant row == old(row) && rows == old(rows) && gapX == old(gapX) && gapY == old(gapY)
      {
        assert objs[..i + 1] == objs[..i] + [objs[i]];
        RegisterOneMore(old(meta), objs[..i], objs[i], FreshMeta(row));
        meta := meta[objs[i] := FreshMeta(row)];
      }
      assert objs[..|objs|] == objs;
      ColumnRowsBelow(old(meta), objs, row);
      row := row + 1;
    }

    /** Empties the first `row` buckets of the buffer, growing it if it is too short. */
    method PrepareRows()
      modifies this
      ensures |rows| >= row
      ensures forall i :: 0 <= i < row ==> rows[i] == []
      ensures |old(rows)| < row ==> |rows| == row
      ensures row <= |old(rows)| ==> |rows| == |old(rows)| && rows[row..] == old(rows)[row..]
      ensures meta == old(meta) && row == old(row) && gapX == old(gapX) && gapY == old(gapY)
    {
      if |rows| < row {
        rows := seq(row, _ => []);
      }
      for i := 0 to row
        invariant meta == old(meta) && row == old(row) && gapX == old(gapX) && gapY == old(gapY)
        invariant |rows| == if |old(rows)| < row then row else |old(rows)|
        invariant forall k :: 0 <= k < i ==> rows[k] == []
        invariant row <= |old(rows)| ==> rows[row..] == old(rows)[row..]
      {
        rows := rows[i := []];
      }
    }

    /** Prepares the buffer and appends each registered widget of `objects` to its row's bucket. */
    method FillRows(objects: seq<Widget>)
      requires Valid()
      modifies this
      ensures Valid()
      ensures |rows| >= row
      ensures forall r :: 0 <= r < row ==> rows[r] == Bucket(meta, objects, r)
      ensures meta == old(meta) && row == old(row) && gapX == old(gapX) && gapY == old(gapY)
    {
      PrepareRows();
      for i := 0 to |objects|
        invariant |rows| >= row
        invariant forall r :: 0 <= r < row ==> rows[r] == Bucket(meta, objects[..i], r)
        invariant meta == old(meta) && row == old(row) && gapX == old(gapX) && gapY == old(gapY)
      {
        assert objects[..i + 1][..i] == objects[..i];
        var obj := objects[i];
        if obj in meta {
          var r := meta[obj].row;
          rows := rows[r := rows[r] + [obj]];
        }
      }
      assert objects[..|objects|] == objects;
    }

    /** One pass over a row: its height, the sum of its fixed widths and its number of auto widgets. */
    method MeasureRow(ws: seq<Widget>, minHeight: Widget -> real)
      returns (rowHeight: real, fixedW: real, auto: nat)
      requires Registered(meta, ws)
      ensures rowHeight == RowHeight(meta, minHeight, ws)
      ensures fixedW == FixedWidth(meta, ws)
      ensures auto == AutoCount(meta, ws)
    {
      rowHeight, fixedW, auto := 0.0, 0.0, 0;
      for i := 0 to |ws|
        invariant rowHeight == RowHeight(meta, minHeight, ws[..i])
        invariant fixedW == FixedWidth(meta, ws[..i])
        invariant auto == AutoCount(meta, ws[..i])
      {
        assert ws[..i + 1][..i] == ws[..i];
        var m := meta[ws[i]];
        var h := minHeight(ws[i]);
        if m.size.Some? {
          h := m.size.value.height;
          fixedW := fixedW + m.size.value.width;
        } else {
          auto := auto + 1;
        }
        if h > rowHeight {
          rowHeight := h;
        }
      }
      assert ws[..|ws|] == ws;
    }

    /** The height-only pass over a row that the minimum-size pass makes. */
    method RowHeightOf(ws: seq<Widget>, minHeight: Widget -> real) returns (rowH: real)
      requires Registered(meta, ws)
      ensures rowH == RowHeight(meta, minHeight, ws)
    {
      rowH := 0.0;
      for i := 0 to |ws|
        invariant rowH == RowHeight(meta, minHeight, ws[..i])
      {
        assert ws[..i + 1][..i] == ws[..i];
        var m := meta[ws[i]];
        var h := minHeight(ws[i]);
        if m.size.Some? {
          h := m.size.value.height;
        }
        if h > rowH {
          rowH := h;
        }
      }
      assert ws[..|ws|] == ws;
    }

    /** Resizes and moves the widgets of a row left to right, on baseline `y`. */
    method PlaceRowAt(ws: seq<Widget>, autoW: real, rowHeight: real, y: real) returns (placed: seq<Placed>)
      requires Registered(meta, ws)
      ensures placed == PlaceRow(meta, ws, autoW, rowHeight, gapX, y)
    {
      placed := [];
      var x := 0.0;
      for i := 0 to |ws|
        invariant placed == PlaceRow(meta, ws[..i], autoW, rowHeight, gapX, y)
        invariant x == Cursor(meta, ws[..i], autoW, rowHeight, gapX)
      {
        assert ws[..i + 1][..i] == ws[..i];
        var m := meta[ws[i]];
        var w, h := autoW, rowHeight;
        if m.size.Some? {
          w, h := m.size.value.width, m.size.value.height;
        }
        if m.move.Some? {
          placed := placed + [Placed(ws[i], Size(w, h), Position(m.move.value.x, y))];
        } else {
          placed := placed + [Placed(ws[i], Size(w, h), Position(x, y))];
        }
        var gx := gapX;
        if m.gap.Some? {
          gx := m.gap.value.x;
        }
        x := x + w + gx;
      }
      assert ws[..|ws|] == ws;
    }

    /** The vertical gap after a row: the first positive override in the row, else `gapY`. */
    method RowGapYOf(ws: seq<Widget>) returns (gy: real)
      requires Registered(meta, ws)
      ensures gy == RowGapY(meta, ws, gapY)
    {
      gy := gapY;
      var i := 0;
      while i < |ws|
        invariant 0 <= i <= |ws|
        invariant RowGapY(meta, ws, gapY) == RowGapY(meta, ws[i..], gapY)
      {
        assert ws[i..][1..] == ws[i + 1..];
        var m := meta[ws[i]];
        if m.gap.Some? && m.gap.value.y > 0.0 {
          gy := m.gap.value.y;
          break;
        }
        i := i + 1;
      }
    }

    /** Lays out one row on baseline `y`: returns its Resize/Move calls and the next baseline. */
    method LayoutRow(ws: seq<Widget>, width: real, minHeight: Widget -> real, y: real)
      returns (placed: seq<Placed>, nextY: real)
      requires Registered(meta, ws)
      ensures placed == PlaceRow(meta, ws, AutoWidth(meta, ws, width, gapX), RowHeight(meta, minHeight, ws), gapX, y)
      ensures nextY == y + RowHeight(meta, minHeight, ws) + RowGapY(meta, ws, gapY)
    {
      var rowHeight, fixedW, auto := MeasureRow(ws, minHeight);
      var remain := width - fixedW - gapX * ((|ws| - 1) as real);
      if remain < 0.0 {
        remain := 0.0;
      }
      var autoW := 0.0;
      if auto > 0 {
        autoW := remain / (auto as real);
      }
      GapsWidthIsProduct(gapX, |ws|);
      assert remain == Remain(meta, ws, width, gapX);
      assert autoW == AutoWidth(meta, ws, width, gapX);
      placed := PlaceRowAt(ws, autoW, rowHeight, y);
      var gy := RowGapYOf(ws);
      nextY := y + rowHeight + gy;
    }

    /** The row loop of the layout pass over the filled buffer `rs`: the Resize/Move
        calls made, in order, and the baseline after the last non-empty row. */
    method LayoutBuffer(rs: seq<seq<Widget>>, width: real, minHeight: Widget -> real)
      returns (log: seq<Placed>, y: real)
      requires RowsRegistered(meta, rs)
      ensures Pass(log, y) == LayoutRows(meta, minHeight, rs, width, gapX, gapY)
    {
      log, y := [], 0.0;
      for r := 0 to |rs|
        invariant LayoutRows(meta, minHeight, rs[..r], width, gapX, gapY) == Pass(log, y)
      {
        var ws := rs[r];
        assert rs[..r + 1] == rs[..r] + [ws];
        LayoutRowsSnoc(meta, minHeight, rs[..r], ws, width, gapX, gapY);
        if ws != [] {
          var placed;
          placed, y := LayoutRow(ws, width, minHeight, y);
          log := log + placed;
        }
      }
      assert rs[..|rs|] == rs;
    }

    /** The layout pass: returns the Resize/Move calls made, in order. */
    method Layout(objects: seq<Widget>, size: Size, minHeight: Widget -> real) returns (log: seq<Placed>)
      requires Valid()
      modifies this
      ensures Valid()
      ensures log == LayoutRows(meta, minHeight, Buckets(meta, objects, row), size.width, gapX, gapY).log
      ensures meta == old(meta) && row == old(row) && gapX == old(gapX) && gapY == old(gapY)
    {
      FillRows(objects);
      assert rows[..row] == Buckets(meta, objects, row);
      var baseline;
      log, baseline := LayoutBuffer(rows[..row], size.width, minHeight);
    }

    /** The row loop of the minimum-size pass over the filled buffer `rs`, whose
        rows are the first `count` rows of the layout. */
    method MinHeightOf(rs: seq<seq<Widget>>, count: nat, minHeight: Widget -> real) returns (totalH: real)
      requires RowsRegistered(meta, rs)
      ensures totalH == TotalHeight(meta, minHeight, rs, count, gapY)
    {
      totalH := 0.0;
      for r := 0 to |rs|
        invariant totalH == TotalHeight(meta, minHeight, rs[..r], count, gapY)
      {
        var ws := rs[r];
        assert rs[..r + 1] == rs[..r] + [ws];
        TotalHeightSnoc(meta, minHeight, rs[..r], ws, count, gapY);
        if ws != [] {
          var rowH := RowHeightOf(ws, minHeight);
          totalH := totalH + rowH;
          if r < count - 1 {
            totalH := totalH + gapY;
          }
        }
      }
      assert rs[..|rs|] == rs;
    }

    /** The minimum-size pass: width 0 and the summed height of the non-empty rows. */
    method MinSize(objects: seq<Widget>, minHeight: Widget -> real) returns (s: Size)
      requires Valid()
      modifies this
      ensures Valid()
      ensures s == Size(0.0, TotalHeight(meta, minHeight, Buckets(meta, objects, row), row, gapY))
      ensures meta == old(meta) && row == old(row) && gapX == old(gapX) && gapY == old(gapY)
    {
      FillRows(objects);
      assert rows[..row] == Buckets(meta, objects, row);
      var totalH := MinHeightOf(rows[..row], row, minHeight);
      s := Size(0.0, totalH);
    }
  }
}
