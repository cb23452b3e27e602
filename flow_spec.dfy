/** The layout and minimum-size passes as pure functions. Each function over a
    row or a list of widgets is defined on prefixes (the last element is the
    newest), the order in which the engine's loops visit them. */
module FlowSpec {
  import opened FlowTypes

  /** Every widget of `ws` has a metadata entry. */
  predicate Registered(meta: Meta, ws: seq<Widget>) {
    forall k :: 0 <= k < |ws| ==> ws[k] in meta
  }

  /** Every row of `rs` holds only registered widgets. */
  predicate RowsRegistered(meta: Meta, rs: seq<seq<Widget>>) {
    forall r :: 0 <= r < |rs| ==> Registered(meta, rs[r])
  }

  /** The entry that registering `obj` lazily yields: the existing one, or a
      fresh entry on row `count`. */
  function Entry(meta: Meta, count: nat, obj: Widget): FlowMeta {
    if obj in meta then meta[obj] else FreshMeta(count)
  }

  // ---------------------------------------------------------------------------
  // Bucketing widgets into rows

  /** The widgets of `os` that belong to row `r`, in input order; unregistered
      widgets are skipped. */
  function Bucket(meta: Meta, os: seq<Widget>, r: nat): (b: seq<Widget>)
    ensures |b| <= |os|
    ensures forall k :: 0 <= k < |b| ==> b[k] in meta && meta[b[k]].row == r
  {
    if os == [] then []
    else
      var last := os[|os| - 1];
      Bucket(meta, os[..|os| - 1], r) + (if last in meta && meta[last].row == r then [last] else [])
  }

  /** The row buffer after bucketing `os` into `count` rows. */
  function Buckets(meta: Meta, os: seq<Widget>, count: nat): (rs: seq<seq<Widget>>)
    ensures |rs| == count
    ensures RowsRegistered(meta, rs)
  {
    seq(count, r requires 0 <= r => Bucket(meta, os, r))
  }

  /** The registered widgets of `os`, in input order. */
  function Registrants(meta: Meta, os: seq<Widget>): seq<Widget> {
    if os == [] then []
    else
      var last := os[|os| - 1];
      Registrants(meta, os[..|os| - 1]) + (if last in meta then [last] else [])
  }

  /** All rows of `rs` laid end to end, in row order. */
  function Flatten(rs: seq<seq<Widget>>): seq<Widget> {
    if rs == [] then [] else Flatten(rs[..|rs| - 1]) + rs[|rs| - 1]
  }

  // ---------------------------------------------------------------------------
  // Measuring a row

  /** The height a widget asks for: its fixed height if set, else its reported minimum. */
  function EffHeight(meta: Meta, minHeight: Widget -> real, w: Widget): real
    requires w in meta
  {
    match meta[w].size
    case Some(s) => s.height
    case None => minHeight(w)
  }

  /** The row height: the running maximum, starting at zero, of the widgets' heights. */
  function RowHeight(meta: Meta, minHeight: Widget -> real, ws: seq<Widget>): (h: real)
    requires Registered(meta, ws)
    ensures h >= 0.0
  {
    if ws == [] then 0.0
    else
      var h := RowHeight(meta, minHeight, ws[..|ws| - 1]);
      var e := EffHeight(meta, minHeight, ws[|ws| - 1]);
      if e > h then e else h
  }

  /** The number of widgets in `ws` without a fixed size. */
  function AutoCount(meta: Meta, ws: seq<Widget>): (c: nat)
    requires Registered(meta, ws)
    ensures c <= |ws|
  {
    if ws == [] then 0
    else
      AutoCount(meta, ws[..|ws| - 1]) + (if meta[ws[|ws| - 1]].size.None? then 1 else 0)
  }

  /** The sum of the fixed widths in `ws`. */
  function FixedWidth(meta: Meta, ws: seq<Widget>): real
    requires Registered(meta, ws)
  {
    if ws == [] then 0.0
    else
      FixedWidth(meta, ws[..|ws| - 1])
      + (match meta[ws[|ws| - 1]].size case Some(s) => s.width case None => 0.0)
  }

  /** `k` lengths `g` laid end to end. */
  function Times(g: real, k: nat): real {
    if k == 0 then 0.0 else Times(g, k - 1) + g
  }

  /** `Times` is multiplication by a count. */
  lemma {:induction false} TimesIsProduct(g: real, k: nat)
    ensures Times(g, k) == g * (k as real)
  {
    if k > 0 {
      TimesIsProduct(g, k - 1);
    }
  }

  /** The width the gaps of an `n`-widget row take: `gapX` between each pair of
      neighbours; an empty row would take back one gap. */
  function GapsWidth(gapX: real, n: nat): real {
    if n == 0 then -gapX else Times(gapX, n - 1)
  }

  /** The gaps of an `n`-widget row take `gapX * (n - 1)`, the product the layout computes. */
  lemma GapsWidthIsProduct(gapX: real, n: nat)
    ensures GapsWidth(gapX, n) == gapX * ((n - 1) as real)
  {
    if n > 0 {
      TimesIsProduct(gapX, n - 1);
    }
  }

  /** The width left for auto-sized widgets, clamped at zero. */
  function Remain(meta: Meta, ws: seq<Widget>, width: real, gapX: real): (rem: real)
    requires Registered(meta, ws)
    ensures rem >= 0.0
  {
    var rem := width - FixedWidth(meta, ws) - GapsWidth(gapX, |ws|);
    if rem < 0.0 then 0.0 else rem
  }

  /** The common width of every auto-sized widget of the row. */
  function AutoWidth(meta: Meta, ws: seq<Widget>, width: real, gapX: real): (aw: real)
    requires Registered(meta, ws)
    ensures aw >= 0.0
  {
    var c := AutoCount(meta, ws);
    if c > 0 then Remain(meta, ws, width, gapX) / (c as real) else 0.0
  }

  // ---------------------------------------------------------------------------
  // Placing a row

  /** The size a widget is given: its fixed size, else the auto width and the row height. */
  function SizeOf(meta: Meta, w: Widget, autoW: real, rowHeight: real): Size
    requires w in meta
  {
    match meta[w].size
    case Some(s) => s
    case None => Size(autoW, rowHeight)
  }

  /** The horizontal gap after a widget: its own override if set, else `gapX`. */
  function GapXOf(meta: Meta, w: Widget, gapX: real): real
    requires w in meta
  {
    match meta[w].gap
    case Some(g) => g.x
    case None => gapX
  }

  /** A widget's X: its move override if set, else the cursor. */
  function XOf(meta: Meta, w: Widget, cursor: real): real
    requires w in meta
  {
    match meta[w].move
    case Some(p) => p.x
    case None => cursor
  }

  /** The cursor after the widgets `ws`: the sum of their widths and following gaps. */
  function Cursor(meta: Meta, ws: seq<Widget>, autoW: real, rowHeight: real, gapX: real): real
    requires Registered(meta, ws)
  {
    if ws == [] then 0.0
    else
      var w := ws[|ws| - 1];
      Cursor(meta, ws[..|ws| - 1], autoW, rowHeight, gapX)
      + SizeOf(meta, w, autoW, rowHeight).width + GapXOf(meta, w, gapX)
  }

  /** The Resize/Move calls a row makes, left to right, on baseline `y`. */
  function PlaceRow(meta: Meta, ws: seq<Widget>, autoW: real, rowHeight: real, gapX: real, y: real)
    : (log: seq<Placed>)
    requires Registered(meta, ws)
    ensures |log| == |ws|
  {
    if ws == [] then []
    else
      var n := |ws| - 1;
      var init := ws[..n];
      var w := ws[n];
      PlaceRow(meta, init, autoW, rowHeight, gapX, y)
      + [Placed(w, SizeOf(meta, w, autoW, rowHeight), Position(XOf(meta, w, Cursor(meta, init, autoW, rowHeight, gapX)), y))]
  }

  /** The `k`-th call of a row resizes its `k`-th widget to its own size and moves
      it to its override X, or to the widths and gaps of the widgets before it. */
  lemma {:induction false} PlaceRowEntries(meta: Meta, ws: seq<Widget>, autoW: real, rowHeight: real, gapX: real, y: real)
    requires Registered(meta, ws)
    ensures var log := PlaceRow(meta, ws, autoW, rowHeight, gapX, y);
            forall k :: 0 <= k < |ws| ==>
              && log[k].widget == ws[k]
              && log[k].size == SizeOf(meta, ws[k], autoW, rowHeight)
              && log[k].pos == Position(XOf(meta, ws[k], Cursor(meta, ws[..k], autoW, rowHeight, gapX)), y)
  {
    if ws != [] {
      var n := |ws| - 1;
      var init := ws[..n];
      PlaceRowEntries(meta, init, autoW, rowHeight, gapX, y);
      assert forall k :: 0 <= k < n ==> init[..k] == ws[..k] && init[k] == ws[k];
    }
  }

  // ---------------------------------------------------------------------------
  // Vertical gap after a row

  /** The widget carries a gap override with a positive vertical part. */
  predicate PositiveGapY(meta: Meta, w: Widget)
    requires w in meta
  {
    meta[w].gap.Some? && meta[w].gap.value.y > 0.0
  }

  /** The vertical gap after a row: the first positive per-widget override, else `gapY`. */
  function RowGapY(meta: Meta, ws: seq<Widget>, gapY: real): real
    requires Registered(meta, ws)
  {
    if ws == [] then gapY
    else if PositiveGapY(meta, ws[0]) then meta[ws[0]].gap.value.y
    else RowGapY(meta, ws[1..], gapY)
  }

  // ---------------------------------------------------------------------------
  // The two passes over the row buffer

  /** What a layout pass has done so far: the placements made and the baseline reached. */
  datatype Pass = Pass(log: seq<Placed>, baseline: real)

  /** The layout pass over the rows `rs`, in row order; empty rows are skipped. */
  function LayoutRows(meta: Meta, minHeight: Widget -> real, rs: seq<seq<Widget>>,
                      width: real, gapX: real, gapY: real): Pass
    requires RowsRegistered(meta, rs)
  {
    if rs == [] then Pass([], 0.0)
    else
      var p := LayoutRows(meta, minHeight, rs[..|rs| - 1], width, gapX, gapY);
      var ws := rs[|rs| - 1];
      if ws == [] then p
      else
        var h := RowHeight(meta, minHeight, ws);
        var aw := AutoWidth(meta, ws, width, gapX);
        Pass(p.log + PlaceRow(meta, ws, aw, h, gapX, p.baseline),
             p.baseline + h + RowGapY(meta, ws, gapY))
  }

  /** One more row extends a layout pass: an empty row changes nothing. */
  lemma LayoutRowsSnoc(meta: Meta, minHeight: Widget -> real, rs: seq<seq<Widget>>, ws: seq<Widget>,
                       width: real, gapX: real, gapY: real)
    requires RowsRegistered(meta, rs) && Registered(meta, ws)
    ensures RowsRegistered(meta, rs + [ws])
    ensures var p := LayoutRows(meta, minHeight, rs, width, gapX, gapY);
            LayoutRows(meta, minHeight, rs + [ws], width, gapX, gapY)
            == if ws == [] then p
               else Pass(p.log + PlaceRow(meta, ws, AutoWidth(meta, ws, width, gapX), RowHeight(meta, minHeight, ws), gapX, p.baseline),
                         p.baseline + RowHeight(meta, minHeight, ws) + RowGapY(meta, ws, gapY))
  {
    assert (rs + [ws])[..|rs|] == rs;
  }

  /** The size and position each widget is left with after the calls of `log`,
      made in order: a widget placed twice keeps its last placement. */
  function Applied(log: seq<Placed>): map<Widget, Placed> {
    if log == [] then map[]
    else
      var last := log[|log| - 1];
      Applied(log[..|log| - 1])[last.widget := last]
  }

  /** The minimum height over the rows `rs` of a buffer of `count` rows: each
      non-empty row adds its height, plus `gapY` unless its index is `count - 1`. */
  function TotalHeight(meta: Meta, minHeight: Widget -> real, rs: seq<seq<Widget>>,
                       count: nat, gapY: real): real
    requires RowsRegistered(meta, rs)
  {
    if rs == [] then 0.0
    else
      var t := TotalHeight(meta, minHeight, rs[..|rs| - 1], count, gapY);
      var ws := rs[|rs| - 1];
      if ws == [] then t
      else t + RowHeight(meta, minHeight, ws) + (if |rs| - 1 < count - 1 then gapY else 0.0)
  }

  /** One more row extends the minimum-height sum: an empty row changes nothing. */
  lemma TotalHeightSnoc(meta: Meta, minHeight: Widget -> real, rs: seq<seq<Widget>>, ws: seq<Widget>,
                        count: nat, gapY: real)
    requires RowsRegistered(meta, rs) && Registered(meta, ws)
    ensures RowsRegistered(meta, rs + [ws])
    ensures TotalHeight(meta, minHeight, rs + [ws], count, gapY)
            == if ws == [] then TotalHeight(meta, minHeight, rs, count, gapY)
               else TotalHeight(meta, minHeight, rs, count, gapY) + RowHeight(meta, minHeight, ws)
                    + (if |rs| < count - 1 then gapY else 0.0)
  {
    assert (rs + [ws])[..|rs|] == rs;
  }
}
