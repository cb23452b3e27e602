/** Properties of the layout and minimum-size passes, stated over the
    specification functions that the engine's methods are proved to compute. */
module FlowProps {
  import opened FlowTypes
  import opened FlowSpec

  // ---------------------------------------------------------------------------
  // Width distribution within a row

  /** `Times` distributes over a sum of lengths. */
  lemma {:induction false} TimesAdd(a: real, b: real, k: nat)
    ensures Times(a + b, k) == Times(a, k) + Times(b, k)
  {
    if k > 0 {
      TimesAdd(a, b, k - 1);
    }
  }

  /** When the row fits, the auto widgets, the fixed widths and the gaps fill the
      container width exactly; when it does not, auto widgets get width zero. */
  lemma AutoWidthFillsRow(meta: Meta, ws: seq<Widget>, width: real, gapX: real)
    requires Registered(meta, ws)
    ensures var aw := AutoWidth(meta, ws, width, gapX);
            var c := AutoCount(meta, ws);
            var used := FixedWidth(meta, ws) + GapsWidth(gapX, |ws|);
            && (c > 0 && used <= width ==> Times(aw, c) + used == width)
            && (width < used ==> aw == 0.0)
            && (c == 0 ==> aw == 0.0)
  {
    var c := AutoCount(meta, ws);
    var used := FixedWidth(meta, ws) + GapsWidth(gapX, |ws|);
    if c > 0 && used <= width {
      ShareBack(AutoWidth(meta, ws, width, gapX), c, used, width, Remain(meta, ws, width, gapX));
    }
  }

  /** Dividing what is left by the count and laying that many shares back restores the container width. */
  lemma ShareBack(aw: real, c: nat, used: real, width: real, rem: real)
    requires c > 0 && aw == rem / (c as real) && rem == width - used
    ensures Times(aw, c) + used == width
  {
    TimesIsProduct(aw, c);
  }

  /** The auto count is the row length exactly when no widget of the row has a fixed size. */
  lemma {:induction false} AutoCountAll(meta: Meta, ws: seq<Widget>)
    requires Registered(meta, ws)
    ensures AutoCount(meta, ws) == |ws| <==> forall k :: 0 <= k < |ws| ==> meta[ws[k]].size.None?
  {
    if ws != [] {
      var n := |ws| - 1;
      AutoCountAll(meta, ws[..n]);
      assert forall k :: 0 <= k < n ==> ws[..n][k] == ws[k];
    }
  }

  /** A row without fixed sizes has no fixed width. */
  lemma {:induction false} FixedWidthAllAuto(meta: Meta, ws: seq<Widget>)
    requires Registered(meta, ws)
    requires forall k :: 0 <= k < |ws| ==> meta[ws[k]].size.None?
    ensures FixedWidth(meta, ws) == 0.0
  {
    if ws != [] {
      FixedWidthAllAuto(meta, ws[..|ws| - 1]);
    }
  }

  /** With no overrides in the row, the cursor after `ws` is `|ws|` steps of `autoW + gapX`. */
  lemma {:induction false} CursorUniform(meta: Meta, ws: seq<Widget>, autoW: real, rowHeight: real, gapX: real)
    requires Registered(meta, ws)
    requires forall k :: 0 <= k < |ws| ==> meta[ws[k]].size.None? && meta[ws[k]].gap.None?
    ensures Cursor(meta, ws, autoW, rowHeight, gapX) == Times(autoW + gapX, |ws|)
  {
    if ws != [] {
      CursorUniform(meta, ws[..|ws| - 1], autoW, rowHeight, gapX);
    }
  }

  /** A row of auto-sized widgets without overrides spans the container width
      exactly when the gaps fit: the last widget ends at `width`. */
  lemma RowFillsWidth(meta: Meta, minHeight: Widget -> real, ws: seq<Widget>, width: real, gapX: real, y: real)
    requires Registered(meta, ws) && ws != []
    requires forall k :: 0 <= k < |ws| ==>
               meta[ws[k]].size.None? && meta[ws[k]].move.None? && meta[ws[k]].gap.None?
    requires GapsWidth(gapX, |ws|) <= width
    ensures var log := PlaceRow(meta, ws, AutoWidth(meta, ws, width, gapX), RowHeight(meta, minHeight, ws), gapX, y);
            log[|ws| - 1].pos.x + log[|ws| - 1].size.width == width
  {
    var n := |ws|;
    var aw := AutoWidth(meta, ws, width, gapX);
    var h := RowHeight(meta, minHeight, ws);
    PlaceRowEntries(meta, ws, aw, h, gapX, y);
    CursorUniform(meta, ws[..n - 1], aw, h, gapX);
    TimesAdd(aw, gapX, n - 1);
    AutoWidthFillsRow(meta, ws, width, gapX);
    FixedWidthAllAuto(meta, ws);
    AutoCountAll(meta, ws);
  }

  /** Neighbours without a move override sit exactly `width + gap` apart, and the
      first one starts at 0. */
  lemma RowSpacing(meta: Meta, ws: seq<Widget>, autoW: real, rowHeight: real, gapX: real, y: real, k: nat)
    requires Registered(meta, ws) && k + 1 < |ws|
    requires meta[ws[k]].move.None? && meta[ws[k + 1]].move.None?
    ensures var log := PlaceRow(meta, ws, autoW, rowHeight, gapX, y);
            log[k + 1].pos.x == log[k].pos.x + log[k].size.width + GapXOf(meta, ws[k], gapX)
    ensures var log := PlaceRow(meta, ws, autoW, rowHeight, gapX, y);
            meta[ws[0]].move.None? ==> log[0].pos.x == 0.0
  {
    PlaceRowEntries(meta, ws, autoW, rowHeight, gapX, y);
    assert ws[..k + 1][..k] == ws[..k];
    assert ws[..0] == [];
  }

  /** The first widget of a row without a move override starts at 0, whatever the row length. */
  lemma RowStartsAtZero(meta: Meta, ws: seq<Widget>, autoW: real, rowHeight: real, gapX: real, y: real)
    requires Registered(meta, ws) && ws != [] && meta[ws[0]].move.None?
    ensures PlaceRow(meta, ws, autoW, rowHeight, gapX, y)[0].pos.x == 0.0
  {
    PlaceRowEntries(meta, ws, autoW, rowHeight, gapX, y);
    assert ws[..0] == [];
  }

  // ---------------------------------------------------------------------------
  // Row height and vertical gap

  /** The row height is the tallest effective height in the row (0 for an empty row). */
  lemma {:induction false} RowHeightIsMax(meta: Meta, minHeight: Widget -> real, ws: seq<Widget>)
    requires Registered(meta, ws)
    ensures forall k :: 0 <= k < |ws| ==> EffHeight(meta, minHeight, ws[k]) <= RowHeight(meta, minHeight, ws)
    ensures RowHeight(meta, minHeight, ws) == 0.0
            || exists k :: 0 <= k < |ws| && RowHeight(meta, minHeight, ws) == EffHeight(meta, minHeight, ws[k])
  {
    if ws != [] {
      var n := |ws| - 1;
      RowHeightIsMax(meta, minHeight, ws[..n]);
      assert forall k :: 0 <= k < n ==> ws[..n][k] == ws[k];
      var h := RowHeight(meta, minHeight, ws[..n]);
      if h != 0.0 && h >= EffHeight(meta, minHeight, ws[n]) {
        var k :| 0 <= k < n && h == EffHeight(meta, minHeight, ws[..n][k]);
        assert h == EffHeight(meta, minHeight, ws[k]);
      }
    }
  }

  /** A row without a positive vertical gap override is followed by the global gap. */
  lemma {:induction false} RowGapYDefault(meta: Meta, ws: seq<Widget>, gapY: real)
    requires Registered(meta, ws)
    requires forall k :: 0 <= k < |ws| ==> !PositiveGapY(meta, ws[k])
    ensures RowGapY(meta, ws, gapY) == gapY
  {
    if ws != [] {
      assert forall k :: 0 <= k < |ws| - 1 ==> ws[1..][k] == ws[k + 1];
      RowGapYDefault(meta, ws[1..], gapY);
    }
  }

  /** Otherwise the row is followed by the vertical gap of its first widget with a
      positive vertical override; later overrides are ignored. */
  lemma {:induction false} RowGapYFirst(meta: Meta, ws: seq<Widget>, gapY: real, k: nat)
    requires Registered(meta, ws) && k < |ws|
    requires PositiveGapY(meta, ws[k])
    requires forall j :: 0 <= j < k ==> !PositiveGapY(meta, ws[j])
    ensures RowGapY(meta, ws, gapY) == meta[ws[k]].gap.value.y
  {
    if k > 0 {
      assert !PositiveGapY(meta, ws[0]);
      assert forall j :: 0 <= j < |ws| - 1 ==> ws[1..][j] == ws[j + 1];
      RowGapYFirst(meta, ws[1..], gapY, k - 1);
    }
  }

  // ---------------------------------------------------------------------------
  // Bucketing

  /** A widget is in bucket `r` exactly when it occurs in the input, is registered and belongs to row `r`. */
  lemma {:induction false} BucketMembers(meta: Meta, os: seq<Widget>, r: nat, w: Widget)
    ensures w in Bucket(meta, os, r) <==> w in os && w in meta && meta[w].row == r
  {
    if os != [] {
      var n := |os| - 1;
      BucketMembers(meta, os[..n], r, w);
      assert os == os[..n] + [os[n]];
    }
  }

  /** Bucketing distributes over concatenation of the input: each bucket keeps the input order. */
  lemma {:induction false} BucketAppend(meta: Meta, a: seq<Widget>, b: seq<Widget>, r: nat)
    ensures Bucket(meta, a + b, r) == Bucket(meta, a, r) + Bucket(meta, b, r)
  {
    if b == [] {
      assert a + b == a;
    } else {
      var n := |b| - 1;
      BucketAppend(meta, a, b[..n], r);
      assert (a + b)[..|a + b| - 1] == a + b[..n];
    }
  }

  /** The names of the widgets a log places, in order. */
  function PlacedWidgets(log: seq<Placed>): seq<Widget> {
    seq(|log|, k requires 0 <= k < |log| => log[k].widget)
  }

  lemma FlattenEmpty(rs: seq<seq<Widget>>)
    requires forall r :: 0 <= r < |rs| ==> rs[r] == []
    ensures Flatten(rs) == []
  {
    if rs != [] {
      FlattenEmpty(rs[..|rs| - 1]);
    }
  }

  /** Appending `w` to one row adds `w` once to the flattened rows. */
  lemma {:induction false} FlattenAppendAt(rs: seq<seq<Widget>>, r: nat, w: Widget)
    requires r < |rs|
    ensures multiset(Flatten(rs[r := rs[r] + [w]])) == multiset(Flatten(rs)) + multiset{w}
  {
    var n := |rs| - 1;
    var rs' := rs[r := rs[r] + [w]];
    assert Flatten(rs) == Flatten(rs[..n]) + rs[n];
    assert Flatten(rs') == Flatten(rs'[..n]) + rs'[n];
    if r == n {
      assert rs'[..n] == rs[..n];
      assert Flatten(rs') == Flatten(rs[..n]) + (rs[n] + [w]);
    } else {
      assert rs'[..n] == rs[..n][r := rs[r] + [w]];
      FlattenAppendAt(rs[..n], r, w);
      assert rs'[n] == rs[n];
    }
  }

  /** One more input widget is appended to the bucket of its row, if it is registered. */
  lemma BucketsSnoc(meta: Meta, os: seq<Widget>, w: Widget, count: nat)
    requires w in meta ==> meta[w].row < count
    ensures Buckets(meta, os + [w], count)
            == if w in meta then Buckets(meta, os, count)[meta[w].row := Bucket(meta, os, meta[w].row) + [w]]
               else Buckets(meta, os, count)
  {
    var b := Buckets(meta, os + [w], count);
    var b0 := Buckets(meta, os, count);
    assert (os + [w])[..|os|] == os;
    forall i | 0 <= i < count
      ensures b[i] == b0[i] + (if w in meta && meta[w].row == i then [w] else [])
    {
      assert b[i] == Bucket(meta, os + [w], i);
      assert b0[i] == Bucket(meta, os, i);
    }
    if w in meta {
      var r := meta[w].row;
      var b1 := b0[r := Bucket(meta, os, r) + [w]];
      assert forall i :: 0 <= i < count ==> b[i] == b1[i];
      assert b == b1;
    } else {
      assert forall i :: 0 <= i < count ==> b[i] == b0[i];
      assert b == b0;
    }
  }

  /** Every registered widget of the input lands in exactly one bucket, as often as it occurs. */
  lemma {:induction false} BucketsFlatten(meta: Meta, os: seq<Widget>, count: nat)
    requires RowsBelow(meta, count)
    ensures multiset(Flatten(Buckets(meta, os, count))) == multiset(Registrants(meta, os))
  {
    if os == [] {
      FlattenEmpty(Buckets(meta, os, count));
    } else {
      var init := os[..|os| - 1];
      var w := os[|os| - 1];
      assert os == init + [w];
      BucketsFlatten(meta, init, count);
      BucketsSnoc(meta, init, w, count);
      if w in meta {
        var b0 := Buckets(meta, init, count);
        FlattenAppendAt(b0, meta[w].row, w);
      }
    }
  }

  // ---------------------------------------------------------------------------
  // The layout pass

  /** One more row adds exactly its widgets, in order, to those the layout pass places. */
  lemma PlacedWidgetsSnoc(meta: Meta, minHeight: Widget -> real, rs: seq<seq<Widget>>, ws: seq<Widget>,
                          width: real, gapX: real, gapY: real)
    requires RowsRegistered(meta, rs) && Registered(meta, ws)
    ensures RowsRegistered(meta, rs + [ws])
    ensures PlacedWidgets(LayoutRows(meta, minHeight, rs + [ws], width, gapX, gapY).log)
            == PlacedWidgets(LayoutRows(meta, minHeight, rs, width, gapX, gapY).log) + ws
  {
    LayoutRowsSnoc(meta, minHeight, rs, ws, width, gapX, gapY);
    var p := LayoutRows(meta, minHeight, rs, width, gapX, gapY);
    if ws == [] {
      assert PlacedWidgets(p.log) + ws == PlacedWidgets(p.log);
    } else {
      var placed := PlaceRow(meta, ws, AutoWidth(meta, ws, width, gapX), RowHeight(meta, minHeight, ws), gapX, p.baseline);
      PlaceRowEntries(meta, ws, AutoWidth(meta, ws, width, gapX), RowHeight(meta, minHeight, ws), gapX, p.baseline);
      assert PlacedWidgets(placed) == ws;
      PlacedWidgetsAppend(p.log, placed);
    }
  }

  lemma PlacedWidgetsAppend(a: seq<Placed>, b: seq<Placed>)
    ensures PlacedWidgets(a + b) == PlacedWidgets(a) + PlacedWidgets(b)
  {
    assert forall k :: 0 <= k < |a + b| ==> PlacedWidgets(a + b)[k] == (PlacedWidgets(a) + PlacedWidgets(b))[k];
  }

  /** The layout pass places exactly the widgets of the rows, row after row, each row left to right. */
  lemma {:induction false} LayoutRowsWidgets(meta: Meta, minHeight: Widget -> real, rs: seq<seq<Widget>>,
                                             width: real, gapX: real, gapY: real)
    requires RowsRegistered(meta, rs)
    ensures PlacedWidgets(LayoutRows(meta, minHeight, rs, width, gapX, gapY).log) == Flatten(rs)
  {
    if rs != [] {
      var init := rs[..|rs| - 1];
      var ws := rs[|rs| - 1];
      LayoutRowsWidgets(meta, minHeight, init, width, gapX, gapY);
      assert rs == init + [ws];
      PlacedWidgetsSnoc(meta, minHeight, init, ws, width, gapX, gapY);
    }
  }

  /** A layout pass over `objects` resizes and moves every registered widget of
      the input as often as it occurs there, and nothing else. */
  lemma LayoutPlacesRegistered(meta: Meta, minHeight: Widget -> real, objects: seq<Widget>, count: nat,
                               width: real, gapX: real, gapY: real)
    requires RowsBelow(meta, count)
    ensures multiset(PlacedWidgets(LayoutRows(meta, minHeight, Buckets(meta, objects, count), width, gapX, gapY).log))
            == multiset(Registrants(meta, objects))
  {
    LayoutRowsWidgets(meta, minHeight, Buckets(meta, objects, count), width, gapX, gapY);
    BucketsFlatten(meta, objects, count);
  }

  /** A widget is registered and listed in the input exactly when it is among
      the registrants. */
  lemma {:induction false} RegistrantsMembers(meta: Meta, os: seq<Widget>, w: Widget)
    ensures w in Registrants(meta, os) <==> w in os && w in meta
  {
    if os != [] {
      var n := |os| - 1;
      RegistrantsMembers(meta, os[..n], w);
      assert os == os[..n] + [os[n]];
    }
  }

  /** After the calls of `log`, a widget has been placed exactly when some call
      names it, and then it holds the placement of the last call naming it. */
  lemma {:induction false} AppliedLast(log: seq<Placed>, w: Widget)
    ensures w in Applied(log) <==> exists k :: 0 <= k < |log| && log[k].widget == w
    ensures w in Applied(log) ==>
              exists k :: 0 <= k < |log| && log[k].widget == w && Applied(log)[w] == log[k]
                          && forall j :: k < j < |log| ==> log[j].widget != w
  {
    if log != [] {
      var n := |log| - 1;
      var init := log[..n];
      AppliedLast(init, w);
      assert forall k :: 0 <= k < n ==> init[k] == log[k];
      if log[n].widget == w {
        assert Applied(log)[w] == log[n];
      } else {
        assert w in Applied(log) <==> w in Applied(init);
        if w in Applied(init) {
          var k :| 0 <= k < n && init[k].widget == w && Applied(init)[w] == init[k]
                   && forall j :: k < j < n ==> init[j].widget != w;
          assert Applied(log)[w] == log[k];
        } else {
          assert forall k :: 0 <= k < n ==> log[k].widget != w;
        }
      }
    }
  }

  /** The call is consistent with the overrides of the widget it names: a fixed
      size is applied exactly and a move override gives the X. */
  predicate KeepsOverrides(meta: Meta, p: Placed) {
    p.widget in meta
    && (meta[p.widget].size.Some? ==> p.size == meta[p.widget].size.value)
    && (meta[p.widget].move.Some? ==> p.pos.x == meta[p.widget].move.value.x)
  }

  /** Every call of `log` is consistent with the overrides. */
  predicate AllKeepOverrides(meta: Meta, log: seq<Placed>) {
    forall k :: 0 <= k < |log| ==> KeepsOverrides(meta, log[k])
  }

  /** Every call of one row is consistent with the overrides. */
  lemma RowKeepsOverrides(meta: Meta, ws: seq<Widget>, autoW: real, rowHeight: real, gapX: real, y: real)
    requires Registered(meta, ws)
    ensures AllKeepOverrides(meta, PlaceRow(meta, ws, autoW, rowHeight, gapX, y))
  {
    PlaceRowEntries(meta, ws, autoW, rowHeight, gapX, y);
  }

  /** Every call of a layout pass is consistent with the overrides of the widget it names. */
  lemma {:induction false} LayoutKeepsOverrides(meta: Meta, minHeight: Widget -> real, rs: seq<seq<Widget>>,
                                                width: real, gapX: real, gapY: real)
    requires RowsRegistered(meta, rs)
    ensures AllKeepOverrides(meta, LayoutRows(meta, minHeight, rs, width, gapX, gapY).log)
  {
    if rs != [] {
      var init := rs[..|rs| - 1];
      var ws := rs[|rs| - 1];
      assert rs == init + [ws];
      LayoutKeepsOverrides(meta, minHeight, init, width, gapX, gapY);
      LayoutRowsSnoc(meta, minHeight, init, ws, width, gapX, gapY);
      if ws != [] {
        var p := LayoutRows(meta, minHeight, init, width, gapX, gapY);
        var placed := PlaceRow(meta, ws, AutoWidth(meta, ws, width, gapX), RowHeight(meta, minHeight, ws), gapX, p.baseline);
        RowKeepsOverrides(meta, ws, AutoWidth(meta, ws, width, gapX), RowHeight(meta, minHeight, ws), gapX, p.baseline);
        var log := p.log + placed;
        assert forall k :: 0 <= k < |log| ==> log[k] == if k < |p.log| then p.log[k] else placed[k - |p.log|];
      }
    }
  }

  /** After a layout pass, a widget with a fixed size has exactly that size, and
      a widget with a move override has that X. */
  lemma OverridesAfterPlacement(meta: Meta, minHeight: Widget -> real, objects: seq<Widget>, count: nat,
                                width: real, gapX: real, gapY: real, w: Widget)
    requires RowsBelow(meta, count)
    ensures var placed := Applied(LayoutRows(meta, minHeight, Buckets(meta, objects, count), width, gapX, gapY).log);
            w in placed ==>
              && w in meta
              && (meta[w].size.Some? ==> placed[w].size == meta[w].size.value)
              && (meta[w].move.Some? ==> placed[w].pos.x == meta[w].move.value.x)
  {
    var rs := Buckets(meta, objects, count);
    LayoutKeepsOverrides(meta, minHeight, rs, width, gapX, gapY);
    var log := LayoutRows(meta, minHeight, rs, width, gapX, gapY).log;
    AppliedLast(log, w);
    if w in Applied(log) {
      var k :| 0 <= k < |log| && log[k].widget == w && Applied(log)[w] == log[k]
               && forall j :: k < j < |log| ==> log[j].widget != w;
      assert KeepsOverrides(meta, log[k]);
    }
  }

  /** The calls of a log naming the widgets of `os`, as often as they occur there,
      leave exactly those widgets placed. */
  lemma AppliedKeys(log: seq<Placed>, os: seq<Widget>)
    requires multiset(PlacedWidgets(log)) == multiset(os)
    ensures forall w :: w in Applied(log) <==> w in os
  {
    var ps := PlacedWidgets(log);
    forall w
      ensures w in Applied(log) <==> w in os
    {
      AppliedLast(log, w);
      assert (exists k :: 0 <= k < |log| && log[k].widget == w) <==> w in ps by {
        assert forall k :: 0 <= k < |log| ==> ps[k] == log[k].widget;
      }
      assert w in ps <==> w in multiset(ps);
      assert w in os <==> w in multiset(os);
    }
  }

  /** After a layout pass over `objects`, the widgets that were resized and moved
      are exactly the registered widgets of the input. */
  lemma LayoutTouchesRegistered(meta: Meta, minHeight: Widget -> real, objects: seq<Widget>, count: nat,
                                width: real, gapX: real, gapY: real)
    requires RowsBelow(meta, count)
    ensures var log := LayoutRows(meta, minHeight, Buckets(meta, objects, count), width, gapX, gapY).log;
            forall w :: w in Applied(log) <==> w in objects && w in meta
  {
    var log := LayoutRows(meta, minHeight, Buckets(meta, objects, count), width, gapX, gapY).log;
    LayoutPlacesRegistered(meta, minHeight, objects, count, width, gapX, gapY);
    AppliedKeys(log, Registrants(meta, objects));
    forall w
      ensures w in Applied(log) <==> w in objects && w in meta
    {
      RegistrantsMembers(meta, objects, w);
    }
  }

  /** The sum of the heights of the non-empty rows. */
  function SumHeights(meta: Meta, minHeight: Widget -> real, rs: seq<seq<Widget>>): real
    requires RowsRegistered(meta, rs)
  {
    if rs == [] then 0.0
    else SumHeights(meta, minHeight, rs[..|rs| - 1]) + RowHeight(meta, minHeight, rs[|rs| - 1])
  }

  /** The number of non-empty rows. */
  function NonEmptyRows(rs: seq<seq<Widget>>): nat {
    if rs == [] then 0
    else NonEmptyRows(rs[..|rs| - 1]) + (if rs[|rs| - 1] != [] then 1 else 0)
  }

  /** One more row without a positive vertical gap override moves the baseline
      down by its height and the global vertical gap, unless it is empty. */
  lemma BaselineSnoc(meta: Meta, minHeight: Widget -> real, rs: seq<seq<Widget>>, ws: seq<Widget>,
                     width: real, gapX: real, gapY: real)
    requires RowsRegistered(meta, rs) && Registered(meta, ws)
    requires forall j :: 0 <= j < |ws| ==> !PositiveGapY(meta, ws[j])
    ensures RowsRegistered(meta, rs + [ws])
    ensures LayoutRows(meta, minHeight, rs + [ws], width, gapX, gapY).baseline
            == LayoutRows(meta, minHeight, rs, width, gapX, gapY).baseline
               + (if ws == [] then 0.0 else RowHeight(meta, minHeight, ws) + gapY)
  {
    LayoutRowsSnoc(meta, minHeight, rs, ws, width, gapX, gapY);
    RowGapYDefault(meta, ws, gapY);
  }

  /** One more row adds its height to the sum and counts once if it is non-empty. */
  lemma SumHeightsSnoc(meta: Meta, minHeight: Widget -> real, rs: seq<seq<Widget>>, ws: seq<Widget>)
    requires RowsRegistered(meta, rs) && Registered(meta, ws)
    ensures RowsRegistered(meta, rs + [ws])
    ensures SumHeights(meta, minHeight, rs + [ws]) == SumHeights(meta, minHeight, rs) + RowHeight(meta, minHeight, ws)
    ensures NonEmptyRows(rs + [ws]) == NonEmptyRows(rs) + (if ws != [] then 1 else 0)
    ensures ws == [] ==> RowHeight(meta, minHeight, ws) == 0.0
  {
    assert (rs + [ws])[..|rs|] == rs;
  }

  /** One more row without a positive vertical gap override keeps the baseline
      equal to the summed heights plus one global gap per non-empty row. */
  lemma BaselineStep(meta: Meta, minHeight: Widget -> real, init: seq<seq<Widget>>, ws: seq<Widget>,
                     width: real, gapX: real, gapY: real)
    requires RowsRegistered(meta, init) && Registered(meta, ws)
    requires forall j :: 0 <= j < |ws| ==> !PositiveGapY(meta, ws[j])
    requires LayoutRows(meta, minHeight, init, width, gapX, gapY).baseline
             == SumHeights(meta, minHeight, init) + Times(gapY, NonEmptyRows(init))
    ensures RowsRegistered(meta, init + [ws])
    ensures LayoutRows(meta, minHeight, init + [ws], width, gapX, gapY).baseline
            == SumHeights(meta, minHeight, init + [ws]) + Times(gapY, NonEmptyRows(init + [ws]))
  {
    BaselineSnoc(meta, minHeight, init, ws, width, gapX, gapY);
    SumHeightsSnoc(meta, minHeight, init, ws);
    var k := NonEmptyRows(init);
    if ws != [] {
      assert Times(gapY, k + 1) == Times(gapY, k) + gapY;
    }
  }

  /** Without positive vertical gap overrides, the final baseline is the sum of the
      row heights plus one global gap per non-empty row. */
  lemma {:induction false} LayoutBaseline(meta: Meta, minHeight: Widget -> real, rs: seq<seq<Widget>>,
                                          width: real, gapX: real, gapY: real)
    requires RowsRegistered(meta, rs)
    requires forall r, k :: 0 <= r < |rs| && 0 <= k < |rs[r]| ==> !PositiveGapY(meta, rs[r][k])
    ensures LayoutRows(meta, minHeight, rs, width, gapX, gapY).baseline
            == SumHeights(meta, minHeight, rs) + Times(gapY, NonEmptyRows(rs))
  {
    if rs != [] {
      var n := |rs| - 1;
      var init := rs[..n];
      var ws := rs[n];
      assert rs == init + [ws];
      assert forall r, k :: 0 <= r < |init| && 0 <= k < |init[r]| ==> init[r][k] == rs[r][k];
      LayoutBaseline(meta, minHeight, init, width, gapX, gapY);
      assert forall j :: 0 <= j < |ws| ==> ws[j] == rs[n][j];
      BaselineStep(meta, minHeight, init, ws, width, gapX, gapY);
    }
  }

  // ---------------------------------------------------------------------------
  // The minimum-size pass

  /** The minimum height is the sum of the non-empty rows' heights plus one global
      gap per non-empty row, less one gap when row `count - 1` is itself non-empty. */
  lemma {:induction false} TotalHeightFormula(meta: Meta, minHeight: Widget -> real, rs: seq<seq<Widget>>,
                                              count: nat, gapY: real)
    requires RowsRegistered(meta, rs) && |rs| <= count
    ensures TotalHeight(meta, minHeight, rs, count, gapY)
            == SumHeights(meta, minHeight, rs) + Times(gapY, NonEmptyRows(rs))
               - (if |rs| == count && rs != [] && rs[|rs| - 1] != [] then gapY else 0.0)
  {
    if rs != [] {
      var n := |rs| - 1;
      var init := rs[..n];
      var ws := rs[n];
      assert rs == init + [ws];
      TotalHeightFormula(meta, minHeight, init, count, gapY);
      TotalHeightSnoc(meta, minHeight, init, ws, count, gapY);
      var k := NonEmptyRows(init);
      var gaps := Times(gapY, k);
      assert TotalHeight(meta, minHeight, init, count, gapY) == SumHeights(meta, minHeight, init) + gaps;
      assert SumHeights(meta, minHeight, rs) == SumHeights(meta, minHeight, init) + RowHeight(meta, minHeight, ws);
      if ws != [] {
        assert NonEmptyRows(rs) == k + 1;
        assert Times(gapY, NonEmptyRows(rs)) == gaps + gapY;
      } else {
        assert NonEmptyRows(rs) == k;
        assert RowHeight(meta, minHeight, ws) == 0.0;
      }
    }
  }

  /** When the last row of the buffer is empty but some row is not, the minimum
      height ends with a trailing global gap. */
  lemma TrailingGapWhenLastRowEmpty(meta: Meta, minHeight: Widget -> real, rs: seq<seq<Widget>>, gapY: real)
    requires RowsRegistered(meta, rs) && rs != [] && rs[|rs| - 1] == []
    ensures TotalHeight(meta, minHeight, rs, |rs|, gapY)
            == SumHeights(meta, minHeight, rs) + Times(gapY, NonEmptyRows(rs))
  {
    TotalHeightFormula(meta, minHeight, rs, |rs|, gapY);
  }

  /** Without vertical gap overrides, the layout's final baseline is the minimum
      height plus the gap the layout adds after a non-empty last row. */
  lemma LayoutBaselineVsMinSize(meta: Meta, minHeight: Widget -> real, rs: seq<seq<Widget>>,
                                width: real, gapX: real, gapY: real)
    requires RowsRegistered(meta, rs) && rs != []
    requires forall r, k :: 0 <= r < |rs| && 0 <= k < |rs[r]| ==> !PositiveGapY(meta, rs[r][k])
    ensures LayoutRows(meta, minHeight, rs, width, gapX, gapY).baseline
            == TotalHeight(meta, minHeight, rs, |rs|, gapY) + (if rs[|rs| - 1] != [] then gapY else 0.0)
  {
    LayoutBaseline(meta, minHeight, rs, width, gapX, gapY);
    TotalHeightFormula(meta, minHeight, rs, |rs|, gapY);
  }

  // ---------------------------------------------------------------------------
  // Worked scenarios

  /** Two auto widgets in one row of width 207 with the default gap of 7 are each
      100 wide, at x = 0 and x = 107. */
  lemma ColumnScenario(minHeight: Widget -> real)
    requires minHeight(0) == 20.0 && minHeight(1) == 20.0
    ensures var meta := map[0 := FreshMeta(0), 1 := FreshMeta(0)];
            LayoutRows(meta, minHeight, Buckets(meta, [0, 1], 1), 207.0, 7.0, 7.0).log
            == [Placed(0, Size(100.0, 20.0), Position(0.0, 0.0)), Placed(1, Size(100.0, 20.0), Position(107.0, 0.0))]
  {
    var meta := map[0 := FreshMeta(0), 1 := FreshMeta(0)];
    var ws: seq<Widget> := [0, 1];
    assert [0, 1][..1] == [0];
    assert Bucket(meta, [0, 1], 0) == ws;
    assert Buckets(meta, [0, 1], 1) == [] + [ws];
    LayoutRowsSnoc(meta, minHeight, [], ws, 207.0, 7.0, 7.0);
    assert ws[..1] == [0];
    assert AutoCount(meta, ws) == 2;
    assert FixedWidth(meta, ws) == 0.0;
    assert AutoWidth(meta, ws, 207.0, 7.0) == 100.0;
    assert RowHeight(meta, minHeight, ws) == 20.0;
    assert Cursor(meta, [0], 100.0, 20.0, 7.0) == 107.0;
  }

  /** Two single-widget rows of heights 20 and 30 need a height of 20 + 7 + 30. */
  lemma TwoRowsScenario(minHeight: Widget -> real)
    requires minHeight(0) == 20.0 && minHeight(1) == 30.0
    ensures var meta := map[0 := FreshMeta(0), 1 := FreshMeta(1)];
            TotalHeight(meta, minHeight, Buckets(meta, [0, 1], 2), 2, 7.0) == 57.0
  {
    var meta := map[0 := FreshMeta(0), 1 := FreshMeta(1)];
    TwoRowsBuckets();
    assert RowHeight(meta, minHeight, [0]) == 20.0;
    assert RowHeight(meta, minHeight, [1]) == 30.0;
    TotalHeightSnoc(meta, minHeight, [], [0], 2, 7.0);
    assert TotalHeight(meta, minHeight, [[0]], 2, 7.0) == 27.0 by {
      assert [] + [[0]] == [[0]];
    }
    TotalHeightSnoc(meta, minHeight, [[0]], [1], 2, 7.0);
  }

  /** Widgets 0 and 1 on rows 0 and 1 are bucketed one per row. */
  lemma TwoRowsBuckets()
    ensures var meta := map[0 := FreshMeta(0), 1 := FreshMeta(1)];
            Buckets(meta, [0, 1], 2) == [] + [[0]] + [[1]]
  {
    var meta := map[0 := FreshMeta(0), 1 := FreshMeta(1)];
    assert [0, 1][..1] == [0];
    var rs := Buckets(meta, [0, 1], 2);
    assert rs[0] == [0];
    assert rs[1] == [1];
  }

  /** A widget with fixed size 50 x 40, alone in a row of width 300, gets exactly that size. */
  lemma FixedScenario(minHeight: Widget -> real)
    ensures var meta := map[0 := FlowMeta(0, Some(Size(50.0, 40.0)), None, None)];
            LayoutRows(meta, minHeight, Buckets(meta, [0], 1), 300.0, 7.0, 7.0).log
            == [Placed(0, Size(50.0, 40.0), Position(0.0, 0.0))]
  {
    var meta := map[0 := FlowMeta(0, Some(Size(50.0, 40.0)), None, None)];
    var ws: seq<Widget> := [0];
    assert Bucket(meta, [0], 0) == ws;
    assert Buckets(meta, [0], 1) == [] + [ws];
    LayoutRowsSnoc(meta, minHeight, [], ws, 300.0, 7.0, 7.0);
  }
}
