# SmartFlowLayout in Dafny

This project models the row-layout engine `SmartFlowLayout` of the `mgsmartflow`
Go package. The engine arranges widgets into explicitly numbered rows and keeps
three pieces of state:

- a metadata table from widget to its row, with an optional fixed size, an
  optional fixed X position ("move") and an optional gap override;
- a row counter;
- two global gaps, which default to 7.

Widgets are registered with `AddRow` and `AddColumn`. The setters `SetGap`,
`SetResize` and `SetMove` register an unknown widget on a fresh row as a side
effect. `Layout` works in two steps:

1. It sorts the widgets it is given into per-row buckets, in input order.
2. It walks the rows in index order and skips empty ones. For each other row:
   - it measures the row height, the total fixed width and the number of
     auto-width widgets;
   - it splits the width that remains, clamped at zero, equally among the
     auto widgets;
   - it resizes and moves the widgets left to right with a running X cursor;
   - it moves the baseline down by the row height plus a vertical gap. That
     gap is the first positive per-widget override in the row, else the global
     gap.

`MinSize` does the same bucketing and returns width 0 with the summed row
heights plus global gaps.

The model has five modules:

- `FlowTypes` (`flow_types.dfy`): the values. Widgets are `nat` identities,
  lengths are `real`, and there is the per-widget `FlowMeta` record.
- `FlowSpec` (`flow_spec.dfy`): the two passes as pure functions over the
  metadata and the row buffer. They are defined on prefixes, in the order the
  engine's loops visit rows and widgets.
- `FlowLayout` (`flow_layout.dfy`): the engine as a class. Its fields are
  `meta`, `rows`, `row`, `gapX` and `gapY`, updated in place by its methods,
  and it keeps the invariant that every stored row index is below the
  counter. The loops of `Layout` and `MinSize` are proved to compute the
  `FlowSpec` functions.
- `FlowProps` (`flow_props.dfy`): properties of those functions. They cover
  bucketing, width distribution, placement, the vertical gap, the final
  widget state and the two height computations.
- `FlowExamples` (`flow_examples.dfy`): three worked scenarios, driven
  through the class.

The calls a widget receives (`Resize` followed by `Move`) are returned as a
log of `Placed` records, in call order. `FlowSpec.Applied` folds that log into
the size and position each widget ends up with; a later call overwrites an
earlier one. A widget's reported minimum height, the only part of
`MinSize()` the engine reads, is a parameter `minHeight: Widget -> real`.

One might expect `MinSize` to put the global gap only between consecutive
non-empty rows, never after the last one. The code instead adds the gap after
every non-empty row whose index is not `row - 1` (mgsmartflow.go:202). So
when the highest-numbered rows are empty, the height ends with a trailing
gap. The model follows the code:

- `FlowProps.TotalHeightFormula` states the height in closed form.
- `FlowProps.TrailingGapWhenLastRowEmpty` shows the trailing gap.

## Model

| member | source | states |
|---|---|---|
| FlowLayout.SmartFlowLayout.constructor | mgsmartflow.go:34-40 | A new engine has an empty table, no rows, a zero counter and both gaps equal to 7 |
| FlowLayout.SmartFlowLayout.SetGlobalGap | mgsmartflow.go:44-47 | Sets both global gaps and leaves the table, the buffer and the counter alone |
| FlowLayout.SmartFlowLayout.EnsureMeta | mgsmartflow.go:221-227 | An unknown widget gets an entry on the old counter with no override and the counter grows by one; a known widget's entry is returned and nothing changes |
| FlowLayout.SmartFlowLayout.SetGap | mgsmartflow.go:49-52 | Overwrites only the gap of the widget's (possibly new) entry; its row, size and move are kept; the counter grows only for a new widget |
| FlowLayout.SmartFlowLayout.SetResize | mgsmartflow.go:54-57 | Overwrites only the fixed size of the widget's (possibly new) entry; row, move and gap are kept |
| FlowLayout.SmartFlowLayout.SetMove | mgsmartflow.go:59-62 | Overwrites only the move of the widget's (possibly new) entry; row, size and gap are kept |
| FlowLayout.SmartFlowLayout.AddRow | mgsmartflow.go:66-69 | Replaces the widget's entry with a fresh one on the old counter and increments the counter once |
| FlowLayout.SmartFlowLayout.AddColumn | mgsmartflow.go:71-76 | Every listed widget gets a fresh entry on the same row, the old counter; other entries are untouched; the counter grows by exactly one, even for an empty list; every row index stays below the counter |
| FlowLayout.SmartFlowLayout.PrepareRows | mgsmartflow.go:212-219 | Afterwards the buffer has at least `row` buckets and the first `row` are empty; a long enough buffer keeps its length and its later buckets |
| FlowLayout.SmartFlowLayout.FillRows | mgsmartflow.go:81-87 | Bucket `r` of the buffer holds the registered widgets of the input on row `r`, in input order; indexing the buffer by a stored row is always in range |
| FlowLayout.SmartFlowLayout.MeasureRow | mgsmartflow.go:97-115 | The loop yields the row height, the total fixed width and the auto count of the row |
| FlowLayout.SmartFlowLayout.PlaceRowAt | mgsmartflow.go:127-154 | The loop's Resize/Move calls are exactly those of `PlaceRow` for the row |
| FlowLayout.SmartFlowLayout.RowGapYOf | mgsmartflow.go:156-162 | The scan with early exit yields the row's vertical gap, `RowGapY` |
| FlowLayout.SmartFlowLayout.LayoutRow | mgsmartflow.go:97-164 | One row is placed with the clamped, equally split auto width, and the baseline moves down by its height plus its vertical gap |
| FlowLayout.SmartFlowLayout.LayoutBuffer | mgsmartflow.go:89-165 | The row loop makes exactly the calls of `LayoutRows` over the buffer and ends on its baseline |
| FlowLayout.SmartFlowLayout.Layout | mgsmartflow.go:80-166 | A layout pass makes exactly the calls of `LayoutRows` over the buckets of the input; the table, the counter and the gaps are unchanged |
| FlowLayout.SmartFlowLayout.RowHeightOf | mgsmartflow.go:186-198 | The height-only loop of the minimum-size pass yields `RowHeight` of the row, the same measure the layout pass uses (its meaning is stated by `RowHeightIsMax`) |
| FlowLayout.SmartFlowLayout.MinHeightOf | mgsmartflow.go:178-205 | The accumulation loop yields `TotalHeight` of the buffer |
| FlowLayout.SmartFlowLayout.MinSize | mgsmartflow.go:169-208 | The minimum size has width 0 and height `TotalHeight` over the buckets of the input; the table, the counter and the gaps are unchanged |
| FlowSpec.Bucket | mgsmartflow.go:83-87 | A bucket is no longer than the input and holds only registered widgets of its own row |
| FlowSpec.Buckets | mgsmartflow.go:83-87 | The buffer has one bucket per row and every bucket holds registered widgets only |
| FlowSpec.RowHeight | mgsmartflow.go:97-115 | The row height is never negative |
| FlowSpec.AutoCount | mgsmartflow.go:99-110 | The auto count never exceeds the row length |
| FlowSpec.TimesIsProduct | mgsmartflow.go:117 | Repeated addition of the gap equals the product the code computes |
| FlowSpec.GapsWidthIsProduct | mgsmartflow.go:117 | The gaps of an `n`-widget row take `gapX * (n - 1)` |
| FlowSpec.Remain | mgsmartflow.go:117-120 | The remaining width is never negative |
| FlowSpec.AutoWidth | mgsmartflow.go:122-125 | The auto width is never negative |
| FlowSpec.PlaceRow | mgsmartflow.go:127-154 | A row makes one Resize/Move pair per widget |
| FlowSpec.PlaceRowEntries | mgsmartflow.go:129-153 | The k-th call is for the k-th widget. It gives the fixed size if set, else the auto width and row height. X is the move override if set, else the width-plus-gap sum of the earlier widgets, overrides or not. Y is always the baseline |
| FlowSpec.LayoutRowsSnoc | mgsmartflow.go:91-165 | One more row extends the pass: an empty row changes nothing, a non-empty one appends its calls and moves the baseline down by its height and vertical gap |
| FlowSpec.TotalHeightSnoc | mgsmartflow.go:180-205 | One more row adds its height plus the global gap unless its index is `count - 1`; an empty row adds nothing |
| FlowProps.AutoWidthFillsRow | mgsmartflow.go:117-125 | If fixed widths and gaps fit, the auto widgets fill the rest exactly. If they do not fit, or there is no auto widget, the auto width is 0 |
| FlowProps.AutoCountAll | mgsmartflow.go:105-110 | The auto count equals the row length exactly when no widget in the row has a fixed size |
| FlowProps.FixedWidthAllAuto | mgsmartflow.go:105-108 | A row without fixed sizes has zero fixed width |
| FlowProps.CursorUniform | mgsmartflow.go:127-153 | Without overrides, the cursor moves by auto width plus gap per widget |
| FlowProps.RowFillsWidth | mgsmartflow.go:117-153 | In a row without overrides whose gaps fit, the last widget ends exactly at the container width |
| FlowProps.RowSpacing | mgsmartflow.go:142-153 | Two neighbours without move overrides are exactly the first one's width plus its gap apart; without a move override the first widget starts at 0 |
| FlowProps.RowStartsAtZero | mgsmartflow.go:127-146 | In every non-empty row, including a one-widget row, the first widget without a move override is moved to X = 0 |
| FlowProps.RowKeepsOverrides | mgsmartflow.go:132-146 | Every call of a row gives a widget with a fixed size exactly that size, and a widget with a move override its X |
| FlowProps.LayoutKeepsOverrides | mgsmartflow.go:80-166 | Every call of a whole layout pass respects the fixed size and the move X of the widget it names |
| FlowProps.RowHeightIsMax | mgsmartflow.go:101-115 | The row height is at least every widget's effective height (fixed height, else minimum height) and equals one of them, or is 0 |
| FlowProps.RowGapYDefault | mgsmartflow.go:156-162 | A row without a positive vertical override is followed by the global vertical gap |
| FlowProps.RowGapYFirst | mgsmartflow.go:156-162 | Otherwise the first positive vertical override in the row wins, whatever later widgets carry |
| FlowProps.BucketMembers | mgsmartflow.go:83-87 | A widget is in bucket `r` exactly when it is in the input, registered, and on row `r`; unregistered widgets are skipped |
| FlowProps.BucketAppend | mgsmartflow.go:83-87 | Bucketing distributes over concatenation, so each bucket keeps input order |
| FlowProps.BucketsSnoc | mgsmartflow.go:83-87 | One more input widget is appended to the end of its own row's bucket if it is registered; otherwise the buffer is unchanged |
| FlowProps.BucketsFlatten | mgsmartflow.go:83-87 | With every row index below the counter, the buckets together hold each registered input widget as often as it occurs, and nothing else |
| FlowProps.RegistrantsMembers | mgsmartflow.go:83-87 | A widget is among the registrants exactly when it is in the input and registered |
| FlowProps.PlacedWidgetsSnoc | mgsmartflow.go:129-153 | One more row adds exactly its widgets, in order, to the widgets the pass places |
| FlowProps.LayoutRowsWidgets | mgsmartflow.go:91-165 | The pass places the widgets of the rows row after row, each left to right |
| FlowProps.LayoutPlacesRegistered | mgsmartflow.go:80-166 | A layout pass resizes and moves each registered input widget as often as it occurs, and no other widget |
| FlowProps.AppliedLast | mgsmartflow.go:140-146 | After the calls, a widget has been placed exactly when some call names it; it keeps the placement of the last such call |
| FlowProps.AppliedKeys | mgsmartflow.go:140-146 | Calls naming the widgets of a list leave exactly those widgets placed |
| FlowProps.LayoutTouchesRegistered | mgsmartflow.go:80-166 | After a layout pass, the widgets resized and moved are exactly the registered widgets of the input |
| FlowProps.OverridesAfterPlacement | mgsmartflow.go:132-146 | After a layout pass, a placed widget with a fixed size ends with exactly that size, and one with a move override ends at that X |
| FlowProps.BaselineSnoc | mgsmartflow.go:156-164 | Without positive vertical overrides, one more non-empty row moves the baseline by its height plus the global gap |
| FlowProps.BaselineStep | mgsmartflow.go:156-164 | The baseline formula survives one more row without positive vertical overrides |
| FlowProps.LayoutBaseline | mgsmartflow.go:89-165 | Without positive vertical overrides, the final baseline is the sum of row heights plus one global gap per non-empty row; empty rows add nothing |
| FlowProps.TotalHeightFormula | mgsmartflow.go:178-205 | The minimum height is the sum of row heights plus one global gap per non-empty row, less one gap when row `count - 1` is itself non-empty |
| FlowProps.TrailingGapWhenLastRowEmpty | mgsmartflow.go:201-204 | When the last row is empty, the minimum height keeps a trailing gap after the last non-empty row |
| FlowProps.LayoutBaselineVsMinSize | mgsmartflow.go:156-205 | Without vertical overrides, the layout's final baseline exceeds the minimum height by exactly one gap if the last row is non-empty, and by nothing otherwise |
| FlowProps.ColumnScenario | mgsmartflow.go:117-153 | Two auto widgets in a row of width 207 with gap 7 are each 100 wide, at x = 0 and x = 107 |
| FlowProps.TwoRowsScenario | mgsmartflow.go:178-205 | Two single-widget rows of heights 20 and 30 need a height of 57 |
| FlowProps.TwoRowsBuckets | mgsmartflow.go:172-176 | Widgets registered on rows 0 and 1 are bucketed one per row, in row order |
| FlowProps.FixedScenario | mgsmartflow.go:132-146 | A widget with a fixed size of 50 x 40 gets exactly that size at x = 0 |
| FlowExamples.ColumnExample | mgsmartflow.go:71-166 | `AddColumn` of two widgets then `Layout` at width 207 gives both widths of 100 at x = 0 and x = 107 |
| FlowExamples.TwoRowsExample | mgsmartflow.go:66-208 | Two `AddRow` calls then `MinSize` gives width 0 and height 20 + 7 + 30 |
| FlowExamples.FixedExample | mgsmartflow.go:54-166 | `SetResize` registers the widget on row 0, and `Layout` gives it exactly its fixed size |

## Left out

- The `SmartFlow` container wrapper (mgsmartflow.go:229 onwards) is not part of this model. It only forwards to the layout and calls the toolkit's `Add` and `Refresh`.
- Toolkit types and calls are not modelled. Widgets are `nat` identities. A widget's reported minimum height is the parameter `minHeight`. `Resize` and `Move` are records in a returned log rather than calls on widget objects.
- `float32` arithmetic and rounding are not modelled; lengths are exact reals. The equal split of the remaining width is therefore exact.
- `PrepareRows` does not model slice capacity or the reuse of the old backing arrays. Only the observable post-state is modelled: enough buckets, the first `row` of them empty.
- The metadata table holds values rather than pointers. The setters in the source edit the entry through the pointer `ensureMeta` returns, and the model replaces the entry with an updated copy. No other code holds those pointers, so aliasing is not modelled.
- `Layout` takes the container size but ignores its height, as the source does (only the width is read).
- FlowProps.RowFillsWidth: stated only for rows with no fixed size, move or gap override. With a gap override the gaps actually used differ from `gapX * (n - 1)`, so the row no longer ends at the container width.
- FlowProps.LayoutBaseline: stated only for layouts without positive vertical gap overrides. With overrides the per-row gap is given by `FlowProps.RowGapYFirst` instead.
