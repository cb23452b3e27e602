/** Values shared by the row-layout engine: lengths, per-widget metadata and
    the record of one Resize/Move pair applied to a widget. */
module FlowTypes {

  datatype Option<T> = None | Some(value: T)

  /** A width/height pair. Lengths are exact reals rather than float32. */
  datatype Size = Size(width: real, height: real)

  /** An x/y pair; also used for a per-widget gap override (x: horizontal, y: vertical). */
  datatype Position = Position(x: real, y: real)

  /** A widget is known to the layout only through its identity. */
  type Widget = nat

  /** The metadata kept for one registered widget: its row and the three
      optional overrides (fixed size, fixed X position, gap). */
  datatype FlowMeta = FlowMeta(row: nat, size: Option<Size>, move: Option<Position>, gap: Option<Position>)

  /** The metadata of a widget freshly placed on row `row`, with no override set. */
  function FreshMeta(row: nat): FlowMeta {
    FlowMeta(row, None, None, None)
  }

  /** The metadata table, keyed by widget identity. */
  type Meta = map<Widget, FlowMeta>

  /** One Resize followed by one Move, as the layout pass applies them to a widget. */
  datatype Placed = Placed(widget: Widget, size: Size, pos: Position)

  /** Every stored row index is below the row counter `count`. */
  ghost predicate RowsBelow(meta: Meta, count: nat) {
    forall w :: w in meta ==> meta[w].row < count
  }
}
