/** Worked uses of the engine as a client drives it: register widgets, then
    run a layout or a minimum-size pass. */
module FlowExamples {
  import opened FlowTypes
  import opened FlowSpec
  import opened FlowProps
  import opened FlowLayout

  /** Two widgets added as one column, laid out at width 207 with the default
      gaps, share the row equally: 100 wide each, at x = 0 and x = 107. */
  method ColumnExample(minHeight: Widget -> real) returns (log: seq<Placed>)
    requires minHeight(0) == 20.0 && minHeight(1) == 20.0
    ensures log == [Placed(0, Size(100.0, 20.0), Position(0.0, 0.0)), Placed(1, Size(100.0, 20.0), Position(107.0, 0.0))]
  {
    var l := new SmartFlowLayout();
    l.AddColumn([0, 1]);
    assert l.meta == map[0 := FreshMeta(0), 1 := FreshMeta(0)];
    log := l.Layout([0, 1], Size(207.0, 50.0), minHeight);
    ColumnScenario(minHeight);
  }

  /** Two widgets added as rows of their own need the height of both plus one gap. */
  method TwoRowsExample(minHeight: Widget -> real) returns (s: Size)
    requires minHeight(0) == 20.0 && minHeight(1) == 30.0
    ensures s == Size(0.0, 57.0)
  {
    var l := new SmartFlowLayout();
    l.AddRow(0);
    l.AddRow(1);
    assert l.meta == map[0 := FreshMeta(0), 1 := FreshMeta(1)];
    s := l.MinSize([0, 1], minHeight);
    TwoRowsScenario(minHeight);
  }

  /** A widget registered through `SetResize` takes a row of its own and is
      given exactly its fixed size. */
  method FixedExample(minHeight: Widget -> real) returns (log: seq<Placed>)
    ensures log == [Placed(0, Size(50.0, 40.0), Position(0.0, 0.0))]
  {
    var l := new SmartFlowLayout();
    l.SetResize(0, Size(50.0, 40.0));
    assert l.meta == map[0 := FlowMeta(0, Some(Size(50.0, 40.0)), None, None)];
    log := l.Layout([0], Size(300.0, 50.0), minHeight);
    FixedScenario(minHeight);
  }
}
