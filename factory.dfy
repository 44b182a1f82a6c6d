/** `plugin.create`: turns one parameter object into a list of trial records,
    one per target configuration, with defaults for the optional numbers. */
module Factory {

  datatype Option<T> = None | Some(value: T)

  const DefaultGridSpacing := 75
  const DefaultSquareSize := 3
  const DefaultCircleRadius := 20
  const DefaultTimingItem := 1000
  const DefaultTimingPostTrial := 1000

  /** A number passed as a parameter is truthy when it is present and not 0. */
  predicate Truthy(o: Option<int>)
  {
    o.Some? && o.value != 0
  }

  /** `o || d` for a numeric parameter. */
  function OrDefault(o: Option<int>, d: int): int
  {
    if Truthy(o) then o.value else d
  }

  /** What the experiment passes to `create`; `None` is an absent (undefined) field.
      `data` is a per-trial payload of any type. */
  datatype Params<D> = Params(
    configurations: seq<seq<int>>,
    editable: bool,
    gridSpacing: Option<int>,
    squareSize: Option<int>,
    circleRadius: Option<int>,
    timingItem: Option<int>,
    timingPostTrial: Option<int>,
    data: Option<seq<D>>)

  /** One trial record as `create` builds it. */
  datatype TrialParams = TrialParams(
    trialType: string,
    configurations: seq<int>,
    editable: bool,
    gridSpacing: int,
    squareSize: int,
    circleRadius: int,
    timingItem: int,
    timingPostTrial: int)

  /** One trial per configuration, in order; every other field is shared. The
      per-trial `data` is merged into a fresh object that is then dropped, so
      no record carries it. */
  method Create<D>(params: Params<D>) returns (trials: seq<TrialParams>)
    ensures |trials| == |params.configurations|
    ensures forall i :: 0 <= i < |trials| ==>
      trials[i].trialType == "palmer" &&
      trials[i].configurations == params.configurations[i] &&
      trials[i].editable == params.editable
    ensures forall i :: 0 <= i < |trials| ==>
      trials[i].gridSpacing == (if Truthy(params.gridSpacing) then params.gridSpacing.value else DefaultGridSpacing) &&
      trials[i].squareSize == (if Truthy(params.squareSize) then params.squareSize.value else DefaultSquareSize) &&
      trials[i].circleRadius == (if Truthy(params.circleRadius) then params.circleRadius.value else DefaultCircleRadius) &&
      trials[i].timingItem == (if Truthy(params.timingItem) then params.timingItem.value else DefaultTimingItem) &&
      trials[i].timingPostTrial == (if Truthy(params.timingPostTrial) then params.timingPostTrial.value else DefaultTimingPostTrial)
    ensures forall i :: 0 <= i < |trials| ==>
      trials[i].gridSpacing != 0 && trials[i].squareSize != 0 && trials[i].circleRadius != 0 &&
      trials[i].timingItem != 0 && trials[i].timingPostTrial != 0
    ensures forall i, j :: 0 <= i < |trials| && 0 <= j < |trials| ==>
      trials[i].(configurations := []) == trials[j].(configurations := [])
  {
    trials := [];
    var i := 0;
    while i < |params.configurations|
      invariant 0 <= i <= |params.configurations|
      invariant |trials| == i
      invariant forall k :: 0 <= k < i ==> trials[k] == TrialParams(
        "palmer", params.configurations[k], params.editable,
        OrDefault(params.gridSpacing, DefaultGridSpacing),
        OrDefault(params.squareSize, DefaultSquareSize),
        OrDefault(params.circleRadius, DefaultCircleRadius),
        OrDefault(params.timingItem, DefaultTimingItem),
        OrDefault(params.timingPostTrial, DefaultTimingPostTrial))
    {
      var trial := TrialParams(
        "palmer", params.configurations[i], params.editable,
        OrDefault(params.gridSpacing, DefaultGridSpacing),
        OrDefault(params.squareSize, DefaultSquareSize),
        OrDefault(params.circleRadius, DefaultCircleRadius),
        OrDefault(params.timingItem, DefaultTimingItem),
        OrDefault(params.timingPostTrial, DefaultTimingPostTrial));
      trials := trials + [trial];
      i := i + 1;
    }
  }
}
