/** One running trial of the plugin: the 0/1 visibility entry of every segment,
    the two-click selection of a segment, showing a target configuration, and
    the result record with its correctness flag. */
module Session {
  import opened Connectors
  import opened Geometry
  import opened Factory

  // ---------------------------------------------------------------------------
  // Visibility vectors

  /** The value `toggle_line` stores over an entry: 1 over a 0, and 0 over anything else. */
  function Flip(x: int): int
  {
    if x == 0 then 1 else 0
  }

  /** Every entry is 0 or 1. */
  predicate Binary(v: seq<int>)
  {
    forall i :: 0 <= i < |v| ==> v[i] == 0 || v[i] == 1
  }

  /** The visibility vector of a fresh trial: every segment hidden. */
  function Zeros(m: nat): seq<int>
  {
    seq(m, _ => 0)
  }

  /** The vector after toggling entry k; -1 leaves it as it is. */
  function Toggled(v: seq<int>, k: int): (r: seq<int>)
    requires -1 <= k < |v|
    ensures |r| == |v|
  {
    if k > -1 then v[k := Flip(v[k])] else v
  }

  /** A toggle of a real entry changes exactly that entry; on a 0/1 vector it
      turns 0 into 1 and 1 into 0 and keeps the vector 0/1. */
  lemma ToggleChangesExactly(v: seq<int>, k: int)
    requires 0 <= k < |v|
    ensures Toggled(v, k)[k] != v[k]
    ensures forall i :: 0 <= i < |v| && i != k ==> Toggled(v, k)[i] == v[i]
    ensures Binary(v) ==> Toggled(v, k)[k] == 1 - v[k] && Binary(Toggled(v, k))
  {
  }

  /** Toggling the same entry twice restores a 0/1 vector. */
  lemma ToggleTwice(v: seq<int>, k: int)
    requires Binary(v) && -1 <= k < |v|
    ensures Toggled(Toggled(v, k), k) == v
  {
  }

  /** The vector after `showConfiguration(c)`: every entry whose configuration
      value is 1 is toggled once; entries past the end of c are left alone. */
  function Shown(v: seq<int>, c: seq<int>): (r: seq<int>)
  {
    seq(|v|, i requires 0 <= i < |v| => if i < |c| && c[i] == 1 then Flip(v[i]) else v[i])
  }

  /** Showing a 0/1 configuration of the right length on a fresh trial
      makes the visibility vector equal to it. */
  lemma ShowFromZeros(c: seq<int>)
    requires Binary(c)
    ensures Shown(Zeros(|c|), c) == c
  {
  }

  /** In display mode the score compares the target with what showing it produced:
      it is true exactly when the target is 0/1 and no longer than the segment list. */
  lemma DisplayCorrect(c: seq<int>, m: nat)
    requires forall i :: m <= i < |c| ==> c[i] != 1
    ensures c <= Shown(Zeros(m), c) <==> |c| <= m && Binary(c)
  {
  }

  /** `arrayEqual(arr1, arr2)`: arr2 is compared only on the positions of arr1, and a
      position past the end of arr2 reads as undefined, which differs from every number. */
  method ArrayEqual(arr1: seq<int>, arr2: seq<int>) returns (equal: bool)
    ensures equal <==> arr1 <= arr2
  {
    var i := 0;
    while i < |arr1|
      invariant 0 <= i <= |arr1|
      invariant i <= |arr2| && arr1[..i] == arr2[..i]
    {
      if i >= |arr2| || arr1[i] != arr2[i] {
        return false;
      }
      i := i + 1;
    }
    assert arr1 == arr1[..i];
    return true;
  }

  // ---------------------------------------------------------------------------
  // Two-click selection

  /** Whether a first node has been clicked, and which. */
  datatype Selection = Idle | Started(start: int)

  /** What a click can change: the visibility vector and the selection. */
  datatype UiState = UiState(visible: seq<int>, selection: Selection)

  /** The effect of clicking `node`: the first click of a pair records it; the
      second toggles the segment between the two nodes, if there is one, and
      always ends the selection. */
  function Clicked(lines: seq<Line>, s: UiState, node: int): (t: UiState)
    requires |s.visible| == |lines|
    ensures |t.visible| == |lines|
  {
    match s.selection
    case Idle => UiState(s.visible, Started(node))
    case Started(start) => UiState(Toggled(s.visible, LineIndex(lines, start, node)), Idle)
  }

  /** Clicks x and then y, starting with no selection. */
  function ClickPair(lines: seq<Line>, v: seq<int>, x: int, y: int): (t: UiState)
    requires |v| == |lines|
    ensures |t.visible| == |lines|
  {
    Clicked(lines, Clicked(lines, UiState(v, Idle), x), y)
  }

  /** On the generated grid, a pair of clicks toggles exactly the segment between the
      two nodes when they are neighbours, changes nothing otherwise, and ends idle. */
  lemma ClickPairEffect(n: nat, v: seq<int>, x: int, y: int)
    requires |v| == |Lines(n)|
    ensures var t := ClickPair(Lines(n), v, x, y);
      t.selection == Idle &&
      (t.visible != v <==> Neighbours(n, x, y)) &&
      (Neighbours(n, x, y) ==> Connects(Lines(n)[LineIndex(Lines(n), x, y)], x, y)) &&
      forall k :: 0 <= k < |v| && k != LineIndex(Lines(n), x, y) ==> t.visible[k] == v[k]
  {
    GridLookup(n, x, y);
    var k := LineIndex(Lines(n), x, y);
    if k >= 0 {
      ToggleChangesExactly(v, k);
    }
  }

  /** Clicking the same node twice changes no visibility entry. */
  lemma ClickSameNodeTwice(n: nat, v: seq<int>, node: int)
    requires |v| == |Lines(n)|
    ensures ClickPair(Lines(n), v, node, node) == UiState(v, Idle)
  {
    LinesWellFormed(n);
    LineIndexSelf(Lines(n), node);
  }

  /** The order of the two clicks does not matter. */
  lemma ClickPairSymmetric(lines: seq<Line>, v: seq<int>, x: int, y: int)
    requires |v| == |lines|
    ensures ClickPair(lines, v, x, y) == ClickPair(lines, v, y, x)
  {
  }

  /** Repeating a pair of clicks undoes it on a 0/1 vector. */
  lemma ClickPairTwice(lines: seq<Line>, v: seq<int>, x: int, y: int)
    requires |v| == |lines| && Binary(v)
    ensures ClickPair(lines, ClickPair(lines, v, x, y).visible, x, y) == UiState(v, Idle)
  {
  }

  /** On a fresh grid of side at least two, clicking node 0 and then node 1 shows
      exactly the first segment of the list. */
  lemma ClickFirstSegment(n: nat)
    requires n >= 2
    ensures |Lines(n)| > 0 && ClickPair(Lines(n), Zeros(|Lines(n)|), 0, 1) == UiState(Zeros(|Lines(n)|)[0 := 1], Idle)
  {
    FirstHorizontal(n);
  }

  // ---------------------------------------------------------------------------
  // The trial

  /** The result record a trial hands to the host. */
  datatype TrialData = TrialData(trialType: string, trialIndex: int, configuration: seq<int>, rt: int, correct: bool)

  /** The grid side the plugin's loops use: a bound below 0 runs them zero times. */
  function Side(squareSize: int): nat
  {
    if squareSize < 0 then 0 else squareSize
  }

  class Trial {
    const trial: TrialParams
    const n: nat
    const size: int
    const centres: seq<Point>
    const lines: seq<Line>
    /** 0 or 1 per segment of `lines`, the plugin's `lineIsVisible`. */
    const visible: array<int>
    var lineStarted: bool
    var startCircle: int
    var endCircle: int

    ghost predicate Valid()
      reads this, visible
    {
      lines == Lines(n) && visible.Length == |lines| && Binary(visible[..])
    }

    /** The visibility vector and the selection, as a value. */
    function State(): UiState
      reads this, visible
    {
      UiState(visible[..], if lineStarted then Started(startCircle) else Idle)
    }

    /** Sets up a trial: nodes, segments all hidden, and in display mode the
        target configuration shown. */
    constructor (trial: TrialParams)
      requires !trial.editable ==>
        forall i :: |Lines(Side(trial.squareSize))| <= i < |trial.configurations| ==> trial.configurations[i] != 1
      ensures Valid() && fresh(visible)
      ensures this.trial == trial && n == Side(trial.squareSize)
      ensures size == CanvasSize(trial.gridSpacing, trial.squareSize)
      ensures |centres| == n * n
      ensures forall k :: 0 <= k < n * n ==> centres[k] == NodeCentre(trial.gridSpacing, n, k)
      ensures State() == UiState(
        if trial.editable then Zeros(|lines|) else Shown(Zeros(|lines|), trial.configurations), Idle)
      ensures startCircle == -1 && endCircle == -1
    {
      this.trial := trial;
      var side := Side(trial.squareSize);
      n := side;
      size := CanvasSize(trial.gridSpacing, trial.squareSize);
      startCircle, endCircle, lineStarted := -1, -1, false;
      var nodes := LayoutNodes(trial.gridSpacing, side);
      centres := nodes;
      var generated := GenerateLines(side);
      lines := generated;
      var v := new int[|generated|];
      var i := 0;
      while i < |generated|
        invariant 0 <= i <= |generated|
        invariant forall k :: 0 <= k < i ==> v[k] == 0
      {
        v[i] := 0;
        i := i + 1;
      }
      assert v[..] == Zeros(|generated|);
      visible := v;
      new;
      if !trial.editable {
        ShowConfiguration(trial.configurations);
      }
    }

    /** `toggle_line`: flips entry theLine; -1 changes nothing. */
    method ToggleLine(theLine: int)
      requires Valid() && -1 <= theLine < |lines|
      modifies visible
      ensures Valid()
      ensures visible[..] == Toggled(old(visible[..]), theLine)
    {
      if theLine > -1 {
        if visible[theLine] == 0 {
          visible[theLine] := 1;
        } else {
          visible[theLine] := 0;
        }
      }
    }

    /** `showConfiguration`: toggles every segment whose configuration value is 1. */
    method ShowConfiguration(configuration: seq<int>)
      requires Valid()
      requires forall i :: visible.Length <= i < |configuration| ==> configuration[i] != 1
      modifies visible
      ensures Valid()
      ensures visible[..] == Shown(old(visible[..]), configuration)
    {
      var i := 0;
      while i < |configuration|
        invariant 0 <= i <= |configuration|
        invariant Valid()
        invariant forall k :: 0 <= k < visible.Length ==>
          visible[k] == if k < i && configuration[k] == 1 then Flip(old(visible[k])) else old(visible[k])
      {
        if configuration[i] == 1 {
          ToggleLine(i);
        }
        i := i + 1;
      }
    }

    /** `draw_connection`: toggles the segment between the two nodes, if any, and
        ends the selection. Its parameters shadow the shared start and end nodes,
        so those keep their values. */
    method DrawConnection(startNode: int, endNode: int)
      requires Valid()
      modifies this, visible
      ensures Valid()
      ensures visible[..] == Toggled(old(visible[..]), LineIndex(lines, startNode, endNode))
      ensures !lineStarted && startCircle == old(startCircle) && endCircle == old(endCircle)
    {
      var theLine := GetLineIndex(lines, startNode, endNode);
      if theLine > -1 {
        ToggleLine(theLine);
      }
      lineStarted := false;
    }

    /** The click handler of a node; nodes get one only in an editable trial. */
    method Click(node: int)
      requires Valid() && trial.editable
      modifies this, visible
      ensures Valid()
      ensures State() == Clicked(lines, old(State()), node)
      ensures if old(lineStarted) then startCircle == old(startCircle) && endCircle == node
              else startCircle == node && endCircle == old(endCircle)
    {
      if !lineStarted {
        lineStarted := true;
        startCircle := node;
      } else {
        endCircle := node;
        DrawConnection(startCircle, endCircle);
      }
    }

    /** `save_data`: the record handed to the host. The clock readings are parameters. */
    method SaveData(trialIndex: int, startTime: int, endTime: int) returns (data: TrialData)
      requires Valid()
      ensures data.trialType == "palmer" && data.trialIndex == trialIndex
      ensures data.configuration == visible[..] && data.rt == endTime - startTime
      ensures data.correct <==> trial.configurations <= visible[..]
    {
      var responseTime := endTime - startTime;
      var correct := ArrayEqual(trial.configurations, visible[..]);
      data := TrialData("palmer", trialIndex, visible[..], responseTime, correct);
    }
  }

  /** A display-mode trial from start to the timer's `save_data`: a 0/1 target of
      the segment count is recorded as the configuration and scored correct. */
  method RunDisplayTrial(trial: TrialParams, trialIndex: int, startTime: int, endTime: int) returns (data: TrialData)
    requires !trial.editable && Binary(trial.configurations)
    requires |trial.configurations| == |Lines(Side(trial.squareSize))|
    ensures data.correct && data.configuration == trial.configurations
    ensures data.trialIndex == trialIndex && data.rt == endTime - startTime
  {
    var t := new Trial(trial);
    ShowFromZeros(trial.configurations);
    data := t.SaveData(trialIndex, startTime, endTime);
  }
}
