/**
 The editor's state machine: the active dots, the traced path, the drawing
 mode and the last export, with the operations the canvas and the buttons
 trigger.
 */
module Editor {
  import opened Wrappers
  import opened Cells
  import opened Paths
  import opened Export

  /** `drawMode`: `'dots'` or `'line'`. */
  datatype Mode = Dots | Line

  /** The component state; `output` is None while it is the empty object `{}`. */
  datatype State = State(dots: seq<Cell>, points: seq<Cell>, mode: Mode, output: Option<ExportedLevel>)

  /** The state on mount. */
  const Initial: State := State([], [], Dots, None)

  /** `addDot`: in dots mode, append the cell as a new dot; otherwise nothing. */
  function AddDot(s: State, c: Cell): (r: State)
    ensures s.mode != Dots ==> r == s
    ensures s.mode == Dots ==> |r.dots| == |s.dots| + 1 && r.dots[..|s.dots|] == s.dots && r.dots[|s.dots|] == c
    ensures r.points == s.points && r.mode == s.mode && r.output == s.output
  {
    if s.mode != Dots then s else s.(dots := s.dots + [c])
  }

  /** The dots that do not sit at `c`, in their original order. */
  function Without(s: seq<Cell>, c: Cell): (r: seq<Cell>)
    ensures forall d :: d in r <==> d in s && d != c
  {
    if |s| == 0 then []
    else (if s[0] == c then [] else [s[0]]) + Without(s[1..], c)
  }

  /** `Without` keeps every other dot as often as it occurred and drops every copy of `c`. */
  lemma {:induction false} WithoutCounts(s: seq<Cell>, c: Cell)
    ensures multiset(Without(s, c)) == multiset(s)[c := 0]
  {
    if |s| > 0 {
      assert s == [s[0]] + s[1..];
      WithoutCounts(s[1..], c);
    }
  }

  /** `Without` distributes over concatenation, so it keeps the order of what it keeps. */
  lemma {:induction false} WithoutAppend(a: seq<Cell>, b: seq<Cell>, c: Cell)
    ensures Without(a + b, c) == Without(a, c) + Without(b, c)
  {
    if |a| > 0 {
      var head := if a[0] == c then [] else [a[0]];
      assert (a + b)[0] == a[0] && (a + b)[1..] == a[1..] + b;
      assert Without(a + b, c) == head + Without(a[1..] + b, c);
      WithoutAppend(a[1..], b, c);
      assert Without(a, c) == head + Without(a[1..], c);
    } else {
      assert a + b == b;
    }
  }

  /** Removing a cell that is not there changes nothing. */
  lemma {:induction false} WithoutAbsent(s: seq<Cell>, c: Cell)
    requires c !in s
    ensures Without(s, c) == s
  {
    if |s| > 0 {
      WithoutAbsent(s[1..], c);
    }
  }

  /** `removeDot`: in dots mode, drop every dot at the cell; otherwise nothing. */
  function RemoveDot(s: State, c: Cell): (r: State)
    ensures s.mode != Dots ==> r == s
    ensures s.mode == Dots ==> c !in r.dots && multiset(r.dots) == multiset(s.dots)[c := 0]
    ensures r.points == s.points && r.mode == s.mode && r.output == s.output
  {
    if s.mode != Dots then s
    else
      WithoutCounts(s.dots, c);
      s.(dots := Without(s.dots, c))
  }

  /** `drawLine`: in line mode, append the cell to the path; otherwise nothing. */
  function DrawLine(s: State, c: Cell): (r: State)
    ensures s.mode != Line ==> r == s
    ensures s.mode == Line ==> |r.points| == |s.points| + 1 && r.points[..|s.points|] == s.points && r.points[|s.points|] == c
    ensures r.dots == s.dots && r.mode == s.mode && r.output == s.output
  {
    if s.mode != Line then s else s.(points := s.points + [c])
  }

  /** `clear`: back to the state on mount, whatever the state was. */
  function Clear(s: State): (r: State)
    ensures r.dots == [] && r.points == [] && r.mode == Dots && r.output.None?
  {
    Initial
  }

  /** The mode buttons. */
  function SelectMode(s: State, m: Mode): (r: State)
    ensures r.mode == m && r.dots == s.dots && r.points == s.points && r.output == s.output
  {
    s.(mode := m)
  }

  /** `generate`: store the export of the current dots and path as the output. */
  function Generate(s: State, levelId: int): (r: State)
    ensures r.dots == s.dots && r.points == s.points && r.mode == s.mode
    ensures r.output.Some? && r.output.value.id == levelId && |r.output.value.points| == |s.dots|
  {
    s.(output := Some(Derive(s.dots, s.points, levelId)))
  }

  /**
   A tap on the canvas at cell `c` that reaches a circle. An active dot's
   circle is drawn above everything else, so it receives the tap: it removes
   the dot in dots mode and extends the path in line mode. Otherwise the tap
   reaches the grid circle, which adds a dot in dots mode. A tap that lands on
   the path's stroke instead is the `StrokeTap` event.
   */
  function Tap(s: State, c: Cell): (r: State)
    ensures c in s.dots && s.mode == Dots ==> c !in r.dots && r.points == s.points
    ensures c in s.dots && s.mode == Line ==> r.dots == s.dots && r.points == s.points + [c]
    ensures c !in s.dots && s.mode == Dots ==> r.dots == s.dots + [c] && r.points == s.points
    ensures c !in s.dots && s.mode == Line ==> r == s
    ensures r.mode == s.mode && r.output == s.output
  {
    if c in s.dots then
      (if s.mode == Dots then RemoveDot(s, c) else DrawLine(s, c))
    else AddDot(s, c)
  }

  /** Adding a dot that is not yet there and removing it again restores the state. */
  lemma AddThenRemove(s: State, c: Cell)
    requires c !in s.dots
    ensures RemoveDot(AddDot(s, c), c) == s
  {
    if s.mode == Dots {
      WithoutAppend(s.dots, [c], c);
      WithoutAbsent(s.dots, c);
      assert Without([c], c) == [];
    }
  }

  /** Removing a dot keeps the other dots in their original order. */
  lemma RemoveDotKeepsOrder(s: State, a: seq<Cell>, d: Cell, b: seq<Cell>, c: Cell)
    requires s.mode == Dots && s.dots == a + [d] + b && d != c
    ensures RemoveDot(s, c).dots == Without(a, c) + [d] + Without(b, c)
  {
    WithoutAppend(a + [d], b, c);
    WithoutAppend(a, [d], c);
    assert Without([d], c) == [d];
  }

  /** With distinct dots, removing the dot at position `k` splices exactly that dot out. */
  lemma RemoveDotSplices(s: State, k: nat)
    requires s.mode == Dots && NoDup(s.dots) && k < |s.dots|
    ensures RemoveDot(s, s.dots[k]).dots == s.dots[..k] + s.dots[k + 1..]
  {
    var c := s.dots[k];
    var a, b := s.dots[..k], s.dots[k + 1..];
    DistinctAround(s.dots, k);
    assert s.dots == a + [c] + b;
    WithoutSplice(a, c, b);
  }

  /** Filtering out the one copy of `c` between `a` and `b` leaves `a` followed by `b`. */
  lemma WithoutSplice(a: seq<Cell>, c: Cell, b: seq<Cell>)
    requires c !in a && c !in b
    ensures Without(a + [c] + b, c) == a + b
  {
    WithoutAppend(a + [c], b, c);
    WithoutAppend(a, [c], c);
    WithoutAbsent(a, c);
    WithoutAbsent(b, c);
    WithoutOwnCell(c);
    assert Without(a + [c], c) == a + [];
    assert a + [] == a;
  }

  lemma WithoutOwnCell(c: Cell)
    ensures Without([c], c) == []
  {
    assert [c][1..] == [];
  }

  /** In a sequence without repetitions, the element at `k` occurs neither before nor after `k`. */
  lemma DistinctAround(s: seq<Cell>, k: nat)
    requires NoDup(s) && k < |s|
    ensures s[k] !in s[..k] && s[k] !in s[k + 1..]
  {
    forall i | 0 <= i < k
      ensures s[..k][i] != s[k]
    {
      assert s[..k][i] == s[i];
    }
    var after := s[k + 1..];
    forall i | 0 <= i < |after|
      ensures after[i] != s[k]
    {
      assert after[i] == s[k + 1 + i];
    }
  }

  /** `clear` empties the export: generating right after it yields no points. */
  lemma ClearThenGenerate(s: State, levelId: int)
    ensures Generate(Clear(s), levelId).output == Some(ExportedLevel(levelId, []))
  {
  }

  /** With no dots, the export has no points, whatever the path. */
  lemma GenerateWithoutDots(s: State, levelId: int)
    requires s.dots == []
    ensures Generate(s, levelId).output.value.points == []
  {
  }

  /** A tap in line mode never changes the dots; it extends the path exactly when it hits an active dot. */
  lemma TapInLineMode(s: State, c: Cell)
    requires s.mode == Line
    ensures Tap(s, c).dots == s.dots && Tap(s, c).mode == Line && Tap(s, c).output == s.output
    ensures Tap(s, c).points == if c in s.dots then s.points + [c] else s.points
  {
  }

  /** A tap keeps the dots free of repetitions. */
  lemma TapKeepsDotsDistinct(s: State, c: Cell)
    requires NoDup(s.dots)
    ensures NoDup(Tap(s, c).dots)
  {
    if c in s.dots && s.mode == Dots {
      WithoutKeepsDistinct(s.dots, c);
    }
  }

  /** Removing every copy of a cell cannot introduce a repetition. */
  lemma {:induction false} WithoutKeepsDistinct(s: seq<Cell>, c: Cell)
    requires NoDup(s)
    ensures NoDup(Without(s, c))
  {
    if |s| > 0 {
      var rest := Without(s[1..], c);
      assert NoDup(s[1..]) by {
        forall i, j | 0 <= i < j < |s| - 1
          ensures s[1..][i] != s[1..][j]
        {
          assert s[1..][i] == s[i + 1] && s[1..][j] == s[j + 1];
        }
      }
      WithoutKeepsDistinct(s[1..], c);
      if s[0] != c {
        assert s[0] !in rest by {
          assert s[0] !in s[1..] by {
            forall k | 0 <= k < |s| - 1
              ensures s[1..][k] != s[0]
            {
              assert s[1..][k] == s[k + 1];
            }
          }
        }
        ConsDistinct(s[0], rest);
      }
    }
  }

  lemma ConsDistinct(x: Cell, r: seq<Cell>)
    requires NoDup(r) && x !in r
    ensures NoDup([x] + r)
  {
    forall i, j | 0 <= i < j < |r| + 1
      ensures ([x] + r)[i] != ([x] + r)[j]
    {
      if i > 0 {
        assert ([x] + r)[i] == r[i - 1];
      }
      assert ([x] + r)[j] == r[j - 1];
    }
  }

  /** In a sequence without repetitions every element occurs at most once. */
  lemma {:induction false} DistinctCount(s: seq<Cell>, d: Cell)
    requires NoDup(s)
    ensures multiset(s)[d] <= 1
  {
    if |s| > 0 {
      assert s == [s[0]] + s[1..];
      assert NoDup(s[1..]);
      DistinctCount(s[1..], d);
      if s[0] == d {
        assert d !in s[1..];
      }
    }
  }

  /**
   In dots mode, two taps on the same cell that both reach a circle restore
   the set of active dots (as a multiset: each dot once) and leave the path
   alone; when the cell was inactive, the dots come back in exactly the same
   order. When the drawn path crosses the removed dot, a second tap at its
   centre lands on the stroke instead (`StrokeTap`) and changes nothing.
   */
  lemma TapTwice(s: State, c: Cell)
    requires s.mode == Dots && NoDup(s.dots)
    ensures multiset(Tap(Tap(s, c), c).dots) == multiset(s.dots)
    ensures c !in s.dots ==> Tap(Tap(s, c), c).dots == s.dots
    ensures Tap(Tap(s, c), c).points == s.points && Tap(Tap(s, c), c).mode == Dots
  {
    if c in s.dots {
      DistinctCount(s.dots, c);
      assert multiset(s.dots)[c] == 1;
    } else {
      AddThenRemove(s, c);
    }
  }

  /**
   The user's inputs: a tap that reaches a circle, a tap on the path's stroke
   (which has no handler), and the buttons.
   */
  datatype Event = TapAt(cell: Cell) | StrokeTap | ModeButton(mode: Mode) | ClearButton | GenerateButton(levelId: int)

  /** The handler an event reaches. */
  function Step(s: State, e: Event): (r: State)
    ensures e.StrokeTap? ==> r == s
    ensures e.TapAt? || e.ModeButton? ==> r.output == s.output
    ensures e.ModeButton? || e.GenerateButton? ==> r.dots == s.dots && r.points == s.points
    ensures !e.ModeButton? && !e.ClearButton? ==> r.mode == s.mode
    ensures e.ClearButton? ==> r.dots == [] && r.points == [] && r.mode == Dots && r.output.None?
    ensures e.GenerateButton? ==> r.output.Some? && r.output.value.id == e.levelId
  {
    match e
    case TapAt(c) => Tap(s, c)
    case StrokeTap => s
    case ModeButton(m) => SelectMode(s, m)
    case ClearButton => Clear(s)
    case GenerateButton(levelId) => Generate(s, levelId)
  }

  /** The state after a session of events, handled in order. */
  function Run(s: State, events: seq<Event>): (r: State)
    ensures |events| == 0 ==> r == s
    ensures (forall i :: 0 <= i < |events| ==> !events[i].ModeButton? && !events[i].ClearButton?) ==> r.mode == s.mode
    decreases |events|
  {
    if |events| == 0 then s
    else
      assert forall i :: 0 <= i < |events| - 1 ==> events[1..][i] == events[i + 1];
      Run(Step(s, events[0]), events[1..])
  }

  /** A session split in two runs the second part from where the first left off. */
  lemma {:induction false} RunConcat(s: State, a: seq<Event>, b: seq<Event>)
    ensures Run(s, a + b) == Run(Run(s, a), b)
    decreases |a|
  {
    if |a| == 0 {
      assert a + b == b;
    } else {
      assert (a + b)[0] == a[0] && (a + b)[1..] == a[1..] + b;
      RunConcat(Step(s, a[0]), a[1..], b);
    }
  }

  /** Taps on the stroke never change the state, wherever they fall in a session. */
  lemma StrokeTapsIgnored(s: State, a: seq<Event>, b: seq<Event>)
    ensures Run(s, a + [StrokeTap] + b) == Run(s, a + b)
  {
    RunConcat(s, a + [StrokeTap], b);
    RunConcat(s, a, [StrokeTap]);
    RunConcat(s, a, b);
    assert Run(Run(s, a), [StrokeTap]) == Run(s, a) by {
      assert [StrokeTap][1..] == [];
    }
  }

  /** Active dots are distinct and every dot and path cell lies on the grid. */
  predicate WellFormed(s: State) {
    && NoDup(s.dots)
    && (forall d :: d in s.dots ==> InGrid(d))
    && (forall p :: p in s.points ==> InGrid(p))
  }

  /** Every tap lands on the canvas grid. */
  predicate TapsOnGrid(events: seq<Event>) {
    forall i :: 0 <= i < |events| && events[i].TapAt? ==> InGrid(events[i].cell)
  }

  /** One event keeps the state well formed. */
  lemma StepKeepsWellFormed(s: State, e: Event)
    requires WellFormed(s)
    requires e.TapAt? ==> InGrid(e.cell)
    ensures WellFormed(Step(s, e))
  {
    if e.TapAt? {
      TapKeepsDotsDistinct(s, e.cell);
    }
  }

  /**
   Any session on the canvas keeps the state well formed: dots behave as a
   set of grid cells even though `addDot` itself never checks for repeats.
   */
  lemma {:induction false} RunKeepsWellFormed(s: State, events: seq<Event>)
    requires WellFormed(s) && TapsOnGrid(events)
    ensures WellFormed(Run(s, events))
    decreases |events|
  {
    if |events| > 0 {
      StepKeepsWellFormed(s, events[0]);
      assert TapsOnGrid(events[1..]) by {
        forall i | 0 <= i < |events| - 1 && events[1..][i].TapAt?
          ensures InGrid(events[1..][i].cell)
        {
          assert events[1..][i] == events[i + 1];
        }
      }
      RunKeepsWellFormed(Step(s, events[0]), events[1..]);
    }
  }

  /** Every session that starts on mount and taps only grid cells reaches a well-formed state. */
  lemma SessionWellFormed(events: seq<Event>)
    requires TapsOnGrid(events)
    ensures WellFormed(Run(Initial, events))
  {
    RunKeepsWellFormed(Initial, events);
  }
}
