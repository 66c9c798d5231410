/** Menus: buttons, labels, sliders and toggles laid out in a ragged grid of rows, with a
    selection that the mouse and the menu keys move between the selectable cells. */
module Ui {
  import opened Vectors
  import opened Options
  import Utils

  // ---------------------------------------------------------------------------
  // Actions, events and widgets

  /** The game's action type: besides its own actions it has the two the menus know about,
      "select me" (the mouse is over a widget) and "back". */
  datatype Action = SelectMe | Back | Game(code: int)

  /** A mouse event, with its coordinates already mapped into the menu's space, or any
      other event. */
  datatype Event = MouseAxes(x: real, y: real) | MouseButtonUp(x: real, y: real)
                 | MouseButtonDown(x: real, y: real) | OtherEvent

  /** Which menu keys are held (an action state above 0.5). */
  datatype Keys = Keys(left: bool, right: bool, up: bool, down: bool, accept: bool, cancel: bool)

  /** What a widget's `input` sees: the event, the menu keys and the UI scale. */
  datatype Input = Input(event: Event, keys: Keys, scale: real)

  /** `Widget`: a button runs its action, a label only shows text, a slider moves a value
      between bounds in steps, a toggle cycles through its texts. A slider's and a toggle's
      `actionFn` makes the action from the new value. */
  datatype Widget =
    | Button(loc: Vec2, size: Vec2, action: Action, selected: bool)
    | Label(loc: Vec2, size: Vec2)
    | Slider(loc: Vec2, size: Vec2, curPos: real, minPos: real, maxPos: real, grabbed: bool,
             selected: bool, roundTo: real, sliderFn: real -> Action)
    | Toggle(loc: Vec2, size: Vec2, texts: seq<string>, curValue: int, toggleFn: int -> Action, selected: bool)

  /** `Widget::selectable`: everything but a label. */
  predicate Selectable(w: Widget)
  {
    !w.Label?
  }

  /** `Widget::selected`: a label is never selected. */
  function IsSelected(w: Widget): (r: bool)
    ensures r ==> Selectable(w)
  {
    if w.Label? then false else w.selected
  }

  /** `Widget::set_selected`: a no-op on a label. */
  function SetSelected(w: Widget, b: bool): (r: Widget)
    ensures IsSelected(r) == (b && Selectable(w)) && Selectable(r) == Selectable(w)
    ensures w.Label? ==> r == w
    ensures !w.Label? ==> r == w.(selected := b)
  {
    if w.Label? then w else w.(selected := b)
  }

  /** The point is strictly inside the widget's box, which is centred on `loc` and is
      `scale * size` across. */
  predicate Hit(w: Widget, scale: real, x: real, y: real)
  {
    var half := Scale2(scale / 2.0, w.size);
    x > w.loc.x - half.x && x < w.loc.x + half.x && y > w.loc.y - half.y && y < w.loc.y + half.y
  }

  /** A hit means the box has a positive scaled width. */
  lemma HitHasWidth(w: Widget, scale: real, x: real, y: real)
    requires Hit(w, scale, x, y)
    ensures scale * w.size.x > 0.0
  {
    assert (scale / 2.0) * w.size.x > 0.0;
  }

  // ---------------------------------------------------------------------------
  // Button

  /** `Button::input`: Accept while selected runs the action; otherwise Cancel runs it when
      it is the "back" action; otherwise the mouse moving over the button asks to select it
      and a button release over it runs the action. */
  function ButtonInput(b: Widget, inp: Input): (r: Option<Action>)
    requires b.Button?
    ensures r.Some? ==> r.value == b.action || r.value == SelectMe
    ensures inp.keys.accept && b.selected ==> r == Some(b.action)
    ensures !(inp.keys.accept && b.selected) && inp.keys.cancel && b.action == Back ==> r == Some(Back)
    ensures !(inp.keys.accept && b.selected) && !(inp.keys.cancel && b.action == Back) ==>
              var ev := inp.event;
              var over := !ev.OtherEvent? && Hit(b, inp.scale, ev.x, ev.y);
              r == if ev.MouseAxes? && over then Some(SelectMe)
                   else if ev.MouseButtonUp? && over then Some(b.action)
                   else None
  {
    if inp.keys.accept && b.selected then Some(b.action)
    else if inp.keys.cancel && b.action == Back then Some(b.action)
    else match inp.event
      case MouseAxes(x, y) => if Hit(b, inp.scale, x, y) then Some(SelectMe) else None
      case MouseButtonUp(x, y) => if Hit(b, inp.scale, x, y) then Some(b.action) else None
      case _ => None
  }

  // ---------------------------------------------------------------------------
  // Toggle

  /** `Toggle::trigger`: the value moves on to the next text, wrapping round after the last,
      and the action is made from it; a toggle without texts panics (remainder by zero). */
  function Trigger(t: Widget): (r: Option<(Widget, Action)>)
    requires t.Toggle?
    ensures r.None? <==> |t.texts| == 0
    ensures r.Some? ==> var (t', a) := r.value;
                        && t'.Toggle? && t' == t.(curValue := t'.curValue) && 0 <= t'.curValue < |t.texts|
                        && t'.curValue == (t.curValue + 1) % |t.texts|
                        && (0 <= t.curValue < |t.texts| ==>
                              t'.curValue == if t.curValue + 1 < |t.texts| then t.curValue + 1 else 0)
                        && a == t.toggleFn(t'.curValue)
  {
    if |t.texts| == 0 then None
    else
      var v := (t.curValue + 1) % |t.texts|;
      assert 0 <= t.curValue < |t.texts| ==> v == Inc(t.curValue, |t.texts|) by {
        if 0 <= t.curValue < |t.texts| {
          IncIsMod(t.curValue, |t.texts|);
        }
      }
      Some((t.(curValue := v), t.toggleFn(v)))
  }

  /** `Toggle::input`: Accept while selected triggers it; otherwise the mouse moving over it
      asks to select it and a button release over it triggers it. */
  function ToggleInput(t: Widget, inp: Input): (r: Reply)
    requires t.Toggle?
    ensures r.InputPanic? <==> |t.texts| == 0 && ToggleTriggers(t, inp)
    ensures r.Replied? && ToggleTriggers(t, inp) ==> r.action.Some? && Trigger(t) == Some((r.widget, r.action.value))
    ensures r.Replied? && !ToggleTriggers(t, inp) ==>
              r.widget == t && r.action == if inp.event.MouseAxes? && Hit(t, inp.scale, inp.event.x, inp.event.y)
                                           then Some(SelectMe) else None
  {
    if inp.keys.accept && t.selected then TriggerReply(t)
    else match inp.event
      case MouseAxes(x, y) => Replied(t, if Hit(t, inp.scale, x, y) then Some(SelectMe) else None)
      case MouseButtonUp(x, y) => if Hit(t, inp.scale, x, y) then TriggerReply(t) else Replied(t, None)
      case _ => Replied(t, None)
  }

  /** The toggle is triggered: by Accept while selected, or by a button release over it. */
  predicate ToggleTriggers(t: Widget, inp: Input)
  {
    (inp.keys.accept && IsSelected(t)) || (inp.event.MouseButtonUp? && Hit(t, inp.scale, inp.event.x, inp.event.y))
  }

  function TriggerReply(t: Widget): (r: Reply)
    requires t.Toggle?
    ensures r.InputPanic? <==> Trigger(t).None?
    ensures r.Replied? ==> r.action.Some? && Trigger(t) == Some((r.widget, r.action.value))
  {
    match Trigger(t)
    case None => InputPanic
    case Some((t', a)) => Replied(t', Some(a))
  }

  /** Triggering a toggle `|texts|` times from a shown value comes back to it. */
  lemma {:induction false} ToggleCycles(t: Widget, k: nat)
    requires t.Toggle? && 0 <= t.curValue < |t.texts| && k <= |t.texts|
    ensures TriggerTimes(t, k).Some?
    ensures TriggerTimes(t, k).value.curValue == if t.curValue + k < |t.texts| then t.curValue + k else t.curValue + k - |t.texts|
  {
    if k > 0 {
      ToggleCycles(t, k - 1);
    }
  }

  /** The toggle after `k` triggers, when none panics. */
  function TriggerTimes(t: Widget, k: nat): (r: Option<Widget>)
    requires t.Toggle?
    ensures r.Some? ==> r.value.Toggle? && r.value.texts == t.texts
  {
    if k == 0 then Some(t)
    else match TriggerTimes(t, k - 1)
      case None => None
      case Some(t') => match Trigger(t')
        case None => None
        case Some((t'', _)) => Some(t'')
  }

  // ---------------------------------------------------------------------------
  // Slider

  /** Rust's `round`: the nearest whole number, halves away from zero. */
  function Round(x: real): (r: int)
    ensures x - 0.5 <= r as real <= x + 0.5
    ensures r as real == x - 0.5 ==> x < 0.0
    ensures r as real == x + 0.5 ==> x >= 0.0
  {
    if x >= 0.0 then (x + 0.5).Floor else -((-x + 0.5).Floor)
  }

  /** `round_cur_pos`: the whole number of steps nearest to the value; for a step of 0 the
      value is kept. */
  function Snap(x: real, roundTo: real): (r: real)
    ensures roundTo == 0.0 ==> r == x
    ensures roundTo != 0.0 ==> r == Round(x / roundTo) as real * roundTo
  {
    if roundTo == 0.0 then x else Round(x / roundTo) as real * roundTo
  }

  /** The slider position under the mouse, before it is rounded: the mouse's fraction of the
      way across the box, scaled between the bounds. */
  function MousePos(s: Widget, scale: real, x: real, y: real): (r: real)
    requires s.Slider? && Hit(s, scale, x, y)
  {
    HitHasWidth(s, scale, x, y);
    s.minPos + (x - (s.loc.x - scale * s.size.x / 2.0)) / (scale * s.size.x) * (s.maxPos - s.minPos)
  }

  /** Under the mouse the unrounded position lies between the bounds. */
  lemma MousePosBetween(s: Widget, scale: real, x: real, y: real)
    requires s.Slider? && Hit(s, scale, x, y) && s.minPos <= s.maxPos
    ensures s.minPos <= MousePos(s, scale, x, y) <= s.maxPos
  {
    HitHasWidth(s, scale, x, y);
    var w := scale * s.size.x;
    var f := (x - (s.loc.x - w / 2.0)) / w;
    assert 0.0 < x - (s.loc.x - w / 2.0) < w;
    assert 0.0 <= f <= 1.0;
    MulUnit(f, s.maxPos - s.minPos);
  }

  lemma MulUnit(f: real, d: real)
    requires 0.0 <= f <= 1.0 && d >= 0.0
    ensures 0.0 <= f * d <= d
  {
    assert d - f * d == (1.0 - f) * d;
  }

  /** Left or Right applies to the slider: it is selected and not already at that end. */
  predicate KeyStep(s: Widget, inp: Input)
    requires s.Slider?
  {
    (inp.keys.left && s.selected && s.curPos > s.minPos) || (inp.keys.right && s.selected && s.curPos < s.maxPos)
  }

  /** `Slider::input`: Left while selected and above the minimum steps down (not past it),
      Right while selected and below the maximum steps up; otherwise the mouse moving over
      it drags the position while grabbed and asks to select it when not, a button press
      over it grabs it there, and any button release lets go. Each new position is rounded
      and handed to the slider's action. */
  function SliderInput(s: Widget, inp: Input): (r: Reply)
    requires s.Slider?
    ensures r.Replied? && r.widget.Slider?
    ensures r.widget == s.(curPos := r.widget.curPos, grabbed := r.widget.grabbed)
    ensures r.action.Some? && r.action.value != SelectMe ==> r.action.value == s.sliderFn(r.widget.curPos)
    ensures inp.keys.left && s.selected && s.curPos > s.minPos ==>
              r == Replied(s.(curPos := Snap(Utils.Max(s.minPos, s.curPos - s.roundTo), s.roundTo)),
                           Some(s.sliderFn(Snap(Utils.Max(s.minPos, s.curPos - s.roundTo), s.roundTo))))
    ensures !(inp.keys.left && s.selected && s.curPos > s.minPos) && inp.keys.right && s.selected && s.curPos < s.maxPos ==>
              r == Replied(s.(curPos := Snap(Utils.Min(s.maxPos, s.curPos + s.roundTo), s.roundTo)),
                           Some(s.sliderFn(Snap(Utils.Min(s.maxPos, s.curPos + s.roundTo), s.roundTo))))
    ensures r.action.None? ==> r.widget.curPos == s.curPos
    ensures r.widget.grabbed != s.grabbed ==> r.widget.grabbed == inp.event.MouseButtonDown?
    // Without a key step, the mouse cases:
    ensures !KeyStep(s, inp) && inp.event.MouseAxes? && Hit(s, inp.scale, inp.event.x, inp.event.y) ==>
              if s.grabbed
              then r == Replied(s.(curPos := Snap(MousePos(s, inp.scale, inp.event.x, inp.event.y), s.roundTo)),
                                Some(s.sliderFn(Snap(MousePos(s, inp.scale, inp.event.x, inp.event.y), s.roundTo))))
              else r == Replied(s, Some(SelectMe))
    ensures !KeyStep(s, inp) && inp.event.MouseButtonDown? && Hit(s, inp.scale, inp.event.x, inp.event.y) ==>
              r == Replied(s.(grabbed := true, curPos := Snap(MousePos(s, inp.scale, inp.event.x, inp.event.y), s.roundTo)),
                           Some(s.sliderFn(Snap(MousePos(s, inp.scale, inp.event.x, inp.event.y), s.roundTo))))
    ensures !KeyStep(s, inp) && inp.event.MouseButtonUp? ==> r == Replied(s.(grabbed := false), None)
    ensures !KeyStep(s, inp) && (inp.event.OtherEvent? || !Hit(s, inp.scale, inp.event.x, inp.event.y)) && !inp.event.MouseButtonUp? ==>
              r == Replied(s, None)
  {
    if inp.keys.left && s.selected && s.curPos > s.minPos then
      var p := Snap(Utils.Max(s.minPos, s.curPos - s.roundTo), s.roundTo);
      Replied(s.(curPos := p), Some(s.sliderFn(p)))
    else if inp.keys.right && s.selected && s.curPos < s.maxPos then
      var p := Snap(Utils.Min(s.maxPos, s.curPos + s.roundTo), s.roundTo);
      Replied(s.(curPos := p), Some(s.sliderFn(p)))
    else match inp.event
      case MouseAxes(x, y) =>
        if !Hit(s, inp.scale, x, y) then Replied(s, None)
        else if s.grabbed then
          var p := Snap(MousePos(s, inp.scale, x, y), s.roundTo);
          Replied(s.(curPos := p), Some(s.sliderFn(p)))
        else Replied(s, Some(SelectMe))
      case MouseButtonUp(_, _) => Replied(s.(grabbed := false), None)
      case MouseButtonDown(x, y) =>
        if !Hit(s, inp.scale, x, y) then Replied(s, None)
        else
          var p := Snap(MousePos(s, inp.scale, x, y), s.roundTo);
          Replied(s.(grabbed := true, curPos := p), Some(s.sliderFn(p)))
      case OtherEvent => Replied(s, None)
  }

  // ---------------------------------------------------------------------------
  // Any widget

  /** The widget after its `input`, and the action it asked for; or a panic. */
  datatype Reply = Replied(widget: Widget, action: Option<Action>) | InputPanic

  /** `Widget::input`: a label never answers; the others as above. */
  function WidgetInput(w: Widget, inp: Input): (r: Reply)
    ensures w.Label? ==> r == Replied(w, None)
    ensures w.Button? ==> r == Replied(w, ButtonInput(w, inp))
    ensures w.Slider? ==> r == SliderInput(w, inp)
    ensures w.Toggle? ==> r == ToggleInput(w, inp)
  {
    match w
    case Button(_, _, _, _) => Replied(w, ButtonInput(w, inp))
    case Label(_, _) => Replied(w, None)
    case Slider(_, _, _, _, _, _, _, _, _) => SliderInput(w, inp)
    case Toggle(_, _, _, _, _, _) => ToggleInput(w, inp)
  }

  /** A widget's input keeps its kind, place and selection flag; only a selectable widget
      answers; only a toggle without texts panics. */
  lemma InputKeepsSelection(w: Widget, inp: Input)
    ensures WidgetInput(w, inp).InputPanic? ==> w.Toggle? && |w.texts| == 0
    ensures var r := WidgetInput(w, inp);
            r.Replied? ==> && Selectable(r.widget) == Selectable(w) && IsSelected(r.widget) == IsSelected(w)
                           && r.widget.loc == w.loc && r.widget.size == w.size
                           && (r.action.Some? ==> Selectable(w))
  {
  }

  /** The next position in a cycle of `n`. */
  function Inc(x: int, n: int): int
  {
    if x + 1 < n then x + 1 else 0
  }

  /** The previous position in a cycle of `n`. */
  function Dec(x: int, n: int): int
  {
    if x > 0 then x - 1 else n - 1
  }

  /** `Inc` and `Dec` are the source's wrapping steps `(x + n + 1) % n` and `(x + n - 1) % n`
      and its `(x + 1) % n`. */
  lemma IncIsMod(x: int, n: int)
    requires 0 <= x < n
    ensures (x + 1) % n == Inc(x, n) && (x + n + 1) % n == Inc(x, n)
  {
    ModOfRange(x + 1, n);
    ModUpper(x + n + 1, n);
  }

  lemma DecIsMod(x: int, n: int)
    requires 0 <= x < n
    ensures (x + n - 1) % n == Dec(x, n)
  {
    if x > 0 {
      ModUpper(x + n - 1, n);
    } else {
      ModOfRange(n - 1, n);
    }
  }

  lemma ModOfRange(x: int, n: int)
    requires 0 <= x <= n && n > 0
    ensures x % n == if x < n then x else 0
  {
    if x == n {
      assert x == n * 1 + 0;
    }
  }

  lemma ModUpper(y: int, n: int)
    requires n > 0 && n <= y <= 2 * n
    ensures y % n == if y < 2 * n then y - n else 0
  {
    var q, r := y / n, y % n;
    assert y == q * n + r;
    if q >= 2 {
      MulNonNeg(q - 2, n);
      assert q * n == (q - 2) * n + 2 * n;
    }
    assert q == 1 || (q == 2 && r == 0);
  }

  lemma MulNonNeg(a: int, b: int)
    requires a >= 0 && b > 0
    ensures a * b >= 0
  {
  }

  // ---------------------------------------------------------------------------
  // Searching a row for a selectable cell

  /** The last selectable cell before `hi`. */
  function LastSel(row: seq<Widget>, hi: int): (r: Option<int>)
    requires 0 <= hi <= |row|
    ensures r.Some? ==> 0 <= r.value < hi && Selectable(row[r.value])
                        && forall k :: r.value < k < hi ==> !Selectable(row[k])
    ensures r.None? <==> forall k :: 0 <= k < hi ==> !Selectable(row[k])
    decreases hi
  {
    if hi == 0 then None
    else if Selectable(row[hi - 1]) then Some(hi - 1)
    else LastSel(row, hi - 1)
  }

  /** The first selectable cell from `lo` on. */
  function FirstSel(row: seq<Widget>, lo: int): (r: Option<int>)
    requires 0 <= lo <= |row|
    ensures r.Some? ==> lo <= r.value < |row| && Selectable(row[r.value])
                        && forall k :: lo <= k < r.value ==> !Selectable(row[k])
    ensures r.None? <==> forall k :: lo <= k < |row| ==> !Selectable(row[k])
    decreases |row| - lo
  {
    if lo == |row| then None
    else if Selectable(row[lo]) then Some(lo)
    else FirstSel(row, lo + 1)
  }

  /** The cell a backwards, wrapping scan of a whole row from `c` stops at: the nearest
      selectable cell at or left of `c`, else the rightmost one; none in a row without one. */
  function ScanLeft(row: seq<Widget>, c: int): (r: Option<int>)
    requires 0 <= c < |row|
    ensures r.None? <==> forall k :: 0 <= k < |row| ==> !Selectable(row[k])
    ensures r.Some? ==> 0 <= r.value < |row| && Selectable(row[r.value])
  {
    match LastSel(row, c + 1)
    case Some(j) => Some(j)
    case None => LastSel(row, |row|)
  }

  /** The cell the Left key moves to from a selectable `c`: the nearest selectable cell left
      of it, wrapping round to the right end, and `c` itself when it is the only one. */
  function LeftOf(row: seq<Widget>, c: int): (r: int)
    requires 0 <= c < |row| && Selectable(row[c])
    ensures 0 <= r < |row| && Selectable(row[r])
  {
    match LastSel(row, c)
    case Some(j) => j
    case None => LastSel(row, |row|).value
  }

  /** The cell the Right key moves to from a selectable `c`: the nearest selectable cell right
      of it, wrapping round to the left end. */
  function RightOf(row: seq<Widget>, c: int): (r: int)
    requires 0 <= c < |row| && Selectable(row[c])
    ensures 0 <= r < |row| && Selectable(row[r])
  {
    match FirstSel(row, c + 1)
    case Some(j) => j
    case None => FirstSel(row, 0).value
  }

  /** The Left and Right keys go round the row's selectable cells in opposite directions:
      each undoes the other. */
  lemma LeftRightInverse(row: seq<Widget>, c: int)
    requires 0 <= c < |row| && Selectable(row[c])
    ensures LeftOf(row, RightOf(row, c)) == c
    ensures RightOf(row, LeftOf(row, c)) == c
  {
    var r := RightOf(row, c);
    if FirstSel(row, c + 1).Some? {
      assert LastSel(row, r).Some? && LastSel(row, r).value == c;
    } else {
      if r < c {
        assert LastSel(row, r).None?;
        assert LastSel(row, |row|).value == c;
      } else {
        assert r == c;
      }
    }
    var l := LeftOf(row, c);
    if LastSel(row, c).Some? {
      assert FirstSel(row, l + 1).Some? && FirstSel(row, l + 1).value == c;
    } else {
      if l > c {
        assert FirstSel(row, l + 1).None?;
        assert FirstSel(row, 0).value == c;
      } else {
        assert l == c;
      }
    }
  }

  /** The inner `for` loop of the Up and Down keys: at most one pass round the row, backwards
      from `c`, stopping at the first selectable cell; after a whole pass the column is back
      at `c`. */
  method ScanRowLeft(row: seq<Widget>, c: int) returns (found: bool, col: int)
    requires 0 <= c < |row|
    ensures found <==> ScanLeft(row, c).Some?
    ensures found ==> col == ScanLeft(row, c).value
    ensures !found ==> col == c
  {
    var n := |row|;
    col := c;
    for i := 0 to n
      invariant col == if i <= c then c - i else c - i + n
      invariant forall k :: 0 <= k && c - i < k <= c ==> !Selectable(row[k])
      invariant forall k :: c - i + n < k < n ==> !Selectable(row[k])
    {
      if Selectable(row[col]) {
        assert i <= c ==> LastSel(row, c + 1) == Some(col);
        assert i > c ==> LastSel(row, c + 1).None? && LastSel(row, n) == Some(col);
        return true, col;
      }
      DecIsMod(col, n);
      col := (col + n - 1) % n;
    }
    assert LastSel(row, n).None?;
    return false, col;
  }

  /** The loop of the Left key: step backwards, wrapping, until a selectable cell. */
  method StepLeft(row: seq<Widget>, c: int) returns (col: int)
    requires 0 <= c < |row| && Selectable(row[c])
    ensures col == LeftOf(row, c)
  {
    var n := |row|;
    DecIsMod(c, n);
    col := (c + n - 1) % n;
    ghost var i := 1;
    while !Selectable(row[col])
      invariant 1 <= i <= n && col == if i <= c then c - i else c - i + n
      invariant forall k :: 0 <= k && c - i < k < c ==> !Selectable(row[k])
      invariant forall k :: c - i + n < k < n ==> !Selectable(row[k])
      decreases n - i
    {
      DecIsMod(col, n);
      col := (col + n - 1) % n;
      i := i + 1;
    }
    assert i <= c ==> LastSel(row, c) == Some(col);
    assert i > c ==> LastSel(row, c).None? && LastSel(row, n) == Some(col);
  }

  /** The loop of the Right key: step forwards, wrapping, until a selectable cell. */
  method StepRight(row: seq<Widget>, c: int) returns (col: int)
    requires 0 <= c < |row| && Selectable(row[c])
    ensures col == RightOf(row, c)
  {
    var n := |row|;
    IncIsMod(c, n);
    col := (c + n + 1) % n;
    ghost var i := 1;
    while !Selectable(row[col])
      invariant 1 <= i <= n && col == if c + i < n then c + i else c + i - n
      invariant forall k :: c < k < c + i && k < n ==> !Selectable(row[k])
      invariant forall k :: 0 <= k < c + i - n ==> !Selectable(row[k])
      decreases n - i
    {
      IncIsMod(col, n);
      col := (col + n + 1) % n;
      i := i + 1;
    }
    assert c + i < n ==> FirstSel(row, c + 1) == Some(col);
    assert c + i >= n ==> FirstSel(row, c + 1).None? && FirstSel(row, 0) == Some(col);
  }

  // ---------------------------------------------------------------------------
  // Moving between rows

  predicate InGrid(ws: seq<seq<Widget>>, i: int, j: int)
  {
    0 <= i < |ws| && 0 <= j < |ws[i]|
  }

  /** A selection on a selectable cell of the grid. */
  predicate ValidSel(ws: seq<seq<Widget>>, i: int, j: int)
  {
    InGrid(ws, i, j) && Selectable(ws[i][j])
  }

  /** Where a key press leaves the selection; the loop of the Up and Down keys panics on a
      row without cells, and `NavStuck` (which a selection on a selectable cell never
      reaches) is a search that ran out of rows. */
  datatype Nav = At(row: int, col: int) | NavPanic | NavStuck

  /** The `'found` loop of the Up (`up`) or Down key, with `tries` rows left to try: move one
      row, wrapping round; clamp the column to the row's last cell (in a row without cells
      the column underflows and the program panics); scan the row backwards from there and
      stop at the cell found, else go on to the next row from the column the scan left. */
  function VMove(ws: seq<seq<Widget>>, row: int, col: int, up: bool, tries: nat): (r: Nav)
    requires 0 <= row < |ws| && 0 <= col
    ensures r.At? ==> ValidSel(ws, r.row, r.col)
    decreases tries
  {
    if tries == 0 then NavStuck
    else
      var r := if up then Dec(row, |ws|) else Inc(row, |ws|);
      var n := |ws[r]|;
      if n == 0 then NavPanic
      else
        var c := if col >= n then n - 1 else col;
        match ScanLeft(ws[r], c)
        case Some(j) => At(r, j)
        case None => VMove(ws, r, c, up, tries - 1)
  }

  /** How many row moves take `row` to `row0`, a whole round when they are the same. */
  function Dist(row: int, row0: int, up: bool, n: int): int
  {
    if up then (if row > row0 then row - row0 else row - row0 + n)
    else (if row0 > row then row0 - row else row0 - row + n)
  }

  /** The row search cannot run out of rows before it is back at a row with a selectable
      cell, and on a grid without empty rows it cannot panic either. */
  lemma {:induction false} VMoveArrives(ws: seq<seq<Widget>>, row: int, col: int, up: bool, tries: nat, row0: int, col0: int)
    requires 0 <= row < |ws| && 0 <= col && ValidSel(ws, row0, col0)
    requires Dist(row, row0, up, |ws|) <= tries
    ensures !VMove(ws, row, col, up, tries).NavStuck?
    ensures (forall i :: 0 <= i < |ws| ==> |ws[i]| > 0) ==> VMove(ws, row, col, up, tries).At?
    decreases tries
  {
    var r := if up then Dec(row, |ws|) else Inc(row, |ws|);
    var n := |ws[r]|;
    if n > 0 {
      var c := if col >= n then n - 1 else col;
      if r == row0 {
        assert ScanLeft(ws[r], c).Some?;
      } else {
        assert Dist(r, row0, up, |ws|) == Dist(row, row0, up, |ws|) - 1;
        if ScanLeft(ws[r], c).None? {
          VMoveArrives(ws, r, c, up, tries - 1, row0, col0);
        }
      }
    }
  }

  /** The row step of the Up and Down keys, `(row + n - 1) % n` or `(row + n + 1) % n`. */
  method StepRow(row: int, n: int, up: bool) returns (r: int)
    requires 0 <= row < n
    ensures r == if up then Dec(row, n) else Inc(row, n)
  {
    if up {
      DecIsMod(row, n);
      r := (row + n - 1) % n;
    } else {
      IncIsMod(row, n);
      r := (row + n + 1) % n;
    }
  }

  /** The Up or Down key from a selectable cell: the `'found` loop on values. */
  method VerticalMove(ws: seq<seq<Widget>>, row: int, col: int, up: bool) returns (nav: Nav)
    requires ValidSel(ws, row, col)
    ensures nav == VMove(ws, row, col, up, |ws|) && !nav.NavStuck?
  {
    ghost var tries: nat := |ws|;
    VMoveArrives(ws, row, col, up, tries, row, col);
    var r, c := row, col;
    while true
      invariant 0 <= r < |ws| && 0 <= c
      invariant VMove(ws, r, c, up, tries) == VMove(ws, row, col, up, |ws|)
      invariant !VMove(ws, r, c, up, tries).NavStuck?
      decreases tries
    {
      r := StepRow(r, |ws|, up);
      var n := |ws[r]|;
      if n == 0 {
        return NavPanic;
      }
      if c >= n {
        c := n - 1;
      }
      var found, c' := ScanRowLeft(ws[r], c);
      if found {
        return At(r, c');
      }
      c := c';
      tries := tries - 1;
    }
  }

  /** The arrow keys of `WidgetList::input`, in the order the source checks them: Up, then
      Down, then Left, then Right, each from where the one before left the selection. */
  function Navigate(ws: seq<seq<Widget>>, row: int, col: int, keys: Keys): (r: Nav)
    requires ValidSel(ws, row, col)
    ensures !r.NavStuck?
    ensures r.At? ==> ValidSel(ws, r.row, r.col)
    ensures r.NavPanic? ==> (keys.up || keys.down) && exists i :: 0 <= i < |ws| && |ws[i]| == 0
    ensures !keys.up && !keys.down && !keys.right ==> r == At(row, if keys.left then LeftOf(ws[row], col) else col)
  {
    VMoveArrives(ws, row, col, true, |ws|, row, col);
    var a := if keys.up then VMove(ws, row, col, true, |ws|) else At(row, col);
    if !a.At? then a
    else
      VMoveArrives(ws, a.row, a.col, false, |ws|, a.row, a.col);
      var b := if keys.down then VMove(ws, a.row, a.col, false, |ws|) else a;
      if !b.At? then b
      else
        var c := if keys.left then At(b.row, LeftOf(ws[b.row], b.col)) else b;
        if keys.right then At(c.row, RightOf(ws[c.row], c.col)) else c
  }


  // ---------------------------------------------------------------------------
  // Asking the widgets

  /** A row's widgets asked in order from `j`: the row with the widgets updated by their
      input, and the first that answered; or a panic. */
  datatype RowScan = RowHit(row: seq<Widget>, col: int, action: Action) | RowMiss(row: seq<Widget>) | RowPanic

  /** The same cells, with the same selectable and selected flags. */
  predicate SameFlags(a: seq<Widget>, b: seq<Widget>)
  {
    |a| == |b| && forall k :: 0 <= k < |a| ==> Selectable(a[k]) == Selectable(b[k]) && IsSelected(a[k]) == IsSelected(b[k])
  }

  function ScanRow(row: seq<Widget>, inp: Input, j: int): (r: RowScan)
    requires 0 <= j <= |row|
    ensures r.RowHit? ==> SameFlags(row, r.row) && j <= r.col < |row| && Selectable(r.row[r.col])
    ensures r.RowMiss? ==> SameFlags(row, r.row)
    decreases |row| - j
  {
    if j == |row| then RowMiss(row)
    else
      InputKeepsSelection(row[j], inp);
      match WidgetInput(row[j], inp)
      case InputPanic => RowPanic
      case Replied(w, a) =>
        if a.Some? then RowHit(row[j := w], j, a.value) else ScanRow(row[j := w], inp, j + 1)
  }

  /** The whole grid asked in row-major order from row `i`. */
  datatype GridScan = GridHit(ws: seq<seq<Widget>>, row: int, col: int, action: Action)
                    | GridMiss(ws: seq<seq<Widget>>) | GridPanic

  /** The same rows, cell for cell with the same flags. */
  predicate SameGrid(a: seq<seq<Widget>>, b: seq<seq<Widget>>)
  {
    |a| == |b| && forall i :: 0 <= i < |a| ==> SameFlags(a[i], b[i])
  }

  function ScanGrid(ws: seq<seq<Widget>>, inp: Input, i: int): (r: GridScan)
    requires 0 <= i <= |ws|
    ensures r.GridHit? ==> SameGrid(ws, r.ws) && i <= r.row && ValidSel(r.ws, r.row, r.col)
    ensures r.GridMiss? ==> SameGrid(ws, r.ws)
    decreases |ws| - i
  {
    if i == |ws| then GridMiss(ws)
    else match ScanRow(ws[i], inp, 0)
      case RowPanic => GridPanic
      case RowHit(row, j, a) => GridHit(ws[i := row], i, j, a)
      case RowMiss(row) => ScanGrid(ws[i := row], inp, i + 1)
  }

  /** The labelled `'got_action` loop of `WidgetList::input`, on values. */
  method AskWidgets(ws: seq<seq<Widget>>, inp: Input) returns (g: GridScan)
    ensures g == ScanGrid(ws, inp, 0)
  {
    var cur := ws;
    for i := 0 to |ws|
      invariant |cur| == |ws| && ScanGrid(cur, inp, i) == ScanGrid(ws, inp, 0)
    {
      var row := cur[i];
      for j := 0 to |row|
        invariant |row| == |cur[i]| && ScanRow(row, inp, j) == ScanRow(cur[i], inp, 0)
      {
        var reply := WidgetInput(row[j], inp);
        if reply.InputPanic? {
          return GridPanic;
        }
        row := row[j := reply.widget];
        if reply.action.Some? {
          return GridHit(cur[i := row], i, j, reply.action.value);
        }
      }
      cur := cur[i := row];
    }
    return GridMiss(cur);
  }

  /** The first answer wins: every cell before it in its row answered nothing and kept the
      widget its input made, the answering cell's input gave this action, and the cells
      after it were not asked. */
  lemma {:induction false} RowHitIsFirst(row: seq<Widget>, inp: Input, j: int)
    requires 0 <= j <= |row| && ScanRow(row, inp, j).RowHit?
    ensures var r := ScanRow(row, inp, j);
            && (forall k :: j <= k < r.col ==> WidgetInput(row[k], inp) == Replied(r.row[k], None))
            && WidgetInput(row[r.col], inp) == Replied(r.row[r.col], Some(r.action))
            && (forall k :: r.col < k < |row| ==> r.row[k] == row[k])
            && (forall k :: 0 <= k < j ==> r.row[k] == row[k])
    decreases |row| - j
  {
    var rep := WidgetInput(row[j], inp);
    if rep.action.None? {
      RowHitIsFirst(row[j := rep.widget], inp, j + 1);
    }
  }

  /** A row where nobody answered: every cell was asked and answered nothing. */
  lemma {:induction false} RowMissAll(row: seq<Widget>, inp: Input, j: int)
    requires 0 <= j <= |row| && ScanRow(row, inp, j).RowMiss?
    ensures var r := ScanRow(row, inp, j);
            && (forall k :: j <= k < |row| ==> WidgetInput(row[k], inp) == Replied(r.row[k], None))
            && (forall k :: 0 <= k < j ==> r.row[k] == row[k])
    decreases |row| - j
  {
    if j < |row| {
      var rep := WidgetInput(row[j], inp);
      RowMissAll(row[j := rep.widget], inp, j + 1);
    }
  }

  /** The first answer in row-major order wins: every cell before it answered nothing, the
      answering cell gave the action, and no cell after it was asked. */
  lemma {:induction false} GridHitIsFirst(ws: seq<seq<Widget>>, inp: Input, i: int)
    requires 0 <= i <= |ws| && ScanGrid(ws, inp, i).GridHit?
    ensures var g := ScanGrid(ws, inp, i);
            && (forall k, l :: i <= k && InGrid(ws, k, l) && Before(k, l, g.row, g.col) ==>
                  WidgetInput(ws[k][l], inp) == Replied(g.ws[k][l], None))
            && WidgetInput(ws[g.row][g.col], inp) == Replied(g.ws[g.row][g.col], Some(g.action))
            && (forall k, l :: InGrid(ws, k, l) && (k < i || Before(g.row, g.col, k, l)) ==> g.ws[k][l] == ws[k][l])
    decreases |ws| - i
  {
    var rs := ScanRow(ws[i], inp, 0);
    var g := ScanGrid(ws, inp, i);
    if rs.RowHit? {
      RowHitIsFirst(ws[i], inp, 0);
    } else {
      RowMissAll(ws[i], inp, 0);
      GridHitIsFirst(ws[i := rs.row], inp, i + 1);
    }
  }

  // ---------------------------------------------------------------------------
  // The widget list

  /** The selection flags after an input: the old selection cleared, then the new one set. */
  function Reselect(ws: seq<seq<Widget>>, oldRow: int, oldCol: int, row: int, col: int): (r: seq<seq<Widget>>)
    requires InGrid(ws, oldRow, oldCol) && InGrid(ws, row, col)
    ensures |r| == |ws| && forall i :: 0 <= i < |ws| ==> |r[i]| == |ws[i]|
  {
    var ws1 := ws[oldRow := ws[oldRow][oldCol := SetSelected(ws[oldRow][oldCol], false)]];
    ws1[row := ws1[row][col := SetSelected(ws1[row][col], true)]]
  }

  /** The outcome of `WidgetList::input`: the new grid and selection, and the action. */
  datatype ListResult = ListDone(ws: seq<seq<Widget>>, row: int, col: int, action: Option<Action>) | ListPanic

  /** The arrow keys from `(row, col)`, then the flags: old selection cleared, new one set. */
  function Settle(ws: seq<seq<Widget>>, oldRow: int, oldCol: int, row: int, col: int, keys: Keys,
                  action: Option<Action>): (r: ListResult)
    requires InGrid(ws, oldRow, oldCol) && ValidSel(ws, row, col)
  {
    match Navigate(ws, row, col, keys)
    case At(r, c) => ListDone(Reselect(ws, oldRow, oldCol, r, c), r, c, action)
    case _ => ListPanic
  }

  /** `WidgetList::input`: the widgets are asked in row-major order and the first to answer
      becomes the selection; the arrow keys then move the selection, but only when none
      answered or the answer was "select me"; last the old selection's flag is cleared and
      the new one's set. The answer is returned. */
  function ListInput(ws: seq<seq<Widget>>, row: int, col: int, inp: Input): (r: ListResult)
    requires ValidSel(ws, row, col)
  {
    match ScanGrid(ws, inp, 0)
    case GridPanic => ListPanic
    case GridHit(ws', i, j, a) =>
      if a == SelectMe then Settle(ws', row, col, i, j, inp.keys, Some(a))
      else ListDone(Reselect(ws', row, col, i, j), i, j, Some(a))
    case GridMiss(ws') => Settle(ws', row, col, row, col, inp.keys, None)
  }

  /** Exactly the selected cell has its flag set. */
  ghost predicate OnlySelected(ws: seq<seq<Widget>>, row: int, col: int)
  {
    forall i, j :: InGrid(ws, i, j) ==> (IsSelected(ws[i][j]) <==> i == row && j == col)
  }

  /** An input keeps the grid's shape and what is selectable, leaves the selection on a
      selectable cell, and keeps exactly that cell flagged as selected. */
  lemma ListInputKeeps(ws: seq<seq<Widget>>, row: int, col: int, inp: Input)
    requires ValidSel(ws, row, col) && OnlySelected(ws, row, col)
    ensures var r := ListInput(ws, row, col, inp);
            r.ListDone? ==> && ValidSel(r.ws, r.row, r.col) && OnlySelected(r.ws, r.row, r.col)
                            && |r.ws| == |ws|
                            && forall i, j :: InGrid(ws, i, j) ==> InGrid(r.ws, i, j) && Selectable(r.ws[i][j]) == Selectable(ws[i][j])
  {
    var g := ScanGrid(ws, inp, 0);
    if !g.GridPanic? {
      var ws' := g.ws;
      assert OnlySelected(ws', row, col) by {
        forall i, j | InGrid(ws', i, j)
          ensures IsSelected(ws'[i][j]) <==> i == row && j == col
        {
          assert SameFlags(ws[i], ws'[i]);
        }
      }
      var r := ListInput(ws, row, col, inp);
      if r.ListDone? {
        ReselectKeeps(ws', row, col, r.row, r.col);
      }
    }
  }

  /** Without the flag invariant an input still leaves the selection on a selectable cell. */
  lemma ListInputValid(ws: seq<seq<Widget>>, row: int, col: int, inp: Input)
    requires ValidSel(ws, row, col)
    ensures var r := ListInput(ws, row, col, inp);
            r.ListDone? ==> ValidSel(r.ws, r.row, r.col)
  {
    var g := ScanGrid(ws, inp, 0);
    var r := ListInput(ws, row, col, inp);
    if r.ListDone? {
      assert SameGrid(ws, g.ws);
      assert Selectable(r.ws[r.row][r.col]) == Selectable(g.ws[r.row][r.col]);
    }
  }

  lemma ReselectKeeps(ws: seq<seq<Widget>>, oldRow: int, oldCol: int, row: int, col: int)
    requires ValidSel(ws, oldRow, oldCol) && ValidSel(ws, row, col) && OnlySelected(ws, oldRow, oldCol)
    ensures var r := Reselect(ws, oldRow, oldCol, row, col);
            && ValidSel(r, row, col) && OnlySelected(r, row, col)
            && forall i, j :: InGrid(ws, i, j) ==> Selectable(r[i][j]) == Selectable(ws[i][j])
  {
  }

  /** `(i, j)` comes before `(k, l)` in row-major order. */
  predicate Before(i: int, j: int, k: int, l: int)
  {
    i < k || (i == k && j < l)
  }

  /** The first selectable cell in row-major order from row `i` on. */
  function FirstCell(ws: seq<seq<Widget>>, i: int): (r: Option<(int, int)>)
    requires 0 <= i <= |ws|
    ensures r.Some? ==> i <= r.value.0 && ValidSel(ws, r.value.0, r.value.1)
                        && forall k, l :: i <= k && InGrid(ws, k, l) && Before(k, l, r.value.0, r.value.1) ==> !Selectable(ws[k][l])
    ensures r.None? <==> forall k, l :: i <= k && InGrid(ws, k, l) ==> !Selectable(ws[k][l])
    decreases |ws| - i
  {
    if i == |ws| then None
    else match FirstSel(ws[i], 0)
      case Some(j) => Some((i, j))
      case None => FirstCell(ws, i + 1)
  }

  /** The list's grid with one cell's flag set. */
  function MarkSelected(ws: seq<seq<Widget>>, i: int, j: int): (r: seq<seq<Widget>>)
    requires InGrid(ws, i, j)
    ensures |r| == |ws| && forall k :: 0 <= k < |ws| ==> |r[k]| == |ws[k]|
  {
    ws[i := ws[i][j := SetSelected(ws[i][j], true)]]
  }

  /** Widgets as built by their constructors are not selected, so a new list has exactly
      its first selectable cell flagged. */
  lemma NewOnlySelected(ws: seq<seq<Widget>>)
    requires forall i, j :: InGrid(ws, i, j) ==> !IsSelected(ws[i][j])
    requires FirstCell(ws, 0).Some?
    ensures var (i, j) := FirstCell(ws, 0).value;
            ValidSel(MarkSelected(ws, i, j), i, j) && OnlySelected(MarkSelected(ws, i, j), i, j)
  {
  }

  /** `WidgetList`: the grid of widgets and the selected cell. */
  class WidgetList {
    var widgets: seq<seq<Widget>>
    var curRow: int
    var curCol: int

    /** The selection is on a selectable cell. */
    ghost predicate Valid()
      reads this
    {
      ValidSel(widgets, curRow, curCol)
    }

    constructor Make(ws: seq<seq<Widget>>, row: int, col: int)
      ensures widgets == ws && curRow == row && curCol == col
    {
      widgets, curRow, curCol := ws, row, col;
    }

    /** `WidgetList::new`: the first selectable widget in row-major order is selected and
        flagged as such; a list without one panics. */
    static method New(ws: seq<seq<Widget>>) returns (r: Option<WidgetList>)
      ensures r.None? <==> FirstCell(ws, 0).None?
      ensures r.Some? ==> && fresh(r.value) && r.value.Valid()
                          && (r.value.curRow, r.value.curCol) == FirstCell(ws, 0).value
                          && r.value.widgets == MarkSelected(ws, r.value.curRow, r.value.curCol)
    {
      var found := FindFirst(ws);
      if found.None? {
        return None;
      }
      var (i, j) := found.value;
      var l := new WidgetList.Make(ws[i := ws[i][j := SetSelected(ws[i][j], true)]], i, j);
      return Some(l);
    }

    /** `WidgetList::input`, with the widgets' own inputs on values: the grid, the selection
        and the answer become those of `ListInput`. */
    method Input(inp: Input) returns (panicked: bool, action: Option<Action>)
      requires Valid()
      modifies this
      ensures var r := ListInput(old(widgets), old(curRow), old(curCol), inp);
              && (panicked <==> r.ListPanic?)
              && (!panicked ==> widgets == r.ws && curRow == r.row && curCol == r.col && action == r.action)
      ensures !panicked ==> Valid()
    {
      var r := RunInput(widgets, curRow, curCol, inp);
      ListInputValid(widgets, curRow, curCol, inp);
      if r.ListPanic? {
        return true, None;
      }
      widgets, curRow, curCol := r.ws, r.row, r.col;
      return false, r.action;
    }
  }

  /** The body of `WidgetList::input` on values. */
  method RunInput(ws: seq<seq<Widget>>, oldRow: int, oldCol: int, inp: Input) returns (r: ListResult)
    requires ValidSel(ws, oldRow, oldCol)
    ensures r == ListInput(ws, oldRow, oldCol, inp)
  {
    var g := AskWidgets(ws, inp);
    if g.GridPanic? {
      return ListPanic;
    }
    var row, col, action := oldRow, oldCol, None;
    if g.GridHit? {
      row, col, action := g.row, g.col, Some(g.action);
    }
    if action.None? || action == Some(SelectMe) {
      var nav := Navigation(g.ws, row, col, inp.keys);
      if !nav.At? {
        return ListPanic;
      }
      row, col := nav.row, nav.col;
    }
    var ws' := g.ws[oldRow := g.ws[oldRow][oldCol := SetSelected(g.ws[oldRow][oldCol], false)]];
    ws' := ws'[row := ws'[row][col := SetSelected(ws'[row][col], true)]];
    return ListDone(ws', row, col, action);
  }

  /** The nested loops of `WidgetList::new` that find the first selectable widget. */
  method FindFirst(ws: seq<seq<Widget>>) returns (found: Option<(int, int)>)
    ensures found == FirstCell(ws, 0)
  {
    found := None;
    for i := 0 to |ws|
      invariant found.None? ==> forall k, l :: 0 <= k < i && InGrid(ws, k, l) ==> !Selectable(ws[k][l])
      invariant found.Some? ==> found == FirstCell(ws, 0)
    {
      for j := 0 to |ws[i]|
        invariant found.None? ==> forall k, l :: InGrid(ws, k, l) && Before(k, l, i, j) ==> !Selectable(ws[k][l])
        invariant found.Some? ==> found == FirstCell(ws, 0)
      {
        if Selectable(ws[i][j]) && found.None? {
          found := Some((i, j));
          FirstCellIs(ws, i, j);
        }
      }
    }
    if found.None? {
      assert FirstCell(ws, 0).None?;
    }
  }

  /** A selectable cell with nothing selectable before it is the first one. */
  lemma FirstCellIs(ws: seq<seq<Widget>>, i: int, j: int)
    requires ValidSel(ws, i, j)
    requires forall k, l :: InGrid(ws, k, l) && Before(k, l, i, j) ==> !Selectable(ws[k][l])
    ensures FirstCell(ws, 0) == Some((i, j))
  {
    assert FirstCell(ws, 0).Some?;
  }

  /** The arrow keys on values: the four `if`s of `WidgetList::input` in order. */
  method Navigation(ws: seq<seq<Widget>>, row: int, col: int, keys: Keys) returns (nav: Nav)
    requires ValidSel(ws, row, col)
    ensures nav == Navigate(ws, row, col, keys)
  {
    nav := At(row, col);
    if keys.up {
      nav := VerticalMove(ws, row, col, true);
      if !nav.At? {
        return;
      }
    }
    if keys.down {
      nav := VerticalMove(ws, nav.row, nav.col, false);
      if !nav.At? {
        return;
      }
    }
    if keys.left {
      var c := StepLeft(ws[nav.row], nav.col);
      nav := At(nav.row, c);
    }
    if keys.right {
      var c := StepRight(ws[nav.row], nav.col);
      nav := At(nav.row, c);
    }
  }
}
