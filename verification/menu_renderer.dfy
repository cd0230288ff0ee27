/** The menu renderer: draws the components of a menu, two display rows per
    component, highlighting the current one with inverse font and, on a
    numeric item being edited, the value rather than the name.

    The display driver is abstracted as a log of the three operations the
    renderer issues plus the driver's inverse-font flag. `RenderOps` is the
    log one `render` call appends; `Screen` is an independent description of
    what ends up on screen; the lemmas connect the two. */
module MenuRendering {
  import opened Unsigned

  /** A display operation: `clear()`, `draw1x2String(col, row, text)`,
      `setInverseFont(on)`. */
  datatype Op = Clear | Draw(col: int, row: int, text: string) | SetInverse(on: bool)

  /** The four kinds of menu component the renderer dispatches on. */
  datatype Kind =
    | Item
    | BackItem
    | Numeric(formattedValue: string, hasFocus: bool)
    | SubMenu

  /** A child of the rendered menu, with its name and whether it is the
      selected (`is_current`) one. */
  datatype Component = Component(kind: Kind, name: string, isCurrent: bool)

  /** A string as it appears on screen: where, what, and whether inverted. */
  datatype Stroke = Stroke(col: int, row: int, text: string, inverse: bool)

  /** Column at which a numeric item's value is drawn. */
  const VALUE_COLUMN: int := 13

  /** The inverse-font flag after the single operation `op`. */
  function Toggle(op: Op, inverse: bool): (on: bool)
  {
    if op.SetInverse? then op.on else inverse
  }

  /** What the single operation `op` draws, with flag `inverse` in force. */
  function Shown(op: Op, inverse: bool): (drawn: seq<Stroke>)
  {
    if op.Draw? then [Stroke(op.col, op.row, op.text, inverse)] else []
  }

  /** The inverse-font flag after replaying `ops` from `inverse`. */
  function InverseAfter(ops: seq<Op>, inverse: bool): (on: bool)
  {
    if ops == [] then inverse else InverseAfter(ops[1..], Toggle(ops[0], inverse))
  }

  /** The strings `ops` draw, each with the inverse-font flag in force when
      it is drawn, starting from `inverse`. */
  function Strokes(ops: seq<Op>, inverse: bool): (drawn: seq<Stroke>)
  {
    if ops == [] then [] else Shown(ops[0], inverse) + Strokes(ops[1..], Toggle(ops[0], inverse))
  }

  /** `render_menu_item`, `render_back_menu_item` and `render_menu`: the name
      at column 0. */
  function LabelOps(name: string, row: int): (ops: seq<Op>)
  {
    [Draw(0, row, name)]
  }

  /** `render_numeric_menu_item`. */
  function NumericOps(name: string, value: string, hasFocus: bool, row: int): (ops: seq<Op>)
  {
    (if hasFocus then [SetInverse(false)] else [])
    + [Draw(0, row, name)]
    + (if hasFocus then [SetInverse(true)] else [])
    + [Draw(VALUE_COLUMN, row, value), SetInverse(false)]
  }

  /** The double dispatch `cp_m_comp->render(*this)`. */
  function ComponentOps(c: Component, row: int): (ops: seq<Op>)
  {
    match c.kind
    case Numeric(value, hasFocus) => NumericOps(c.name, value, hasFocus, row)
    case _ => LabelOps(c.name, row)
  }

  /** The row a component at index `i` is drawn on: `setRow(i)` stores `i`
      into the byte `_currentRow`, which is doubled when drawing. */
  function RowOf(i: nat): (row: int)
    ensures 0 <= row < 512 && row % 2 == 0
  {
    2 * Wrap8(i)
  }

  /** One iteration of the loop in `render`, for component `c` at index `i`. */
  function SegmentOps(c: Component, i: nat): (ops: seq<Op>)
  {
    (if c.isCurrent then [SetInverse(true)] else [])
    + ComponentOps(c, RowOf(i))
    + [SetInverse(false)]
  }

  /** The first `n` iterations of the loop in `render`. */
  function SegmentsOps(menu: seq<Component>, n: nat): (ops: seq<Op>)
    requires n <= |menu|
  {
    if n == 0 then [] else SegmentsOps(menu, n - 1) + SegmentOps(menu[n - 1], n - 1)
  }

  /** The loop takes one more iteration at a time. */
  lemma SegmentsStep(menu: seq<Component>, i: nat)
    requires i < |menu|
    ensures SegmentsOps(menu, i + 1) == SegmentsOps(menu, i) + SegmentOps(menu[i], i)
  {
  }

  /** Regrouping of appended logs, called by `RenderComponent` and `Render`
      to steer the prover. */
  lemma ConcatAssoc(a: seq<Op>, b: seq<Op>, c: seq<Op>)
    ensures a + b + c == a + (b + c)
  {
  }

  /** Everything one `render(menu)` call issues. */
  function RenderOps(menu: seq<Component>): (ops: seq<Op>)
  {
    [Clear] + SegmentsOps(menu, |menu|)
  }

  /** Reference description of what a component looks like on screen when
      it is entered with inverse flag `entry`: the name at column 0 and, for
      a numeric item, the value at column 13, all on `row`; a numeric item
      being edited shows its name plain and its value inverted. */
  function ComponentScreen(c: Component, row: int, entry: bool): (drawn: seq<Stroke>)
  {
    match c.kind
    case Numeric(value, hasFocus) =>
      if hasFocus then [Stroke(0, row, c.name, false), Stroke(VALUE_COLUMN, row, value, true)]
      else [Stroke(0, row, c.name, entry), Stroke(VALUE_COLUMN, row, value, entry)]
    case _ => [Stroke(0, row, c.name, entry)]
  }

  /** Reference description of the screen after rendering the first `n`
      components, the display's inverse flag being `inverse` beforehand: each
      component is entered inverted when it is the current one, and otherwise
      with the flag left over, which is the display's own flag for the first
      component and plain for every later one. */
  function Screen(menu: seq<Component>, n: nat, inverse: bool): (drawn: seq<Stroke>)
    requires n <= |menu|
  {
    if n == 0 then []
    else
      var c := menu[n - 1];
      Screen(menu, n - 1, inverse)
      + ComponentScreen(c, RowOf(n - 1), c.isCurrent || (n - 1 == 0 && inverse))
  }

  /** Replaying a concatenation replays the parts in turn. */
  lemma {:induction false} InverseAfterConcat(a: seq<Op>, b: seq<Op>, inverse: bool)
    ensures InverseAfter(a + b, inverse) == InverseAfter(b, InverseAfter(a, inverse))
  {
    if a != [] {
      assert (a + b)[1..] == a[1..] + b;
      InverseAfterConcat(a[1..], b, Toggle(a[0], inverse));
    } else {
      assert a + b == b;
    }
  }

  /** The strings drawn by a concatenation are those of the parts in turn. */
  lemma {:induction false} StrokesConcat(a: seq<Op>, b: seq<Op>, inverse: bool)
    ensures Strokes(a + b, inverse) == Strokes(a, inverse) + Strokes(b, InverseAfter(a, inverse))
  {
    if a != [] {
      assert (a + b)[1..] == a[1..] + b;
      StrokesConcat(a[1..], b, Toggle(a[0], inverse));
    } else {
      assert a + b == b;
    }
  }

  /** Every component's draws are followed by `setInverseFont(false)`: a
      numeric item ends plain whatever it was entered with, a label item
      leaves the flag as it found it. */
  lemma {:induction false} ComponentInverse(c: Component, row: int, entry: bool)
    ensures InverseAfter(ComponentOps(c, row), entry)
            == if c.kind.Numeric? then false else entry
  {
    match c.kind
    case Numeric(value, hasFocus) =>
      var ops := NumericOps(c.name, value, hasFocus, row);
      var prefix := ops[..|ops| - 1];
      assert ops == prefix + [SetInverse(false)];
      InverseAfterConcat(prefix, [SetInverse(false)], entry);
    case _ =>
  }

  /** Replaying one operation in front of others. */
  lemma StrokesCons(op: Op, rest: seq<Op>, inverse: bool)
    ensures Strokes([op] + rest, inverse) == Shown(op, inverse) + Strokes(rest, Toggle(op, inverse))
  {
    assert ([op] + rest)[1..] == rest;
  }

  /** A numeric item being edited shows its name plain and its value
      inverted, whatever flag it is entered with. */
  lemma {:induction false} FocusedNumericStrokes(name: string, value: string, row: int, entry: bool)
    ensures Strokes(NumericOps(name, value, true, row), entry)
            == [Stroke(0, row, name, false), Stroke(VALUE_COLUMN, row, value, true)]
  {
    var tail: seq<Op> := [Draw(VALUE_COLUMN, row, value), SetInverse(false)];
    var middle := [SetInverse(true)] + tail;
    var named := [Draw(0, row, name)] + middle;
    assert NumericOps(name, value, true, row) == [SetInverse(false)] + named;
    StrokesCons(SetInverse(false), named, entry);
    StrokesCons(Draw(0, row, name), middle, false);
    StrokesCons(SetInverse(true), tail, false);
    StrokesCons(Draw(VALUE_COLUMN, row, value), [SetInverse(false)], true);
    StrokesCons(SetInverse(false), [], true);
  }

  /** A numeric item not being edited shows name and value with the flag
      it is entered with. */
  lemma {:induction false} UnfocusedNumericStrokes(name: string, value: string, row: int, entry: bool)
    ensures Strokes(NumericOps(name, value, false, row), entry)
            == [Stroke(0, row, name, entry), Stroke(VALUE_COLUMN, row, value, entry)]
  {
    var tail: seq<Op> := [Draw(VALUE_COLUMN, row, value), SetInverse(false)];
    assert NumericOps(name, value, false, row) == [Draw(0, row, name)] + tail;
    StrokesCons(Draw(0, row, name), tail, entry);
    StrokesCons(Draw(VALUE_COLUMN, row, value), [SetInverse(false)], entry);
    StrokesCons(SetInverse(false), [], entry);
  }

  /** What a component puts on screen, entered with flag `entry`, is what
      `ComponentScreen` describes. */
  lemma {:induction false} ComponentStrokes(c: Component, row: int, entry: bool)
    ensures Strokes(ComponentOps(c, row), entry) == ComponentScreen(c, row, entry)
  {
    match c.kind
    case Numeric(value, hasFocus) =>
      if hasFocus {
        FocusedNumericStrokes(c.name, value, row, entry);
      } else {
        UnfocusedNumericStrokes(c.name, value, row, entry);
      }
    case _ =>
      StrokesCons(Draw(0, row, c.name), [], entry);
  }

  /** One loop iteration, entered with flag `left`, shows its component as
      `ComponentScreen` describes, entered inverted when it is current. */
  lemma {:induction false} SegmentStrokes(c: Component, i: nat, left: bool)
    ensures Strokes(SegmentOps(c, i), left) == ComponentScreen(c, RowOf(i), c.isCurrent || left)
  {
    var opening: seq<Op> := if c.isCurrent then [SetInverse(true)] else [];
    var body := ComponentOps(c, RowOf(i));
    assert SegmentOps(c, i) == opening + body + [SetInverse(false)];
    StrokesConcat(opening + body, [SetInverse(false)], left);
    StrokesConcat(opening, body, left);
    assert InverseAfter(opening, left) == (c.isCurrent || left);
    ComponentStrokes(c, RowOf(i), c.isCurrent || left);
  }

  /** A loop iteration opens with `setInverseFont(true)` exactly when its
      component is current and ends with `setInverseFont(false)`, so it
      leaves the flag off whatever it was entered with. */
  lemma {:induction false} SegmentShape(c: Component, i: nat, inverse: bool)
    ensures SegmentOps(c, i)[0] == SetInverse(true) <==> c.isCurrent
    ensures SegmentOps(c, i)[|SegmentOps(c, i)| - 1] == SetInverse(false)
    ensures InverseAfter(SegmentOps(c, i), inverse) == false
  {
    var ops := SegmentOps(c, i);
    var prefix := ops[..|ops| - 1];
    assert ops == prefix + [SetInverse(false)];
    InverseAfterConcat(prefix, [SetInverse(false)], inverse);
  }

  /** A loop iteration never clears the display. */
  lemma SegmentNoClear(c: Component, i: nat)
    ensures Clear !in SegmentOps(c, i)
  {
  }

  /** A component is drawn on row `2 * i` for every index a byte can hold. */
  lemma RowOfSmall(i: nat)
    requires i < 256
    ensures RowOf(i) == 2 * i
  {
  }

  /** The loop's iterations never clear the display and, once at least one
      has run, leave the inverse flag off. */
  lemma {:induction false} SegmentsShape(menu: seq<Component>, n: nat, inverse: bool)
    requires n <= |menu|
    ensures InverseAfter(SegmentsOps(menu, n), inverse) == if n == 0 then inverse else false
    ensures Clear !in SegmentsOps(menu, n)
  {
    if n > 0 {
      SegmentsShape(menu, n - 1, inverse);
      SegmentShape(menu[n - 1], n - 1, InverseAfter(SegmentsOps(menu, n - 1), inverse));
      SegmentNoClear(menu[n - 1], n - 1);
      InverseAfterConcat(SegmentsOps(menu, n - 1), SegmentOps(menu[n - 1], n - 1), inverse);
    }
  }

  /** `render` clears the display first and never again; with no components
      that is all it does; afterwards the inverse flag is off if any
      component was drawn and otherwise as it was. */
  lemma {:induction false} RenderShape(menu: seq<Component>, inverse: bool)
    ensures RenderOps(menu)[0] == Clear
    ensures forall k :: 0 < k < |RenderOps(menu)| ==> RenderOps(menu)[k] != Clear
    ensures |menu| == 0 ==> RenderOps(menu) == [Clear]
    ensures InverseAfter(RenderOps(menu), inverse) == if |menu| == 0 then inverse else false
  {
    SegmentsShape(menu, |menu|, inverse);
    InverseAfterConcat([Clear], SegmentsOps(menu, |menu|), inverse);
    forall k | 0 < k < |RenderOps(menu)|
      ensures RenderOps(menu)[k] != Clear
    {
      assert RenderOps(menu)[k] == SegmentsOps(menu, |menu|)[k - 1];
    }
  }

  /** What the first `n` loop iterations put on screen, component by
      component in index order, is the reference description `Screen`. */
  lemma {:induction false} SegmentsScreen(menu: seq<Component>, n: nat, inverse: bool)
    requires n <= |menu|
    ensures Strokes(SegmentsOps(menu, n), inverse) == Screen(menu, n, inverse)
  {
    if n > 0 {
      var before := SegmentsOps(menu, n - 1);
      SegmentsScreen(menu, n - 1, inverse);
      SegmentsShape(menu, n - 1, inverse);
      StrokesConcat(before, SegmentOps(menu[n - 1], n - 1), inverse);
      SegmentStrokes(menu[n - 1], n - 1, InverseAfter(before, inverse));
    }
  }

  /** What `render` puts on screen is the reference description `Screen`
      of the whole menu. */
  lemma {:induction false} RenderScreen(menu: seq<Component>, inverse: bool)
    ensures Strokes(RenderOps(menu), inverse) == Screen(menu, |menu|, inverse)
  {
    StrokesCons(Clear, SegmentsOps(menu, |menu|), inverse);
    SegmentsScreen(menu, |menu|, inverse);
  }

  /** The display collaborator: the operations issued so far and the current
      inverse-font flag. */
  class Display {
    var log: seq<Op>
    var inverse: bool

    constructor ()
      ensures log == [] && !inverse
    {
      log := [];
      inverse := false;
    }

    method Clear()
      modifies this
      ensures log == old(log) + [Op.Clear] && inverse == old(inverse)
    {
      log := log + [Op.Clear];
    }

    method Draw1x2String(col: int, row: int, text: string)
      modifies this
      ensures log == old(log) + [Draw(col, row, text)] && inverse == old(inverse)
    {
      log := log + [Draw(col, row, text)];
    }

    method SetInverseFont(on: bool)
      modifies this
      ensures log == old(log) + [SetInverse(on)] && inverse == on
    {
      log := log + [SetInverse(on)];
      inverse := on;
    }
  }

  /** The `MenuRenderer`: a display and the row cursor `_currentRow`. */
  class MenuRenderer {
    const display: Display
    var currentRow: byte

    constructor (display: Display)
      ensures this.display == display
    {
      this.display := display;
      currentRow := 0;
    }

    /** `setRow`: the `int` argument is stored into a byte. */
    method SetRow(value: int)
      modifies this
      ensures currentRow == Wrap8(value)
    {
      currentRow := Wrap8(value);
    }

    method RenderMenuItem(name: string)
      modifies display
      ensures display.log == old(display.log) + LabelOps(name, currentRow * 2)
      ensures display.inverse == old(display.inverse)
    {
      display.Draw1x2String(0, currentRow * 2, name);
    }

    method RenderBackMenuItem(name: string)
      modifies display
      ensures display.log == old(display.log) + LabelOps(name, currentRow * 2)
      ensures display.inverse == old(display.inverse)
    {
      display.Draw1x2String(0, currentRow * 2, name);
    }

    method RenderNumericMenuItem(name: string, formattedValue: string, hasFocus: bool)
      modifies display
      ensures display.log
              == old(display.log) + NumericOps(name, formattedValue, hasFocus, currentRow * 2)
      ensures !display.inverse
    {
      if hasFocus {
        display.SetInverseFont(false);
      }
      display.Draw1x2String(0, currentRow * 2, name);
      if hasFocus {
        display.SetInverseFont(true);
      }
      display.Draw1x2String(VALUE_COLUMN, currentRow * 2, formattedValue);
      display.SetInverseFont(false);
    }

    method RenderMenu(name: string)
      modifies display
      ensures display.log == old(display.log) + LabelOps(name, currentRow * 2)
      ensures display.inverse == old(display.inverse)
    {
      display.Draw1x2String(0, currentRow * 2, name);
    }

    /** `cp_m_comp->render(*this)`: the component calls back the render
        method for its kind. */
    method RenderDispatch(c: Component)
      modifies display
      ensures display.log == old(display.log) + ComponentOps(c, currentRow * 2)
      ensures display.inverse == if c.kind.Numeric? then false else old(display.inverse)
    {
      match c.kind {
        case Item => RenderMenuItem(c.name);
        case BackItem => RenderBackMenuItem(c.name);
        case Numeric(value, hasFocus) => RenderNumericMenuItem(c.name, value, hasFocus);
        case SubMenu => RenderMenu(c.name);
      }
    }

    /** The body of the loop in `render`, for component `c` at index `i`. */
    method RenderComponent(c: Component, i: nat)
      modifies this, display
      ensures display.log == old(display.log) + SegmentOps(c, i)
      ensures !display.inverse
      ensures currentRow == Wrap8(i)
    {
      SetRow(i);
      ghost var opening: seq<Op> := if c.isCurrent then [SetInverse(true)] else [];
      if c.isCurrent {
        display.SetInverseFont(true);
      }
      assert display.log == old(display.log) + opening;
      RenderDispatch(c);
      display.SetInverseFont(false);
      ghost var body := ComponentOps(c, RowOf(i));
      assert display.log == old(display.log) + opening + body + [SetInverse(false)];
      ConcatAssoc(opening, body, [SetInverse(false)]);
      ConcatAssoc(old(display.log), opening + body, [SetInverse(false)]);
      ConcatAssoc(old(display.log), opening, body);
    }

    /** `render(menu)`: the display gets exactly `RenderOps(menu)`, the
        inverse flag ends off unless the menu is empty, and the row cursor is
        left on the last component. */
    method Render(menu: seq<Component>)
      modifies this, display
      ensures display.log == old(display.log) + RenderOps(menu)
      ensures display.inverse == if |menu| == 0 then old(display.inverse) else false
      ensures currentRow == if |menu| == 0 then old(currentRow) else Wrap8(|menu| - 1)
    {
      display.Clear();
      ghost var cleared := display.log;
      assert cleared == old(display.log) + [Op.Clear];
      var i := 0;
      while i < |menu|
        invariant 0 <= i <= |menu|
        invariant display.log == cleared + SegmentsOps(menu, i)
        invariant display.inverse == if i == 0 then old(display.inverse) else false
        invariant currentRow == if i == 0 then old(currentRow) else Wrap8(i - 1)
      {
        RenderComponent(menu[i], i);
        SegmentsStep(menu, i);
        ConcatAssoc(cleared, SegmentsOps(menu, i), SegmentOps(menu[i], i));
        i := i + 1;
      }
      ConcatAssoc(old(display.log), [Op.Clear], SegmentsOps(menu, |menu|));
    }
  }
}
