/** The about screen: the welcome text is drawn in a zooming animation, each
    glyph moving from the centre of the canvas to its place in a text grid
    over `MAX_SHIFT` frames, after which the task suspends itself. */
module About {
  import opened Common

  /** `max_shift`: frames until the text is at full size. */
  const MAX_SHIFT: nat := 8

  /** `about_text`, without its terminating NUL. */
  const ABOUT_TEXT: string :=
    "   SEJA BEM VINDO!" + "                     " + "      DIGITE A SENHA:"

  /** TERMINAL_COLUMNS, SYSFONT_WIDTH, SYSFONT_HEIGHT, CANVAS_WIDTH and
      CANVAS_HEIGHT, which the firmware takes from the display and font
      drivers. */
  datatype Layout = Layout(columns: nat, fontWidth: nat, fontHeight: nat,
                           canvasWidth: nat, canvasHeight: nat)
  {
    predicate Valid()
    {
      columns >= 1
    }
  }


  /** The integer interpolation both coordinates use: `shift` eighths of the
      way from `centre` to `target`, rounded down. It starts at the centre,
      ends exactly on the target and never leaves the range between them. */
  function Blend(target: nat, centre: nat, shift: nat): (v: nat)
    requires shift <= MAX_SHIFT
    ensures shift == 0 ==> v == centre
    ensures shift == MAX_SHIFT ==> v == target
    ensures Min(target, centre) <= v <= Max(target, centre)
  {
    var lo := Min(target, centre);
    var hi := Max(target, centre);
    BlendBetween(target, centre, shift, lo, hi);
    (target * shift + centre * (MAX_SHIFT - shift)) / MAX_SHIFT
  }

  lemma BlendBetween(target: nat, centre: nat, shift: nat, lo: int, hi: int)
    requires shift <= MAX_SHIFT
    requires lo <= target <= hi && lo <= centre <= hi
    ensures lo * MAX_SHIFT <= target * shift + centre * (MAX_SHIFT - shift) <= hi * MAX_SHIFT
  {
    var rest := MAX_SHIFT - shift;
    MulMonotone(lo, target, shift);
    MulMonotone(target, hi, shift);
    MulMonotone(lo, centre, rest);
    MulMonotone(centre, hi, rest);
    assert lo * shift + lo * rest == lo * MAX_SHIFT;
    assert hi * shift + hi * rest == hi * MAX_SHIFT;
  }

  lemma {:induction false} MulMonotone(a: int, b: int, k: nat)
    requires a <= b
    ensures a * k <= b * k
    decreases k
  {
    if k > 0 {
      MulMonotone(a, b, k - 1);
      assert a * k == a * (k - 1) + a;
      assert b * k == b * (k - 1) + b;
    }
  }

  /** The x coordinate of glyph `i` in frame `shift`: its column in the text
      grid, zoomed from the middle of the canvas. */
  function ZoomX(l: Layout, i: nat, shift: nat): nat
    requires l.Valid() && shift <= MAX_SHIFT
  {
    Blend((i % l.columns) * l.fontWidth, l.canvasWidth / 2, shift)
  }

  /** The y coordinate of glyph `i` in frame `shift`: its row in the text
      grid, zoomed from the middle of the canvas. */
  function ZoomY(l: Layout, i: nat, shift: nat): nat
    requires l.Valid() && shift <= MAX_SHIFT
  {
    Blend((i / l.columns) * l.fontHeight, l.canvasHeight / 2, shift)
  }

  datatype Glyph = Glyph(c: char, x: nat, y: nat)

  /** One frame: every character of the text is drawn at its zoomed place.
      In the last frame the text sits on its grid at full size; at shift 0
      every glyph is drawn at the centre of the canvas. */
  method DrawFrame(l: Layout, shift: nat) returns (glyphs: seq<Glyph>)
    requires l.Valid() && shift <= MAX_SHIFT
    ensures |glyphs| == |ABOUT_TEXT|
    ensures forall i :: 0 <= i < |glyphs| ==>
      glyphs[i] == Glyph(ABOUT_TEXT[i], ZoomX(l, i, shift), ZoomY(l, i, shift))
    ensures shift == MAX_SHIFT ==> forall i :: 0 <= i < |glyphs| ==>
      glyphs[i].x == (i % l.columns) * l.fontWidth &&
      glyphs[i].y == (i / l.columns) * l.fontHeight
    ensures shift == 0 ==> forall i :: 0 <= i < |glyphs| ==>
      glyphs[i].x == l.canvasWidth / 2 && glyphs[i].y == l.canvasHeight / 2
  {
    glyphs := [];
    for i := 0 to |ABOUT_TEXT|
      invariant |glyphs| == i
      invariant forall k :: 0 <= k < i ==>
        glyphs[k] == Glyph(ABOUT_TEXT[k], ZoomX(l, k, shift), ZoomY(l, k, shift))
    {
      var x := ZoomX(l, i, shift);
      var y := ZoomY(l, i, shift);
      glyphs := glyphs + [Glyph(ABOUT_TEXT[i], x, y)];
    }
  }

  /** The about task's loop from a given `shift` until it suspends itself:
      it draws one frame per shift value from `start` up to `MAX_SHIFT`, one
      step at a time, then sets the shift to 0 and suspends. The task starts
      with shift 1, and after being resumed it continues from 0. */
  method Animate(start: nat) returns (frames: seq<nat>, shift: nat)
    requires start <= MAX_SHIFT
    ensures |frames| == MAX_SHIFT + 1 - start
    ensures forall k :: 0 <= k < |frames| ==> frames[k] == start + k
    ensures frames[|frames| - 1] == MAX_SHIFT
    ensures shift == 0
  {
    shift := start;
    frames := [];
    var suspended := false;
    while !suspended
      invariant !suspended ==> start <= shift <= MAX_SHIFT && |frames| == shift - start
      invariant suspended ==> shift == 0 && |frames| == MAX_SHIFT + 1 - start
      invariant forall k :: 0 <= k < |frames| ==> frames[k] == start + k
      decreases MAX_SHIFT + 1 - start - |frames|
    {
      frames := frames + [shift];
      if shift < MAX_SHIFT {
        shift := shift + 1;
      } else {
        shift := 0;
        suspended := true;
      }
    }
  }
}
