/** The terminal text buffer written by the UART task: a ring of
    fixed-width, zero-terminated lines. The head line is the one being
    written; a carriage return, or running out of columns, moves the head to
    the next line, modulo the number of lines, so the oldest line is reused
    without shifting anything. */
module Terminal {
  import opened Common
  import ByteQueue

  /** TERMINAL_LINES and TERMINAL_COLUMNS. The firmware derives them from the
      display and font sizes; here they are parameters. The buffer has one
      more line than the display shows and one more column than a line
      holds, for the terminator. */
  datatype Geometry = Geometry(lines: nat, columns: nat)
  {
    /** The head index and the column are `uint8_t`: the buffer must have at
        most 256 lines and a line at most 255 columns, so that neither the
        head nor the column wraps around before the modulo or the wrap test
        takes effect. At least one displayed line and one column. */
    predicate Valid()
    {
      1 <= lines <= 255 && 1 <= columns <= 255
    }

    /** TERMINAL_BUFFER_LINES */
    function BufferLines(): nat { 1 + lines }

    /** TERMINAL_BUFFER_COLUMNS */
    function BufferColumns(): nat { 1 + columns }
  }

  /** The buffer contents (`terminal_buffer`), the head line index
      (`terminal_line_offset`) and the write column (`current_column`). */
  datatype Buffer = Buffer(cells: seq<seq<byte>>, head: nat, column: nat)

  predicate Shaped(g: Geometry, cells: seq<seq<byte>>)
  {
    |cells| == g.BufferLines() &&
    forall i :: 0 <= i < |cells| ==> |cells[i]| == g.BufferColumns()
  }

  /** The head stays among the buffer's lines and the column stays among
      the columns a line holds, never on the terminator slot. */
  predicate Invariant(g: Geometry, t: Buffer)
  {
    g.Valid() && Shaped(g, t.cells) && t.head < g.BufferLines() && t.column < g.columns
  }

  /** The static, zero-filled buffer the task starts from. */
  function Initial(g: Geometry): (t: Buffer)
    requires g.Valid()
    ensures Invariant(g, t)
    ensures forall i, j :: 0 <= i < |t.cells| && 0 <= j < |t.cells[i]| ==> t.cells[i][j] == NUL
  {
    Buffer(seq(g.BufferLines(), i => seq(g.BufferColumns(), j => NUL)), 0, 0)
  }

  /** One cell overwritten; every other cell and the shape stay as they were. */
  function Put(cells: seq<seq<byte>>, row: nat, col: nat, v: byte): (r: seq<seq<byte>>)
    requires row < |cells| && col < |cells[row]|
    ensures |r| == |cells|
    ensures forall i {:trigger r[i]} :: 0 <= i < |r| ==> |r[i]| == |cells[i]|
    ensures r[row][col] == v
    ensures forall i, j {:trigger r[i][j]} :: 0 <= i < |r| && 0 <= j < |r[i]| && (i != row || j != col) ==>
      r[i][j] == cells[i][j]
  {
    cells[row := cells[row][col := v]]
  }

  /** The line after `head`, wrapping to line 0 after the last one. */
  function NextLine(g: Geometry, head: nat): (h: nat)
    requires g.Valid()
    ensures h < g.BufferLines()
    ensures head + 1 < g.BufferLines() ==> h == head + 1
    ensures head + 1 == g.BufferLines() ==> h == 0
  {
    (head + 1) % g.BufferLines()
  }

  /** A byte the carriage-control rules write as text. */
  predicate Printable(b: byte)
  {
    b != CR && b != LF
  }

  /** Handling of one byte received from the queue. The receive stores the
      byte at the head cell; then a carriage return is replaced by a
      terminator and moves the head to column 0 of the next line, a line
      feed stays where it is, and any other byte moves the column on,
      wrapping to the next line once the line is full. Finally a terminator
      is put at the (new) head cell.

      Whatever the byte, the indices stay in range, the head cell holds a
      terminator and the last slot of every line is left alone. The lemmas
      below state what each kind of byte does. */
  function Step(g: Geometry, t: Buffer, b: byte): (r: Buffer)
    requires Invariant(g, t)
    ensures Invariant(g, r)
    ensures r.cells[r.head][r.column] == NUL
    ensures forall i {:trigger r.cells[i][g.columns]} :: 0 <= i < |r.cells| ==>
      r.cells[i][g.columns] == t.cells[i][g.columns]
  {
    var received := Put(t.cells, t.head, t.column, b);
    var next :=
      if b == CR then
        Buffer(Put(received, t.head, t.column, NUL), NextLine(g, t.head), 0)
      else if b == LF then
        Buffer(received, t.head, t.column)
      else if (t.column + 1) % 256 >= g.columns then
        Buffer(received, NextLine(g, t.head), 0)
      else
        Buffer(received, t.head, (t.column + 1) % 256);
    Buffer(Put(next.cells, next.head, next.column, NUL), next.head, next.column)
  }

  /** Every cell but (i0, j0) and (i1, j1) is the same in both buffers. */
  predicate SameExcept(a: seq<seq<byte>>, b: seq<seq<byte>>, i0: nat, j0: nat, i1: nat, j1: nat)
    requires |a| == |b| && forall i :: 0 <= i < |a| ==> |a[i]| == |b[i]|
  {
    forall i, j :: 0 <= i < |a| && 0 <= j < |a[i]| && (i != i0 || j != j0) && (i != i1 || j != j1) ==>
      a[i][j] == b[i][j]
  }

  /** A carriage return is replaced by a terminator in its cell; the head
      advances by exactly one line, modulo the line count, and the column
      returns to 0. Only those two cells change. */
  lemma StepCarriageReturn(g: Geometry, t: Buffer)
    requires Invariant(g, t)
    ensures Step(g, t, CR).head == NextLine(g, t.head)
    ensures Step(g, t, CR).column == 0
    ensures Step(g, t, CR).cells[t.head][t.column] == NUL
    ensures SameExcept(Step(g, t, CR).cells, t.cells, t.head, t.column, NextLine(g, t.head), 0)
  {
  }

  /** A line feed is swallowed: head and column stay, and only its own cell
      changes, to the terminator. */
  lemma StepLineFeed(g: Geometry, t: Buffer)
    requires Invariant(g, t)
    ensures Step(g, t, LF).head == t.head && Step(g, t, LF).column == t.column
    ensures SameExcept(Step(g, t, LF).cells, t.cells, t.head, t.column, t.head, t.column)
  {
  }

  /** Any other byte stays in its cell and the column advances; when it
      reaches TERMINAL_COLUMNS the head moves to column 0 of the next line,
      with no carriage return needed. Only the byte's cell and the new head
      cell change. */
  lemma StepPrintable(g: Geometry, t: Buffer, b: byte)
    requires Invariant(g, t) && Printable(b)
    ensures Step(g, t, b).cells[t.head][t.column] == b
    ensures t.column + 1 < g.columns ==>
      Step(g, t, b).head == t.head && Step(g, t, b).column == t.column + 1
    ensures t.column + 1 == g.columns ==>
      Step(g, t, b).head == NextLine(g, t.head) && Step(g, t, b).column == 0
    ensures SameExcept(Step(g, t, b).cells, t.cells, t.head, t.column,
                       Step(g, t, b).head, Step(g, t, b).column)
  {
  }

  /** The buffer after handling every byte of `xs`, first to last. */
  function Feed(g: Geometry, t: Buffer, xs: seq<byte>): (r: Buffer)
    requires Invariant(g, t)
    ensures Invariant(g, r)
    ensures forall i {:trigger r.cells[i][g.columns]} :: 0 <= i < |r.cells| ==>
      r.cells[i][g.columns] == t.cells[i][g.columns]
    ensures xs != [] ==> r.cells[r.head][r.column] == NUL
    decreases xs
  {
    if xs == [] then t else Feed(g, Step(g, t, xs[0]), xs[1..])
  }

  /** Handling the bytes in two batches is handling them in one: the order
      in which they arrive is the only thing that matters. */
  lemma {:induction false} FeedAppend(g: Geometry, t: Buffer, xs: seq<byte>, ys: seq<byte>)
    requires Invariant(g, t)
    ensures Feed(g, t, xs + ys) == Feed(g, Feed(g, t, xs), ys)
    decreases xs
  {
    if xs == [] {
      assert xs + ys == ys;
    } else {
      assert (xs + ys)[0] == xs[0];
      assert (xs + ys)[1..] == xs[1..] + ys;
      FeedAppend(g, Step(g, t, xs[0]), xs[1..], ys);
    }
  }

  /** A line feed changes nothing at all once the head cell already holds
      the terminator, as it does after every byte: the feed is stored in the
      head cell and then overwritten by the terminator again. */
  lemma LineFeedIsNoOp(g: Geometry, t: Buffer)
    requires Invariant(g, t)
    requires t.cells[t.head][t.column] == NUL
    ensures Step(g, t, LF) == t
  {
    var r := Step(g, t, LF);
    StepLineFeed(g, t);
    forall i | 0 <= i < |t.cells|
      ensures r.cells[i] == t.cells[i]
    {
      assert |r.cells[i]| == |t.cells[i]|;
    }
    assert r.cells == t.cells;
  }

  /** Handling one more byte after `xs` is one more step. */
  lemma FeedSnoc(g: Geometry, t: Buffer, xs: seq<byte>, b: byte)
    requires Invariant(g, t)
    ensures Feed(g, t, xs + [b]) == Step(g, Feed(g, t, xs), b)
  {
    FeedAppend(g, t, xs, [b]);
    var u := Feed(g, t, xs);
    assert Feed(g, u, [b]) == Feed(g, Step(g, u, b), []);
  }

  /** Every line keeps a terminator in its last slot: starting from the
      zero-filled buffer, whatever bytes arrive, the slot at index
      TERMINAL_COLUMNS of every line still holds NUL. */
  lemma EveryLineTerminated(g: Geometry, xs: seq<byte>)
    requires g.Valid()
    ensures forall i :: 0 <= i < g.BufferLines() ==> Feed(g, Initial(g), xs).cells[i][g.columns] == NUL
  {
  }

  /** A run of printable bytes that fits in the rest of the head line lands
      in consecutive cells of that line, in order, leaving the cells before
      the write column alone; the column ends just past the run, or, when
      the run fills the line exactly, the head moves to column 0 of the next
      line without any carriage return. */
  lemma {:induction false} FeedPrintable(g: Geometry, t: Buffer, w: seq<byte>)
    requires Invariant(g, t)
    requires forall k :: 0 <= k < |w| ==> Printable(w[k])
    requires t.column + |w| <= g.columns
    ensures forall k :: 0 <= k < |w| ==> Feed(g, t, w).cells[t.head][t.column + k] == w[k]
    ensures forall j :: 0 <= j < t.column ==> Feed(g, t, w).cells[t.head][j] == t.cells[t.head][j]
    ensures t.column + |w| < g.columns ==>
      Feed(g, t, w).head == t.head && Feed(g, t, w).column == t.column + |w|
    ensures t.column + |w| == g.columns ==>
      Feed(g, t, w).head == NextLine(g, t.head) && Feed(g, t, w).column == 0
    decreases w
  {
    if w != [] {
      var s := Step(g, t, w[0]);
      StepPrintable(g, t, w[0]);
      var r := Feed(g, t, w);
      assert r == Feed(g, s, w[1..]);
      if t.column + 1 < g.columns {
        FeedPrintable(g, s, w[1..]);
        forall k | 0 <= k < |w|
          ensures r.cells[t.head][t.column + k] == w[k]
        {
          if k > 0 {
            assert w[1..][k - 1] == w[k];
          }
        }
      } else {
        assert w[1..] == [];
      }
    }
  }

  /** `n` carriage returns, for `n` up to the buffer's line count, advance
      the head by `n` lines, wrapping past the last line to line 0, and
      leave the column at 0. */
  lemma {:induction false} FeedCarriageReturns(g: Geometry, t: Buffer, n: nat)
    requires Invariant(g, t)
    requires n <= g.BufferLines()
    ensures t.head + n < g.BufferLines() ==> Feed(g, t, seq(n, _ => CR)).head == t.head + n
    ensures t.head + n >= g.BufferLines() ==>
      Feed(g, t, seq(n, _ => CR)).head == t.head + n - g.BufferLines()
    ensures n > 0 ==> Feed(g, t, seq(n, _ => CR)).column == 0
    decreases n
  {
    var crs := seq(n, _ => CR);
    if n > 0 {
      var s := Step(g, t, CR);
      StepCarriageReturn(g, t);
      assert crs[0] == CR;
      assert crs[1..] == seq(n - 1, _ => CR);
      assert Feed(g, t, crs) == Feed(g, s, crs[1..]);
      FeedCarriageReturns(g, s, n - 1);
    }
  }

  /** Ring wrap-around: after as many carriage returns as the buffer has
      lines, the head is back where it started. */
  lemma RingWrapAround(g: Geometry, t: Buffer)
    requires Invariant(g, t)
    ensures Feed(g, t, seq(g.BufferLines(), _ => CR)).head == t.head
  {
    FeedCarriageReturns(g, t, g.BufferLines());
  }

  /** Feeding "ab\r\n" into the fresh buffer: the head has moved to line 1,
      where the line is empty, and line 0 holds "ab" followed by the
      terminator. */
  lemma CarriageReturnLineFeed(g: Geometry, a: byte, b: byte)
    requires g.Valid() && g.columns >= 3
    requires Printable(a) && Printable(b)
    ensures Feed(g, Initial(g), [a, b, CR, LF]).head == 1
    ensures Feed(g, Initial(g), [a, b, CR, LF]).column == 0
    ensures Feed(g, Initial(g), [a, b, CR, LF]).cells[1][0] == NUL
    ensures Feed(g, Initial(g), [a, b, CR, LF]).cells[0][..3] == [a, b, NUL]
  {
    var t0 := Initial(g);
    FeedPrintable(g, t0, [a, b]);
    var t2 := Feed(g, t0, [a, b]);
    var t3 := Step(g, t2, CR);
    StepCarriageReturn(g, t2);
    var t4 := Step(g, t3, LF);
    StepLineFeed(g, t3);
    FeedAppend(g, t0, [a, b], [CR, LF]);
    assert [a, b] + [CR, LF] == [a, b, CR, LF];
    assert Feed(g, t2, [CR, LF]) == Feed(g, t3, [LF]);
    assert Feed(g, t3, [LF]) == Feed(g, t4, []);
    assert t4.cells[0][..3] == [a, b, NUL];
  }

  /** The UART task's view of the buffer: `terminal_buffer` as a 2-D array,
      the head line index and the write column. `Cells` mirrors the array
      so that the task can be specified by `Step` and `Feed`. */
  class UartTask {
    const geometry: Geometry
    const buffer: array2<byte>
    var lineOffset: nat
    var column: nat
    ghost var Cells: seq<seq<byte>>

    ghost predicate Mirrors()
      reads this, buffer
    {
      geometry.Valid() &&
      buffer.Length0 == geometry.BufferLines() &&
      buffer.Length1 == geometry.BufferColumns() &&
      Shaped(geometry, Cells) &&
      forall i, j :: 0 <= i < buffer.Length0 && 0 <= j < buffer.Length1 ==>
        buffer[i, j] == Cells[i][j]
    }

    ghost predicate Valid()
      reads this, buffer
    {
      Mirrors() && Invariant(geometry, State())
    }

    ghost function State(): Buffer
      reads this
    {
      Buffer(Cells, lineOffset, column)
    }

    /** The buffer is static storage, so it starts zero-filled, with the head
        on line 0 and the column at 0. */
    constructor (g: Geometry)
      requires g.Valid()
      ensures Valid() && fresh(buffer)
      ensures geometry == g && State() == Initial(g)
    {
      geometry := g;
      buffer := new byte[g.BufferLines(), g.BufferColumns()]((i, j) => NUL);
      lineOffset, column := 0, 0;
      Cells := Initial(g).cells;
    }

    method Store(row: nat, col: nat, v: byte)
      requires Mirrors()
      requires row < buffer.Length0 && col < buffer.Length1
      modifies buffer, this`Cells
      ensures Mirrors()
      ensures Cells == Put(old(Cells), row, col, v)
    {
      buffer[row, col] := v;
      Cells := Put(Cells, row, col, v);
    }

    /** The body of the drain loop for one received byte `b`. */
    method HandleByte(b: byte)
      requires Valid()
      modifies this, buffer
      ensures Valid()
      ensures State() == Step(geometry, old(State()), b)
    {
      // the receive stores the byte at the head cell
      Store(lineOffset, column, b);
      if b == CR {
        Store(lineOffset, column, NUL);
        column := 0;
        lineOffset := (lineOffset + 1) % geometry.BufferLines();
      } else if b == LF {
        // swallowed: overwritten by the terminator below
      } else {
        column := (column + 1) % 256;
        if column >= geometry.columns {
          column := 0;
          lineOffset := (lineOffset + 1) % geometry.BufferLines();
        }
      }
      Store(lineOffset, column, NUL);
    }

    /** One pass of the UART task: take every byte the queue holds, oldest
        first, and handle it; the queue ends empty and the buffer is what
        `Feed` gives for those bytes. */
    method Drain(q: ByteQueue.Queue)
      requires Valid() && q.Valid()
      modifies this, buffer, q
      ensures Valid() && q.Valid()
      ensures q.items == []
      ensures State() == Feed(geometry, old(State()), old(q.items))
    {
      ghost var consumed: seq<byte> := [];
      while true
        invariant Valid() && q.Valid()
        invariant old(q.items) == consumed + q.items
        invariant State() == Feed(geometry, old(State()), consumed)
        decreases |q.items|
      {
        var next := q.Receive();
        if next.None? {
          break;
        }
        HandleByte(next.value);
        FeedSnoc(geometry, old(State()), consumed, next.value);
        consumed := consumed + [next.value];
      }
      assert consumed == old(q.items);
    }
  }
}
