/**
 The consoles of kernel/console.c: a part of the video memory longer than the screen, a window that moves
 over it line by line, and a copy back to the start of the part when its end is reached.
 */
module Console {
  import opened Wrappers
  import opened Slices

  const SCR_WIDTH := 80
  const SCR_SIZE := 2000
  const V_MEM_WORDS := 16384   // V_MEM_SIZE >> 1
  const NR_CONSOLES := 3
  const SPILL := 79            // as far as clear_screen can reach past a console

  datatype Cell = Cell(ch: char, color: int)

  const BACKSPACE := 8 as char
  const BLANK := Cell(' ', 7)

  datatype Direction = Up | Down

  // ------------------------------------------------------------------ where the window goes

  /** A console as offsets from its origin: its size, the top of the window and the cursor. */
  datatype View = View(size: int, top: int, cursor: int, full: bool)

  function LineOf(offset: int): int { offset / SCR_WIDTH * SCR_WIDTH }

  predicate Visible(v: View) { v.top <= v.cursor < v.top + SCR_SIZE }

  /** The window is line-aligned inside the console and the cursor is in the console. */
  predicate Framed(v: View) {
    && v.size % SCR_WIDTH == 0 && SCR_SIZE <= v.size
    && v.top % SCR_WIDTH == 0 && 0 <= v.top <= v.size - SCR_SIZE
    && 0 <= v.cursor < v.size
  }

  /** Before the buffer has wrapped for the first time the cursor is never above the window. */
  predicate Ok(v: View) { Framed(v) && (v.full || v.top <= v.cursor) }

  /** Where scroll_screen leaves the top of the window. */
  function Scrolled(v: View, dir: Direction): int
    requires v.size > 0
  {
    var newest := LineOf(v.cursor);
    var oldest := if v.full then (newest + SCR_WIDTH) % v.size else 0;
    if dir == Down then
      if !v.full then (if v.top > 0 then v.top - SCR_WIDTH else v.top)
      else if v.top == oldest then v.top
      else if v.top != 0 then v.top - SCR_WIDTH
      else if v.cursor >= v.size - SCR_SIZE then 0
      else v.size - SCR_SIZE
    else if !v.full then
      if newest >= v.top + SCR_SIZE then v.top + SCR_WIDTH else v.top
    else if v.top + SCR_SIZE - SCR_WIDTH == newest then v.top
    else if v.top + SCR_SIZE == v.size then 0
    else v.top + SCR_WIDTH
  }

  lemma ScrollKeepsOk(v: View, dir: Direction)
    requires Ok(v)
    ensures Ok(v.(top := Scrolled(v, dir)))
  {
  }

  /** The first window, going upwards from one without the cursor, that has it. */
  function Home(v: View): int {
    if LineOf(v.cursor) < SCR_SIZE - SCR_WIDTH then 0 else LineOf(v.cursor) - (SCR_SIZE - SCR_WIDTH)
  }

  /** How many lines up the window is from Home, going around the end of the buffer. */
  function Lag(v: View): int {
    (if v.top <= Home(v) then Home(v) - v.top else Home(v) - v.top + v.size - SCR_SIZE + SCR_WIDTH) / SCR_WIDTH
  }

  /** One round of the loop of out_char. */
  lemma ScrollApproaches(v: View)
    requires Ok(v) && !Visible(v)
    ensures var v' := v.(top := Scrolled(v, Up));
            && Ok(v') && 0 <= Lag(v') < Lag(v) && Home(v') == Home(v)
            && (Visible(v') <==> v'.top == Home(v))
  {
  }

  function ScrolledTimes(v: View, n: nat): (r: View)
    requires v.size > 0
    ensures r.size == v.size
    decreases n
  {
    if n == 0 then v else ScrolledTimes(v.(top := Scrolled(v, Up)), n - 1)
  }

  /** The loop of out_char, which scrolls up until the cursor is in the window, comes to an end. */
  ghost predicate Returns(v: View)
    requires v.size > 0
  {
    exists n: nat :: ShowsAfter(v, n)
  }

  predicate ShowsAfter(v: View, n: nat)
    requires v.size > 0
  {
    Visible(ScrolledTimes(v, n))
  }

  /**
   The loop of out_char comes to an end exactly unless the buffer has not wrapped yet and the cursor is above
   the window.
   */
  lemma {:induction false} LoopEnds(v: View)
    requires Framed(v)
    ensures Returns(v) <==> v.full || v.top <= v.cursor
    decreases Lag(v)
  {
    if Visible(v) {
      assert ShowsAfter(v, 0);
    } else if Ok(v) {
      ScrollApproaches(v);
      var v' := v.(top := Scrolled(v, Up));
      LoopEnds(v');
      var n: nat :| ShowsAfter(v', n);
      assert ShowsAfter(v, n + 1);
    } else {
      forall n: nat ensures !ShowsAfter(v, n) {
        Stays(v, n);
      }
    }
  }

  lemma {:induction false} Stays(v: View, n: nat)
    requires Framed(v) && !v.full && v.cursor < v.top
    ensures ScrolledTimes(v, n) == v
  {
    if n == 0 {
    } else {
      assert Scrolled(v, Up) == v.top;
      Stays(v, n - 1);
    }
  }

  // ------------------------------------------------------------------ what is in the buffer

  type Cells = seq<Cell>

  /** A console with its cells; the buffer includes the SPILL cells behind it. */
  datatype Con = Con(v: View, buf: Cells)

  predicate Fits(c: Con) { Framed(c.v) && |c.buf| == c.v.size + SPILL }

  predicate Good(c: Con) { Ok(c.v) && |c.buf| == c.v.size + SPILL }

  function Blanks(n: nat): (r: Cells)
    ensures |r| == n && forall i :: 0 <= i < n ==> r[i] == BLANK
  {
    seq(n, _ => BLANK)
  }

  function Blanked(buf: Cells, at: int): (r: Cells)
    requires 0 <= at <= |buf| - SCR_WIDTH
    ensures |r| == |buf|
  {
    buf[..at] + Blanks(SCR_WIDTH) + buf[at + SCR_WIDTH..]
  }

  /** The character itself. */
  function Typed(c: Con, ch: char): Con
    requires Fits(c)
  {
    var at := c.v.cursor;
    if ch == '\n' then Con(c.v.(cursor := SCR_WIDTH * (at / SCR_WIDTH + 1)), c.buf)
    else if ch == BACKSPACE then
      if at > 0 then Con(c.v.(cursor := at - 1), c.buf[at - 1 := BLANK]) else c
    else Con(c.v.(cursor := at + 1), c.buf[at := Cell(ch, 7)])
  }

  /** At the end of the console its last 24 lines are copied to its start. */
  function Wrapped(c: Con): Con
    requires c.v.size >= SCR_SIZE && c.v.size % SCR_WIDTH == 0 && |c.buf| == c.v.size + SPILL && c.v.cursor <= c.v.size
  {
    if c.v.cursor < c.v.size then c
    else
      var keep := SCR_SIZE - SCR_WIDTH;
      Con(View(c.v.size, 0, keep, true),
          Blanked(c.buf[c.v.size - keep..c.v.size] + c.buf[keep..], keep))
  }

  /** The window brought to the cursor, whose next 80 cells are cleared if it has to move. */
  function Brought(c: Con): Con
    requires Fits(c)
  {
    if Visible(c.v) then c else Con(c.v.(top := Home(c.v)), Blanked(c.buf, c.v.cursor))
  }

  function Out(c: Con, ch: char): Con
    requires Fits(c)
  {
    Brought(Wrapped(Typed(c, ch)))
  }

  /** A backspace that leaves through the top of the window. */
  predicate AboveWindow(c: Con, ch: char) {
    ch == BACKSPACE && c.v.cursor == c.v.top > 0
  }

  /** The one case in which out_char does not return. */
  predicate Stuck(c: Con, ch: char) {
    AboveWindow(c, ch) && !c.v.full
  }

  lemma BroughtShows(c: Con)
    requires Good(c)
    ensures Good(Brought(c)) && Visible(Brought(c).v) && Brought(c).v.size == c.v.size
  {
  }

  lemma WrappedFramed(c: Con, ch: char)
    requires Good(c)
    ensures var w := Wrapped(Typed(c, ch));
            Fits(w) && w.v.size == c.v.size && (w.v.full || w.v.top <= w.v.cursor <==> !Stuck(c, ch))
  {
  }

  /** out_char returns exactly when it is not stuck, and then it leaves a good console showing its cursor. */
  lemma OutReturns(c: Con, ch: char)
    requires Good(c)
    ensures var w := Wrapped(Typed(c, ch)).v;
            Returns(w) <==> !Stuck(c, ch)
    ensures !Stuck(c, ch) ==> Good(Out(c, ch)) && Visible(Out(c, ch).v) && Out(c, ch).v.size == c.v.size
  {
    WrappedFramed(c, ch);
    var w := Wrapped(Typed(c, ch));
    LoopEnds(w.v);
    if !Stuck(c, ch) {
      BroughtShows(w);
    }
  }

  // ------------------------------------------------------------------ the terminal it is meant to be

  /** 25 lines that scroll one at a time. */
  datatype Screen = Screen(cells: Cells, cursor: int)

  function Window(c: Con): Screen
    requires Fits(c)
  {
    Screen(c.buf[c.v.top..c.v.top + SCR_SIZE], c.v.cursor - c.v.top)
  }

  function Put(s: Screen, ch: char): Screen
    requires |s.cells| == SCR_SIZE && 0 <= s.cursor < SCR_SIZE
  {
    if ch == '\n' then LineFeed(s.cells, (s.cursor / SCR_WIDTH + 1) * SCR_WIDTH)
    else if ch == BACKSPACE then
      if s.cursor == 0 then s else Screen(s.cells[s.cursor - 1 := BLANK], s.cursor - 1)
    else LineFeed(s.cells[s.cursor := Cell(ch, 7)], s.cursor + 1)
  }

  function LineFeed(cells: Cells, cursor: int): Screen
    requires |cells| == SCR_SIZE
  {
    if cursor < SCR_SIZE then Screen(cells, cursor)
    else Screen(cells[SCR_WIDTH..] + Blanks(SCR_WIDTH), cursor - SCR_WIDTH)
  }

  /** Bringing back the window of a cursor just below it is a line feed. */
  lemma BroughtFeeds(c: Con, screen: Cells)
    requires Fits(c) && c.v.top <= c.v.cursor <= c.v.top + SCR_SIZE
    requires screen == c.buf[c.v.top..c.v.top + SCR_SIZE]
    ensures Window(Brought(c)) == LineFeed(screen, c.v.cursor - c.v.top)
  {
    if c.v.cursor == c.v.top + SCR_SIZE {
      assert Home(c.v) == c.v.top + SCR_WIDTH;
      var b := Blanked(c.buf, c.v.cursor);
      assert b[c.v.top + SCR_WIDTH..c.v.top + SCR_WIDTH + SCR_SIZE] == screen[SCR_WIDTH..] + Blanks(SCR_WIDTH);
    }
  }

  /** So is the copy at the end of the console. */
  lemma WrappedFeeds(c: Con, screen: Cells)
    requires |c.buf| == c.v.size + SPILL && c.v.size >= SCR_SIZE && c.v.size % SCR_WIDTH == 0
    requires c.v.cursor == c.v.size && c.v.top == c.v.size - SCR_SIZE && screen == c.buf[c.v.top..c.v.size]
    ensures Window(Wrapped(c)) == LineFeed(screen, SCR_SIZE)
  {
    var keep := SCR_SIZE - SCR_WIDTH;
    var copied := c.buf[c.v.size - keep..c.v.size] + c.buf[keep..];
    assert Blanked(copied, keep)[..SCR_SIZE] == screen[SCR_WIDTH..] + Blanks(SCR_WIDTH);
  }

  /** What the character does to the cells of the window. */
  lemma TypedShows(c: Con, ch: char)
    requires Good(c) && Visible(c.v) && !AboveWindow(c, ch)
    ensures var (was, at) := (Window(c).cells, c.v.cursor - c.v.top);
            Typed(c, ch).buf[c.v.top..c.v.top + SCR_SIZE] ==
            if ch == '\n' || (ch == BACKSPACE && at == 0) then was
            else if ch == BACKSPACE then was[at - 1 := BLANK]
            else was[at := Cell(ch, 7)]
  {
  }

  lemma PutFeeds(c: Con, ch: char)
    requires Good(c) && Visible(c.v) && !AboveWindow(c, ch)
    ensures var t := Typed(c, ch);
            && c.v.top <= t.v.cursor <= c.v.top + SCR_SIZE
            && Put(Window(c), ch) == LineFeed(t.buf[c.v.top..c.v.top + SCR_SIZE], t.v.cursor - c.v.top)
  {
    TypedShows(c, ch);
    assert c.v.cursor / SCR_WIDTH == (c.v.cursor - c.v.top) / SCR_WIDTH + c.v.top / SCR_WIDTH;
  }

  /** The cursor of a backspace above the window reappears elsewhere. */
  lemma AboveWindowShows(c: Con)
    requires Good(c) && AboveWindow(c, BACKSPACE) && c.v.full
    ensures Window(Out(c, BACKSPACE)).cursor % SCR_WIDTH == SCR_WIDTH - 1
  {
  }

  /** The window afterwards is that of the ideal terminal. */
  predicate ShowsPut(c: Con, ch: char)
    requires Fits(c) && Visible(c.v)
  {
    Fits(Out(c, ch)) && Window(Out(c, ch)) == Put(Window(c), ch)
  }

  /** One character shows as it does on the ideal terminal, exactly unless it is a backspace above the window. */
  lemma OutShowsPut(c: Con, ch: char)
    requires Good(c) && Visible(c.v) && !Stuck(c, ch)
    ensures ShowsPut(c, ch) <==> !AboveWindow(c, ch)
  {
    OutReturns(c, ch);
    if AboveWindow(c, ch) {
      AboveWindowShows(c);
    } else {
      var t := Typed(c, ch);
      var screen := t.buf[c.v.top..c.v.top + SCR_SIZE];
      PutFeeds(c, ch);
      if t.v.cursor >= c.v.size {
        WrappedFeeds(t, screen);
      } else {
        BroughtFeeds(t, screen);
      }
    }
  }

  /** The character fills the last cell, or ends the last line, of the console. */
  predicate ReachesEnd(c: Con, ch: char) {
    if ch == '\n' then c.v.cursor / 80 * 80 + 80 == c.v.size else ch != BACKSPACE && c.v.cursor + 1 == c.v.size
  }

  /** Where cursor and window are afterwards, from wherever the user has scrolled to. */
  lemma OutPlaces(c: Con, ch: char)
    requires Good(c) && !Stuck(c, ch)
    ensures var (v, r, at) := (c.v, Out(c, ch).v, c.v.cursor);
            && r.size == v.size && (r.full <==> v.full || ReachesEnd(c, ch))
            && r.cursor == (if ReachesEnd(c, ch) then 1920 else if ch == '\n' then at / 80 * 80 + 80
                            else if ch == BACKSPACE then if at == 0 then 0 else at - 1
                            else at + 1)
            && r.top == (if ReachesEnd(c, ch) then 0 else if v.top <= r.cursor < v.top + 2000 then v.top
                         else if r.cursor < 2000 then 0 else r.cursor / 80 * 80 - 1920)
  {
  }

  /** Cell i with the character printed, if it is printed there. */
  function Printed(c: Con, ch: char, i: int): Cell
    requires 0 <= i < |c.buf|
  {
    if i == c.v.cursor && ch != '\n' && ch != BACKSPACE then Cell(ch, 7) else c.buf[i]
  }

  lemma TypedCell(c: Con, ch: char, i: int)
    requires Fits(c) && 0 <= i < |c.buf|
    ensures var t := Typed(c, ch);
            && |t.buf| == |c.buf|
            && t.buf[i] == if ch == BACKSPACE && i == c.v.cursor - 1 then BLANK else Printed(c, ch, i)
    ensures Typed(c, ch).v == c.v.(cursor := Typed(c, ch).v.cursor)
    ensures Typed(c, ch).v.cursor == c.v.size <==> ReachesEnd(c, ch)
  {
  }

  lemma BroughtCell(c: Con, i: int)
    requires Fits(c) && 0 <= i < |c.buf|
    ensures var r := Brought(c);
            && |r.buf| == |c.buf| && r.v.cursor == c.v.cursor && (r.v.top != c.v.top <==> !Visible(c.v))
            && r.buf[i] == if !Visible(c.v) && c.v.cursor <= i < c.v.cursor + 80 then BLANK else c.buf[i]
  {
  }

  /** Until the buffer wraps, the lines the user can scroll back to stay as they were. */
  lemma HistoryKept(c: Con, ch: char, i: int)
    requires Good(c) && !Stuck(c, ch) && !ReachesEnd(c, ch) && 0 <= i < |c.buf|
    ensures var (r, at) := (Out(c, ch), c.v.cursor);
            && |r.buf| == |c.buf|
            && r.buf[i] ==
               if r.v.top != c.v.top && r.v.cursor <= i < r.v.cursor + 80 then BLANK
               else if ch == BACKSPACE && i == at - 1 then BLANK
               else Printed(c, ch, i)
  {
    TypedCell(c, ch, i);
    OutReturns(c, ch);
    BroughtCell(Typed(c, ch), i);
  }

  /** When it does, its last 24 lines go to the start, and all but the first 25 stay as well. */
  lemma HistoryWraps(c: Con, ch: char, i: int)
    requires Good(c) && ReachesEnd(c, ch) && 0 <= i < |c.buf|
    ensures var (buf, from) := (Out(c, ch).buf, c.v.size - 1920);
            && |buf| == |c.buf|
            && (i >= 2000 ==> buf[i] == Printed(c, ch, i))
            && (1920 <= i < 2000 ==> buf[i] == BLANK)
            && (from <= i < c.v.size ==> buf[i - from] == Printed(c, ch, i))
  {
    TypedCell(c, ch, i);
    WrapMoves(Typed(c, ch), i);
  }

  lemma WrapMoves(t: Con, i: int)
    requires t.v.size >= SCR_SIZE && t.v.size % SCR_WIDTH == 0 && |t.buf| == t.v.size + SPILL && t.v.cursor == t.v.size
    requires 0 <= i < |t.buf|
    ensures var buf := Wrapped(t).buf;
            && |buf| == |t.buf|
            && (i >= 2000 ==> buf[i] == t.buf[i])
            && (1920 <= i < 2000 ==> buf[i] == BLANK)
            && (t.v.size - 1920 <= i < t.v.size ==> buf[i - (t.v.size - 1920)] == t.buf[i])
  {
  }

  function OutAll(c: Con, text: string): Con
    requires Good(c) && Settled(c, text)
    decreases |text|
  {
    if text == [] then c else OutReturns(c, text[0]); OutAll(Out(c, text[0]), text[1..])
  }

  /** No backspace of the text goes above the window. */
  ghost predicate Settled(c: Con, text: string)
    requires Good(c)
    decreases |text|
  {
    text == [] || (!AboveWindow(c, text[0]) && (OutReturns(c, text[0]); Settled(Out(c, text[0]), text[1..])))
  }

  function PutAll(s: Screen, text: string): Screen
    requires |s.cells| == SCR_SIZE && 0 <= s.cursor < SCR_SIZE
    decreases |text|
  {
    if text == [] then s else PutAll(Put(s, text[0]), text[1..])
  }

  /** Any text shows as it does on the ideal terminal. */
  lemma {:induction false} TextShows(c: Con, text: string)
    requires Good(c) && Visible(c.v) && Settled(c, text)
    ensures Fits(OutAll(c, text)) && Window(OutAll(c, text)) == PutAll(Window(c), text)
    decreases |text|
  {
    if text == [] {
    } else {
      OutReturns(c, text[0]);
      OutShowsPut(c, text[0]);
      TextShows(Out(c, text[0]), text[1..]);
    }
  }

  /** Text without backspaces always qualifies. */
  lemma {:induction false} PlainTextSettles(c: Con, text: string)
    requires Good(c) && BACKSPACE !in text
    ensures Settled(c, text)
    decreases |text|
  {
    if text == [] {
    } else {
      OutReturns(c, text[0]);
      PlainTextSettles(Out(c, text[0]), text[1..]);
    }
  }

  // ------------------------------------------------------------------ output and user scrolling mixed

  datatype Event = Print(ch: char) | Scroll(dir: Direction)

  function Next(c: Con, e: Event): Con
    requires Fits(c)
  {
    match e
    case Print(ch) => Out(c, ch)
    case Scroll(dir) => Con(c.v.(top := Scrolled(c.v, dir)), c.buf)
  }

  /** The console after the events, or None if out_char has been called where it does not return. */
  function Ran(c: Con, events: seq<Event>): (r: Option<Con>)
    requires Good(c)
    ensures r.Some? ==> Good(r.value) && r.value.v.size == c.v.size
  {
    if events == [] then Some(c)
    else
      var before := Ran(c, events[..|events| - 1]);
      var e := events[|events| - 1];
      if before.None? || (e.Print? && Stuck(before.value, e.ch)) then None
      else
        if e.Print? then OutReturns(before.value, e.ch); Some(Next(before.value, e))
        else ScrollKeepsOk(before.value.v, e.dir); Some(Next(before.value, e))
  }

  /** A console that has wrapped, or is never sent a backspace, takes any mix of output and scrolling. */
  lemma {:induction false} RunsUnlessStuck(c: Con, events: seq<Event>)
    requires Good(c) && (c.v.full || Print(BACKSPACE) !in events)
    ensures Ran(c, events).Some? && (c.v.full ==> Ran(c, events).value.v.full)
  {
    if events == [] {
    } else {
      RunsUnlessStuck(c, events[..|events| - 1]);
    }
  }

  /** What a character does behind the console: nothing, except when the window moves to a cursor on the last line. */
  lemma SpillsExactly(c: Con, ch: char)
    requires Good(c) && !Stuck(c, ch)
    ensures var w := Wrapped(Typed(c, ch)).v;
            Out(c, ch).buf[c.v.size..] ==
            if !Visible(w) && w.cursor > c.v.size - SCR_WIDTH
            then Blanks(w.cursor + SCR_WIDTH - c.v.size) + c.buf[w.cursor + SCR_WIDTH..]
            else c.buf[c.v.size..]
  {
    var t := Typed(c, ch);
    var w := Wrapped(t);
    assert t.buf[c.v.size..] == c.buf[c.v.size..];
    WrappedTail(t);
    BroughtTail(w);
  }

  lemma WrappedTail(t: Con)
    requires |t.buf| == t.v.size + SPILL && t.v.size >= SCR_SIZE && t.v.size % SCR_WIDTH == 0 && t.v.cursor <= t.v.size
    ensures Wrapped(t).buf[t.v.size..] == t.buf[t.v.size..]
  {
  }

  lemma BroughtTail(w: Con)
    requires Fits(w)
    ensures Brought(w).buf[w.v.size..] ==
            if !Visible(w.v) && w.v.cursor > w.v.size - SCR_WIDTH
            then Blanks(w.v.cursor + SCR_WIDTH - w.v.size) + w.buf[w.v.cursor + SCR_WIDTH..]
            else w.buf[w.v.size..]
  {
  }

  lemma ShownReachesNoSpill(c: Con, ch: char)
    requires Good(c) && Visible(c.v) && !AboveWindow(c, ch)
    ensures var w := Wrapped(Typed(c, ch)).v; Visible(w) || w.cursor <= c.v.size - SCR_WIDTH
  {
    PutFeeds(c, ch);
    WrappedFramed(c, ch);
  }

  /** With the cursor in the window no character reaches past the console. */
  lemma ShownDoesNotSpill(c: Con, ch: char)
    requires Good(c) && Visible(c.v) && !AboveWindow(c, ch)
    ensures Out(c, ch).buf[c.v.size..] == c.buf[c.v.size..]
  {
    ShownReachesNoSpill(c, ch);
    SpillsExactly(c, ch);
  }

  lemma WrapsAround(a: int, m: int)
    requires 0 <= a <= m && m > 0
    ensures a % m == if a == m then 0 else a
  {
  }

  lemma OldestLine(v: View)
    requires Framed(v)
    ensures var next := LineOf(v.cursor) + SCR_WIDTH;
            next % v.size == if next == v.size then 0 else next
  {
    WrapsAround(LineOf(v.cursor) + SCR_WIDTH, v.size);
  }

  /** Scrolling down takes back a scroll up, exactly with these exceptions after the buffer has wrapped. */
  lemma DownUndoesUp(v: View)
    requires Ok(v) && Scrolled(v, Up) != v.top
    ensures (Scrolled(v.(top := Scrolled(v, Up)), Down) == v.top) <==>
            (!v.full || if v.top + SCR_SIZE < v.size then LineOf(v.cursor) != v.top else v.cursor < v.size - SCR_SIZE)
  {
    OldestLine(v);
  }

  /** The line written longest ago, once the buffer has wrapped: the one after the cursor's, around the end. */
  function Oldest(v: View): int {
    if LineOf(v.cursor) + SCR_WIDTH == v.size then 0 else LineOf(v.cursor) + SCR_WIDTH
  }

  /**
   Scrolling down has no effect exactly at the first line of a buffer that has not wrapped, and afterwards at the
   oldest line, or at the start with the cursor in the last screen; scrolling up, exactly with the cursor's line in the
   window before, and as its last line afterwards.
   */
  lemma ScrollStops(v: View)
    requires Ok(v) && v.size > SCR_SIZE
    ensures Scrolled(v, Down) == v.top <==>
              if !v.full then v.top == 0
              else v.top == Oldest(v) || (v.top == 0 && LineOf(v.cursor) >= v.size - SCR_SIZE)
    ensures Scrolled(v, Up) == v.top <==>
              if !v.full then LineOf(v.cursor) < v.top + SCR_SIZE
              else LineOf(v.cursor) == v.top + SCR_SIZE - SCR_WIDTH
  {
    OldestLine(v);
  }

  /** Otherwise the window moves by one line, around the ends of the buffer. */
  lemma ScrollMoves(v: View)
    requires Ok(v)
    ensures Scrolled(v, Down) != v.top ==>
              Scrolled(v, Down) == if v.top > 0 then v.top - SCR_WIDTH else v.size - SCR_SIZE
    ensures Scrolled(v, Up) != v.top ==>
              Scrolled(v, Up) == if v.top + SCR_SIZE < v.size then v.top + SCR_WIDTH else 0
  {
  }

  // ------------------------------------------------------------------ the consoles

  /** init_screen's share of the video memory for console n. */
  function Origin(n: nat): int { n * (V_MEM_WORDS / NR_CONSOLES) }

  const CON_SIZE := V_MEM_WORDS / NR_CONSOLES / SCR_WIDTH * SCR_WIDTH

  /**
   The consoles are disjoint parts of the video memory of more than two screens each, but the spill of one
   reaches into the next, and that of the last leaves the video memory.
   */
  lemma Geometry(m: nat, n: nat)
    requires m < n < NR_CONSOLES
    ensures Origin(m) + CON_SIZE <= Origin(n) && Origin(n) + CON_SIZE <= V_MEM_WORDS
    ensures CON_SIZE % SCR_WIDTH == 0 && CON_SIZE >= 2 * SCR_SIZE
    ensures Origin(m) + CON_SIZE + SPILL > Origin(m + 1) && Origin(NR_CONSOLES - 1) + CON_SIZE + SPILL > V_MEM_WORDS
  {
    if n == 2 && m == 0 {
      assert Origin(1) < Origin(2);
    }
  }

  /** ClearScreen and WCopy on the part of the video memory that a console reaches. */
  lemma ClearedPart(mem: Cells, orig: nat, len: nat, at: nat)
    requires orig + len <= |mem| && at + SCR_WIDTH <= len
    ensures var after := mem[..orig + at] + Blanks(SCR_WIDTH) + mem[orig + at + SCR_WIDTH..];
            && after[orig..orig + len] == Blanked(mem[orig..orig + len], at)
            && after[..orig] == mem[..orig] && after[orig + len..] == mem[orig + len..]
  {
  }

  lemma CopiedPart(mem: Cells, orig: nat, len: nat, from: nat, n: nat)
    requires orig + len <= |mem| && from + n <= len
    ensures var after := mem[..orig] + mem[orig + from..orig + from + n] + mem[orig + n..];
            && after[orig..orig + len] == mem[orig..orig + len][from..from + n] + mem[orig..orig + len][n..]
            && after[..orig] == mem[..orig] && after[orig + len..] == mem[orig + len..]
  {
    var (buf, rest) := (mem[orig..orig + len], mem[orig + len..]);
    SliceOfSlice(mem, orig, orig + len, from, from + n);
    assert mem[orig + n..] == buf[n..] + rest;
    var copied := buf[from..from + n] + buf[n..];
    assert mem[..orig] + buf[from..from + n] + (buf[n..] + rest) == mem[..orig] + copied + rest;
  }

  lemma CopyStep(mem: Cells, dst: nat, src: nat, k: nat)
    requires dst <= src && src + k < |mem|
    ensures var now := mem[..dst] + mem[src..src + k] + mem[dst + k..];
            && now[src + k] == mem[src + k]
            && now[dst + k := mem[src + k]] == mem[..dst] + mem[src..src + k + 1] + mem[dst + k + 1..]
  {
  }

  /** What a console c looks like while the loop of out_char brings its window to the cursor. */
  ghost predicate Bringing(c: Con, now: Con)
    requires Fits(c)
  {
    && Good(now) && now.v == c.v.(top := now.v.top)
    && (now == c || (!Visible(c.v) && now.buf == Blanked(c.buf, c.v.cursor)))
    && (Visible(now.v) ==> now == Brought(c))
  }

  lemma BringStep(c: Con, now: Con)
    requires Fits(c) && Bringing(c, now) && !Visible(now.v)
    ensures Bringing(c, Con(now.v.(top := Scrolled(now.v, Up)), Blanked(now.buf, c.v.cursor)))
  {
    ScrollApproaches(now.v);
    assert Blanked(Blanked(c.buf, c.v.cursor), c.v.cursor) == Blanked(c.buf, c.v.cursor);
  }

  class Terminal {
    const orig: nat
    const conSize: nat
    const vmem: array<Cell>   // from V_MEM_BASE, with what can be reached behind it
    var crtcStart: int
    var cursor: int
    var isFull: bool

    ghost predicate Placed()
      reads this
    {
      && SCR_SIZE <= conSize && conSize % SCR_WIDTH == 0 && orig + conSize + SPILL <= vmem.Length
      && orig <= cursor <= orig + conSize
    }

    ghost function Contents(): (c: Con)
      reads this, vmem
      requires orig + conSize + SPILL <= vmem.Length
      ensures |c.buf| == conSize + SPILL
    {
      Con(View(conSize, crtcStart - orig, cursor - orig, isFull), vmem[orig..orig + conSize + SPILL])
    }

    ghost predicate Valid()
      reads this, vmem
    {
      Placed() && Good(Contents())
    }

    /** The part of init_screen that places console n; the first one keeps the cursor the boot left. */
    constructor (n: nat, vmem: array<Cell>, bootCursor: int)
      requires n < NR_CONSOLES && V_MEM_WORDS + SPILL <= vmem.Length && 0 <= bootCursor < CON_SIZE
      ensures Valid() && this.vmem == vmem && vmem[..] == old(vmem[..]) && orig == Origin(n) && conSize == CON_SIZE
      ensures Contents().v == View(CON_SIZE, 0, if n == 0 then bootCursor else 0, false)
    {
      var vMemSize := V_MEM_WORDS;
      var sizePerCon := vMemSize / NR_CONSOLES;
      this.vmem := vmem;
      orig := n * sizePerCon;
      conSize := sizePerCon / SCR_WIDTH * SCR_WIDTH;
      cursor := n * sizePerCon;
      crtcStart := n * sizePerCon;
      isFull := false;
      if n == 0 {
        cursor := bootCursor;
      }
    }

    /** w_copy, which copies upwards. */
    method WCopy(dst: int, src: int, size: nat)
      requires 0 <= dst <= src && src + size <= vmem.Length
      modifies vmem
      ensures vmem[..] == old(vmem[..dst] + vmem[src..src + size] + vmem[dst + size..])
    {
      ghost var was := vmem[..];
      for k := 0 to size
        invariant vmem[..] == was[..dst] + was[src..src + k] + was[dst + k..]
      {
        CopyStep(was, dst, src, k);
        assert vmem[src + k] == vmem[..][src + k];
        vmem[dst + k] := vmem[src + k];
      }
    }

    method ClearScreen(pos: int, len: nat)
      requires 0 <= pos && pos + len <= vmem.Length
      modifies vmem
      ensures vmem[..] == old(vmem[..pos]) + Blanks(len) + old(vmem[pos + len..])
    {
      ghost var was := vmem[..];
      assert was == was[..pos] + Blanks(0) + was[pos..];
      for k := 0 to len
        invariant vmem[..] == was[..pos] + Blanks(k) + was[pos + k..]
      {
        assert was[..pos] + Blanks(k + 1) + was[pos + k + 1..]
            == (was[..pos] + Blanks(k) + was[pos + k..])[pos + k := BLANK];
        vmem[pos + k] := BLANK;
      }
    }

    method ScrollScreen(dir: Direction)
      requires Placed()
      modifies this`crtcStart
      ensures crtcStart - orig == Scrolled(old(Contents()).v, dir)
    {
      var newest := (cursor - orig) / SCR_WIDTH * SCR_WIDTH;
      var oldest := if isFull then (newest + SCR_WIDTH) % conSize else 0;
      var scrTop := crtcStart - orig;
      if dir == Down {
        if !isFull && scrTop > 0 {
          crtcStart := crtcStart - SCR_WIDTH;
        } else if isFull && scrTop != oldest {
          if cursor - orig >= conSize - SCR_SIZE {
            if crtcStart != orig {
              crtcStart := crtcStart - SCR_WIDTH;
            }
          } else if crtcStart == orig {
            scrTop := conSize - SCR_SIZE;
            crtcStart := orig + scrTop;
          } else {
            crtcStart := crtcStart - SCR_WIDTH;
          }
        }
      } else {
        if !isFull && newest >= scrTop + SCR_SIZE {
          crtcStart := crtcStart + SCR_WIDTH;
        } else if isFull && scrTop + SCR_SIZE - SCR_WIDTH != newest {
          if scrTop + SCR_SIZE == conSize {
            crtcStart := orig;
          } else {
            crtcStart := crtcStart + SCR_WIDTH;
          }
        }
      }
    }

    /** The cells that are not this console's, nor right behind it. */
    ghost function Others(): Cells
      reads vmem
      requires orig + conSize + SPILL <= vmem.Length
    {
      vmem[..orig] + vmem[orig + conSize + SPILL..]
    }

    method OutChar(ch: char)
      requires Valid() && !Stuck(Contents(), ch)
      modifies this`crtcStart, this`cursor, this`isFull, vmem
      ensures Valid() && Contents() == Out(old(Contents()), ch)
      ensures Others() == old(Others())
    {
      OutReturns(Contents(), ch);
      Type(ch);
      if cursor - orig >= conSize {
        Wrap();
      }
      Bring();
    }

    /** The switch of out_char. */
    method Type(ch: char)
      requires Valid()
      modifies this`cursor, vmem
      ensures Placed() && Contents() == Typed(old(Contents()), ch) && Others() == old(Others())
    {
      ghost var was := vmem[..];
      var at := cursor;
      var cursorY := (cursor - orig) / SCR_WIDTH;
      if ch == '\n' {
        cursor := orig + SCR_WIDTH * (cursorY + 1);
      } else if ch == BACKSPACE {
        if cursor > orig {
          cursor := cursor - 1;
          vmem[at - 1] := BLANK;
          assert vmem[..] == was[at - 1 := BLANK];
        }
      } else {
        vmem[at] := Cell(ch, 7);
        cursor := cursor + 1;
        assert vmem[..] == was[at := Cell(ch, 7)];
      }
    }

    /** The copy of the last lines to the start of the console. */
    method Wrap()
      requires Placed() && cursor == orig + conSize
      modifies this`crtcStart, this`cursor, this`isFull, vmem
      ensures Placed() && Contents() == Wrapped(old(Contents())) && Others() == old(Others())
    {
      var cursorX := (cursor - orig) % SCR_WIDTH;
      var cursorY := (cursor - orig) / SCR_WIDTH;
      var cpOrig := orig + (cursorY + 1) * SCR_WIDTH - SCR_SIZE;
      assert cursorX == 0 && cpOrig - orig == conSize - (SCR_SIZE - SCR_WIDTH);
      CopyLines(cpOrig);
      crtcStart := orig;
      cursor := orig + (SCR_SIZE - SCR_WIDTH) + cursorX;
      ClearLine();
      isFull := true;
    }

    /** The last 24 lines copied to the start. */
    method CopyLines(from: int)
      requires Placed() && orig <= from <= orig + conSize - (SCR_SIZE - SCR_WIDTH)
      modifies vmem
      ensures var buf := old(Contents()).buf;
              Contents().buf == buf[from - orig..from - orig + SCR_SIZE - SCR_WIDTH] + buf[SCR_SIZE - SCR_WIDTH..]
      ensures Others() == old(Others())
    {
      CopiedPart(vmem[..], orig, conSize + SPILL, from - orig, SCR_SIZE - SCR_WIDTH);
      WCopy(orig, from, SCR_SIZE - SCR_WIDTH);
      assert Contents().buf == vmem[..][orig..orig + conSize + SPILL];
      assert Others() == vmem[..][..orig] + vmem[..][orig + conSize + SPILL..];
    }

    /** The 80 cells from the cursor cleared. */
    method ClearLine()
      requires Placed() && cursor < orig + conSize
      modifies vmem
      ensures Contents().buf == Blanked(old(Contents()).buf, cursor - orig)
      ensures Others() == old(Others())
    {
      ClearedPart(vmem[..], orig, conSize + SPILL, cursor - orig);
      ClearScreen(cursor, SCR_WIDTH);
      assert Contents().buf == vmem[..][orig..orig + conSize + SPILL];
      assert Others() == vmem[..][..orig] + vmem[..][orig + conSize + SPILL..];
    }

    /** The loop of out_char. */
    method Bring()
      requires Valid()
      modifies this`crtcStart, vmem
      ensures Placed() && Contents() == Brought(old(Contents())) && Others() == old(Others())
    {
      ghost var c := Contents();
      while cursor >= crtcStart + SCR_SIZE || cursor < crtcStart
        invariant Bringing(c, Contents()) && Others() == old(Others())
        decreases Lag(Contents().v)
      {
        ghost var now := Contents();
        BringStep(c, now);
        ScrollApproaches(now.v);
        ScrollAndClear();
      }
    }

    /** A round of it. */
    method ScrollAndClear()
      requires Placed() && cursor < orig + conSize
      modifies this`crtcStart, vmem
      ensures Placed() && Others() == old(Others())
      ensures var now := old(Contents());
              Contents() == Con(now.v.(top := Scrolled(now.v, Up)), Blanked(now.buf, now.v.cursor))
    {
      ScrollScreen(Up);
      ClearLine();
    }
  }
}
