/** Texts and scrolling that drive a new console into the cases in which out_char goes wrong. */
module ConsoleExamples {
  import opened Console
  import opened Wrappers

  function New(buf: Cells): Con { Con(View(CON_SIZE, 0, 0, false), buf) }

  /** n newlines and then k backspaces. */
  function Lines(n: nat): seq<Event> { if n == 0 then [] else Lines(n - 1) + [Print('\n')] }

  function Rubbed(n: nat, k: nat): seq<Event> {
    if k == 0 then Lines(n) else Rubbed(n, k - 1) + [Print(BACKSPACE)]
  }

  lemma RanOne(c: Con, es: seq<Event>, e: Event)
    requires Good(c) && Ran(c, es).Some? && (e.Print? ==> !Stuck(Ran(c, es).value, e.ch))
    ensures Ran(c, es + [e]) == Some(Next(Ran(c, es).value, e))
  {
    assert (es + [e])[..|es|] == es;
  }

  /** The console after n newlines: the cursor at line n, and the window on it once that is past line 24. */
  ghost predicate AtLine(buf: Cells, c: Con, n: nat) {
    && c.v == View(CON_SIZE, if n <= 24 then 0 else SCR_WIDTH * (n - 24), SCR_WIDTH * n, false)
    && |c.buf| == |buf| == CON_SIZE + SPILL && c.buf[CON_SIZE..] == buf[CON_SIZE..]
  }

  lemma OneMoreLine(buf: Cells, c: Con, n: nat)
    requires AtLine(buf, c, n) && n < 67
    ensures Good(c) && AtLine(buf, Out(c, '\n'), n + 1)
  {
    ShownDoesNotSpill(c, '\n');
  }

  lemma {:induction false} LinesFeed(buf: Cells, n: nat)
    requires |buf| == CON_SIZE + SPILL && n <= 67
    ensures Ran(New(buf), Lines(n)).Some? && AtLine(buf, Ran(New(buf), Lines(n)).value, n)
  {
    if n == 0 {
      assert Ran(New(buf), Lines(0)) == Some(New(buf));
    } else {
      LinesFeed(buf, n - 1);
      OneMoreLine(buf, Ran(New(buf), Lines(n - 1)).value, n - 1);
      RanOne(New(buf), Lines(n - 1), Print('\n'));
    }
  }

  lemma {:induction false} RubsBack(buf: Cells, k: nat)
    requires |buf| == CON_SIZE + SPILL && k <= SCR_SIZE - SCR_WIDTH
    ensures Ran(New(buf), Rubbed(25, k)).Some?
    ensures Ran(New(buf), Rubbed(25, k)).value.v == View(CON_SIZE, SCR_WIDTH, SCR_SIZE - k, false)
  {
    if k == 0 {
      LinesFeed(buf, 25);
    } else {
      RubsBack(buf, k - 1);
      RanOne(New(buf), Rubbed(25, k - 1), Print(BACKSPACE));
    }
  }

  /** On a new console, 25 newlines and 1921 backspaces: the last one does not return. */
  lemma BackspaceSticks(buf: Cells)
    requires |buf| == CON_SIZE + SPILL
    ensures var r := Ran(New(buf), Rubbed(25, SCR_SIZE - SCR_WIDTH)); r.Some? && Stuck(r.value, BACKSPACE)
  {
    RubsBack(buf, SCR_SIZE - SCR_WIDTH);
  }

  lemma TypedOnLastLine(c: Con)
    requires c.v == View(CON_SIZE, SCR_WIDTH * 42, SCR_WIDTH * 67, false) && |c.buf| == CON_SIZE + SPILL
    ensures Good(c) && !Stuck(c, 'a')
    ensures Wrapped(Typed(c, 'a')).v == View(c.v.size, SCR_WIDTH * 42, c.v.size - SCR_WIDTH + 1, false)
  {
  }

  /** A character that leaves the cursor one past the start of the last line, below the window, clears too much. */
  lemma LastLineSpills(c: Con, ch: char)
    requires Good(c) && !Stuck(c, ch) && Wrapped(Typed(c, ch)).v.cursor == c.v.size - SCR_WIDTH + 1
    requires !Visible(Wrapped(Typed(c, ch)).v)
    ensures Out(c, ch).buf[c.v.size..] == Blanks(1) + c.buf[c.v.size + 1..]
  {
    SpillsExactly(c, ch);
  }

  /** On a new console, 67 newlines, one line scrolled down by the user and an a clear a cell behind the console. */
  lemma TypingSpills(buf: Cells)
    requires |buf| == CON_SIZE + SPILL
    ensures var r := Ran(New(buf), Lines(67) + [Scroll(Down)]);
            && r.Some? && r.value.buf[CON_SIZE..] == buf[CON_SIZE..] && !Stuck(r.value, 'a')
            && Out(r.value, 'a').buf[CON_SIZE..] == Blanks(1) + r.value.buf[CON_SIZE + 1..]
  {
    LinesFeed(buf, 67);
    RanOne(New(buf), Lines(67), Scroll(Down));
    var c := Ran(New(buf), Lines(67) + [Scroll(Down)]).value;
    TypedOnLastLine(c);
    LastLineSpills(c, 'a');
  }
}
