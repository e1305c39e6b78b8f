/** The text screen: a scrolling 80 by 25 terminal, and three virtual screens over one buffer. */
module Vga {
  import opened Layout

  const WIDTH := 80
  const CELLS := 2000
  const NB_SCREENS := 3

  /** A character in the low byte and its colours in the high byte. */
  type Cell = x: int | 0 <= x < 0x1_0000
  /** Colours in place: a multiple of 256, so that adding a character keeps them apart. */
  type Attr = x: int | 0 <= x < 0x1_0000 && x % 256 == 0

  const NEWLINE: Byte := 10
  const SPACE: Byte := 32
  const DEFAULT_ATTR: Attr := 0x0F00

  // ----- A terminal as a value -----

  datatype Term = Term(cells: seq<Cell>, cursor: int, attr: Attr)

  predicate TermOk(t: Term) {
    |t.cells| == CELLS && 0 <= t.cursor < CELLS
  }

  /** A character in its colours: both read back out of the cell. */
  function Glyph(attr: Attr, b: Byte): (c: Cell)
    ensures CharOf(c) == b && AttrOf(c) == attr
  {
    attr + b
  }

  function CharOf(c: Cell): Byte { c % 256 }

  function AttrOf(c: Cell): Attr { c - c % 256 }

  type Color = x: int | 0 <= x < 16

  /** A foreground in bits 8 to 11 and a background in bits 12 to 15. */
  function ColorAttr(fg: Color, bg: Color): (a: Attr)
    ensures a / 4096 == bg && a / 256 % 16 == fg
  {
    bg * 4096 + fg * 256
  }

  function Blank(attr: Attr): Cell { Glyph(attr, SPACE) }

  function Cleared(t: Term): Term {
    Term(seq(CELLS, _ => Blank(t.attr)), 0, t.attr)
  }

  /** A screen never entered before. */
  function Fresh(): (t: Term)
    ensures TermOk(t) && t.cursor == 0 && t.attr == DEFAULT_ATTR
    ensures forall j :: 0 <= j < CELLS ==> t.cells[j] == 0x0F20
  {
    Cleared(Term([], 0, DEFAULT_ATTR))
  }

  function Scrolled(cells: seq<Cell>, attr: Attr): seq<Cell>
    requires |cells| == CELLS
  {
    cells[WIDTH..] + seq(WIDTH, _ => Blank(attr))
  }

  /** One byte: a newline or a character, and a scroll when the page is full. */
  function Put(t: Term, b: Byte): (r: Term)
    requires TermOk(t)
    ensures TermOk(r) && r.attr == t.attr
  {
    var cells := if b == NEWLINE then t.cells else t.cells[t.cursor := Glyph(t.attr, b)];
    var cursor := if b == NEWLINE then t.cursor - t.cursor % WIDTH + WIDTH else t.cursor + 1;
    if cursor >= CELLS then Term(Scrolled(cells, t.attr), CELLS - WIDTH, t.attr)
    else Term(cells, cursor, t.attr)
  }

  function Print(t: Term, text: seq<Byte>): (r: Term)
    requires TermOk(t)
    ensures TermOk(r) && r.attr == t.attr
  {
    if text == [] then t else Put(Print(t, text[..|text| - 1]), text[|text| - 1])
  }

  function Erased(t: Term): (r: Term)
    requires TermOk(t)
    ensures TermOk(r)
  {
    if t.cursor > 0 then Term(t.cells[t.cursor - 1 := Blank(t.attr)], t.cursor - 1, t.attr) else t
  }

  // ----- The unbounded page -----

  /** Where the next byte goes on an endless page of 80 columns. */
  function Pos(text: seq<Byte>): nat {
    if text == [] then 0
    else
      var p := Pos(text[..|text| - 1]);
      if text[|text| - 1] == 10 then (p / 80 + 1) * 80 else p + 1
  }

  /** The character at position `k` of the endless page: the last byte laid out there, or a space. */
  function Laid(text: seq<Byte>, k: int): Byte {
    if text == [] then 32
    else
      var before, b := text[..|text| - 1], text[|text| - 1];
      if b != 10 && k == Pos(before) then b else Laid(before, k)
  }

  /** The first row in view: the last 25 rows of the page, counting the row of the cursor. */
  function Top(text: seq<Byte>): nat {
    if Pos(text) / WIDTH < 25 then 0 else Pos(text) / WIDTH - 24
  }

  /** Nothing has been written at or past the cursor. */
  lemma {:induction false} BlankAhead(text: seq<Byte>, k: int)
    requires k >= Pos(text)
    ensures Laid(text, k) == 32
  {
    if text != [] {
      BlankAhead(text[..|text| - 1], k);
    }
  }

  /** The screen is the last 25 rows of the endless page in one colour, and the cursor is where the page ends. */
  ghost predicate InView(t: Term, text: seq<Byte>) {
    && TermOk(t)
    && t.cursor == Pos(text) - Top(text) * WIDTH
    && forall j :: 0 <= j < CELLS ==> CharOf(t.cells[j]) == Laid(text, Top(text) * WIDTH + j) && AttrOf(t.cells[j]) == t.attr
  }

  lemma RowArithmetic(p: nat)
    ensures p - p % WIDTH + WIDTH == (p / WIDTH + 1) * WIDTH
    ensures (p / WIDTH + 1) * WIDTH / WIDTH == p / WIDTH + 1
    ensures (p + 1) / WIDTH == p / WIDTH || ((p + 1) / WIDTH == p / WIDTH + 1 && (p + 1) % WIDTH == 0)
  {
  }

  /** The position after one more byte, its row and the first row in view. */
  lemma NextPos(text: seq<Byte>, b: Byte)
    ensures var p, q := Pos(text), Pos(text + [b]);
      && q == (if b == NEWLINE then p - p % WIDTH + WIDTH else p + 1)
      && (q / WIDTH == p / WIDTH || (q / WIDTH == p / WIDTH + 1 && q % WIDTH == 0))
      && Top(text) <= Top(text + [b]) <= Top(text) + 1
      && (Top(text + [b]) > Top(text) <==> q - Top(text) * WIDTH == CELLS)
      && q - Top(text) * WIDTH <= CELLS
  {
    assert (text + [b])[..|text|] == text;
    RowArithmetic(Pos(text));
  }

  lemma LaidNext(text: seq<Byte>, b: Byte, k: int)
    ensures Laid(text + [b], k) == if b != NEWLINE && k == Pos(text) then b else Laid(text, k)
  {
    assert (text + [b])[..|text|] == text;
  }

  lemma CursorColumn(p: nat, top: nat)
    requires top * WIDTH <= p
    ensures (p - top * WIDTH) % WIDTH == p % WIDTH
  {
  }

  /** The cells before any scroll, against the page with the new byte. */
  lemma PutCells(t: Term, text: seq<Byte>, b: Byte, j: int)
    requires InView(t, text) && 0 <= j < CELLS
    ensures var c := (if b == NEWLINE then t.cells else t.cells[t.cursor := Glyph(t.attr, b)])[j];
      CharOf(c) == Laid(text + [b], Top(text) * WIDTH + j) && AttrOf(c) == t.attr
  {
    hide Pos, Laid, Top, Glyph, CharOf, AttrOf;
    LaidNext(text, b, Top(text) * WIDTH + j);
  }

  /** Scrolling is what keeps the view on the last rows. */
  lemma PutKeepsView(t: Term, text: seq<Byte>, b: Byte)
    requires InView(t, text)
    ensures InView(Put(t, b), text + [b])
  {
    hide Pos, Laid, Top, Glyph, CharOf, AttrOf;
    NextPos(text, b);
    CursorColumn(Pos(text), Top(text));
    var cells := if b == NEWLINE then t.cells else t.cells[t.cursor := Glyph(t.attr, b)];
    var r, top, top' := Put(t, b), Top(text), Top(text + [b]);
    forall j | 0 <= j < CELLS
      ensures CharOf(r.cells[j]) == Laid(text + [b], top' * WIDTH + j) && AttrOf(r.cells[j]) == t.attr
    {
      if top' == top {
        PutCells(t, text, b, j);
      } else if j < CELLS - WIDTH {
        assert r.cells[j] == cells[j + WIDTH];
        PutCells(t, text, b, j + WIDTH);
      } else {
        assert r.cells[j] == Blank(t.attr);
        BlankAhead(text + [b], top' * WIDTH + j);
      }
    }
  }

  /**
   * After a clear, printing any bytes shows the last 25 rows of the same text on
   * an endless page: the low byte of each cell is the character laid out there,
   * or a space, and the rest of it is the colour.
   */
  lemma {:induction false} PrintShowsPage(t: Term, text: seq<Byte>)
    ensures TermOk(Cleared(t)) && InView(Print(Cleared(t), text), text)
  {
    if text != [] {
      PrintShowsPage(t, text[..|text| - 1]);
      PutKeepsView(Print(Cleared(t), text[..|text| - 1]), text[..|text| - 1], text[|text| - 1]);
      assert text[..|text| - 1] + [text[|text| - 1]] == text;
    }
  }

  /**
   * Erasing takes back a character printed on a blank cell: the cell is blank
   * again and the cursor is on it. Only where the character filled the screen
   * are its rows one higher, because it scrolled.
   */
  lemma EraseTakesBack(t: Term, b: Byte)
    requires TermOk(t) && b != NEWLINE && t.cells[t.cursor] == Blank(t.attr)
    ensures Erased(Put(t, b)) == if t.cursor < CELLS - 1 then t else Term(Scrolled(t.cells, t.attr), CELLS - WIDTH - 1, t.attr)
  {
    if t.cursor < CELLS - 1 {
      assert t.cells[t.cursor := Glyph(t.attr, b)][t.cursor := Blank(t.attr)] == t.cells;
    } else {
      var cells := t.cells[t.cursor := Glyph(t.attr, b)];
      assert Scrolled(cells, t.attr)[CELLS - WIDTH - 1 := Blank(t.attr)] == Scrolled(t.cells, t.attr);
    }
  }

  /** Erasing anything leaves a blank under the cursor, one cell back, and every other cell alone. */
  lemma EraseLeavesBlank(t: Term)
    requires TermOk(t)
    ensures t.cursor == 0 ==> Erased(t) == t
    ensures t.cursor > 0 ==>
      && Erased(t).cursor == t.cursor - 1
      && CharOf(Erased(t).cells[t.cursor - 1]) == 32 && AttrOf(Erased(t).cells[t.cursor - 1]) == t.attr
      && forall j :: 0 <= j < CELLS && j != t.cursor - 1 ==> Erased(t).cells[j] == t.cells[j]
  {
  }

  // ----- The driver -----

  /** A save slot. */
  datatype Screen = Screen(cells: seq<Cell>, cursor: int, attr: int)

  /** What a user can do at the keyboard and a program can print. */
  datatype Action = ActPrint(text: seq<Byte>) | ActErase | ActClear | ActColor(fg: Color, bg: Color) | ActSwitch(n: nat)

  /** The effect of an action on the terminal it goes to. */
  function Act(t: Term, a: Action): (r: Term)
    requires TermOk(t)
    ensures TermOk(r)
  {
    match a
    case ActPrint(text) => Print(t, text)
    case ActErase => Erased(t)
    case ActClear => Cleared(t)
    case ActColor(fg, bg) => t.(attr := ColorAttr(fg, bg))
    case ActSwitch(_) => t
  }

  class Driver {
    const buffer: array<Cell>
    var cursor: int
    var attr: Attr
    var screens: seq<Screen>
    var used: seq<bool>
    var active: int

    ghost predicate Valid()
      reads this, buffer
    {
      && buffer.Length == CELLS && 0 <= cursor < CELLS
      && |screens| == NB_SCREENS && |used| == NB_SCREENS && 0 <= active < NB_SCREENS
      && forall i :: 0 <= i < NB_SCREENS && used[i] ==>
           |screens[i].cells| == CELLS && 0 <= screens[i].cursor < CELLS
           && 0 <= screens[i].attr < 0x1_0000 && screens[i].attr % 256 == 0
    }

    /** The terminal in the real buffer. */
    ghost function Live(): (t: Term)
      requires Valid()
      reads this, buffer
      ensures TermOk(t)
    {
      Term(buffer[..], cursor, attr)
    }

    /** Terminal `i` as its user thinks of it: live, saved, or still blank. */
    ghost function TermAt(i: int): (t: Term)
      requires Valid() && 0 <= i < NB_SCREENS
      reads this, buffer
      ensures TermOk(t)
    {
      if i == active then Live()
      else if used[i] then Term(screens[i].cells, screens[i].cursor, screens[i].attr)
      else Fresh()
    }

    /** Three independent terminals. */
    ghost function Terms(): (ts: seq<Term>)
      requires Valid()
      reads this, buffer
      ensures |ts| == NB_SCREENS && forall i :: 0 <= i < NB_SCREENS ==> TermOk(ts[i])
    {
      [TermAt(0), TermAt(1), TermAt(2)]
    }

    constructor ()
      ensures Valid() && fresh(buffer) && active == 0 && cursor == 0 && attr == 0x0F00
      ensures forall i :: 0 < i < NB_SCREENS ==> TermAt(i) == Fresh()
    {
      buffer := new Cell[CELLS];
      cursor, attr, active := 0, DEFAULT_ATTR, 0;
      screens := seq(NB_SCREENS, _ => Screen([], 0, 0));
      used := seq(NB_SCREENS, _ => false);
    }

    method SetColor(fg: Color, bg: Color)
      requires Valid()
      modifies this`attr
      ensures Valid() && Live() == old(Live()).(attr := ColorAttr(fg, bg))
    {
      attr := bg * 4096 + fg * 256;
    }

    method Clear()
      requires Valid()
      modifies this`cursor, buffer
      ensures Valid() && Live() == Cleared(old(Live()))
    {
      for i := 0 to CELLS
        invariant Valid() && cursor == old(cursor)
        invariant forall j :: 0 <= j < i ==> buffer[j] == Blank(attr)
      {
        buffer[i] := Blank(attr);
      }
      cursor := 0;
      assert buffer[..] == Cleared(Live()).cells;
    }

    method Scroll()
      requires buffer.Length == CELLS
      modifies buffer
      ensures buffer[..] == Scrolled(old(buffer[..]), attr)
    {
      ghost var was := buffer[..];
      for i := 0 to CELLS - WIDTH
        invariant forall j :: 0 <= j < i ==> buffer[j] == was[j + WIDTH]
        invariant forall j :: i <= j < CELLS ==> buffer[j] == was[j]
      {
        buffer[i] := buffer[i + WIDTH];
      }
      for i := CELLS - WIDTH to CELLS
        invariant forall j :: 0 <= j < CELLS - WIDTH ==> buffer[j] == was[j + WIDTH]
        invariant forall j :: CELLS - WIDTH <= j < i ==> buffer[j] == Blank(attr)
      {
        buffer[i] := Blank(attr);
      }
      assert buffer[..] == Scrolled(was, attr);
    }

    method PutByte(b: Byte)
      requires Valid()
      modifies this`cursor, buffer
      ensures Valid() && Live() == Put(old(Live()), b)
    {
      ghost var was := buffer[..];
      if b == NEWLINE {
        cursor := cursor - cursor % WIDTH + WIDTH;
      } else {
        buffer[cursor] := Glyph(attr, b);
        assert buffer[..] == was[cursor := Glyph(attr, b)];
        cursor := cursor + 1;
      }
      if cursor >= CELLS {
        Scroll();
        cursor := CELLS - WIDTH;
      }
    }

    method PrintText(text: seq<Byte>)
      requires Valid()
      modifies this`cursor, buffer
      ensures Valid() && Live() == Print(old(Live()), text)
    {
      for i := 0 to |text|
        invariant Valid() && Live() == Print(old(Live()), text[..i])
      {
        assert text[..i + 1][..i] == text[..i];
        PutByte(text[i]);
      }
      assert text[..|text|] == text;
    }

    method Backspace()
      requires Valid()
      modifies this`cursor, buffer
      ensures Valid() && Live() == Erased(old(Live()))
    {
      if cursor > 0 {
        cursor := cursor - 1;
        ghost var was := buffer[..];
        buffer[cursor] := Blank(attr);
        assert buffer[..] == was[cursor := Blank(attr)];
      }
    }

    /** Save the live screen in its slot, and bring in the other: no terminal changes, only which one is live. */
    method SwitchScreen(n: nat)
      requires Valid()
      modifies this, buffer
      ensures Valid() && Terms() == old(Terms())
      ensures active == if n < NB_SCREENS then n else old(active)
    {
      if n >= NB_SCREENS || n == active {
        return;
      }
      hide Fresh, Cleared;
      ghost var before := Terms();
      screens := screens[active := Screen(buffer[..], cursor, attr)];
      used := used[active := true];
      if used[n] {
        attr, cursor := screens[n].attr, screens[n].cursor;
        Load(screens[n].cells);
      } else {
        attr, cursor := DEFAULT_ATTR, 0;
        Load(Fresh().cells);
      }
      active := n;
      assert forall i :: 0 <= i < NB_SCREENS ==> TermAt(i) == before[i];
    }

    method Load(cells: seq<Cell>)
      requires buffer.Length == CELLS && |cells| == CELLS
      modifies buffer
      ensures buffer[..] == cells
    {
      for i := 0 to CELLS
        invariant forall j :: 0 <= j < i ==> buffer[j] == cells[j]
      {
        buffer[i] := cells[i];
      }
    }

    /** One action reaches the active terminal and no other. */
    method Do(a: Action)
      requires Valid()
      modifies this, buffer
      ensures Valid()
      ensures Terms() == old(Terms())[old(active) := Act(old(Terms())[old(active)], a)]
      ensures active == if a.ActSwitch? && a.n < NB_SCREENS then a.n else old(active)
    {
      match a
      case ActPrint(text) => PrintText(text);
      case ActErase => Backspace();
      case ActClear => Clear();
      case ActColor(fg, bg) => SetColor(fg, bg);
      case ActSwitch(n) => SwitchScreen(n);
    }

    /** Any session on the one buffer is the same session on three terminals. */
    method Session(actions: seq<Action>)
      requires Valid()
      modifies this, buffer
      ensures Valid()
      ensures (Terms(), active) == Replay(old(Terms()), old(active), actions)
    {
      for i := 0 to |actions|
        invariant Valid()
        invariant (Terms(), active) == Replay(old(Terms()), old(active), actions[..i])
      {
        assert actions[..i + 1][..i] == actions[..i];
        Do(actions[i]);
      }
      assert actions[..|actions|] == actions;
    }
  }

  /** A session on three independent terminals. */
  ghost function Replay(ts: seq<Term>, active: int, actions: seq<Action>): (r: (seq<Term>, int))
    requires |ts| == NB_SCREENS && 0 <= active < NB_SCREENS && forall i :: 0 <= i < NB_SCREENS ==> TermOk(ts[i])
    ensures |r.0| == NB_SCREENS && 0 <= r.1 < NB_SCREENS && forall i :: 0 <= i < NB_SCREENS ==> TermOk(r.0[i])
  {
    if actions == [] then (ts, active)
    else
      var (us, k) := Replay(ts, active, actions[..|actions| - 1]);
      var a := actions[|actions| - 1];
      (us[k := Act(us[k], a)], if a.ActSwitch? && a.n < NB_SCREENS then a.n else k)
  }

  // ----- What one user sees -----

  function ActAll(t: Term, actions: seq<Action>): (r: Term)
    requires TermOk(t)
    ensures TermOk(r)
  {
    if actions == [] then t else Act(ActAll(t, actions[..|actions| - 1]), actions[|actions| - 1])
  }

  /** The screen in front after a session: the last one asked for that exists. */
  function Front(active: int, actions: seq<Action>): int {
    if actions == [] then active
    else
      var a := actions[|actions| - 1];
      if a.ActSwitch? && a.n < NB_SCREENS then a.n else Front(active, actions[..|actions| - 1])
  }

  /** The part of a session that happens while screen `i` is in front. */
  function Own(active: int, actions: seq<Action>, i: int): seq<Action> {
    if actions == [] then []
    else
      var before := actions[..|actions| - 1];
      Own(active, before, i) + (if Front(active, before) == i then [actions[|actions| - 1]] else [])
  }

  /** A screen ends a session exactly as if its own actions had been the whole session. */
  lemma {:induction false} ScreensIndependent(ts: seq<Term>, active: int, actions: seq<Action>, i: int)
    requires |ts| == NB_SCREENS && 0 <= active < NB_SCREENS && forall i :: 0 <= i < NB_SCREENS ==> TermOk(ts[i])
    requires 0 <= i < NB_SCREENS
    ensures Replay(ts, active, actions).1 == Front(active, actions)
    ensures Replay(ts, active, actions).0[i] == ActAll(ts[i], Own(active, actions, i))
  {
    if actions != [] {
      var before, a := actions[..|actions| - 1], actions[|actions| - 1];
      ScreensIndependent(ts, active, before, i);
      var own := Own(active, before, i);
      assert (own + [a])[..|own|] == own && own + [] == own;
    }
  }
}
