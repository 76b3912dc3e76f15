/**
 The four virtual terminals of kernel/kernel.c: one live screen caches the current terminal, the others
 are saved.  Logically they are four independent screens.
 */
module Terminals {
  import opened Basics
  import opened Screen

  const TERMINALS: nat := 4

  datatype Session = Session(live: Display, saved: seq<Display>, current: nat) {
    predicate Valid() {
      && live.Valid() && |saved| == TERMINALS && current < TERMINALS
      && forall t :: 0 <= t < TERMINALS ==> saved[t].Valid()
    }
  }

  /** What terminal t holds: the live screen if it is current, its saved copy otherwise. */
  function Logical(s: Session, t: nat): (d: Display)
    requires s.Valid() && t < TERMINALS
    ensures d.Valid()
  {
    if t == s.current then s.live else s.saved[t]
  }

  /** vt_switch: save, make current, restore; anything else than another terminal's number is ignored. */
  function SwitchTo(s: Session, term: int): (r: Session)
    requires s.Valid()
    ensures r.Valid()
  {
    if term < 0 || term >= TERMINALS || term == s.current then s
    else Session(s.saved[term], s.saved[s.current := s.live], term)
  }

  /** The cleared screen vt_init gives every terminal. */
  function Cleared(): (d: Display)
    ensures d.Valid() && forall i :: 0 <= i < CELLS ==> d.cells[i] == Cell(32, 7)
  {
    Display(seq(CELLS, _ => Cell(32, 7)), 0, 0, 7)
  }

  /** vt_init clears the saved copies; the live screen keeps what was printed before. */
  function InitSession(s: Session): (r: Session)
    requires s.Valid()
    ensures r.Valid()
  {
    s.(saved := seq(TERMINALS, _ => Cleared()))
  }

  datatype Action = Output(op: Op) | Switch(term: int)

  function Act(s: Session, a: Action): (r: Session)
    requires s.Valid()
    ensures r.Valid()
  {
    match a
    case Output(op) => s.(live := Apply(s.live, op))
    case Switch(term) => SwitchTo(s, term)
  }

  function ActAll(s: Session, actions: seq<Action>): (r: Session)
    requires s.Valid()
    ensures r.Valid()
    decreases |actions|
  {
    if actions == [] then s else ActAll(Act(s, actions[0]), actions[1..])
  }

  /** Which terminal is current after an action. */
  function CurrentAfter(current: nat, a: Action): nat {
    if a.Switch? && 0 <= a.term < 4 then a.term else current
  }

  /** The output operations issued while terminal t was current. */
  function OutputTo(t: nat, current: nat, actions: seq<Action>): seq<Op>
    decreases |actions|
  {
    if actions == [] then [] else
    var rest := OutputTo(t, CurrentAfter(current, actions[0]), actions[1..]);
    if actions[0].Output? && current == t then [actions[0].op] + rest else rest
  }

  /** A switch changes the logical content of no terminal. */
  lemma SwitchKeepsContents(s: Session, term: int, t: nat)
    requires s.Valid() && t < TERMINALS
    ensures Logical(SwitchTo(s, term), t) == Logical(s, t)
    ensures SwitchTo(s, term).current == CurrentAfter(s.current, Switch(term))
  {
  }

  /** Every terminal is an independent screen that has seen exactly the operations issued while it was current. */
  lemma {:induction false} TerminalsAreIndependent(s: Session, actions: seq<Action>, t: nat)
    requires s.Valid() && t < TERMINALS
    ensures Logical(ActAll(s, actions), t) == Replay(Logical(s, t), OutputTo(t, s.current, actions))
    decreases |actions|
  {
    hide Apply, Replay;
    if actions == [] {
      ReplayNothing(Logical(s, t));
    } else {
      var a, r := actions[0], Act(s, actions[0]);
      TerminalsAreIndependent(r, actions[1..], t);
      if a.Output? && s.current == t {
        ReplayCons(s.live, a.op, OutputTo(t, r.current, actions[1..]));
      }
    }
  }

  lemma ReplayNothing(d: Display)
    requires d.Valid()
    ensures Replay(d, []) == d
  {
  }

  lemma ReplayCons(d: Display, op: Op, ops: seq<Op>)
    requires d.Valid()
    ensures Replay(d, [op] + ops) == Replay(Apply(d, op), ops)
  {
    assert ([op] + ops)[1..] == ops;
  }

  /** vt_init fills every terminal but the live one with grey blanks, the cursor in the top left corner. */
  lemma InitClearsTerminals(s: Session, t: nat, i: nat)
    requires s.Valid() && t < 4 && t != s.current && i < 2000
    ensures var d := Logical(InitSession(s), t);
            d.cells[i] == 0x0720 && d.row == 0 && d.col == 0 && d.color == 7
    ensures Logical(InitSession(s), s.current) == s.live
  {
  }

  /** From vt_init on, a terminal that was never current is a cleared screen, and others replay their own output. */
  lemma TerminalsFromInit(s: Session, actions: seq<Action>, t: nat)
    requires s.Valid() && t < TERMINALS
    ensures Logical(ActAll(InitSession(s), actions), t)
         == Replay(if t == s.current then s.live else Cleared(), OutputTo(t, s.current, actions))
  {
    hide Apply, Replay;
    TerminalsAreIndependent(InitSession(s), actions, t);
  }

  /** So every terminal is the last 25 rows of an unbounded document of its own. */
  lemma TerminalIsTailOfOwnDocument(s: Session, actions: seq<Action>, t: nat)
    requires s.Valid() && t < TERMINALS
    ensures Logical(ActAll(s, actions), t)
         == View(DocReplay(DocumentOf(Logical(s, t)), OutputTo(t, s.current, actions)))
  {
    hide Apply, Replay, View, DocReplay, DocumentOf, OutputTo;
    TerminalsAreIndependent(s, actions, t);
    ScreenIsTailOfDocument(Logical(s, t), OutputTo(t, s.current, actions));
  }

  // ---------------------------------------------------------------- the code

  /** The screen and terminal globals of kernel.c; the command-line fields of a terminal are not part of this model. */
  class Console {
    const video: array<uint16>
    var row: nat
    var col: nat
    var currentColor: byte
    const terminals: array<Display>
    var currentTerminal: nat

    ghost predicate Valid()
      reads this, video, terminals
    {
      video.Length == CELLS && terminals.Length == TERMINALS && (video as object) != terminals && State().Valid()
    }

    ghost function Live(): Display
      reads this, video
    {
      Display(video[..], row, col, currentColor)
    }

    ghost function State(): Session
      reads this, video, terminals
    {
      Session(Live(), terminals[..], currentTerminal)
    }

    constructor (video: array<uint16>)
      requires video.Length == CELLS
      ensures Valid() && this.video == video && fresh(terminals)
      ensures var blank := Display(seq(CELLS, _ => 0), 0, 0, 0);
              State() == Session(Display(video[..], 0, 0, 7), seq(TERMINALS, _ => blank), 0)
    {
      this.video := video;
      row, col, currentColor := 0, 0, 7;
      terminals := new Display[TERMINALS](_ => Display(seq(CELLS, _ => 0), 0, 0, 0));
      currentTerminal := 0;
      new;
      assert terminals[..] == seq(TERMINALS, _ => Display(seq(CELLS, _ => 0), 0, 0, 0));
    }

    /** set_color */
    method ChangeColor(fg: byte)
      requires Valid()
      modifies this`currentColor
      ensures Valid() && State() == old(State()).(live := Apply(old(Live()), SetColor(fg)))
    {
      currentColor := fg;
    }

    /** The overlapping copy of newline: every row moves up one, in place. */
    method ScrollUp()
      requires video.Length == CELLS
      modifies video
      ensures video[..] == old(video[WIDTH..]) + BlankRow(currentColor)
    {
      var i := 0;
      while i < (HEIGHT - 1) * WIDTH
        invariant 0 <= i <= (HEIGHT - 1) * WIDTH
        invariant forall k :: 0 <= k < i ==> video[k] == old(video[k + WIDTH])
        invariant forall k :: i <= k < CELLS ==> video[k] == old(video[k])
      {
        video[i] := video[i + WIDTH];
        i := i + 1;
      }
      i := (HEIGHT - 1) * WIDTH;
      while i < HEIGHT * WIDTH
        invariant (HEIGHT - 1) * WIDTH <= i <= HEIGHT * WIDTH
        invariant forall k :: 0 <= k < (HEIGHT - 1) * WIDTH ==> video[k] == old(video[k + WIDTH])
        invariant forall k :: (HEIGHT - 1) * WIDTH <= k < i ==> video[k] == Cell(32, currentColor)
      {
        video[i] := Cell(32, currentColor);
        i := i + 1;
      }
    }

    /** newline; putchar also calls it with the cursor one past the last column. */
    method MoveToNextLine()
      requires video.Length == CELLS && terminals.Length == TERMINALS && (video as object) != terminals
      requires State().(live := Live().(col := 0)).Valid()
      modifies this`row, this`col, video
      ensures Valid() && State() == old(State()).(live := Newline(old(Live())))
    {
      col := 0;
      row := row + 1;
      if row >= HEIGHT {
        ScrollUp();
        row := HEIGHT - 1;
      }
    }

    /** putchar */
    method Write(c: char8)
      requires Valid()
      modifies this`row, this`col, video
      ensures Valid() && State() == old(State()).(live := PutChar(old(Live()), c))
    {
      hide Cell, Newline;
      if c == 10 {
        MoveToNextLine();
        return;
      }
      if c == 8 && col > 0 {
        col := col - 1;
        video[row * WIDTH + col] := Cell(32, currentColor);
        return;
      }
      video[row * WIDTH + col] := Cell(c, currentColor);
      col := col + 1;
      if col >= WIDTH {
        MoveToNextLine();
      }
    }

    /** print */
    method Print(s: seq<char8>)
      requires Valid()
      modifies this`row, this`col, video
      ensures var ops := seq(|s|, i requires 0 <= i < |s| => Put(s[i]));
              Valid() && State() == old(State()).(live := Replay(old(Live()), ops))
    {
      hide Apply;
      ghost var ops := seq(|s|, i requires 0 <= i < |s| => Put(s[i]));
      var i := 0;
      while i < |s|
        invariant 0 <= i <= |s| && Valid()
        invariant State() == old(State()).(live := Live())
        invariant Replay(old(Live()), ops) == Replay(Live(), ops[i..])
      {
        ghost var before := Live();
        PutIsPutChar(before, s[i]);
        Write(s[i]);
        assert ops[i..][1..] == ops[i + 1..];
        i := i + 1;
      }
    }

    lemma PutIsPutChar(d: Display, c: char8)
      requires d.Valid()
      ensures Apply(d, Put(c)) == PutChar(d, c)
    {
    }

    /** vt_init */
    method InitTerminals()
      requires Valid()
      modifies terminals
      ensures Valid() && State() == InitSession(old(State()))
    {
      var t := 0;
      while t < TERMINALS
        invariant 0 <= t <= TERMINALS
        invariant forall u :: 0 <= u < t ==> terminals[u] == Cleared()
      {
        terminals[t] := terminals[t].(row := 0);
        terminals[t] := terminals[t].(col := 0);
        terminals[t] := terminals[t].(color := 7);
        var cells := ClearedCells();
        terminals[t] := terminals[t].(cells := cells);
        t := t + 1;
      }
      assert terminals[..] == seq(TERMINALS, _ => Cleared());
    }

    /** The inner loop of vt_init. */
    static method ClearedCells() returns (cells: seq<uint16>)
      ensures cells == Cleared().cells
    {
      cells := [];
      var i := 0;
      while i < WIDTH * HEIGHT
        invariant 0 <= i <= WIDTH * HEIGHT && |cells| == i
        invariant forall k :: 0 <= k < i ==> cells[k] == Cell(32, 7)
      {
        cells := cells + [Cell(32, 7)];
        i := i + 1;
      }
    }

    /** vt_save_current */
    method SaveCurrent()
      requires Valid()
      modifies terminals
      ensures Valid() && terminals[..] == old(terminals[..])[currentTerminal := Live()]
    {
      var t := terminals[currentTerminal].(row := row, col := col, color := currentColor);
      var i := 0;
      while i < WIDTH * HEIGHT
        invariant 0 <= i <= WIDTH * HEIGHT && |t.cells| == CELLS
        invariant t.row == row && t.col == col && t.color == currentColor
        invariant forall k :: 0 <= k < i ==> t.cells[k] == video[k]
      {
        t := t.(cells := t.cells[i := video[i]]);
        i := i + 1;
      }
      assert t == Live();
      terminals[currentTerminal] := t;
    }

    /** vt_restore */
    method Restore(term: nat)
      requires Valid() && term < TERMINALS
      modifies this`row, this`col, this`currentColor, video
      ensures Valid() && Live() == terminals[term]
    {
      row := terminals[term].row;
      col := terminals[term].col;
      currentColor := terminals[term].color;
      var i := 0;
      while i < WIDTH * HEIGHT
        invariant 0 <= i <= WIDTH * HEIGHT
        invariant row == terminals[term].row && col == terminals[term].col && currentColor == terminals[term].color
        invariant forall k :: 0 <= k < i ==> video[k] == terminals[term].cells[k]
      {
        video[i] := terminals[term].cells[i];
        i := i + 1;
      }
      assert video[..] == terminals[term].cells;
    }

    /** vt_switch */
    method SwitchTerminal(term: int)
      requires Valid()
      modifies this, video, terminals
      ensures Valid() && State() == SwitchTo(old(State()), term)
    {
      if term < 0 || term >= TERMINALS || term == currentTerminal {
        return;
      }
      SaveCurrent();
      currentTerminal := term;
      Restore(term);
    }
  }
}
