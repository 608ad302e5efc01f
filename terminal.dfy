// The typewriter of the terminal panel: it reveals one of five commands a
// letter at a time, waits, clears the line and moves on to the next command.
// Each timer callback is one step that returns the timer it sets.
module TerminalTyping {
  import opened JsText

  const TerminalCommands: seq<string> := [
    "cat welcome.txt",
    "echo \"Welcome to my portfolio!\"",
    "node server.js --port 3000",
    "npm run build && npm run deploy",
    "git push origin main"
  ]

  /** The callbacks the typewriter schedules: typeTerminal itself, and the
      arrow function of the 3000 ms pause, which clears the line, moves to the
      next command and schedules typeTerminal after 500 ms. */
  datatype Callback = TypeTerminal | ClearAndAdvance

  datatype Timer = Timer(delay: int, callback: Callback)

  /** The module-level variables of the typewriter and the text of its element. */
  datatype Term = Term(cmdIndex: int, charIndex: int, text: string)

  /** What one callback leaves behind: the new state and the timer it sets. */
  datatype Step = Step(state: Term, next: Timer)

  /** One call of typeTerminal. */
  function TypeTerminalStep(t: Term): (r: Step)
    requires 0 <= t.cmdIndex < |TerminalCommands|
    ensures r.state.cmdIndex == t.cmdIndex
    // while the index is inside the command (or just past its last letter)
    // the line shows the first charIndex letters and the index grows by one
    ensures 0 <= t.charIndex <= |TerminalCommands[t.cmdIndex]| ==>
              && r.state.text == TerminalCommands[t.cmdIndex][..t.charIndex]
              && r.state.charIndex == t.charIndex + 1
              && r.next == Timer(60, TypeTerminal)
    ensures t.charIndex <= |TerminalCommands[t.cmdIndex]| ==> r.state.text <= TerminalCommands[t.cmdIndex]
    // once past the end nothing changes and the 3000 ms pause is set
    ensures t.charIndex > |TerminalCommands[t.cmdIndex]| ==> r == Step(t, Timer(3000, ClearAndAdvance))
  {
    var cmd := TerminalCommands[t.cmdIndex];
    if t.charIndex <= |cmd| then
      Step(Term(t.cmdIndex, t.charIndex + 1, Substring(cmd, 0, t.charIndex)), Timer(60, TypeTerminal))
    else
      Step(t, Timer(3000, ClearAndAdvance))
  }

  /** One call of the arrow function of the 3000 ms pause. */
  function ClearAndAdvanceStep(t: Term): (r: Step)
    ensures r.state.charIndex == 0 && r.state.text == ""
    ensures r.next == Timer(500, TypeTerminal)
    ensures 0 <= t.cmdIndex ==> r.state.cmdIndex == (t.cmdIndex + 1) % |TerminalCommands|
    ensures 0 <= t.cmdIndex < |TerminalCommands| ==> 0 <= r.state.cmdIndex < |TerminalCommands|
  {
    Step(Term(Remainder(t.cmdIndex + 1, |TerminalCommands|), 0, ""), Timer(500, TypeTerminal))
  }

  function Fire(t: Term, cb: Callback): (r: Step)
    requires 0 <= t.cmdIndex < |TerminalCommands|
    ensures 0 <= r.state.cmdIndex < |TerminalCommands|
  {
    match cb
    case TypeTerminal => TypeTerminalStep(t)
    case ClearAndAdvance => ClearAndAdvanceStep(t)
  }

  /** The first n callbacks from state t with callback cb due, run in order. */
  function Run(t: Term, cb: Callback, n: nat): (r: Step)
    requires 0 <= t.cmdIndex < |TerminalCommands| && n >= 1
    ensures 0 <= r.state.cmdIndex < |TerminalCommands|
  {
    if n == 1 then Fire(t, cb)
    else
      var s := Run(t, cb, n - 1);
      Fire(s.state, s.next.callback)
  }

  /** The invariant of the typewriter between callbacks: the character index
      runs from 0 to one past the command's length, the line shows the letters
      before the previous index, and at the pause the whole command is shown. */
  predicate Ready(t: Term, cb: Callback)
  {
    && 0 <= t.cmdIndex < |TerminalCommands|
    && var cmd := TerminalCommands[t.cmdIndex];
       match cb
       case TypeTerminal =>
         && 0 <= t.charIndex <= |cmd| + 1
         && (t.charIndex > 0 ==> t.text == cmd[..t.charIndex - 1])
       case ClearAndAdvance =>
         t.charIndex == |cmd| + 1 && t.text == cmd
  }

  /** Every callback keeps the invariant, and after every callback the line
      shows a prefix of the current command. */
  lemma FireKeepsReady(t: Term, cb: Callback)
    requires Ready(t, cb)
    ensures var r := Fire(t, cb);
            && Ready(r.state, r.next.callback)
            && r.state.text <= TerminalCommands[r.state.cmdIndex]
  {
    var cmd := TerminalCommands[t.cmdIndex];
    if cb == TypeTerminal && t.charIndex > |cmd| {
      assert cmd[..|cmd|] == cmd;
    }
  }

  /** The reveal of command i from an empty index: the k-th callback shows its
      first k - 1 letters, one more than the callback before, up to the whole
      command at callback n + 1. */
  lemma {:induction false} RevealPhase(i: nat, t: string, k: nat)
    requires i < |TerminalCommands| && 1 <= k <= |TerminalCommands[i]| + 1
    ensures Run(Term(i, 0, t), TypeTerminal, k)
              == Step(Term(i, k, TerminalCommands[i][..k - 1]), Timer(60, TypeTerminal))
  {
    if k > 1 {
      RevealPhase(i, t, k - 1);
    }
  }

  /** A whole cycle of command i of n letters: callback n + 2 finds the index
      past the end and sets the 3000 ms pause with the whole command shown;
      callback n + 3 clears the line and moves to the next command. */
  lemma Cycle(i: nat, t: string)
    requires i < |TerminalCommands|
    ensures var n := |TerminalCommands[i]|;
            && Run(Term(i, 0, t), TypeTerminal, n + 1).state.text == TerminalCommands[i]
            && Run(Term(i, 0, t), TypeTerminal, n + 2)
                 == Step(Term(i, n + 1, TerminalCommands[i]), Timer(3000, ClearAndAdvance))
            && Run(Term(i, 0, t), TypeTerminal, n + 3)
                 == Step(Term((i + 1) % |TerminalCommands|, 0, ""), Timer(500, TypeTerminal))
  {
    var n := |TerminalCommands[i]|;
    RevealPhase(i, t, n + 1);
    assert TerminalCommands[i][..n] == TerminalCommands[i];
  }

  /** With the first command, the line ends up showing "cat welcome.txt". */
  lemma FirstCommandShown(t: string)
    ensures Run(Term(0, 0, t), TypeTerminal, 16)
              == Step(Term(0, 16, "cat welcome.txt"), Timer(60, TypeTerminal))
  {
    RevealPhase(0, t, 16);
  }

  /** The typewriter with the variables the script keeps at module level. */
  class TerminalTyper {
    var cmdIndex: int
    var charIndex: int
    var text: string

    function State(): Term
      reads this
    {
      Term(cmdIndex, charIndex, text)
    }

    /** The variables as the script declares them; text is what the element
        holds before the first callback. */
    constructor (initialText: string)
      ensures State() == Term(0, 0, initialText) && Ready(State(), Callback.TypeTerminal)
    {
      cmdIndex, charIndex, text := 0, 0, initialText;
    }

    /** typeTerminal: reveal one more letter, or set the pause once past the end. */
    method TypeTerminal() returns (next: Timer)
      requires 0 <= cmdIndex < |TerminalCommands|
      modifies this
      ensures Step(State(), next) == TypeTerminalStep(old(State()))
      ensures old(Ready(State(), Callback.TypeTerminal)) ==> Ready(State(), next.callback)
    {
      ghost var before := State();
      var cmd := TerminalCommands[cmdIndex];
      if charIndex <= |cmd| {
        text := Substring(cmd, 0, charIndex);
        charIndex := charIndex + 1;
        next := Timer(60, Callback.TypeTerminal);
      } else {
        next := Timer(3000, Callback.ClearAndAdvance);
      }
      if Ready(before, Callback.TypeTerminal) {
        FireKeepsReady(before, Callback.TypeTerminal);
      }
    }

    /** The arrow function of the 3000 ms pause. */
    method ClearAndAdvance() returns (next: Timer)
      modifies this
      ensures Step(State(), next) == ClearAndAdvanceStep(old(State()))
      ensures old(Ready(State(), Callback.ClearAndAdvance)) ==> Ready(State(), next.callback)
    {
      charIndex := 0;
      cmdIndex := Remainder(cmdIndex + 1, |TerminalCommands|);
      text := "";
      next := Timer(500, Callback.TypeTerminal);
    }
  }
}
