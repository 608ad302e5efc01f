// The typewriter of the hero subtitle: it types one of five phrases a letter
// at a time, pauses, deletes it a letter at a time, pauses, and moves on to the
// next phrase. Each timer callback is one step that returns the timer it sets.
module HeroTyping {
  import opened JsText

  const HeroTexts: seq<string> := ["Developer.", "Student.", "Tech-Enthusiast.", "Problem Solver.", "Full Stack Dev."]

  /** The callbacks the typewriter schedules: typeHero itself, and the arrow
      function of the 2000 ms pause, which switches to deleting and types. */
  datatype Callback = TypeHero | StartDeleting

  datatype Timer = Timer(delay: int, callback: Callback)

  /** The module-level variables of the typewriter and the text of its element. */
  datatype Hero = Hero(textIndex: int, charIndex: int, isDeleting: bool, text: string)

  /** What one callback leaves behind: the new state and the timer it sets. */
  datatype Step = Step(state: Hero, next: Timer)

  /** The text "> " followed by a prefix of s. */
  predicate ShowsPrefixOf(text: string, s: string)
  {
    |text| >= 2 && text[..2] == "> " && text[2..] <= s
  }

  /** One call of typeHero. */
  function TypeHeroStep(h: Hero): (r: Step)
    requires 0 <= h.textIndex < |HeroTexts|
    ensures 0 <= r.state.textIndex < |HeroTexts|
    ensures ShowsPrefixOf(r.state.text, HeroTexts[h.textIndex])
    ensures r.next.delay in {80, 2000, 40, 400}
    // the pause before deleting is set exactly when typing has reached the
    // end of the phrase
    ensures r.next.callback == StartDeleting <==> !h.isDeleting && h.charIndex + 1 == |HeroTexts[h.textIndex]|
    ensures r.next.callback == StartDeleting ==> r.next.delay == 2000
    ensures !h.isDeleting && r.next.callback == TypeHero ==>
              r.state == h.(charIndex := h.charIndex + 1, text := r.state.text) && r.next.delay == 80
    // deleting past the first letter moves on to the next phrase
    ensures h.isDeleting && h.charIndex <= 0 ==>
              && r.state.textIndex == (h.textIndex + 1) % |HeroTexts|
              && r.state.charIndex == 0 && !r.state.isDeleting
              && r.next == Timer(400, TypeHero)
    ensures h.isDeleting && h.charIndex > 0 ==>
              r.state == h.(charIndex := h.charIndex - 1, text := r.state.text) && r.next == Timer(40, TypeHero)
  {
    var current := HeroTexts[h.textIndex];
    if !h.isDeleting then
      var text := "> " + Substring(current, 0, h.charIndex + 1);
      var charIndex := h.charIndex + 1;
      if charIndex == |current| then
        Step(h.(charIndex := charIndex, text := text), Timer(2000, StartDeleting))
      else
        Step(h.(charIndex := charIndex, text := text), Timer(80, TypeHero))
    else
      var text := "> " + Substring(current, 0, h.charIndex);
      var charIndex := h.charIndex - 1;
      if charIndex < 0 then
        Step(Hero(Remainder(h.textIndex + 1, |HeroTexts|), 0, false, text), Timer(400, TypeHero))
      else
        Step(h.(charIndex := charIndex, text := text), Timer(40, TypeHero))
  }

  /** One call of the 2000 ms arrow function: switch to deleting, then type. */
  function StartDeletingStep(h: Hero): (r: Step)
    requires 0 <= h.textIndex < |HeroTexts|
    ensures 0 <= r.state.textIndex < |HeroTexts|
    ensures r.state.isDeleting || r.next.delay == 400
    ensures r.next.callback == TypeHero
  {
    TypeHeroStep(h.(isDeleting := true))
  }

  function Fire(h: Hero, cb: Callback): (r: Step)
    requires 0 <= h.textIndex < |HeroTexts|
    ensures 0 <= r.state.textIndex < |HeroTexts|
  {
    match cb
    case TypeHero => TypeHeroStep(h)
    case StartDeleting => StartDeletingStep(h)
  }

  /** The first n callbacks from state h with callback cb due, run in order. */
  function Run(h: Hero, cb: Callback, n: nat): (r: Step)
    requires 0 <= h.textIndex < |HeroTexts| && n >= 1
    ensures 0 <= r.state.textIndex < |HeroTexts|
  {
    if n == 1 then Fire(h, cb)
    else
      var s := Run(h, cb, n - 1);
      Fire(s.state, s.next.callback)
  }

  /** The invariant of the typewriter between callbacks. While typing the
      character index stays inside the phrase; at the pause before deleting it
      is the phrase's length and the whole phrase is shown; while deleting the
      text shown is one letter longer than the index. */
  predicate Ready(h: Hero, cb: Callback)
  {
    && 0 <= h.textIndex < |HeroTexts|
    && var current := HeroTexts[h.textIndex];
       match cb
       case TypeHero =>
         && 0 <= h.charIndex < |current|
         && (h.isDeleting ==> h.text == "> " + current[..h.charIndex + 1])
         && (!h.isDeleting && h.charIndex > 0 ==> h.text == "> " + current[..h.charIndex])
       case StartDeleting =>
         !h.isDeleting && h.charIndex == |current| && h.text == "> " + current
  }

  /** Every callback keeps the invariant. */
  lemma FireKeepsReady(h: Hero, cb: Callback)
    requires Ready(h, cb)
    ensures Ready(Fire(h, cb).state, Fire(h, cb).next.callback)
  {
    var current := HeroTexts[h.textIndex];
    if cb == StartDeleting {
      assert Substring(current, 0, h.charIndex) == current;
    } else if !h.isDeleting {
      assert Substring(current, 0, h.charIndex + 1) == current[..h.charIndex + 1];
    } else {
      assert Substring(current, 0, h.charIndex) == current[..h.charIndex];
    }
  }

  /** The forward phase ends showing the whole phrase: the typing step that
      sets the pause before deleting displays "> " and the complete phrase. */
  lemma ForwardEndsWithWholePhrase(h: Hero)
    requires Ready(h, TypeHero) && !h.isDeleting
    requires TypeHeroStep(h).next.callback == StartDeleting
    ensures TypeHeroStep(h).state.text == "> " + HeroTexts[h.textIndex]
    ensures Ready(TypeHeroStep(h).state, StartDeleting)
  {
    FireKeepsReady(h, TypeHero);
  }

  /** A typing step inside the phrase shows one more letter. */
  lemma TypeOneLetter(h: Hero)
    requires 0 <= h.textIndex < |HeroTexts| && !h.isDeleting
    requires 0 <= h.charIndex < |HeroTexts[h.textIndex]|
    ensures var current := HeroTexts[h.textIndex];
            var k := h.charIndex + 1;
            TypeHeroStep(h) == Step(h.(charIndex := k, text := "> " + current[..k]),
                                    if k == |current| then Timer(2000, StartDeleting) else Timer(80, TypeHero))
  {
    var current := HeroTexts[h.textIndex];
    assert Substring(current, 0, h.charIndex + 1) == current[..h.charIndex + 1];
  }

  /** A deleting step shows the first charIndex letters and takes one away. */
  lemma DeleteOneLetter(h: Hero)
    requires 0 <= h.textIndex < |HeroTexts| && h.isDeleting
    requires 0 <= h.charIndex <= |HeroTexts[h.textIndex]|
    ensures var current := HeroTexts[h.textIndex];
            var text := "> " + current[..h.charIndex];
            TypeHeroStep(h) == if h.charIndex == 0
                               then Step(Hero((h.textIndex + 1) % |HeroTexts|, 0, false, text), Timer(400, TypeHero))
                               else Step(h.(charIndex := h.charIndex - 1, text := text), Timer(40, TypeHero))
  {
    var current := HeroTexts[h.textIndex];
    assert Substring(current, 0, h.charIndex) == current[..h.charIndex];
  }

  /** The typing phase of phrase i starting from its first letter: after k
      steps the first k letters are shown, and the k-th step of a phrase of k
      letters sets the 2000 ms pause. */
  lemma {:induction false} TypingPhase(i: nat, t: string, k: nat)
    requires i < |HeroTexts| && 1 <= k <= |HeroTexts[i]|
    ensures var r := Run(Hero(i, 0, false, t), TypeHero, k);
            var n := |HeroTexts[i]|;
            && r.state == Hero(i, k, false, "> " + HeroTexts[i][..k])
            && r.next == (if k == n then Timer(2000, StartDeleting) else Timer(80, TypeHero))
  {
    if k == 1 {
      TypeOneLetter(Hero(i, 0, false, t));
    } else {
      TypingPhase(i, t, k - 1);
      var s := Run(Hero(i, 0, false, t), TypeHero, k - 1);
      TypeOneLetter(s.state);
    }
  }

  /** The step after the 2000 ms pause shows the whole phrase once more and
      starts taking letters away. */
  lemma PauseThenDelete(i: nat, t: string)
    requires i < |HeroTexts|
    ensures var n := |HeroTexts[i]|;
            Run(Hero(i, 0, false, t), TypeHero, n + 1)
              == Step(Hero(i, n - 1, true, "> " + HeroTexts[i]), Timer(40, TypeHero))
  {
    var n := |HeroTexts[i]|;
    TypingPhase(i, t, n);
    var s := Run(Hero(i, 0, false, t), TypeHero, n);
    assert HeroTexts[i][..n] == HeroTexts[i];
    DeleteOneLetter(s.state.(isDeleting := true));
  }

  /** The deleting phase: after the step that follows the pause, each step
      shows one letter fewer. */
  lemma {:induction false} DeletingPhase(i: nat, t: string, j: nat)
    requires i < |HeroTexts| && j < |HeroTexts[i]|
    ensures var n := |HeroTexts[i]|;
            Run(Hero(i, 0, false, t), TypeHero, n + 1 + j)
              == Step(Hero(i, n - 1 - j, true, "> " + HeroTexts[i][..n - j]), Timer(40, TypeHero))
  {
    if j == 0 {
      PauseThenDelete(i, t);
      assert HeroTexts[i][..|HeroTexts[i]|] == HeroTexts[i];
    } else {
      DeletingPhase(i, t, j - 1);
      var s := Run(Hero(i, 0, false, t), TypeHero, |HeroTexts[i]| + j);
      DeleteOneLetter(s.state);
    }
  }

  /** The last deleting step shows "> " alone and sets the 400 ms pause
      before the next phrase. */
  lemma LastDelete(i: nat, t: string)
    requires i < |HeroTexts|
    ensures var n := |HeroTexts[i]|;
            Run(Hero(i, 0, false, t), TypeHero, 2 * n + 1)
              == Step(Hero((i + 1) % |HeroTexts|, 0, false, "> "), Timer(400, TypeHero))
  {
    var n := |HeroTexts[i]|;
    DeletingPhase(i, t, n - 1);
    var s := Run(Hero(i, 0, false, t), TypeHero, 2 * n);
    DeleteOneLetter(s.state);
  }

  /** A whole cycle: 2n + 1 callbacks after starting phrase i of n letters, the
      typewriter starts the next phrase, from an empty prompt, after showing
      the whole phrase at the n-th and (n+1)-th callbacks. */
  lemma Cycle(i: nat, t: string)
    requires i < |HeroTexts|
    ensures var n := |HeroTexts[i]|;
            && Run(Hero(i, 0, false, t), TypeHero, n).state.text == "> " + HeroTexts[i]
            && Run(Hero(i, 0, false, t), TypeHero, n + 1).state.text == "> " + HeroTexts[i]
            && Run(Hero(i, 0, false, t), TypeHero, 2 * n + 1)
                 == Step(Hero((i + 1) % |HeroTexts|, 0, false, "> "), Timer(400, TypeHero))
  {
    var n := |HeroTexts[i]|;
    TypingPhase(i, t, n);
    assert HeroTexts[i][..n] == HeroTexts[i];
    PauseThenDelete(i, t);
    LastDelete(i, t);
  }

  /** With the first phrase, the forward phase ends showing "> Developer.". */
  lemma DeveloperShownBeforeDeleting(t: string)
    ensures Run(Hero(0, 0, false, t), TypeHero, 10)
              == Step(Hero(0, 10, false, "> Developer."), Timer(2000, StartDeleting))
  {
    TypingPhase(0, t, 10);
  }

  /** The typewriter with the variables the script keeps at module level. */
  class HeroTyper {
    var textIndex: int
    var charIndex: int
    var isDeleting: bool
    var text: string

    function State(): Hero
      reads this
    {
      Hero(textIndex, charIndex, isDeleting, text)
    }

    /** The variables as the script declares them; text is what the element
        holds before the first callback. */
    constructor (initialText: string)
      ensures State() == Hero(0, 0, false, initialText) && Ready(State(), Callback.TypeHero)
    {
      textIndex, charIndex, isDeleting, text := 0, 0, false, initialText;
    }

    /** typeHero: update the text and the indices, and return the timer set. */
    method TypeHero() returns (next: Timer)
      requires 0 <= textIndex < |HeroTexts|
      modifies this
      ensures Step(State(), next) == TypeHeroStep(old(State()))
      ensures old(Ready(State(), Callback.TypeHero)) ==> Ready(State(), next.callback)
    {
      ghost var before := State();
      var current := HeroTexts[textIndex];
      if !isDeleting {
        text := "> " + Substring(current, 0, charIndex + 1);
        charIndex := charIndex + 1;
        if charIndex == |current| {
          next := Timer(2000, Callback.StartDeleting);
        } else {
          next := Timer(80, Callback.TypeHero);
        }
      } else {
        text := "> " + Substring(current, 0, charIndex);
        charIndex := charIndex - 1;
        if charIndex < 0 {
          isDeleting := false;
          textIndex := Remainder(textIndex + 1, |HeroTexts|);
          charIndex := 0;
          next := Timer(400, Callback.TypeHero);
        } else {
          next := Timer(40, Callback.TypeHero);
        }
      }
      if Ready(before, Callback.TypeHero) {
        FireKeepsReady(before, Callback.TypeHero);
      }
    }

    /** The arrow function of the 2000 ms pause. */
    method StartDeleting() returns (next: Timer)
      requires 0 <= textIndex < |HeroTexts|
      modifies this
      ensures Step(State(), next) == StartDeletingStep(old(State()))
      ensures old(Ready(State(), Callback.StartDeleting)) ==> Ready(State(), next.callback)
    {
      ghost var before := State();
      isDeleting := true;
      next := TypeHero();
      if Ready(before, Callback.StartDeleting) {
        FireKeepsReady(before, Callback.StartDeleting);
      }
    }
  }
}
