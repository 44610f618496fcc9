/**
 The typing test's session state machine with the page taken away: the
 counters and the stopwatch as an immutable record, and the event handlers
 (reset, timer callback, input event, key press) as pure transitions.

 The word list comes from a random-word service; here it is a parameter of
 `Reset`. The 100 ms interval and the browser's event dispatch are replaced
 by explicit `Step` calls.
 */
module TypingTest {
  import opened Wrappers
  import opened Stopwatch
  import opened Text
  import opened Metrics

  /** The page's global state. */
  datatype Session = Session(
    words: seq<string>,    // the target words, one display span each
    clock: Clock,          // the stopwatch
    timerRunning: bool,    // set on the first space, cleared only by a reset
    ticking: bool,         // the 100 ms interval is installed
    totalErrors: nat,
    characterTyped: nat,
    wordIndex: nat,        // the next word to score
    correctWords: nat,
    inputDisabled: bool)   // the text field is disabled after the last word

  /** What a handler produced: the new state, and whether it signalled that
      the test is complete (stopped the interval, disabled the field and
      showed the final results). */
  datatype Outcome = Outcome(session: Session, completed: bool)

  /** The events the page reacts to. A key press carries the field's value
      before the key takes effect, as a `keydown` listener sees it. */
  datatype Event =
    | TimerFired(value: string)
    | InputChanged(value: string)
    | KeyDown(key: char, value: string)

  function Min(a: nat, b: nat): nat {
    if a <= b then a else b
  }

  /** The invariant every reachable state keeps. */
  predicate Inv(s: Session) {
    && Valid(s.clock)
    && s.correctWords + s.totalErrors == Min(s.wordIndex, |s.words|)
    && (s.timerRunning <==> s.wordIndex > 0)
    && (!s.timerRunning ==> s.clock == Zero)
    && (s.ticking ==> s.timerRunning)
    && (s.inputDisabled <==> s.timerRunning && !s.ticking)
    && (s.inputDisabled ==> 0 < |s.words| <= s.wordIndex)
    && (!s.inputDisabled && |s.words| > 0 ==> s.wordIndex < |s.words|)
  }

  /** Two states agree on the words, the clock and the scoring counters. */
  predicate SameScore(a: Session, b: Session) {
    && a.words == b.words && a.clock == b.clock
    && a.wordIndex == b.wordIndex && a.correctWords == b.correctWords
    && a.totalErrors == b.totalErrors
  }

  /** The reset button (and page load): stop the interval, zero the clock
      and every counter, enable the field, and load a fresh word list. A
      failed fetch leaves the list empty. */
  function Reset(fetched: Option<seq<string>>): (s: Session)
    ensures Inv(s)
    ensures s.words == fetched.GetOr([])
    ensures s.clock == Zero
    ensures s.correctWords == 0 && s.totalErrors == 0 && s.wordIndex == 0
    ensures s.characterTyped == 0
    ensures !s.timerRunning && !s.ticking && !s.inputDisabled
  {
    Session(fetched.GetOr([]), Zero, false, false, 0, 0, 0, 0, false)
  }

  /** The interval callback: advance the stopwatch one tenth and recount
      the typed characters. Without an installed interval nothing happens. */
  function Tick(s: Session, value: string): (r: Session)
    ensures Inv(s) ==> Inv(r)
    ensures s.ticking ==> TotalTenths(r.clock) == TotalTenths(s.clock) + 1 || !Valid(s.clock)
    ensures !s.ticking ==> r == s
    ensures r.words == s.words && r.wordIndex == s.wordIndex
    ensures r.correctWords == s.correctWords && r.totalErrors == s.totalErrors
    ensures s.ticking ==> r.characterTyped == |RemoveWhitespace(value)|
    ensures r.timerRunning == s.timerRunning && r.ticking == s.ticking
    ensures r.inputDisabled == s.inputDisabled
  {
    if s.ticking then
      s.(clock := Stopwatch.Tick(s.clock), characterTyped := CharacterCount(value))
    else s
  }

  /** The `input` event: recount the non-whitespace characters. */
  function Input(s: Session, value: string): (r: Session)
    ensures Inv(s) ==> Inv(r)
    ensures r.characterTyped == |RemoveWhitespace(value)|
    ensures SameScore(s, r)
    ensures r.timerRunning == s.timerRunning && r.ticking == s.ticking
    ensures r.inputDisabled == s.inputDisabled
  {
    s.(characterTyped := CharacterCount(value))
  }

  /** Start the interval on the first space; later calls change nothing. */
  function StartTimer(s: Session): (r: Session)
    ensures r.timerRunning
    ensures s.timerRunning ==> r == s
    ensures !s.timerRunning ==> r.ticking
    ensures SameScore(s, r) && r.characterTyped == s.characterTyped
    ensures r.inputDisabled == s.inputDisabled
  {
    if s.timerRunning then s else s.(timerRunning := true, ticking := true)
  }

  /** Score the typed word against the word at `wordIndex`, move on to the
      next word, and signal completion when the index reaches the end of the
      list. An index already past the end scores nothing. */
  function ProcessCurrentWord(s: Session, typed: string): (o: Outcome)
    ensures o.session.wordIndex == s.wordIndex + 1
    ensures s.wordIndex < |s.words| && typed == s.words[s.wordIndex] ==>
      o.session.correctWords == s.correctWords + 1 && o.session.totalErrors == s.totalErrors
    ensures s.wordIndex < |s.words| && typed != s.words[s.wordIndex] ==>
      o.session.correctWords == s.correctWords && o.session.totalErrors == s.totalErrors + 1
    ensures s.wordIndex >= |s.words| ==>
      o.session.correctWords == s.correctWords && o.session.totalErrors == s.totalErrors
    ensures o.completed <==> s.wordIndex + 1 == |s.words|
    ensures o.completed ==> !o.session.ticking && o.session.inputDisabled
    ensures !o.completed ==> o.session.ticking == s.ticking && o.session.inputDisabled == s.inputDisabled
    ensures o.session.words == s.words && o.session.clock == s.clock
    ensures o.session.timerRunning == s.timerRunning
    ensures o.session.characterTyped == s.characterTyped
  {
    var scored := s.wordIndex < |s.words|;
    var hit := scored && typed == s.words[s.wordIndex];
    var next := s.(
      correctWords := if hit then s.correctWords + 1 else s.correctWords,
      totalErrors := if scored && !hit then s.totalErrors + 1 else s.totalErrors,
      wordIndex := s.wordIndex + 1);
    if next.wordIndex == |s.words| then
      Outcome(next.(ticking := false, inputDisabled := true), true)
    else
      Outcome(next, false)
  }

  /** The `keydown` listener: a space starts the timer and scores the last
      word of the trimmed field value; any other key is ignored. */
  function KeyPressed(s: Session, key: char, value: string): (o: Outcome)
    ensures key != ' ' ==> o == Outcome(s, false)
    ensures key == ' ' ==> o.session.timerRunning && o.session.wordIndex == s.wordIndex + 1
    ensures key == ' ' ==> (o.completed <==> s.wordIndex + 1 == |s.words|)
    ensures o.session.words == s.words && o.session.clock == s.clock
    ensures o.session.characterTyped == s.characterTyped
  {
    if key == ' ' then ProcessCurrentWord(StartTimer(s), TypedWord(value))
    else Outcome(s, false)
  }

  /** Dispatch one event. */
  function Step(s: Session, e: Event): Outcome {
    match e
    case TimerFired(value) => Outcome(Tick(s, value), false)
    case InputChanged(value) => Outcome(Input(s, value), false)
    case KeyDown(key, value) => KeyPressed(s, key, value)
  }

  /** Every event keeps the invariant, keeps the word list, never moves the
      word index back, and moves it by one exactly on a space. */
  lemma {:induction false} StepInv(s: Session, e: Event)
    requires Inv(s)
    ensures Inv(Step(s, e).session)
    ensures Step(s, e).session.words == s.words
    ensures Step(s, e).session.wordIndex
      == s.wordIndex + (if e.KeyDown? && e.key == ' ' then 1 else 0)
  {
  }

  /** A run of events from a state, with the number of completion signals
      it produced. */
  datatype RunResult = RunResult(session: Session, completions: nat)

  function Run(s: Session, events: seq<Event>): RunResult {
    if |events| == 0 then RunResult(s, 0)
    else
      var before := Run(s, events[..|events| - 1]);
      var o := Step(before.session, events[|events| - 1]);
      RunResult(o.session, before.completions + if o.completed then 1 else 0)
  }

  /** 1 once the word index has reached the end of a non-empty word list. */
  function Finished(s: Session): nat {
    if 0 < |s.words| <= s.wordIndex then 1 else 0
  }

  /** Any run from a state satisfying the invariant keeps it, and signals
      completion exactly when it carries the word index to the end of the
      list: once at most, and never again afterwards. */
  lemma {:induction false} RunInv(s: Session, events: seq<Event>)
    requires Inv(s)
    ensures var r := Run(s, events);
      && Inv(r.session)
      && r.session.words == s.words
      && r.session.wordIndex >= s.wordIndex
      && Finished(s) + r.completions == Finished(r.session)
  {
    if |events| > 0 {
      var init := events[..|events| - 1];
      var e := events[|events| - 1];
      RunInv(s, init);
      var before := Run(s, init).session;
      StepInv(before, e);
      var o := Step(before, e);
      if o.completed {
        assert e.KeyDown? && e.key == ' ';
        assert before.wordIndex + 1 == |before.words|;
      }
    }
  }

  /** From a reset, every reachable state satisfies the invariant. */
  lemma {:induction false} ReachableInv(fetched: Option<seq<string>>, events: seq<Event>)
    ensures Inv(Run(Reset(fetched), events).session)
  {
    RunInv(Reset(fetched), events);
  }

  /** From a state before the first space, the test is signalled complete
      at most once: exactly when the word index has reached the length of a
      non-empty list. */
  lemma {:induction false} CompletesOnceFrom(s: Session, events: seq<Event>)
    requires Inv(s) && s.wordIndex == 0
    ensures var r := Run(s, events);
      && r.completions <= 1
      && (r.completions == 1 <==> 0 < |r.session.words| <= r.session.wordIndex)
  {
    RunInv(s, events);
  }

  /** From a reset, the test is signalled complete at most once. */
  lemma CompletesOnce(fetched: Option<seq<string>>, events: seq<Event>)
    ensures var r := Run(Reset(fetched), events);
      && r.completions <= 1
      && (r.completions == 1 <==> 0 < |r.session.words| <= r.session.wordIndex)
  {
    CompletesOnceFrom(Reset(fetched), events);
  }

  /** The live statistics shown under the test. */
  datatype Stats = Stats(wpm: Wpm, accuracy: nat)

  function StatsOf(s: Session): Stats {
    Stats(NetWpm(s.correctWords, TotalTenths(s.clock)), Accuracy(s.correctWords, s.wordIndex))
  }

  /** What the invariant says about the counters the statistics read. */
  lemma InvCounters(s: Session)
    requires Inv(s)
    ensures s.correctWords <= s.wordIndex
    ensures s.correctWords <= |s.words|
    ensures s.wordIndex == 0 ==> s.correctWords == 0 && s.clock == Zero
  {
  }

  /** The accuracy is a percentage, it is 0 before the first space, and the
      speed is non-finite exactly when a correct word was scored before the
      first timer callback. */
  lemma StatsOfCounters(s: Session)
    requires s.correctWords <= s.wordIndex
    requires s.wordIndex == 0 ==> s.correctWords == 0 && s.clock == Zero
    ensures StatsOf(s).accuracy <= 100
    ensures s.wordIndex == 0 ==> StatsOf(s).accuracy == 0 && StatsOf(s).wpm == Finite(0)
    ensures StatsOf(s).wpm.Infinite? <==> s.clock == Zero && s.correctWords > 0
  {
  }

  /** In every reachable state the statistics are in range. */
  lemma StatsInRange(s: Session)
    requires Inv(s)
    ensures StatsOf(s).accuracy <= 100
    ensures s.wordIndex == 0 ==> StatsOf(s).accuracy == 0 && StatsOf(s).wpm == Finite(0)
    ensures StatsOf(s).wpm.Infinite? <==> s.clock == Zero && s.correctWords > 0
  {
  }

  /** The final feedback for a state. */
  function FinalFeedback(s: Session): Feedback {
    FeedbackFor(StatsOf(s).accuracy)
  }

  /** The key presses of a user who types the first `k` words without a
      mistake: before the `i`-th space the field holds the first `i` words
      joined by single spaces. */
  function PerfectTyping(words: seq<string>, k: nat): (events: seq<Event>)
    requires k <= |words|
    ensures |events| == k
  {
    if k == 0 then []
    else PerfectTyping(words, k - 1) + [KeyDown(' ', Join(words[..k], ' '))]
  }

  /** Well-formed target words: non-empty and without whitespace. */
  predicate PlainWords(words: seq<string>) {
    forall i :: 0 <= i < |words| ==> |words[i]| > 0 && NoWhitespace(words[i])
  }

  /** Typing the words exactly scores every one of them as correct, stops
      the clock, disables the field and signals completion once, with
      accuracy 100. */
  lemma {:induction false} PerfectRun(words: seq<string>)
    requires |words| > 0 && PlainWords(words)
    ensures var r := Run(Reset(Some(words)), PerfectTyping(words, |words|));
      && r.session.correctWords == |words|
      && r.session.totalErrors == 0
      && r.completions == 1
      && r.session.inputDisabled && !r.session.ticking
      && StatsOf(r.session).accuracy == 100
      && FinalFeedback(r.session) == GreatJob
  {
    PerfectPrefix(words, |words|);
    var r := Run(Reset(Some(words)), PerfectTyping(words, |words|));
    CompletesOnce(Some(words), PerfectTyping(words, |words|));
    ReachableInv(Some(words), PerfectTyping(words, |words|));
  }

  lemma {:induction false} PerfectPrefix(words: seq<string>, k: nat)
    requires k <= |words| && PlainWords(words)
    ensures var r := Run(Reset(Some(words)), PerfectTyping(words, k));
      && r.session.words == words
      && r.session.wordIndex == k
      && r.session.correctWords == k
      && r.session.totalErrors == 0
  {
    if k > 0 {
      PerfectPrefix(words, k - 1);
      var events := PerfectTyping(words, k);
      var value := Join(words[..k], ' ');
      assert events[..k - 1] == PerfectTyping(words, k - 1);
      assert events[k - 1] == KeyDown(' ', value);
      var before := Run(Reset(Some(words)), PerfectTyping(words, k - 1)).session;
      PlainPrefix(words, k);
      TypedWordOfJoin(words[..k]);
      CorrectSpace(before, value);
    }
  }

  /** The first `k` words of plain words are plain words. */
  lemma PlainPrefix(words: seq<string>, k: nat)
    requires 0 < k <= |words| && PlainWords(words)
    ensures PlainWords(words[..k]) && words[..k][k - 1] == words[k - 1]
  {
  }

  /** A space after the current target word scores it as correct. */
  lemma CorrectSpace(s: Session, value: string)
    requires s.wordIndex < |s.words| && TypedWord(value) == s.words[s.wordIndex]
    ensures var r := Step(s, KeyDown(' ', value)).session;
      && r.words == s.words
      && r.wordIndex == s.wordIndex + 1
      && r.correctWords == s.correctWords + 1
      && r.totalErrors == s.totalErrors
  {
  }

  /** A space after anything but the current target word counts an error. */
  lemma WrongSpace(s: Session, value: string)
    requires s.wordIndex < |s.words| && TypedWord(value) != s.words[s.wordIndex]
    ensures var r := Step(s, KeyDown(' ', value)).session;
      && r.words == s.words
      && r.wordIndex == s.wordIndex + 1
      && r.correctWords == s.correctWords
      && r.totalErrors == s.totalErrors + 1
  {
  }

  /** A space in an empty (or blank) field scores the empty word, so it
      counts an error against a non-empty target word. */
  lemma SpaceInBlankField(s: Session, value: string)
    requires AllWhitespace(value)
    requires s.wordIndex < |s.words| && s.words[s.wordIndex] != ""
    ensures var r := Step(s, KeyDown(' ', value)).session;
      && r.wordIndex == s.wordIndex + 1
      && r.correctWords == s.correctWords
      && r.totalErrors == s.totalErrors + 1
  {
  }

  /** The space handler applied to words joined by single spaces scores the
      last of them. */
  lemma TypedWordOfJoin(parts: seq<string>)
    requires |parts| > 0 && PlainWords(parts)
    ensures TypedWord(Join(parts, ' ')) == parts[|parts| - 1]
  {
    var t := Join(parts, ' ');
    forall i | 0 <= i < |parts|
      ensures NoSeparator(parts[i], ' ')
    {
      assert NoWhitespace(parts[i]);
    }
    JoinEnds(parts);
    TrimUnchanged(t);
    SplitJoin(parts, ' ');
    SplitLastPiece(t, ' ');
  }

  /** A join of non-empty separator-free words starts with the first word's
      first character and ends with the last word's last character. */
  lemma {:induction false} JoinEnds(parts: seq<string>)
    requires |parts| > 0 && PlainWords(parts)
    ensures var t := Join(parts, ' ');
      && |t| > 0
      && t[0] == parts[0][0]
      && t[|t| - 1] == parts[|parts| - 1][|parts[|parts| - 1]| - 1]
      && !IsWhitespace(t[0]) && !IsWhitespace(t[|t| - 1])
  {
    if |parts| > 1 {
      var init := parts[..|parts| - 1];
      JoinEnds(init);
    }
  }

  /** A correct first word is scored on the very key press that starts the
      timer, before any callback: the speed shown is non-finite, and the
      accuracy is 100. */
  lemma {:induction false} FirstWordBeforeFirstTick(words: seq<string>, value: string)
    requires |words| > 0 && TypedWord(value) == words[0]
    ensures var s := KeyPressed(Reset(Some(words)), ' ', value).session;
      && s.correctWords == 1
      && StatsOf(s).wpm == Infinite
      && StatsOf(s).accuracy == 100
  {
    var s0 := Reset(Some(words));
    var o := ProcessCurrentWord(StartTimer(s0), TypedWord(value));
    assert KeyPressed(s0, ' ', value) == o;
    assert o.session.correctWords == 1 && o.session.wordIndex == 1;
    assert o.session.clock == Zero;
    StatsOfCounters(o.session);
  }

  /** A single word without whitespace is scored as typed. */
  lemma TypedWordOfPlain(w: string)
    requires |w| > 0 && NoWhitespace(w)
    ensures TypedWord(w) == w
  {
    TrimUnchanged(w);
    TypedWordLastToken(w);
    assert NoSeparator(w, ' ');
  }
}
