/** The thread that saves the cubes' configuration to a file, interleaved with the server
    threads that update it.  Steps that hold the mutex are atomic; the flag that ends the
    thread is set without it. */
module Saver {

  datatype Pc<C> =
    | Start                    // about to take the mutex
    | Checking                 // holds the mutex, before the first test
    | Waiting(woken: bool)     // blocked on the condition variable
    | Deciding                 // holds the mutex, before the second test
    | Writing(copy: C)         // without the mutex
    | Exited

  /** `counted` records that an update was counted since dumping was enabled. */
  datatype State<C> = State(config: C, file: C, pending: nat, enabled: bool, kill: bool, pc: Pc<C>, counted: bool)

  datatype Step<C> =
    | Update(config: C)
    | Enable
    | Kill
    | TakeMutex
    | FirstTest
    | Wake
    | SecondTest
    | Write

  predicate MutexFree<C>(s: State<C>) {
    !s.pc.Checking? && !s.pc.Deciding?
  }

  /** A step that cannot be taken now leaves the state as it is. */
  function Next<C>(s: State<C>, step: Step<C>): State<C> {
    match step
    case Update(c) =>
      if !MutexFree(s) then s
      else if !s.enabled then s.(config := c)
      else s.(config := c, pending := s.pending + 1, counted := true,
        pc := if s.pc.Waiting? then Waiting(true) else s.pc)
    case Enable => s.(enabled := true)
    case Kill => s.(kill := true, pc := if s.pc.Waiting? then Waiting(true) else s.pc)
    case TakeMutex => if s.pc.Start? then s.(pc := Checking) else s
    case FirstTest =>
      if !s.pc.Checking? then s
      else s.(pc := if s.pending == 0 && !s.kill then Waiting(false) else Deciding)
    case Wake => if s.pc.Waiting? then s.(pc := Deciding) else s    // may be spurious
    case SecondTest =>
      if !s.pc.Deciding? then s
      else if s.pending == 0 && s.kill then s.(pc := Exited)
      else s.(pc := Writing(s.config), pending := 0)
    case Write => if s.pc.Writing? then s.(file := s.pc.copy, pc := Start) else s
  }

  function Run<C>(s: State<C>, steps: seq<Step<C>>): State<C>
    decreases |steps|
  {
    if steps == [] then s else Run(Next(s, steps[0]), steps[1..])
  }

  /** After a counted update, whatever is not pending is in the file or on its way. */
  ghost predicate Saved<C>(s: State<C>) {
    && (s.counted ==> s.enabled)
    && (s.counted && s.pending == 0 ==> if s.pc.Writing? then s.pc.copy == s.config else s.file == s.config)
    && (s.pc.Waiting? && s.pending > 0 ==> s.pc.woken)
    && (s.pc.Exited? ==> s.kill)
  }

  predicate Initial<C>(s: State<C>) {
    s.pc.Start? && s.pending == 0 && !s.counted && !s.enabled && !s.kill
  }

  lemma {:induction false} RunKeepsSaved<C>(s: State<C>, steps: seq<Step<C>>)
    requires Saved(s)
    ensures Saved(Run(s, steps))
    decreases |steps|
  {
    if steps != [] { RunKeepsSaved(Next(s, steps[0]), steps[1..]); }
  }

  /** In every run: when the thread blocks or exits with nothing pending after a counted
      update, the file is the configuration; a blocked thread with something pending has
      been woken. */
  lemma NoCountedUpdateIsLost<C>(s: State<C>, steps: seq<Step<C>>)
    requires Initial(s)
    ensures var e := Run(s, steps);
            && ((e.pc.Waiting? || e.pc.Exited?) && e.pending == 0 && e.counted ==> e.file == e.config)
            && (e.pc.Waiting? && e.pending > 0 ==> e.pc.woken)
  {
    RunKeepsSaved(s, steps);
  }

  /** In every run the step with which the thread exits leaves a counted update saved, and
      nothing pending. */
  lemma ExitSaves<C>(s: State<C>, steps: seq<Step<C>>, step: Step<C>)
    requires Initial(s) && !Run(s, steps).pc.Exited? && Next(Run(s, steps), step).pc.Exited?
    ensures var e := Next(Run(s, steps), step);
            e.kill && e.pending == 0 && (e.counted ==> e.file == e.config)
  {
    RunKeepsSaved(s, steps);
  }

  /** The thread's own steps, once each; those it cannot take are skipped. */
  function Round<C>(s: State<C>): State<C> {
    Next(Next(Next(Next(Next(s, TakeMutex), FirstTest), Wake), SecondTest), Write)
  }

  lemma RoundIsRun<C>(s: State<C>)
    ensures Round(s) == Run(s, [TakeMutex, FirstTest, Wake, SecondTest, Write])
  {
    var last: seq<Step<C>> := [];
    var s1 := Next(s, TakeMutex);
    var s2 := Next(s1, FirstTest);
    var s3 := Next(s2, Wake);
    var s4 := Next(s3, SecondTest);
    RunStep(s4, Write, last);
    RunStep(s3, SecondTest, [Write] + last);
    RunStep(s2, Wake, [SecondTest] + ([Write] + last));
    RunStep(s1, FirstTest, [Wake] + ([SecondTest] + ([Write] + last)));
    RunStep(s, TakeMutex, [FirstTest] + ([Wake] + ([SecondTest] + ([Write] + last))));
    assert [TakeMutex] + ([FirstTest] + ([Wake] + ([SecondTest] + ([Write] + last))))
        == [TakeMutex, FirstTest, Wake, SecondTest, Write];
  }

  /** Left alone, the thread saves every counted update within two rounds, wherever it is. */
  lemma TwoRoundsSave<C>(s: State<C>, steps: seq<Step<C>>)
    requires Initial(s) && Run(s, steps).counted && !Run(s, steps).pc.Exited?
    ensures var e := Round(Round(Run(s, steps))); e.pending == 0 && e.file == e.config == Run(s, steps).config
  {
    RunKeepsSaved(s, steps);
  }

  /** Once it is told to end, it ends within three rounds, with a counted update saved. */
  lemma ThreeRoundsEnd<C>(s: State<C>, steps: seq<Step<C>>)
    requires Initial(s) && Run(s, steps).kill && !Run(s, steps).pc.Exited?
    ensures var e := Round(Round(Round(Run(s, steps))));
            e.pc.Exited? && e.pending == 0 && (e.counted ==> e.file == e.config)
  {
    RunKeepsSaved(s, steps);
  }

  /** An update from before dumping was enabled is not counted and can stay unsaved. */
  lemma UncountedUpdateCanBeLost<C(!new)>(a: C, b: C)
    requires a != b
    ensures exists steps :: var e := Run(State(a, a, 0, false, false, Start, false), steps);
              e.pc.Exited? && e.enabled && e.config != e.file
  {
    var s := State(a, a, 0, false, false, Start, false);
    var steps := [Update(b), Enable, Kill, TakeMutex, FirstTest, SecondTest];
    RunStep(s, Update(b), [Enable, Kill, TakeMutex, FirstTest, SecondTest]);
    var s1 := Next(s, Update(b));
    RunStep(s1, Enable, [Kill, TakeMutex, FirstTest, SecondTest]);
    var s2 := Next(s1, Enable);
    RunStep(s2, Kill, [TakeMutex, FirstTest, SecondTest]);
    var s3 := Next(s2, Kill);
    RunStep(s3, TakeMutex, [FirstTest, SecondTest]);
    var s4 := Next(s3, TakeMutex);
    RunStep(s4, FirstTest, [SecondTest]);
    var s5 := Next(s4, FirstTest);
    RunStep(s5, SecondTest, []);
    assert steps == [Update(b)] + ([Enable] + ([Kill] + ([TakeMutex] + ([FirstTest] + ([SecondTest] + [])))));
    assert Run(s, steps) == Next(s5, SecondTest);
  }

  lemma RunStep<C>(s: State<C>, step: Step<C>, rest: seq<Step<C>>)
    ensures Run(s, [step] + rest) == Run(Next(s, step), rest)
  {
    assert ([step] + rest)[1..] == rest;
  }
}
