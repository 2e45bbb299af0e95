/**
  The spin word of the latch: an atomic counter that each attempt increments and the holder
  resets. The increments wrap as a 32-bit `int` does; that they never get there is a theorem.
*/
module SpinLock {

  import opened ThreadIds

  const INT_MAX := 0x7FFF_FFFF

  /** Where the threads are: about to increment, in the yield loop, or inside. Any other thread is elsewhere. */
  datatype State = State(word: int, trying: set<Tid>, yielding: set<Tid>, inside: set<Tid>)

  datatype Move = Enter | Increment | Look | Leave

  datatype Turn = Turn(thread: Tid, move: Move)

  function Init(): State {
    State(0, {}, {}, {})
  }

  /** `fetch_add(1) + 1` on an `int`. */
  function Incremented(word: int): int {
    if word == INT_MAX then -INT_MAX - 1 else word + 1
  }

  predicate Enabled(s: State, u: Turn) {
    match u.move
    case Enter => u.thread !in s.trying + s.yielding + s.inside
    case Increment => u.thread in s.trying
    case Look => u.thread in s.yielding
    case Leave => u.thread in s.inside
  }

  function Next(s: State, u: Turn): State
    requires Enabled(s, u)
  {
    var t := {u.thread};
    match u.move
    case Enter => s.(trying := s.trying + t)
    case Increment =>
      var word := Incremented(s.word);
      if word == 1 then State(word, s.trying - t, s.yielding, s.inside + t)
      else State(word, s.trying - t, s.yielding + t, s.inside)
    case Look => if s.word != 0 then s else s.(yielding := s.yielding - t, trying := s.trying + t)
    case Leave => s.(word := 0, inside := s.inside - t)
  }

  /** One entry of a schedule; an entry its thread cannot follow is passed over. */
  function Step(s: State, u: Turn): State {
    if Enabled(s, u) then Next(s, u) else s
  }

  function Exec(schedule: seq<Turn>): State {
    if schedule == [] then Init() else Step(Exec(schedule[..|schedule| - 1]), schedule[|schedule| - 1])
  }

  /** The word is zero exactly when nobody is inside, else it counts the holder and no waiter twice. */
  ghost predicate Inv(s: State) {
    && (s.word == 0 <==> s.inside == {})
    && (forall t, u :: t in s.inside && u in s.inside ==> t == u)
    && 0 <= s.word <= 1 + |s.yielding|
    && s.trying !! s.yielding && s.trying !! s.inside && s.yielding !! s.inside
  }

  /** Only these threads exist. */
  ghost predicate Among(s: State, threads: set<Tid>) {
    s.trying + s.yielding + s.inside <= threads
  }

  lemma WordBound(s: State, threads: set<Tid>)
    requires Inv(s) && Among(s, threads)
    ensures s.word <= |threads|
  {
    if s.word != 0 {
      var holder :| holder in s.inside;
      Fewer(s.yielding + {holder}, threads);
    }
  }

  lemma {:induction false} Fewer(a: set<Tid>, b: set<Tid>)
    requires a <= b
    ensures |a| <= |b|
  {
    if a != {} {
      var x :| x in a;
      Fewer(a - {x}, b - {x});
    }
  }

  /** Each failed attempt adds one to the word and one waiter to the yield loop. */
  lemma IncrementKeepsInv(s: State, t: Tid)
    requires Inv(s) && t in s.trying && s.word < INT_MAX
    ensures Inv(Next(s, Turn(t, Increment)))
  {
    assert |s.yielding + {t}| == |s.yielding| + 1;
    if s.word == 0 {
      assert s.inside + {t} == {t};
    }
  }

  lemma OtherKeepsInv(s: State, u: Turn)
    requires Inv(s) && Enabled(s, u) && u.move != Increment
    ensures Inv(Next(s, u))
  {
    if u.move == Leave {
      assert s.inside - {u.thread} == {};
    }
  }

  lemma StepKeepsInv(s: State, u: Turn, threads: set<Tid>)
    requires Inv(s) && Among(s, threads) && u.thread in threads && |threads| < INT_MAX
    ensures Inv(Step(s, u)) && Among(Step(s, u), threads)
  {
    hide Inv;
    if Enabled(s, u) {
      WordBound(s, threads);
      if u.move == Increment {
        IncrementKeepsInv(s, u.thread);
      } else {
        OtherKeepsInv(s, u);
      }
    }
  }

  lemma {:induction false} ReachableInv(schedule: seq<Turn>, threads: set<Tid>)
    requires forall i :: 0 <= i < |schedule| ==> schedule[i].thread in threads
    requires |threads| < INT_MAX
    ensures Inv(Exec(schedule)) && Among(Exec(schedule), threads)
  {
    if schedule != [] {
      ReachableInv(schedule[..|schedule| - 1], threads);
      StepKeepsInv(Exec(schedule[..|schedule| - 1]), schedule[|schedule| - 1], threads);
    }
  }

  /**
    Any number of threads short of `INT_MAX`, any interleaving: at most one is inside, the word
    says whether one is, and it never exceeds the number of threads, so it cannot wrap.
  */
  lemma SpinWordIsSafe(schedule: seq<Turn>, threads: set<Tid>)
    requires forall i :: 0 <= i < |schedule| ==> schedule[i].thread in threads
    requires |threads| < INT_MAX
    ensures
      var s := Exec(schedule);
      && (forall t, u :: t in s.inside && u in s.inside ==> t == u)
      && (s.word == 0 <==> s.inside == {})
      && 0 <= s.word <= |threads|
  {
    ReachableInv(schedule, threads);
    WordBound(Exec(schedule), threads);
  }

  /** Nobody inside and somebody wants in: the next attempt of any waiter succeeds. */
  lemma FreeMeansNextIn(schedule: seq<Turn>, threads: set<Tid>, t: Tid)
    requires forall i :: 0 <= i < |schedule| ==> schedule[i].thread in threads
    requires |threads| < INT_MAX
    requires
      var s := Exec(schedule);
      s.inside == {} && t in s.trying + s.yielding
    ensures
      var s := Exec(schedule);
      && (t in s.trying ==> Step(s, Turn(t, Increment)).inside == {t})
      && (t in s.yielding ==> Step(Step(s, Turn(t, Look)), Turn(t, Increment)).inside == {t})
  {
    ReachableInv(schedule, threads);
  }
}
