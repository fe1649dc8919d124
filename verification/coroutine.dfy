/**
  The stackless coroutine of coroutine.hpp.

  A coroutine body is a labelled instruction graph. It is given two meanings:

  - `Step` and `Enter` execute what the REENTER, YIELD and FORK macros expand to: a
    switch over an int, `case` labels placed inside nested loops, assignments through a
    `coroutine_ref`, and a destructor that marks the coroutine as complete unless it was
    assigned to. Every jump of the expansion is a step of its own.

  - `Advance` and `Resume` are the meaning the documentation gives: a coroutine is at a
    position of its body, a yield suspends it there, a fork duplicates it. There are no
    labels, no stored int and no modified flag.

  The theorems show that every run of the first is a run of the second.
 */
module Coroutine {

  datatype Option<T> = None | Some(value: T)

  // ---------------------------------------------------------------- bodies

  datatype Instr =
    | Do(act: nat)                          // a statement without a yield or a fork in it
    | Branch(cond: nat, target: nat)        // if/while/for/break/continue: jump to target when cond holds
    | IfChild(target: nat)                  // a branch on is_child()
    | Yield(line: int, act: nat)           // yield statement;
    | YieldReturn(line: int, act: nat)     // yield return expression;
    | YieldBreak(line: int)                // yield break;
    | Fork(line: int, act: nat)            // fork statement;
    | Leave                                 // return or throw, without a yield
  {
    predicate IsYield() { Yield? || YieldReturn? || YieldBreak? }
    predicate HasLine() { IsYield() || Fork? }

    /** The `case` label that the macro adds to the switch of REENTER. */
    function CaseLabel(): int { if IsYield() then line else if Fork? then -line else 0 }
  }

  /** A body, with the effect of its statements, its conditions, and of whatever happens
      to the object between two reentries. */
  datatype Program<!S> = Program(code: seq<Instr>, exec: (nat, S) -> S, test: (nat, S) -> bool, env: (nat, S) -> S)
  {
    /** Labels are line numbers: positive and distinct. A fork cannot be on line 1,
        because `case -(1)` would clash with the `case -1` of REENTER. */
    predicate WellFormed() {
      && (forall i | 0 <= i < |code| :: code[i].HasLine() ==> code[i].line > 0)
      && (forall i | 0 <= i < |code| :: code[i].Fork? ==> code[i].line != 1)
      && (forall i, j | 0 <= i < j < |code| ::
            code[i].HasLine() && code[j].HasLine() ==> code[i].line != code[j].line)
    }

    predicate ForkFree() { forall i | 0 <= i < |code| :: !code[i].Fork? }
  }

  // ---------------------------------------------------------------- the macros

  /** A place in the expansion of YIELD or FORK. `Start` is the initialiser of its outer
      `for`, and the only place of every other instruction. */
  datatype Phase =
    | Start
    | Head      // the test at the top of the outer for
    | Case      // the `case` label inside that test: resume here
    | Switch    // switch (_coro_value ? 0 : 1)
    | Body      // case 0 (yield) or the else branch (fork): the statement
    | Bail      // case 1: if (_coro_value) goto bail_out_of_coroutine
    | Term      // case -1: if (_coro_value) goto terminate_coroutine
    | Incr      // the increment expression of the fork's for: _coro_value = (n)

  datatype Point =
    | Outside             // no reentry is active
    | At(pc: nat, phase: Phase)
    | Terminate           // terminate_coroutine:
    | BailOut             // bail_out_of_coroutine:
    | EndSwitch           // leaving the switch: ~coroutine_ref runs

  /** One coroutine object: its int, the flag of the active coroutine_ref, the place of
      control, the rest of the object, and the statements it has executed. */
  datatype Machine<S> = Machine(value: int, modified: bool, at: Point, state: S, trace: seq<nat>)

  function NewMachine<S>(s: S): Machine<S> { Machine(0, false, Outside, s, []) }

  predicate IsChild<S>(m: Machine<S>) { m.value < 0 }
  predicate IsComplete<S>(m: Machine<S>) { m.value == -1 }

  /** The instruction, if any, whose macro contributed `case v` to the switch. */
  function CaseOf(code: seq<Instr>, v: int): (r: Option<nat>)
    ensures r.Some? ==> r.value < |code| && code[r.value].CaseLabel() == v
    ensures r.None? ==> forall i | 0 <= i < |code| :: code[i].CaseLabel() != v
  {
    if code == [] then None
    else if code[|code| - 1].CaseLabel() == v then Some(|code| - 1)
    else CaseOf(code[..|code| - 1], v)
  }

  /** REENTER: the switch over the stored int. */
  function Dispatch<S>(p: Program<S>, v: int): Point {
    if v == -1 then Terminate
    else if v == 0 then At(0, Start)
    else match CaseOf(p.code, v)
      case Some(pc) => At(pc, Case)
      case None => EndSwitch
  }

  /** A client applies `input` to a suspended object and reenters it. */
  function Enter<S>(p: Program<S>, m: Machine<S>, input: nat): Machine<S> {
    if m.at == Outside then m.(modified := false, at := Dispatch(p, m.value), state := p.env(input, m.state)) else m
  }

  function Assign<S>(m: Machine<S>, v: int): Machine<S> { m.(value := v, modified := true) }

  function Perform<S>(p: Program<S>, m: Machine<S>, act: nat): Machine<S> {
    m.(state := p.exec(act, m.state), trace := m.trace + [act])
  }

  /** What executing the place `phase` of instruction `i` does to the object. */
  function Effect<S>(p: Program<S>, m: Machine<S>, i: Instr, phase: Phase): Machine<S> {
    if i.Do? || (phase == Body && (i.Yield? || i.YieldReturn? || i.Fork?)) then Perform(p, m, i.act)
    else if phase == Start && i.IsYield() then Assign(m, i.line)
    else if phase == Start && i.Fork? then Assign(m, -i.line)
    else if phase == Incr && i.Fork? then Assign(m, i.line)
    else m
  }

  /** The jumps of YIELD, when the int is `v`. */
  function YieldTarget(i: Instr, pc: nat, phase: Phase, v: int): Point {
    match phase
    case Start => At(pc, Head)
    case Head => At(pc, if v == 0 then Case else Switch)
    case Case => At(pc + 1, Start)
    case Switch => At(pc, if v != 0 then Body else Bail)
    case Body =>
      // a statement that completes meets `case 1` next, `break` leaves the inner loop and
      // meets `case -1`, `return` leaves the function
      if i.YieldBreak? then At(pc, Term) else if i.YieldReturn? then EndSwitch else At(pc, Bail)
    case Bail => if v != 0 then BailOut else At(pc, Body)
    case Term => if v != 0 then Terminate else At(pc, Bail)
    case Incr => At(pc, Incr)
  }

  /** The jumps of FORK, when the int is `v`. */
  function ForkTarget(i: Instr, pc: nat, phase: Phase, v: int): Point
    requires i.Fork?
  {
    match phase
    case Start => At(pc, Head)
    case Head => At(pc, if v == i.line then Case else Body)
    case Case => At(pc + 1, Start)
    case Body => At(pc, Incr)
    case Incr => At(pc, Head)
    case _ => At(pc, phase)
  }

  function Target<S>(p: Program<S>, i: Instr, pc: nat, phase: Phase, v: int, s: S): Point {
    match i
    case Do(_) => At(pc + 1, Start)
    case Branch(cond, target) => At(if p.test(cond, s) then target else pc + 1, Start)
    case IfChild(target) => At(if v < 0 then target else pc + 1, Start)
    case Leave => EndSwitch
    case Fork(_, _) => ForkTarget(i, pc, phase, v)
    case _ => YieldTarget(i, pc, phase, v)
  }

  function Step<S>(p: Program<S>, m: Machine<S>): Machine<S> {
    match m.at
    case Outside => m
    case EndSwitch => m.(at := Outside, value := if m.modified then m.value else -1)
    case Terminate => Assign(m, -1).(at := BailOut)
    case BailOut => m.(at := EndSwitch)
    case At(pc, phase) =>
      if pc >= |p.code| then m.(at := EndSwitch)
      else
        var m' := Effect(p, m, p.code[pc], phase);
        m'.(at := Target(p, p.code[pc], pc, phase, m'.value, m.state))
  }

  /** Is the next step the statement of a fork? */
  predicate Forks<S>(p: Program<S>, m: Machine<S>) {
    m.at.At? && m.at.phase == Body && m.at.pc < |p.code| && p.code[m.at.pc].Fork?
  }

  /** The copy made by that statement: the same object, no reentry active in it. */
  function Copy<S>(p: Program<S>, m: Machine<S>): Machine<S>
    requires Forks(p, m)
  {
    Perform(p, m, p.code[m.at.pc].act).(at := Outside, modified := false)
  }

  // ---------------------------------------------------------------- what they mean

  datatype Position = Running(pc: nat) | Waiting(pc: nat) | Done

  datatype Cont<S> = Cont(pos: Position, child: bool, state: S, trace: seq<nat>)

  function NewCont<S>(s: S): Cont<S> { Cont(Waiting(0), false, s, []) }

  function Resume<S>(p: Program<S>, c: Cont<S>, input: nat): Cont<S> {
    match c.pos
    case Running(_) => c
    case Waiting(pc) => c.(pos := Running(pc), state := p.env(input, c.state))
    case Done => c.(state := p.env(input, c.state))
  }

  function Act<S>(p: Program<S>, c: Cont<S>, act: nat): Cont<S> {
    c.(state := p.exec(act, c.state), trace := c.trace + [act])
  }

  function Advance<S>(p: Program<S>, c: Cont<S>): Cont<S> {
    if !c.pos.Running? then c
    else
      var pc := c.pos.pc;
      if pc >= |p.code| then c.(pos := Done)
      else match p.code[pc]
        case Do(act) => Act(p, c, act).(pos := Running(pc + 1))
        case Branch(cond, target) => c.(pos := Running(if p.test(cond, c.state) then target else pc + 1))
        case IfChild(target) => c.(pos := Running(if c.child then target else pc + 1))
        case Yield(_, act) => Act(p, c, act).(pos := Waiting(pc + 1), child := false)
        case YieldReturn(_, act) => Act(p, c, act).(pos := Waiting(pc + 1), child := false)
        case YieldBreak(_) => c.(pos := Done)
        case Fork(_, act) => Act(p, c, act).(pos := Running(pc + 1), child := false)
        case Leave => c.(pos := Done)
  }

  predicate Splits<S>(p: Program<S>, c: Cont<S>) {
    c.pos.Running? && c.pos.pc < |p.code| && p.code[c.pos.pc].Fork?
  }

  /** The other half of a fork: it waits where the parent goes on, and is a child. */
  function Twin<S>(p: Program<S>, c: Cont<S>): Cont<S>
    requires Splits(p, c)
  {
    Act(p, c, p.code[c.pos.pc].act).(pos := Waiting(c.pos.pc + 1), child := true)
  }

  // ---------------------------------------------------------------- one coroutine

  /** Where an object whose reentry has ended, leaving `value`, will go on. */
  function Rest<S>(p: Program<S>, value: int): Position {
    if value == -1 then Done
    else if value == 0 then Waiting(0)
    else match CaseOf(p.code, value)
      case Some(pc) => Waiting(pc + 1)
      case None => Done
  }

  /** The position that a place in the expansions stands for. */
  function Meaning<S>(p: Program<S>, m: Machine<S>): Position {
    match m.at
    case Outside => Rest(p, m.value)
    case EndSwitch => if m.modified then Rest(p, m.value) else Done
    case BailOut => Rest(p, m.value)
    case Terminate => Done
    case At(pc, phase) =>
      match phase
      case Start => Running(pc)
      case Head =>
        var done := if pc < |p.code| && p.code[pc].Fork? then p.code[pc].line else 0;
        Running(if m.value == done then pc + 1 else pc)
      case Case => Running(pc + 1)
      case Switch => Running(pc)
      case Body => Running(pc)
      case Bail => Waiting(pc + 1)
      case Term => Done
      case Incr => Running(pc + 1)
  }

  /** Between the assignment at the start of a yield or fork and its statement, the int
      no longer tells whether the coroutine is a child; and nothing asks. */
  predicate Committed<S>(p: Program<S>, m: Machine<S>) {
    m.at.At? && m.at.pc < |p.code| &&
    ((m.at.phase == Head && (p.code[m.at.pc].Fork? ==> m.value != p.code[m.at.pc].line))
     || m.at.phase == Switch || m.at.phase == Body)
  }

  /** The line of a fork: what a parent holds after one. No `case` label has this value. */
  predicate ForkLine<S>(p: Program<S>, v: int) {
    exists i | 0 <= i < |p.code| :: p.code[i].Fork? && p.code[i].line == v
  }

  /** What holds of the int and the flag at each place of the expansions. */
  predicate Consistent<S>(p: Program<S>, m: Machine<S>) {
    match m.at
    case Outside => true
    case EndSwitch => true
    case BailOut => m.modified && m.value != 0
    case Terminate => true
    case At(pc, phase) =>
      if phase == Start then m.modified ==> ForkLine(p, m.value)
      else
        && pc < |p.code|
        && var i := p.code[pc];
        && (i.IsYield() || i.Fork?)
        && (match phase
            case Case => m.value == (if i.Fork? == m.modified then i.line else -i.line) && (i.IsYield() ==> !m.modified)
            case Head => m.modified && (m.value == i.line || (i.Fork? && m.value == -i.line))
            case Switch => i.IsYield() && m.modified && m.value == i.line
            case Body => m.modified && m.value == (if i.IsYield() then i.line else -i.line)
            case Bail => i.Yield? && m.modified && m.value == i.line
            case Term => i.YieldBreak? && m.modified && m.value == i.line
            case Incr => i.Fork? && m.modified && m.value == -i.line
            case _ => true)
  }

  /** Machine `m` implements continuation `c`. */
  ghost predicate Implements<S(!new)>(p: Program<S>, m: Machine<S>, c: Cont<S>) {
    && Consistent(p, m)
    && c.pos == Meaning(p, m)
    && c.state == m.state
    && c.trace == m.trace
    && (!c.pos.Done? && !Committed(p, m) ==> c.child == (IsChild(m) && !(m.at.At? && m.at.phase == Incr)))
  }

  /** Does the next step of the expansion execute the instruction it is in? All other
      steps are jumps and assignments of the macros. */
  predicate Executes<S>(p: Program<S>, m: Machine<S>) {
    m.at.At? &&
    (m.at.pc >= |p.code| ||
     (if p.code[m.at.pc].IsYield() || p.code[m.at.pc].Fork? then m.at.phase == Body else true))
  }

  lemma CaseOfLine<S>(p: Program<S>, pc: nat)
    requires p.WellFormed() && pc < |p.code|
    ensures p.code[pc].IsYield() ==> CaseOf(p.code, p.code[pc].line) == Some(pc)
    ensures p.code[pc].Fork? ==> CaseOf(p.code, -p.code[pc].line) == Some(pc) && CaseOf(p.code, p.code[pc].line) == None
  {
  }

  lemma ForkLineHasNoCase<S>(p: Program<S>, v: int)
    requires p.WellFormed() && ForkLine(p, v)
    ensures v > 0 && CaseOf(p.code, v) == None
  {
    var i :| 0 <= i < |p.code| && p.code[i].Fork? && p.code[i].line == v;
    CaseOfLine(p, i);
  }

  lemma YieldImplements<S(!new)>(p: Program<S>, m: Machine<S>, c: Cont<S>)
    requires p.WellFormed() && Implements(p, m, c)
    requires m.at.At? && m.at.pc < |p.code| && p.code[m.at.pc].IsYield()
    ensures Implements(p, Step(p, m), if Executes(p, m) then Advance(p, c) else c)
  {
    CaseOfLine(p, m.at.pc);
  }

  /** The copy that the statement of a fork makes waits at the same place, as a child. */
  lemma CopyImplements<S(!new)>(p: Program<S>, m: Machine<S>, c: Cont<S>)
    requires p.WellFormed() && Implements(p, m, c) && Forks(p, m)
    ensures Splits(p, c) && Implements(p, Copy(p, m), Twin(p, c))
  {
    CaseOfLine(p, m.at.pc);
  }

  /** The statement of a fork is executed once, and the parent goes on behind it. */
  lemma ForkExecutes<S(!new)>(p: Program<S>, m: Machine<S>, c: Cont<S>)
    requires p.WellFormed() && Implements(p, m, c) && Forks(p, m)
    ensures Executes(p, m) && Implements(p, Step(p, m), Advance(p, c))
  {
    CaseOfLine(p, m.at.pc);
  }

  lemma ForkImplements<S(!new)>(p: Program<S>, m: Machine<S>, c: Cont<S>)
    requires p.WellFormed() && Implements(p, m, c)
    requires m.at.At? && m.at.pc < |p.code| && p.code[m.at.pc].Fork?
    ensures Implements(p, Step(p, m), if Executes(p, m) then Advance(p, c) else c)
    ensures Forks(p, m) ==> Splits(p, c) && Implements(p, Copy(p, m), Twin(p, c))
  {
    CaseOfLine(p, m.at.pc);
    if Forks(p, m) {
      ForkExecutes(p, m, c);
      CopyImplements(p, m, c);
    }
  }

  lemma StepImplements<S(!new)>(p: Program<S>, m: Machine<S>, c: Cont<S>)
    requires p.WellFormed() && Implements(p, m, c)
    ensures Implements(p, Step(p, m), if Executes(p, m) then Advance(p, c) else c)
  {
    if m.at.At? && m.modified && ForkLine(p, m.value) {
      ForkLineHasNoCase(p, m.value);
    }
    if m.at.At? && m.at.pc < |p.code| {
      if p.code[m.at.pc].IsYield() {
        YieldImplements(p, m, c);
      } else if p.code[m.at.pc].Fork? {
        ForkImplements(p, m, c);
      }
    }
  }

  lemma EnterImplements<S(!new)>(p: Program<S>, m: Machine<S>, c: Cont<S>, input: nat)
    requires p.WellFormed() && Implements(p, m, c) && m.at == Outside
    ensures Implements(p, Enter(p, m, input), Resume(p, c, input))
  {
  }

  /** Every step of the macros brings the next instruction, or the end of the reentry, closer. */
  function Rank<S>(p: Program<S>, m: Machine<S>): nat {
    match m.at
    case Outside => 0
    case EndSwitch => 1
    case BailOut => 2
    case Terminate => 3
    case At(pc, phase) =>
      match phase
      case Start => 3
      case Head => if pc < |p.code| && p.code[pc].Fork? && m.value == p.code[pc].line then 5 else 2
      case Case => 4
      case Switch => 1
      case Body => 0
      case Bail => 3
      case Term => 4
      case Incr => 6
  }

  function Steps<S>(p: Program<S>, m: Machine<S>, n: nat): Machine<S>
    decreases n
  {
    if n == 0 then m else Steps(p, Step(p, m), n - 1)
  }

  lemma RankDecreases<S(!new)>(p: Program<S>, m: Machine<S>, c: Cont<S>)
    requires p.WellFormed() && Implements(p, m, c) && !Executes(p, m) && m.at != Outside
    ensures Rank(p, Step(p, m)) < Rank(p, m) <= 6
  {
  }

  /** The macros never spin: from any point of a run, at most six steps lead to the next
      instruction of the body or out of the reentry. */
  lemma {:induction false} MacrosMakeProgress<S(!new)>(p: Program<S>, m: Machine<S>, c: Cont<S>) returns (n: nat)
    requires p.WellFormed() && Implements(p, m, c)
    ensures n <= Rank(p, m) <= 6
    ensures Executes(p, Steps(p, m, n)) || Steps(p, m, n).at == Outside
    ensures Implements(p, Steps(p, m, n), c)
    decreases Rank(p, m)
  {
    if Executes(p, m) || m.at == Outside {
      n := 0;
    } else {
      RankDecreases(p, m, c);
      StepImplements(p, m, c);
      n := MacrosMakeProgress(p, Step(p, m), c);
      n := n + 1;
    }
  }

  // ---------------------------------------------------------------- completion

  lemma {:induction false} StepsSnoc<S>(p: Program<S>, m: Machine<S>, n: nat)
    ensures Steps(p, m, n + 1) == Step(p, Steps(p, m, n))
    decreases n
  {
    if n > 0 {
      StepsSnoc(p, Step(p, m), n - 1);
    }
  }

  /** A fork was executed in the first n steps of a reentry. */
  ghost predicate Forked<S(!new)>(p: Program<S>, e: Machine<S>, n: nat) {
    exists j | 0 <= j < n :: Forks(p, Steps(p, e, j))
  }

  lemma ForkedSnoc<S(!new)>(p: Program<S>, e: Machine<S>, n: nat)
    ensures Forked(p, e, n + 1) <==> Forked(p, e, n) || Forks(p, Steps(p, e, n))
  {
  }

  /** Where the flag means that a fork was executed: at the start of every instruction. */
  ghost predicate FlagIsFork<S(!new)>(p: Program<S>, m: Machine<S>, forked: bool) {
    m.at.At? ==>
      && (m.at.phase == Start || m.at.phase == Case ==> m.modified == forked)
      && (m.at.phase == Incr ==> forked)
      && (m.at.phase == Head && m.at.pc < |p.code| && p.code[m.at.pc].Fork? && m.value == p.code[m.at.pc].line ==>
            forked)
  }

  lemma FlagStep<S(!new)>(p: Program<S>, m: Machine<S>, c: Cont<S>, forked: bool)
    requires p.WellFormed() && Implements(p, m, c) && FlagIsFork(p, m, forked)
    ensures FlagIsFork(p, Step(p, m), forked || Forks(p, m))
  {
  }

  lemma {:induction false} FlagMeansForked<S(!new)>(p: Program<S>, m: Machine<S>, c: Cont<S>, input: nat, n: nat)
    returns (c': Cont<S>)
    requires p.WellFormed() && Implements(p, m, c) && m.at == Outside
    ensures var e := Enter(p, m, input);
            Implements(p, Steps(p, e, n), c') && FlagIsFork(p, Steps(p, e, n), Forked(p, e, n))
  {
    var e := Enter(p, m, input);
    if n == 0 {
      EnterImplements(p, m, c, input);
      c' := Resume(p, c, input);
    } else {
      c' := FlagMeansForked(p, m, c, input, n - 1);
      var m' := Steps(p, e, n - 1);
      StepsSnoc(p, e, n - 1);
      ForkedSnoc(p, e, n - 1);
      FlagStep(p, m', c', Forked(p, e, n - 1));
      StepImplements(p, m', c');
      c' := if Executes(p, m') then Advance(p, c') else c';
    }
  }

  /** The two steps that leave the body: through the destructor, which looks at the flag. */
  lemma LeavingSteps<S(!new)>(p: Program<S>, m: Machine<S>, c: Cont<S>)
    requires p.WellFormed() && Implements(p, m, c)
    requires m.at.At? && m.at.phase == Start && (m.at.pc >= |p.code| || p.code[m.at.pc].Leave?)
    ensures var left := Step(p, Step(p, m));
            && left.at == Outside && Meaning(p, left) == Done
            && (IsComplete(left) <==> !m.modified)
            && (m.modified ==> ForkLine(p, left.value))
  {
    if m.modified {
      ForkLineHasNoCase(p, m.value);
    }
  }

  /** Leaving the body without a yield, n steps into a reentry, completes the coroutine if
      and only if no fork was executed in that reentry: a parent that forked keeps the line
      of a fork. Either way it has nothing more to do. */
  lemma LeavingCompletes<S(!new)>(p: Program<S>, m: Machine<S>, c: Cont<S>, input: nat, n: nat)
    requires p.WellFormed() && Implements(p, m, c) && m.at == Outside
    requires var at := Steps(p, Enter(p, m, input), n).at;
             at.At? && at.phase == Start && (at.pc >= |p.code| || p.code[at.pc].Leave?)
    ensures var e := Enter(p, m, input);
            var left := Steps(p, e, n + 2);
            && left.at == Outside && Meaning(p, left) == Done
            && (IsComplete(left) <==> !Forked(p, e, n))
            && (Forked(p, e, n) ==> ForkLine(p, left.value))
  {
    var e := Enter(p, m, input);
    var m' := Steps(p, e, n);
    var c' := FlagMeansForked(p, m, c, input, n);
    StepsSnoc(p, e, n);
    StepsSnoc(p, e, n + 1);
    LeavingSteps(p, m', c');
  }

  /** For example: a body that is a single fork on line 2. Its first reentry forks, ends, and
      leaves the coroutine incomplete, holding 2. */
  lemma ForkAndLeave<S(!new)>(p: Program<S>, s: S, input: nat)
    requires p.code == [Fork(2, 0)]
    ensures var left := Steps(p, Enter(p, NewMachine(s), input), 8);
            left.at == Outside && left.value == 2 && !IsComplete(left) && left.trace == [0]
  {
    var m0 := Enter(p, NewMachine(s), input);
    var m1 := Step(p, m0);
    var m2 := Step(p, m1);
    var m3 := Step(p, m2);
    var m4 := Step(p, m3);
    assert m4 == Machine(2, true, At(0, Head), p.exec(0, p.env(input, s)), [0]);
    var m5 := Step(p, m4);
    var m6 := Step(p, m5);
    var m7 := Step(p, m6);
    assert Steps(p, m4, 4) == Steps(p, m5, 3) == Steps(p, m6, 2) == Steps(p, m7, 1) == Step(p, m7);
    assert Steps(p, m0, 8) == Steps(p, m1, 7) == Steps(p, m2, 6) == Steps(p, m3, 5) == Steps(p, m4, 4);
  }

  /** A finished coroutine stays finished: any further reentry executes nothing, ends
      after at most three steps, and leaves the object complete; is_child() holds of it too. */
  lemma CompletionIsAbsorbing<S(!new)>(p: Program<S>, m: Machine<S>, input: nat) returns (n: nat)
    requires m.at == Outside && Meaning(p, m) == Done
    ensures n <= 3
    ensures var m' := Steps(p, Enter(p, m, input), n);
            && m'.at == Outside && IsComplete(m') && IsChild(m')
            && m'.trace == m.trace && m'.state == p.env(input, m.state)
  {
    var e := Enter(p, m, input);
    if IsComplete(m) {
      n := 3;
      var e1 := Step(p, e);
      var e2 := Step(p, e1);
      assert Steps(p, e, 3) == Steps(p, e1, 2) == Steps(p, e2, 1) == Step(p, e2);
    } else {
      n := 1;
      assert Steps(p, e, 1) == Step(p, e);
    }
  }

  // ---------------------------------------------------------------- all the copies

  /** A scheduler lets any object run one step, or a client reenter any suspended one. */
  datatype Event = Micro(who: nat) | Reenter(who: nat, input: nat)

  function PoolStep<S>(p: Program<S>, ms: seq<Machine<S>>, e: Event): seq<Machine<S>> {
    if e.who >= |ms| then ms
    else match e
      case Micro(i) => ms[i := Step(p, ms[i])] + (if Forks(p, ms[i]) then [Copy(p, ms[i])] else [])
      case Reenter(i, input) => ms[i := Enter(p, ms[i], input)]
  }

  function PoolRun<S>(p: Program<S>, ms: seq<Machine<S>>, es: seq<Event>): seq<Machine<S>>
    decreases |es|
  {
    if es == [] then ms else PoolRun(p, PoolStep(p, ms, es[0]), es[1..])
  }

  function ContStep<S>(p: Program<S>, cs: seq<Cont<S>>, e: Event): seq<Cont<S>> {
    if e.who >= |cs| then cs
    else match e
      case Micro(i) => cs[i := Advance(p, cs[i])] + (if Splits(p, cs[i]) then [Twin(p, cs[i])] else [])
      case Reenter(i, input) => cs[i := Resume(p, cs[i], input)]
  }

  function ContRun<S>(p: Program<S>, cs: seq<Cont<S>>, es: seq<Event>): seq<Cont<S>>
    decreases |es|
  {
    if es == [] then cs else ContRun(p, ContStep(p, cs, es[0]), es[1..])
  }

  /** What an event of the expanded program is for the documented meaning: an
      instruction, a resumption, or nothing. */
  function Visible<S>(p: Program<S>, ms: seq<Machine<S>>, e: Event): seq<Event> {
    if e.who < |ms| && (if e.Micro? then Executes(p, ms[e.who]) else ms[e.who].at == Outside) then [e] else []
  }

  function VisibleRun<S>(p: Program<S>, ms: seq<Machine<S>>, es: seq<Event>): seq<Event>
    decreases |es|
  {
    if es == [] then [] else Visible(p, ms, es[0]) + VisibleRun(p, PoolStep(p, ms, es[0]), es[1..])
  }

  ghost predicate PoolImplements<S(!new)>(p: Program<S>, ms: seq<Machine<S>>, cs: seq<Cont<S>>) {
    |ms| == |cs| && forall i | 0 <= i < |ms| :: Implements(p, ms[i], cs[i])
  }

  lemma PoolStepImplements<S(!new)>(p: Program<S>, ms: seq<Machine<S>>, cs: seq<Cont<S>>, e: Event)
    requires p.WellFormed() && PoolImplements(p, ms, cs)
    ensures PoolImplements(p, PoolStep(p, ms, e), ContRun(p, cs, Visible(p, ms, e)))
  {
    var vs := Visible(p, ms, e);
    assert vs != [] ==> vs[1..] == [] && ContRun(p, cs, vs) == ContStep(p, cs, e);
    if e.who < |ms| {
      var m, c := ms[e.who], cs[e.who];
      if e.Micro? {
        StepImplements(p, m, c);
        assert Splits(p, c) && Executes(p, m) ==> Forks(p, m);
        if Forks(p, m) {
          ForkImplements(p, m, c);
        }
      } else if m.at == Outside {
        EnterImplements(p, m, c, e.input);
      }
    }
  }

  lemma {:induction false} ContRunConcat<S>(p: Program<S>, cs: seq<Cont<S>>, es: seq<Event>, fs: seq<Event>)
    ensures ContRun(p, cs, es + fs) == ContRun(p, ContRun(p, cs, es), fs)
    decreases |es|
  {
    if es == [] {
      assert es + fs == fs;
    } else {
      assert (es + fs)[1..] == es[1..] + fs;
      ContRunConcat(p, ContStep(p, cs, es[0]), es[1..], fs);
    }
  }

  /** Main result: under every schedule of any number of forked copies, each object
      implements its continuation: same statements in the same order, same state, same
      place to go on. */
  lemma {:induction false} RunImplements<S(!new)>(p: Program<S>, ms: seq<Machine<S>>, cs: seq<Cont<S>>, es: seq<Event>)
    requires p.WellFormed() && PoolImplements(p, ms, cs)
    ensures PoolImplements(p, PoolRun(p, ms, es), ContRun(p, cs, VisibleRun(p, ms, es)))
    decreases |es|
  {
    if es != [] {
      var vs := Visible(p, ms, es[0]);
      PoolStepImplements(p, ms, cs, es[0]);
      RunImplements(p, PoolStep(p, ms, es[0]), ContRun(p, cs, vs), es[1..]);
      ContRunConcat(p, cs, vs, VisibleRun(p, PoolStep(p, ms, es[0]), es[1..]));
    }
  }

  lemma ReentryImplementsContinuation<S(!new)>(p: Program<S>, s: S, es: seq<Event>)
    requires p.WellFormed()
    ensures PoolImplements(p, PoolRun(p, [NewMachine(s)], es),
                           ContRun(p, [NewCont(s)], VisibleRun(p, [NewMachine(s)], es)))
  {
    RunImplements(p, [NewMachine(s)], [NewCont(s)], es);
  }

  /** A fork gives the parent and the copy the same state and the same next instruction;
      the copy is a child, the parent is not, whatever it was before. */
  lemma ForkSplits<S(!new)>(p: Program<S>, m: Machine<S>, c: Cont<S>, input: nat)
    requires p.WellFormed() && Implements(p, m, c) && Forks(p, m)
    ensures var next := At(m.at.pc + 1, Start);
            var line := p.code[m.at.pc].line;
            var parent, copy := Steps(p, m, 4), Steps(p, Enter(p, Copy(p, m), input), 1);
            && parent.at == copy.at == next
            && parent.value == line && Copy(p, m).value == copy.value == -line
            && !IsChild(parent) && IsChild(copy) && !IsComplete(copy)
            && copy.state == p.env(input, parent.state) && copy.trace == parent.trace
  {
    CaseOfLine(p, m.at.pc);
    var m1 := Step(p, m);
    var m2 := Step(p, m1);
    var m3 := Step(p, m2);
    assert Steps(p, m, 4) == Steps(p, m1, 3) == Steps(p, m2, 2) == Steps(p, m3, 1) == Step(p, m3);
    var e := Enter(p, Copy(p, m), input);
    assert Steps(p, e, 1) == Step(p, e);
  }

  /** What a branch on is_child() does, by the sign of the int alone. */
  lemma BranchNext<S>(p: Program<S>, m: Machine<S>, n: nat, pc: nat, target: nat)
    requires pc < |p.code| && p.code[pc] == IfChild(target) && Steps(p, m, n).at == At(pc, Start)
    ensures Steps(p, m, n + 1) == Steps(p, m, n).(at := At(if Steps(p, m, n).value < 0 then target else pc + 1, Start))
  {
    StepsSnoc(p, m, n);
  }

  /** A branch on is_child() right after a fork is taken by the copy and not by the parent. */
  lemma ForkBranches<S(!new)>(p: Program<S>, m: Machine<S>, c: Cont<S>, target: nat, input: nat)
    returns (i: nat, j: nat)
    requires p.WellFormed() && Implements(p, m, c) && Forks(p, m)
    requires m.at.pc + 1 < |p.code| && p.code[m.at.pc + 1] == IfChild(target)
    ensures i == 5 && j == 2
    ensures var parent, copy := Steps(p, m, i), Steps(p, Enter(p, Copy(p, m), input), j);
            && parent.at == At(m.at.pc + 2, Start) && copy.at == At(target, Start)
            && copy.state == p.env(input, parent.state) && copy.trace == parent.trace
  {
    var e := Enter(p, Copy(p, m), input);
    ForkSplits(p, m, c, input);
    i, j := 4, 1;
    BranchNext(p, m, i, m.at.pc + 1, target);
    BranchNext(p, e, j, m.at.pc + 1, target);
    i, j := i + 1, j + 1;
  }

  /** A yield gets to its statement in three steps, holding its line ... */
  lemma YieldBegins<S>(p: Program<S>, m: Machine<S>)
    requires p.WellFormed() && m.at.At? && m.at.phase == Start && m.at.pc < |p.code| && p.code[m.at.pc].IsYield()
    ensures Step(p, Step(p, Step(p, m))) ==
              Machine(p.code[m.at.pc].line, true, At(m.at.pc, Body), m.state, m.trace)
  {
    assert Step(p, m) == Machine(p.code[m.at.pc].line, true, At(m.at.pc, Head), m.state, m.trace);
  }

  /** ... executes it, and in at most three more is out of the reentry. */
  lemma YieldLeaves<S>(p: Program<S>, m: Machine<S>) returns (n: nat)
    requires m.at.At? && m.at.phase == Body && m.at.pc < |p.code| && m.modified && m.value != 0
    requires p.code[m.at.pc].Yield? || p.code[m.at.pc].YieldReturn?
    ensures n <= 4
    ensures var act := p.code[m.at.pc].act;
            Steps(p, m, n) == Machine(m.value, true, Outside, p.exec(act, m.state), m.trace + [act])
  {
    var m1 := Step(p, m);
    var m2 := Step(p, m1);
    n := 2;
    if p.code[m.at.pc].Yield? {
      assert m2.at == BailOut;
      var m3 := Step(p, m2);
      n := 4;
      assert Steps(p, m2, 2) == Steps(p, m3, 1) == Step(p, m3);
    }
    assert Steps(p, m, 2) == Steps(p, m1, 1) == m2;
  }

  /** A yield executes its statement and suspends its coroutine, which is no child then. */
  lemma YieldSuspends<S>(p: Program<S>, m: Machine<S>) returns (n: nat)
    requires p.WellFormed() && m.at.At? && m.at.phase == Start && m.at.pc < |p.code|
    requires p.code[m.at.pc].Yield? || p.code[m.at.pc].YieldReturn?
    ensures n <= 7
    ensures var i := p.code[m.at.pc];
            Steps(p, m, n) == Machine(i.line, true, Outside, p.exec(i.act, m.state), m.trace + [i.act])
  {
    YieldBegins(p, m);
    var m1 := Step(p, m);
    var m2 := Step(p, m1);
    n := YieldLeaves(p, Step(p, m2));
    n := n + 3;
    assert Steps(p, m, n) == Steps(p, m1, n - 1) == Steps(p, m2, n - 2) == Steps(p, Step(p, m2), n - 3);
  }

  lemma ReentryAfterYield<S>(p: Program<S>, y: Machine<S>, pc: nat, input: nat)
    requires p.WellFormed() && pc < |p.code| && p.code[pc].IsYield()
    requires y.at == Outside && y.value == p.code[pc].line
    ensures Step(p, Enter(p, y, input)) ==
              Machine(y.value, false, At(pc + 1, Start), p.env(input, y.state), y.trace)
  {
    CaseOfLine(p, pc);
  }

  lemma BranchAfterYield<S>(p: Program<S>, y: Machine<S>, pc: nat, target: nat, input: nat) returns (j: nat)
    requires p.WellFormed() && pc + 1 < |p.code| && p.code[pc].IsYield() && p.code[pc + 1] == IfChild(target)
    requires y.at == Outside && y.value == p.code[pc].line
    ensures j == 2
    ensures Steps(p, Enter(p, y, input), j) ==
              Machine(y.value, false, At(pc + 2, Start), p.env(input, y.state), y.trace)
  {
    ReentryAfterYield(p, y, pc, input);
    j := 1;
    BranchNext(p, Enter(p, y, input), j, pc + 1, target);
    j := j + 1;
  }

  /** When it is reentered, it does not take a branch on is_child() that follows the yield. */
  lemma YieldEndsChildhood<S>(p: Program<S>, m: Machine<S>, target: nat, input: nat)
    returns (n: nat, j: nat, y: Machine<S>, next: Machine<S>)
    requires p.WellFormed() && m.at.At? && m.at.phase == Start && m.at.pc + 1 < |p.code|
    requires p.code[m.at.pc].Yield? || p.code[m.at.pc].YieldReturn?
    requires p.code[m.at.pc + 1] == IfChild(target)
    ensures n <= 7 && y == Steps(p, m, n) && j == 2 && next == Steps(p, Enter(p, y, input), j)
    ensures var act := p.code[m.at.pc].act;
            y.at == Outside && !IsChild(y) && y.trace == m.trace + [act] && y.state == p.exec(act, m.state)
    ensures next.at == At(m.at.pc + 2, Start) && next.trace == y.trace && next.state == p.env(input, y.state)
  {
    n := YieldSuspends(p, m);
    y := Steps(p, m, n);
    j := BranchAfterYield(p, y, m.at.pc, target, input);
    next := Steps(p, Enter(p, y, input), j);
  }

  /** A fork adds one object to the pool: a child with the state and the statements of its
      parent, suspended, holding the negative line. All others stay as they were. */
  lemma ForkAddsChild<S(!new)>(p: Program<S>, ms: seq<Machine<S>>, i: nat, c: Cont<S>)
    requires p.WellFormed() && i < |ms| && Forks(p, ms[i]) && Implements(p, ms[i], c)
    ensures var ms', n, fork := PoolStep(p, ms, Micro(i)), |ms|, p.code[ms[i].at.pc];
            && |ms'| == n + 1 && (forall j | 0 <= j < n && j != i :: ms'[j] == ms[j])
            && ms'[i].trace == ms[i].trace + [fork.act] && ms'[i].state == p.exec(fork.act, ms[i].state)
            && ms'[n].at == Outside && ms'[n].value == -fork.line && IsChild(ms'[n]) && !IsComplete(ms'[n])
            && ms'[n].state == ms'[i].state && ms'[n].trace == ms'[i].trace
  {
  }

  // ---------------------------------------------------------------- running straight through

  /** The body as ordinary blocking code: a yield is its statement, followed by whatever
      the environment does to the object, `env(inputs(k), .)` before the k-th reentry. */
  datatype Straight<S> = Straight(pc: Option<nat>, state: S, trace: seq<nat>, used: nat)

  function StraightStep<S>(p: Program<S>, inputs: nat -> nat, c: Straight<S>): Straight<S> {
    if c.pc.None? then c
    else
      var pc := c.pc.value;
      if pc >= |p.code| then c.(pc := None)
      else match p.code[pc]
        case Do(act) => c.(pc := Some(pc + 1), state := p.exec(act, c.state), trace := c.trace + [act])
        case Branch(cond, target) => c.(pc := Some(if p.test(cond, c.state) then target else pc + 1))
        case IfChild(_) => c.(pc := Some(pc + 1))
        case YieldBreak(_) => c.(pc := None)
        case Leave => c.(pc := None)
        case Fork(_, _) => c.(pc := None)
        case _ =>
          var act := p.code[pc].act;
          Straight(Some(pc + 1), p.env(inputs(c.used), p.exec(act, c.state)), c.trace + [act], c.used + 1)
  }

  function StraightRun<S>(p: Program<S>, inputs: nat -> nat, s: S, n: nat): Straight<S> {
    if n == 0 then Straight(Some(0), p.env(inputs(0), s), [], 1)
    else StraightStep(p, inputs, StraightRun(p, inputs, s, n - 1))
  }

  /** A client that reenters whenever it likes; the k-th reentry sees the k-th input. */
  datatype Session<S> = Session(m: Machine<S>, entries: nat)

  function SessionStep<S>(p: Program<S>, inputs: nat -> nat, z: Session<S>, reenter: bool): Session<S> {
    if !reenter then z.(m := Step(p, z.m))
    else if z.m.at == Outside then Session(Enter(p, z.m, inputs(z.entries)), z.entries + 1)
    else z
  }

  function SessionRun<S>(p: Program<S>, inputs: nat -> nat, s: S, reenter: seq<bool>): Session<S> {
    if reenter == [] then Session(NewMachine(s), 0)
    else SessionStep(p, inputs, SessionRun(p, inputs, s, reenter[..|reenter| - 1]), reenter[|reenter| - 1])
  }

  /** Continuation `c`, resumed `entries` times so far, is where the straight run is. */
  ghost predicate Follows<S(!new)>(p: Program<S>, inputs: nat -> nat, c: Cont<S>, entries: nat, t: Straight<S>) {
    && !c.child
    && c.trace == t.trace
    && match c.pos
       case Running(pc) => t.pc == Some(pc) && t.state == c.state && t.used == entries
       case Waiting(pc) => t.pc == Some(pc) && t.state == p.env(inputs(entries), c.state) && t.used == entries + 1
       case Done => t.pc == None
  }

  lemma AdvanceFollows<S(!new)>(p: Program<S>, inputs: nat -> nat, c: Cont<S>, entries: nat, t: Straight<S>)
    requires p.ForkFree() && c.pos.Running? && Follows(p, inputs, c, entries, t)
    ensures Follows(p, inputs, Advance(p, c), entries, StraightStep(p, inputs, t))
  {
  }

  /** The session is where the straight run is, through some continuation. */
  ghost predicate Tracks<S(!new)>(p: Program<S>, inputs: nat -> nat, z: Session<S>, t: Straight<S>) {
    exists c :: Implements(p, z.m, c) && Follows(p, inputs, c, z.entries, t)
  }

  /** One move of a session: the straight run follows, or stays. */
  lemma MoveFollows<S(!new)>(p: Program<S>, inputs: nat -> nat, z: Session<S>, reenter: bool, t: Straight<S>)
    returns (stepped: bool)
    requires p.WellFormed() && p.ForkFree() && Tracks(p, inputs, z, t)
    ensures Tracks(p, inputs, SessionStep(p, inputs, z, reenter), if stepped then StraightStep(p, inputs, t) else t)
  {
    var c :| Implements(p, z.m, c) && Follows(p, inputs, c, z.entries, t);
    stepped := false;
    if !reenter {
      StepImplements(p, z.m, c);
      if Executes(p, z.m) {
        AdvanceFollows(p, inputs, c, z.entries, t);
        stepped := true;
      }
    } else if z.m.at == Outside {
      EnterImplements(p, z.m, c, inputs(z.entries));
    }
  }

  lemma {:induction false} SessionFollows<S(!new)>(p: Program<S>, inputs: nat -> nat, s: S, reenter: seq<bool>)
    returns (n: nat)
    requires p.WellFormed() && p.ForkFree()
    ensures Tracks(p, inputs, SessionRun(p, inputs, s, reenter), StraightRun(p, inputs, s, n))
  {
    n := 0;
    if reenter == [] {
      assert Implements(p, NewMachine(s), NewCont(s));
    } else {
      var last := |reenter| - 1;
      n := SessionFollows(p, inputs, s, reenter[..last]);
      var z := SessionRun(p, inputs, s, reenter[..last]);
      var stepped := MoveFollows(p, inputs, z, reenter[last], StraightRun(p, inputs, s, n));
      n := if stepped then n + 1 else n;
    }
  }

  lemma {:induction false} StraightRunGrows<S>(p: Program<S>, inputs: nat -> nat, s: S, n: nat, k: nat)
    ensures StraightRun(p, inputs, s, n).trace <= StraightRun(p, inputs, s, n + k).trace
    ensures StraightRun(p, inputs, s, n).pc.None? ==>
              StraightRun(p, inputs, s, n + k) == StraightRun(p, inputs, s, n)
    decreases k
  {
    if k > 0 {
      StraightRunGrows(p, inputs, s, n, k - 1);
    }
  }

  /** Main result for fork-free bodies: whatever way the client interleaves reentries,
      the statements executed are a prefix of those of the straight run, and all of them
      once the coroutine is finished. Nothing is skipped, repeated or reordered. */
  lemma ReentriesRunStraightThrough<S(!new)>(p: Program<S>, inputs: nat -> nat, s: S, reenter: seq<bool>)
    returns (n: nat)
    requires p.WellFormed() && p.ForkFree()
    ensures var m := SessionRun(p, inputs, s, reenter).m;
            && m.trace == StraightRun(p, inputs, s, n).trace
            && (forall k | k >= n :: m.trace <= StraightRun(p, inputs, s, k).trace)
            && (m.at == Outside && IsComplete(m) ==>
                  forall k | k >= n ::
                    StraightRun(p, inputs, s, k).pc.None? && m.trace == StraightRun(p, inputs, s, k).trace)
  {
    n := SessionFollows(p, inputs, s, reenter);
    forall k | k >= n
      ensures StraightRun(p, inputs, s, n).trace <= StraightRun(p, inputs, s, k).trace
      ensures StraightRun(p, inputs, s, n).pc.None? ==> StraightRun(p, inputs, s, k) == StraightRun(p, inputs, s, n)
    {
      StraightRunGrows(p, inputs, s, n, k - n);
    }
  }

  /** k more moves without a reentry. */
  lemma {:induction false} SessionSteps<S>(p: Program<S>, inputs: nat -> nat, s: S, reenter: seq<bool>, k: nat)
    returns (longer: seq<bool>)
    ensures var z := SessionRun(p, inputs, s, reenter);
            SessionRun(p, inputs, s, longer) == z.(m := Steps(p, z.m, k))
    decreases k
  {
    if k == 0 {
      longer := reenter;
    } else {
      var next := reenter + [false];
      assert next[..|next| - 1] == reenter;
      longer := SessionSteps(p, inputs, s, next, k - 1);
    }
  }

  /** From any point where the straight run has more to do, some moves of the client take
      it one instruction further. */
  lemma ReachNext<S(!new)>(p: Program<S>, inputs: nat -> nat, s: S, reenter: seq<bool>, c: Cont<S>, t: Straight<S>)
    returns (longer: seq<bool>, c': Cont<S>)
    requires p.WellFormed() && p.ForkFree() && c.pos.Running?
    requires var z := SessionRun(p, inputs, s, reenter);
             Implements(p, z.m, c) && Follows(p, inputs, c, z.entries, t)
    ensures var z := SessionRun(p, inputs, s, longer);
            Implements(p, z.m, c') && Follows(p, inputs, c', z.entries, StraightStep(p, inputs, t))
  {
    var z := SessionRun(p, inputs, s, reenter);
    var k := MacrosMakeProgress(p, z.m, c);
    var ready := SessionSteps(p, inputs, s, reenter, k);
    longer := ready + [false];
    assert longer[..|longer| - 1] == ready;
    StepImplements(p, Steps(p, z.m, k), c);
    AdvanceFollows(p, inputs, c, z.entries, t);
    c' := Advance(p, c);
  }

  /** A suspended coroutine can be brought back into its body. */
  lemma ReachRunning<S(!new)>(p: Program<S>, inputs: nat -> nat, s: S, reenter: seq<bool>, c: Cont<S>, t: Straight<S>)
    returns (longer: seq<bool>, c': Cont<S>)
    requires p.WellFormed() && p.ForkFree() && c.pos.Waiting?
    requires var z := SessionRun(p, inputs, s, reenter);
             Implements(p, z.m, c) && Follows(p, inputs, c, z.entries, t)
    ensures var z := SessionRun(p, inputs, s, longer);
            c'.pos.Running? && Implements(p, z.m, c') && Follows(p, inputs, c', z.entries, t)
  {
    var z := SessionRun(p, inputs, s, reenter);
    var k := MacrosMakeProgress(p, z.m, c);
    var ready := SessionSteps(p, inputs, s, reenter, k);
    longer := ready + [true];
    assert longer[..|longer| - 1] == ready;
    EnterImplements(p, Steps(p, z.m, k), c, inputs(z.entries));
    c' := Resume(p, c, inputs(z.entries));
  }

  /** Conversely, every point of the straight run is reached by some sequence of reentries:
      no statement of the body is out of reach. */
  lemma {:induction false} StraightIsReached<S(!new)>(p: Program<S>, inputs: nat -> nat, s: S, n: nat)
    returns (reenter: seq<bool>, c: Cont<S>)
    requires p.WellFormed() && p.ForkFree()
    ensures var z := SessionRun(p, inputs, s, reenter);
            && z.m.trace == StraightRun(p, inputs, s, n).trace
            && Implements(p, z.m, c) && Follows(p, inputs, c, z.entries, StraightRun(p, inputs, s, n))
  {
    if n == 0 {
      reenter, c := [], NewCont(s);
    } else {
      reenter, c := StraightIsReached(p, inputs, s, n - 1);
      var t := StraightRun(p, inputs, s, n - 1);
      if c.pos.Waiting? {
        reenter, c := ReachRunning(p, inputs, s, reenter, c, t);
      }
      if c.pos.Running? {
        reenter, c := ReachNext(p, inputs, s, reenter, c, t);
      }
    }
  }

  // ---------------------------------------------------------------- the objects

  class CoroutineObject {
    var value: int

    constructor ()
      ensures value == 0
    {
      value := 0;
    }
  }

  /** detail::coroutine_ref, alive for the duration of one reentry. */
  class CoroutineRef {
    const target: CoroutineObject
    var modified: bool

    constructor (c: CoroutineObject)
      ensures target == c && !modified
    {
      target, modified := c, false;
    }

    method Set(v: int)
      modifies this, target
      ensures target.value == v && modified
    {
      modified := true;
      target.value := v;
    }

    method Destroy()
      modifies target
      ensures target.value == if modified then old(target.value) else -1
    {
      if !modified {
        target.value := -1;
      }
    }
  }

  /** One reentry, executed on the objects for at most `fuel` steps of the expansion. It
      does what `Step` says, hence what the continuation `c` says. */
  method RunReentry<S(!new)>(p: Program<S>, o: CoroutineObject, s: S, input: nat, fuel: nat, ghost c: Cont<S>)
    returns (state: S, trace: seq<nat>, at: Point, ghost n: nat)
    requires p.WellFormed()
    requires Implements(p, Machine(o.value, false, Outside, s, []), c)
    modifies o
    ensures exists modified ::
              && Machine(o.value, modified, at, state, trace) ==
                   Steps(p, Enter(p, Machine(old(o.value), false, Outside, s, []), input), fuel)
              && Implements(p, Machine(o.value, modified, at, state, trace), Advances(p, Resume(p, c, input), n))
  {
    var r := new CoroutineRef(o);
    at, state, trace := Dispatch(p, o.value), p.env(input, s), [];
    ghost var start := Enter(p, Machine(o.value, false, Outside, s, []), input);
    EnterImplements(p, Machine(o.value, false, Outside, s, []), c, input);
    n := 0;
    var left: nat := fuel;
    while left > 0 && at != Outside
      invariant r.target == o
      invariant Steps(p, start, fuel) == Steps(p, Machine(o.value, r.modified, at, state, trace), left)
      invariant Implements(p, Machine(o.value, r.modified, at, state, trace), Advances(p, Resume(p, c, input), n))
      modifies o, r
    {
      ghost var m := Machine(o.value, r.modified, at, state, trace);
      StepImplements(p, m, Advances(p, Resume(p, c, input), n));
      n := if Executes(p, m) then n + 1 else n;
      state, trace, at := StepObjects(p, r, state, trace, at);
      left := left - 1;
    }
    if at == Outside {
      StepsOutside(p, Machine(o.value, r.modified, at, state, trace), left);
    }
  }

  function Advances<S>(p: Program<S>, c: Cont<S>, n: nat): Cont<S> {
    if n == 0 then c else Advance(p, Advances(p, c, n - 1))
  }

  lemma {:induction false} StepsOutside<S>(p: Program<S>, m: Machine<S>, n: nat)
    requires m.at == Outside
    ensures Steps(p, m, n) == m
    decreases n
  {
    if n > 0 {
      StepsOutside(p, m, n - 1);
    }
  }

  /** One step of the expansion on the objects. */
  method StepObjects<S>(p: Program<S>, r: CoroutineRef, s: S, t: seq<nat>, from: Point)
    returns (state: S, trace: seq<nat>, at: Point)
    modifies r, r.target
    ensures Machine(r.target.value, r.modified, at, state, trace) ==
              Step(p, Machine(old(r.target.value), old(r.modified), from, s, t))
  {
    state, trace, at := s, t, from;
    match from {
      case Outside =>
      case EndSwitch =>
        r.Destroy();
        at := Outside;
      case Terminate =>
        r.Set(-1);
        at := BailOut;
      case BailOut =>
        at := EndSwitch;
      case At(pc, phase) =>
        if pc >= |p.code| {
          at := EndSwitch;
          return;
        }
        var i := p.code[pc];
        if i.Do? || (phase == Body && (i.Yield? || i.YieldReturn? || i.Fork?)) {
          state, trace := p.exec(i.act, s), t + [i.act];
        }
        if phase == Start && (i.IsYield() || i.Fork?) {
          r.Set(if i.Fork? then -i.line else i.line);
        }
        if phase == Incr && i.Fork? {
          r.Set(i.line);
        }
        at := Target(p, i, pc, phase, r.target.value, s);
    }
  }
}
