/**
  The one-time policy snapshot as a protocol: any number of threads call `get_rewrite_policy`
  and read the record, initialisation is split into its separate writes, and the environment
  may change between any two steps.
 */
module Snapshot {
  import opened CStrings
  import opened Policies

  /** The global record, field by field. */
  datatype Memory = Memory(enabled: bool, from: string, to: string, fromLen: nat, toLen: nat)

  const ZEROED := Memory(false, "", "", 0, 0)

  datatype Env = Env(from: Option<string>, to: Option<string>)

  /** The next statement of the initialiser, with the values `getenv` returned so far. */
  datatype Statement =
    | ClearEnabled | ClearFrom | ClearTo | ClearFromLen | ClearToLen
    | GetFrom
    | GetTo(fromEnv: Option<string>)
    | Check(fromEnv: Option<string>, toEnv: Option<string>)
    | CopyFrom(policy: Policy) | CopyTo(policy: Policy)
    | SetFromLen(policy: Policy) | SetToLen(policy: Policy) | SetEnabled(policy: Policy)

  /** The `pthread_once` control: nobody came, one thread runs the initialiser, or it has returned. */
  datatype Once = Fresh | Running(thread: nat, next: Statement) | Complete

  /** One field read by a thread that `get_rewrite_policy` has returned to. */
  datatype Read =
    | SawEnabled(enabled: bool) | SawFrom(from: string) | SawTo(to: string)
    | SawFromLen(fromLen: nat) | SawToLen(toLen: nat)

  /** past is every environment so far, the last one current; inside are the threads the call has returned to. */
  datatype State = State(past: seq<Env>, memory: Memory, once: Once, inside: set<nat>, seen: seq<Read>)

  datatype Action =
    | ChangeEnv(env: Env)
    | Enter(thread: nat)
    | Initialise(thread: nat)
    | TearFrom(thread: nat, from: string)
    | TearTo(thread: nat, to: string)
    | Observe(thread: nat, read: Read)
    | Leave(thread: nat)

  ghost predicate Init(s: State) {
    |s.past| == 1 && s.memory == ZEROED && s.once == Fresh && s.inside == {} && s.seen == []
  }

  /** One statement of `init_rewrite_policy`. */
  function Execute(s: State, thread: nat, next: Statement): State
    requires s.past != []
  {
    var env := s.past[|s.past| - 1];
    var m := s.memory;
    match next
    case ClearEnabled => s.(memory := m.(enabled := false), once := Running(thread, ClearFrom))
    case ClearFrom => s.(memory := m.(from := ""), once := Running(thread, ClearTo))
    case ClearTo => s.(memory := m.(to := ""), once := Running(thread, ClearFromLen))
    case ClearFromLen => s.(memory := m.(fromLen := 0), once := Running(thread, ClearToLen))
    case ClearToLen => s.(memory := m.(toLen := 0), once := Running(thread, GetFrom))
    case GetFrom => s.(once := Running(thread, GetTo(env.from)))
    case GetTo(fromEnv) => s.(once := Running(thread, Check(fromEnv, env.to)))
    case Check(fromEnv, toEnv) =>
      var policy := PolicyFrom(fromEnv, toEnv);
      if policy.Off? then Returned(s, thread) else s.(once := Running(thread, CopyFrom(policy)))
    case CopyFrom(policy) =>
      if policy.On? then s.(memory := m.(from := policy.from), once := Running(thread, CopyTo(policy))) else s
    case CopyTo(policy) =>
      if policy.On? then s.(memory := m.(to := policy.to), once := Running(thread, SetFromLen(policy))) else s
    case SetFromLen(policy) => s.(memory := m.(fromLen := |m.from|), once := Running(thread, SetToLen(policy)))
    case SetToLen(policy) => s.(memory := m.(toLen := |m.to|), once := Running(thread, SetEnabled(policy)))
    case SetEnabled(policy) => Returned(s.(memory := m.(enabled := true)), thread)
  }

  function Returned(s: State, thread: nat): State {
    s.(once := Complete, inside := s.inside + {thread})
  }

  predicate IsReadOf(read: Read, m: Memory) {
    match read
    case SawEnabled(enabled) => enabled == m.enabled
    case SawFrom(from) => from == m.from
    case SawTo(to) => to == m.to
    case SawFromLen(fromLen) => fromLen == m.fromLen
    case SawToLen(toLen) => toLen == m.toLen
  }

  /**
    One step of one thread, or of the environment.  The `pthread_once` contract: the first thread
    to enter runs the initialiser, and no other call returns before it has.  A copy in progress may
    leave anything in the field it is writing.
   */
  ghost predicate Next(s: State, s': State, action: Action) {
    && s.past != []
    && match action
       case ChangeEnv(env) => s' == s.(past := s.past + [env])
       case Enter(thread) =>
         && thread !in s.inside
         && (if s.once.Fresh? then s' == s.(once := Running(thread, ClearEnabled))
             else s.once.Complete? && s' == s.(inside := s.inside + {thread}))
       case Initialise(thread) =>
         s.once.Running? && s.once.thread == thread && s' == Execute(s, thread, s.once.next)
       case TearFrom(thread, from) =>
         && s.once.Running? && s.once.thread == thread && s.once.next.CopyFrom?
         && s' == s.(memory := s.memory.(from := from))
       case TearTo(thread, to) =>
         && s.once.Running? && s.once.thread == thread && s.once.next.CopyTo?
         && s' == s.(memory := s.memory.(to := to))
       case Observe(thread, read) =>
         thread in s.inside && IsReadOf(read, s.memory) && s' == s.(seen := s.seen + [read])
       case Leave(thread) =>
         thread in s.inside && s' == s.(inside := s.inside - {thread})
  }

  /** The environment a state's `getenv` reads. */
  function Current(s: State): Env
    requires s.past != []
  {
    s.past[|s.past| - 1]
  }

  /** The policy a caller finds in the record: the flag, and the two prefixes up to their stored lengths. */
  function RecordPolicy(m: Memory): Option<Policy> {
    if !m.enabled then Some(Off)
    else if m.fromLen <= |m.from| && m.toLen <= |m.to| then Some(On(m.from[..m.fromLen], m.to[..m.toLen]))
    else None
  }

  /** The record a finished initialiser leaves. */
  function MemoryOf(policy: Policy): Memory {
    if policy.On? then Memory(true, policy.from, policy.to, |policy.from|, |policy.to|) else ZEROED
  }

  /** Read as callers read it, a finished record is the policy it was made from. */
  lemma RecordsRead(policy: Policy)
    ensures RecordPolicy(MemoryOf(policy)) == Some(policy)
    ensures MemoryOf(policy).enabled <==> policy.On?
    ensures MemoryOf(policy).enabled ==>
              MemoryOf(policy).fromLen == |MemoryOf(policy).from| && MemoryOf(policy).toLen == |MemoryOf(policy).to|
  {
    if policy.On? {
      assert policy.from[..|policy.from|] == policy.from && policy.to[..|policy.to|] == policy.to;
    }
  }

  ghost predicate WasFrom(past: seq<Env>, value: Option<string>) {
    exists i | 0 <= i < |past| :: past[i].from == value
  }

  ghost predicate WasTo(past: seq<Env>, value: Option<string>) {
    exists i | 0 <= i < |past| :: past[i].to == value
  }

  /** The policy is what initialisation makes of two values the variables have had. */
  ghost predicate FromPast(past: seq<Env>, policy: Policy) {
    exists fromEnv, toEnv :: WasFrom(past, fromEnv) && WasTo(past, toEnv) && policy == PolicyFrom(fromEnv, toEnv)
  }

  /** What holds of memory before each statement of the initialiser. */
  ghost predicate Before(past: seq<Env>, m: Memory, next: Statement) {
    match next
    case GetTo(fromEnv) => m == ZEROED && WasFrom(past, fromEnv)
    case Check(fromEnv, toEnv) => m == ZEROED && WasFrom(past, fromEnv) && WasTo(past, toEnv)
    case CopyFrom(policy) => FromPast(past, policy) && policy.On? && m == ZEROED.(from := m.from)
    case CopyTo(policy) => FromPast(past, policy) && policy.On? && m == ZEROED.(from := policy.from, to := m.to)
    case SetFromLen(policy) =>
      FromPast(past, policy) && policy.On? && m == ZEROED.(from := policy.from, to := policy.to)
    case SetToLen(policy) =>
      && FromPast(past, policy) && policy.On?
      && m == ZEROED.(from := policy.from, to := policy.to, fromLen := |policy.from|)
    case SetEnabled(policy) => FromPast(past, policy) && policy.On? && m == MemoryOf(policy).(enabled := false)
    case _ => m == ZEROED
  }

  ghost predicate Finished(past: seq<Env>, m: Memory) {
    exists policy :: FromPast(past, policy) && m == MemoryOf(policy)
  }

  /** The record, as callers read it, is a policy of values the variables had. */
  ghost predicate Holds(past: seq<Env>, m: Memory) {
    RecordPolicy(m).Some? && FromPast(past, RecordPolicy(m).value)
  }

  lemma FinishedHolds(past: seq<Env>, m: Memory)
    requires Finished(past, m)
    ensures Holds(past, m)
    ensures m.enabled ==> m.fromLen == |m.from| && m.toLen == |m.to|
  {
    var policy :| FromPast(past, policy) && m == MemoryOf(policy);
    RecordsRead(policy);
  }

  ghost predicate Invariant(s: State) {
    && s.past != []
    && (!s.once.Complete? ==> s.inside == {} && s.seen == [])
    && (s.once.Fresh? ==> s.memory == ZEROED)
    && (s.once.Running? ==> Before(s.past, s.memory, s.once.next))
    && (s.once.Complete? ==> Finished(s.past, s.memory))
    && (forall i | 0 <= i < |s.seen| :: IsReadOf(s.seen[i], s.memory))
  }

  lemma PastGrows(past: seq<Env>, env: Env)
    ensures forall v :: WasFrom(past, v) ==> WasFrom(past + [env], v)
    ensures forall v :: WasTo(past, v) ==> WasTo(past + [env], v)
    ensures forall policy :: FromPast(past, policy) ==> FromPast(past + [env], policy)
  {
    var more := past + [env];
    forall v | WasFrom(past, v) ensures WasFrom(more, v) {
      var i :| 0 <= i < |past| && past[i].from == v;
      assert more[i].from == v;
    }
    forall v | WasTo(past, v) ensures WasTo(more, v) {
      var i :| 0 <= i < |past| && past[i].to == v;
      assert more[i].to == v;
    }
  }

  lemma RunKeepsInvariant(s: State, thread: nat)
    requires Invariant(s) && s.once.Running? && s.once.thread == thread
    ensures Invariant(Execute(s, thread, s.once.next))
  {
    var last := |s.past| - 1;
    assert WasFrom(s.past, s.past[last].from) && WasTo(s.past, s.past[last].to);
    if s.once.next.Check? {
      var policy := PolicyFrom(s.once.next.fromEnv, s.once.next.toEnv);
      assert FromPast(s.past, policy);
      assert policy.Off? ==> MemoryOf(policy) == ZEROED;
    }
    if s.once.next.SetEnabled? {
      assert Execute(s, thread, s.once.next).memory == MemoryOf(s.once.next.policy);
    }
  }

  lemma ChangeEnvKeepsInvariant(s: State, env: Env)
    requires Invariant(s)
    ensures Invariant(s.(past := s.past + [env]))
  {
    hide WasFrom, WasTo, FromPast, MemoryOf;
    PastGrows(s.past, env);
    if s.once.Complete? {
      var policy :| FromPast(s.past, policy) && s.memory == MemoryOf(policy);
      assert FromPast(s.past + [env], policy);
    }
  }

  lemma TearKeepsInvariant(s: State, from: string, to: string)
    requires Invariant(s) && s.once.Running?
    ensures s.once.next.CopyFrom? ==> Invariant(s.(memory := s.memory.(from := from)))
    ensures s.once.next.CopyTo? ==> Invariant(s.(memory := s.memory.(to := to)))
  {
  }

  /** Every step keeps the invariant, and a finished record is never written again. */
  lemma StepKeeps(s: State, s': State, action: Action)
    requires Invariant(s) && Next(s, s', action)
    ensures Invariant(s')
    ensures s.once.Complete? ==> s'.once.Complete? && s'.memory == s.memory
    ensures s.seen <= s'.seen && s.past <= s'.past
    ensures forall t :: t in s.inside && !(action.Leave? && action.thread == t) ==> t in s'.inside
  {
    hide Finished, WasFrom, WasTo, FromPast, MemoryOf, Execute;
    match action
    case ChangeEnv(env) => ChangeEnvKeepsInvariant(s, env);
    case Initialise(thread) =>
      RunKeepsInvariant(s, thread);
      RunKeepsLog(s, thread);
    case TearFrom(thread, from) => TearKeepsInvariant(s, from, "");
    case TearTo(thread, to) => TearKeepsInvariant(s, "", to);
    case _ =>
  }

  lemma RunKeepsLog(s: State, thread: nat)
    requires s.past != [] && s.once.Running?
    ensures Execute(s, thread, s.once.next).seen == s.seen && Execute(s, thread, s.once.next).past == s.past
  {
  }

  ghost predicate IsRun(states: seq<State>, actions: seq<Action>) {
    && |states| == |actions| + 1
    && Init(states[0])
    && forall i | 0 <= i < |actions| :: Next(states[i], states[i + 1], actions[i])
  }

  lemma {:induction false} RunKeeps(states: seq<State>, actions: seq<Action>, i: nat)
    requires IsRun(states, actions) && i < |states|
    ensures Invariant(states[i])
  {
    if i > 0 {
      RunKeeps(states, actions, i - 1);
      StepKeeps(states[i - 1], states[i], actions[i - 1]);
    }
  }

  lemma {:induction false} CompleteStays(states: seq<State>, actions: seq<Action>, i: nat, j: nat)
    requires IsRun(states, actions) && i <= j < |states| && states[i].once.Complete?
    ensures states[j].once.Complete? && states[j].memory == states[i].memory
    ensures states[i].seen <= states[j].seen
    decreases j
  {
    hide Invariant, Next, Init;
    if i < j {
      CompleteStays(states, actions, i, j - 1);
      RunKeeps(states, actions, j - 1);
      StepKeeps(states[j - 1], states[j], actions[j - 1]);
    }
  }

  // ---------------------------------------------------------------- which environments were read

  /** The first thread to call the initialiser enters in state e. */
  ghost predicate FirstEnter(states: seq<State>, actions: seq<Action>, e: nat) {
    e < |actions| && |states| == |actions| + 1 && states[e].once.Fresh? && actions[e].Enter?
  }

  /** The value FROM had in some state after e and up to i. */
  ghost predicate ReadFrom(states: seq<State>, e: nat, i: nat, fromEnv: Option<string>)
    requires i < |states|
  {
    exists j :: e < j <= i && states[j].past != [] && Current(states[j]).from == fromEnv
  }

  /** The values FROM, and then TO, had in such states. */
  ghost predicate ReadBoth(states: seq<State>, e: nat, i: nat, fromEnv: Option<string>, toEnv: Option<string>)
    requires i < |states|
  {
    exists j, k :: e < j <= k <= i && states[j].past != [] && states[k].past != []
                   && Current(states[j]).from == fromEnv && Current(states[k]).to == toEnv
  }

  ghost predicate Sampled(states: seq<State>, e: nat, i: nat, policy: Policy)
    requires i < |states|
  {
    exists fromEnv, toEnv :: ReadBoth(states, e, i, fromEnv, toEnv) && policy == PolicyFrom(fromEnv, toEnv)
  }

  /** Where the values in the initialiser's hands, and the finished record, come from. */
  ghost predicate Traced(states: seq<State>, e: nat, i: nat)
    requires i < |states|
  {
    match states[i].once
    case Fresh => true
    case Complete => exists policy :: Sampled(states, e, i, policy) && states[i].memory == MemoryOf(policy)
    case Running(_, next) =>
      match next
      case GetTo(fromEnv) => ReadFrom(states, e, i, fromEnv)
      case Check(fromEnv, toEnv) => ReadBoth(states, e, i, fromEnv, toEnv)
      case CopyFrom(policy) => Sampled(states, e, i, policy)
      case CopyTo(policy) => Sampled(states, e, i, policy)
      case SetFromLen(policy) => Sampled(states, e, i, policy)
      case SetToLen(policy) => Sampled(states, e, i, policy)
      case SetEnabled(policy) => Sampled(states, e, i, policy)
      case _ => true
  }

  lemma SamplesStay(states: seq<State>, e: nat, i: nat)
    requires i + 1 < |states|
    ensures forall v :: ReadFrom(states, e, i, v) ==> ReadFrom(states, e, i + 1, v)
    ensures forall v, w :: ReadBoth(states, e, i, v, w) ==> ReadBoth(states, e, i + 1, v, w)
    ensures forall policy :: Sampled(states, e, i, policy) ==> Sampled(states, e, i + 1, policy)
  {
  }

  /** A statement of the initialiser reads only the environment of the state it runs in. */
  lemma ExecuteTraced(states: seq<State>, e: nat, i: nat, thread: nat)
    requires i + 1 < |states| && e < i && Invariant(states[i]) && Traced(states, e, i)
    requires states[i].once.Running? && states[i].once.thread == thread
    requires states[i + 1] == Execute(states[i], thread, states[i].once.next)
    ensures Traced(states, e, i + 1)
  {
    var next := states[i].once.next;
    assert states[i].past != [];
    hide Traced, Execute, Invariant;
    if next.GetFrom? {
      FromTraced(states, e, i, thread);
    } else if next.GetTo? {
      ToTraced(states, e, i, thread);
    } else if next.Check? {
      CheckTraced(states, e, i, thread);
    } else if next.SetEnabled? {
      EnabledTraced(states, e, i, thread);
    } else {
      CopiesTraced(states, e, i, thread);
    }
  }

  lemma EnabledTraced(states: seq<State>, e: nat, i: nat, thread: nat)
    requires i + 1 < |states| && Invariant(states[i]) && Traced(states, e, i)
    requires states[i].once.Running? && states[i].once.thread == thread && states[i].once.next.SetEnabled?
    requires states[i + 1] == Execute(states[i], thread, states[i].once.next)
    ensures Traced(states, e, i + 1)
  {
    var policy := states[i].once.next.policy;
    SampleStays(states, e, i, policy);
    hide Sampled, FromPast;
    EnabledMemory(states[i], thread);
    hide Invariant, MemoryOf;
    assert states[i + 1].once == Complete;
  }

  lemma EnabledMemory(s: State, thread: nat)
    requires Invariant(s) && s.once.Running? && s.once.thread == thread && s.once.next.SetEnabled?
    ensures Execute(s, thread, s.once.next).memory == MemoryOf(s.once.next.policy)
    ensures Execute(s, thread, s.once.next).once == Complete
  {
    hide FromPast;
  }

  lemma SampleStays(states: seq<State>, e: nat, i: nat, policy: Policy)
    requires i + 1 < |states| && Sampled(states, e, i, policy)
    ensures Sampled(states, e, i + 1, policy)
  {
    SamplesStay(states, e, i);
  }

  /** The statements that only write the record pass on what they hold. */
  lemma CopiesTraced(states: seq<State>, e: nat, i: nat, thread: nat)
    requires i + 1 < |states| && states[i].past != [] && Traced(states, e, i)
    requires states[i].once.Running? && states[i].once.thread == thread
    requires var next := states[i].once.next; !next.GetFrom? && !next.GetTo? && !next.Check? && !next.SetEnabled?
    requires states[i + 1] == Execute(states[i], thread, states[i].once.next)
    ensures Traced(states, e, i + 1)
  {
    var next := states[i].once.next;
    hide Sampled, ReadFrom, ReadBoth, MemoryOf;
    if next.CopyFrom? || next.CopyTo? || next.SetFromLen? || next.SetToLen? {
      SampleStays(states, e, i, next.policy);
    }
  }

  lemma FromTraced(states: seq<State>, e: nat, i: nat, thread: nat)
    requires i + 1 < |states| && e < i && states[i].past != []
    requires states[i].once == Running(thread, GetFrom)
    requires states[i + 1] == Execute(states[i], thread, GetFrom)
    ensures Traced(states, e, i + 1)
  {
    SamplesStay(states, e, i);
    assert ReadFrom(states, e, i, Current(states[i]).from);
    hide ReadFrom;
  }

  lemma ToTraced(states: seq<State>, e: nat, i: nat, thread: nat)
    requires i + 1 < |states| && e < i && states[i].past != []
    requires states[i].once.Running? && states[i].once.thread == thread && states[i].once.next.GetTo?
    requires Traced(states, e, i) && states[i + 1] == Execute(states[i], thread, states[i].once.next)
    ensures Traced(states, e, i + 1)
  {
    SamplesStay(states, e, i);
    var fromEnv := states[i].once.next.fromEnv;
    var j :| e < j <= i && states[j].past != [] && Current(states[j]).from == fromEnv;
    assert ReadBoth(states, e, i, fromEnv, Current(states[i]).to);
    hide ReadBoth, ReadFrom;
  }

  lemma CheckTraced(states: seq<State>, e: nat, i: nat, thread: nat)
    requires i + 1 < |states| && e < i && Invariant(states[i])
    requires states[i].once.Running? && states[i].once.thread == thread && states[i].once.next.Check?
    requires Traced(states, e, i) && states[i + 1] == Execute(states[i], thread, states[i].once.next)
    ensures Traced(states, e, i + 1)
  {
    SamplesStay(states, e, i);
    hide ReadBoth, PolicyFrom;
    var policy := PolicyFrom(states[i].once.next.fromEnv, states[i].once.next.toEnv);
    assert Sampled(states, e, i, policy);
    hide Sampled;
    assert states[i].memory == ZEROED;
    hide Invariant;
    assert policy.Off? ==> states[i + 1].memory == MemoryOf(policy);
  }

  lemma {:induction false} RunTraced(states: seq<State>, actions: seq<Action>, e: nat, i: nat)
    requires IsRun(states, actions) && FirstEnter(states, actions, e) && e < i < |states|
    ensures Traced(states, e, i) && !states[i].once.Fresh?
    decreases i
  {
    hide Invariant, Execute, Traced, Init;
    if i == e + 1 {
      EnterTraced(states, actions, e);
    } else {
      RunTraced(states, actions, e, i - 1);
      RunKeeps(states, actions, i - 1);
      var s := states[i - 1];
      assert Next(s, states[i], actions[i - 1]);
      match actions[i - 1]
      case Initialise(thread) =>
        ExecuteTraced(states, e, i - 1, thread);
        NotFresh(s, thread);
      case _ => IdleTraced(states, actions, e, i - 1);
    }
  }

  lemma EnterTraced(states: seq<State>, actions: seq<Action>, e: nat)
    requires FirstEnter(states, actions, e) && Next(states[e], states[e + 1], actions[e])
    ensures Traced(states, e, e + 1) && states[e + 1].once.Running?
  {
  }

  lemma NotFresh(s: State, thread: nat)
    requires s.past != [] && s.once.Running? && s.once.thread == thread
    ensures !Execute(s, thread, s.once.next).once.Fresh?
  {
  }

  /** No other step changes what the initialiser holds or a finished record. */
  lemma IdleTraced(states: seq<State>, actions: seq<Action>, e: nat, i: nat)
    requires i + 1 < |states| && |states| == |actions| + 1 && Next(states[i], states[i + 1], actions[i])
    requires !actions[i].Initialise? && Traced(states, e, i) && !states[i].once.Fresh?
    ensures Traced(states, e, i + 1) && states[i + 1].once == states[i].once
  {
    SamplesStay(states, e, i);
    hide Sampled, ReadFrom, ReadBoth;
    assert states[i + 1].once == states[i].once;
    assert states[i].once.Complete? ==> states[i + 1].memory == states[i].memory;
  }

  lemma {:induction false} SomeFirstEnter(states: seq<State>, actions: seq<Action>, i: nat) returns (e: nat)
    requires IsRun(states, actions) && i < |states| && !states[i].once.Fresh?
    ensures e < i && FirstEnter(states, actions, e)
  {
    assert i > 0;
    if states[i - 1].once.Fresh? {
      assert Next(states[i - 1], states[i], actions[i - 1]);
      e := i - 1;
    } else {
      e := SomeFirstEnter(states, actions, i - 1);
    }
  }

  /**
    While any thread is inside, the record, read as callers read it, is the policy of the value FROM had in
    one state and TO in the same or a later one, both after the first thread entered.
   */
  lemma SnapshotIsCurrent(states: seq<State>, actions: seq<Action>, i: nat)
    requires IsRun(states, actions) && i < |states| && states[i].inside != {}
    ensures exists e: nat, j, k ::
              && FirstEnter(states, actions, e) && e < j <= k <= i
              && states[j].past != [] && states[k].past != []
              && RecordPolicy(states[i].memory) == Some(PolicyFrom(Current(states[j]).from, Current(states[k]).to))
  {
    RunKeeps(states, actions, i);
    assert states[i].once.Complete?;
    hide Invariant, IsRun, PolicyFrom, MemoryOf, RecordPolicy;
    var e := SomeFirstEnter(states, actions, i);
    RunTraced(states, actions, e, i);
    var policy :| Sampled(states, e, i, policy) && states[i].memory == MemoryOf(policy);
    RecordsRead(policy);
  }

  // ---------------------------------------------------------------- a thread that runs alone

  /** The first n statements of a thread that nobody interrupts. */
  function Alone(s: State, thread: nat, n: nat): State
    requires s.past != []
    decreases n
  {
    if n == 0 || !s.once.Running? then s else Alone(Execute(s, thread, s.once.next), thread, n - 1)
  }

  lemma AloneStep(s: State, thread: nat, n: nat)
    requires s.past != [] && n > 0 && s.once.Running?
    ensures Alone(s, thread, n) == Alone(Execute(s, thread, s.once.next), thread, n - 1)
  {
  }

  /** Up to the check of the two values: memory is zeroed and the current environment is in hand. */
  lemma AloneReads(s: State, thread: nat)
    requires s.past != [] && s.once == Running(thread, ClearEnabled) && s.memory == ZEROED
    ensures Alone(s, thread, 13) ==
            Alone(s.(once := Running(thread, Check(Current(s).from, Current(s).to))), thread, 6)
  {
    hide Alone, PolicyFrom;
    AloneStep(s, thread, 13);
    AloneStep(s.(once := Running(thread, ClearFrom)), thread, 12);
    AloneStep(s.(once := Running(thread, ClearTo)), thread, 11);
    AloneStep(s.(once := Running(thread, ClearFromLen)), thread, 10);
    AloneStep(s.(once := Running(thread, ClearToLen)), thread, 9);
    AloneStep(s.(once := Running(thread, GetFrom)), thread, 8);
    AloneStep(s.(once := Running(thread, GetTo(Current(s).from))), thread, 7);
  }

  /** From there on: the record is written and the thread returns. */
  lemma AloneWrites(s: State, thread: nat, fromEnv: Option<string>, toEnv: Option<string>)
    requires s.past != [] && s.once == Running(thread, Check(fromEnv, toEnv)) && s.memory == ZEROED
    ensures var s', policy := Alone(s, thread, 6), PolicyFrom(fromEnv, toEnv);
            s'.once.Complete? && s'.inside == s.inside + {thread} && s'.memory == MemoryOf(policy)
  {
    hide PolicyFrom;
    var policy := PolicyFrom(fromEnv, toEnv);
    var s1 := Execute(s, thread, s.once.next);
    assert Alone(s, thread, 6) == Alone(s1, thread, 5);
    if policy.On? {
      var s2 := Execute(s1, thread, CopyFrom(policy));
      var s3 := Execute(s2, thread, CopyTo(policy));
      var s4 := Execute(s3, thread, SetFromLen(policy));
      var s5 := Execute(s4, thread, SetToLen(policy));
      assert Alone(s1, thread, 5) == Alone(s2, thread, 4) == Alone(s3, thread, 3) == Alone(s4, thread, 2);
      assert Alone(s4, thread, 2) == Alone(s5, thread, 1) == Execute(s5, thread, SetEnabled(policy));
    }
  }

  /** Entering first and running alone, a thread leaves the policy of the current environment and is inside. */
  lemma AloneInitialises(s: State, thread: nat)
    requires Invariant(s) && s.once.Fresh?
    ensures var s' := Alone(s.(once := Running(thread, ClearEnabled)), thread, 13);
            && s'.once.Complete? && s'.inside == {thread}
            && RecordPolicy(s'.memory) == Some(PolicyFrom(Current(s).from, Current(s).to))
  {
    hide PolicyFrom, Alone, MemoryOf, RecordPolicy;
    var fromEnv, toEnv := Current(s).from, Current(s).to;
    AloneReads(s.(once := Running(thread, ClearEnabled)), thread);
    AloneWrites(s.(once := Running(thread, Check(fromEnv, toEnv))), thread, fromEnv, toEnv);
    RecordsRead(PolicyFrom(fromEnv, toEnv));
  }

  /**
    Over every interleaving: whatever any thread has read by state j, at any earlier time, are the
    fields of one finished record, which is the one in memory at every state in which some read had
    already happened, and holds a policy made from values the two variables had during the run.
   */
  lemma OneSnapshot(states: seq<State>, actions: seq<Action>, i: nat, j: nat)
    requires IsRun(states, actions) && i <= j < |states| && states[i].seen != []
    ensures states[j].memory == states[i].memory && Holds(states[i].past, states[i].memory)
    ensures forall k | 0 <= k < |states[j].seen| :: IsReadOf(states[j].seen[k], states[i].memory)
  {
    RunKeeps(states, actions, i);
    RunKeeps(states, actions, j);
    CompleteStays(states, actions, i, j);
    FinishedHolds(states[i].past, states[i].memory);
  }

  /** A thread that `get_rewrite_policy` has returned to never finds a partly written record. */
  lemma NoPartialRecord(states: seq<State>, actions: seq<Action>, i: nat)
    requires IsRun(states, actions) && i < |states| && states[i].inside != {}
    ensures Holds(states[i].past, states[i].memory)
    ensures states[i].memory.enabled ==>
              states[i].memory.fromLen == |states[i].memory.from| && states[i].memory.toLen == |states[i].memory.to|
  {
    RunKeeps(states, actions, i);
    FinishedHolds(states[i].past, states[i].memory);
  }
}
