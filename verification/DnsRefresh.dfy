/**
  The DNS watcher of core/tincd/src/dnsrefresh.c as a protocol of two threads: the resolver thread
  and the event loop share two lists under a mutex, a condition variable, and a wake channel.  Each
  step is one critical section or one socket call; any thread may take the next step.
  */
module DnsRefresh {
  import opened Wrappers

  /** A watched name: a node and one of its host names. */
  type Name = nat
  type Address = int

  /** One job of one batch: its place in the watch list then, and the name. */
  datatype Job = Job(batch: nat, place: nat, name: Name)

  /** Its answer: the addresses, preferred first, or none when the name did not resolve. */
  datatype Answer = Answer(job: Job, addrs: seq<Address>)

  /** A batch that has been queued: its number, and the watch list it was copied from. */
  datatype Pending = Pending(number: nat, names: seq<Name>)

  datatype Worker =
    | Waiting                           // for work, or on its way to the condition variable
    | Resolving(batch: Pending)         // has taken a batch, outside the mutex
    | Resolved(answers: seq<Answer>)    // about to publish
    | Published                         // about to send the wake byte
    | Ended

  datatype Loop =
    | Idle                              // in the event loop
    | Draining                          // receiving wake bytes
    | Drained                           // about to take the done list
    | Applying(rest: seq<Answer>)       // outside the mutex

  datatype State = State(
    watch: seq<Name>,                   // the watch list
    room: nat,                          // wake bytes the channel holds
    nextBatch: nat,
    pending: Option<Pending>,           // the batch waiting, if any
    done: seq<Answer>,
    wake: nat,
    stop: bool,
    worker: Worker,
    loop: Loop,
    lastGood: map<Name, Address>,
    applied: seq<Answer>,               // history: answers applied, and those freed as stale
    dropped: seq<Answer>,
    published: seq<Answer>,
    changes: seq<Change>)               // what the event loop did to the watch list

  datatype Change =
    | Answered(r: Answer)
    | Rebuilt(names: seq<Name>, saved: map<Name, Address>)

  datatype Step =
    | Rebuild(names: seq<Name>, saved: map<Name, Address>)  // dnsrefresh_rebuild, with the addresses on disk
    | Queue                             // dnsrefresh_queue_batch
    | Take                              // the worker's first critical section
    | Resolve(answers: seq<Answer>)
    | Publish                           // the worker's second critical section
    | Send
    | Wake                              // the event loop finds the channel readable
    | Receive
    | ReceiveFails                      // nothing left: EAGAIN
    | TakeDone                          // first lines of dnsrefresh_handle_results
    | Apply
    | ApplyEnds
    | Stop                              // dnsrefresh_exit
    | End                               // the worker sees stop

  // ---------- Lists built by prepending ----------

  function Reversed<T>(s: seq<T>): (r: seq<T>)
    ensures |r| == |s|
  {
    if s == [] then [] else Reversed(s[1..]) + [s[0]]
  }

  lemma {:induction false} ReversedAt<T>(s: seq<T>, k: nat)
    requires k < |s|
    ensures Reversed(s)[k] == s[|s| - 1 - k]
  {
    if k < |s| - 1 {
      ReversedAt(s[1..], k);
    }
  }

  /** The copy dnsrefresh_queue_batch makes: the watch list back to front. */
  function Batch(p: Pending): (js: seq<Job>)
    ensures |js| == |p.names|
  {
    Reversed(Jobs(p))
  }

  function Jobs(p: Pending): (js: seq<Job>)
    ensures |js| == |p.names| && forall i :: 0 <= i < |js| ==> js[i] == Job(p.number, i, p.names[i])
  {
    seq(|p.names|, i requires 0 <= i < |p.names| => Job(p.number, i, p.names[i]))
  }

  /** Answers to `batch`, in the order the worker's prepending leaves them. */
  ghost predicate Answers(batch: seq<Job>, answers: seq<Answer>) {
    |answers| == |batch| && forall i :: 0 <= i < |batch| ==> answers[i].job == Reversed(batch)[i]
  }

  /** Reversed twice, the answers are in the order the watch list had. */
  lemma AnswersInOrder(p: Pending, answers: seq<Answer>)
    requires Answers(Batch(p), answers)
    ensures |answers| == |p.names|
    ensures forall i :: 0 <= i < |p.names| ==> answers[i].job == Job(p.number, i, p.names[i])
  {
    forall i | 0 <= i < |p.names| ensures answers[i].job == Job(p.number, i, p.names[i]) {
      ReversedAt(Batch(p), i);
      ReversedAt(Jobs(p), |p.names| - 1 - i);
    }
  }

  // ---------- Steps ----------

  ghost predicate Enabled(s: State, a: Step) {
    match a
    case Rebuild(_, _) => s.loop == Idle && !s.stop
    case Queue => s.loop == Idle && !s.stop
    case Take => s.worker == Waiting && s.pending.Some? && !s.stop
    case Resolve(answers) => s.worker.Resolving? && Answers(Batch(s.worker.batch), answers)
    case Publish => s.worker.Resolved?
    case Send => s.worker == Published
    case Wake => s.loop == Idle && s.wake > 0 && !s.stop
    case Receive => s.loop == Draining && s.wake > 0
    case ReceiveFails => s.loop == Draining && s.wake == 0
    case TakeDone => s.loop == Drained
    case Apply => s.loop.Applying? && s.loop.rest != []
    case ApplyEnds => s.loop.Applying? && s.loop.rest == []
    case Stop => s.loop == Idle && !s.stop
    case End => s.worker == Waiting && s.stop
  }

  /**
    dnsrefresh_apply, as far as the remembered address goes: nothing for a name no longer watched, else
    kept if still listed, else the preferred one.
    */
  function Remember(watch: seq<Name>, lastGood: map<Name, Address>, r: Answer): map<Name, Address> {
    if r.job.name !in watch || r.addrs == [] then lastGood
    else if r.job.name in lastGood && lastGood[r.job.name] in r.addrs then lastGood
    else lastGood[r.job.name := r.addrs[0]]
  }

  /** dnsrefresh_rebuild: a name keeps its address, a new one takes the saved address, the others are forgotten. */
  function Carried(names: seq<Name>, lastGood: map<Name, Address>, saved: map<Name, Address>): map<Name, Address> {
    map name | name in names && (name in lastGood || name in saved) ::
      if name in lastGood then lastGood[name] else saved[name]
  }

  ghost function Next(s: State, a: Step): State
    requires Enabled(s, a)
  {
    match a
    case Rebuild(names, saved) =>
      s.(watch := names, lastGood := Carried(names, s.lastGood, saved), changes := s.changes + [Rebuilt(names, saved)])
    case Queue =>
      s.(pending := if s.watch != [] then Some(Pending(s.nextBatch, s.watch)) else None, nextBatch := s.nextBatch + 1,
         done := [], dropped := s.dropped + s.done)
    case Take => s.(worker := Resolving(s.pending.value), pending := None)
    case Resolve(answers) => s.(worker := Resolved(answers))
    case Publish => s.(done := s.done + s.worker.answers, published := s.published + s.worker.answers,
        worker := Published)
    case Send => s.(wake := if s.wake < s.room then s.wake + 1 else s.wake, worker := Waiting)
    case Wake => s.(loop := Draining)
    case Receive => s.(wake := s.wake - 1)
    case ReceiveFails => s.(loop := Drained)
    case TakeDone => s.(loop := Applying(s.done), done := [])
    case Apply =>
      s.(loop := Applying(s.loop.rest[1..]), applied := s.applied + [s.loop.rest[0]],
         lastGood := Remember(s.watch, s.lastGood, s.loop.rest[0]), changes := s.changes + [Answered(s.loop.rest[0])])
    case ApplyEnds => s.(loop := Idle)
    case Stop => s.(stop := true)
    case End => s.(worker := Ended)
  }

  ghost predicate Start(s: State) {
    && s.room >= 1 && s.nextBatch == 0 && s.pending == None && s.done == [] && s.wake == 0 && !s.stop
    && s.worker == Waiting && s.loop == Idle && s.applied == [] && s.dropped == [] && s.published == []
    && s.watch == [] && s.lastGood == map[] && s.changes == []
  }

  /** `steps` is a run from `s` to `t`. */
  ghost predicate Run(s: State, steps: seq<Step>, t: State)
    decreases |steps|
  {
    if steps == [] then s == t
    else Enabled(s, steps[0]) && Run(Next(s, steps[0]), steps[1..], t)
  }

  // ---------- What every step keeps ----------

  /** Published answers cannot be forgotten: someone is about to notice them. */
  ghost predicate Noticed(s: State) {
    && s.room >= 1 && s.wake <= s.room
    && (s.done != [] ==> s.wake > 0 || s.worker == Published || s.loop == Draining || s.loop == Drained)
  }

  predicate Before(a: Job, b: Job) {
    a.batch < b.batch || (a.batch == b.batch && a.place < b.place)
  }

  ghost predicate Increasing(js: seq<Answer>) {
    forall i, j :: 0 <= i < j < |js| ==> Before(js[i].job, js[j].job)
  }

  ghost function BeingApplied(s: State): seq<Answer> {
    if s.loop.Applying? then s.loop.rest else []
  }

  ghost function WithWorker(s: State): seq<Answer> {
    if s.worker.Resolved? then s.worker.answers else []
  }

  /** Every answer in the system, in the order it will be or has been applied. */
  ghost function Queueing(s: State): seq<Answer> {
    s.applied + BeingApplied(s) + s.done + WithWorker(s)
  }

  /** No answer yet in the system belongs to this batch or a later one. */
  ghost function Ceiling(s: State): nat {
    if s.worker.Resolving? then s.worker.batch.number
    else if s.pending.Some? then s.pending.value.number
    else s.nextBatch
  }

  /** Batches are taken in the order they were queued. */
  ghost predicate Batched(s: State) {
    && (s.pending.Some? ==> s.pending.value.number < s.nextBatch)
    && (s.worker.Resolving? ==> s.worker.batch.number < s.nextBatch)
    && (s.worker.Resolving? && s.pending.Some? ==> s.worker.batch.number < s.pending.value.number)
    && AllBelow(Queueing(s), Ceiling(s))
  }

  ghost predicate AllBelow(js: seq<Answer>, batch: nat) {
    forall i :: 0 <= i < |js| ==> js[i].job.batch < batch
  }

  /** The published answers still in the system or already applied. */
  ghost function Kept(s: State): seq<Answer> {
    s.applied + BeingApplied(s) + s.done
  }

  /** Nothing published is lost but by being freed as stale when the next batch is queued. */
  ghost predicate Conserved(s: State) {
    multiset(s.published) == multiset(Kept(s)) + multiset(s.dropped)
  }

  ghost predicate Inv(s: State) {
    Noticed(s) && Increasing(Queueing(s)) && Batched(s) && Conserved(s)
  }

  lemma NoticedKept(s: State, a: Step)
    requires Noticed(s) && Enabled(s, a)
    ensures Noticed(Next(s, a))
  {
  }

  lemma OneOver(a: seq<Answer>, rest: seq<Answer>)
    requires rest != []
    ensures a + rest == a + [rest[0]] + rest[1..]
  {
    assert rest == [rest[0]] + rest[1..];
  }

  /** What a step does to the answers in the system. */
  lemma QueueingMoves(s: State, a: Step)
    requires Enabled(s, a)
    ensures match a
            case Queue => Queueing(s) == s.applied + s.done + WithWorker(s)
                && Queueing(Next(s, a)) == s.applied + WithWorker(s)
            case Resolve(answers) => Queueing(Next(s, a)) == Queueing(s) + answers
            case _ => Queueing(Next(s, a)) == Queueing(s)
  {
    hide Remember, Answers, Batch, Carried;
    var t := Next(s, a);
    match a
    case Queue =>
      assert s.applied + [] == s.applied && t.applied + [] + [] == t.applied;
    case Resolve(answers) =>
      assert Queueing(s) == s.applied + BeingApplied(s) + s.done;
    case Publish =>
      assert s.applied + BeingApplied(s) + s.done + s.worker.answers
          == s.applied + BeingApplied(s) + (s.done + s.worker.answers) + [];
    case TakeDone =>
      assert s.applied + [] + s.done == s.applied + s.done + [];
    case Apply =>
      OneOver(s.applied, s.loop.rest);
    case _ =>
  }

  lemma OrderKept(s: State, a: Step)
    requires Increasing(Queueing(s)) && Batched(s) && Enabled(s, a)
    ensures Increasing(Queueing(Next(s, a))) && Batched(Next(s, a))
  {
    QueueingMoves(s, a);
    hide Queueing;
    var t := Next(s, a);
    match a
    case Queue =>
      assert AllBelow(s.applied + s.done + WithWorker(s), Ceiling(s));
      SkipMiddle(s.applied, s.done, WithWorker(s), Ceiling(s));
    case Resolve(answers) =>
      AnswersInOrder(s.worker.batch, answers);
    case _ =>
  }

  lemma SkipMiddle(a: seq<Answer>, b: seq<Answer>, c: seq<Answer>, batch: nat)
    requires Increasing(a + b + c) && AllBelow(a + b + c, batch)
    ensures Increasing(a + c) && AllBelow(a + c, batch)
  {
    var abc, ac := a + b + c, a + c;
    forall i | 0 <= i < |ac| ensures exists k :: Maps(|a|, |b|, i, k) && 0 <= k < |abc| && abc[k] == ac[i] {
      var k := if i < |a| then i else i + |b|;
      assert Maps(|a|, |b|, i, k) && abc[k] == ac[i];
    }
  }

  ghost predicate Maps(a: nat, b: nat, i: int, k: int) {
    k == if i < a then i else i + b
  }

  lemma KeptMoves(s: State, a: Step)
    requires Enabled(s, a)
    ensures match a
            case Queue => Kept(s) == Kept(Next(s, a)) + s.done
            case Publish => Kept(Next(s, a)) == Kept(s) + s.worker.answers
            case _ => Kept(Next(s, a)) == Kept(s)
  {
    hide Remember, Answers, Batch, Carried;
    var t := Next(s, a);
    match a
    case Apply =>
      OneOver(s.applied, s.loop.rest);
    case _ =>
  }

  lemma ConservedKept(s: State, a: Step)
    requires Conserved(s) && Enabled(s, a)
    ensures Conserved(Next(s, a))
  {
    hide Kept, Remember, Answers, Batch, Carried;
    KeptMoves(s, a);
    var t := Next(s, a);
    if a == Queue {
      assert multiset(Kept(s)) == multiset(Kept(t)) + multiset(s.done);
    }
  }

  // ---------- The remembered address ----------

  /** The watch list and the remembered addresses after `changes`. */
  function WatchAfter(changes: seq<Change>): seq<Name> {
    if changes == [] then []
    else
      match changes[|changes| - 1]
      case Rebuilt(names, _) => names
      case Answered(_) => WatchAfter(changes[..|changes| - 1])
  }

  function Remembered(changes: seq<Change>): map<Name, Address> {
    if changes == [] then map[]
    else
      var before := changes[..|changes| - 1];
      match changes[|changes| - 1]
      case Rebuilt(names, saved) => Carried(names, Remembered(before), saved)
      case Answered(r) => Remember(WatchAfter(before), Remembered(before), r)
  }

  /** The answers among them, in order. */
  function AnswersOf(changes: seq<Change>): seq<Answer> {
    if changes == [] then []
    else
      AnswersOf(changes[..|changes| - 1]) + match changes[|changes| - 1] case Answered(r) => [r] case _ => []
  }

  /** The latest answer that found addresses for `name`, since it has been watched. */
  ghost function Latest(changes: seq<Change>, name: Name): Option<Answer> {
    if changes == [] then None
    else
      var before := changes[..|changes| - 1];
      match changes[|changes| - 1]
      case Rebuilt(names, _) => if name in names then Latest(before, name) else None
      case Answered(r) =>
        if r.job.name == name && r.addrs != [] && name in WatchAfter(before) then Some(r) else Latest(before, name)
  }

  ghost predicate WasSaved(changes: seq<Change>, name: Name, address: Address) {
    exists i :: 0 <= i < |changes| && SavedBy(changes[i], name, address)
  }

  predicate SavedBy(c: Change, name: Name, address: Address) {
    c.Rebuilt? && name in c.saved && c.saved[name] == address
  }

  /** Only a live answer replaces an address, and the address remembered is one it lists or came from disk. */
  ghost predicate ListedStill(changes: seq<Change>, lastGood: map<Name, Address>, name: Name) {
    match Latest(changes, name)
    case None => name in lastGood ==> WasSaved(changes, name, lastGood[name])
    case Some(r) => name in lastGood && lastGood[name] in r.addrs
  }

  ghost predicate Remembers(s: State) {
    && s.watch == WatchAfter(s.changes) && s.lastGood == Remembered(s.changes) && s.applied == AnswersOf(s.changes)
    && (forall name :: name in s.lastGood ==> name in s.watch)
    && (forall name: Name :: ListedStill(s.changes, s.lastGood, name))
  }

  /** One more change and what it does to each name. */
  lemma ListedNext(changes: seq<Change>, lastGood: map<Name, Address>, c: Change, name: Name)
    requires ListedStill(changes, lastGood, name) && lastGood == Remembered(changes)
    requires forall n :: n in lastGood ==> n in WatchAfter(changes)
    ensures ListedStill(changes + [c], Remembered(changes + [c]), name)
    ensures name in Remembered(changes + [c]) ==> name in WatchAfter(changes + [c])
  {
    var more := changes + [c];
    assert more[..|changes|] == changes && more[|changes|] == c;
    var now := Remembered(more);
    if name in now && Latest(more, name).None? {
      if name in lastGood && lastGood[name] == now[name] && Latest(changes, name).None? {
        var i :| 0 <= i < |changes| && SavedBy(changes[i], name, lastGood[name]);
        assert SavedBy(more[i], name, now[name]);
      } else {
        assert SavedBy(more[|changes|], name, now[name]);
      }
    }
  }

  lemma RemembersKept(s: State, a: Step)
    requires Remembers(s) && Enabled(s, a)
    ensures Remembers(Next(s, a))
  {
    hide ListedStill, Remember, Carried;
    var t := Next(s, a);
    if t.changes != s.changes {
      var c := t.changes[|s.changes|];
      assert t.changes == s.changes + [c] && t.changes[..|s.changes|] == s.changes;
      forall name: Name
        ensures ListedStill(t.changes, t.lastGood, name) && (name in t.lastGood ==> name in t.watch)
      {
        ListedNext(s.changes, s.lastGood, c, name);
      }
    }
  }

  /** The change leaves `name` watched, and is no answer for it without `address`. */
  predicate StillListed(c: Change, name: Name, address: Address) {
    match c
    case Rebuilt(names, _) => name in names
    case Answered(r) => r.job.name != name || r.addrs == [] || address in r.addrs
  }

  function Recalled(changes: seq<Change>, name: Name): Option<Address> {
    if name in Remembered(changes) then Some(Remembered(changes)[name]) else None
  }

  /** The first address of a live answer that does not list the one remembered takes its place; nothing else does. */
  lemma ReplacedExactly(changes: seq<Change>, r: Answer, name: Name)
    ensures Recalled(changes + [Answered(r)], name)
            == var was := Recalled(changes, name);
               if r.job.name == name && name in WatchAfter(changes) && r.addrs != []
                  && (was.Some? ==> was.value !in r.addrs) then Some(r.addrs[0])
               else was
  {
    assert (changes + [Answered(r)])[..|changes|] == changes;
  }

  /** A rebuilt list keeps the addresses of its names, and has the saved ones of those that are new to it. */
  lemma CarriedExactly(changes: seq<Change>, names: seq<Name>, saved: map<Name, Address>, name: Name)
    ensures Recalled(changes + [Rebuilt(names, saved)], name)
            == if name !in names then None
               else if Recalled(changes, name).Some? then Recalled(changes, name)
               else if name in saved then Some(saved[name])
               else None
  {
    assert (changes + [Rebuilt(names, saved)])[..|changes|] == changes;
  }

  /** An address that every live answer since has listed is still the one remembered. */
  lemma {:induction false} StaysWhileListed(changes: seq<Change>, more: seq<Change>, name: Name, address: Address)
    requires Recalled(changes, name) == Some(address)
    requires forall i :: 0 <= i < |more| ==> StillListed(more[i], name, address)
    ensures Recalled(changes + more, name) == Some(address)
    decreases |more|
  {
    hide Recalled;
    if more == [] {
      assert changes + more == changes;
    } else {
      var n := |more| - 1;
      StaysWhileListed(changes, more[..n], name, address);
      assert changes + more == (changes + more[..n]) + [more[n]];
      match more[n]
      case Answered(r) => ReplacedExactly(changes + more[..n], r, name);
      case Rebuilt(names, saved) => CarriedExactly(changes + more[..n], names, saved, name);
    }
  }

  // ---------- Every interleaving ----------

  lemma {:induction false} InvAlong(s: State, steps: seq<Step>, t: State)
    requires Inv(s) && Remembers(s) && Run(s, steps, t)
    ensures Inv(t) && Remembers(t)
    decreases |steps|
  {
    if steps != [] {
      hide Noticed, Conserved, Batched, Increasing, Queueing, Remembers, Next, Enabled;
      NoticedKept(s, steps[0]);
      OrderKept(s, steps[0]);
      ConservedKept(s, steps[0]);
      RemembersKept(s, steps[0]);
      InvAlong(Next(s, steps[0]), steps[1..], t);
    }
  }

  lemma Reachable(s: State, steps: seq<Step>, t: State)
    requires Start(s) && Run(s, steps, t)
    ensures Inv(t) && Remembers(t)
  {
    hide Inv, Remembers, Run;
    StartInv(s);
    StartRemembers(s);
    InvAlong(s, steps, t);
  }

  lemma StartInv(s: State)
    requires Start(s)
    ensures Inv(s)
  {
    assert Queueing(s) == [] && Kept(s) == [];
  }

  lemma {:induction false} ChangesGrow(s: State, steps: seq<Step>, t: State)
    requires Run(s, steps, t)
    ensures s.changes <= t.changes
    decreases |steps|
  {
    hide Remember, Carried, Enabled;
    if steps != [] {
      ChangesGrow(Next(s, steps[0]), steps[1..], t);
    }
  }

  /** Over any run, an address that every live answer of the run lists does not change. */
  lemma StaysAlong(s: State, steps: seq<Step>, t: State, name: Name)
    requires Inv(s) && Remembers(s) && Run(s, steps, t) && name in s.lastGood && s.changes <= t.changes
    requires forall i :: |s.changes| <= i < |t.changes| ==> StillListed(t.changes[i], name, s.lastGood[name])
    ensures name in t.lastGood && t.lastGood[name] == s.lastGood[name]
  {
    hide Run, Inv, ListedStill, StillListed;
    InvAlong(s, steps, t);
    var more := t.changes[|s.changes|..];
    assert t.changes == s.changes + more;
    StaysWhileListed(s.changes, more, name, s.lastGood[name]);
  }

  lemma StartRemembers(s: State)
    requires Start(s)
    ensures Remembers(s)
  {
  }

  /** No interleaving strands a published answer: with both threads at rest the event loop is woken. */
  lemma NoneStranded(s: State, steps: seq<Step>, t: State)
    requires Start(s) && Run(s, steps, t)
    requires t.done != [] && t.loop == Idle && t.worker != Published && !t.stop
    ensures Enabled(t, Wake)
  {
    Reachable(s, steps, t);
  }

  /** Each answer is applied at most once, in the order the batches were queued and within one in watch-list order. */
  lemma AppliedOnceInOrder(s: State, steps: seq<Step>, t: State, i: nat, j: nat)
    requires Start(s) && Run(s, steps, t) && i < j < |t.applied|
    ensures Before(t.applied[i].job, t.applied[j].job) && t.applied[i].job != t.applied[j].job
  {
    Reachable(s, steps, t);
    assert Queueing(t)[i] == t.applied[i] && Queueing(t)[j] == t.applied[j];
  }

  /** What was applied had been published, and what was published is applied, in hand, waiting, or freed as stale. */
  lemma NothingLostOrInvented(s: State, steps: seq<Step>, t: State)
    requires Start(s) && Run(s, steps, t)
    ensures multiset(t.published) == multiset(t.applied) + multiset(BeingApplied(t)) + multiset(t.done)
              + multiset(t.dropped)
  {
    Reachable(s, steps, t);
    assert Kept(t) == t.applied + BeingApplied(t) + t.done;
  }

  lemma RunCons(t: State, a: Step, steps: seq<Step>, u: State)
    requires Enabled(t, a) && Run(Next(t, a), steps, u)
    ensures Run(t, [a] + steps, u)
  {
    assert ([a] + steps)[1..] == steps;
  }

  /** The event loop alone, once woken, applies everything published so far. */
  lemma {:induction false} ApplyAll(t: State)
    requires t.loop.Applying?
    ensures exists steps, u :: Run(t, steps, u) && u.loop == Idle && u.applied == t.applied + t.loop.rest
              && u.done == t.done
    decreases |t.loop.rest|
  {
    hide Run;
    if t.loop.rest == [] {
      var u := Next(t, ApplyEnds);
      EmptyRun(u);
      RunCons(t, ApplyEnds, [], u);
      assert t.applied + [] == t.applied;
    } else {
      var mid := Next(t, Apply);
      ApplyAll(mid);
      var steps, u :| Run(mid, steps, u) && u.loop == Idle && u.applied == mid.applied + mid.loop.rest
          && u.done == mid.done;
      RunCons(t, Apply, steps, u);
      assert t.loop.rest == [t.loop.rest[0]] + t.loop.rest[1..];
      assert u.applied == t.applied + t.loop.rest;
    }
  }

  lemma EmptyRun(u: State)
    ensures Run(u, [], u)
  {
  }

  lemma {:induction false} DrainAll(t: State)
    requires t.loop == Draining
    ensures exists steps, u :: Run(t, steps, u) && u.loop == Idle && u.applied == t.applied + t.done && u.done == []
    decreases t.wake
  {
    hide Run;
    if t.wake > 0 {
      var mid := Next(t, Receive);
      DrainAll(mid);
      var steps, u :| Run(mid, steps, u) && u.loop == Idle && u.applied == mid.applied + mid.done && u.done == [];
      RunCons(t, Receive, steps, u);
    } else {
      var a := Next(t, ReceiveFails);
      var b := Next(a, TakeDone);
      ApplyAll(b);
      var steps, u :| Run(b, steps, u) && u.loop == Idle && u.applied == b.applied + b.loop.rest && u.done == b.done;
      RunCons(a, TakeDone, steps, u);
      RunCons(t, ReceiveFails, [TakeDone] + steps, u);
    }
  }

  /** From any reachable state at rest with answers waiting, the loop's own steps apply them all. */
  lemma EventuallyApplied(s: State, steps: seq<Step>, t: State)
    requires Start(s) && Run(s, steps, t)
    requires t.done != [] && t.loop == Idle && t.worker != Published && !t.stop
    ensures exists more, u :: Run(t, more, u) && u.applied == t.applied + t.done
  {
    NoneStranded(s, steps, t);
    var mid := Next(t, Wake);
    DrainAll(mid);
    var more, u :| Run(mid, more, u) && u.loop == Idle && u.applied == mid.applied + mid.done && u.done == [];
    assert ([Wake] + more)[1..] == more;
    assert Run(t, [Wake] + more, u);
  }
}
