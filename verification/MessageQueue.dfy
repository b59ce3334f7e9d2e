/**
 The command queue of src/function/csv_msg.c: producers append messages to a ring list
 while one consumer drains it with a deletion-safe iteration whose next cursor was read
 before pushes that may land behind it.

 The protocol is first a state machine over atomic steps, for any kind of address, so
 that an address may be handed out again once it has been freed. The class below runs
 the same steps on the real list.
 */
module MessageQueue {
  import opened Octets
  import opened Sequences
  import opened RingList

  /** struct msg_package_t: the three words of the header, then the payload if there is one. */
  datatype Package = Package(cmdtype: int, length: int, result: int, payload: Option<seq<byte>>)

  /**
   Where the consumer stands in its loop: waiting for a signal; `pos` read but not `n`;
   both read, `pos` not yet compared with the head; about to execute; executed but still
   linked; unlinked and freed.
   */
  datatype Phase = Waiting | Started | Testing | Running | Done | Gone

  /**
   The queue in list order, the memory of the messages that are allocated, and the two
   cursors. History: every message pushed, every message executed, how many had been
   pushed when the current drain began, and how many when a cursor was read as the head.
   */
  datatype State<A> = State(
    head: A, queue: seq<A>, memory: map<A, Package>, phase: Phase, pos: A, n: A,
    pushed: seq<Package>, executed: seq<Package>, begun: nat, sealed: nat)

  datatype Step<A> = Push(address: A, package: Package) | Consume

  /** What x->next reads, for an x on the list. */
  function NextOf<A(==)>(head: A, queue: seq<A>, x: A): A {
    if x == head then (if queue == [] then head else queue[0])
    else if queue == [] then head
    else if queue[0] == x then (if |queue| > 1 then queue[1] else head)
    else NextOf(head, queue[1..], x)
  }

  function Unlink<A(==)>(queue: seq<A>, x: A): seq<A> {
    if queue == [] then [] else if queue[0] == x then queue[1..] else [queue[0]] + Unlink(queue[1..], x)
  }

  /** The nodes that exist: the head, and the messages that are allocated. */
  predicate Live<A(==)>(s: State<A>, x: A) {
    x == s.head || x in s.memory
  }

  /** No step reads or frees memory that is not allocated. */
  predicate Safe<A(==)>(s: State<A>) {
    match s.phase
    case Waiting => true
    case Started => Live(s, s.pos)
    case Testing => true
    case Running => s.pos in s.memory
    case Done => s.pos in s.memory && s.pos in s.queue
    case Gone => Live(s, s.n)
  }

  function PushStep<A(==)>(s: State<A>, a: A, p: Package): State<A> {
    s.(queue := s.queue + [a], memory := s.memory[a := p], pushed := s.pushed + [p])
  }

  /** The consumer's next step. */
  function ConsumeStep<A(==)>(s: State<A>): State<A>
    requires Safe(s)
  {
    match s.phase
    case Waiting =>
      var pos := NextOf(s.head, s.queue, s.head);
      s.(phase := Started, pos := pos, begun := |s.pushed|,
      sealed := if pos == s.head then |s.pushed| else s.sealed)
    case Started =>
      var n := NextOf(s.head, s.queue, s.pos);
      s.(phase := Testing, n := n,
      sealed := if s.pos != s.head && n == s.head then |s.pushed| else s.sealed)
    case Testing =>
      s.(phase := if s.pos == s.head then Waiting else Running)
    case Running =>
      var p := s.memory[s.pos];
      s.(phase := Done, executed := s.executed + [p], memory := s.memory[s.pos := p.(payload := None)])
    case Done =>
      s.(phase := Gone, queue := Unlink(s.queue, s.pos), memory := s.memory - {s.pos})
    case Gone =>
      s.(phase := Started, pos := s.n)
  }

  /** malloc returns an address that is not in use. */
  predicate CanStep<A(==)>(s: State<A>, step: Step<A>) {
    match step
    case Push(a, _) => !Live(s, a)
    case Consume => Safe(s)
  }

  function Next<A(==)>(s: State<A>, step: Step<A>): State<A>
    requires CanStep(s, step)
  {
    match step
    case Push(a, p) => PushStep(s, a, p)
    case Consume => ConsumeStep(s)
  }

  function Initial<A>(head: A): State<A> {
    State(head, [], map[], Waiting, head, head, [], [], 0, 0)
  }

  /** Any interleaving: every push finds a free address; the consumer may step at any time. */
  predicate Schedule<A(==)>(s: State<A>, steps: seq<Step<A>>)
    decreases |steps|
  {
    steps == [] || (
      && (steps[0].Push? ==> !Live(s, steps[0].address))
      && (CanStep(s, steps[0]) ==> Schedule(Next(s, steps[0]), steps[1..])))
  }

  function Packages<A(==)>(memory: map<A, Package>, nodes: seq<A>): (ps: seq<Package>)
    requires forall x :: x in nodes ==> x in memory
    ensures |ps| == |nodes|
  {
    if nodes == [] then [] else [memory[nodes[0]]] + Packages(memory, nodes[1..])
  }

  /** The messages still to be executed: between execution and unlinking, not the first. */
  function Pending<A(==)>(s: State<A>): seq<A> {
    if s.phase == Done && s.queue != [] then s.queue[1..] else s.queue
  }

  ghost predicate Shape<A>(s: State<A>) {
    && s.head !in s.queue && Distinct(s.queue)
    && (forall x :: x in s.memory ==> x in s.queue)
    && (forall x :: x in s.queue ==> x in s.memory)
  }

  /** Where the cursors are: `pos` at the front, `n` just behind it or at the head. */
  ghost predicate Cursors<A>(s: State<A>) {
    var front := s.queue != [] && s.pos == s.queue[0];
    var behind := |s.queue| > 1 && s.n == s.queue[1];
    match s.phase
    case Waiting => true
    case Started => s.pos == s.head || front
    case Testing => s.pos == s.head || (front && (s.n == s.head || behind))
    case Running => front && (s.n == s.head || behind)
    case Done => front && (s.n == s.head || behind)
    case Gone => s.n == s.head || (s.queue != [] && s.n == s.queue[0])
  }

  /** How many messages the drain will have executed once the cursor now at the head is reached. */
  function Reach<A(==)>(s: State<A>): Option<nat> {
    match s.phase
    case Waiting => None
    case Started => if s.pos == s.head then Some(|s.executed|) else None
    case Testing =>
      if s.pos == s.head then Some(|s.executed|)
      else if s.n == s.head then Some(|s.executed| + 1) else None
    case Running => if s.n == s.head then Some(|s.executed| + 1) else None
    case Done => if s.n == s.head then Some(|s.executed|) else None
    case Gone => if s.n == s.head then Some(|s.executed|) else None
  }

  ghost predicate Ordered<A>(s: State<A>)
    requires Shape(s)
  {
    s.pushed == s.executed + Packages(s.memory, Pending(s))
  }

  ghost predicate Inv<A>(s: State<A>) {
    && Shape(s) && Cursors(s) && Ordered(s)
    && s.begun <= |s.pushed| && s.sealed <= |s.pushed|
    && (Reach(s).Some? ==> s.begun <= s.sealed == Reach(s).value)
  }

  // ---- The invariant is kept by every step ----

  lemma {:induction false} PackagesIgnore<A>(memory: map<A, Package>, other: map<A, Package>, nodes: seq<A>)
    requires forall x :: x in nodes ==> x in memory && x in other && memory[x] == other[x]
    ensures Packages(memory, nodes) == Packages(other, nodes)
  {
    if nodes != [] {
      assert forall x :: x in nodes[1..] ==> x in nodes;
      PackagesIgnore(memory, other, nodes[1..]);
    }
  }

  lemma {:induction false} PackagesAppend<A>(memory: map<A, Package>, nodes: seq<A>, a: A)
    requires a in memory && forall x :: x in nodes ==> x in memory
    ensures Packages(memory, nodes + [a]) == Packages(memory, nodes) + [memory[a]]
  {
    if nodes == [] {
      assert nodes + [a] == [a] && [a][1..] == [];
    } else {
      assert (nodes + [a])[1..] == nodes[1..] + [a];
      PackagesAppend(memory, nodes[1..], a);
    }
  }

  lemma PushKeeps<A>(s: State<A>, a: A, p: Package)
    requires Inv(s) && !Live(s, a)
    ensures Inv(PushStep(s, a, p))
  {
    hide Packages;
    var t := PushStep(s, a, p);
    var before := Pending(s);
    assert Pending(t) == before + [a];
    PackagesIgnore(s.memory, t.memory, before);
    PackagesAppend(t.memory, before, a);
  }

  lemma {:induction false} NextOfFront<A>(head: A, queue: seq<A>)
    requires queue != [] && queue[0] != head
    ensures NextOf(head, queue, queue[0]) == if |queue| > 1 then queue[1] else head
    ensures Unlink(queue, queue[0]) == queue[1..]
  {
  }

  lemma InvIsSafe<A>(s: State<A>)
    requires Inv(s)
    ensures Safe(s)
  {
  }

  lemma ConsumeKeeps<A>(s: State<A>)
    requires Inv(s)
    ensures Safe(s) && Inv(ConsumeStep(s))
  {
    InvIsSafe(s);
    var t := ConsumeStep(s);
    if s.phase == Running {
      ExecuteKeeps(s);
    } else if s.phase == Done {
      DeleteKeeps(s);
    } else {
      if s.queue != [] {
        NextOfFront(s.head, s.queue);
      }
      assert Pending(t) == Pending(s);
    }
  }

  lemma ExecuteKeeps<A>(s: State<A>)
    requires Inv(s) && s.phase == Running
    ensures Inv(ConsumeStep(s))
  {
    hide Packages, NextOf, Unlink, Distinct;
    var t := ConsumeStep(s);
    FrontPackage(s.memory, s.queue);
    FrontApart(s.queue);
    PackagesIgnore(s.memory, t.memory, s.queue[1..]);
    Regroup(s.executed, s.memory[s.pos], Packages(t.memory, s.queue[1..]));
  }

  lemma Regroup<T>(xs: seq<T>, x: T, ys: seq<T>)
    ensures xs + ([x] + ys) == (xs + [x]) + ys
  {
  }

  lemma FrontPackage<A>(memory: map<A, Package>, nodes: seq<A>)
    requires nodes != [] && forall x :: x in nodes ==> x in memory
    ensures Packages(memory, nodes) == [memory[nodes[0]]] + Packages(memory, nodes[1..])
  {
  }

  lemma FrontApart<A>(queue: seq<A>)
    requires queue != [] && Distinct(queue)
    ensures Distinct(queue[1..]) && queue[0] !in queue[1..]
    ensures forall x :: x in queue <==> x == queue[0] || x in queue[1..]
  {
  }

  lemma DeleteKeeps<A>(s: State<A>)
    requires Inv(s) && s.phase == Done
    ensures Inv(ConsumeStep(s))
  {
    hide Packages, NextOf, Unlink, Distinct;
    var t := ConsumeStep(s);
    NextOfFront(s.head, s.queue);
    FrontApart(s.queue);
    PackagesIgnore(s.memory, t.memory, s.queue[1..]);
  }

  // ---- Main results, over every interleaving ----

  function Run<A(==)>(s: State<A>, steps: seq<Step<A>>): State<A>
    decreases |steps|
  {
    if steps == [] || !CanStep(s, steps[0]) then s else Run(Next(s, steps[0]), steps[1..])
  }

  /** The invariant holds after every schedule, and no step of it is ever refused. */
  lemma {:induction false} EveryRunKeeps<A>(s: State<A>, steps: seq<Step<A>>)
    requires Inv(s) && Schedule(s, steps)
    ensures Inv(Run(s, steps)) && Safe(Run(s, steps))
    decreases |steps|
  {
    if steps == [] {
      InvIsSafe(s);
    } else {
      match steps[0] {
        case Push(a, p) =>
          PushKeeps(s, a, p);
        case Consume =>
          ConsumeKeeps(s);
      }
      EveryRunKeeps(Next(s, steps[0]), steps[1..]);
    }
  }

  /**
   First in, first out, in every interleaving: what was executed, followed by what is still
   to be, is what was pushed; and the two cursors never point at freed memory.
   */
  lemma FirstInFirstOut<A>(head: A, steps: seq<Step<A>>)
    requires Schedule(Initial(head), steps)
    ensures var s := Run(Initial(head), steps);
      && (forall x :: x in s.queue ==> x in s.memory)
      && Safe(s)
      && s.executed + Packages(s.memory, Pending(s)) == s.pushed
      && (s.phase in {Testing, Running, Done} && s.pos != s.head ==> Live(s, s.n))
  {
    EveryRunKeeps(Initial(head), steps);
  }

  /**
   When a drain ends it has executed everything that was queued when it began, and exactly
   the messages that were pushed before a cursor was read as the head.
   */
  lemma DrainIsComplete<A>(head: A, steps: seq<Step<A>>)
    requires Schedule(Initial(head), steps)
    requires var s := Run(Initial(head), steps); s.phase == Testing && s.pos == s.head
    ensures var s := Run(Initial(head), steps);
      && s.begun <= s.sealed <= |s.pushed|
      && s.executed == s.pushed[..s.sealed]
  {
    EveryRunKeeps(Initial(head), steps);
  }

  function Consumes<A>(k: nat): seq<Step<A>> {
    seq(k, _ => Consume)
  }

  /** How many consumer steps are left before the drain ends, if nothing more is pushed. */
  function StepsLeft<A(==)>(s: State<A>): nat {
    match s.phase
    case Waiting => 0
    case Started => 2 + 5 * |s.queue|
    case Testing => 1 + 5 * |s.queue|
    case Running => 5 * |s.queue|
    case Done => if s.queue == [] then 0 else 4 + 5 * (|s.queue| - 1)
    case Gone => 3 + 5 * |s.queue|
  }

  /** With no push in the meantime, a drain that is under way ends. */
  lemma {:induction false} DrainEnds<A>(s: State<A>) returns (k: nat)
    requires Inv(s) && s.phase != Waiting
    ensures k <= StepsLeft(s)
    ensures var t := Run(s, Consumes(k));
      && Inv(t) && t.phase == Testing && t.pos == t.head && t.pushed == s.pushed && t.begun == s.begun
      && (Reach(s).Some? ==> t.sealed == s.sealed)
    decreases StepsLeft(s)
  {
    hide Packages, NextOf, Unlink, Distinct, Inv;
    if s.phase == Testing && s.pos == s.head {
      k := 0;
    } else {
      ConsumeKeeps(s);
      OneStepCloser(s);
      var t := ConsumeStep(s);
      var left := DrainEnds(t);
      k := left + 1;
      assert Consumes<A>(k)[1..] == Consumes<A>(left);
    }
  }

  lemma OneStepCloser<A>(s: State<A>)
    requires Inv(s) && s.phase != Waiting && Safe(s)
    requires !(s.phase == Testing && s.pos == s.head)
    ensures var t := ConsumeStep(s);
      && t.phase != Waiting && StepsLeft(t) < StepsLeft(s) && t.pushed == s.pushed && t.begun == s.begun
      && (Reach(s).Some? ==> Reach(t).Some? && t.sealed == s.sealed)
  {
    if s.queue != [] {
      NextOfFront(s.head, s.queue);
    }
  }

  /**
   A push that lands once a cursor has been read as the head is not seen by the drain under
   way: when it ends, what is left is every message from the first one pushed after that read.
   */
  lemma LeftForTheNextDrain<A>(s: State<A>, a: A, p: Package) returns (k: nat)
    requires Inv(s) && Reach(s).Some? && !Live(s, a)
    ensures var t := Run(PushStep(s, a, p), Consumes(k));
      && t.phase == Testing && t.pos == t.head && Shape(t)
      && s.sealed <= |s.pushed|
      && t.executed == s.pushed[..s.sealed]
      && Packages(t.memory, t.queue) == s.pushed[s.sealed..] + [p]
  {
    hide Run, Packages, NextOf, Unlink, Distinct;
    PushKeeps(s, a, p);
    k := DrainEnds(PushStep(s, a, p));
    var t := Run(PushStep(s, a, p), Consumes(k));
    assert t.pushed == t.executed + Packages(t.memory, t.queue);
    assert t.pushed[|t.executed|..] == Packages(t.memory, t.queue);
  }

  // ---- The same steps on the ring list ----

  datatype Command = Command(cmdtype: int, handler: nat)

  const HEADER := 12

  /** Memory from an address on, whatever is in it. */
  type Memory = nat -> byte

  /** A 32-bit word as the little-endian host reads it, signed. */
  function Word(buf: Memory, at: nat): int {
    var u := buf(at) as int + 256 * buf(at + 1) as int + 65536 * buf(at + 2) as int + 16777216 * buf(at + 3) as int;
    if u < 0x8000_0000 then u else u - 0x1_0000_0000
  }

  /** The header, and as much payload as it says, wherever that ends. */
  function Parse(buf: Memory): Package {
    var length := Word(buf, 4);
    Package(Word(buf, 0), length, Word(buf, 8),
      if length > 0 then Some(BytesAt(buf, HEADER, length)) else None)
  }

  /** From there on stands a 32-bit integer in two's complement, its lowest byte first. */
  ghost predicate LittleEndian(buf: Memory, at: nat, x: int) {
    var u := buf(at) as int + 256 * buf(at + 1) as int + 65536 * buf(at + 2) as int + 16777216 * buf(at + 3) as int;
    -2147483648 <= x < 2147483648 && (u == x || u == x + 4294967296)
  }

  /** The first four bytes of a message are its command, the next its length, the next its result; then comes the payload. */
  lemma MessageInBytes(buf: Memory, t: int, n: int, r: int)
    requires LittleEndian(buf, 0, t) && LittleEndian(buf, 4, n) && LittleEndian(buf, 8, r)
    ensures IsMessage(Parse(buf), t, n, r, buf)
  {
  }

  ghost predicate IsMessage(p: Package, t: int, n: int, r: int, buf: Memory) {
    && p.cmdtype == t && p.length == n && p.result == r
    && (n <= 0 ==> p.payload == None)
    && (n > 0 ==> p.payload.Some? && |p.payload.value| == n && forall i :: 0 <= i < n ==> p.payload.value[i] == buf(12 + i))
  }

  function BytesAt(buf: Memory, at: nat, n: nat): (s: seq<byte>)
    ensures |s| == n && forall i :: 0 <= i < n ==> s[i] == buf(at + i)
  {
    seq(n, i requires 0 <= i < n => buf(at + i))
  }

  /** How many bytes of the message have not been received; negative if there are more than it has. */
  function Missing(buf: Memory, len: nat): int {
    if Word(buf, 4) > 0 then Word(buf, 4) - (len - HEADER) else 0
  }

  /** In bytes: the length in the header less what has come behind the header. */
  lemma MissingInBytes(buf: Memory, n: int, len: nat)
    requires LittleEndian(buf, 4, n)
    ensures Missing(buf, len) == if n > 0 then n - (len - 12) else 0
  {
  }

  /**
   The payload is made of what was received exactly if nothing is missing: two memories that
   agree on the first len bytes then give the same package, and otherwise some two do not.
   */
  lemma ReceivedWhole(buf: Memory, len: nat)
    requires len >= HEADER
    ensures Missing(buf, len) <= 0 <==>
      forall other: Memory :: (forall i: nat :: i < len ==> other(i) == buf(i)) ==> Parse(other) == Parse(buf)
  {
    if Missing(buf, len) <= 0 {
      forall other: Memory | forall i: nat :: i < len ==> other(i) == buf(i)
        ensures Parse(other) == Parse(buf)
      {
        SameWords(buf, other, len);
        if Word(buf, 4) > 0 {
          assert BytesAt(other, HEADER, Word(buf, 4)) == BytesAt(buf, HEADER, Word(buf, 4));
        }
      }
    } else {
      var other: Memory := (i: nat) => if i < len then buf(i) else if buf(i) == 0 then 1 else 0;
      SameWords(buf, other, len);
      var k := len - HEADER;
      assert Parse(other).payload.value[k] != Parse(buf).payload.value[k];
    }
  }

  lemma SameWords(buf: Memory, other: Memory, len: nat)
    requires len >= HEADER && forall i: nat :: i < len ==> other(i) == buf(i)
    ensures Word(other, 0) == Word(buf, 0) && Word(other, 4) == Word(buf, 4) && Word(other, 8) == Word(buf, 8)
  {
  }

  /** The first command enrolled for this type, or past the end. */
  function FirstMatch(commands: seq<Command>, cmdtype: int): (k: nat)
    ensures k <= |commands| && (k < |commands| ==> commands[k].cmdtype == cmdtype)
    ensures forall j :: 0 <= j < k ==> commands[j].cmdtype != cmdtype
  {
    if commands == [] || commands[0].cmdtype == cmdtype then 0 else 1 + FirstMatch(commands[1..], cmdtype)
  }

  function Handler(commands: seq<Command>, cmdtype: int): Option<nat> {
    var k := FirstMatch(commands, cmdtype);
    if k < |commands| then Some(commands[k].handler) else None
  }

  /** The handler that is called, if any, is that of the first command of that type. */
  ghost predicate Calls(commands: seq<Command>, cmdtype: int, handler: Option<nat>) {
    match handler
    case None => forall k :: 0 <= k < |commands| ==> commands[k].cmdtype != cmdtype
    case Some(called) =>
      exists k :: 0 <= k < |commands| && commands[k] == Command(cmdtype, called)
        && forall j :: 0 <= j < k ==> commands[j].cmdtype != cmdtype
  }

  lemma HandlerCalls(commands: seq<Command>, cmdtype: int)
    ensures Calls(commands, cmdtype, Handler(commands, cmdtype))
  {
    var k := FirstMatch(commands, cmdtype);
    if k < |commands| {
      assert commands[k] == Command(cmdtype, commands[k].handler);
    }
  }

  /** Each executed message was handled by the commands enrolled at that time, none of which have gone since. */
  ghost predicate AllAnswered(tables: seq<seq<Command>>, handled: seq<Option<nat>>, executed: seq<Package>, table: seq<Command>) {
    && |tables| == |handled| == |executed|
    && forall i :: 0 <= i < |handled| ==> tables[i] <= table && Calls(tables[i], executed[i].cmdtype, handled[i])
  }

  lemma OneMoreAnswer(tables: seq<seq<Command>>, handled: seq<Option<nat>>, executed: seq<Package>, table: seq<Command>, p: Package)
    requires AllAnswered(tables, handled, executed, table)
    ensures AllAnswered(tables + [table], handled + [Handler(table, p.cmdtype)], executed + [p], table)
  {
    HandlerCalls(table, p.cmdtype);
    hide Calls, Handler;
  }

  lemma OneMoreCommand(tables: seq<seq<Command>>, handled: seq<Option<nat>>, executed: seq<Package>, table: seq<Command>, more: seq<Command>)
    requires AllAnswered(tables, handled, executed, table) && table <= more
    ensures AllAnswered(tables, handled, executed, more)
  {
    hide Calls;
  }

  lemma {:induction false} NextOfAt<A>(head: A, queue: seq<A>, k: nat)
    requires k < |queue| && Distinct(queue) && head !in queue
    ensures NextOf(head, queue, queue[k]) == if k + 1 < |queue| then queue[k + 1] else head
  {
    assert queue[k] in queue;
    if k != 0 {
      assert queue[1..][k - 1] == queue[k];
      NextOfAt(head, queue[1..], k - 1);
    }
  }

  /** On a ring, reading `next` is what NextOf says. */
  lemma RingNext(head: Node, queue: seq<Node>, x: Node)
    requires IsList(head, queue) && (x == head || x in queue)
    ensures x.next == NextOf(head, queue, x) && Distinct(queue) && head !in queue
  {
    ListEntries(head, queue);
    if x != head {
      var k :| 0 <= k < |queue| && queue[k] == x;
      NextOfAt(head, queue, k);
      assert queue[k].next == if k + 1 < |queue| then queue[k + 1] else head;
    }
  }

  /** The enrolled commands, in the order in which they are looked up. */
  ghost function TableOf(commands: map<Node, Command>, enrolled: seq<Node>): (t: seq<Command>)
    requires forall x :: x in enrolled ==> x in commands
    ensures |t| == |enrolled| && forall i :: 0 <= i < |t| ==> t[i] == commands[enrolled[i]]
  {
    seq(|enrolled|, i requires 0 <= i < |enrolled| && enrolled[i] in commands => commands[enrolled[i]])
  }

  class CommandQueue {
    const headCmd: Node
    const headMsg: Node
    /** list_entry: the structure around each list node that is allocated. */
    var commands: map<Node, Command>
    var memory: map<Node, Package>
    var phase: Phase
    var pos: Node
    var n: Node
    ghost var enrolled: seq<Node>
    ghost var queue: seq<Node>
    ghost var pushed: seq<Package>
    ghost var executed: seq<Package>
    ghost var handled: seq<Option<nat>>
    ghost var tables: seq<seq<Command>>
    ghost var begun: nat
    ghost var sealed: nat

    ghost function Abs(): State<Node>
      reads this
    {
      State(headMsg, queue, memory, phase, pos, n, pushed, executed, begun, sealed)
    }

    ghost function Table(): (t: seq<Command>)
      requires forall x :: x in enrolled ==> x in commands
      reads this`commands, this`enrolled
      ensures |t| == |enrolled| && forall i :: 0 <= i < |t| ==> t[i] == commands[enrolled[i]]
    {
      TableOf(commands, enrolled)
    }

    ghost predicate Lists()
      reads this, headMsg, headCmd, queue, enrolled
    {
      && IsList(headMsg, queue) && IsList(headCmd, enrolled)
      && Apart(headMsg, queue, headCmd, enrolled)
      && (forall x :: x in enrolled ==> x in commands)
    }

    ghost predicate Valid()
      reads this, headMsg, headCmd, queue, enrolled
    {
      Lists() && Inv(Abs()) && AllAnswered(tables, handled, executed, Table())
    }

    constructor ()
      ensures Valid() && Abs() == Initial(headMsg) && Table() == [] && handled == []
      ensures fresh(headMsg) && fresh(headCmd)
    {
      headCmd := new Node();
      headMsg := new Node();
      commands, memory := map[], map[];
      phase := Waiting;
      pos, n := headMsg, headMsg;
      enrolled, queue, pushed, executed, handled, tables := [], [], [], [], [], [];
      begun, sealed := 0, 0;
      new;
      Init(headCmd);
      Init(headMsg);
    }

    /** msg_command_add: commands are looked up in the order they were added. */
    method CommandAdd(command: Command)
      requires Valid()
      modifies this, headCmd, Nodes(enrolled)
      ensures Valid() && Table() == old(Table()) + [command]
      ensures Abs() == old(Abs()) && handled == old(handled)
      ensures |enrolled| == |old(enrolled)| + 1 && enrolled[..|old(enrolled)|] == old(enrolled) && fresh(enrolled[|old(enrolled)|])
    {
      hide AllAnswered, Ring, Distinct, Inv;
      var cur := new Node();
      ghost var table := Table();
      ListAddTail(cur, headCmd, enrolled);
      commands := commands[cur := command];
      enrolled := enrolled + [cur];
      assert Table() == table + [command];
      OneMoreCommand(tables, handled, executed, table, Table());
    }

    /** csv_msg_execute: calls the first command enrolled for the type, or answers -1. */
    method Execute(cmdtype: int) returns (handler: Option<nat>)
      requires Lists()
      ensures handler == Handler(Table(), cmdtype)
    {
      hide Ring, Distinct;
      ListEntries(headCmd, enrolled);
      var cursor := headCmd.next;
      ghost var k := 0;
      while cursor != headCmd
        invariant 0 <= k <= |enrolled| && cursor == if k < |enrolled| then enrolled[k] else headCmd
        invariant forall j :: 0 <= j < k ==> Table()[j].cmdtype != cmdtype
        decreases |enrolled| - k
      {
        assert enrolled[k] == cursor && cursor in enrolled;
        if commands[cursor].cmdtype == cmdtype {
          assert Table()[k] == commands[cursor];
          return Some(commands[cursor].handler);
        }
        cursor := cursor.next;
        k := k + 1;
      }
      return None;
    }

    /**
     csv_msg_push: all but the link-in is local to the producer. Whether the message is as long
     as its header says is not looked at; what stands behind it is taken for the rest.
     */
    method Push(buf: Memory, len: nat) returns (ret: int)
      requires Valid()
      modifies this, headMsg, Nodes(queue)
      ensures Valid() && enrolled == old(enrolled) && commands == old(commands) && Table() == old(Table()) && handled == old(handled)
      ensures len < HEADER ==> ret == -1 && Abs() == old(Abs())
      ensures len >= HEADER ==> ret == 0 && |queue| == old(|queue|) + 1 && fresh(queue[old(|queue|)])
      ensures len >= HEADER ==> Abs() == PushStep(old(Abs()), queue[old(|queue|)], Parse(buf))
      ensures forall t, n, r :: len >= 12 && LittleEndian(buf, 0, t) && LittleEndian(buf, 4, n) && LittleEndian(buf, 8, r) ==>
        |pushed| == |old(pushed)| + 1 && pushed[..|old(pushed)|] == old(pushed) && IsMessage(pushed[|old(pushed)|], t, n, r, buf)
    {
      hide AllAnswered, Ring, Distinct, Inv, Parse, LittleEndian, IsMessage;
      if len < HEADER {
        return -1;
      }
      ghost var table := Table();
      var cur := new Node();
      NotLive(cur);
      PushKeeps(Abs(), cur, Parse(buf));
      ListAddTail(cur, headMsg, queue);
      memory := memory[cur := Parse(buf)];
      queue := queue + [cur];
      pushed := pushed + [Parse(buf)];
      forall t, n, r | LittleEndian(buf, 0, t) && LittleEndian(buf, 4, n) && LittleEndian(buf, 8, r)
        ensures IsMessage(Parse(buf), t, n, r, buf)
      {
        MessageInBytes(buf, t, n, r);
      }
      assert Table() == table;
      return 0;
    }

    /**
     csv_msg_check: the rest of the message is received behind what is there; `received` is the
     answer of the socket, and `rest` what the memory holds after it. Any number of bytes but
     none is taken for all that were missing.
     */
    method Check(buf: Memory, len: nat, received: int, rest: Memory) returns (ret: int)
      requires Valid() && (forall i: nat :: i < len ==> rest(i) == buf(i))
      modifies this, headMsg, Nodes(queue)
      ensures Valid() && enrolled == old(enrolled) && commands == old(commands) && Table() == old(Table()) && handled == old(handled)
      ensures ret == if len < HEADER then -1
                     else if Missing(buf, len) <= 0 then 0
                     else if received < 0 then -1 else if received == 0 then -2 else 0
      ensures ret != 0 ==> Abs() == old(Abs())
      ensures ret == 0 ==> |queue| == old(|queue|) + 1 && fresh(queue[old(|queue|)])
      ensures ret == 0 ==>
        Abs() == PushStep(old(Abs()), queue[old(|queue|)], Parse(if Missing(buf, len) <= 0 then buf else rest))
    {
      hide AllAnswered, Ring, Distinct, Inv, Parse, Word;
      if len < HEADER {
        return -1;
      }
      if Missing(buf, len) <= 0 {
        ret := Push(buf, len);
        return;
      }
      if received < 0 {
        return -1;
      }
      if received == 0 {
        return -2;
      }
      ret := Push(rest, len);
    }

    lemma NotLive(x: Node)
      requires Valid() && x != headMsg && x !in queue
      ensures !Live(Abs(), x)
    {
    }

    /** What the consumer's next step may dereference, and where its message is. */
    lemma Positions()
      requires Valid()
      ensures phase == Started ==> pos == headMsg || pos in queue
      ensures phase == Running ==> pos in memory
      ensures phase == Done ==> pos in memory && queue != [] && pos == queue[0]
      ensures phase == Done ==> NextOf(headMsg, queue, pos) == (if |queue| > 1 then queue[1] else headMsg)
      ensures phase == Done ==> Unlink(queue, pos) == queue[1..] && Without(queue, 0) == queue[1..]
      ensures Safe(Abs())
    {
      InvIsSafe(Abs());
      if phase == Done {
        NextOfFront(headMsg, queue);
      }
    }

    /** for (pos = head->next, ...) */
    method ReadFirst()
      requires Valid() && phase == Waiting
      modifies this
      ensures Valid() && enrolled == old(enrolled) && commands == old(commands) && Table() == old(Table()) && handled == old(handled)
      ensures Safe(old(Abs())) && Abs() == ConsumeStep(old(Abs()))
    {
      hide AllAnswered, Ring, Distinct, Inv, NextOf;
      ghost var table := Table();
      Positions();
      ConsumeKeeps(Abs());
      RingNext(headMsg, queue, headMsg);
      pos := headMsg.next;
      begun := |pushed|;
      sealed := if pos == headMsg then |pushed| else sealed;
      phase := Started;
      assert Table() == table;
    }

    /** n = pos->next, read before the message at pos is executed and freed. */
    method ReadNext()
      requires Valid() && phase == Started
      modifies this
      ensures Valid() && enrolled == old(enrolled) && commands == old(commands) && Table() == old(Table()) && handled == old(handled)
      ensures Safe(old(Abs())) && Abs() == ConsumeStep(old(Abs()))
    {
      hide AllAnswered, Ring, Distinct, Inv, NextOf;
      ghost var table := Table();
      Positions();
      ConsumeKeeps(Abs());
      RingNext(headMsg, queue, pos);
      n := pos.next;
      sealed := if pos != headMsg && n == headMsg then |pushed| else sealed;
      phase := Testing;
      assert Table() == table;
    }

    /** csv_msg_execute, and free(pMP->payload). */
    method ExecuteFront()
      requires Valid() && phase == Running
      modifies this
      ensures Valid() && enrolled == old(enrolled) && commands == old(commands) && Table() == old(Table())
      ensures Safe(old(Abs())) && Abs() == ConsumeStep(old(Abs()))
      ensures handled == old(handled) + [Handler(Table(), old(memory)[old(pos)].cmdtype)]
    {
      hide AllAnswered, Ring, Distinct, Inv, NextOf, Handler;
      Positions();
      ConsumeKeeps(Abs());
      ghost var table := Table();
      var package := memory[pos];
      var handler := Execute(package.cmdtype);
      OneMoreAnswer(tables, handled, executed, table, package);
      tables := tables + [table];
      handled := handled + [handler];
      executed := executed + [package];
      memory := memory[pos := package.(payload := None)];
      phase := Done;
      assert Table() == table;
    }

    /** list_del and free. */
    method DeleteFront()
      requires Valid() && phase == Done
      modifies this, headMsg, Nodes(queue)
      ensures Valid() && enrolled == old(enrolled) && commands == old(commands) && Table() == old(Table()) && handled == old(handled)
      ensures Safe(old(Abs())) && Abs() == ConsumeStep(old(Abs()))
    {
      hide CommandQueue.Table, AllAnswered, Ring, Distinct, Inv, NextOf, Unlink;
      ghost var table := Table();
      Positions();
      ConsumeKeeps(Abs());
      ListDel(pos, headMsg, queue, 0);
      memory := memory - {pos};
      queue := queue[1..];
      phase := Gone;
      assert Table() == table;
    }

    /** The comparison with the head that ends the loop, and pos = n. */
    method TestOrAdvance()
      requires Valid() && (phase == Testing || phase == Gone)
      modifies this
      ensures Valid() && enrolled == old(enrolled) && commands == old(commands) && Table() == old(Table()) && handled == old(handled)
      ensures Safe(old(Abs())) && Abs() == ConsumeStep(old(Abs()))
    {
      hide AllAnswered, Ring, Distinct, Inv, NextOf;
      ghost var table := Table();
      Positions();
      ConsumeKeeps(Abs());
      if phase == Testing {
        phase := if pos == headMsg then Waiting else Running;
      } else {
        pos := n;
        phase := Started;
      }
      assert Table() == table;
    }

    /** One atomic step of csv_msg_loop. */
    method Consume()
      requires Valid()
      modifies this, headMsg, Nodes(queue)
      ensures Valid() && enrolled == old(enrolled) && commands == old(commands) && Table() == old(Table())
      ensures Safe(old(Abs())) && Abs() == ConsumeStep(old(Abs()))
      ensures old(phase) == Running ==>
        handled == old(handled) + [Handler(Table(), old(memory)[old(pos)].cmdtype)]
      ensures old(phase) != Running ==> handled == old(handled)
    {
      hide AllAnswered, Ring, Distinct, Inv, NextOf, Handler, ConsumeStep, Valid;
      match phase {
        case Waiting => ReadFirst();
        case Started => ReadNext();
        case Running => ExecuteFront();
        case Done => DeleteFront();
        case _ => TestOrAdvance();
      }
    }
  }

  /** Twelve bytes: command 5, no payload, result 7. */
  const TWELVE: seq<byte> := [5, 0, 0, 0, 0, 0, 0, 0, 7, 0, 0, 0]

  lemma TwelveBytes(buf: Memory)
    requires forall i: nat :: i < 12 ==> buf(i) == TWELVE[i]
    ensures LittleEndian(buf, 0, 5) && LittleEndian(buf, 4, 0) && LittleEndian(buf, 8, 7)
  {
    assert buf(0) == TWELVE[0] && buf(1) == TWELVE[1] && buf(2) == TWELVE[2] && buf(3) == TWELVE[3];
    assert buf(4) == TWELVE[4] && buf(5) == TWELVE[5] && buf(6) == TWELVE[6] && buf(7) == TWELVE[7];
    assert buf(8) == TWELVE[8] && buf(9) == TWELVE[9] && buf(10) == TWELVE[10] && buf(11) == TWELVE[11];
  }

  /** Among handlers for the commands 7 and 5, the one for 5 is called for them. */
  method Deliver(buf: Memory, seven: nat, five: nat) returns (q: CommandQueue)
    requires forall i: nat :: i < 12 ==> buf(i) == TWELVE[i]
    ensures q.Valid() && q.handled == [Some(five)] && q.executed == [Package(5, 0, 7, None)]
  {
    hide CommandQueue.Valid, CommandQueue.Table, Ring, Distinct, Inv, Parse, LittleEndian, AllAnswered;
    TwelveBytes(buf);
    q := new CommandQueue();
    q.CommandAdd(Command(7, seven));
    q.CommandAdd(Command(5, five));
    var ret := q.Push(buf, 12);
    assert q.memory[q.queue[0]] == q.pushed[0] == Package(5, 0, 7, None);
    q.Consume();
    q.Consume();
    q.Consume();
    assert q.phase == Running && q.pos == q.queue[0];
    q.Consume();
  }
}
