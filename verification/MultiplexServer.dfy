/**
 The server that serves up to 30 clients at once from one table of descriptors and one table of running sums.
 What it does to the outside is a trace of actions; each read delivers one number, and the end of a
 client's input reads as zero.
 */
module MultiplexServer {
  import BasicServer

  const MAX_CLIENT_SUPPORTED := 32
  const FREE := -1
  const CONSOLE := 0

  datatype Action =
    | Accepted(fd: int)
    | ConsoleRead
    | Received(fd: int, data: int)
    | Replied(fd: int, value: int)
    | Closed(fd: int)

  // One pass of the event loop: the descriptors that select reports, what accept would return, and what a read
  // from each descriptor would deliver.
  datatype Round = Round(ready: set<int>, accepted: int, input: int -> int)

  datatype State = State(slots: seq<int>, results: seq<int>, connection: int, openFds: set<int>, trace: seq<Action>) {
    ghost predicate Shaped() {
      |slots| == |results| == MAX_CLIENT_SUPPORTED
    }

    ghost function Watched(): set<int> {
      set fd | fd in slots && fd != FREE
    }
  }

  // ---------- The steps ----------

  // The first slot from i on that holds a descriptor, or the number of slots.
  function FirstSlot(slots: seq<int>, fd: int, i: nat): (k: nat)
    requires i <= |slots|
    ensures i <= k <= |slots| && (k < |slots| ==> slots[k] == fd) && forall j :: i <= j < k ==> slots[j] != fd
    decreases |slots| - i
  {
    if i == |slots| || slots[i] == fd then i else FirstSlot(slots, fd, i + 1)
  }

  // The table with the first slot that holds one descriptor holding another.
  function Exchanged(slots: seq<int>, fd: int, other: int): (after: seq<int>)
    ensures |after| == |slots|
  {
    var k := FirstSlot(slots, fd, 0);
    if k < |slots| then slots[k := other] else slots
  }

  ghost function AfterAccept(s: State, fd: int): State {
    s.(slots := Exchanged(s.slots, FREE, fd), openFds := s.openFds + {fd}, trace := s.trace + [Accepted(fd)])
  }

  ghost function AfterData(s: State, i: nat, data: int): State
    requires s.Shaped() && i < MAX_CLIENT_SUPPORTED
  {
    var fd := s.slots[i];
    if data == 0 then
      s.(slots := Exchanged(s.slots, fd, FREE), results := s.results[i := 0], openFds := s.openFds - {fd},
         trace := s.trace + [Received(fd, 0), Replied(fd, s.results[i]), Closed(fd)])
    else
      s.(results := s.results[i := s.results[i] + data], trace := s.trace + [Received(fd, data)])
  }

  ghost function AfterSlot(s: State, round: Round, i: nat): State
    requires s.Shaped() && i < MAX_CLIENT_SUPPORTED
  {
    if s.slots[i] != FREE && s.slots[i] in round.ready then AfterData(s, i, round.input(s.slots[i])) else s
  }

  ghost function AfterSlots(s: State, round: Round, n: nat): (after: State)
    requires s.Shaped() && n <= MAX_CLIENT_SUPPORTED
    ensures after.Shaped()
  {
    if n == 0 then s else AfterSlot(AfterSlots(s, round, n - 1), round, n - 1)
  }

  ghost function AfterRound(s: State, round: Round): (after: State)
    requires s.Shaped()
    ensures after.Shaped()
  {
    if s.connection in round.ready then AfterAccept(s, round.accepted)
    else if CONSOLE in round.ready then s.(trace := s.trace + [ConsoleRead])
    else AfterSlots(s, round, MAX_CLIENT_SUPPORTED)
  }

  ghost function AfterRounds(s: State, rounds: seq<Round>): (after: State)
    requires s.Shaped()
    ensures after.Shaped()
  {
    if rounds == [] then s else AfterRound(AfterRounds(s, rounds[..|rounds| - 1]), rounds[|rounds| - 1])
  }

  ghost function Initial(connection: int, openFds: set<int>): (s: State)
    ensures s.Shaped()
  {
    var empty := seq(MAX_CLIENT_SUPPORTED, _ => FREE);
    var slots := Exchanged(Exchanged(empty, FREE, CONSOLE), FREE, connection);
    State(slots, seq(MAX_CLIENT_SUPPORTED, _ => 0), connection, openFds, [])
  }

  // ---------- What the operating system promises ----------

  // select reports only watched descriptors, and accept returns a descriptor that is not open.
  ghost predicate Admissible(s: State, round: Round) {
    && round.ready <= s.Watched()
    && (s.connection in round.ready ==> round.accepted >= 0 && round.accepted !in s.openFds)
  }

  ghost predicate AdmissibleRun(s: State, rounds: seq<Round>)
    requires s.Shaped()
  {
    rounds == [] ||
    (var init := rounds[..|rounds| - 1];
     AdmissibleRun(s, init) && Admissible(AfterRounds(s, init), rounds[|rounds| - 1]))
  }

  ghost predicate Bootable(connection: int, openFds: set<int>) {
    connection > CONSOLE && {CONSOLE, connection} <= openFds
  }

  // ---------- The conversations in a trace ----------

  // A new client on a descriptor starts with no messages.
  function Heard(messages: seq<int>, action: Action, fd: int): seq<int> {
    if action == Accepted(fd) then []
    else if action.Received? && action.fd == fd then messages + [action.data]
    else messages
  }

  // What a client has sent since its descriptor was last accepted.
  function Messages(trace: seq<Action>, fd: int): seq<int> {
    if trace == [] then []
    else Heard(Messages(trace[..|trace| - 1], fd), trace[|trace| - 1], fd)
  }

  // The conversations that ended with a reply, and the replies, both in the order of the replies.
  function Conversations(trace: seq<Action>): seq<seq<int>> {
    if trace == [] then []
    else
      var init, last := trace[..|trace| - 1], trace[|trace| - 1];
      Conversations(init) + if last.Replied? then [Messages(init, last.fd)] else []
  }

  function Replies(trace: seq<Action>): seq<int> {
    if trace == [] then []
    else
      var init, last := trace[..|trace| - 1], trace[|trace| - 1];
      Replies(init) + if last.Replied? then [last.value] else []
  }

  predicate Asks(action: Action) {
    action.Received? && action.data == 0
  }

  ghost predicate AnsweredAt(trace: seq<Action>, i: int)
    requires 0 <= i < |trace|
  {
    && (Asks(trace[i]) <==> i + 1 < |trace| && trace[i + 1].Replied?)
    && (Asks(trace[i]) ==> trace[i + 1].fd == trace[i].fd)
  }

  // Each zero that a client sends is answered at once, and nothing else is.
  ghost predicate ZerosAreAnswered(trace: seq<Action>) {
    (trace != [] ==> !trace[0].Replied?) && forall i :: 0 <= i < |trace| ==> AnsweredAt(trace, i)
  }

  // The replies are those of the server that serves one client at a time, given the same conversations.
  ghost predicate RepliesLikeBasicServer(trace: seq<Action>) {
    && (forall k :: 0 <= k < |Conversations(trace)| ==> BasicServer.Complete(Conversations(trace)[k]))
    && Replies(trace) == BasicServer.Replies(Conversations(trace))
  }

  // ---------- The invariant ----------

  ghost predicate LiveSlotsDiffer(slots: seq<int>) {
    forall j, k :: 0 <= j < k < |slots| && slots[j] != FREE ==> slots[j] != slots[k]
  }

  // A client's slot holds the sum of what the client has sent, none of it zero; a free slot holds zero.
  ghost predicate SlotIsRight(s: State, i: int)
    requires s.Shaped() && 0 <= i < MAX_CLIENT_SUPPORTED
  {
    if s.slots[i] == FREE then s.results[i] == 0
    else
      && s.slots[i] >= 0 && s.slots[i] in s.openFds
      && 0 !in Messages(s.trace, s.slots[i])
      && s.results[i] == BasicServer.Sum(Messages(s.trace, s.slots[i]))
  }

  ghost predicate Inv(s: State) {
    && s.Shaped()
    && s.slots[0] == CONSOLE && s.slots[1] == s.connection > CONSOLE
    && LiveSlotsDiffer(s.slots)
    && (forall i :: 0 <= i < MAX_CLIENT_SUPPORTED ==> SlotIsRight(s, i))
    && GoodTrace(s.trace)
  }

  // ---------- The invariant is kept ----------

  lemma MessagesOfExtended(trace: seq<Action>, action: Action, fd: int)
    ensures Messages(trace + [action], fd) == Heard(Messages(trace, fd), action, fd)
  {
    assert (trace + [action])[..|trace|] == trace;
  }

  lemma RepliesOfExtended(trace: seq<Action>, action: Action)
    ensures Conversations(trace + [action]) ==
            Conversations(trace) + if action.Replied? then [Messages(trace, action.fd)] else []
    ensures Replies(trace + [action]) == Replies(trace) + if action.Replied? then [action.value] else []
  {
    assert (trace + [action])[..|trace|] == trace;
  }

  lemma FirstSlotIsOnly(slots: seq<int>, fd: int, i: nat)
    requires i < |slots| && slots[i] == fd != FREE && LiveSlotsDiffer(slots)
    ensures Exchanged(slots, fd, FREE) == slots[i := FREE]
  {
  }

  // What the trace of every run satisfies.
  ghost predicate GoodTrace(trace: seq<Action>) {
    ZerosAreAnswered(trace) && RepliesLikeBasicServer(trace)
  }

  // An action that neither asks nor replies leaves the replies as they are.
  lemma QuietActionKeepsTrace(trace: seq<Action>, action: Action)
    requires GoodTrace(trace) && !action.Replied? && !Asks(action)
    ensures GoodTrace(trace + [action])
  {
    RepliesOfExtended(trace, action);
    forall i | 0 <= i < |trace|
      ensures AnsweredAt(trace + [action], i)
    {
      assert AnsweredAt(trace, i);
    }
  }

  lemma BasicRepliesOfExtended(clients: seq<seq<int>>, messages: seq<int>)
    ensures BasicServer.Replies(clients + [messages]) == BasicServer.Replies(clients) + [BasicServer.Sum(messages)]
  {
  }

  // A reply is right when it is the sum of what was sent, and the last number sent was the only zero.
  lemma ReplyIsLikeBasicServer(trace: seq<Action>, fd: int, value: int)
    requires RepliesLikeBasicServer(trace)
    requires BasicServer.Complete(Messages(trace, fd)) && value == BasicServer.Sum(Messages(trace, fd))
    ensures RepliesLikeBasicServer(trace + [Replied(fd, value)])
  {
    RepliesOfExtended(trace, Replied(fd, value));
    BasicRepliesOfExtended(Conversations(trace), Messages(trace, fd));
  }

  lemma SilentActionKeepsReplies(trace: seq<Action>, action: Action)
    requires RepliesLikeBasicServer(trace) && !action.Replied?
    ensures RepliesLikeBasicServer(trace + [action])
  {
    RepliesOfExtended(trace, action);
  }

  // A zero, its reply and the close: the reply is right when it is the sum of what was sent before.
  lemma ReplyKeepsTrace(trace: seq<Action>, fd: int, value: int)
    requires GoodTrace(trace)
    requires 0 !in Messages(trace, fd) && value == BasicServer.Sum(Messages(trace, fd))
    ensures GoodTrace(trace + [Received(fd, 0), Replied(fd, value), Closed(fd)])
  {
    var asked := trace + [Received(fd, 0)];
    var replied := asked + [Replied(fd, value)];
    SilentActionKeepsReplies(trace, Received(fd, 0));
    MessagesOfExtended(trace, Received(fd, 0), fd);
    assert Messages(asked, fd)[..|Messages(asked, fd)| - 1] == Messages(trace, fd);
    ReplyIsLikeBasicServer(asked, fd, value);
    SilentActionKeepsReplies(replied, Closed(fd));
    assert trace + [Received(fd, 0), Replied(fd, value), Closed(fd)] == replied + [Closed(fd)];
    ExchangeKeepsAnswers(trace, fd, value);
  }

  lemma ExchangeKeepsAnswers(trace: seq<Action>, fd: int, value: int)
    requires ZerosAreAnswered(trace)
    ensures ZerosAreAnswered(trace + [Received(fd, 0), Replied(fd, value), Closed(fd)])
  {
    var after := trace + [Received(fd, 0), Replied(fd, value), Closed(fd)];
    forall i | 0 <= i < |after|
      ensures AnsweredAt(after, i)
    {
      if i < |trace| {
        assert AnsweredAt(trace, i);
      }
    }
  }

  lemma AcceptKeepsInv(s: State, fd: int)
    requires Inv(s) && fd >= 0 && fd !in s.openFds
    ensures Inv(AfterAccept(s, fd))
  {
    var after := AfterAccept(s, fd);
    QuietActionKeepsTrace(s.trace, Accepted(fd));
    forall i | 0 <= i < MAX_CLIENT_SUPPORTED
      ensures SlotIsRight(after, i)
    {
      assert SlotIsRight(s, i);
      MessagesOfExtended(s.trace, Accepted(fd), after.slots[i]);
    }
    forall j, k | 0 <= j < k < MAX_CLIENT_SUPPORTED && after.slots[j] != FREE
      ensures after.slots[j] != after.slots[k]
    {
      assert SlotIsRight(s, j) && SlotIsRight(s, k);
    }
    assert LiveSlotsDiffer(after.slots);
  }

  lemma NumberKeepsInv(s: State, i: nat, data: int)
    requires Inv(s) && 1 < i < MAX_CLIENT_SUPPORTED && s.slots[i] != FREE && data != 0
    ensures Inv(AfterData(s, i, data))
  {
    var after, action := AfterData(s, i, data), Received(s.slots[i], data);
    QuietActionKeepsTrace(s.trace, action);
    forall j | 0 <= j < MAX_CLIENT_SUPPORTED
      ensures SlotIsRight(after, j)
    {
      assert SlotIsRight(s, j);
      MessagesOfExtended(s.trace, action, s.slots[j]);
      SumOfExtended(Messages(s.trace, s.slots[j]), data);
    }
  }

  lemma SumOfExtended(numbers: seq<int>, n: int)
    ensures BasicServer.Sum(numbers + [n]) == BasicServer.Sum(numbers) + n
  {
    assert (numbers + [n])[..|numbers|] == numbers;
  }

  lemma ZeroKeepsInv(s: State, i: nat)
    requires Inv(s) && 1 < i < MAX_CLIENT_SUPPORTED && s.slots[i] != FREE
    ensures Inv(AfterData(s, i, 0))
  {
    var after, fd := AfterData(s, i, 0), s.slots[i];
    assert SlotIsRight(s, i);
    ReplyKeepsTrace(s.trace, fd, s.results[i]);
    FirstSlotIsOnly(s.slots, fd, i);
    forall j | 0 <= j < MAX_CLIENT_SUPPORTED
      ensures SlotIsRight(after, j)
    {
      assert SlotIsRight(s, j);
      var asked := s.trace + [Received(fd, 0)];
      var replied := asked + [Replied(fd, s.results[i])];
      MessagesOfExtended(s.trace, Received(fd, 0), s.slots[j]);
      MessagesOfExtended(asked, Replied(fd, s.results[i]), s.slots[j]);
      MessagesOfExtended(replied, Closed(fd), s.slots[j]);
      assert after.trace == replied + [Closed(fd)];
    }
  }

  lemma SlotKeepsInv(s: State, round: Round, i: nat)
    requires Inv(s) && i < MAX_CLIENT_SUPPORTED
    requires CONSOLE !in round.ready && s.connection !in round.ready
    ensures Inv(AfterSlot(s, round, i))
  {
    if s.slots[i] != FREE && s.slots[i] in round.ready {
      if round.input(s.slots[i]) == 0 {
        ZeroKeepsInv(s, i);
      } else {
        NumberKeepsInv(s, i, round.input(s.slots[i]));
      }
    }
  }

  lemma {:induction false} SlotsKeepInv(s: State, round: Round, n: nat)
    requires Inv(s) && n <= MAX_CLIENT_SUPPORTED
    requires CONSOLE !in round.ready && s.connection !in round.ready
    ensures Inv(AfterSlots(s, round, n)) && AfterSlots(s, round, n).connection == s.connection
    decreases n
  {
    if n > 0 {
      SlotsKeepInv(s, round, n - 1);
      SlotKeepsInv(AfterSlots(s, round, n - 1), round, n - 1);
    }
  }

  // One pass of the event loop keeps the invariant.
  lemma RoundKeepsInv(s: State, round: Round)
    requires Inv(s) && Admissible(s, round)
    ensures Inv(AfterRound(s, round))
  {
    if s.connection in round.ready {
      AcceptKeepsInv(s, round.accepted);
    } else if CONSOLE in round.ready {
      ConsoleKeepsInv(s);
    } else {
      SlotsKeepInv(s, round, MAX_CLIENT_SUPPORTED);
    }
  }

  lemma ConsoleKeepsInv(s: State)
    requires Inv(s)
    ensures Inv(s.(trace := s.trace + [ConsoleRead]))
  {
    var after := s.(trace := s.trace + [ConsoleRead]);
    QuietActionKeepsTrace(s.trace, ConsoleRead);
    forall i | 0 <= i < MAX_CLIENT_SUPPORTED
      ensures SlotIsRight(after, i)
    {
      assert SlotIsRight(s, i);
      MessagesOfExtended(s.trace, ConsoleRead, s.slots[i]);
    }
  }

  lemma InitialInv(connection: int, openFds: set<int>)
    requires Bootable(connection, openFds)
    ensures Inv(Initial(connection, openFds))
  {
    var empty := seq(MAX_CLIENT_SUPPORTED, _ => FREE);
    assert FirstSlot(empty, FREE, 0) == 0;
    var one := empty[0 := CONSOLE];
    assert FirstSlot(one, FREE, 0) == 1;
    var s := Initial(connection, openFds);
    forall i | 0 <= i < MAX_CLIENT_SUPPORTED
      ensures SlotIsRight(s, i)
    {
    }
  }

  // ---------- Every run ----------

  lemma {:induction false} RunKeepsInv(connection: int, openFds: set<int>, rounds: seq<Round>)
    requires Bootable(connection, openFds) && AdmissibleRun(Initial(connection, openFds), rounds)
    ensures Inv(AfterRounds(Initial(connection, openFds), rounds))
  {
    InitialInv(connection, openFds);
    if rounds != [] {
      var init := rounds[..|rounds| - 1];
      RunKeepsInv(connection, openFds, init);
      RoundKeepsInv(AfterRounds(Initial(connection, openFds), init), rounds[|rounds| - 1]);
    }
  }

  /**
   In every run, under every interleaving of new clients, console input and data, the replies are those that the
   server for one client at a time gives on the same conversations, and each zero receives its reply at once.
   */
  lemma EveryRunRepliesLikeBasicServer(connection: int, openFds: set<int>, rounds: seq<Round>)
    requires Bootable(connection, openFds) && AdmissibleRun(Initial(connection, openFds), rounds)
    ensures RepliesLikeBasicServer(AfterRounds(Initial(connection, openFds), rounds).trace)
    ensures ZerosAreAnswered(AfterRounds(Initial(connection, openFds), rounds).trace)
  {
    RunKeepsInv(connection, openFds, rounds);
  }

  // In every run the descriptors watched differ from slot to slot, and a free slot holds the sum zero.
  lemma EveryRunKeepsTables(connection: int, openFds: set<int>, rounds: seq<Round>)
    requires Bootable(connection, openFds) && AdmissibleRun(Initial(connection, openFds), rounds)
    ensures var s := AfterRounds(Initial(connection, openFds), rounds);
            && |s.slots| == |s.results| == 32 && LiveSlotsDiffer(s.slots)
            && {CONSOLE, connection} <= s.Watched() <= s.openFds
            && forall i :: 0 <= i < 32 && s.slots[i] == FREE ==> s.results[i] == 0
  {
    RunKeepsInv(connection, openFds, rounds);
    RunKeepsConnection(Initial(connection, openFds), rounds);
    TablesOfInv(AfterRounds(Initial(connection, openFds), rounds));
  }

  lemma TablesOfInv(s: State)
    requires Inv(s)
    ensures {CONSOLE, s.connection} <= s.Watched() <= s.openFds
    ensures forall i :: 0 <= i < MAX_CLIENT_SUPPORTED && s.slots[i] == FREE ==> s.results[i] == 0
  {
    assert s.slots[0] in s.slots && s.slots[1] in s.slots;
    forall fd | fd in s.Watched()
      ensures fd in s.openFds
    {
      var i :| 0 <= i < MAX_CLIENT_SUPPORTED && s.slots[i] == fd;
      assert SlotIsRight(s, i);
    }
    forall i | 0 <= i < MAX_CLIENT_SUPPORTED && s.slots[i] == FREE
      ensures s.results[i] == 0
    {
      assert SlotIsRight(s, i);
    }
  }

  lemma {:induction false} SlotsKeepConnection(s: State, round: Round, n: nat)
    requires s.Shaped() && n <= MAX_CLIENT_SUPPORTED
    ensures AfterSlots(s, round, n).connection == s.connection
  {
    if n > 0 {
      SlotsKeepConnection(s, round, n - 1);
    }
  }

  lemma {:induction false} RunKeepsConnection(s: State, rounds: seq<Round>)
    requires s.Shaped()
    ensures AfterRounds(s, rounds).connection == s.connection
  {
    if rounds != [] {
      RunKeepsConnection(s, rounds[..|rounds| - 1]);
      SlotsKeepConnection(AfterRounds(s, rounds[..|rounds| - 1]), rounds[|rounds| - 1], MAX_CLIENT_SUPPORTED);
    }
  }

  // ---------- Clients do not disturb each other ----------

  // What a data round does for the client in one slot, said without the other slots.
  ghost predicate Served(s: State, after: State, round: Round, i: nat, reached: bool)
    requires s.Shaped() && after.Shaped() && i < MAX_CLIENT_SUPPORTED
  {
    var fd := s.slots[i];
    if fd == FREE then after.slots[i] == FREE && after.results[i] == s.results[i]
    else if fd in round.ready && reached then
      var data := round.input(fd);
      && Messages(after.trace, fd) == Messages(s.trace, fd) + [data]
      && after.slots[i] == (if data == 0 then FREE else fd)
      && after.results[i] == (if data == 0 then 0 else s.results[i] + data)
    else
      && Messages(after.trace, fd) == Messages(s.trace, fd)
      && after.slots[i] == fd && after.results[i] == s.results[i]
  }

  // Serving one slot changes nothing for the others.
  lemma OtherSlotUntouched(s: State, round: Round, n: nat, i: nat)
    requires Inv(s) && n < MAX_CLIENT_SUPPORTED && i < MAX_CLIENT_SUPPORTED && n != i
    ensures AfterSlot(s, round, n).slots[i] == s.slots[i] && AfterSlot(s, round, n).results[i] == s.results[i]
    ensures forall fd :: fd != s.slots[n] ==> Messages(AfterSlot(s, round, n).trace, fd) == Messages(s.trace, fd)
  {
    var fd := s.slots[n];
    if fd != FREE && fd in round.ready {
      FirstSlotIsOnly(s.slots, fd, n);
      forall other | other != fd
        ensures Messages(AfterSlot(s, round, n).trace, other) == Messages(s.trace, other)
      {
        MessagesAfterData(s, n, round.input(fd), other);
      }
    }
  }

  lemma MessagesAfterData(s: State, i: nat, data: int, fd: int)
    requires s.Shaped() && i < MAX_CLIENT_SUPPORTED
    ensures Messages(AfterData(s, i, data).trace, fd) ==
            Messages(s.trace, fd) + if fd == s.slots[i] then [data] else []
  {
    var heard := s.trace + [Received(s.slots[i], data)];
    MessagesOfExtended(s.trace, Received(s.slots[i], data), fd);
    if data == 0 {
      var replied := heard + [Replied(s.slots[i], s.results[i])];
      MessagesOfExtended(heard, Replied(s.slots[i], s.results[i]), fd);
      MessagesOfExtended(replied, Closed(s.slots[i]), fd);
      assert AfterData(s, i, data).trace == replied + [Closed(s.slots[i])];
    }
  }

  lemma SlotServed(s: State, round: Round, i: nat)
    requires Inv(s) && i < MAX_CLIENT_SUPPORTED
    ensures Served(s, AfterSlot(s, round, i), round, i, true)
  {
    if s.slots[i] != FREE && s.slots[i] in round.ready {
      FirstSlotIsOnly(s.slots, s.slots[i], i);
      MessagesAfterData(s, i, round.input(s.slots[i]), s.slots[i]);
    }
  }

  lemma ServedNow(s: State, before: State, after: State, round: Round, i: nat)
    requires s.Shaped() && before.Shaped() && after.Shaped() && i < MAX_CLIENT_SUPPORTED
    requires Served(s, before, round, i, false) && Served(before, after, round, i, true)
    ensures Served(s, after, round, i, true)
  {
  }

  lemma ServedByOther(s: State, before: State, after: State, round: Round, i: nat, reached: bool, other: int)
    requires s.Shaped() && before.Shaped() && after.Shaped() && i < MAX_CLIENT_SUPPORTED
    requires Served(s, before, round, i, reached) && (s.slots[i] == FREE || other != s.slots[i])
    requires after.slots[i] == before.slots[i] && after.results[i] == before.results[i]
    requires forall fd :: fd != other ==> Messages(after.trace, fd) == Messages(before.trace, fd)
    ensures Served(s, after, round, i, reached)
  {
  }

  lemma SlotsDiffer(s: State, i: nat, j: nat)
    requires Inv(s) && i < MAX_CLIENT_SUPPORTED && j < MAX_CLIENT_SUPPORTED && i != j
    ensures s.slots[i] == FREE || s.slots[j] != s.slots[i]
  {
  }

  /**
   A data round reads exactly one number from every ready client, adds it to that client's sum and to no other,
   and leaves the clients that are not ready as they were.
   */
  lemma {:induction false} SlotsServe(s: State, round: Round, n: nat, i: nat)
    requires Inv(s) && n <= MAX_CLIENT_SUPPORTED && i < MAX_CLIENT_SUPPORTED
    requires CONSOLE !in round.ready && s.connection !in round.ready
    ensures Served(s, AfterSlots(s, round, n), round, i, i < n)
    decreases n
  {
    if n > 0 {
      var before, after := AfterSlots(s, round, n - 1), AfterSlots(s, round, n);
      SlotsServe(s, round, n - 1, i);
      SlotsKeepInv(s, round, n - 1);
      if i == n - 1 {
        SlotServed(before, round, i);
        ServedNow(s, before, after, round, i);
      } else {
        SlotsServe(s, round, n - 1, n - 1);
        OtherSlotUntouched(before, round, n - 1, i);
        SlotsDiffer(s, i, n - 1);
        ServedByOther(s, before, after, round, i, i < n, before.slots[n - 1]);
      }
    }
  }

  /** A new client starts a conversation of its own, and is watched exactly when there is a free slot for it. */
  lemma AcceptStartsConversation(s: State, fd: int)
    requires Inv(s) && fd >= 0 && fd !in s.openFds
    ensures var after := AfterAccept(s, fd);
            && Messages(after.trace, fd) == []
            && (forall other :: other != fd ==> Messages(after.trace, other) == Messages(s.trace, other))
            && after.Watched() == s.Watched() + (if FREE in s.slots then {fd} else {})
            && after.results == s.results
  {
    var after := AfterAccept(s, fd);
    MessagesOfExtended(s.trace, Accepted(fd), fd);
    forall other | other != fd
      ensures Messages(after.trace, other) == Messages(s.trace, other)
    {
      MessagesOfExtended(s.trace, Accepted(fd), other);
    }
    var k := FirstSlot(s.slots, FREE, 0);
    if k < MAX_CLIENT_SUPPORTED {
      assert after.slots == s.slots[k := fd] && after.slots[k] == fd;
      forall other | other in s.Watched()
        ensures other in after.Watched()
      {
        var i :| 0 <= i < MAX_CLIENT_SUPPORTED && s.slots[i] == other;
        assert after.slots[i] == other;
      }
    }
  }

  // ---------- What a pass of the event loop does ----------

  ghost predicate DataRound(connection: int, round: Round) {
    connection !in round.ready && CONSOLE !in round.ready
  }

  /** Without new client and console input, all slots are served: a number from every ready client, none from others. */
  lemma RoundServes(s: State, round: Round, i: nat)
    requires Inv(s) && Admissible(s, round) && DataRound(s.connection, round) && i < MAX_CLIENT_SUPPORTED
    ensures Served(s, AfterRound(s, round), round, i, true)
  {
    SlotsServe(s, round, MAX_CLIENT_SUPPORTED, i);
  }

  /** A new client comes first: it starts a conversation, is watched when a slot is free, and nobody else is heard. */
  lemma RoundAccepts(s: State, round: Round)
    requires Inv(s) && Admissible(s, round) && s.connection in round.ready
    ensures var after := AfterRound(s, round);
            && Messages(after.trace, round.accepted) == []
            && (forall other :: other != round.accepted ==> Messages(after.trace, other) == Messages(s.trace, other))
            && after.Watched() == s.Watched() + (if FREE in s.slots then {round.accepted} else {})
            && after.results == s.results && round.accepted in after.openFds
            && forall i :: 0 <= i < MAX_CLIENT_SUPPORTED && s.slots[i] != FREE ==> after.slots[i] == s.slots[i]
  {
    AcceptStartsConversation(s, round.accepted);
  }

  /** Console input comes next: nobody is heard, and the tables stay as they are. */
  lemma RoundReadsConsole(s: State, round: Round)
    requires Inv(s) && Admissible(s, round) && s.connection !in round.ready && CONSOLE in round.ready
    ensures var after := AfterRound(s, round);
            && after.slots == s.slots && after.results == s.results && after.openFds == s.openFds
            && after.trace == s.trace + [ConsoleRead]
            && forall fd :: Messages(after.trace, fd) == Messages(s.trace, fd)
  {
    forall fd
      ensures Messages(AfterRound(s, round).trace, fd) == Messages(s.trace, fd)
    {
      MessagesOfExtended(s.trace, ConsoleRead, fd);
    }
  }

  // ---------- What a client receives ----------

  // The replies written to a descriptor.
  function RepliesTo(trace: seq<Action>, fd: int): seq<int> {
    if trace == [] then []
    else
      var init, last := trace[..|trace| - 1], trace[|trace| - 1];
      RepliesTo(init, fd) + if last.Replied? && last.fd == fd then [last.value] else []
  }

  lemma RepliesToExtended(trace: seq<Action>, action: Action, fd: int)
    ensures RepliesTo(trace + [action], fd) ==
            RepliesTo(trace, fd) + if action.Replied? && action.fd == fd then [action.value] else []
  {
    assert (trace + [action])[..|trace|] == trace;
  }

  // What the passes deliver from a descriptor: a number in every data round in which it is ready.
  function Delivered(connection: int, fd: int, rounds: seq<Round>): seq<int> {
    if rounds == [] then []
    else
      var init, last := rounds[..|rounds| - 1], rounds[|rounds| - 1];
      Delivered(connection, fd, init)
      + if connection !in last.ready && CONSOLE !in last.ready && fd in last.ready then [last.input(fd)] else []
  }

  lemma RepliesAfterSlot(s: State, round: Round, i: nat, fd: int)
    requires s.Shaped() && i < MAX_CLIENT_SUPPORTED
    ensures RepliesTo(AfterSlot(s, round, i).trace, fd) ==
            RepliesTo(s.trace, fd)
            + if fd == s.slots[i] != FREE && fd in round.ready && round.input(fd) == 0 then [s.results[i]] else []
  {
    var other := s.slots[i];
    if other != FREE && other in round.ready {
      var heard := s.trace + [Received(other, round.input(other))];
      RepliesToExtended(s.trace, Received(other, round.input(other)), fd);
      if round.input(other) == 0 {
        var replied := heard + [Replied(other, s.results[i])];
        RepliesToExtended(heard, Replied(other, s.results[i]), fd);
        RepliesToExtended(replied, Closed(other), fd);
        assert AfterSlot(s, round, i).trace == replied + [Closed(other)];
      }
    }
  }

  lemma UnreachedSlot(s: State, round: Round, n: nat, j: nat)
    requires Inv(s) && n <= j < MAX_CLIENT_SUPPORTED && DataRound(s.connection, round)
    ensures AfterSlots(s, round, n).slots[j] == s.slots[j] && AfterSlots(s, round, n).results[j] == s.results[j]
  {
    SlotsServe(s, round, n, j);
  }

  ghost predicate Asking(round: Round, fd: int) {
    fd in round.ready && round.input(fd) == 0
  }

  lemma RepliesAfterOneMore(s: State, round: Round, n: nat, fd: int)
    requires Inv(s) && n < MAX_CLIENT_SUPPORTED && DataRound(s.connection, round) && fd != FREE
    ensures RepliesTo(AfterSlots(s, round, n + 1).trace, fd) ==
            RepliesTo(AfterSlots(s, round, n).trace, fd)
            + if fd == s.slots[n] && Asking(round, fd) then [s.results[n]] else []
  {
    UnreachedSlot(s, round, n, n);
    RepliesAfterSlot(AfterSlots(s, round, n), round, n, fd);
  }

  // A data round replies to the client of a slot exactly when it delivers a zero, and then with its sum so far.
  lemma {:induction false} RepliesAfterSlots(s: State, round: Round, n: nat, i: nat)
    requires Inv(s) && n <= MAX_CLIENT_SUPPORTED && i < MAX_CLIENT_SUPPORTED && s.slots[i] != FREE
    requires DataRound(s.connection, round)
    ensures RepliesTo(AfterSlots(s, round, n).trace, s.slots[i]) ==
            RepliesTo(s.trace, s.slots[i]) + if i < n && Asking(round, s.slots[i]) then [s.results[i]] else []
    decreases n
  {
    if n > 0 {
      RepliesAfterSlots(s, round, n - 1, i);
      RepliesAfterOneMore(s, round, n - 1, s.slots[i]);
      if i != n - 1 {
        SlotsDiffer(s, i, n - 1);
      }
    }
  }

  // A pass without a zero from a client: the client stays, its sum grows by what was delivered, and it has no reply.
  lemma PassKeepsClient(s: State, round: Round, i: nat)
    requires Inv(s) && Admissible(s, round) && i < MAX_CLIENT_SUPPORTED && s.slots[i] != FREE
    requires DataRound(s.connection, round) && s.slots[i] in round.ready ==> round.input(s.slots[i]) != 0
    ensures var after, fd := AfterRound(s, round), s.slots[i];
            && after.slots[i] == fd && RepliesTo(after.trace, fd) == RepliesTo(s.trace, fd)
            && after.results[i] == s.results[i] + BasicServer.Sum(Delivered(s.connection, fd, [round]))
  {
    var fd := s.slots[i];
    assert [round][..0] == [];
    BasicServer.SumOfAppended([], []);
    if s.connection in round.ready {
      RoundAccepts(s, round);
      RepliesToExtended(s.trace, Accepted(round.accepted), fd);
    } else if CONSOLE in round.ready {
      RepliesToExtended(s.trace, ConsoleRead, fd);
    } else {
      RoundServes(s, round, i);
      RepliesAfterSlots(s, round, MAX_CLIENT_SUPPORTED, i);
    }
  }

  // A pass with a zero: the client receives its sum, and its slot is free and empty.
  lemma PassRepliesToClient(s: State, round: Round, i: nat)
    requires Inv(s) && Admissible(s, round) && i < MAX_CLIENT_SUPPORTED && s.slots[i] != FREE
    requires DataRound(s.connection, round) && s.slots[i] in round.ready && round.input(s.slots[i]) == 0
    ensures var after, fd := AfterRound(s, round), s.slots[i];
            && RepliesTo(after.trace, fd) == RepliesTo(s.trace, fd) + [s.results[i]]
            && after.slots[i] == FREE && after.results[i] == 0 && fd !in after.Watched()
  {
    RoundServes(s, round, i);
    RepliesAfterSlots(s, round, MAX_CLIENT_SUPPORTED, i);
    forall j | 0 <= j < MAX_CLIENT_SUPPORTED
      ensures AfterRound(s, round).slots[j] != s.slots[i]
    {
      RoundServes(s, round, j);
    }
  }
  lemma {:induction false} DeliveredOfExtended(connection: int, fd: int, rounds: seq<Round>, round: Round)
    ensures Delivered(connection, fd, rounds + [round]) ==
            Delivered(connection, fd, rounds) + Delivered(connection, fd, [round])
  {
    assert (rounds + [round])[..|rounds|] == rounds && [round][..0] == [];
  }

  lemma InvOfRun(s: State, rounds: seq<Round>)
    requires Inv(s) && AdmissibleRun(s, rounds)
    ensures Inv(AfterRounds(s, rounds)) && AfterRounds(s, rounds).connection == s.connection
  {
    if rounds != [] {
      InvOfRun(s, rounds[..|rounds| - 1]);
      RoundKeepsInv(AfterRounds(s, rounds[..|rounds| - 1]), rounds[|rounds| - 1]);
    }
    RunKeepsConnection(s, rounds);
  }

  // Any number of passes that deliver no zero from a client: its sum grows by the sum of what they deliver.
  lemma {:induction false} PassesKeepClient(s: State, rounds: seq<Round>, i: nat)
    requires Inv(s) && AdmissibleRun(s, rounds) && i < MAX_CLIENT_SUPPORTED && s.slots[i] != FREE
    requires 0 !in Delivered(s.connection, s.slots[i], rounds)
    ensures var after, fd := AfterRounds(s, rounds), s.slots[i];
            && after.slots[i] == fd && RepliesTo(after.trace, fd) == RepliesTo(s.trace, fd)
            && after.results[i] == s.results[i] + BasicServer.Sum(Delivered(s.connection, fd, rounds))
    decreases |rounds|
  {
    if rounds != [] {
      var init, last, fd := rounds[..|rounds| - 1], rounds[|rounds| - 1], s.slots[i];
      assert rounds == init + [last];
      DeliveredOfExtended(s.connection, fd, init, last);
      PassesKeepClient(s, init, i);
      InvOfRun(s, init);
      DeliveredOne(s.connection, fd, last);
      PassKeepsClient(AfterRounds(s, init), last, i);
      BasicServer.SumOfAppended(Delivered(s.connection, fd, init), Delivered(s.connection, fd, [last]));
    }
  }

  lemma DeliveredOne(connection: int, fd: int, round: Round)
    ensures Delivered(connection, fd, [round]) ==
            if connection !in round.ready && CONSOLE !in round.ready && fd in round.ready then [round.input(fd)] else []
  {
    assert [round][..0] == [];
  }

  /**
   A client from its arrival to its reply, in the terms of the passes alone: it arrives in a pass in which a slot is
   free, then any passes deliver numbers from it that are not zero, between whatever else happens, and then one
   delivers a zero. In that pass the client receives the sum of the numbers, and before it nothing.
   */
  lemma ClientReceivesSum(s: State, arrival: Round, during: seq<Round>, last: Round)
    requires Inv(s) && FREE in s.slots && s.connection in arrival.ready
    requires AdmissibleRun(s, [arrival] + during + [last])
    requires 0 !in Delivered(s.connection, arrival.accepted, during)
    requires s.connection !in last.ready && CONSOLE !in last.ready
    requires arrival.accepted in last.ready && last.input(arrival.accepted) == 0
    ensures var fd := arrival.accepted;
            && RepliesTo(AfterRounds(s, [arrival] + during).trace, fd) == RepliesTo(s.trace, fd)
            && RepliesTo(AfterRounds(s, [arrival] + during + [last]).trace, fd)
               == RepliesTo(s.trace, fd) + [BasicServer.Sum(Delivered(s.connection, fd, during))]
            && fd !in AfterRounds(s, [arrival] + during + [last]).Watched()
  {
    var fd := arrival.accepted;
    RunSplits(s, [arrival] + during, [last]);
    RunSplits(s, [arrival], during);
    OnePass(s, arrival);
    var arrived := AfterRound(s, arrival);
    var i := ArrivalSlot(s, arrival);
    InvOfRun(arrived, during);
    PassesKeepClient(arrived, during, i);
    var before := AfterRounds(arrived, during);
    OnePass(before, last);
    PassRepliesToClient(before, last, i);
  }

  /** The same from the start of the server, for a client that arrives after any passes at all. */
  lemma EveryClientReceivesSum(connection: int, openFds: set<int>, before: seq<Round>, arrival: Round,
                               during: seq<Round>, last: Round)
    requires Bootable(connection, openFds)
    requires AdmissibleRun(Initial(connection, openFds), before + ([arrival] + during + [last]))
    requires FREE in AfterRounds(Initial(connection, openFds), before).slots && connection in arrival.ready
    requires 0 !in Delivered(connection, arrival.accepted, during)
    requires connection !in last.ready && CONSOLE !in last.ready
    requires arrival.accepted in last.ready && last.input(arrival.accepted) == 0
    ensures var s, fd := Initial(connection, openFds), arrival.accepted;
            RepliesTo(AfterRounds(s, before + ([arrival] + during + [last])).trace, fd)
            == RepliesTo(AfterRounds(s, before).trace, fd) + [BasicServer.Sum(Delivered(connection, fd, during))]
  {
    var start := Initial(connection, openFds);
    RunSplits(start, before, [arrival] + during + [last]);
    RunKeepsInv(connection, openFds, before);
    RunKeepsConnection(start, before);
    ClientReceivesSum(AfterRounds(start, before), arrival, during, last);
  }

  lemma OnePass(s: State, round: Round)
    requires s.Shaped() && AdmissibleRun(s, [round])
    ensures AfterRounds(s, [round]) == AfterRound(s, round) && Admissible(s, round)
  {
    assert [round][..0] == [];
  }

  // The first free slot: a new client begins there with the sum zero and without a reply.
  lemma ArrivalSlot(s: State, arrival: Round) returns (i: nat)
    requires Inv(s) && FREE in s.slots && s.connection in arrival.ready && Admissible(s, arrival)
    ensures Inv(AfterRound(s, arrival)) && AfterRound(s, arrival).connection == s.connection
    ensures i < MAX_CLIENT_SUPPORTED
    ensures var after := AfterRound(s, arrival);
            && after.slots[i] == arrival.accepted != FREE && after.results[i] == 0
            && RepliesTo(after.trace, arrival.accepted) == RepliesTo(s.trace, arrival.accepted)
  {
    i := FirstSlot(s.slots, FREE, 0);
    assert SlotIsRight(s, i);
    RoundKeepsInv(s, arrival);
    RepliesToExtended(s.trace, Accepted(arrival.accepted), arrival.accepted);
  }

  // A run in two parts.
  lemma {:induction false} RunSplits(s: State, first: seq<Round>, second: seq<Round>)
    requires s.Shaped() && AdmissibleRun(s, first + second)
    ensures AdmissibleRun(s, first) && AdmissibleRun(AfterRounds(s, first), second)
    ensures AfterRounds(s, first + second) == AfterRounds(AfterRounds(s, first), second)
    decreases |second|
  {
    if second == [] {
      assert first + second == first;
    } else {
      var init, last := second[..|second| - 1], second[|second| - 1];
      assert (first + second)[..|first + second| - 1] == first + init;
      RunSplits(s, first, init);
    }
  }

  // ---------- The server in place ----------

  class Server {
    const monitorFdSet: array<int>
    const clientResult: array<int>
    const connectionSocket: int
    ghost var openFds: set<int>
    ghost var trace: seq<Action>

    ghost predicate Shaped()
      reads this
    {
      monitorFdSet.Length == clientResult.Length == MAX_CLIENT_SUPPORTED && monitorFdSet != clientResult
    }

    ghost function Snapshot(): (s: State)
      requires Shaped()
      reads this, monitorFdSet, clientResult
      ensures s.Shaped()
    {
      State(monitorFdSet[..], clientResult[..], connectionSocket, openFds, trace)
    }

    ghost predicate Valid()
      reads this, monitorFdSet, clientResult
    {
      Shaped() && Inv(Snapshot())
    }

    constructor (connectionSocket: int, ghost openFds: set<int>)
      requires Bootable(connectionSocket, openFds)
      ensures Valid() && fresh(monitorFdSet) && fresh(clientResult)
      ensures Snapshot() == Initial(connectionSocket, openFds)
    {
      monitorFdSet := new int[MAX_CLIENT_SUPPORTED];
      clientResult := new int[MAX_CLIENT_SUPPORTED](_ => 0);
      this.connectionSocket := connectionSocket;
      this.openFds := openFds;
      trace := [];
      new;
      InitMonitorFdSet();
      AddMonitorFdSet(CONSOLE);
      AddMonitorFdSet(connectionSocket);
      assert clientResult[..] == Initial(connectionSocket, openFds).results;
      InitialInv(connectionSocket, openFds);
    }

    method InitMonitorFdSet()
      requires Shaped()
      modifies monitorFdSet
      ensures monitorFdSet[..] == seq(MAX_CLIENT_SUPPORTED, _ => FREE)
    {
      for i := 0 to MAX_CLIENT_SUPPORTED
        invariant forall j :: 0 <= j < i ==> monitorFdSet[j] == FREE
      {
        monitorFdSet[i] := FREE;
      }
    }

    method AddMonitorFdSet(socketFd: int)
      requires Shaped()
      modifies monitorFdSet
      ensures monitorFdSet[..] == Exchanged(old(monitorFdSet[..]), FREE, socketFd)
    {
      for i := 0 to MAX_CLIENT_SUPPORTED
        invariant monitorFdSet[..] == old(monitorFdSet[..])
        invariant FirstSlot(monitorFdSet[..], FREE, i) == FirstSlot(monitorFdSet[..], FREE, 0)
      {
        if monitorFdSet[i] != FREE {
          continue;
        }
        monitorFdSet[i] := socketFd;
        return;
      }
    }

    method RemoveMonitorFdSet(socketFd: int)
      requires Shaped()
      modifies monitorFdSet
      ensures monitorFdSet[..] == Exchanged(old(monitorFdSet[..]), socketFd, FREE)
    {
      for i := 0 to MAX_CLIENT_SUPPORTED
        invariant monitorFdSet[..] == old(monitorFdSet[..])
        invariant FirstSlot(monitorFdSet[..], socketFd, i) == FirstSlot(monitorFdSet[..], socketFd, 0)
      {
        if monitorFdSet[i] != socketFd {
          continue;
        }
        monitorFdSet[i] := FREE;
        return;
      }
    }

    // The set given to select is exactly the live slots.
    method RefreshFdSet() returns (readfds: set<int>)
      requires Shaped()
      ensures readfds == Snapshot().Watched()
    {
      readfds := {};
      for i := 0 to MAX_CLIENT_SUPPORTED
        invariant forall fd :: fd in readfds <==> fd in monitorFdSet[..i] && fd != FREE
      {
        if monitorFdSet[i] != FREE {
          readfds := readfds + {monitorFdSet[i]};
        }
        assert monitorFdSet[..i + 1] == monitorFdSet[..i] + [monitorFdSet[i]];
      }
      ghost var s := Snapshot();
      assert s.slots == monitorFdSet[..MAX_CLIENT_SUPPORTED];
      assert forall fd :: fd in readfds <==> fd in s.Watched();
    }

    // The range given to select covers every live slot, and ends at one of them.
    method GetMaxFd() returns (max: int)
      requires Valid()
      ensures max in Snapshot().Watched() && forall fd :: fd in Snapshot().Watched() ==> fd <= max
    {
      max := -1;
      for i := 0 to MAX_CLIENT_SUPPORTED
        invariant forall j :: 0 <= j < i ==> monitorFdSet[j] <= max
        invariant max == -1 || max in monitorFdSet[..]
      {
        if monitorFdSet[i] > max {
          max := monitorFdSet[i];
        }
      }
      assert Snapshot().slots[1] > CONSOLE;
    }

    // The part of the data loop for one slot.
    method ServeSlot(round: Round, i: nat)
      requires Shaped() && i < MAX_CLIENT_SUPPORTED
      modifies this, monitorFdSet, clientResult
      ensures Snapshot() == AfterSlot(old(Snapshot()), round, i)
    {
      ghost var before := Snapshot();
      if monitorFdSet[i] != FREE && monitorFdSet[i] in round.ready {
        var commSocketFd := monitorFdSet[i];
        var data := round.input(commSocketFd);
        trace := trace + [Received(commSocketFd, data)];
        if data == 0 {
          trace := trace + [Replied(commSocketFd, clientResult[i])] + [Closed(commSocketFd)];
          assert trace == AfterData(before, i, 0).trace;
          openFds := openFds - {commSocketFd};
          clientResult[i] := 0;
          RemoveMonitorFdSet(commSocketFd);
          assert clientResult[..] == before.results[i := 0];
          assert Snapshot() == AfterData(before, i, 0);
          return;
        }
        clientResult[i] := clientResult[i] + data;
        assert clientResult[..] == before.results[i := before.results[i] + data];
        assert Snapshot() == AfterData(before, i, data);
      } else {
        assert Snapshot() == before;
      }
    }

    /** One pass of the event loop. */
    method Serve(round: Round)
      requires Valid() && Admissible(Snapshot(), round)
      modifies this, monitorFdSet, clientResult
      ensures Valid() && Snapshot() == AfterRound(old(Snapshot()), round)
    {
      ghost var before := Snapshot();
      RoundKeepsInv(before, round);
      var watched := RefreshFdSet();
      var max := GetMaxFd();
      assert round.ready <= watched && forall fd :: fd in round.ready ==> fd < max + 1;
      if connectionSocket in round.ready {
        trace := trace + [Accepted(round.accepted)];
        openFds := openFds + {round.accepted};
        AddMonitorFdSet(round.accepted);
      } else if CONSOLE in round.ready {
        trace := trace + [ConsoleRead];
      } else {
        for i := 0 to MAX_CLIENT_SUPPORTED
          invariant Shaped() && Snapshot() == AfterSlots(before, round, i)
        {
          ServeSlot(round, i);
        }
      }
    }

    /** Any number of passes. */
    method Run(rounds: seq<Round>)
      requires Valid() && AdmissibleRun(Snapshot(), rounds)
      modifies this, monitorFdSet, clientResult
      ensures Valid() && Snapshot() == AfterRounds(old(Snapshot()), rounds)
    {
      ghost var before := Snapshot();
      for k := 0 to |rounds|
        invariant Valid() && Snapshot() == AfterRounds(before, rounds[..k])
      {
        PrefixIsAdmissible(before, rounds, k + 1);
        assert rounds[..k + 1][..k] == rounds[..k];
        Serve(rounds[k]);
      }
      assert rounds[..|rounds|] == rounds;
    }
  }

  lemma {:induction false} PrefixIsAdmissible(s: State, rounds: seq<Round>, k: nat)
    requires s.Shaped() && k <= |rounds| && AdmissibleRun(s, rounds)
    ensures AdmissibleRun(s, rounds[..k])
  {
    if k < |rounds| {
      PrefixIsAdmissible(s, rounds[..|rounds| - 1], k);
      assert rounds[..|rounds| - 1][..k] == rounds[..k];
    } else {
      assert rounds[..k] == rounds;
    }
  }
}
