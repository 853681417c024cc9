/** The select loop of lab_08/part2/server.c: a fixed table of client slots, the set of
    descriptors watched, and the life of each descriptor. */
module SelectServer {
  import opened Pieces

  const MAX_COUNT_SOCK: nat := 10

  /** What the environment answers in one round: whether select fails, which watched
      descriptors it reports, what accept returns if it is called, for which clients recv returns 0, and for which
      clients send fails. */
  datatype Input = Input(selectFails: bool, ready: set<int>, newsock: int, closing: set<int>, sendFails: set<int>)

  /** `open` is the process's set of open descriptors; `lost` are the clients accepted while
      the table was full. */
  datatype State = State(slots: seq<int>, open: set<int>, accepted: nat, disconnected: nat, lost: set<int>)

  // ---------------------------------------------------------------- one round, on values

  function Watched(sock: int, slots: seq<int>): set<int> {
    {sock} + set i | 0 <= i < |slots| && slots[i] > 0 :: slots[i]
  }

  function FirstFree(slots: seq<int>): (i: nat)
    ensures i <= |slots| && (i < |slots| ==> slots[i] == 0) && forall k :: 0 <= k < i ==> slots[k] != 0
  {
    if slots == [] || slots[0] == 0 then 0 else 1 + FirstFree(slots[1..])
  }

  function AfterAccept(slots: seq<int>, newsock: int): seq<int> {
    var i := FirstFree(slots);
    if i < |slots| then slots[i := newsock] else slots
  }

  // The slot's client is read in this pass.
  predicate IsRead(fd: int, ready: set<int>) { fd != 0 && fd in ready }

  /** The clients read, in slot order. */
  function Reads(slots: seq<int>, ready: set<int>): seq<int> {
    if slots == [] then []
    else
      var fd := slots[|slots| - 1];
      var before := Reads(slots[..|slots| - 1], ready);
      if IsRead(fd, ready) then before + [fd] else before
  }

  // What becomes of one slot.
  function DispatchedSlot(fd: int, input: Input): int {
    if IsRead(fd, input.ready) && fd in input.closing then 0 else fd
  }

  function Dispatched(slots: seq<int>, input: Input): (r: seq<int>)
    ensures |r| == |slots|
  {
    seq(|slots|, i requires 0 <= i < |slots| => DispatchedSlot(slots[i], input))
  }

  /** The clients found disconnected in the pass. */
  function Closed(slots: seq<int>, input: Input): set<int> {
    set i | 0 <= i < |slots| && IsRead(slots[i], input.ready) && slots[i] in input.closing :: slots[i]
  }

  function Accepting(sock: int, s: State, input: Input): State {
    if sock !in input.ready then s
    else
      var full := FirstFree(s.slots) == |s.slots|;
      State(AfterAccept(s.slots, input.newsock), s.open + {input.newsock}, s.accepted + 1, s.disconnected,
            if full then s.lost + {input.newsock} else s.lost)
  }

  function Dispatching(s: State, input: Input): State {
    State(Dispatched(s.slots, input), s.open - Closed(s.slots, input), s.accepted,
          s.disconnected + |Closed(s.slots, input)|, s.lost)
  }

  function Step(sock: int, s: State, input: Input): State {
    Dispatching(Accepting(sock, s, input), input)
  }

  /** select reports a subset of what it was given; accept fails or returns a descriptor that
      was not open, and not 0. */
  predicate Legal(sock: int, s: State, input: Input) {
    && input.ready <= Watched(sock, s.slots)
    && (input.newsock < 0 || (input.newsock > 0 && input.newsock !in s.open))
  }

  // A client that is read, found connected, and answered without success.
  predicate Unanswered(fd: int, input: Input) {
    IsRead(fd, input.ready) && fd !in input.closing && fd in input.sendFails
  }

  predicate AllAnswered(slots: seq<int>, input: Input) {
    forall i :: 0 <= i < |slots| ==> !Unanswered(slots[i], input)
  }

  /** The program goes on: select, accept and every send of the round succeed. */
  predicate Survives(sock: int, s: State, input: Input) {
    && !input.selectFails
    && (sock in input.ready ==> input.newsock > 0)
    && AllAnswered(Accepting(sock, s, input).slots, input)
  }

  // ---------------------------------------------------------------- the invariant

  ghost function Occupied(slots: seq<int>): nat {
    if slots == [] then 0 else Occupied(slots[..|slots| - 1]) + if slots[|slots| - 1] > 0 then 1 else 0
  }

  ghost predicate Distinct(slots: seq<int>) {
    forall i, j :: 0 <= i < j < |slots| && slots[i] != 0 ==> slots[i] != slots[j]
  }

  /** Occupied slots hold pairwise distinct open descriptors other than the listener's; the
      clients the table had no room for stay open and are in no slot; and every client ever
      accepted is in a slot, disconnected, or one of those. */
  ghost predicate Invariant(sock: int, s: State) {
    && |s.slots| == MAX_COUNT_SOCK && sock in s.open && sock >= 0
    && (forall i :: 0 <= i < |s.slots| ==> s.slots[i] >= 0)
    && (forall i :: 0 <= i < |s.slots| && s.slots[i] > 0 ==>
          s.slots[i] in s.open && s.slots[i] != sock && s.slots[i] !in s.lost)
    && Distinct(s.slots)
    && s.lost <= s.open && sock !in s.lost
    && s.accepted == Occupied(s.slots) + s.disconnected + |s.lost|
  }

  lemma {:induction false} OccupiedUpdate(slots: seq<int>, i: nat, fd: int)
    requires i < |slots| && slots[i] == 0 && fd > 0
    ensures Occupied(slots[i := fd]) == Occupied(slots) + 1
    decreases |slots|
  {
    var n := |slots| - 1;
    if i < n {
      OccupiedUpdate(slots[..n], i, fd);
      assert slots[i := fd][..n] == slots[..n][i := fd];
    } else {
      assert slots[i := fd][..n] == slots[..n];
    }
  }

  /** Closing frees as many slots as clients were found disconnected. */
  lemma {:induction false} OccupiedDispatched(slots: seq<int>, input: Input)
    requires Distinct(slots) && forall i :: 0 <= i < |slots| ==> slots[i] >= 0
    ensures Occupied(slots) == Occupied(Dispatched(slots, input)) + |Closed(slots, input)|
    decreases |slots|
  {
    if slots != [] {
      var n := |slots| - 1;
      var fd := slots[n];
      var init := slots[..n];
      assert init + [fd] == slots;
      OccupiedDispatched(init, input);
      ClosedSnoc(init, fd, input);
      DispatchedSnoc(init, fd, input);
      var r := Dispatched(slots, input);
      assert r[..n] == Dispatched(init, input);
      assert fd !in Closed(init, input);
    }
  }

  lemma DispatchedSnoc(init: seq<int>, fd: int, input: Input)
    ensures Dispatched(init + [fd], input) == Dispatched(init, input) + [DispatchedSlot(fd, input)]
  {
  }

  lemma ClosedSnoc(init: seq<int>, fd: int, input: Input)
    ensures Closed(init + [fd], input)
            == if IsRead(fd, input.ready) && fd in input.closing then Closed(init, input) + {fd}
               else Closed(init, input)
  {
    var slots := init + [fd];
    assert forall i :: 0 <= i < |init| ==> slots[i] == init[i];
    assert slots[|init|] == fd;
  }

  lemma AcceptingInvariant(sock: int, s: State, input: Input)
    requires Invariant(sock, s) && Legal(sock, s, input) && (sock in input.ready ==> input.newsock > 0)
    ensures Invariant(sock, Accepting(sock, s, input))
  {
    if sock in input.ready && FirstFree(s.slots) < |s.slots| {
      OccupiedUpdate(s.slots, FirstFree(s.slots), input.newsock);
    }
  }

  lemma DispatchingInvariant(sock: int, s: State, input: Input)
    requires Invariant(sock, s)
    ensures Invariant(sock, Dispatching(s, input))
  {
    OccupiedDispatched(s.slots, input);
    var r := Dispatched(s.slots, input);
    forall i | 0 <= i < |r| && r[i] > 0 ensures r[i] !in Closed(s.slots, input) {
    }
  }

  /** Every reachable state: any number of rounds, whatever the environment answers. */
  ghost predicate Reachable(sock: int, s: State, inputs: seq<Input>, end: State)
    decreases |inputs|
  {
    if inputs == [] then s == end
    else Legal(sock, s, inputs[0]) && Survives(sock, s, inputs[0])
         && Reachable(sock, Step(sock, s, inputs[0]), inputs[1..], end)
  }

  lemma {:induction false} ReachableInvariant(sock: int, s: State, inputs: seq<Input>, end: State)
    requires Invariant(sock, s) && Reachable(sock, s, inputs, end)
    ensures Invariant(sock, end)
    decreases |inputs|
  {
    if inputs != [] {
      StepInvariant(sock, s, inputs[0]);
      ReachableInvariant(sock, Step(sock, s, inputs[0]), inputs[1..], end);
    }
  }

  // ---------------------------------------------------------------- who is read

  lemma {:induction false} ReadsMembers(slots: seq<int>, ready: set<int>)
    requires Distinct(slots)
    ensures forall fd :: fd in Reads(slots, ready) <==> IsRead(fd, ready) && fd in slots
    ensures Distinct(Reads(slots, ready)) && 0 !in Reads(slots, ready)
    decreases |slots|
  {
    if slots != [] {
      var n := |slots| - 1;
      var init, last := slots[..n], slots[n];
      ReadsMembers(init, ready);
      assert slots == init + [last];
      assert forall fd :: fd in slots <==> fd in init || fd == last;
    }
  }

  /** In one round every ready client that was in the table is read exactly once, also when
      others disconnect in the same pass; and a client accepted in the round is not read. */
  lemma ReadExactlyOnce(sock: int, s: State, input: Input)
    requires Invariant(sock, s) && Legal(sock, s, input) && (sock in input.ready ==> input.newsock > 0)
    ensures var fds := Reads(Accepting(sock, s, input).slots, input.ready);
            && (forall fd :: fd in fds <==> fd in input.ready && fd != sock)
            && (forall i, j :: 0 <= i < j < |fds| ==> fds[i] != fds[j])
            && (sock in input.ready ==> input.newsock !in fds)
  {
    var slots := Accepting(sock, s, input).slots;
    AcceptingInvariant(sock, s, input);
    ReadsMembers(slots, input.ready);
    var fds := Reads(slots, input.ready);
    forall fd ensures fd in fds <==> fd in input.ready && fd != sock {
      if fd in input.ready && fd != sock {
        var i :| 0 <= i < |s.slots| && s.slots[i] > 0 && s.slots[i] == fd;
        assert slots[i] == fd && fd in slots;
      }
      if fd in fds {
        assert fd in slots;
      }
    }
    forall i, j | 0 <= i < j < |fds| ensures fds[i] != fds[j] {
      assert fds[i] in fds;
    }
  }

  // ---------------------------------------------------------------- what a round changes

  /** The program ends exactly when select fails, accept fails on a ready listener, or the answer
      to a ready client that is connected fails. */
  lemma SurvivesIf(sock: int, s: State, input: Input)
    requires Invariant(sock, s) && Legal(sock, s, input)
    ensures Survives(sock, s, input)
            <==> !input.selectFails && (sock in input.ready ==> input.newsock > 0)
                 && forall fd :: fd in input.ready && fd != sock ==> fd in input.closing || fd !in input.sendFails
  {
    if sock in input.ready ==> input.newsock > 0 {
      ReadExactlyOnce(sock, s, input);
      var slots := Accepting(sock, s, input).slots;
      AcceptingInvariant(sock, s, input);
      ReadsMembers(slots, input.ready);
      var fds := Reads(slots, input.ready);
      assert forall fd :: fd in fds <==> fd in input.ready && fd != sock;
      assert AllAnswered(slots, input) <==> forall fd :: fd in fds ==> fd in input.closing || fd !in input.sendFails;
    }
  }

  /** What a round does to the descriptors and the counters: a client of a ready listener is
      opened, and exactly the ready clients that have disconnected are closed. */
  lemma RoundAccounts(sock: int, s: State, input: Input)
    requires Invariant(sock, s) && Legal(sock, s, input) && Survives(sock, s, input)
    ensures var n := Step(sock, s, input);
            && n.accepted == s.accepted + (if sock in input.ready then 1 else 0)
            && (forall fd :: fd in n.open <==>
                  (fd in s.open || (sock in input.ready && fd == input.newsock))
                  && !(fd in input.ready && fd in input.closing && fd != sock))
            && n.disconnected == s.disconnected + |set fd | fd in input.ready && fd in input.closing && fd != sock|
  {
    var slots := Accepting(sock, s, input).slots;
    ReadExactlyOnce(sock, s, input);
    AcceptingInvariant(sock, s, input);
    ReadsMembers(slots, input.ready);
    var gone := set fd | fd in input.ready && fd in input.closing && fd != sock;
    assert Closed(slots, input) == gone by {
      forall fd ensures fd in Closed(slots, input) <==> fd in gone {
        assert fd in Reads(slots, input.ready) <==> fd in input.ready && fd != sock;
      }
    }
  }

  // ---------------------------------------------------------------- who is served

  lemma {:induction false} RoomLeft(slots: seq<int>)
    requires forall i :: 0 <= i < |slots| ==> slots[i] >= 0
    ensures Occupied(slots) <= |slots|
    ensures Occupied(slots) == |slots| <==> forall i :: 0 <= i < |slots| ==> slots[i] > 0
  {
    if slots != [] {
      RoomLeft(slots[..|slots| - 1]);
    }
  }

  /** A new client is served exactly when a slot is free: it is then in the next watch set, and
      otherwise among those the table had no room for. */
  lemma ServedIfRoom(sock: int, s: State, input: Input)
    requires Invariant(sock, s) && Legal(sock, s, input) && Survives(sock, s, input) && sock in input.ready
    ensures var n := Step(sock, s, input);
            && (input.newsock in Watched(sock, n.slots) <==> Occupied(s.slots) < 10)
            && (input.newsock in n.lost <==> Occupied(s.slots) == 10)
  {
    var a, n, i := Accepting(sock, s, input), Step(sock, s, input), FirstFree(s.slots);
    RoomLeft(s.slots);
    AcceptingInvariant(sock, s, input);
    if i < MAX_COUNT_SOCK {
      assert a.slots[i] == input.newsock && n.slots[i] == input.newsock;
      assert Occupied(s.slots) < MAX_COUNT_SOCK;
    } else {
      DispatchingInvariant(sock, a, input);
    }
  }

  /** In one round a client stays in the table unless it is found disconnected. */
  lemma WatchedStep(sock: int, s: State, input: Input, fd: int)
    requires Invariant(sock, s) && Legal(sock, s, input) && Survives(sock, s, input)
    requires fd in Watched(sock, s.slots) && fd != sock
    ensures fd in Watched(sock, Step(sock, s, input).slots) <==> !(fd in input.ready && fd in input.closing)
  {
    var a, n := Accepting(sock, s, input), Step(sock, s, input);
    var i :| 0 <= i < |s.slots| && s.slots[i] > 0 && s.slots[i] == fd;
    AcceptingInvariant(sock, s, input);
    assert a.slots[i] == fd;
    if fd in input.ready && fd in input.closing {
      assert forall k :: 0 <= k < |n.slots| ==> n.slots[k] != fd;
    } else {
      assert n.slots[i] == fd;
    }
  }

  // No round of a run finds the client disconnected.
  ghost predicate StaysConnected(fd: int, inputs: seq<Input>) {
    forall k :: 0 <= k < |inputs| ==> !(fd in inputs[k].ready && fd in inputs[k].closing)
  }

  /** A client in the table is watched in every later round until it disconnects. */
  lemma {:induction false} WatchedStays(sock: int, s: State, inputs: seq<Input>, end: State, fd: int)
    requires Invariant(sock, s) && Reachable(sock, s, inputs, end)
    requires fd in Watched(sock, s.slots) && fd != sock && StaysConnected(fd, inputs)
    ensures fd in Watched(sock, end.slots)
    decreases |inputs|
  {
    if inputs != [] {
      WatchedStep(sock, s, inputs[0], fd);
      StepInvariant(sock, s, inputs[0]);
      WatchedStays(sock, Step(sock, s, inputs[0]), inputs[1..], end, fd);
    }
  }

  lemma StepInvariant(sock: int, s: State, input: Input)
    requires Invariant(sock, s) && Legal(sock, s, input) && Survives(sock, s, input)
    ensures Invariant(sock, Step(sock, s, input))
  {
    AcceptingInvariant(sock, s, input);
    DispatchingInvariant(sock, Accepting(sock, s, input), input);
  }

  /** A client accepted while the table was full stays open for ever, and no later round
      watches it. */
  lemma {:induction false} LostStayLost(sock: int, s: State, inputs: seq<Input>, end: State)
    requires Invariant(sock, s) && Reachable(sock, s, inputs, end)
    ensures s.lost <= end.lost && end.lost !! Watched(sock, end.slots) && end.lost <= end.open
    decreases |inputs|
  {
    ReachableInvariant(sock, s, inputs, end);
    if inputs != [] {
      StepInvariant(sock, s, inputs[0]);
      LostStayLost(sock, Step(sock, s, inputs[0]), inputs[1..], end);
    }
  }

  /** What becomes of a client accepted in the first of some rounds, as long as it stays
      connected: it is in every later watch set exactly when a slot was free. */
  lemma ServedForEver(sock: int, s: State, inputs: seq<Input>, end: State)
    requires Invariant(sock, s) && Reachable(sock, s, inputs, end) && inputs != [] && sock in inputs[0].ready
    requires StaysConnected(inputs[0].newsock, inputs)
    ensures inputs[0].newsock in Watched(sock, end.slots) <==> Occupied(s.slots) < 10
  {
    var next := Step(sock, s, inputs[0]);
    ServedIfRoom(sock, s, inputs[0]);
    StepInvariant(sock, s, inputs[0]);
    RoomLeft(s.slots);
    LostStayLost(sock, next, inputs[1..], end);
    if inputs[0].newsock in Watched(sock, next.slots) {
      WatchedStays(sock, next, inputs[1..], end, inputs[0].newsock);
    }
  }

  // ---------------------------------------------------------------- a run that loses a client

  // The first k slots are taken by descriptors sock + 1 to sock + k.
  function Filled(sock: int, k: nat): (slots: seq<int>)
    ensures |slots| == MAX_COUNT_SOCK
  {
    seq(MAX_COUNT_SOCK, i => if i < k then sock + 1 + i else 0)
  }

  // The n descriptors from `first` on.
  function Descriptors(first: int, n: nat): (fds: set<int>)
    ensures forall fd :: fd in fds <==> first <= fd < first + n
  {
    if n == 0 then {} else Descriptors(first, n - 1) + {first + n - 1}
  }

  // What the process holds after k clients have connected to a fresh server.
  function Connected(sock: int, k: nat): State {
    State(Filled(sock, k), Descriptors(sock, k + 1), k, 0,
          Descriptors(sock + MAX_COUNT_SOCK + 1, if k < MAX_COUNT_SOCK then 0 else k - MAX_COUNT_SOCK))
  }

  // The k-th client connects, and nothing else happens.
  function Connects(sock: int, k: nat): Input {
    Input(false, {sock}, sock + k, {}, {})
  }

  lemma FirstFreeFilled(sock: int, k: nat)
    requires sock >= 0
    ensures FirstFree(Filled(sock, k)) == if k < MAX_COUNT_SOCK then k else MAX_COUNT_SOCK
  {
    var slots := Filled(sock, k);
    if k < MAX_COUNT_SOCK {
      assert slots[k] == 0;
    }
  }

  lemma OneConnects(sock: int, k: nat)
    requires sock >= 0
    ensures var s, input := Connected(sock, k), Connects(sock, k + 1);
            Legal(sock, s, input) && Survives(sock, s, input) && Step(sock, s, input) == Connected(sock, k + 1)
  {
    var s, input := Connected(sock, k), Connects(sock, k + 1);
    OneAccepted(sock, k);
    NothingElse(sock, Connected(sock, k + 1), input);
  }

  lemma OneAccepted(sock: int, k: nat)
    requires sock >= 0
    ensures Accepting(sock, Connected(sock, k), Connects(sock, k + 1)) == Connected(sock, k + 1)
  {
    FirstFreeFilled(sock, k);
    var a, n := Accepting(sock, Connected(sock, k), Connects(sock, k + 1)), Connected(sock, k + 1);
    assert a.slots == n.slots;
    assert a.open == n.open;
    assert a.lost == n.lost;
  }

  // A pass in which only the listener is ready.
  lemma NothingElse(sock: int, s: State, input: Input)
    requires input.ready == {sock} && input.closing == input.sendFails == {}
    ensures Dispatching(s, input) == s && AllAnswered(s.slots, input)
  {
    assert Closed(s.slots, input) == {};
    assert Dispatched(s.slots, input) == s.slots;
    assert s.open - {} == s.open;
  }

  lemma ReachableCons(sock: int, s: State, input: Input, rest: seq<Input>, end: State)
    requires Legal(sock, s, input) && Survives(sock, s, input) && Reachable(sock, Step(sock, s, input), rest, end)
    ensures Reachable(sock, s, [input] + rest, end)
  {
    assert ([input] + rest)[0] == input && ([input] + rest)[1..] == rest;
  }

  lemma {:induction false} MoreConnect(sock: int, k: nat, n: nat) returns (inputs: seq<Input>)
    requires sock >= 0 && k <= n
    ensures |inputs| == n - k && Reachable(sock, Connected(sock, k), inputs, Connected(sock, n))
    decreases n - k
  {
    inputs := [];
    if k < n {
      OneConnects(sock, k);
      var rest := MoreConnect(sock, k + 1, n);
      ReachableCons(sock, Connected(sock, k), Connects(sock, k + 1), rest, Connected(sock, n));
      inputs := [Connects(sock, k + 1)] + rest;
    }
  }

  /** n connections to a fresh server, none of which ends, lose all but the first ten. */
  lemma LaterClientsLost(sock: int, n: nat) returns (inputs: seq<Input>, end: State)
    requires sock >= 0
    ensures var start := Connected(sock, 0);
            && start == State(seq(MAX_COUNT_SOCK, _ => 0), {sock}, 0, 0, {})
            && Invariant(sock, start) && Reachable(sock, start, inputs, end)
    ensures |inputs| == n && end.disconnected == 0
    ensures forall fd :: fd in end.lost <==> sock + 10 < fd <= sock + n
  {
    FreshServer(sock);
    end := Connected(sock, n);
    inputs := MoreConnect(sock, 0, n);
  }

  lemma FreshServer(sock: int)
    requires sock >= 0
    ensures Connected(sock, 0) == State(seq(MAX_COUNT_SOCK, _ => 0), {sock}, 0, 0, {})
    ensures Invariant(sock, Connected(sock, 0))
  {
    NoneOccupied(Filled(sock, 0));
  }

  // ---------------------------------------------------------------- the program

  class Server {
    const sock: int
    const arrSock: array<int>
    ghost var open: set<int>     // the process's open descriptors
    ghost var accepted: nat      // calls of accept that returned a client
    ghost var disconnected: nat  // clients closed
    ghost var lost: set<int>     // clients accepted while the table was full

    ghost function View(): State
      reads this, arrSock
    {
      State(arrSock[..], open, accepted, disconnected, lost)
    }

    ghost predicate Valid()
      reads this, arrSock
    {
      arrSock.Length == MAX_COUNT_SOCK && Invariant(sock, View())
    }

    // The listener is open and the table is empty.
    constructor (sock: int, open: set<int>)
      requires sock >= 0 && sock in open
      ensures Valid() && this.sock == sock && View() == State(seq(10, _ => 0), open, 0, 0, {})
    {
      this.sock := sock;
      arrSock := new int[MAX_COUNT_SOCK](_ => 0);
      this.open, accepted, disconnected, lost := open, 0, 0, {};
      new;
      NoneOccupied(arrSock[..]);
    }

    /** FD_ZERO, FD_SET and the search for the largest descriptor. */
    method BuildSet() returns (watched: set<int>, maxSock: int)
      requires Valid()
      ensures watched == Watched(sock, arrSock[..])
      ensures forall fd :: fd in watched <==> fd == sock || (fd > 0 && exists i :: 0 <= i < 10 && arrSock[i] == fd)
      ensures maxSock in watched && forall fd :: fd in watched ==> fd <= maxSock
    {
      watched, maxSock := {sock}, sock;
      for i := 0 to MAX_COUNT_SOCK
        invariant watched == Watched(sock, arrSock[..i])
        invariant maxSock in watched && forall fd :: fd in watched ==> fd <= maxSock
      {
        assert arrSock[..i + 1] == arrSock[..i] + [arrSock[i]];
        WatchedSnoc(sock, arrSock[..i], arrSock[i]);
        if arrSock[i] > 0 {
          watched := watched + {arrSock[i]};
          maxSock := if arrSock[i] > maxSock then arrSock[i] else maxSock;
        }
      }
      assert arrSock[..MAX_COUNT_SOCK] == arrSock[..];
      WatchedIs(sock, arrSock[..]);
      assert forall i :: 0 <= i < 10 ==> arrSock[..][i] == arrSock[i];
    }

    // accept: a new descriptor is open, or the call has failed.
    method Accept(input: Input) returns (newsock: int)
      modifies this`open, this`accepted
      ensures newsock == input.newsock
      ensures open == (if newsock < 0 then old(open) else old(open) + {newsock})
      ensures accepted == if newsock < 0 then old(accepted) else old(accepted) + 1
    {
      newsock := input.newsock;
      if newsock >= 0 {
        open, accepted := open + {newsock}, accepted + 1;
      }
    }

    // The new client goes to the first free slot, if there is one.
    method Store(newsock: int) returns (flag: bool)
      requires arrSock.Length == MAX_COUNT_SOCK
      modifies arrSock, this`lost
      ensures arrSock[..] == AfterAccept(old(arrSock[..]), newsock)
      ensures flag <==> FirstFree(old(arrSock[..])) == MAX_COUNT_SOCK
      ensures lost == if flag then old(lost) + {newsock} else old(lost)
    {
      flag := true;
      var i := 0;
      while i < MAX_COUNT_SOCK && flag
        invariant 0 <= i <= MAX_COUNT_SOCK && lost == old(lost)
        invariant flag ==> arrSock[..] == old(arrSock[..]) && forall k :: 0 <= k < i ==> arrSock[k] != 0
        invariant !flag ==> FirstFree(old(arrSock[..])) < MAX_COUNT_SOCK
                            && arrSock[..] == AfterAccept(old(arrSock[..]), newsock)
      {
        if arrSock[i] == 0 {
          FirstFreeIs(arrSock[..], i);
          arrSock[i] := newsock;
          flag := false;
        }
        i := i + 1;
      }
      if flag {
        assert FirstFree(old(arrSock[..])) == MAX_COUNT_SOCK;
        lost := lost + {newsock};
      }
    }

    // The listener is handled first: a new client is accepted and stored.
    method AcceptClient(input: Input) returns (alive: bool)
      requires Valid() && Legal(sock, View(), input)
      modifies this`open, this`accepted, this`lost, arrSock
      ensures alive <==> (sock in input.ready ==> input.newsock > 0)
      ensures alive ==> View() == Accepting(sock, old(View()), input)
    {
      if sock in input.ready {
        var newsock := Accept(input);
        if newsock < 0 {
          return false;
        }
        var _ := Store(newsock);
      }
      alive := true;
    }

    // The pass over the slots; it stops short when a send fails.
    method Dispatch(input: Input) returns (ok: bool, fds: seq<int>)
      requires Valid()
      modifies arrSock, this`open, this`disconnected
      ensures ok <==> AllAnswered(old(arrSock[..]), input)
      ensures ok ==> View() == Dispatching(old(View()), input) && fds == Reads(old(arrSock[..]), input.ready)
    {
      fds := [];
      ghost var start := View();
      for i := 0 to MAX_COUNT_SOCK
        invariant View() == Midway(start, i, input) && fds == Reads(start.slots[..i], input.ready)
        invariant AllAnswered(start.slots[..i], input)
      {
        NextSlot(start, i, input);
        assert arrSock[i] == View().slots[i];
        if arrSock[i] != 0 && arrSock[i] in input.ready {
          fds := fds + [arrSock[i]];
          ok := Serve(i, input);
          if !ok {
            return;
          }
        }
      }
      PassEnds(start, input);
      ok := true;
    }

    // One ready client: closed and removed if it has disconnected, and answered otherwise.
    method Serve(i: nat, input: Input) returns (ok: bool)
      requires i < arrSock.Length && IsRead(arrSock[i], input.ready)
      modifies arrSock, this`open, this`disconnected
      ensures ok <==> !Unanswered(old(arrSock[i]), input)
      ensures View() == Served(old(View()), i, input)
    {
      if arrSock[i] in input.closing {
        open, disconnected := open - {arrSock[i]}, disconnected + 1;  // close
        arrSock[i] := 0;
      } else if arrSock[i] in input.sendFails {
        return false;
      }
      ok := true;
    }

    /** One turn of the loop.  The program ends when select, accept or a send fails; otherwise the
        new state is the step of the old one, and the clients read are those the step reads. */
    method Round(input: Input) returns (alive: bool, fds: seq<int>)
      requires Valid() && Legal(sock, View(), input)
      modifies this, arrSock
      ensures alive <==> Survives(sock, old(View()), input)
      ensures alive <==> !input.selectFails && (sock in input.ready ==> input.newsock > 0)
                         && forall fd :: fd in input.ready && fd != sock ==>
                              fd in input.closing || fd !in input.sendFails
      ensures alive ==> Valid() && View() == Step(sock, old(View()), input)
      ensures alive ==> fds == Reads(Accepting(sock, old(View()), input).slots, input.ready)
      ensures alive ==> (forall fd :: fd in fds <==> fd in input.ready && fd != sock)
                        && (forall i, j :: 0 <= i < j < |fds| ==> fds[i] != fds[j])
    {
      var watched, maxSock := BuildSet();
      SurvivesIf(sock, View(), input);
      if input.selectFails {
        return false, [];
      }
      ghost var start := View();
      alive := AcceptClient(input);
      if !alive {
        return false, [];
      }
      ReadExactlyOnce(sock, start, input);
      AcceptingInvariant(sock, start, input);
      alive, fds := Dispatch(input);
      if alive {
        DispatchingInvariant(sock, Accepting(sock, start, input), input);
      }
    }
  }

  /** What the pass does at slot i. */
  function Served(s: State, i: nat, input: Input): State
    requires i < |s.slots|
  {
    var fd := s.slots[i];
    if IsRead(fd, input.ready) && fd in input.closing
    then State(s.slots[i := 0], s.open - {fd}, s.accepted, s.disconnected + 1, s.lost)
    else s
  }

  // The state when the pass has dealt with the first i slots.
  ghost function Midway(s: State, i: nat, input: Input): (m: State)
    requires i <= |s.slots|
    ensures |m.slots| == |s.slots|
  {
    if i == 0 then s else Served(Midway(s, i - 1, input), i - 1, input)
  }

  // The same, told from the slots: those dealt with, and those still as they were.
  lemma {:induction false} MidwaySlots(s: State, i: nat, input: Input)
    requires i <= |s.slots|
    ensures forall k :: 0 <= k < i ==> Midway(s, i, input).slots[k] == DispatchedSlot(s.slots[k], input)
    ensures forall k :: i <= k < |s.slots| ==> Midway(s, i, input).slots[k] == s.slots[k]
  {
    if i > 0 {
      MidwaySlots(s, i - 1, input);
    }
  }

  lemma {:induction false} MidwayRest(s: State, i: nat, input: Input)
    requires i <= |s.slots| && Distinct(s.slots)
    ensures var m, closed := Midway(s, i, input), Closed(s.slots[..i], input);
            m == State(m.slots, s.open - closed, s.accepted, s.disconnected + |closed|, s.lost)
  {
    if i > 0 {
      MidwayRest(s, i - 1, input);
      MidwaySlots(s, i - 1, input);
      ClosedStep(s.slots, i - 1, s.open, input);
    }
  }

  lemma PassEnds(s: State, input: Input)
    requires Distinct(s.slots)
    ensures Midway(s, |s.slots|, input) == Dispatching(s, input)
    ensures s.slots[..|s.slots|] == s.slots
  {
    TakeAll(s.slots);
    MidwaySlots(s, |s.slots|, input);
    MidwayRest(s, |s.slots|, input);
    assert Midway(s, |s.slots|, input).slots == Dispatched(s.slots, input);
  }

  lemma AnsweredStep(slots: seq<int>, i: nat, input: Input)
    requires i < |slots|
    ensures AllAnswered(slots[..i + 1], input) <==> AllAnswered(slots[..i], input) && !Unanswered(slots[i], input)
    ensures Unanswered(slots[i], input) ==> !AllAnswered(slots, input)
  {
    if AllAnswered(slots[..i + 1], input) {
      assert forall k :: 0 <= k < i ==> slots[..i][k] == slots[..i + 1][k];
      assert slots[..i + 1][i] == slots[i];
    } else {
      var k :| 0 <= k <= i && Unanswered(slots[..i + 1][k], input);
      assert k < i ==> slots[..i][k] == slots[..i + 1][k];
    }
  }

  lemma ClosedStep(slots: seq<int>, i: nat, open: set<int>, input: Input)
    requires i < |slots| && Distinct(slots)
    ensures var before, after := Closed(slots[..i], input), Closed(slots[..i + 1], input);
            if IsRead(slots[i], input.ready) && slots[i] in input.closing
            then open - after == open - before - {slots[i]} && |after| == |before| + 1
            else after == before
  {
    TakeNext(slots, i);
    ClosedSnoc(slots[..i], slots[i], input);
    if IsRead(slots[i], input.ready) {
      assert slots[i] !in Closed(slots[..i], input);
    }
  }

  // What dealing with one more slot adds.
  lemma NextSlot(s: State, i: nat, input: Input)
    requires i < |s.slots| && Distinct(s.slots)
    ensures Midway(s, i, input).slots[i] == s.slots[i]
    ensures var before := Reads(s.slots[..i], input.ready);
            Reads(s.slots[..i + 1], input.ready)
            == if IsRead(s.slots[i], input.ready) then before + [s.slots[i]] else before
    ensures AllAnswered(s.slots[..i + 1], input) <==> AllAnswered(s.slots[..i], input) && !Unanswered(s.slots[i], input)
    ensures Unanswered(s.slots[i], input) ==> !AllAnswered(s.slots, input)
  {
    MidwaySlots(s, i, input);
    TakeNext(s.slots, i);
    AnsweredStep(s.slots, i, input);
  }

  lemma {:induction false} NoneOccupied(slots: seq<int>)
    requires forall i :: 0 <= i < |slots| ==> slots[i] == 0
    ensures Occupied(slots) == 0
  {
    if slots != [] {
      NoneOccupied(slots[..|slots| - 1]);
    }
  }

  lemma WatchedSnoc(sock: int, slots: seq<int>, fd: int)
    ensures Watched(sock, slots + [fd]) == Watched(sock, slots) + if fd > 0 then {fd} else {}
  {
    var all := slots + [fd];
    forall x ensures x in Watched(sock, all) <==> x in Watched(sock, slots) || (fd > 0 && x == fd) {
      if x in Watched(sock, slots) && x != sock {
        var i :| 0 <= i < |slots| && slots[i] > 0 && slots[i] == x;
        assert all[i] == x;
      }
      if fd > 0 && x == fd {
        assert all[|slots|] == x;
      }
    }
  }

  lemma WatchedIs(sock: int, slots: seq<int>)
    ensures forall fd :: fd in Watched(sock, slots)
                         <==> fd == sock || (fd > 0 && exists i :: 0 <= i < |slots| && slots[i] == fd)
  {
  }

  lemma FirstFreeIs(slots: seq<int>, i: nat)
    requires i < |slots| && slots[i] == 0 && forall k :: 0 <= k < i ==> slots[k] != 0
    ensures FirstFree(slots) == i
  {
  }
}
