/** The single-counter game: players hunt for the numbers 1, 2, 3, ... in
    order, each proving a find with a captioned photo or video. The state is
    what the bot keeps in its store: the last number found, each player's set
    of found numbers, and the chat message that proved each number. One
    submission is one step of a sequential state machine. */
module Game {
  import opened Wrappers
  import Caption

  type UserId = int
  type MessageId = int

  /** `current` is the last number found; `submissions` maps a player to the
      numbers they found (one store set per player); `history` maps a found
      number to the id of the message that proved it. */
  datatype State = State(
    current: int,
    submissions: map<UserId, set<nat>>,
    history: map<nat, MessageId>)

  /** A captioned photo or video as it reaches the bot. */
  datatype Submission = Submission(caption: Option<string>, user: UserId, message: MessageId)

  /** What the bot answers: nothing at all, "found n", or "wrong number,
      looking for `expected`, not `got`". */
  datatype Outcome =
    | Ignored
    | Found(number: nat)
    | WrongNumber(expected: int, got: Option<nat>)

  /** The game on an empty store: the counter defaults to 0. */
  const Initial: State := State(0, map[], map[])

  /** A player's numbers; the store answers an unknown player with the empty set. */
  function SubmissionsOf(s: State, u: UserId): set<nat> {
    if u in s.submissions then s.submissions[u] else {}
  }

  /** `n` is one of the numbers a game at counter `c` has found. */
  predicate InRange(n: int, c: int) {
    1 <= n <= c
  }

  /** The numbers 1 to `c`. */
  function Range(c: int): set<nat> {
    set n: nat | n <= c && InRange(n, c)
  }

  /** There are `c` numbers from 1 to `c`. */
  lemma {:induction false} RangeSize(c: nat)
    ensures |Range(c)| == c
  {
    if c > 0 {
      RangeSize(c - 1);
      assert Range(c) == Range(c - 1) + {c} by {
        forall n | n in Range(c)
          ensures n in Range(c - 1) + {c}
        {
          assert InRange(n, c);
          if n != c {
            assert InRange(n, c - 1);
          }
        }
        forall n | n in Range(c - 1) + {c}
          ensures n in Range(c)
        {
          assert InRange(n, c);
        }
      }
    } else {
      assert Range(0) == {};
    }
  }

  /** The bookkeeping of an accepted find of `n` by `u` in message `msg`. */
  function Accept(s: State, u: UserId, msg: MessageId, n: nat): (t: State)
    ensures t.current == s.current + 1
    ensures t.submissions.Keys == s.submissions.Keys + {u}
    ensures SubmissionsOf(t, u) == SubmissionsOf(s, u) + {n}
    ensures forall v :: v != u ==> SubmissionsOf(t, v) == SubmissionsOf(s, v)
    ensures t.history.Keys == s.history.Keys + {n} && t.history[n] == msg
    ensures forall k :: k in s.history && k != n ==> t.history[k] == s.history[k]
  {
    State(
      s.current + 1,
      s.submissions[u := SubmissionsOf(s, u) + {n}],
      s.history[n := msg])
  }

  /** One submission. A missing or empty caption is ignored. Otherwise the
      caption's number is accepted exactly when it is the successor of the
      counter (a claimed 0 is refused outright), and everything else is a
      wrong number that leaves the state as it was. */
  function Step(s: State, m: Submission): (r: (State, Outcome))
    ensures r.1.Ignored? <==> m.caption.None? || m.caption.value == ""
    ensures r.1.Found? <==>
      s.current >= 0 && m.caption.Some? && Caption.ParseCaption(m.caption.value) == Some(s.current + 1)
    ensures r.1.Found? ==>
      && r.1.number == s.current + 1
      && r.0.current == r.1.number
      && SubmissionsOf(r.0, m.user) == SubmissionsOf(s, m.user) + {r.1.number}
      && (forall v :: v != m.user ==> SubmissionsOf(r.0, v) == SubmissionsOf(s, v))
      && r.0.submissions.Keys == s.submissions.Keys + {m.user}
      && r.0.history.Keys == s.history.Keys + {r.1.number}
      && r.0.history[r.1.number] == m.message
      && (forall k :: k in s.history && k != r.1.number ==> r.0.history[k] == s.history[k])
    ensures r.1.WrongNumber? ==>
      r.1.expected == s.current + 1 && r.1.got == Caption.ParseCaption(m.caption.value)
    ensures !r.1.Found? ==> r.0 == s
  {
    match m.caption
    case None => (s, Ignored)
    case Some(c) =>
      if c == "" then (s, Ignored)
      else
        var requested := Caption.ParseCaption(c);
        if requested.Some? && requested.value != 0 && requested.value == s.current + 1 then
          (Accept(s, m.user, m.message, requested.value), Found(requested.value))
        else
          (s, WrongNumber(s.current + 1, requested))
  }

  /** The submissions handled one after another. The counter never goes
      down, and each submission raises it by at most one. */
  function Run(s: State, ms: seq<Submission>): (r: State)
    ensures s.current <= r.current <= s.current + |ms|
    decreases |ms|
  {
    if ms == [] then s else Run(Step(s, ms[0]).0, ms[1..])
  }

  /** Player `u` found number `n`. */
  ghost predicate FoundBy(s: State, u: UserId, n: nat) {
    u in s.submissions && n in s.submissions[u]
  }

  /** No number was found by two players. */
  ghost predicate SingleFinder(s: State) {
    forall u, v, n: nat :: FoundBy(s, u, n) && FoundBy(s, v, n) ==> u == v
  }

  /** The game's global invariant: the numbers 1 to `current` are exactly
      those with a proving message, each was found by exactly one player, no
      player holds any other number, and no player's set is empty. */
  ghost predicate Inv(s: State) {
    && s.current >= 0
    && (forall n: nat :: n in s.history <==> InRange(n, s.current))
    && (forall u :: u in s.submissions ==> s.submissions[u] != {})
    && (forall u, n: nat :: FoundBy(s, u, n) ==> InRange(n, s.current))
    && SingleFinder(s)
    && (forall n: nat :: InRange(n, s.current) ==> exists u :: FoundBy(s, u, n))
  }

  /** The invariant in terms of sets: the players' sets are pairwise
      disjoint, their union is {1..current}, and so is the key set of the
      message history. */
  lemma InvIsPartition(s: State)
    requires Inv(s)
    ensures s.history.Keys == Range(s.current)
    ensures forall u :: u in s.submissions ==> s.submissions[u] <= Range(s.current)
    ensures forall u, v :: u in s.submissions && v in s.submissions && u != v ==>
      s.submissions[u] !! s.submissions[v]
    ensures forall n :: n in Range(s.current) <==> exists u :: u in s.submissions && n in s.submissions[u]
  {
    HistoryIsRange(s);
    SetsWithinRange(s);
    SetsDisjoint(s);
    SetsCoverRange(s);
  }

  /** Under the invariant the history's keys are the numbers 1 to `current`. */
  lemma HistoryIsRange(s: State)
    requires Inv(s)
    ensures s.history.Keys == Range(s.current)
  {
    forall n | n in Range(s.current) || n in s.history
      ensures n in s.history && n in Range(s.current)
    {
      assert InRange(n, s.current);
    }
  }

  /** Under the invariant every player's numbers lie between 1 and `current`. */
  lemma SetsWithinRange(s: State)
    requires Inv(s)
    ensures forall u :: u in s.submissions ==> s.submissions[u] <= Range(s.current)
  {
    forall u | u in s.submissions
      ensures s.submissions[u] <= Range(s.current)
    {
      forall n | n in s.submissions[u]
        ensures n in Range(s.current)
      {
        assert FoundBy(s, u, n);
      }
    }
  }

  /** Under the invariant no two players share a number. */
  lemma SetsDisjoint(s: State)
    requires Inv(s)
    ensures forall u, v :: u in s.submissions && v in s.submissions && u != v ==>
      s.submissions[u] !! s.submissions[v]
  {
    forall u, v | u in s.submissions && v in s.submissions && u != v
      ensures s.submissions[u] !! s.submissions[v]
    {
      forall n | n in s.submissions[u]
        ensures n !in s.submissions[v]
      {
        assert FoundBy(s, u, n);
        assert n in s.submissions[v] ==> FoundBy(s, v, n);
      }
    }
  }

  /** Under the invariant the players' numbers together are exactly 1 to `current`. */
  lemma SetsCoverRange(s: State)
    requires Inv(s)
    ensures forall n :: n in Range(s.current) <==> exists u :: u in s.submissions && n in s.submissions[u]
  {
    forall n | n in Range(s.current)
      ensures exists u :: u in s.submissions && n in s.submissions[u]
    {
      assert InRange(n, s.current);
      var u :| FoundBy(s, u, n);
    }
    forall n, u | u in s.submissions && n in s.submissions[u]
      ensures n in Range(s.current)
    {
      assert FoundBy(s, u, n);
    }
  }

  /** The empty store is a game in which nothing has been found. */
  lemma InitialInv()
    ensures Inv(Initial)
  {
  }

  /** Who found what after an accepted find of `n` by `u`. */
  lemma AcceptFoundBy(s: State, u: UserId, msg: MessageId, n: nat, v: UserId, k: nat)
    ensures FoundBy(Accept(s, u, msg, n), v, k) <==> FoundBy(s, v, k) || (v == u && k == n)
  {
    var t := Accept(s, u, msg, n);
    assert FoundBy(t, v, k) <==> k in SubmissionsOf(t, v);
    assert FoundBy(s, v, k) <==> k in SubmissionsOf(s, v);
  }

  /** Recording the successor of the counter keeps the invariant. */
  lemma AcceptPreservesInv(s: State, u: UserId, msg: MessageId, n: nat)
    requires Inv(s) && n == s.current + 1
    ensures Inv(Accept(s, u, msg, n))
  {
    var t := Accept(s, u, msg, n);
    forall k: nat
      ensures k in t.history <==> InRange(k, t.current)
    {
      if k != n {
        assert k in t.history <==> k in s.history;
      }
    }
    forall v | v in t.submissions
      ensures t.submissions[v] != {}
    {
      assert t.submissions[v] == SubmissionsOf(t, v);
      if v != u {
        assert SubmissionsOf(s, v) == s.submissions[v];
      }
    }
    forall v, k: nat | FoundBy(t, v, k)
      ensures InRange(k, t.current)
    {
      AcceptFoundBy(s, u, msg, n, v, k);
    }
    forall v, w, k: nat | FoundBy(t, v, k) && FoundBy(t, w, k)
      ensures v == w
    {
      AcceptFoundBy(s, u, msg, n, v, k);
      AcceptFoundBy(s, u, msg, n, w, k);
      if k == n {
        assert !FoundBy(s, v, k) && !FoundBy(s, w, k);
      }
    }
    forall k: nat | InRange(k, t.current)
      ensures exists v :: FoundBy(t, v, k)
    {
      if k == n {
        AcceptFoundBy(s, u, msg, n, u, k);
      } else {
        assert InRange(k, s.current);
        var v :| FoundBy(s, v, k);
        AcceptFoundBy(s, u, msg, n, v, k);
      }
    }
  }

  /** Every submission keeps the invariant. */
  lemma StepPreservesInv(s: State, m: Submission)
    requires Inv(s)
    ensures Inv(Step(s, m).0)
  {
    var (t, out) := Step(s, m);
    if out.Found? {
      assert t == Accept(s, m.user, m.message, out.number);
      AcceptPreservesInv(s, m.user, m.message, out.number);
    }
  }

  /** Every sequence of submissions keeps the invariant. */
  lemma {:induction false} RunPreservesInv(s: State, ms: seq<Submission>)
    requires Inv(s)
    ensures Inv(Run(s, ms))
    decreases |ms|
  {
    if ms != [] {
      StepPreservesInv(s, ms[0]);
      RunPreservesInv(Step(s, ms[0]).0, ms[1..]);
    }
  }

  /** Whatever was submitted, a game started on an empty store satisfies the invariant. */
  lemma ReachableInv(ms: seq<Submission>)
    ensures Inv(Run(Initial, ms))
  {
    InitialInv();
    RunPreservesInv(Initial, ms);
  }

  /** `n` is the smallest number nobody has found yet. */
  ghost predicate FirstUnfound(s: State, n: nat) {
    n >= 1 && n !in s.history && forall k: nat :: 1 <= k < n ==> k in s.history
  }

  /** In a consistent game the first number not yet found is the counter's successor. */
  lemma FirstUnfoundIsSuccessor(s: State, n: nat)
    requires Inv(s)
    ensures FirstUnfound(s, n) <==> n == s.current + 1
  {
    if FirstUnfound(s, n) {
      assert !InRange(n, s.current);
      var next: nat := s.current + 1;
      assert next !in s.history by {
        assert !InRange(next, s.current);
      }
      assert n <= next;
    }
    if n == s.current + 1 {
      assert !InRange(n, s.current);
      forall k: nat | 1 <= k < n
        ensures k in s.history
      {
        assert InRange(k, s.current);
      }
    }
  }

  /** In a consistent game, a submission is accepted exactly when it claims
      the smallest number nobody has found yet: a number already found is
      refused, and so is one that skips a number not yet found. */
  lemma AcceptsFirstUnfound(s: State, m: Submission, n: nat)
    requires Inv(s)
    ensures m.caption.Some? && Caption.ParseCaption(m.caption.value) == Some(n) ==>
              (Step(s, m).1.Found? <==> FirstUnfound(s, n))
  {
    FirstUnfoundIsSuccessor(s, n);
    assert s.current >= 0;
  }

  /** A claim at or below the counter is a wrong number and changes nothing. */
  lemma StaleRejected(s: State, m: Submission, n: nat)
    ensures s.current >= 0 && n <= s.current &&
            m.caption.Some? && Caption.ParseCaption(m.caption.value) == Some(n) ==>
              Step(s, m).0 == s && Step(s, m).1 == WrongNumber(s.current + 1, Some(n))
  {
  }

  /** In a consistent game, every number with a proving message is at or below the counter. */
  lemma HistoryBounded(s: State, n: nat)
    requires Inv(s) && n in s.history
    ensures 1 <= n <= s.current
  {
    assert InRange(n, s.current);
  }

  /** Re-submitting a number already found is a wrong number and changes nothing. */
  lemma RepeatRejected(s: State, m: Submission, n: nat)
    requires Inv(s) && n in s.history
    ensures m.caption.Some? && Caption.ParseCaption(m.caption.value) == Some(n) ==>
              Step(s, m).0 == s && Step(s, m).1 == WrongNumber(s.current + 1, Some(n))
  {
    HistoryBounded(s, n);
    StaleRejected(s, m, n);
  }

  /** In a consistent game every number found so far was found by exactly one player. */
  lemma UniqueFinder(s: State, n: nat)
    requires Inv(s) && 1 <= n <= s.current
    ensures exists u :: u in s.submissions && n in s.submissions[u] &&
                        forall v :: v in s.submissions && n in s.submissions[v] ==> v == u
  {
    assert InRange(n, s.current);
    var u :| FoundBy(s, u, n);
    forall v | v in s.submissions && n in s.submissions[v]
      ensures v == u
    {
      assert FoundBy(s, v, n);
    }
  }

  /** Whatever was submitted since the store was empty, every number found
      so far has exactly one finder. */
  lemma ReachableUniqueFinder(ms: seq<Submission>, n: nat)
    ensures var s := Run(Initial, ms);
      1 <= n <= s.current ==>
        exists u :: u in s.submissions && n in s.submissions[u] &&
                    forall v :: v in s.submissions && n in s.submissions[v] ==> v == u
  {
    ReachableInv(ms);
    if 1 <= n <= Run(Initial, ms).current {
      UniqueFinder(Run(Initial, ms), n);
    }
  }

  /** What the store holds: the counter key may be absent. */
  datatype Store = Store(
    counter: Option<int>,
    submissions: map<UserId, set<nat>>,
    history: map<nat, MessageId>)

  const EmptyStore: Store := Store(None, map[], map[])

  /** The state the bot starts from: an absent counter reads as 0, and the
      players' sets and the history are read as stored. */
  function Load(st: Store): (s: State)
    ensures st.counter.None? ==> s.current == 0
    ensures s.submissions == st.submissions && s.history == st.history
    ensures st.counter.Some? ==> Store(Some(s.current), s.submissions, s.history) == st
  {
    State(st.counter.GetOr(0), st.submissions, st.history)
  }

  /** The store after the bot writes its state back; loading it again on a
      restart gives back the same game. */
  function Save(s: State): (st: Store)
    ensures Load(st) == s
    ensures st.counter.Some?
  {
    Store(Some(s.current), s.submissions, s.history)
  }

  /** The three writes of an accepted find of `n` by `u` in message `msg`:
      add `n` to the player's stored set (an absent set is created), store
      `msg` under `n`, and store the new in-memory counter `counter`. */
  function RecordFind(st: Store, u: UserId, msg: MessageId, n: nat, counter: int): (r: Store)
    ensures r.counter == Some(counter)
    ensures r.history.Keys == st.history.Keys + {n} && r.history[n] == msg
    ensures forall k :: k in st.history && k != n ==> r.history[k] == st.history[k]
    ensures r.submissions.Keys == st.submissions.Keys + {u}
    ensures u in st.submissions ==> r.submissions[u] == st.submissions[u] + {n}
    ensures u !in st.submissions ==> r.submissions[u] == {n}
    ensures forall v :: v in st.submissions && v != u ==> r.submissions[v] == st.submissions[v]
  {
    var added := st.(submissions := st.submissions[u := (if u in st.submissions then st.submissions[u] else {}) + {n}]);
    var linked := added.(history := added.history[n := msg]);
    linked.(counter := Some(counter))
  }

  /** The writes of an accepted find keep the store in step with the game:
      applied to the saved game, they give the saved game after `Accept`. */
  lemma RecordFindSavesAccept(s: State, u: UserId, msg: MessageId, n: nat)
    ensures RecordFind(Save(s), u, msg, n, s.current + 1) == Save(Accept(s, u, msg, n))
  {
  }

  /** Starting on an empty store is starting a fresh, consistent game. */
  lemma LoadEmpty()
    ensures Load(EmptyStore) == Initial && Inv(Load(EmptyStore))
  {
    InitialInv();
  }
}
