/** The `/stats` view of the game: the last number found and, for each
    player the store lists, how many numbers they found and those numbers in
    ascending order, each with the message that proved it. */
module Stats {
  import opened Wrappers
  import Game

  /** `m` is the least element of `xs`. */
  predicate IsLeast(m: nat, xs: set<nat>) {
    m in xs && forall y :: y in xs ==> m <= y
  }

  /** A non-empty set of numbers has a least element. */
  lemma {:induction false} HasMin(xs: set<nat>)
    requires xs != {}
    ensures exists m :: IsLeast(m, xs)
    decreases |xs|
  {
    var x :| x in xs;
    var rest := xs - {x};
    if rest == {} {
      forall y | y in xs
        ensures x <= y
      {
        assert y !in rest;
      }
      assert IsLeast(x, xs);
    } else {
      HasMin(rest);
      var m :| IsLeast(m, rest);
      var least := if x < m then x else m;
      forall y | y in xs
        ensures least <= y
      {
        if y != x {
          assert y in rest;
        }
      }
      assert IsLeast(least, xs);
    }
  }

  /** The least element of a non-empty set. */
  function Min(xs: set<nat>): (m: nat)
    requires xs != {}
    ensures m in xs && forall y :: y in xs ==> m <= y
  {
    HasMin(xs);
    var m :| IsLeast(m, xs);
    m
  }

  /** Python's `sorted` of a set of numbers: each element once, ascending. */
  function Sorted(xs: set<nat>): (r: seq<nat>)
    ensures |r| == |xs|
    ensures forall x :: x in xs <==> x in r
    ensures forall i, j :: 0 <= i < j < |r| ==> r[i] < r[j]
    decreases |xs|
  {
    if xs == {} then []
    else
      var m := Min(xs);
      var rest := Sorted(xs - {m});
      LeastThenSorted(xs, m, rest);
      [m] + rest
  }

  /** The least element of `xs` in front of the ascending listing of the
      others is the ascending listing of `xs`. */
  lemma LeastThenSorted(xs: set<nat>, m: nat, rest: seq<nat>)
    requires IsLeast(m, xs)
    requires |rest| == |xs - {m}|
    requires forall x :: x in xs - {m} <==> x in rest
    requires forall i, j :: 0 <= i < j < |rest| ==> rest[i] < rest[j]
    ensures |[m] + rest| == |xs|
    ensures forall x :: x in xs <==> x in [m] + rest
    ensures forall i, j :: 0 <= i < j < |[m] + rest| ==> ([m] + rest)[i] < ([m] + rest)[j]
  {
    var r := [m] + rest;
    forall j | 0 <= j < |rest|
      ensures m < rest[j]
    {
      assert rest[j] in xs - {m};
    }
    forall i, j | 0 <= i < j < |r|
      ensures r[i] < r[j]
    {
      assert r[j] == rest[j - 1];
      if i > 0 {
        assert r[i] == rest[i - 1];
      }
    }
    forall x
      ensures x in xs <==> x in r
    {
      assert x in r <==> x == m || x in rest;
    }
  }

  /** A found number and the message that proved it. */
  datatype Entry = Entry(number: nat, message: Game.MessageId)

  /** One player's line: who, how many, and which. */
  datatype Line = Line(user: Game.UserId, count: nat, entries: seq<Entry>)

  /** The whole stats answer, less its text formatting. */
  datatype Report = Report(lastFound: int, lines: seq<Line>)

  /** A found number with no proving message: the store lookup returns
      nothing and the stats command fails. */
  datatype StatsError = MissingLink(number: nat)

  /** `ns[i]` is the first of `ns` without a proving message. */
  ghost predicate FirstMissing(history: map<nat, Game.MessageId>, ns: seq<nat>, i: int) {
    0 <= i < |ns| && ns[i] !in history && forall j :: 0 <= j < i ==> ns[j] in history
  }

  /** The proving messages of `ns`, in the order of `ns`; the first number
      without one stops the lookup. */
  function Links(history: map<nat, Game.MessageId>, ns: seq<nat>): (r: Result<seq<Entry>, StatsError>)
    ensures r.Success? <==> forall i :: 0 <= i < |ns| ==> ns[i] in history
    ensures r.Success? ==>
      (|r.value| == |ns| && forall i :: 0 <= i < |ns| ==> r.value[i] == Entry(ns[i], history[ns[i]]))
    ensures r.Failure? ==>
      exists i :: 0 <= i < |ns| && FirstMissing(history, ns, i) && ns[i] == r.error.number
  {
    if ns == [] then Success([])
    else if ns[0] !in history then Failure(MissingLink(ns[0]))
    else
      match Links(history, ns[1..])
      case Failure(e) =>
        assert exists i :: 0 <= i < |ns| && FirstMissing(history, ns, i) && ns[i] == e.number by {
          var i :| 0 <= i < |ns| - 1 && FirstMissing(history, ns[1..], i) && ns[1..][i] == e.number;
          assert FirstMissing(history, ns, i + 1);
        }
        Failure(e)
      case Success(rest) => Success([Entry(ns[0], history[ns[0]])] + rest)
  }

  /** `line` is what the stats must say about player `u`: their count is the
      size of their set, and their entries list that set in strictly
      ascending order, each number with its proving message. */
  ghost predicate LineReports(s: Game.State, u: Game.UserId, line: Line) {
    && line.user == u
    && line.count == |Game.SubmissionsOf(s, u)|
    && |line.entries| == line.count
    && (forall i, j :: 0 <= i < j < |line.entries| ==> line.entries[i].number < line.entries[j].number)
    && (forall n :: n in Game.SubmissionsOf(s, u) <==>
          exists i :: 0 <= i < |line.entries| && line.entries[i].number == n)
    && (forall i :: 0 <= i < |line.entries| ==>
          line.entries[i].number in s.history && line.entries[i].message == s.history[line.entries[i].number])
  }

  /** Every number of player `u` has a proving message. */
  ghost predicate Linked(s: Game.State, u: Game.UserId) {
    Game.SubmissionsOf(s, u) <= s.history.Keys
  }

  /** One player's line; it fails when one of their numbers has no proving message. */
  function LineFor(s: Game.State, u: Game.UserId): (r: Result<Line, StatsError>)
    ensures r.Success? <==> Linked(s, u)
    ensures r.Success? ==> LineReports(s, u, r.value)
  {
    var nums := Game.SubmissionsOf(s, u);
    var sorted := Sorted(nums);
    match Links(s.history, sorted)
    case Failure(e) =>
      assert !(nums <= s.history.Keys) by {
        var i :| 0 <= i < |sorted| && FirstMissing(s.history, sorted, i);
        assert sorted[i] in nums;
      }
      Failure(e)
    case Success(entries) =>
      SortedLinksReport(s, u, sorted, entries);
      Success(Line(u, |nums|, entries))
  }

  /** A successful lookup over the sorted set yields the line the stats must show. */
  lemma SortedLinksReport(s: Game.State, u: Game.UserId, sorted: seq<nat>, entries: seq<Entry>)
    requires sorted == Sorted(Game.SubmissionsOf(s, u))
    requires Links(s.history, sorted) == Success(entries)
    ensures Linked(s, u)
    ensures LineReports(s, u, Line(u, |Game.SubmissionsOf(s, u)|, entries))
  {
    EntriesFollow(s.history, sorted, entries);
    EntriesReport(s, u, sorted, entries);
  }

  /** A successful lookup pairs each number with its own message. */
  lemma EntriesFollow(history: map<nat, Game.MessageId>, ns: seq<nat>, entries: seq<Entry>)
    requires Links(history, ns) == Success(entries)
    ensures |entries| == |ns|
    ensures forall i :: 0 <= i < |ns| ==>
      entries[i].number == ns[i] && ns[i] in history && entries[i].message == history[ns[i]]
  {
  }

  /** Entries that follow the sorted set, message by message, report the player faithfully. */
  lemma EntriesReport(s: Game.State, u: Game.UserId, sorted: seq<nat>, entries: seq<Entry>)
    requires |sorted| == |Game.SubmissionsOf(s, u)|
    requires forall x :: x in Game.SubmissionsOf(s, u) <==> x in sorted
    requires forall i, j :: 0 <= i < j < |sorted| ==> sorted[i] < sorted[j]
    requires |entries| == |sorted|
    requires forall i :: 0 <= i < |sorted| ==>
      entries[i].number == sorted[i] && sorted[i] in s.history && entries[i].message == s.history[sorted[i]]
    ensures Linked(s, u)
    ensures LineReports(s, u, Line(u, |Game.SubmissionsOf(s, u)|, entries))
  {
    var nums := Game.SubmissionsOf(s, u);
    forall n | n in nums
      ensures n in s.history && exists i :: 0 <= i < |entries| && entries[i].number == n
    {
      var i :| 0 <= i < |sorted| && sorted[i] == n;
      assert entries[i].number == n;
    }
    forall n | exists i :: 0 <= i < |entries| && entries[i].number == n
      ensures n in nums
    {
      var i :| 0 <= i < |entries| && entries[i].number == n;
      assert sorted[i] == n;
    }
  }

  /** The lines of a scan, given the line of its first player and the lines of the rest. */
  lemma LinesCons(s: Game.State, scan: seq<Game.UserId>, line: Line, rest: seq<Line>)
    requires scan != [] && LineReports(s, scan[0], line) && Linked(s, scan[0])
    requires |rest| == |scan| - 1
    requires forall i :: 0 <= i < |scan| - 1 ==> LineReports(s, scan[1..][i], rest[i])
    requires forall i :: 0 <= i < |scan| - 1 ==> Linked(s, scan[1..][i])
    ensures forall i :: 0 <= i < |scan| ==> LineReports(s, scan[i], ([line] + rest)[i]) && Linked(s, scan[i])
  {
    forall i | 0 <= i < |scan|
      ensures LineReports(s, scan[i], ([line] + rest)[i]) && Linked(s, scan[i])
    {
      if i > 0 {
        assert ([line] + rest)[i] == rest[i - 1] && scan[i] == scan[1..][i - 1];
      }
    }
  }

  /** A scan whose tail has a player with an unlinked number has one too. */
  lemma UnlinkedInTail(s: Game.State, scan: seq<Game.UserId>)
    requires scan != [] && exists i :: 0 <= i < |scan| - 1 && !Linked(s, scan[1..][i])
    ensures exists i :: 0 <= i < |scan| && !Linked(s, scan[i])
  {
    var i :| 0 <= i < |scan| - 1 && !Linked(s, scan[1..][i]);
    assert scan[1..][i] == scan[i + 1];
  }

  /** The players' lines in the order the store's scan lists their keys. */
  function Lines(s: Game.State, scan: seq<Game.UserId>): (r: Result<seq<Line>, StatsError>)
    ensures r.Success? <==> forall i :: 0 <= i < |scan| ==> Linked(s, scan[i])
    ensures r.Success? ==>
      (|r.value| == |scan| && forall i :: 0 <= i < |scan| ==> LineReports(s, scan[i], r.value[i]))
  {
    if scan == [] then Success([])
    else
      match LineFor(s, scan[0])
      case Failure(e) => Failure(e)
      case Success(line) =>
        match Lines(s, scan[1..])
        case Failure(e) =>
          UnlinkedInTail(s, scan);
          Failure(e)
        case Success(rest) =>
          LinesCons(s, scan, line, rest);
          Success([line] + rest)
  }

  /** The stats command: the last number found, then one line per scanned player. */
  function Stats(s: Game.State, scan: seq<Game.UserId>): (r: Result<Report, StatsError>)
    ensures r.Success? <==> forall i :: 0 <= i < |scan| ==> Linked(s, scan[i])
    ensures r.Success? ==>
      && r.value.lastFound == s.current
      && |r.value.lines| == |scan|
      && forall i :: 0 <= i < |scan| ==> LineReports(s, scan[i], r.value.lines[i])
  {
    match Lines(s, scan)
    case Failure(e) => Failure(e)
    case Success(lines) => Success(Report(s.current, lines))
  }

  /** In a consistent game the stats never fail, whatever the scan returns. */
  lemma StatsSucceed(s: Game.State, scan: seq<Game.UserId>)
    requires Game.Inv(s)
    ensures Stats(s, scan).Success?
  {
    Game.InvIsPartition(s);
    forall i | 0 <= i < |scan|
      ensures Linked(s, scan[i])
    {
      assert Game.SubmissionsOf(s, scan[i]) <= s.history.Keys;
    }
  }

  /** The sum of the counts the lines report. */
  function TotalCount(lines: seq<Line>): nat {
    if lines == [] then 0 else lines[0].count + TotalCount(lines[1..])
  }

  /** All the numbers of the players in `us`. */
  ghost function UnionOf(s: Game.State, us: seq<Game.UserId>): (r: set<nat>)
    ensures forall n :: n in r <==> exists i :: 0 <= i < |us| && n in Game.SubmissionsOf(s, us[i])
  {
    if us == [] then {}
    else
      var rest := UnionOf(s, us[1..]);
      assert forall n :: n in rest <==> exists i :: 1 <= i < |us| && n in Game.SubmissionsOf(s, us[i]) by {
        forall n | n in rest
          ensures exists i :: 1 <= i < |us| && n in Game.SubmissionsOf(s, us[i])
        {
          var i :| 0 <= i < |us| - 1 && n in Game.SubmissionsOf(s, us[1..][i]);
          assert n in Game.SubmissionsOf(s, us[i + 1]);
        }
        forall n, i | 1 <= i < |us| && n in Game.SubmissionsOf(s, us[i])
          ensures n in rest
        {
          assert us[1..][i - 1] == us[i];
        }
      }
      Game.SubmissionsOf(s, us[0]) + rest
  }

  /** The scan lists every player at most once. */
  predicate Distinct(scan: seq<Game.UserId>) {
    forall i, j :: 0 <= i < j < |scan| ==> scan[i] != scan[j]
  }

  /** The first scanned player shares no number with the players after them. */
  lemma FirstDisjointFromRest(s: Game.State, scan: seq<Game.UserId>)
    requires Game.SingleFinder(s) && Distinct(scan) && scan != []
    ensures Game.SubmissionsOf(s, scan[0]) !! UnionOf(s, scan[1..])
  {
    forall n | n in Game.SubmissionsOf(s, scan[0]) && n in UnionOf(s, scan[1..])
      ensures false
    {
      var i :| 0 <= i < |scan| - 1 && n in Game.SubmissionsOf(s, scan[1..][i]);
      assert scan[i + 1] != scan[0];
      assert Game.FoundBy(s, scan[0], n) && Game.FoundBy(s, scan[i + 1], n);
    }
  }

  /** When no number has two finders, over a scan without repeats, the counts
      add up to the number of distinct numbers the scanned players found. */
  lemma {:induction false} CountsAreUnionSize(s: Game.State, scan: seq<Game.UserId>, lines: seq<Line>)
    requires Game.SingleFinder(s) && Distinct(scan)
    requires |lines| == |scan| && forall i :: 0 <= i < |scan| ==> lines[i].count == |Game.SubmissionsOf(s, scan[i])|
    ensures TotalCount(lines) == |UnionOf(s, scan)|
  {
    if scan != [] {
      assert Distinct(scan[1..]);
      CountsAreUnionSize(s, scan[1..], lines[1..]);
      FirstDisjointFromRest(s, scan);
      assert UnionOf(s, scan) == Game.SubmissionsOf(s, scan[0]) + UnionOf(s, scan[1..]);
    }
  }

  /** When the scan lists every player, the scanned players found exactly
      the numbers 1 to `current`. */
  lemma UnionIsRange(s: Game.State, scan: seq<Game.UserId>)
    requires Game.Inv(s)
    requires forall u :: u in s.submissions ==> u in scan
    ensures UnionOf(s, scan) == Game.Range(s.current)
  {
    Game.SetsCoverRange(s);
    forall n | n in Game.Range(s.current)
      ensures n in UnionOf(s, scan)
    {
      var u :| u in s.submissions && n in s.submissions[u];
      var i :| 0 <= i < |scan| && scan[i] == u;
      assert n in Game.SubmissionsOf(s, scan[i]);
    }
    forall n | n in UnionOf(s, scan)
      ensures n in Game.Range(s.current)
    {
      var i :| 0 <= i < |scan| && n in Game.SubmissionsOf(s, scan[i]);
      assert scan[i] in s.submissions && n in s.submissions[scan[i]];
    }
  }

  /** In a consistent game, when the scan lists every player's key exactly
      once, the per-player counts add up to the last number found: every
      found number is counted, and counted once. */
  lemma CountsAddUp(s: Game.State, scan: seq<Game.UserId>)
    requires Game.Inv(s) && Distinct(scan)
    requires forall u :: u in s.submissions ==> u in scan
    ensures Stats(s, scan).Success?
    ensures TotalCount(Stats(s, scan).value.lines) == s.current
  {
    StatsSucceed(s, scan);
    var lines := Stats(s, scan).value.lines;
    forall i | 0 <= i < |scan|
      ensures lines[i].count == |Game.SubmissionsOf(s, scan[i])|
    {
      assert LineReports(s, scan[i], lines[i]);
    }
    assert Game.SingleFinder(s);
    CountsAreUnionSize(s, scan, lines);
    UnionIsRange(s, scan);
    Game.RangeSize(s.current);
  }
}
