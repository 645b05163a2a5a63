/** Players of a replay, their ordering by team, and the grouping of the
    ordered list into teams. */
module Players {
  import opened Cursor

  /** One decoded player record. The name and race are the raw bytes read from
      the blob. */
  datatype Player = Player(name: seq<byte>, race: seq<byte>, team: nat, color: string)

  predicate SortedByTeam(ps: seq<Player>) {
    forall i, j | 0 <= i < j < |ps| :: ps[i].team <= ps[j].team
  }

  /** The players on team `t`, in list order. */
  function OnTeam(ps: seq<Player>, t: nat): seq<Player> {
    if |ps| == 0 then []
    else (if ps[0].team == t then [ps[0]] else []) + OnTeam(ps[1..], t)
  }

  /** The teams that have at least one player. */
  function TeamsOf(ps: seq<Player>): set<nat> {
    set p | p in ps :: p.team
  }

  // ----- stable sort by team -----

  /** Inserts `p` into a team-ordered list after every player whose team is not
      greater, so that among equal teams it comes last. */
  function InsertByTeam(s: seq<Player>, p: Player): (r: seq<Player>)
    ensures multiset(r) == multiset(s) + multiset{p}
    ensures |r| == |s| + 1
  {
    if |s| == 0 then [p]
    else
      assert s == [s[0]] + s[1..];
      if s[0].team <= p.team then [s[0]] + InsertByTeam(s[1..], p) else [p] + s
  }

  /** `sorted(players, key=team)`: Python's sort is stable, so players of the
      same team keep their order. Written as an insertion sort. */
  function SortByTeam(ps: seq<Player>): (r: seq<Player>)
    ensures multiset(r) == multiset(ps)
    ensures SortedByTeam(r)
    ensures forall t :: OnTeam(r, t) == OnTeam(ps, t)
  {
    if |ps| == 0 then []
    else
      var front, last := ps[..|ps| - 1], ps[|ps| - 1];
      assert ps == front + [last];
      var r := InsertByTeam(SortByTeam(front), last);
      InsertSorted(SortByTeam(front), last);
      forall t ensures OnTeam(r, t) == OnTeam(ps, t) {
        InsertOnTeam(SortByTeam(front), last, t);
        OnTeamAppend(front, [last], t);
      }
      r
  }

  /** Inserting into a team-ordered list keeps it ordered. */
  lemma {:induction false} InsertSorted(s: seq<Player>, p: Player)
    requires SortedByTeam(s)
    ensures SortedByTeam(InsertByTeam(s, p))
  {
    if |s| > 0 && s[0].team <= p.team {
      InsertSorted(s[1..], p);
      var r := InsertByTeam(s[1..], p);
      assert forall q | q in r :: s[0].team <= q.team by {
        assert multiset(r) == multiset(s[1..]) + multiset{p};
        forall q | q in r ensures s[0].team <= q.team {
          assert q in multiset(r);
        }
      }
    }
  }

  /** A filter distributes over concatenation. */
  lemma {:induction false} OnTeamAppend(a: seq<Player>, b: seq<Player>, t: nat)
    ensures OnTeam(a + b, t) == OnTeam(a, t) + OnTeam(b, t)
  {
    if |a| > 0 {
      assert (a + b)[1..] == a[1..] + b;
      OnTeamAppend(a[1..], b, t);
    } else {
      assert a + b == b;
    }
  }

  /** A team-ordered list whose first team is above `t` has nobody on team `t`. */
  lemma {:induction false} NobodyBelow(s: seq<Player>, t: nat)
    requires SortedByTeam(s) && (|s| > 0 ==> t < s[0].team)
    ensures OnTeam(s, t) == []
  {
    if |s| > 1 {
      NobodyBelow(s[1..], t);
    }
  }

  /** Inserting `p` adds it at the end of its own team and changes no other. */
  lemma {:induction false} InsertOnTeam(s: seq<Player>, p: Player, t: nat)
    requires SortedByTeam(s)
    ensures OnTeam(InsertByTeam(s, p), t) == OnTeam(s, t) + (if p.team == t then [p] else [])
  {
    if |s| > 0 {
      if s[0].team <= p.team {
        var r := InsertByTeam(s[1..], p);
        InsertOnTeam(s[1..], p, t);
        assert InsertByTeam(s, p) == [s[0]] + r;
        assert ([s[0]] + r)[1..] == r;
        assert OnTeam(InsertByTeam(s, p), t) == (if s[0].team == t then [s[0]] else []) + OnTeam(r, t);
      } else {
        if p.team == t {
          NobodyBelow(s, t);
        }
        assert InsertByTeam(s, p)[1..] == s;
      }
    }
  }

  lemma FirstIsOnItsTeam(s: seq<Player>)
    requires |s| > 0
    ensures OnTeam(s, s[0].team) != []
  {
  }

  /** A stable sort by team has exactly one possible result: two team-ordered
      lists with the same players on every team, in the same order, are equal.
      So the insertion sort gives what any stable sort, Python's included, gives. */
  lemma {:induction false} StableSortUnique(a: seq<Player>, b: seq<Player>)
    requires SortedByTeam(a) && SortedByTeam(b)
    requires forall t :: OnTeam(a, t) == OnTeam(b, t)
    ensures a == b
    decreases |a| + |b|
  {
    if |a| == 0 || |b| == 0 {
      // the empty one has nobody on the first team of the other
      if |a| > 0 {
        FirstIsOnItsTeam(a);
        assert false;
      } else if |b| > 0 {
        FirstIsOnItsTeam(b);
        assert false;
      }
    } else {
      var m := a[0].team;
      if m < b[0].team {
        NobodyBelow(b, m);
        FirstIsOnItsTeam(a);
        assert false;
      } else if b[0].team < m {
        NobodyBelow(a, b[0].team);
        FirstIsOnItsTeam(b);
        assert false;
      } else {
        assert OnTeam(a, m)[0] == a[0] && OnTeam(b, m)[0] == b[0];
        assert a[0] == b[0];
        forall t ensures OnTeam(a[1..], t) == OnTeam(b[1..], t) {
          var x := if t == m then [a[0]] else [];
          assert OnTeam(a, t) == x + OnTeam(a[1..], t);
          assert OnTeam(b, t) == x + OnTeam(b[1..], t);
          assert OnTeam(a[1..], t) == (x + OnTeam(a[1..], t))[|x|..];
          assert OnTeam(b[1..], t) == (x + OnTeam(b[1..], t))[|x|..];
        }
        StableSortUnique(a[1..], b[1..]);
        assert a == [a[0]] + a[1..] && b == [b[0]] + b[1..];
      }
    }
  }

  // ----- grouping into teams -----

  /** `itertools.groupby(players, key=team)`: maximal runs of consecutive
      players of one team, each with its team. */
  function GroupRuns(ps: seq<Player>): seq<(nat, seq<Player>)> {
    if |ps| == 0 then []
    else
      var rest := GroupRuns(ps[1..]);
      if |rest| > 0 && rest[0].0 == ps[0].team then [(rest[0].0, [ps[0]] + rest[0].1)] + rest[1..]
      else [(ps[0].team, [ps[0]])] + rest
  }

  /** `dict(pairs)`: a later pair overrides an earlier one with the same key. */
  function DictOf(pairs: seq<(nat, seq<Player>)>): map<nat, seq<Player>> {
    if |pairs| == 0 then map[]
    else
      var later := DictOf(pairs[1..]);
      if pairs[0].0 in later then later else later[pairs[0].0 := pairs[0].1]
  }

  /** The replay's `teams`: the runs of the player list, as a dictionary. */
  function Teams(ps: seq<Player>): map<nat, seq<Player>> {
    DictOf(GroupRuns(ps))
  }

  /** The runs of a team-ordered list start with its first team and every later
      run has a greater team; the run teams are teams of the list. */
  lemma RunsOfSorted(ps: seq<Player>)
    requires SortedByTeam(ps)
    ensures |ps| > 0 ==> |GroupRuns(ps)| > 0 && GroupRuns(ps)[0].0 == ps[0].team
    ensures forall i | 1 <= i < |GroupRuns(ps)| :: ps[0].team < GroupRuns(ps)[i].0
    ensures DictOf(GroupRuns(ps)).Keys == TeamsOf(ps)
  {
    RunsAfterFirst(ps);
    RunKeys(ps);
  }

  /** The ordering half of `RunsOfSorted`. */
  lemma {:induction false} RunsAfterFirst(ps: seq<Player>)
    requires SortedByTeam(ps)
    ensures |ps| > 0 ==> |GroupRuns(ps)| > 0 && GroupRuns(ps)[0].0 == ps[0].team
    ensures forall i | 1 <= i < |GroupRuns(ps)| :: ps[0].team < GroupRuns(ps)[i].0
  {
    if |ps| > 0 {
      var tail := ps[1..];
      RunsAfterFirst(tail);
      var rest, runs := GroupRuns(tail), GroupRuns(ps);
      if |rest| > 0 && rest[0].0 == ps[0].team {
        assert forall i | 0 <= i < |runs| :: runs[i].0 == rest[i].0;
      } else {
        assert forall i | 1 <= i < |runs| :: runs[i] == rest[i - 1];
        assert |rest| > 0 ==> ps[0].team <= tail[0].team;
      }
    }
  }

  /** The keys of the `teams` dictionary are the teams present, whatever the
      order of the list. */
  lemma {:induction false} RunKeys(ps: seq<Player>)
    ensures DictOf(GroupRuns(ps)).Keys == TeamsOf(ps)
  {
    if |ps| > 0 {
      var tail, k := ps[1..], ps[0].team;
      RunKeys(tail);
      assert TeamsOf(ps) == {k} + TeamsOf(tail) by {
        assert ps == [ps[0]] + tail;
      }
      var rest, runs := GroupRuns(tail), GroupRuns(ps);
      if |rest| > 0 && rest[0].0 == k {
        assert runs[1..] == rest[1..];
        assert DictOf(rest).Keys == {k} + DictOf(rest[1..]).Keys;
      } else {
        assert runs[1..] == rest;
      }
      assert DictOf(runs).Keys == {k} + DictOf(runs[1..]).Keys;
    }
  }

  /** The runs of a team-ordered list rise strictly by team, so no team forms
      two runs and `dict` never overrides one run by a later one. */
  lemma {:induction false} RunsRise(ps: seq<Player>)
    requires SortedByTeam(ps)
    ensures forall i, j | 0 <= i < j < |GroupRuns(ps)| :: GroupRuns(ps)[i].0 < GroupRuns(ps)[j].0
  {
    if |ps| > 0 {
      var tail := ps[1..];
      RunsRise(tail);
      RunsOfSorted(tail);
      var rest, runs := GroupRuns(tail), GroupRuns(ps);
      if |rest| > 0 && rest[0].0 == ps[0].team {
        // the first player joins the first run: the run teams are unchanged
        assert forall i | 0 <= i < |runs| :: runs[i].0 == rest[i].0;
      } else if |rest| > 0 {
        // a new run in front, below the first run of the rest
        assert ps[0].team <= tail[0].team;
        assert forall i | 1 <= i < |runs| :: runs[i] == rest[i - 1];
      }
    }
  }

  /** The keys of a dictionary built from pairs are the pairs' keys. */
  lemma {:induction false} DictKeys(pairs: seq<(nat, seq<Player>)>)
    ensures DictOf(pairs).Keys == set i | 0 <= i < |pairs| :: pairs[i].0
  {
    if |pairs| > 0 {
      DictKeys(pairs[1..]);
      var s := set i | 0 <= i < |pairs| :: pairs[i].0;
      var s1 := set i | 0 <= i < |pairs[1..]| :: pairs[1..][i].0;
      assert s == {pairs[0].0} + s1 by {
        forall k | k in s ensures k in {pairs[0].0} + s1 {
          var i :| 0 <= i < |pairs| && pairs[i].0 == k;
          if i > 0 {
            assert pairs[1..][i - 1].0 == k;
          }
        }
        forall k | k in s1 ensures k in s {
          var i :| 0 <= i < |pairs[1..]| && pairs[1..][i].0 == k;
          assert pairs[i + 1].0 == k;
        }
      }
    }
  }

  /** Grouping a team-ordered list gives each team exactly its players, in
      list order, and no other keys: because the list is ordered, every team
      forms one run and no run is overridden by a later one. */
  lemma {:induction false} TeamsOfSorted(ps: seq<Player>)
    requires SortedByTeam(ps)
    ensures Teams(ps).Keys == TeamsOf(ps)
    ensures forall t | t in Teams(ps) :: Teams(ps)[t] == OnTeam(ps, t)
  {
    RunsOfSorted(ps);
    if |ps| > 0 {
      TeamsOfSorted(ps[1..]);
      RunsOfSorted(ps[1..]);
      var rest := GroupRuns(ps[1..]);
      if |rest| > 0 && rest[0].0 == ps[0].team {
        JoinsFirstRun(ps);
      } else {
        StartsNewRun(ps);
      }
    }
  }

  /** The first player joins the first run of the rest, which holds its team. */
  lemma {:induction false} JoinsFirstRun(ps: seq<Player>)
    requires SortedByTeam(ps) && |ps| > 0
    requires var rest := GroupRuns(ps[1..]); |rest| > 0 && rest[0].0 == ps[0].team
    requires forall i | 1 <= i < |GroupRuns(ps[1..])| :: ps[1..][0].team < GroupRuns(ps[1..])[i].0
    requires forall t | t in Teams(ps[1..]) :: Teams(ps[1..])[t] == OnTeam(ps[1..], t)
    ensures forall t | t in Teams(ps) :: Teams(ps)[t] == OnTeam(ps, t)
  {
    var tail := ps[1..];
    var rest := GroupRuns(tail);
    var k := ps[0].team;
    assert k !in DictOf(rest[1..]) by {
      DictKeys(rest[1..]);
      assert forall i | 0 <= i < |rest[1..]| :: rest[1..][i].0 == rest[i + 1].0;
    }
    forall t | t in Teams(ps) ensures Teams(ps)[t] == OnTeam(ps, t) {
      if t != k {
        assert OnTeam(ps, t) == OnTeam(tail, t);
      }
    }
  }

  /** The first player starts a run of its own: nobody after it shares its team. */
  lemma {:induction false} StartsNewRun(ps: seq<Player>)
    requires SortedByTeam(ps) && |ps| > 0
    requires var rest := GroupRuns(ps[1..]); !(|rest| > 0 && rest[0].0 == ps[0].team)
    requires |ps[1..]| > 0 ==> GroupRuns(ps[1..])[0].0 == ps[1..][0].team
    requires DictOf(GroupRuns(ps[1..])).Keys == TeamsOf(ps[1..])
    requires forall t | t in Teams(ps[1..]) :: Teams(ps[1..])[t] == OnTeam(ps[1..], t)
    ensures forall t | t in Teams(ps) :: Teams(ps)[t] == OnTeam(ps, t)
  {
    var tail := ps[1..];
    var k := ps[0].team;
    if |tail| > 0 {
      assert k < tail[0].team;
      NobodyBelow(tail, k);
    }
    assert k !in TeamsOf(tail);
    forall t | t in Teams(ps) ensures Teams(ps)[t] == OnTeam(ps, t) {
      if t != k {
        assert OnTeam(ps, t) == OnTeam(tail, t);
      }
    }
  }
}
