/**
 * The store behind `backend/db.py`, as in-memory values: the append-only
 * `attacks` log (a row's serial id is its position plus one, so "ORDER BY id
 * DESC" means "latest position first") and the `subscriptions` table with its
 * UNIQUE(user_id, region) constraint and per-row ban flag.
 */
module Store {
  import opened Wrappers
  import opened Seqs

  /** One row of the `attacks` table. */
  datatype Attack = Attack(region: string, kind: string, status: string, source: string, timestamp: string)

  /** The `attacks` table in id order. */
  type Log = seq<Attack>

  predicate KeyedBy(a: Attack, region: string, kind: string) {
    a.region == region && a.kind == kind
  }

  /** `save_attack`: a single INSERT, whose serial id places the new row last. */
  function SaveAttack(log: Log, region: string, kind: string, status: string, source: string, timestamp: string): (log': Log)
    ensures |log'| == |log| + 1 && log'[..|log|] == log
    ensures log'[|log|] == Attack(region, kind, status, source, timestamp)
  {
    log + [Attack(region, kind, status, source, timestamp)]
  }

  /** Position of the highest-id row for a (region, type) key. */
  function LatestIndex(log: Log, region: string, kind: string): (r: Option<nat>)
    ensures r.None? <==> forall i :: 0 <= i < |log| ==> !KeyedBy(log[i], region, kind)
    ensures r.Some? ==> r.value < |log| && KeyedBy(log[r.value], region, kind)
    ensures r.Some? ==> forall j :: r.value < j < |log| ==> !KeyedBy(log[j], region, kind)
  {
    if |log| == 0 then None
    else if KeyedBy(log[|log| - 1], region, kind) then Some(|log| - 1)
    else LatestIndex(log[..|log| - 1], region, kind)
  }

  /** `get_last_status(region, attack_type)`: the status of the highest-id
      row for the key, or `None` when the key has no row. */
  function LastStatus(log: Log, region: string, kind: string): (r: Option<string>)
    ensures r.None? <==> forall i :: 0 <= i < |log| ==> !KeyedBy(log[i], region, kind)
    ensures r.Some? ==> exists i :: 0 <= i < |log| && KeyedBy(log[i], region, kind) && log[i].status == r.value
  {
    match LatestIndex(log, region, kind)
    case None => None
    case Some(i) => Some(log[i].status)
  }

  /** The last status is decided by the last row when it has the key, and by
      the earlier rows otherwise. */
  lemma LastStatusStep(log: Log, region: string, kind: string)
    requires |log| > 0
    ensures LastStatus(log, region, kind) ==
      if KeyedBy(log[|log| - 1], region, kind) then Some(log[|log| - 1].status)
      else LastStatus(log[..|log| - 1], region, kind)
  {
  }

  /** After `save_attack` the saved status is the key's last status, and
      every other key's last status is unchanged. */
  lemma SaveThenLastStatus(log: Log, region: string, kind: string, status: string, source: string, timestamp: string,
                           region': string, kind': string)
    ensures var log' := SaveAttack(log, region, kind, status, source, timestamp);
      LastStatus(log', region', kind') ==
        if region' == region && kind' == kind then Some(status) else LastStatus(log, region', kind')
  {
    var log' := SaveAttack(log, region, kind, status, source, timestamp);
    LastStatusStep(log', region', kind');
    assert log'[..|log'| - 1] == log;
  }

  /** The type -> status map of `get_last_status(region)` without a type:
      one entry per type the region has rows for, holding the latest status. */
  function RegionStatuses(log: Log, region: string): (m: map<string, string>)
    ensures forall k :: k in m <==> LastStatus(log, region, k).Some?
    ensures forall k :: k in m ==> m[k] == LastStatus(log, region, k).value
  {
    if |log| == 0 then map[]
    else
      var prev := RegionStatuses(log[..|log| - 1], region);
      var a := log[|log| - 1];
      var m := if a.region == region then prev[a.kind := a.status] else prev;
      assert forall k :: (LastStatus(log, region, k) ==
        if KeyedBy(a, region, k) then Some(a.status) else LastStatus(log[..|log| - 1], region, k)) by {
        forall k ensures LastStatus(log, region, k) ==
          (if KeyedBy(a, region, k) then Some(a.status) else LastStatus(log[..|log| - 1], region, k)) {
          LastStatusStep(log, region, k);
        }
      }
      m
  }

  /** What `get_last_status` answers: one status when a non-empty type is
      given, the region's whole type -> status map otherwise. */
  datatype StatusAnswer =
    | KindStatus(status: Option<string>)
    | RegionReport(region: string, statuses: map<string, string>)

  /** `get_last_status(region, attack_type)`; Python's `if attack_type:`
      treats both `None` and the empty string as "no type". */
  function GetLastStatus(log: Log, region: string, kind: Option<string>): (r: StatusAnswer)
    ensures kind.Some? && kind.value != "" ==> r == KindStatus(LastStatus(log, region, kind.value))
    ensures kind.None? || kind.value == "" ==>
      && r.RegionReport? && r.region == region
      && (forall k :: k in r.statuses <==> LastStatus(log, region, k).Some?)
      && (forall k :: k in r.statuses ==> Some(r.statuses[k]) == LastStatus(log, region, k))
  {
    if kind.Some? && kind.value != "" then KindStatus(LastStatus(log, region, kind.value))
    else RegionReport(region, RegionStatuses(log, region))
  }

  /** A region's rows in id order. */
  function RegionRows(log: Log, region: string): (rows: seq<Attack>)
    ensures |rows| <= |log|
    ensures forall i :: 0 <= i < |rows| ==> rows[i].region == region && rows[i] in log
  {
    if |log| == 0 then []
    else
      var a := log[|log| - 1];
      var prev := RegionRows(log[..|log| - 1], region);
      assert forall x :: x in log[..|log| - 1] ==> x in log;
      prev + (if a.region == region then [a] else [])
  }

  function Min(a: nat, b: nat): nat {
    if a <= b then a else b
  }

  /** `get_attacks_by_region(region, limit)`: the region's rows newest
      first, at most `limit` of them. */
  function AttacksByRegion(log: Log, region: string, limit: nat): (r: seq<Attack>)
    ensures |r| == Min(limit, |RegionRows(log, region)|)
    ensures forall i :: 0 <= i < |r| ==> r[i].region == region && r[i] in log
    ensures forall i :: 0 <= i < |r| ==>
      r[i] == RegionRows(log, region)[|RegionRows(log, region)| - 1 - i]
  {
    var rows := RegionRows(log, region);
    seq(Min(limit, |rows|), i requires 0 <= i < Min(limit, |rows|) => rows[|rows| - 1 - i])
  }

  /** The newest row `get_attacks_by_region` lists agrees with `get_last_status`
      for that row's type. */
  lemma {:induction false} NewestRowIsLastStatus(log: Log, region: string, limit: nat)
    requires |AttacksByRegion(log, region, limit)| > 0
    ensures var h := AttacksByRegion(log, region, limit)[0];
      LastStatus(log, region, h.kind) == Some(h.status)
    decreases |log|
  {
    var h := AttacksByRegion(log, region, limit)[0];
    var a := log[|log| - 1];
    var init := log[..|log| - 1];
    LastStatusStep(log, region, h.kind);
    if a.region != region {
      assert RegionRows(log, region) == RegionRows(init, region);
      assert AttacksByRegion(init, region, limit)[0] == h;
      NewestRowIsLastStatus(init, region, limit);
    }
  }

  /** One row of the `subscriptions` table; `ban_user` inserts rows whose region is NULL. */
  datatype Sub = Sub(user: int, region: Option<string>, banned: bool)

  /** The `subscriptions` table in id order. */
  type Subs = seq<Sub>

  /** The table holds the (user, region) pair. */
  predicate Subscribed(t: Subs, user: int, region: string) {
    exists i :: 0 <= i < |t| && t[i].user == user && t[i].region == Some(region)
  }

  /** UNIQUE(user_id, region): no two rows carry the same user and the same
      non-NULL region (NULLs never clash in PostgreSQL). */
  predicate UniquePairs(t: Subs) {
    forall i, j :: 0 <= i < j < |t| && t[i].region.Some? ==>
      !(t[i].user == t[j].user && t[i].region == t[j].region)
  }

  datatype Added = Added(table: Subs, added: bool)

  /** `add_subscription`: INSERT ... ON CONFLICT DO NOTHING; reports whether a
      row was inserted. The new row is not banned even if the user is. */
  function AddSubscription(t: Subs, user: int, region: string): (r: Added)
    ensures r.added <==> !Subscribed(t, user, region)
    ensures Subscribed(r.table, user, region)
    ensures !r.added ==> r.table == t
    ensures r.added ==> r.table == t + [Sub(user, Some(region), false)]
    ensures UniquePairs(t) ==> UniquePairs(r.table)
  {
    if Subscribed(t, user, region) then Added(t, false)
    else
      var t' := t + [Sub(user, Some(region), false)];
      assert t'[|t|].user == user && t'[|t|].region == Some(region);
      Added(t', true)
  }

  /** The rows that survive `DELETE ... WHERE user_id = user AND region = region`. */
  function WithoutPair(t: Subs, user: int, region: Option<string>): (r: Subs)
    ensures |r| <= |t|
    ensures forall x :: x in r <==> x in t && !(x.user == user && x.region == region && region.Some?)
  {
    if |t| == 0 then []
    else
      var x := t[0];
      (if x.user == user && x.region == region && region.Some? then [] else [x]) + WithoutPair(t[1..], user, region)
  }

  /** Deleting a user's rows can take away only that user's flags. */
  lemma WithoutPairBans(t: Subs, user: int, region: Option<string>)
    ensures forall u :: IsBanned(WithoutPair(t, user, region), u) ==> IsBanned(t, u)
    ensures forall u :: u != user && IsBanned(t, u) ==> IsBanned(WithoutPair(t, user, region), u)
  {
    var t' := WithoutPair(t, user, region);
    forall u | IsBanned(t', u) ensures IsBanned(t, u) {
      var i :| 0 <= i < |t'| && t'[i].user == u && t'[i].banned;
      assert t'[i] in t;
    }
    forall u | u != user && IsBanned(t, u) ensures IsBanned(t', u) {
      var i :| 0 <= i < |t| && t[i].user == u && t[i].banned;
      assert t[i] in t';
    }
  }

  datatype Removed = Removed(table: Subs, result: bool)

  /** `remove_subscription`: deletes the pair if present and always returns
      True. A NULL region (Python `None`) matches no row under SQL `=`. */
  function RemoveSubscription(t: Subs, user: int, region: Option<string>): (r: Removed)
    ensures r.result
    ensures region.Some? ==> !Subscribed(r.table, user, region.value)
    ensures forall u, g :: Subscribed(r.table, u, g) <==>
      Subscribed(t, u, g) && !(u == user && region == Some(g))
    ensures forall u :: u != user ==> (IsBanned(r.table, u) <==> IsBanned(t, u))
    ensures IsBanned(r.table, user) ==> IsBanned(t, user)
  {
    var t' := WithoutPair(t, user, region);
    WithoutPairBans(t, user, region);
    assert forall u, g :: Subscribed(t', u, g) <==> Subscribed(t, u, g) && !(u == user && region == Some(g)) by {
      forall u, g ensures Subscribed(t', u, g) <==> Subscribed(t, u, g) && !(u == user && region == Some(g)) {
        if Subscribed(t', u, g) {
          var i :| 0 <= i < |t'| && t'[i].user == u && t'[i].region == Some(g);
          assert t'[i] in t;
        }
        if Subscribed(t, u, g) && !(u == user && region == Some(g)) {
          var i :| 0 <= i < |t| && t[i].user == u && t[i].region == Some(g);
          assert t[i] in t';
        }
      }
    }
    Removed(t', true)
  }

  /** Deleting a pair that was just added restores the table exactly. */
  lemma RemoveUndoesAdd(t: Subs, user: int, region: string)
    requires !Subscribed(t, user, region)
    ensures RemoveSubscription(AddSubscription(t, user, region).table, user, Some(region)).table == t
  {
    WithoutAbsentPair(t, user, region);
    WithoutPairAppend(t, Sub(user, Some(region), false), user, Some(region));
  }

  lemma {:induction false} WithoutAbsentPair(t: Subs, user: int, region: string)
    requires !Subscribed(t, user, region)
    ensures WithoutPair(t, user, Some(region)) == t
    decreases |t|
  {
    if |t| > 0 {
      NotSubscribedTail(t, user, region);
      WithoutAbsentPair(t[1..], user, region);
      assert t == [t[0]] + t[1..];
    }
  }

  /** A pair absent from a table is absent from its first row and from the rest. */
  lemma NotSubscribedTail(t: Subs, user: int, region: string)
    requires |t| > 0 && !Subscribed(t, user, region)
    ensures !(t[0].user == user && t[0].region == Some(region))
    ensures !Subscribed(t[1..], user, region)
  {
    forall i | 0 <= i < |t| - 1
      ensures !(t[1..][i].user == user && t[1..][i].region == Some(region))
    {
      assert t[1..][i] == t[i + 1];
    }
  }

  lemma {:induction false} WithoutPairAppend(t: Subs, x: Sub, user: int, region: Option<string>)
    ensures WithoutPair(t + [x], user, region) ==
      WithoutPair(t, user, region) + WithoutPair([x], user, region)
    decreases |t|
  {
    if |t| > 0 {
      var s := t + [x];
      TailOfConcat(t, [x]);
      WithoutPairAppend(t[1..], x, user, region);
      var y := t[0];
      var head := if y.user == user && y.region == region && region.Some? then [] else [y];
      assert WithoutPair(s, user, region) == head + WithoutPair(s[1..], user, region);
      assert WithoutPair(t, user, region) == head + WithoutPair(t[1..], user, region);
      Assoc(head, WithoutPair(t[1..], user, region), WithoutPair([x], user, region));
    } else {
      assert t + [x] == [x];
    }
  }

  /** `get_subscriptions`: the region column of the user's rows, NULL included. */
  function GetSubscriptions(t: Subs, user: int): (r: seq<Option<string>>)
    ensures forall g :: Some(g) in r <==> Subscribed(t, user, g)
    ensures None in r <==> exists i :: 0 <= i < |t| && t[i].user == user && t[i].region.None?
  {
    if |t| == 0 then []
    else
      var rest := GetSubscriptions(t[1..], user);
      assert forall i :: 0 <= i < |t| - 1 ==> t[1..][i] == t[i + 1];
      (if t[0].user == user then [t[0].region] else []) + rest
  }

  /** `get_users_by_region`: every subscriber of the region, banned or not,
      each once when the table keeps its uniqueness constraint. */
  function GetUsersByRegion(t: Subs, region: string): (r: seq<int>)
    ensures forall u :: u in r <==> Subscribed(t, u, region)
    ensures UniquePairs(t) ==> forall i, j :: 0 <= i < j < |r| ==> r[i] != r[j]
  {
    if |t| == 0 then []
    else
      var rest := GetUsersByRegion(t[1..], region);
      assert forall i :: 0 <= i < |t| - 1 ==> t[1..][i] == t[i + 1];
      assert UniquePairs(t) ==> UniquePairs(t[1..]) by {
        if UniquePairs(t) {
          forall i, j | 0 <= i < j < |t| - 1 && t[1..][i].region.Some?
            ensures !(t[1..][i].user == t[1..][j].user && t[1..][i].region == t[1..][j].region)
          {
            assert t[1..][i] == t[i + 1] && t[1..][j] == t[j + 1];
          }
        }
      }
      if t[0].region == Some(region) then
        assert UniquePairs(t) ==> forall j :: 0 <= j < |t| - 1 && t[1..][j].region == Some(region) ==>
          t[1..][j].user != t[0].user by {
          if UniquePairs(t) {
            forall j | 0 <= j < |t| - 1 && t[1..][j].region == Some(region)
              ensures t[1..][j].user != t[0].user
            {
              assert t[1..][j] == t[j + 1];
            }
          }
        }
        assert UniquePairs(t) ==> t[0].user !in rest;
        var r := [t[0].user] + rest;
        assert forall i :: 1 <= i < |r| ==> r[i] == rest[i - 1];
        r
      else rest
  }

  /** `get_all_users`: SELECT DISTINCT user_id over every row, banned rows included. */
  function GetAllUsers(t: Subs): (users: set<int>)
    ensures forall u :: u in users <==> HasRow(t, u)
  {
    set i | 0 <= i < |t| :: t[i].user
  }

  /** Every subscriber of every region is among the broadcast recipients. */
  lemma SubscribersAreAllUsers(t: Subs, region: string, u: int)
    requires u in GetUsersByRegion(t, region)
    ensures u in GetAllUsers(t)
  {
    var i :| 0 <= i < |t| && t[i].user == u && t[i].region == Some(region);
    assert t[i].user in GetAllUsers(t);
  }

  /** `is_banned`: some row of the user carries the flag. */
  predicate IsBanned(t: Subs, user: int)
    ensures IsBanned(t, user) ==> user in GetAllUsers(t)
  {
    exists i :: 0 <= i < |t| && t[i].user == user && t[i].banned
  }

  predicate HasRow(t: Subs, user: int) {
    exists i :: 0 <= i < |t| && t[i].user == user
  }

  /** Every row of `user` with its ban flag set to `flag`. */
  function SetBanFlag(t: Subs, user: int, flag: bool): (r: Subs)
    ensures |r| == |t|
    ensures forall i :: 0 <= i < |t| ==>
      r[i] == if t[i].user == user then t[i].(banned := flag) else t[i]
  {
    seq(|t|, i requires 0 <= i < |t| => if t[i].user == user then t[i].(banned := flag) else t[i])
  }

  /** The outcome of `ban_user`/`unban_user`: the new table and whether the
      user is sent the notice (only when something changed). */
  datatype BanOutcome = BanOutcome(table: Subs, noticeSent: bool)

  /** `ban_user`: for a user not yet banned, flags every row of theirs, or
      inserts a region-less flagged row when they have none; otherwise nothing. */
  function BanUser(t: Subs, user: int): (r: BanOutcome)
    ensures IsBanned(r.table, user)
    ensures r.noticeSent <==> !IsBanned(t, user)
    ensures IsBanned(t, user) ==> r.table == t
    ensures forall u :: u != user ==> (IsBanned(r.table, u) <==> IsBanned(t, u))
    ensures forall u, g :: Subscribed(r.table, u, g) <==> Subscribed(t, u, g)
    ensures UniquePairs(t) ==> UniquePairs(r.table)
    ensures GetAllUsers(r.table) == GetAllUsers(t) + {user}
  {
    if IsBanned(t, user) then
      FlagRows(t, user, true);
      BanOutcome(t, false)
    else if HasRow(t, user) then
      FlagRows(t, user, true);
      BanOutcome(SetBanFlag(t, user, true), true)
    else
      AppendBannedRow(t, user);
      BanOutcome(t + [Sub(user, None, true)], true)
  }

  /** `unban_user`: for a banned user, clears the flag on every row of theirs;
      otherwise nothing. */
  function UnbanUser(t: Subs, user: int): (r: BanOutcome)
    ensures !IsBanned(r.table, user)
    ensures r.noticeSent <==> IsBanned(t, user)
    ensures !IsBanned(t, user) ==> r.table == t
    ensures forall u :: u != user ==> (IsBanned(r.table, u) <==> IsBanned(t, u))
    ensures forall u, g :: Subscribed(r.table, u, g) <==> Subscribed(t, u, g)
    ensures UniquePairs(t) ==> UniquePairs(r.table)
  {
    if IsBanned(t, user) then
      FlagRows(t, user, false);
      BanOutcome(SetBanFlag(t, user, false), true)
    else BanOutcome(t, false)
  }

  /** Setting the flag on a user's rows sets that user's ban state and
      changes nothing else: other users' bans, the subscriptions, the users. */
  lemma FlagRows(t: Subs, user: int, flag: bool)
    requires HasRow(t, user)
    ensures var t' := SetBanFlag(t, user, flag);
      && (IsBanned(t', user) <==> flag)
      && (forall u :: u != user ==> (IsBanned(t', u) <==> IsBanned(t, u)))
      && (forall u, g :: Subscribed(t', u, g) <==> Subscribed(t, u, g))
      && (UniquePairs(t) ==> UniquePairs(t'))
      && user in GetAllUsers(t) && GetAllUsers(t') == GetAllUsers(t)
  {
    var t' := SetBanFlag(t, user, flag);
    var i :| 0 <= i < |t| && t[i].user == user;
    assert t'[i].user == user && t'[i].banned == flag;
    assert user in GetAllUsers(t) by { assert t[i].user in GetAllUsers(t); }
    assert forall u :: u != user ==> (IsBanned(t', u) <==> IsBanned(t, u)) by {
      forall u | u != user ensures IsBanned(t', u) <==> IsBanned(t, u) {
        if IsBanned(t, u) {
          var j :| 0 <= j < |t| && t[j].user == u && t[j].banned;
          assert t'[j] == t[j];
        }
      }
    }
    assert forall u, g :: Subscribed(t', u, g) <==> Subscribed(t, u, g) by {
      forall u, g ensures Subscribed(t', u, g) <==> Subscribed(t, u, g) {
        if Subscribed(t, u, g) {
          var j :| 0 <= j < |t| && t[j].user == u && t[j].region == Some(g);
          assert t'[j].user == u && t'[j].region == Some(g);
        }
      }
    }
    assert UniquePairs(t) ==> UniquePairs(t') by {
      if UniquePairs(t) {
        forall i, j | 0 <= i < j < |t'| && t'[i].region.Some?
          ensures !(t'[i].user == t'[j].user && t'[i].region == t'[j].region)
        {
          assert t[i].user == t'[i].user && t[i].region == t'[i].region;
          assert t[j].user == t'[j].user && t[j].region == t'[j].region;
        }
      }
    }
    assert GetAllUsers(t') == GetAllUsers(t) by {
      forall u | u in GetAllUsers(t') ensures u in GetAllUsers(t) {
        var j :| 0 <= j < |t'| && t'[j].user == u;
        assert t[j].user == u;
      }
      forall u | u in GetAllUsers(t) ensures u in GetAllUsers(t') {
        var j :| 0 <= j < |t| && t[j].user == u;
        assert t'[j].user == u;
      }
    }
  }

  /** Inserting a flagged, region-less row bans that user, adds them to the
      users, and changes nothing else. */
  lemma AppendBannedRow(t: Subs, user: int)
    ensures var t' := t + [Sub(user, None, true)];
      && IsBanned(t', user)
      && (forall u :: u != user ==> (IsBanned(t', u) <==> IsBanned(t, u)))
      && (forall u, g :: Subscribed(t', u, g) <==> Subscribed(t, u, g))
      && (UniquePairs(t) ==> UniquePairs(t'))
      && GetAllUsers(t') == GetAllUsers(t) + {user}
  {
    var t' := t + [Sub(user, None, true)];
    assert t'[|t|].user == user && t'[|t|].banned;
    assert forall u :: u != user ==> (IsBanned(t', u) <==> IsBanned(t, u)) by {
      forall u | u != user ensures IsBanned(t', u) <==> IsBanned(t, u) {
        if IsBanned(t, u) {
          var j :| 0 <= j < |t| && t[j].user == u && t[j].banned;
          assert t'[j] == t[j];
        }
      }
    }
    assert forall u, g :: Subscribed(t', u, g) <==> Subscribed(t, u, g) by {
      forall u, g ensures Subscribed(t', u, g) <==> Subscribed(t, u, g) {
        if Subscribed(t, u, g) {
          var j :| 0 <= j < |t| && t[j].user == u && t[j].region == Some(g);
          assert t'[j] == t[j];
        }
      }
    }
    assert GetAllUsers(t') == GetAllUsers(t) + {user} by {
      forall u | u in GetAllUsers(t') ensures u in GetAllUsers(t) + {user} {
        var j :| 0 <= j < |t'| && t'[j].user == u;
        if j < |t| { assert t[j].user == u; }
      }
      forall u | u in GetAllUsers(t) + {user} ensures u in GetAllUsers(t') {
        if u == user {
          assert t'[|t|].user == u;
        } else {
          var j :| 0 <= j < |t| && t[j].user == u;
          assert t'[j].user == u;
        }
      }
    }
  }

  /** Banning then unbanning a user who was not banned restores the table,
      except for the region-less row inserted for a user who had none. */
  lemma BanThenUnban(t: Subs, user: int)
    requires !IsBanned(t, user)
    ensures UnbanUser(BanUser(t, user).table, user).table ==
      if HasRow(t, user) then t else t + [Sub(user, None, false)]
  {
    var b := BanUser(t, user).table;
    var u := UnbanUser(b, user).table;
    if HasRow(t, user) {
      assert forall i :: 0 <= i < |t| ==> u[i] == t[i] by {
        forall i | 0 <= i < |t| ensures u[i] == t[i] {
          if t[i].user == user {
            assert !t[i].banned;
          }
        }
      }
    } else {
      assert forall i :: 0 <= i < |b| ==> u[i] == b[i].(banned := if b[i].user == user then false else b[i].banned);
      assert forall i :: 0 <= i < |t| ==> t[i].user != user;
    }
  }

  /** Deleting a subscription can lift a ban: the ban lives in the user's
      rows, and when the deleted row was the user's only flagged one, no
      flag is left for `is_banned` to find. */
  lemma RemoveLiftsBan()
    ensures var t := [Sub(1, Some("A"), true)];
      IsBanned(t, 1) && !IsBanned(RemoveSubscription(t, 1, Some("A")).table, 1)
  {
    var t := [Sub(1, Some("A"), true)];
    assert t[0].user == 1 && t[0].banned;
    assert WithoutPair(t, 1, Some("A")) == [];
  }

  /** The table after a deletion, with the user's ban kept: when the
      deletion took away the last flag of a banned user, a flagged
      region-less row is inserted, as `ban_user` does for a user without rows. */
  function KeepBan(before: Subs, after: Subs, user: int): (r: Subs)
    requires forall u :: u != user ==> (IsBanned(after, u) <==> IsBanned(before, u))
    requires IsBanned(after, user) ==> IsBanned(before, user)
    ensures forall u :: IsBanned(r, u) <==> IsBanned(before, u)
    ensures forall u, g :: Subscribed(r, u, g) <==> Subscribed(after, u, g)
    ensures UniquePairs(after) ==> UniquePairs(r)
  {
    if IsBanned(before, user) && !IsBanned(after, user) then
      AppendBannedRow(after, user);
      after + [Sub(user, None, true)]
    else after
  }

  /** Subscribing does not lift a ban: the new row is unflagged, but the
      user's earlier flagged rows remain. */
  lemma AddKeepsBan(t: Subs, user: int, region: string)
    ensures IsBanned(AddSubscription(t, user, region).table, user) == IsBanned(t, user)
  {
    var t' := AddSubscription(t, user, region).table;
    if IsBanned(t, user) {
      var i :| 0 <= i < |t| && t[i].user == user && t[i].banned;
      assert t'[i] == t[i];
    }
  }
}
