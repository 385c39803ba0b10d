/**
 * The web backend of `backend/main.py`: the region -> type -> status
 * snapshot read from the attacks log, the connection manager that pushes it
 * to dashboard clients, the change-only poller and the `ping` reply.
 * Clients are identified by number; a client whose send fails is given as
 * the set `failing`. JSON encoding is not modelled: frames are values.
 */
module Server {
  import opened Wrappers
  import opened Store

  /** region -> type -> status. */
  type Snapshot = map<string, map<string, string>>

  /** The loop body that builds the snapshot: file the row's status under
      its region and type, creating the region's entry when it is missing. */
  function FileRow(s: Snapshot, a: Attack): (s': Snapshot)
    ensures s'.Keys == s.Keys + {a.region}
  {
    var inner := if a.region in s then s[a.region] else map[];
    s[a.region := inner[a.kind := a.status]]
  }

  /** The log holds a row for the region. */
  predicate HasRegion(log: Log, g: string) {
    exists i :: 0 <= i < |log| && log[i].region == g
  }

  /** The snapshot lists exactly the regions with rows, and under each the
      last status of every type it has rows for. */
  ghost predicate Describes(s: Snapshot, log: Log) {
    && (forall g :: g in s <==> HasRegion(log, g))
    && (forall g, k :: g in s ==> (k in s[g] <==> LastStatus(log, g, k).Some?))
    && (forall g, k :: g in s && k in s[g] ==> s[g][k] == LastStatus(log, g, k).value)
  }

  /** `get_current_snapshot` (and the identical `api_statuses`): for every
      region with rows, the status of the latest row of each of its types. */
  function SnapshotOf(log: Log): (s: Snapshot)
    ensures Describes(s, log)
  {
    if |log| == 0 then map[]
    else
      var prev := SnapshotOf(log[..|log| - 1]);
      FileRowDescribes(prev, log);
      FileRow(prev, log[|log| - 1])
  }

  /** Filing the newest row keeps the snapshot in step with the log. */
  lemma FileRowDescribes(prev: Snapshot, log: Log)
    requires |log| > 0 && Describes(prev, log[..|log| - 1])
    ensures Describes(FileRow(prev, log[|log| - 1]), log)
  {
    var init := log[..|log| - 1];
    var a := log[|log| - 1];
    var s := FileRow(prev, a);
    forall g ensures g in s <==> HasRegion(log, g) {
      HasRegionStep(log, g);
    }
    forall g, k | g in s ensures k in s[g] <==> LastStatus(log, g, k).Some? {
      CellStep(prev, log, g, k);
    }
    forall g, k | g in s && k in s[g] ensures s[g][k] == LastStatus(log, g, k).value {
      CellStep(prev, log, g, k);
    }
  }

  /** A region has rows in a log when it has rows before the newest one or is the newest row's. */
  lemma HasRegionStep(log: Log, g: string)
    requires |log| > 0
    ensures HasRegion(log, g) <==> HasRegion(log[..|log| - 1], g) || g == log[|log| - 1].region
  {
    var init := log[..|log| - 1];
    if HasRegion(init, g) {
      var i :| 0 <= i < |init| && init[i].region == g;
      assert log[i] == init[i];
    }
    if HasRegion(log, g) && g != log[|log| - 1].region {
      var i :| 0 <= i < |log| && log[i].region == g;
      assert init[i] == log[i];
    }
  }

  /** One cell of the snapshot after filing the newest row. */
  lemma CellStep(prev: Snapshot, log: Log, g: string, k: string)
    requires |log| > 0 && Describes(prev, log[..|log| - 1])
    requires g in FileRow(prev, log[|log| - 1])
    ensures var s := FileRow(prev, log[|log| - 1]);
      && (k in s[g] <==> LastStatus(log, g, k).Some?)
      && (k in s[g] ==> s[g][k] == LastStatus(log, g, k).value)
  {
    var init := log[..|log| - 1];
    var a := log[|log| - 1];
    LastStatusStep(log, g, k);
    if g == a.region && g !in prev {
      HasRegionStep(log, g);
      assert !HasRegion(init, g);
      assert LastStatus(init, g, k).None?;
    }
  }

  /** A region's snapshot entry is what `get_last_status(region)` reports for it,
      so a `region_update` frame agrees with the next snapshot. */
  lemma SnapshotEntryIsRegionReport(log: Log, g: string)
    requires g in SnapshotOf(log)
    ensures SnapshotOf(log)[g] == RegionStatuses(log, g)
  {
  }

  /** Saving a row changes exactly one snapshot cell. */
  lemma SnapshotAfterSave(log: Log, region: string, kind: string, status: string, source: string, timestamp: string)
    ensures SnapshotOf(SaveAttack(log, region, kind, status, source, timestamp))
      == FileRow(SnapshotOf(log), Attack(region, kind, status, source, timestamp))
  {
    var log' := SaveAttack(log, region, kind, status, source, timestamp);
    assert log'[..|log'| - 1] == log;
  }

  /** What is sent over a socket: an envelope `{"type": ..., "data": ...}`
      or, for a ping, the bare snapshot. */
  datatype Frame =
    | Envelope(kind: string, data: Snapshot)
    | Bare(data: Snapshot)

  /** The connection manager: the open sockets and the last snapshot pushed. */
  datatype Manager = Manager(active: set<int>, last: Option<Snapshot>)

  /** One frame sent to one client. */
  datatype Sent = Sent(client: int, frame: Frame)

  datatype Connected = Connected(manager: Manager, sent: seq<Sent>)

  /** `connect`: the client joins, and gets the last snapshot if there is one. */
  function Connect(m: Manager, client: int): (r: Connected)
    ensures r.manager == m.(active := m.active + {client})
    ensures r.sent != [] <==> m.last.Some?
    ensures m.last.Some? ==> r.sent == [Sent(client, Envelope("snapshot", m.last.value))]
  {
    var m' := m.(active := m.active + {client});
    match m.last
    case None => Connected(m', [])
    case Some(s) => Connected(m', [Sent(client, Envelope("snapshot", s))])
  }

  /** `disconnect`: the client leaves if it is there. */
  function Disconnect(m: Manager, client: int): (m': Manager)
    ensures client !in m'.active && m'.last == m.last
    ensures forall c :: c != client ==> (c in m'.active <==> c in m.active)
  {
    if client in m.active then m.(active := m.active - {client}) else m
  }

  /** Disconnecting a client that is not connected changes nothing. */
  lemma DisconnectAbsent(m: Manager, client: int)
    requires client !in m.active
    ensures Disconnect(m, client) == m
  {
  }

  /** Connecting then disconnecting a new client restores the manager. */
  lemma ConnectThenDisconnect(m: Manager, client: int)
    requires client !in m.active
    ensures Disconnect(Connect(m, client).manager, client) == m
  {
    assert (m.active + {client}) - {client} == m.active;
  }

  /** The manager after a broadcast, and the sends attempted, in order. */
  datatype Broadcasted = Broadcasted(manager: Manager, attempts: seq<Sent>)

  /** `broadcast`: the frame is sent to every client connected when it
      starts, in the order `order` lists them; a client whose send fails is
      closed and disconnected, and the others are still sent to. */
  function Broadcast(m: Manager, frame: Frame, order: seq<int>, failing: set<int>): (r: Broadcasted)
    requires forall c :: c in order <==> c in m.active
    ensures |r.attempts| == |order|
    ensures forall i :: 0 <= i < |order| ==> r.attempts[i] == Sent(order[i], frame)
    ensures forall c :: c in m.active <==> Sent(c, frame) in r.attempts
    ensures r.manager.active == m.active - failing && r.manager.last == m.last
  {
    var m' := SendEach(m, order, failing);
    assert m'.active == m.active - failing by {
      forall c ensures c in m'.active <==> c in m.active - failing {
        assert c in m.active ==> c in order;
      }
    }
    var attempts := seq(|order|, i requires 0 <= i < |order| => Sent(order[i], frame));
    assert forall c :: c in m.active ==> Sent(c, frame) in attempts by {
      forall c | c in m.active ensures Sent(c, frame) in attempts {
        var i :| 0 <= i < |order| && order[i] == c;
        assert attempts[i] == Sent(c, frame);
      }
    }
    Broadcasted(m', attempts)
  }

  /** The send loop: each listed client whose send fails is disconnected. */
  function SendEach(m: Manager, order: seq<int>, failing: set<int>): (m': Manager)
    ensures m'.last == m.last
    ensures forall c :: c in m'.active <==> c in m.active && !(c in order && c in failing)
    decreases |order|
  {
    if |order| == 0 then m
    else
      var m1 := if order[0] in failing then Disconnect(m, order[0]) else m;
      SendEach(m1, order[1..], failing)
  }

  datatype Polled = Polled(manager: Manager, snapshot: Snapshot, broadcast: Option<Broadcasted>)

  /** `poll_and_broadcast`: read the snapshot; if it differs from the last one
      pushed, remember it and push it to everyone. The fresh snapshot is
      returned either way. */
  function PollAndBroadcast(m: Manager, log: Log, order: seq<int>, failing: set<int>): (r: Polled)
    requires forall c :: c in order <==> c in m.active
    ensures r.snapshot == SnapshotOf(log)
    ensures r.broadcast.Some? <==> m.last != Some(SnapshotOf(log))
    ensures r.broadcast.None? ==> r.manager == m
    ensures r.broadcast.Some? ==>
      r.manager.last == Some(SnapshotOf(log)) && r.manager.active == m.active - failing
    ensures r.broadcast.Some? ==>
      forall c :: c in m.active <==> Sent(c, Envelope("snapshot", SnapshotOf(log))) in r.broadcast.value.attempts
    ensures r.broadcast.Some? ==>
      forall x :: x in r.broadcast.value.attempts ==> x.frame == Envelope("snapshot", SnapshotOf(log))
  {
    var snap := SnapshotOf(log);
    if m.last != Some(snap) then
      var b := Broadcast(m.(last := Some(snap)), Envelope("snapshot", snap), order, failing);
      Polled(b.manager, snap, Some(b))
    else Polled(m, snap, None)
  }

  /** Polling an unchanged log a second time pushes nothing and changes nothing. */
  lemma PollTwiceIsQuiet(m: Manager, log: Log, order: seq<int>, failing: set<int>,
                         order': seq<int>, failing': set<int>)
    requires forall c :: c in order <==> c in m.active
    requires forall c :: c in order' <==> c in PollAndBroadcast(m, log, order, failing).manager.active
    ensures var once := PollAndBroadcast(m, log, order, failing);
      PollAndBroadcast(once.manager, log, order', failing') == Polled(once.manager, SnapshotOf(log), None)
  {
  }

  /** After any poll, a newly connected client receives the snapshot just read. */
  lemma ConnectAfterPoll(m: Manager, log: Log, order: seq<int>, failing: set<int>, client: int)
    requires forall c :: c in order <==> c in m.active
    ensures var once := PollAndBroadcast(m, log, order, failing);
      Connect(once.manager, client).sent == [Sent(client, Envelope("snapshot", SnapshotOf(log)))]
  {
  }

  /** The reply to a `ping` text: the current snapshot, not wrapped. */
  function PingReply(log: Log, text: string): (r: Option<Frame>)
    ensures r.Some? <==> text == "ping"
    ensures r.Some? ==> r.value.Bare? && r.value.data == SnapshotOf(log)
  {
    if text == "ping" then Some(Bare(SnapshotOf(log))) else None
  }
}
