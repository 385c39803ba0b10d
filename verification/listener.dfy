/**
 * The report-reconciliation loop of `backend/listener.py`: the classifier's
 * answer is cut into `SEVERITY/REGION/TYPE` records, each record is
 * validated and its region canonicalised, wildcards are expanded into
 * concrete (region, type, status) targets, and each target is reconciled
 * against the last recorded status: a change is saved and fanned out to the
 * region's subscribers, a repeat is skipped.
 *
 * The region list (configuration) and the nationwide wildcard name are
 * parameters. Sending a Telegram message is modelled by the set of users
 * whose send fails; each failure is caught and the next user is still tried.
 */
module Listener {
  import opened Wrappers
  import opened Seqs
  import opened PyText
  import opened Regions
  import opened Store
  import opened Render

  /** The concrete hazard types, in the order an `ALL` record expands to. */
  const ConcreteKinds: seq<string> := ["UAV", "AIR", "ROCKET", "UB"]

  /** The type tokens a record may carry. */
  const KnownKinds: seq<string> := ["UAV", "AIR", "ROCKET", "UB", "ALL"]

  /** One `SEVERITY/REGION/TYPE` record as the classifier wrote it. */
  datatype Record = Record(status: string, region: string, kind: string)

  /** A concrete (region, type) key and the status proposed for it. */
  datatype Target = Target(region: string, kind: string, status: string)

  // ---------------------------------------------------------------------
  // Record parsing
  // ---------------------------------------------------------------------

  /** `result.replace("\n", ",").split(",")`: a newline separates records like a comma. */
  function Pieces(answer: string): (ps: seq<string>)
    ensures |ps| >= 1
    ensures forall k :: 0 <= k < |ps| ==> ',' !in ps[k] && '\n' !in ps[k]
  {
    var ps := Split(ReplaceChar(answer, '\n', ','), ',');
    assert forall k :: 0 <= k < |ps| ==> '\n' !in ps[k] by {
      forall k | 0 <= k < |ps| ensures '\n' !in ps[k] {
        JoinHasPart(ps, k, ',');
      }
    }
    ps
  }

  /** One piece: stripped and split on "/"; exactly three fields make a
      record, and only the region field is stripped again. */
  function ParsePiece(piece: string): (r: Option<Record>)
    ensures r.Some? <==> |Split(Strip(piece), '/')| == 3
    ensures r.Some? ==> '/' !in r.value.status && '/' !in r.value.kind
  {
    var fields := Split(Strip(piece), '/');
    if |fields| != 3 then None
    else Some(Record(fields[0], Strip(fields[1]), fields[2]))
  }

  /** The records of an answer, one per piece; `None` marks a piece that is skipped. */
  function Records(answer: string): (rs: seq<Option<Record>>)
    ensures |rs| == |Pieces(answer)|
  {
    var ps := Pieces(answer);
    seq(|ps|, k requires 0 <= k < |ps| => ParsePiece(ps[k]))
  }

  /** The text the classifier writes for one record. */
  function RecordText(r: Record): string {
    r.status + "/" + r.region + "/" + r.kind
  }

  /** The answer that lists the given records, comma-separated. */
  function AnswerText(rs: seq<Record>): string
    requires |rs| >= 1
  {
    Join(RecordTexts(rs), ',')
  }

  /** Fields the record syntax can carry back unchanged: no separator inside,
      no whitespace at the ends. */
  predicate Clean(r: Record) {
    && ',' !in r.status && ',' !in r.region && ',' !in r.kind
    && '\n' !in r.status && '\n' !in r.region && '\n' !in r.kind
    && '/' !in r.status && '/' !in r.region && '/' !in r.kind
    && Unpadded(r.status) && Unpadded(r.region) && Unpadded(r.kind)
  }

  /** Parsing one record's text recovers the record. */
  lemma ParseRecordText(r: Record)
    requires Clean(r)
    ensures ParsePiece(RecordText(r)) == Some(r)
  {
    var t := RecordText(r);
    var fields := [r.status, r.region, r.kind];
    assert Split(Strip(t), '/') == fields by {
      assert t == r.status + ['/'] + (r.region + ['/'] + r.kind);
      StrippedGlue(r.status, r.region, r.kind);
      JoinThree(r.status, r.region, r.kind, '/');
      SplitJoin(fields, '/');
    }
    StripUnpadded(r.region);
    ThreeFields(t, r.status, r.region, r.kind);
  }

  /** A piece whose stripped text has three fields is their record. */
  lemma ThreeFields(t: string, a: string, b: string, c: string)
    requires Split(Strip(t), '/') == [a, b, c]
    ensures ParsePiece(t) == Some(Record(a, Strip(b), c))
  {
  }

  lemma JoinThree(a: string, b: string, c: string, sep: char)
    ensures Join([a, b, c], sep) == a + [sep] + (b + [sep] + c)
  {
    assert [a, b, c][1..] == [b, c];
    assert Join([b, c], sep) == b + [sep] + Join([c], sep) by {
      assert [b, c][1..] == [c];
    }
  }

  /** Three fields joined by slashes, the outer two already stripped, need no stripping. */
  lemma StrippedGlue(a: string, b: string, c: string)
    requires Unpadded(a) && Unpadded(c)
    ensures Strip(a + ['/'] + (b + ['/'] + c)) == a + ['/'] + (b + ['/'] + c)
  {
    var t := a + ['/'] + (b + ['/'] + c);
    assert !IsSpace('/');
    if |a| > 0 {
      assert t[0] == a[0];
    } else {
      assert t[0] == '/';
    }
    if |c| > 0 {
      assert t[|t| - 1] == c[|c| - 1];
    } else {
      assert t[|t| - 1] == '/';
    }
    StripUnpadded(t);
  }

  /** The answer listing some clean records parses back into exactly those records. */
  lemma RecordsRoundTrip(rs: seq<Record>)
    requires |rs| >= 1
    requires forall k :: 0 <= k < |rs| ==> Clean(rs[k])
    ensures Records(AnswerText(rs)) == seq(|rs|, k requires 0 <= k < |rs| => Some(rs[k]))
  {
    var texts := RecordTexts(rs);
    PiecesOfAnswer(rs);
    forall k | 0 <= k < |rs| ensures ParsePiece(texts[k]) == Some(rs[k]) {
      ParseRecordText(rs[k]);
    }
  }

  function RecordTexts(rs: seq<Record>): (texts: seq<string>)
    ensures |texts| == |rs| && forall k :: 0 <= k < |rs| ==> texts[k] == RecordText(rs[k])
  {
    seq(|rs|, k requires 0 <= k < |rs| => RecordText(rs[k]))
  }

  /** The pieces of an answer listing clean records are the records' texts. */
  lemma PiecesOfAnswer(rs: seq<Record>)
    requires |rs| >= 1
    requires forall k :: 0 <= k < |rs| ==> Clean(rs[k])
    ensures Pieces(AnswerText(rs)) == RecordTexts(rs)
  {
    var texts := RecordTexts(rs);
    var a := AnswerText(rs);
    forall k | 0 <= k < |texts| ensures ',' !in texts[k] && '\n' !in texts[k] {
      RecordTextSingle(rs[k]);
    }
    JoinNoNewline(texts);
    ReplaceAbsent(a, '\n', ',');
    SplitJoin(texts, ',');
  }

  /** A clean record's text holds neither record separator. */
  lemma RecordTextSingle(r: Record)
    requires Clean(r)
    ensures ',' !in RecordText(r) && '\n' !in RecordText(r)
  {
  }

  /** Replacing a character that does not occur changes nothing. */
  lemma ReplaceAbsent(s: string, a: char, b: char)
    requires a !in s
    ensures ReplaceChar(s, a, b) == s
  {
  }

  /** Joining newline-free pieces with commas yields a newline-free text. */
  lemma {:induction false} JoinNoNewline(ps: seq<string>)
    requires forall k :: 0 <= k < |ps| ==> '\n' !in ps[k]
    ensures '\n' !in Join(ps, ',')
    decreases |ps|
  {
    if |ps| > 1 {
      JoinNoNewline(ps[1..]);
    }
  }

  /** A newline separates records exactly as a comma does. */
  lemma NewlineIsComma(a: string, b: string)
    ensures Records(a + "\n" + b) == Records(a + "," + b)
  {
    var s1 := ReplaceChar(a + "\n" + b, '\n', ',');
    var s2 := ReplaceChar(a + "," + b, '\n', ',');
    assert s1 == s2;
  }

  /** The records of two answers joined by a comma are the records of each, in order. */
  lemma RecordsConcat(a: string, b: string)
    ensures Records(a + "," + b) == Records(a) + Records(b)
  {
    var ra := ReplaceChar(a, '\n', ',');
    var rb := ReplaceChar(b, '\n', ',');
    CommaReplaced(a, b);
    SplitConcat(ra, rb, ',');
    assert Pieces(a + "," + b) == Pieces(a) + Pieces(b);
    RecordsOfPieces(Pieces(a), Pieces(b));
  }

  /** Turning newlines into commas commutes with joining two texts by a comma. */
  lemma CommaReplaced(a: string, b: string)
    ensures ReplaceChar(a + "," + b, '\n', ',') == ReplaceChar(a, '\n', ',') + [','] + ReplaceChar(b, '\n', ',')
  {
    var s := a + "," + b;
    var r := ReplaceChar(a, '\n', ',') + [','] + ReplaceChar(b, '\n', ',');
    forall k | 0 <= k < |s| ensures ReplaceChar(s, '\n', ',')[k] == r[k] {
      if k < |a| {
        assert s[k] == a[k];
      } else if k > |a| {
        assert s[k] == b[k - |a| - 1];
      }
    }
  }

  /** Parsing pieces one by one commutes with concatenation. */
  lemma RecordsOfPieces(pa: seq<string>, pb: seq<string>)
    ensures var ps := pa + pb;
      seq(|ps|, k requires 0 <= k < |ps| => ParsePiece(ps[k]))
      == seq(|pa|, k requires 0 <= k < |pa| => ParsePiece(pa[k]))
         + seq(|pb|, k requires 0 <= k < |pb| => ParsePiece(pb[k]))
  {
  }

  // ---------------------------------------------------------------------
  // Validation and expansion
  // ---------------------------------------------------------------------

  /** The type check and the region lookup. The severity is never examined. */
  function Validate(r: Record, names: seq<string>): (v: Option<Record>)
    ensures v.Some? <==> r.kind in KnownKinds && Canonicalise(r.region, names).Some?
    ensures v.Some? ==> v.value == r.(region := Canonicalise(r.region, names).value)
    ensures v.Some? ==> v.value.region in names
  {
    if r.kind !in KnownKinds then None
    else
      match Canonicalise(r.region, names)
      case None => None
      case Some(g) => Some(r.(region := g))
  }

  /** Any severity text passes validation: only the type and the region decide. */
  lemma SeverityNeverChecked(r: Record, status: string, names: seq<string>)
    ensures Validate(r.(status := status), names).Some? == Validate(r, names).Some?
    ensures Validate(r, names).Some? ==> Validate(r.(status := status), names).value.status == status
  {
  }

  /** The four concrete targets of an `ALL` record for one region. */
  function AllKinds(region: string, status: string): (ts: seq<Target>)
    ensures |ts| == 4
    ensures forall k :: 0 <= k < 4 ==> ts[k] == Target(region, ConcreteKinds[k], status)
  {
    [Target(region, "UAV", status), Target(region, "AIR", status),
     Target(region, "ROCKET", status), Target(region, "UB", status)]
  }

  /** The targets for one region of a nationwide record: the record's type,
      or all four when it is `ALL` (the loop restores `ALL` after each region). */
  function RegionTargets(region: string, kind: string, status: string): seq<Target> {
    if kind != "ALL" then [Target(region, kind, status)] else AllKinds(region, status)
  }

  /** The nationwide expansion: every region of the list but the wildcard, in list order. */
  function Nationwide(names: seq<string>, wildcard: string, kind: string, status: string): (ts: seq<Target>)
    ensures forall t :: t in ts ==> t.region in names && t.region != wildcard && t.status == status
    ensures forall t :: t in ts ==> (if kind == "ALL" then t.kind in ConcreteKinds else t.kind == kind)
  {
    if |names| == 0 then []
    else
      (if names[0] == wildcard then [] else RegionTargets(names[0], kind, status))
        + Nationwide(names[1..], wildcard, kind, status)
  }

  /** The targets of one validated record. Records that fall through every
      branch of the source (a non-`AC` `ALL` record for a region, a non-`AC`
      wildcard record) have none. */
  function Expand(r: Record, names: seq<string>, wildcard: string): (ts: seq<Target>)
    ensures forall t :: t in ts ==> t.status == r.status
    ensures r.kind in KnownKinds ==> forall t :: t in ts ==> t.kind in ConcreteKinds
  {
    if r.region != wildcard then
      if r.kind != "ALL" then [Target(r.region, r.kind, r.status)]
      else if r.status == "AC" then AllKinds(r.region, r.status)
      else []
    else if r.status == "AC" then Nationwide(names, wildcard, r.kind, r.status)
    else []
  }

  /** The region list splits into two halves whose expansions follow each other. */
  lemma {:induction false} NationwideConcat(xs: seq<string>, ys: seq<string>, wildcard: string, kind: string, status: string)
    ensures Nationwide(xs + ys, wildcard, kind, status) ==
      Nationwide(xs, wildcard, kind, status) + Nationwide(ys, wildcard, kind, status)
    decreases |xs|
  {
    if |xs| == 0 {
      assert xs + ys == ys;
    } else {
      assert (xs + ys)[1..] == xs[1..] + ys;
      NationwideConcat(xs[1..], ys, wildcard, kind, status);
    }
  }

  /** Every non-wildcard region of the list gets each type the record names. */
  lemma {:induction false} NationwideCovers(names: seq<string>, wildcard: string, kind: string, status: string, g: string, k: string)
    requires g in names && g != wildcard
    requires if kind == "ALL" then k in ConcreteKinds else k == kind
    ensures Target(g, k, status) in Nationwide(names, wildcard, kind, status)
    decreases |names|
  {
    if names[0] == g {
      var ts := RegionTargets(g, kind, status);
      assert Target(g, k, status) in ts;
    } else {
      NationwideCovers(names[1..], wildcard, kind, status, g, k);
    }
  }

  /** The shape of the expansion, case by case. */
  lemma ExpansionShape(r: Record, names: seq<string>, wildcard: string)
    ensures r.region != wildcard && r.kind != "ALL" ==> Expand(r, names, wildcard) == [Target(r.region, r.kind, r.status)]
    ensures r.region != wildcard && r.kind == "ALL" && r.status == "AC" ==>
      Expand(r, names, wildcard) == AllKinds(r.region, "AC")
    ensures r.status != "AC" && (r.region == wildcard || r.kind == "ALL") ==> Expand(r, names, wildcard) == []
    ensures r.region == wildcard && r.status == "AC" ==> forall t ::
      t in Expand(r, names, wildcard) <==>
        t.region in names && t.region != wildcard && t.status == "AC"
        && (if r.kind == "ALL" then t.kind in ConcreteKinds else t.kind == r.kind)
  {
    if r.region == wildcard && r.status == "AC" {
      forall t: Target | t.region in names && t.region != wildcard && t.status == "AC"
          && (if r.kind == "ALL" then t.kind in ConcreteKinds else t.kind == r.kind)
        ensures t in Expand(r, names, wildcard)
      {
        NationwideCovers(names, wildcard, r.kind, r.status, t.region, t.kind);
      }
    }
  }

  /** The targets of a record, or none when it is skipped. */
  function RecordTargets(r: Option<Record>, names: seq<string>, wildcard: string): seq<Target> {
    match r
    case None => []
    case Some(rec) =>
      match Validate(rec, names)
      case None => []
      case Some(v) => Expand(v, names, wildcard)
  }

  /** The targets of a list of records, in record order. */
  function TargetsOf(rs: seq<Option<Record>>, names: seq<string>, wildcard: string): seq<Target> {
    if |rs| == 0 then [] else RecordTargets(rs[0], names, wildcard) + TargetsOf(rs[1..], names, wildcard)
  }

  /** The targets of a whole answer. */
  function Targets(answer: string, names: seq<string>, wildcard: string): (ts: seq<Target>)
    ensures forall t :: t in ts ==> t.kind in ConcreteKinds && t.region != wildcard
    ensures forall t :: t in ts ==> t.region in names
  {
    var ts := TargetsOf(Records(answer), names, wildcard);
    TargetsConcrete(Records(answer), names, wildcard);
    ts
  }

  /** Expansion only ever yields concrete types and listed, non-wildcard regions. */
  lemma {:induction false} TargetsConcrete(rs: seq<Option<Record>>, names: seq<string>, wildcard: string)
    ensures forall t :: t in TargetsOf(rs, names, wildcard) ==>
      t.kind in ConcreteKinds && t.region != wildcard && t.region in names
    decreases |rs|
  {
    if |rs| > 0 {
      TargetsConcrete(rs[1..], names, wildcard);
      if rs[0].Some? && Validate(rs[0].value, names).Some? {
        var v := Validate(rs[0].value, names).value;
        assert v.region in names;
        if v.region == wildcard {
          assert forall t :: t in Expand(v, names, wildcard) ==> t.region in names && t.region != wildcard;
        }
      }
    }
  }

  lemma {:induction false} TargetsOfConcat(xs: seq<Option<Record>>, ys: seq<Option<Record>>, names: seq<string>, wildcard: string)
    ensures TargetsOf(xs + ys, names, wildcard) == TargetsOf(xs, names, wildcard) + TargetsOf(ys, names, wildcard)
    decreases |xs|
  {
    if |xs| == 0 {
      assert xs + ys == ys;
    } else {
      TargetsOfConcat(xs[1..], ys, names, wildcard);
      TargetsOfStep(xs, ys, names, wildcard);
    }
  }

  lemma TargetsOfCons(rs: seq<Option<Record>>, names: seq<string>, wildcard: string)
    requires |rs| > 0
    ensures TargetsOf(rs, names, wildcard) == RecordTargets(rs[0], names, wildcard) + TargetsOf(rs[1..], names, wildcard)
  {
  }

  /** The inductive step of `TargetsOfConcat`. */
  lemma TargetsOfStep(xs: seq<Option<Record>>, ys: seq<Option<Record>>, names: seq<string>, wildcard: string)
    requires |xs| > 0
    requires TargetsOf(xs[1..] + ys, names, wildcard) == TargetsOf(xs[1..], names, wildcard) + TargetsOf(ys, names, wildcard)
    ensures TargetsOf(xs + ys, names, wildcard) == TargetsOf(xs, names, wildcard) + TargetsOf(ys, names, wildcard)
  {
    TailOfConcat(xs, ys);
    TargetsOfCons(xs + ys, names, wildcard);
    TargetsOfCons(xs, names, wildcard);
    Assoc(RecordTargets(xs[0], names, wildcard), TargetsOf(xs[1..], names, wildcard), TargetsOf(ys, names, wildcard));
  }

  /** Two answers joined by a comma yield the first's targets, then the second's:
      a record that is skipped does not stop the records after it. */
  lemma TargetsConcat(a: string, b: string, names: seq<string>, wildcard: string)
    ensures Targets(a + "," + b, names, wildcard) == Targets(a, names, wildcard) + Targets(b, names, wildcard)
  {
    RecordsConcat(a, b);
    TargetsOfConcat(Records(a), Records(b), names, wildcard);
  }

  /** A piece without exactly three fields contributes nothing. */
  lemma MalformedSkipped(piece: string, rest: string, names: seq<string>, wildcard: string)
    requires ',' !in piece && '\n' !in piece
    requires |Split(Strip(piece), '/')| != 3
    ensures Targets(piece + "," + rest, names, wildcard) == Targets(rest, names, wildcard)
  {
    RecordsConcat(piece, rest);
    SinglePiece(piece);
    assert ParsePiece(piece) == None;
    TargetsOfConcat([None], Records(rest), names, wildcard);
    assert TargetsOf([None], names, wildcard) == [] + TargetsOf([], names, wildcard);
  }

  /** A text without commas or newlines is one piece, parsed on its own. */
  lemma SinglePiece(piece: string)
    requires ',' !in piece && '\n' !in piece
    ensures Records(piece) == [ParsePiece(piece)]
  {
    ReplaceAbsent(piece, '\n', ',');
    assert Pieces(piece) == [piece];
  }

  // ---------------------------------------------------------------------
  // Reconciliation and fan-out
  // ---------------------------------------------------------------------

  /** What stays fixed while one answer is processed: the message's source
      and comment, the clock reading, the subscription table and the users
      whose Telegram send fails. */
  datatype Context = Context(source: string, comment: Option<string>, timestamp: string,
                             subs: Subs, failing: set<int>)

  /** One attempted Telegram send: the user, the target whose alert it
      carries (its text is `AlertText(alert, ctx)`) and whether it went through. */
  datatype Delivery = Delivery(user: int, alert: Target, delivered: bool)

  /** The log after some reconciliation, and the sends it attempted. */
  datatype Step = Step(log: Log, deliveries: seq<Delivery>)

  /** The alert text for a target: the all-clear form exactly for an `AC`
      status, with the message's comment quoted at the end when it has one. */
  function AlertText(t: Target, ctx: Context): (r: string)
    ensures t.status == "AC" <==> AllClearHeader <= r
    ensures t.status != "AC" <==> WarningHeader <= r
    ensures Truthy(ctx.comment) <==> EndsWithQuote(r)
  {
    FormatNotification(t.region, t.kind, t.status, ctx.source, ctx.comment, ctx.timestamp)
  }

  /** The per-user send loop: every user is attempted once, in order, and a
      failure is caught so the next user is still tried. */
  function FanOut(users: seq<int>, alert: Target, failing: set<int>): (ds: seq<Delivery>)
    ensures |ds| == |users|
    ensures forall i :: 0 <= i < |ds| ==> ds[i].user == users[i] && ds[i].alert == alert
    ensures forall i :: 0 <= i < |ds| ==> (ds[i].delivered <==> users[i] !in failing)
  {
    if |users| == 0 then []
    else [Delivery(users[0], alert, users[0] !in failing)] + FanOut(users[1..], alert, failing)
  }

  /** The users a list of sends went to. */
  function Recipients(ds: seq<Delivery>): set<int> {
    set d | d in ds :: d.user
  }

  /** Reconcile one target: a repeat of the last recorded status is skipped;
      a change is saved and sent to every subscriber of the region. */
  function Reconcile(log: Log, t: Target, ctx: Context): (r: Step)
    ensures LastStatus(r.log, t.region, t.kind) == Some(t.status)
    ensures r.log == log <==> LastStatus(log, t.region, t.kind) == Some(t.status)
    ensures r.log != log ==> r.log == log + [Attack(t.region, t.kind, t.status, ctx.source, ctx.timestamp)]
    ensures r.deliveries != [] ==> r.log != log
    ensures r.log != log ==> forall u :: u in Recipients(r.deliveries) <==> Subscribed(ctx.subs, u, t.region)
    ensures forall d :: d in r.deliveries ==> d.alert == t && (d.delivered <==> d.user !in ctx.failing)
  {
    if LastStatus(log, t.region, t.kind) == Some(t.status) then Step(log, [])
    else
      var log' := SaveAttack(log, t.region, t.kind, t.status, ctx.source, ctx.timestamp);
      SaveThenLastStatus(log, t.region, t.kind, t.status, ctx.source, ctx.timestamp, t.region, t.kind);
      var users := GetUsersByRegion(ctx.subs, t.region);
      var ds := FanOut(users, t, ctx.failing);
      assert forall u :: u in users <==> u in Recipients(ds) by {
        forall u ensures u in users <==> u in Recipients(ds) {
          if u in users {
            var i :| 0 <= i < |users| && users[i] == u;
            assert ds[i] in ds;
          }
        }
      }
      Step(log', ds)
  }

  /** Rows saved while reconciling some targets: each carries the context's
      source and clock reading and one target's key and status. */
  predicate SavedFrom(rows: seq<Attack>, ts: seq<Target>, ctx: Context) {
    forall i :: 0 <= i < |rows| ==>
      rows[i].source == ctx.source && rows[i].timestamp == ctx.timestamp &&
      Target(rows[i].region, rows[i].kind, rows[i].status) in ts
  }

  /** Apply a reconciliation step to each target in order, collecting the sends. */
  function Fold(log: Log, ts: seq<Target>, step: (Log, Target) -> Step): Step
    decreases |ts|
  {
    if |ts| == 0 then Step(log, [])
    else
      var s := step(log, ts[0]);
      var rest := Fold(s.log, ts[1..], step);
      Step(rest.log, s.deliveries + rest.deliveries)
  }

  /** Folding over a concatenation folds over the halves in sequence. */
  lemma {:induction false} FoldConcat(log: Log, xs: seq<Target>, ys: seq<Target>, step: (Log, Target) -> Step)
    ensures var first := Fold(log, xs, step);
      var second := Fold(first.log, ys, step);
      Fold(log, xs + ys, step) == Step(second.log, first.deliveries + second.deliveries)
    decreases |xs|
  {
    if |xs| == 0 {
      assert xs + ys == ys;
      var second := Fold(log, ys, step);
      assert [] + second.deliveries == second.deliveries;
    } else {
      var s := step(log, xs[0]);
      assert (xs + ys)[0] == xs[0];
      assert (xs + ys)[1..] == xs[1..] + ys;
      FoldConcat(s.log, xs[1..], ys, step);
      var first' := Fold(s.log, xs[1..], step);
      var second := Fold(first'.log, ys, step);
      assert s.deliveries + (first'.deliveries + second.deliveries)
        == (s.deliveries + first'.deliveries) + second.deliveries;
    }
  }

  /** The step `process_message` applies to each target. */
  function Stepper(ctx: Context): (Log, Target) -> Step {
    (l: Log, t: Target) => Reconcile(l, t, ctx)
  }

  /** Reconcile targets one after another, in order. */
  function ReconcileAll(log: Log, ts: seq<Target>, ctx: Context): (r: Step)
    ensures |log| <= |r.log| <= |log| + |ts| && r.log[..|log|] == log
    ensures SavedFrom(r.log[|log|..], ts, ctx)
    ensures r.deliveries != [] ==> |r.log| > |log|
  {
    FoldGrows(log, ts, ctx);
    Fold(log, ts, Stepper(ctx))
  }

  /** The fold only appends rows, each from some target, and sends only after saving. */
  lemma {:induction false} FoldGrows(log: Log, ts: seq<Target>, ctx: Context)
    ensures var r := Fold(log, ts, Stepper(ctx));
      && |log| <= |r.log| <= |log| + |ts| && r.log[..|log|] == log
      && SavedFrom(r.log[|log|..], ts, ctx)
      && (r.deliveries != [] ==> |r.log| > |log|)
    decreases |ts|
  {
    if |ts| > 0 {
      var s := Reconcile(log, ts[0], ctx);
      assert Stepper(ctx)(log, ts[0]) == s;
      FoldGrows(s.log, ts[1..], ctx);
      var rest := Fold(s.log, ts[1..], Stepper(ctx));
      SavedJoin(log, s.log, rest.log, ts, ctx);
    }
  }

  /** The rows saved by the first target and those saved by the rest together
      come from the targets. */
  lemma SavedJoin(log: Log, mid: Log, fin: Log, ts: seq<Target>, ctx: Context)
    requires |ts| > 0
    requires mid == log || mid == log + [Attack(ts[0].region, ts[0].kind, ts[0].status, ctx.source, ctx.timestamp)]
    requires |mid| <= |fin| && fin[..|mid|] == mid && SavedFrom(fin[|mid|..], ts[1..], ctx)
    ensures fin[..|log|] == log && SavedFrom(fin[|log|..], ts, ctx)
  {
    assert fin[|log|..] == mid[|log|..] + fin[|mid|..];
    assert forall t :: t in ts[1..] ==> t in ts;
  }

  /** Reconciling a concatenation is reconciling its halves in sequence. */
  lemma ReconcileAllConcat(log: Log, xs: seq<Target>, ys: seq<Target>, ctx: Context)
    ensures var first := ReconcileAll(log, xs, ctx);
      var second := ReconcileAll(first.log, ys, ctx);
      ReconcileAll(log, xs + ys, ctx) == Step(second.log, first.deliveries + second.deliveries)
  {
    FoldConcat(log, xs, ys, Stepper(ctx));
  }

  /** One step of the fold: the first target, then the rest. */
  lemma ReconcileAllUnfold(log: Log, ts: seq<Target>, ctx: Context)
    requires |ts| > 0
    ensures var s := Reconcile(log, ts[0], ctx);
      var rest := ReconcileAll(s.log, ts[1..], ctx);
      ReconcileAll(log, ts, ctx) == Step(rest.log, s.deliveries + rest.deliveries)
  {
    assert Stepper(ctx)(log, ts[0]) == Reconcile(log, ts[0], ctx);
  }

  /** The same triple twice in succession: the first saves when the status
      changed, the second is always a repeat. */
  lemma ReconcileTwice(log: Log, t: Target, ctx: Context)
    ensures var once := Reconcile(log, t, ctx);
      Reconcile(once.log, t, ctx) == Step(once.log, [])
    ensures |ReconcileAll(log, [t, t], ctx).log| == |log| + (if LastStatus(log, t.region, t.kind) == Some(t.status) then 0 else 1)
  {
    var once := Reconcile(log, t, ctx);
    assert [t, t][1..] == [t];
    ReconcileAllUnfold(log, [t, t], ctx);
    ReconcileAllUnfold(once.log, [t], ctx);
    assert ReconcileAll(once.log, [], ctx) == Step(once.log, []);
  }

  /** The status the last target for a key proposes, if any target has that key. */
  function LastProposed(ts: seq<Target>, region: string, kind: string): (r: Option<string>)
    ensures r.None? <==> forall i :: 0 <= i < |ts| ==> !(ts[i].region == region && ts[i].kind == kind)
  {
    if |ts| == 0 then None
    else
      match LastProposed(ts[1..], region, kind)
      case Some(s) => Some(s)
      case None => if ts[0].region == region && ts[0].kind == kind then Some(ts[0].status) else None
  }

  /** After reconciling, every key's last status is the one its last target
      proposed, and keys no target names keep their old status. */
  lemma {:induction false} ReconcileAllSettles(log: Log, ts: seq<Target>, ctx: Context, region: string, kind: string)
    ensures LastStatus(ReconcileAll(log, ts, ctx).log, region, kind) ==
      match LastProposed(ts, region, kind)
      case Some(s) => Some(s)
      case None => LastStatus(log, region, kind)
    decreases |ts|
  {
    if |ts| > 0 {
      var t := ts[0];
      var s := Reconcile(log, t, ctx);
      ReconcileAllUnfold(log, ts, ctx);
      ReconcileAllSettles(s.log, ts[1..], ctx, region, kind);
      if s.log != log {
        SaveThenLastStatus(log, t.region, t.kind, t.status, ctx.source, ctx.timestamp, region, kind);
      }
    }
  }

  /** Targets whose proposals already match the log change nothing and send nothing. */
  lemma {:induction false} SettledIsQuiet(log: Log, ts: seq<Target>, ctx: Context)
    requires forall t :: t in ts ==> LastStatus(log, t.region, t.kind) == Some(t.status)
    ensures ReconcileAll(log, ts, ctx) == Step(log, [])
    decreases |ts|
  {
    if |ts| > 0 {
      ReconcileAllUnfold(log, ts, ctx);
      SettledIsQuiet(log, ts[1..], ctx);
    }
  }

  /** No two targets share a (region, type) key. */
  predicate DistinctKeys(ts: seq<Target>) {
    forall i, j :: 0 <= i < j < |ts| ==> !(ts[i].region == ts[j].region && ts[i].kind == ts[j].kind)
  }

  /** With distinct keys, the last proposal for a target's key is its own status. */
  lemma {:induction false} LastProposedDistinct(ts: seq<Target>, t: Target)
    requires DistinctKeys(ts) && t in ts
    ensures LastProposed(ts, t.region, t.kind) == Some(t.status)
    decreases |ts|
  {
    var rest := ts[1..];
    assert forall i :: 0 <= i < |rest| ==> rest[i] == ts[i + 1];
    if ts[0] == t {
      assert forall i :: 0 <= i < |rest| ==> !(rest[i].region == t.region && rest[i].kind == t.kind);
    } else {
      assert t in rest;
      LastProposedDistinct(rest, t);
    }
  }

  // ---------------------------------------------------------------------
  // process_message from line 39 on
  // ---------------------------------------------------------------------

  /** The reconciliation loop of `process_message` over one classifier answer. */
  function Process(answer: string, names: seq<string>, wildcard: string, log: Log, ctx: Context): (r: Step)
    ensures |log| <= |r.log| && r.log[..|log|] == log
    ensures forall i :: |log| <= i < |r.log| ==>
      r.log[i].region in names && r.log[i].region != wildcard && r.log[i].kind in ConcreteKinds
  {
    var ts := Targets(answer, names, wildcard);
    var r := ReconcileAll(log, ts, ctx);
    forall i | |log| <= i < |r.log|
      ensures r.log[i].region in names && r.log[i].region != wildcard && r.log[i].kind in ConcreteKinds
    {
      assert r.log[|log|..][i - |log|] == r.log[i];
    }
    r
  }

  /** Two answers joined by a comma are processed as the first, then the second. */
  lemma ProcessConcat(a: string, b: string, names: seq<string>, wildcard: string, log: Log, ctx: Context)
    ensures var first := Process(a, names, wildcard, log, ctx);
      var second := Process(b, names, wildcard, first.log, ctx);
      Process(a + "," + b, names, wildcard, log, ctx) == Step(second.log, first.deliveries + second.deliveries)
  {
    TargetsConcat(a, b, names, wildcard);
    ReconcileAllConcat(log, Targets(a, names, wildcard), Targets(b, names, wildcard), ctx);
  }

  /** An answer whose targets name each key once is processed to a fixpoint:
      the same answer again saves nothing and sends nothing. */
  lemma ProcessAgainIsQuiet(answer: string, names: seq<string>, wildcard: string, log: Log, ctx: Context)
    requires DistinctKeys(Targets(answer, names, wildcard))
    ensures var once := Process(answer, names, wildcard, log, ctx);
      Process(answer, names, wildcard, once.log, ctx) == Step(once.log, [])
  {
    var ts := Targets(answer, names, wildcard);
    var once := ReconcileAll(log, ts, ctx);
    forall t | t in ts ensures LastStatus(once.log, t.region, t.kind) == Some(t.status) {
      ReconcileAllSettles(log, ts, ctx, t.region, t.kind);
      LastProposedDistinct(ts, t);
    }
    SettledIsQuiet(once.log, ts, ctx);
  }

  // ---------------------------------------------------------------------
  // listener_loop: one pass over the channels
  // ---------------------------------------------------------------------

  /** A channel's new text, handed to `process_message` with the channel as source. */
  datatype Handed = Handed(channel: string, message: string)

  /** The last-seen texts after a pass, and the texts handed on, in channel order. */
  datatype Pass = Pass(seen: map<string, string>, handed: seq<Handed>)

  /** One channel: a fetch that raised, or found no text, or found the text seen
      last time, is skipped; a new text is recorded as seen and handed on.
      The record is made before the text is processed, so a failure while
      processing it does not bring it back. */
  function PollOne(seen: map<string, string>, channel: string, fetched: Result<Option<string>>): (r: Pass)
    ensures r.handed != [] <==>
      fetched.Ok? && fetched.value.Some? && fetched.value.value != ""
      && !(channel in seen && seen[channel] == fetched.value.value)
    ensures r.handed != [] ==>
      r.handed == [Handed(channel, fetched.value.value)] && r.seen == seen[channel := fetched.value.value]
    ensures r.handed == [] ==> r.seen == seen
  {
    match fetched
    case Raises(_) => Pass(seen, [])
    case Ok(None) => Pass(seen, [])
    case Ok(Some(message)) =>
      if message == "" then Pass(seen, [])
      else if channel in seen && seen[channel] == message then Pass(seen, [])
      else Pass(seen[channel := message], [Handed(channel, message)])
  }

  /** One pass of `listener_loop` over the configured channels, given what
      fetching each of them produced. */
  function PollAll(seen: map<string, string>, channels: seq<string>, fetched: seq<Result<Option<string>>>): (r: Pass)
    requires |fetched| == |channels|
    ensures |r.handed| <= |channels|
    ensures seen.Keys <= r.seen.Keys
    ensures forall h :: h in r.handed ==> h.channel in channels && h.channel in r.seen && h.message != ""
    decreases |channels|
  {
    if |channels| == 0 then Pass(seen, [])
    else
      var one := PollOne(seen, channels[0], fetched[0]);
      var rest := PollAll(one.seen, channels[1..], fetched[1..]);
      Pass(rest.seen, one.handed + rest.handed)
  }

  /** A pass over two lists of channels is a pass over the first, then the second. */
  lemma {:induction false} PollAllConcat(seen: map<string, string>, a: seq<string>, b: seq<string>,
                                         fa: seq<Result<Option<string>>>, fb: seq<Result<Option<string>>>)
    requires |fa| == |a| && |fb| == |b|
    ensures var first := PollAll(seen, a, fa);
      var second := PollAll(first.seen, b, fb);
      PollAll(seen, a + b, fa + fb) == Pass(second.seen, first.handed + second.handed)
    decreases |a|
  {
    if |a| == 0 {
      assert a + b == b && fa + fb == fb;
      assert [] + PollAll(seen, b, fb).handed == PollAll(seen, b, fb).handed;
    } else {
      assert (a + b)[1..] == a[1..] + b && (fa + fb)[1..] == fa[1..] + fb;
      assert (a + b)[0] == a[0] && (fa + fb)[0] == fa[0];
      var one := PollOne(seen, a[0], fa[0]);
      PollAllConcat(one.seen, a[1..], b, fa[1..], fb);
      var first' := PollAll(one.seen, a[1..], fa[1..]);
      var second := PollAll(first'.seen, b, fb);
      assert one.handed + (first'.handed + second.handed) == (one.handed + first'.handed) + second.handed;
    }
  }

  /** A channel whose fetch raised is passed over as if it were not configured:
      the channels after it are still read. */
  lemma FailedChannelSkipped(seen: map<string, string>, a: seq<string>, c: string, b: seq<string>,
                             fa: seq<Result<Option<string>>>, e: string, fb: seq<Result<Option<string>>>)
    requires |fa| == |a| && |fb| == |b|
    ensures PollAll(seen, a + [c] + b, fa + [Raises(e)] + fb) == PollAll(seen, a + b, fa + fb)
  {
    PollAllConcat(seen, a, [c] + b, fa, [Raises(e)] + fb);
    assert a + [c] + b == a + ([c] + b) && fa + [Raises(e)] + fb == fa + ([Raises(e)] + fb);
    var first := PollAll(seen, a, fa);
    assert PollAll(first.seen, [c] + b, [Raises(e)] + fb) == PollAll(first.seen, b, fb) by {
      assert ([c] + b)[1..] == b && ([Raises(e)] + fb)[1..] == fb;
      assert [] + PollAll(first.seen, b, fb).handed == PollAll(first.seen, b, fb).handed;
    }
    PollAllConcat(seen, a, b, fa, fb);
  }

  /** The text a fetch found, when it is one that gets handed on. */
  predicate FoundText(f: Result<Option<string>>) {
    f.Ok? && f.value.Some? && f.value.value != ""
  }

  /** After a pass over distinct channels, each channel that produced a text has it as last seen. */
  lemma {:induction false} PollRecordsTexts(seen: map<string, string>, channels: seq<string>, fetched: seq<Result<Option<string>>>)
    requires |fetched| == |channels|
    requires forall i, j :: 0 <= i < j < |channels| ==> channels[i] != channels[j]
    ensures var r := PollAll(seen, channels, fetched);
      forall i :: 0 <= i < |channels| && FoundText(fetched[i]) ==>
        channels[i] in r.seen && r.seen[channels[i]] == fetched[i].value.value
    ensures var r := PollAll(seen, channels, fetched);
      forall c :: c in seen && c !in channels ==> c in r.seen && r.seen[c] == seen[c]
    decreases |channels|
  {
    if |channels| > 0 {
      var one := PollOne(seen, channels[0], fetched[0]);
      var tail := channels[1..];
      assert forall i, j :: 0 <= i < j < |tail| ==> tail[i] != tail[j] by {
        assert forall i :: 0 <= i < |tail| ==> tail[i] == channels[i + 1];
      }
      PollRecordsTexts(one.seen, tail, fetched[1..]);
      assert channels[0] !in tail by {
        assert forall i :: 0 <= i < |tail| ==> tail[i] == channels[i + 1];
      }
      assert forall i :: 1 <= i < |channels| ==> channels[i] == tail[i - 1] && fetched[i] == fetched[1..][i - 1];
    }
  }

  /** A pass in which every channel offers its last-seen text hands nothing on and changes nothing. */
  lemma {:induction false} PollSeenIsQuiet(seen: map<string, string>, channels: seq<string>, fetched: seq<Result<Option<string>>>)
    requires |fetched| == |channels|
    requires forall i :: 0 <= i < |channels| && FoundText(fetched[i]) ==>
      channels[i] in seen && seen[channels[i]] == fetched[i].value.value
    ensures PollAll(seen, channels, fetched) == Pass(seen, [])
    decreases |channels|
  {
    if |channels| > 0 {
      assert forall i :: 1 <= i < |channels| ==> channels[i] == channels[1..][i - 1] && fetched[i] == fetched[1..][i - 1];
      PollSeenIsQuiet(seen, channels[1..], fetched[1..]);
    }
  }

  /** Polling distinct channels twice with the same results hands nothing on the second time. */
  lemma PollAgainIsQuiet(seen: map<string, string>, channels: seq<string>, fetched: seq<Result<Option<string>>>)
    requires |fetched| == |channels|
    requires forall i, j :: 0 <= i < j < |channels| ==> channels[i] != channels[j]
    ensures var once := PollAll(seen, channels, fetched);
      PollAll(once.seen, channels, fetched) == Pass(once.seen, [])
  {
    PollRecordsTexts(seen, channels, fetched);
    PollSeenIsQuiet(PollAll(seen, channels, fetched).seen, channels, fetched);
  }

  // ---------------------------------------------------------------------
  // The wildcard literal
  // ---------------------------------------------------------------------

  /** The nationwide region name the bot and the classifier's fallback answer use. */
  const Wildcard: string := "Россия"

  /** The literal the listener compares against: the UTF-8 bytes of "Россия"
      read back as Mac OS Roman. */
  const WrittenWildcard: string :=
    "\U{2013}\U{2020}\U{2013}\U{00E6}\U{2014}\U{00C5}\U{2014}\U{00C5}\U{2013}\U{220F}\U{2014}\U{00E8}"

  /** The classifier's fallback answer, and the record it holds. */
  const FallbackAnswer: string := "AC/Россия/ALL"
  const FallbackRecord: Record := Record("AC", "Россия", "ALL")

  /** A region list with the nationwide entry and one region. */
  const SampleNames: seq<string> := ["Москва", "Россия"]

  /** The fallback answer holds exactly the fallback record. */
  lemma FallbackRecords()
    ensures Records(FallbackAnswer) == [Some(FallbackRecord)]
  {
    FallbackClean();
    FallbackText();
    RecordsRoundTrip([FallbackRecord]);
  }

  lemma FallbackClean()
    ensures Clean(FallbackRecord)
  {
    PlainField("AC");
    PlainField("Россия");
    PlainField("ALL");
  }

  /** A field of letters only is clean. */
  lemma PlainField(f: string)
    requires |f| > 0 && forall k :: 0 <= k < |f| ==> 'A' <= f[k] <= 'Z' || '\U{0400}' <= f[k] <= '\U{044F}'
    ensures ',' !in f && '\n' !in f && '/' !in f && Unpadded(f)
  {
  }

  lemma FallbackText()
    ensures AnswerText([FallbackRecord]) == FallbackAnswer
  {
    assert RecordText(FallbackRecord) == FallbackAnswer;
    assert RecordTexts([FallbackRecord]) == [FallbackAnswer];
  }

  /** The fallback answer expands as its record does, for any region list that lists "Россия". */
  lemma FallbackAnswerParses(names: seq<string>, wildcard: string)
    requires "Россия" in names
    ensures Targets(FallbackAnswer, names, wildcard) == Expand(FallbackRecord, names, wildcard)
  {
    FallbackRecords();
    var rs := Records(FallbackAnswer);
    assert Validate(FallbackRecord, names) == Some(FallbackRecord);
    assert TargetsOf(rs, names, wildcard) == RecordTargets(rs[0], names, wildcard) + TargetsOf([], names, wildcard);
  }

  /** As written, the fallback answer for a list holding "Москва" and "Россия"
      never reaches the nationwide branch: "Россия" is treated as an ordinary
      region, giving four all-clear targets for "Россия" itself and none for Moscow. */
  lemma WrittenWildcardMissesNationwide()
    ensures Targets(FallbackAnswer, SampleNames, WrittenWildcard) == AllKinds("Россия", "AC")
  {
    FallbackAnswerParses(SampleNames, WrittenWildcard);
    assert WrittenWildcard[0] != 'Р';
  }

  /** With the intended wildcard, the same answer gives all-clear targets for
      every other region and none for the nationwide entry itself. */
  lemma WildcardClearsOthers()
    ensures Targets(FallbackAnswer, SampleNames, Wildcard) == AllKinds("Москва", "AC")
  {
    FallbackAnswerParses(SampleNames, Wildcard);
    var rest := SampleNames[1..];
    assert rest == [Wildcard];
    assert Nationwide(rest, Wildcard, "ALL", "AC") == [] by {
      assert rest[1..] == [];
    }
    assert SampleNames[0] != Wildcard;
    assert Nationwide(SampleNames, Wildcard, "ALL", "AC")
      == RegionTargets("Москва", "ALL", "AC") + Nationwide(rest, Wildcard, "ALL", "AC");
  }

  /** Reconciling the four `AC` targets of one region, for the keys of the
      region and for any key of another region. */
  lemma AllKindsProposed(region: string, g: string, k: string)
    ensures LastProposed(AllKinds(region, "AC"), g, k) ==
      if g == region && k in ConcreteKinds then Some("AC") else None
  {
    var ts := AllKinds(region, "AC");
    ProposedByOne(ts, g, k);
    if g == region && k in ConcreteKinds {
      var j :| 0 <= j < 4 && ConcreteKinds[j] == k;
      assert ts[j].region == g && ts[j].kind == k;
    }
  }

  /** A proposed status is the status of some target with that key. */
  lemma {:induction false} ProposedByOne(ts: seq<Target>, g: string, k: string)
    ensures LastProposed(ts, g, k).Some? ==>
      exists i :: 0 <= i < |ts| && ts[i] == Target(g, k, LastProposed(ts, g, k).value)
    decreases |ts|
  {
    if |ts| > 0 {
      ProposedByOne(ts[1..], g, k);
      if LastProposed(ts[1..], g, k).Some? {
        var i :| 0 <= i < |ts| - 1 && ts[1..][i] == Target(g, k, LastProposed(ts[1..], g, k).value);
        assert ts[i + 1] == ts[1..][i];
      } else if LastProposed(ts, g, k).Some? {
        assert ts[0] == Target(g, k, LastProposed(ts, g, k).value);
      }
    }
  }

  /** An answer whose targets are the four `AC` targets of one region saves
      rows for that region only, leaves it all-clear for every type, and
      leaves any other region's statuses as they were. */
  lemma ProcessClearsOneRegion(answer: string, names: seq<string>, wildcard: string, region: string,
                               log: Log, ctx: Context, g: string, k: string)
    requires Targets(answer, names, wildcard) == AllKinds(region, "AC")
    ensures var r := Process(answer, names, wildcard, log, ctx);
      && (forall i :: |log| <= i < |r.log| ==> r.log[i].region == region && r.log[i].status == "AC")
      && (k in ConcreteKinds ==> LastStatus(r.log, region, k) == Some("AC"))
      && (g != region ==> LastStatus(r.log, g, k) == LastStatus(log, g, k))
  {
    var ts := AllKinds(region, "AC");
    var r := ReconcileAll(log, ts, ctx);
    assert Process(answer, names, wildcard, log, ctx) == r;
    forall i | |log| <= i < |r.log| ensures r.log[i].region == region && r.log[i].status == "AC" {
      var row := r.log[i];
      assert r.log[|log|..][i - |log|] == row;
      InAllKinds(Target(row.region, row.kind, row.status), region, "AC");
    }
    if k in ConcreteKinds {
      assert LastStatus(r.log, region, k) == Some("AC") by {
        ReconcileAllSettles(log, ts, ctx, region, k);
        AllKindsProposed(region, region, k);
      }
    }
    if g != region {
      assert LastStatus(r.log, g, k) == LastStatus(log, g, k) by {
        ReconcileAllSettles(log, ts, ctx, g, k);
        AllKindsProposed(region, g, k);
      }
    }
  }

  /** Every target of `AllKinds` is for its region and status. */
  lemma InAllKinds(t: Target, region: string, status: string)
    requires t in AllKinds(region, status)
    ensures t.region == region && t.status == status
  {
    var j :| 0 <= j < 4 && AllKinds(region, status)[j] == t;
  }

  /** As written, processing the fallback answer, whatever the log held, saves
      rows for "Россия" only and leaves it all-clear for every type, while
      Moscow's statuses stay as they were: Moscow is never cleared. */
  lemma WrittenWildcardSavesNationwide(log: Log, ctx: Context, k: string)
    ensures var r := Process(FallbackAnswer, SampleNames, WrittenWildcard, log, ctx);
      && (forall i :: |log| <= i < |r.log| ==> r.log[i].region == "Россия" && r.log[i].status == "AC")
      && (k in ConcreteKinds ==> LastStatus(r.log, "Россия", k) == Some("AC"))
      && LastStatus(r.log, "Москва", k) == LastStatus(log, "Москва", k)
  {
    WrittenWildcardMissesNationwide();
    ProcessClearsOneRegion(FallbackAnswer, SampleNames, WrittenWildcard, "Россия", log, ctx, "Москва", k);
  }

  /** With the intended wildcard, processing the fallback answer saves rows for
      Moscow only and leaves it all-clear for every type, while the statuses
      recorded for "Россия" itself stay as they were. */
  lemma WildcardSettlesOthers(log: Log, ctx: Context, k: string)
    ensures var r := Process(FallbackAnswer, SampleNames, Wildcard, log, ctx);
      && (forall i :: |log| <= i < |r.log| ==> r.log[i].region == "Москва" && r.log[i].status == "AC")
      && (k in ConcreteKinds ==> LastStatus(r.log, "Москва", k) == Some("AC"))
      && LastStatus(r.log, "Россия", k) == LastStatus(log, "Россия", k)
  {
    WildcardClearsOthers();
    ProcessClearsOneRegion(FallbackAnswer, SampleNames, Wildcard, "Москва", log, ctx, "Россия", k);
  }
}
