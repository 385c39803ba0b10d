/**
 * The pure parts of the Telegram bot in `backend/bot.py`: region-list
 * pagination with its navigation buttons, the callback-data parser of
 * `handle_button_click`, once-only moderation of `/report` messages, the
 * `status`, `subscribe` and `unsubscribe` commands over the store, and the
 * admin-id gate of the admin commands. Telegram itself is left out: a reply
 * is a value of `Reply`, and command arguments arrive already joined by
 * spaces (`" ".join(context.args)`), the empty text meaning "no arguments".
 */
module Bot {
  import opened Wrappers
  import opened Seqs
  import opened PyText
  import opened Regions
  import opened Store

  /** The nationwide entry, which the region lists render and treat specially. */
  const Nationwide := "Россия"

  /** Where page `page` starts: REGIONS_PER_PAGE is ten. */
  function Offset(page: int): int {
    10 * page
  }

  // ---------------------------------------------------------------- pages

  /** A Python slice bound: a negative index counts from the end, and both
      are clamped to the sequence. */
  function SliceBound(i: int, n: nat): (b: nat)
    ensures b <= n
    ensures 0 <= i <= n ==> b == i
    ensures i > n ==> b == n
    ensures i < 0 ==> b == if i + n < 0 then 0 else i + n
  {
    if i < 0 then (if i + n < 0 then 0 else i + n) else if i > n then n else i
  }

  /** `s[start:end]`. */
  function PySlice<T>(s: seq<T>, start: int, end: int): seq<T> {
    var lo := SliceBound(start, |s|);
    var hi := SliceBound(end, |s|);
    if lo < hi then s[lo..hi] else []
  }

  /** `(len(list) - 1) // REGIONS_PER_PAGE + 1`; Python's floor division and
      Dafny's division agree for a positive divisor. It is the least number
      of pages of ten that hold every entry (none for an empty list). */
  function TotalPages(n: nat): (t: nat)
    ensures n == 0 ==> t == 0
    ensures n > 0 ==> t > 0 && Offset(t - 1) < n <= Offset(t)
  {
    (n - 1) / 10 + 1
  }

  /** `list[page * 10 : page * 10 + 10]`. */
  function PageEntries<T>(list: seq<T>, page: int): (r: seq<T>)
    ensures 0 <= page && Offset(page) <= |list| ==>
      r == list[Offset(page) .. Min(Offset(page) + 10, |list|)]
    ensures Offset(page) >= |list| ==> r == []
    ensures page == -1 ==> r == []
  {
    PySlice(list, Offset(page), Offset(page) + 10)
  }

  datatype Button = Button(caption: string, callback: string)

  /** A page of the region list: its text lines (joined by newlines when
      sent) and its navigation buttons. */
  datatype Page = Page(lines: seq<string>, buttons: seq<Button>)

  const BackLabel := "\U{2B05} Назад"
  const ForwardLabel := "Вперед \U{27A1}"
  const SubscribeAllLine := "`/subscribe all` - подписаться на все регионы"
  const UnsubscribeAllLine := "`/unsubscribe all` - отписаться от всех регионов"

  /** The callback data of a navigation button. */
  function Callback(command: string, page: int): string {
    command + "_page_" + IntToString(page)
  }

  /** The line for one entry: a copyable command, or the "all" hint for the
      nationwide entry. */
  function EntryLine(entry: string, command: string, lastCommand: string): (line: string)
    ensures entry == Nationwide ==> line == lastCommand
    ensures entry != Nationwide ==> Contains(line, entry) && |line| > 0 && line[0] == '`'
  {
    if entry != Nationwide then
      ContainsMiddle("`/" + command + " ", entry, "`");
      assert ("`/" + command + " " + entry + "`")[0] == '`';
      "`/" + command + " " + entry + "`"
    else lastCommand
  }

  function HeaderLine(page: int, total: nat): string {
    "\U{1F4CD} Выбери регион (стр. " + IntToString(page + 1) + "/" + IntToString(total) + "):\n"
  }

  /** `send_region_page`: the header, one line per entry of the page, a back
      button unless on the first page and a forward button unless on the last. */
  function RegionPage(list: seq<string>, page: int, command: string, lastCommand: string): (p: Page)
    ensures var entries := PageEntries(list, page);
      && |p.lines| == 1 + |entries|
      && forall i :: 0 <= i < |entries| ==> p.lines[i + 1] == EntryLine(entries[i], command, lastCommand)
    ensures var total := TotalPages(|list|);
      |p.buttons| == (if page > 0 then 1 else 0) + (if page < total - 1 then 1 else 0)
    ensures forall b :: b in p.buttons ==> b.caption == BackLabel || b.caption == ForwardLabel
    ensures page > 0 ==> p.buttons[0] == Button(BackLabel, Callback(command, page - 1))
    ensures page < TotalPages(|list|) - 1 ==>
      p.buttons[|p.buttons| - 1] == Button(ForwardLabel, Callback(command, page + 1))
  {
    var total := TotalPages(|list|);
    Page([HeaderLine(page, total)] + EntryLines(PageEntries(list, page), command, lastCommand),
         NavButtons(page, total, command))
  }

  function EntryLines(entries: seq<string>, command: string, lastCommand: string): (r: seq<string>)
    ensures |r| == |entries|
    ensures forall i :: 0 <= i < |entries| ==> r[i] == EntryLine(entries[i], command, lastCommand)
  {
    seq(|entries|, i requires 0 <= i < |entries| => EntryLine(entries[i], command, lastCommand))
  }

  function NavButtons(page: int, total: int, command: string): (r: seq<Button>)
    ensures |r| == (if page > 0 then 1 else 0) + (if page < total - 1 then 1 else 0)
    ensures forall b :: b in r ==> b.caption == BackLabel || b.caption == ForwardLabel
    ensures page > 0 ==> r[0] == Button(BackLabel, Callback(command, page - 1))
    ensures page < total - 1 ==> r[|r| - 1] == Button(ForwardLabel, Callback(command, page + 1))
  {
    var back := if page > 0 then [Button(BackLabel, Callback(command, page - 1))] else [];
    var forward := if page < total - 1 then [Button(ForwardLabel, Callback(command, page + 1))] else [];
    back + forward
  }

  /** The entries of `count` consecutive pages starting at page `from`. */
  function PagesFrom<T>(list: seq<T>, from: nat, count: nat): seq<T>
    decreases count
  {
    if count == 0 then [] else PageEntries(list, from) + PagesFrom(list, from + 1, count - 1)
  }

  /** The pages, read in order, show every entry exactly once and in list order. */
  lemma PagesCover<T>(list: seq<T>)
    ensures PagesFrom(list, 0, TotalPages(|list|)) == list
  {
    var total := TotalPages(|list|);
    PagesCoverFrom(list, 0);
    assert total - 0 == total;
    assert Min(Offset(0), |list|) == 0;
    assert list[0..] == list;
  }

  /** The pages from `from` on show the entries from `from * 10` on. */
  lemma {:induction false} PagesCoverFrom<T>(list: seq<T>, from: nat)
    requires from <= TotalPages(|list|)
    ensures Offset(from) <= |list| || from == TotalPages(|list|)
    ensures PagesFrom(list, from, TotalPages(|list|) - from) == list[Min(Offset(from), |list|)..]
    decreases TotalPages(|list|) - from
  {
    var total := TotalPages(|list|);
    if from == total {
      assert |list| <= Offset(from);
    } else {
      assert Offset(from) < |list| by {
        assert Offset(from) <= Offset(total - 1);
      }
      PagesCoverFrom(list, from + 1);
      var hi := Min(Offset(from) + 10, |list|);
      assert Offset(from + 1) == Offset(from) + 10;
      assert Min(Offset(from + 1), |list|) == hi;
      assert PageEntries(list, from) == list[Offset(from)..hi];
      assert PagesFrom(list, from, total - from)
          == PageEntries(list, from) + PagesFrom(list, from + 1, total - (from + 1));
      assert list[Offset(from)..] == list[Offset(from)..hi] + list[hi..];
    }
  }

  /** Every navigation button leads to a page that exists, next to this one. */
  lemma NavigationInRange(list: seq<string>, page: int, command: string, lastCommand: string, b: Button)
    requires 0 <= page < TotalPages(|list|)
    requires b in RegionPage(list, page, command, lastCommand).buttons
    ensures exists q :: 0 <= q < TotalPages(|list|) && (q == page - 1 || q == page + 1) && b.callback == Callback(command, q)
  {
    var p := RegionPage(list, page, command, lastCommand);
    if page > 0 && b == p.buttons[0] {
      assert b.callback == Callback(command, page - 1);
    } else {
      assert b.callback == Callback(command, page + 1);
    }
  }

  // ------------------------------------------------------ callback parsing

  const PageMarker := "_page_"

  datatype PageRequest =
    | Unsupported
    | BadNumber
    | Request(command: string, page: int)

  /** The page branch of `handle_button_click`: split on `_page_` into exactly
      two parts, the second of which `int()` must accept. */
  function ParsePageCallback(data: string): (r: PageRequest)
    ensures r.Unsupported? <==> |SplitOn(data, PageMarker)| != 2
    ensures r.Request? ==>
      r.command == SplitOn(data, PageMarker)[0] && Some(r.page) == ParseInt(SplitOn(data, PageMarker)[1])
    ensures r.Request? ==> Contains(data, PageMarker)
  {
    var parts := SplitOn(data, PageMarker);
    if |parts| != 2 then Unsupported
    else
      MarkerFound(data);
      match ParseInt(parts[1])
      case None => BadNumber
      case Some(p) => Request(parts[0], p)
  }

  /** Splitting yields a second part only when the separator occurs. */
  lemma MarkerFound(data: string)
    requires |SplitOn(data, PageMarker)| >= 2
    ensures Contains(data, PageMarker)
  {
    var i := Find(data, PageMarker).value;
    ContainsAt(data, PageMarker, i);
  }

  /** A text without the separator's first character does not contain it. */
  lemma FirstCharAbsent(b: string, sep: string)
    requires |sep| > 0 && sep[0] !in b
    ensures Find(b, sep).None?
  {
    assert forall i :: OccursAt(sep, b, i) ==> b[i] == sep[0];
  }

  /** The separator placed after a text without its first character is found right there. */
  lemma FoundAfter(a: string, rest: string, sep: string)
    requires |sep| > 0 && sep[0] !in a
    ensures Find(a + sep + rest, sep) == Some(|a|)
  {
    var s := a + sep + rest;
    assert s[|a|..|a| + |sep|] == sep;
    assert OccursAt(sep, s, |a|);
    assert forall j :: 0 <= j < |a| ==> !OccursAt(sep, s, j) by {
      forall j | 0 <= j < |a| ensures !OccursAt(sep, s, j) {
        assert s[j] == a[j];
      }
    }
    var r := Find(s, sep);
    assert r.Some?;
    assert !(r.value < |a|);
    assert !(r.value > |a|);
  }

  /** Two texts without the separator's first character, joined by the
      separator, split back into the two. */
  lemma SplitOnMarker(a: string, b: string, sep: string)
    requires |sep| > 0 && sep[0] !in a && sep[0] !in b
    ensures SplitOn(a + sep + b, sep) == [a, b]
  {
    var s := a + sep + b;
    FoundAfter(a, b, sep);
    assert s[..|a|] == a;
    assert s[|a| + |sep|..] == b;
    FirstCharAbsent(b, sep);
  }

  /** `str(n)` holds no underscore. */
  lemma NoUnderscoreInNumber(n: int)
    ensures '_' !in IntToString(n)
  {
    var r := IntToString(n);
    if n < 0 {
      assert forall k :: 1 <= k < |r| ==> r[k] == r[1..][k - 1];
    }
  }

  /** A navigation button's callback parses back to its command and page. */
  lemma CallbackRoundTrip(command: string, page: int)
    requires '_' !in command
    ensures ParsePageCallback(Callback(command, page)) == Request(command, page)
  {
    NoUnderscoreInNumber(page);
    SplitOnMarker(command, IntToString(page), PageMarker);
    assert Callback(command, page) == command + PageMarker + IntToString(page);
    IntRoundTrip(page);
  }

  // ------------------------------------------------------------ moderation

  /** A `/report` message waiting for an admin, stored under `report_<id>`. */
  datatype Report = Report(user: int, message: string, timestamp: string, handled: bool)

  type Reports = map<string, Report>

  /** What the bot answers, for every handler modelled here. */
  datatype Reply =
    | Cancelled
    | Approved(user: int, timestamp: string)
    | Rejected(user: int, timestamp: string)
    | AlreadyHandled(user: int, timestamp: string)
    | ReportNotFound
    | UnsupportedAction
    | BadPageNumber
    | NoSubscriptions
    | ShowPage(page: Page)
    | RegionNotFound
    | NoRecords(region: string)
    | Events(region: string, rows: seq<Attack>)
    | SubscribedAll
    | NowSubscribed(region: string)
    | AlreadySubscribed(region: string)
    | UnsubscribedAll
    | NowUnsubscribed(region: string)
    | Silent

  /** The reports after a click, the reply, and the text handed to the
      listener's `process_message` when a report is approved. */
  datatype Clicked = Clicked(reports: Reports, reply: Reply, forwarded: Option<string>)

  /** Callback data of an approve or reject button. */
  predicate IsModeration(data: string) {
    "approve_" <= data || "reject_" <= data
  }

  /** `data.split("_", 1)`: the action and the message id. */
  function ModerationParts(data: string): (parts: seq<string>)
    requires IsModeration(data)
    ensures |parts| == 2 && '_' !in parts[0]
    ensures parts[0] == "approve" || parts[0] == "reject"
    ensures parts[0] + "_" + parts[1] == data
  {
    if "approve_" <= data then
      SplitFirstAt("approve", data[8..], '_');
      assert data == "approve" + "_" + data[8..];
      SplitFirst(data, '_')
    else
      SplitFirstAt("reject", data[7..], '_');
      assert data == "reject" + "_" + data[7..];
      SplitFirst(data, '_')
  }

  /** A text without the separator, the separator, then anything: the split
      is at that separator. */
  lemma SplitFirstAt(a: string, b: string, sep: char)
    requires sep !in a
    ensures SplitFirst(a + [sep] + b, sep) == [a, b]
  {
    var s := a + [sep] + b;
    assert s[|a|] == sep;
    var parts := SplitFirst(s, sep);
    assert |parts| == 2;
    assert forall k :: 0 <= k < |a| ==> s[k] == a[k];
    assert forall k :: 0 <= k < |parts[0]| ==> s[k] == parts[0][k];
    assert |parts[0]| == |a|;
    assert parts[0] == s[..|a|] == a;
    assert parts[1] == s[|a| + 1..] == b;
  }

  /** The bot-data key a moderation button refers to. */
  function ModerationKey(data: string): string
    requires IsModeration(data)
  {
    "report_" + ModerationParts(data)[1]
  }

  /**
   * The moderation branch of `handle_button_click` as intended: a report
   * that is not stored is answered with "not found"; one already handled is
   * left alone; otherwise it is marked handled, and only an approval hands
   * its text to the listener.
   */
  function Moderate(data: string, reports: Reports): (r: Clicked)
    requires IsModeration(data)
    ensures r.reply == ReportNotFound <==> ModerationKey(data) !in reports
    ensures ModerationKey(data) !in reports ==> r.reports == reports && r.forwarded.None?
    ensures r.forwarded.Some? <==>
      "approve_" <= data && ModerationKey(data) in reports && !reports[ModerationKey(data)].handled
    ensures r.forwarded.Some? ==> r.forwarded.value == reports[ModerationKey(data)].message
    ensures ModerationKey(data) in reports ==>
      r.reports == reports[ModerationKey(data) := reports[ModerationKey(data)].(handled := true)]
    ensures r.reply != UnsupportedAction
  {
    var parts := ModerationParts(data);
    var key := ModerationKey(data);
    if key !in reports then Clicked(reports, ReportNotFound, None)
    else
      var rep := reports[key];
      if rep.handled then
        assert reports[key := rep.(handled := true)] == reports;
        Clicked(reports, AlreadyHandled(rep.user, rep.timestamp), None)
      else
        var reports' := reports[key := rep.(handled := true)];
        if parts[0] == "approve" then Clicked(reports', Approved(rep.user, rep.timestamp), Some(rep.message))
        else if parts[0] == "reject" then Clicked(reports', Rejected(rep.user, rep.timestamp), None)
        else Clicked(reports', UnsupportedAction, None)
  }

  /**
   * The same branch as written: `data["original_user_id"]` is read before
   * `if not data`, so a key that is not stored raises instead of being
   * answered; and a stored report is a non-empty dict, so the "not found"
   * reply is never given.
   */
  function ModerateAsWritten(data: string, reports: Reports): (r: Result<Clicked>)
    requires IsModeration(data)
    ensures r.Raises? <==> ModerationKey(data) !in reports
    ensures r.Ok? ==> r.value.reply != ReportNotFound
  {
    var parts := ModerationParts(data);
    var key := "report_" + parts[1];
    if key !in reports then Raises("TypeError: 'NoneType' object is not subscriptable")
    else
      var rep := reports[key];
      if rep.handled then Ok(Clicked(reports, AlreadyHandled(rep.user, rep.timestamp), None))
      else
        var reports' := reports[key := rep.(handled := true)];
        if parts[0] == "approve" then Ok(Clicked(reports', Approved(rep.user, rep.timestamp), Some(rep.message)))
        else if parts[0] == "reject" then Ok(Clicked(reports', Rejected(rep.user, rep.timestamp), None))
        else Ok(Clicked(reports', UnsupportedAction, None))
  }

  /** Where the report is stored, both agree. */
  lemma ModerationAgreesWhenStored(data: string, reports: Reports)
    requires IsModeration(data) && ModerationKey(data) in reports
    ensures ModerateAsWritten(data, reports) == Ok(Moderate(data, reports))
  {
  }

  /** Clicking "Approve" on a report the bot no longer holds (after a
      restart, say) raises instead of answering "not found". */
  lemma MissingReportRaises(reports: Reports)
    requires reports == map[]
    ensures ModerateAsWritten("approve_42", reports).Raises?
    ensures Moderate("approve_42", reports).reply == ReportNotFound
  {
    assert "approve_" <= "approve_42";
  }

  /** A report is acted on once: a second click on either of its buttons is
      answered "already handled", changes nothing and forwards nothing. */
  lemma ModeratedOnce(first: string, second: string, reports: Reports)
    requires IsModeration(first) && IsModeration(second)
    requires ModerationKey(first) == ModerationKey(second) && ModerationKey(first) in reports
    ensures var once := Moderate(first, reports);
      var twice := Moderate(second, once.reports);
      && twice.reply.AlreadyHandled?
      && twice.reports == once.reports
      && twice.forwarded.None?
  {
  }

  /**
   * `handle_report_response`: unless the report was cancelled, the message
   * is forwarded to every admin, and each forwarded copy, with its own
   * message id, is stored unhandled under `report_<id>`.
   */
  function ForwardReport(reports: Reports, cancelled: bool, user: int, message: string,
                         timestamp: string, ids: seq<int>): (r: Reports)
    ensures cancelled ==> r == reports
    ensures !cancelled ==> forall i :: 0 <= i < |ids| ==>
      ReportKey(ids[i]) in r && r[ReportKey(ids[i])] == Report(user, message, timestamp, false)
    ensures !cancelled ==> r.Keys == reports.Keys + CopyKeys(ids)
    ensures forall k :: k in reports && k !in CopyKeys(ids) ==> k in r && r[k] == reports[k]
    decreases |ids|
  {
    if cancelled || |ids| == 0 then reports
    else
      var prev := ForwardReport(reports, false, user, message, timestamp, ids[..|ids| - 1]);
      var stored := Report(user, message, timestamp, false);
      StoreLast(reports, prev, ids[..|ids| - 1], ids[|ids| - 1], stored);
      ButLast(ids);
      prev[ReportKey(ids[|ids| - 1]) := stored]
  }

  /** The keys the forwarded copies are stored under. */
  function CopyKeys(ids: seq<int>): set<string> {
    set i | 0 <= i < |ids| :: ReportKey(ids[i])
  }

  /** Storing the last copy keeps the earlier copies and every older report. */
  lemma StoreLast(reports: Reports, prev: Reports, pre: seq<int>, last: int, stored: Report)
    requires forall i :: 0 <= i < |pre| ==> ReportKey(pre[i]) in prev && prev[ReportKey(pre[i])] == stored
    requires prev.Keys == reports.Keys + CopyKeys(pre)
    requires forall k :: k in reports && k !in CopyKeys(pre) ==> k in prev && prev[k] == reports[k]
    ensures var r := prev[ReportKey(last) := stored]; var ids := pre + [last];
      && (forall i :: 0 <= i < |ids| ==> ReportKey(ids[i]) in r && r[ReportKey(ids[i])] == stored)
      && r.Keys == reports.Keys + CopyKeys(ids)
      && (forall k :: k in reports && k !in CopyKeys(ids) ==> k in r && r[k] == reports[k])
  {
    StoreLastCopies(prev, pre, last, stored);
    CopyKeysSnoc(pre, last);
  }

  lemma StoreLastCopies(prev: Reports, pre: seq<int>, last: int, stored: Report)
    requires forall i :: 0 <= i < |pre| ==> ReportKey(pre[i]) in prev && prev[ReportKey(pre[i])] == stored
    ensures var r := prev[ReportKey(last) := stored]; var ids := pre + [last];
      forall i :: 0 <= i < |ids| ==> ReportKey(ids[i]) in r && r[ReportKey(ids[i])] == stored
  {
    var ids := pre + [last];
    var r := prev[ReportKey(last) := stored];
    forall i | 0 <= i < |ids|
      ensures ReportKey(ids[i]) in r && r[ReportKey(ids[i])] == stored
    {
      if i < |pre| {
        assert ids[i] == pre[i];
      }
    }
  }

  lemma CopyKeysSnoc(pre: seq<int>, last: int)
    ensures CopyKeys(pre + [last]) == CopyKeys(pre) + {ReportKey(last)}
  {
    var ids := pre + [last];
    forall k | k in CopyKeys(ids) ensures k in CopyKeys(pre) + {ReportKey(last)} {
      var i :| 0 <= i < |ids| && k == ReportKey(ids[i]);
      if i < |pre| { assert ids[i] == pre[i]; }
    }
    forall k | k in CopyKeys(pre) ensures k in CopyKeys(ids) {
      var i :| 0 <= i < |pre| && k == ReportKey(pre[i]);
      assert ids[i] == pre[i];
    }
    assert ids[|pre|] == last;
  }

  /** The key a forwarded copy is stored under. */
  function ReportKey(id: int): string {
    "report_" + IntToString(id)
  }

  /** The approve and reject buttons sent with a forwarded copy. */
  function ModerationButtons(id: int): seq<Button> {
    [Button("\U{2705} Approve", "approve_" + IntToString(id)),
     Button("\U{274C} Reject", "reject_" + IntToString(id))]
  }

  /** The buttons sent with a copy find the report stored for that copy. */
  lemma ButtonsFindReport(id: int, b: Button)
    requires b in ModerationButtons(id)
    ensures IsModeration(b.callback) && ModerationKey(b.callback) == ReportKey(id)
  {
    NoUnderscoreInNumber(id);
    if b.callback == "approve_" + IntToString(id) {
      assert "approve_" <= b.callback;
      SplitFirstAt("approve", IntToString(id), '_');
      assert b.callback == "approve" + "_" + IntToString(id);
    } else {
      assert "reject_" <= b.callback;
      SplitFirstAt("reject", IntToString(id), '_');
      assert b.callback == "reject" + "_" + IntToString(id);
    }
  }

  /** Approving a freshly forwarded copy hands the user's text to the listener. */
  lemma ApproveForwardsText(reports: Reports, user: int, message: string, timestamp: string,
                            ids: seq<int>, i: nat)
    requires i < |ids|
    ensures var stored := ForwardReport(reports, false, user, message, timestamp, ids);
      Moderate(ModerationButtons(ids[i])[0].callback, stored).forwarded == Some(message)
  {
    ButtonsFindReport(ids[i], ModerationButtons(ids[i])[0]);
  }

  // ------------------------------------------------------------ page clicks

  /** Subscriptions as `send_region_page` prints them; the region-less row
      `ban_user` may insert prints as `None`. */
  function Shown(regions: seq<Option<string>>): (r: seq<string>)
    ensures |r| == |regions|
    ensures forall i :: 0 <= i < |regions| ==> r[i] == regions[i].GetOr("None")
  {
    seq(|regions|, i requires 0 <= i < |regions| => regions[i].GetOr("None"))
  }

  /** The page branch of `handle_button_click`. */
  function PageClick(data: string, names: seq<string>, t: Subs, user: int): (r: Reply)
    ensures ParsePageCallback(data).Unsupported? ==> r == UnsupportedAction
    ensures ParsePageCallback(data).BadNumber? ==> r == BadPageNumber
    ensures r.ShowPage? ==> ParsePageCallback(data).Request?
    ensures ParsePageCallback(data).Request? && ParsePageCallback(data).command == "subscribe" ==>
      r == ShowPage(RegionPage(names, ParsePageCallback(data).page, "subscribe", SubscribeAllLine))
    ensures ParsePageCallback(data).Request? && ParsePageCallback(data).command == "status" ==>
      r == ShowPage(RegionPage(names, ParsePageCallback(data).page, "status", ""))
    ensures ParsePageCallback(data).Request? && ParsePageCallback(data).command == "unsubscribe" ==>
      (r == NoSubscriptions <==> |GetSubscriptions(t, user)| == 0)
    ensures ParsePageCallback(data).Request? && ParsePageCallback(data).command == "unsubscribe" && |GetSubscriptions(t, user)| > 0 ==>
      r == ShowPage(RegionPage(Shown(GetSubscriptions(t, user)), ParsePageCallback(data).page, "unsubscribe", UnsubscribeAllLine))
    ensures ParsePageCallback(data).Request? && ParsePageCallback(data).command !in ["subscribe", "unsubscribe", "status"] ==>
      r == Silent
  {
    match ParsePageCallback(data)
    case Unsupported => UnsupportedAction
    case BadNumber => BadPageNumber
    case Request(command, page) =>
      if command == "subscribe" then ShowPage(RegionPage(names, page, "subscribe", SubscribeAllLine))
      else if command == "unsubscribe" then
        var subs := GetSubscriptions(t, user);
        if |subs| == 0 then NoSubscriptions
        else ShowPage(RegionPage(Shown(subs), page, "unsubscribe", UnsubscribeAllLine))
      else if command == "status" then ShowPage(RegionPage(names, page, "status", ""))
      else Silent
  }

  /** `handle_button_click`, with the corrected moderation branch. */
  function HandleClick(data: string, reports: Reports, names: seq<string>, t: Subs, user: int): (r: Clicked)
    ensures data == "cancel_report" ==> r == Clicked(reports, Cancelled, None)
    ensures r.forwarded.Some? ==> "approve_" <= data
    ensures !IsModeration(data) ==> r.reports == reports && r.forwarded.None?
    ensures data != "cancel_report" && IsModeration(data) ==> r == Moderate(data, reports)
    ensures data != "cancel_report" && !IsModeration(data) ==> r.reply == PageClick(data, names, t, user)
  {
    if data == "cancel_report" then Clicked(reports, Cancelled, None)
    else if IsModeration(data) then Moderate(data, reports)
    else Clicked(reports, PageClick(data, names, t, user), None)
  }

  /** A page callback of the `subscribe` list shows that page. */
  lemma SubscribePageClick(names: seq<string>, q: int, reports: Reports, t: Subs, user: int)
    ensures HandleClick(Callback("subscribe", q), reports, names, t, user)
      == Clicked(reports, ShowPage(RegionPage(names, q, "subscribe", SubscribeAllLine)), None)
  {
    var data := Callback("subscribe", q);
    assert data != "cancel_report" && !IsModeration(data) by {
      assert data[0] == 's';
      StartsWithS(data);
    }
    assert PageClick(data, names, t, user) == ShowPage(RegionPage(names, q, "subscribe", SubscribeAllLine)) by {
      CallbackRoundTrip("subscribe", q);
    }
  }

  /** A callback starting with `s` is neither the cancel nor a moderation button. */
  lemma StartsWithS(data: string)
    requires |data| > 0 && data[0] == 's'
    ensures data != "cancel_report" && !IsModeration(data)
  {
    assert !("approve_" <= data) by { assert "approve_"[0] != data[0]; }
    assert !("reject_" <= data) by { assert "reject_"[0] != data[0]; }
    assert data != "cancel_report" by { assert "cancel_report"[0] != data[0]; }
  }

  /** Pressing a navigation button of the region list shows the page it names. */
  lemma NavigationClick(names: seq<string>, page: int, reports: Reports, t: Subs, user: int, b: Button)
    requires b in RegionPage(names, page, "subscribe", SubscribeAllLine).buttons
    ensures exists q :: (
      && (q == page - 1 || q == page + 1)
      && HandleClick(b.callback, reports, names, t, user)
         == Clicked(reports, ShowPage(RegionPage(names, q, "subscribe", SubscribeAllLine)), None))
  {
    var p := RegionPage(names, page, "subscribe", SubscribeAllLine);
    var q := if page > 0 && b == p.buttons[0] then page - 1 else page + 1;
    assert b.callback == Callback("subscribe", q);
    SubscribePageClick(names, q, reports, t, user);
  }

  // --------------------------------------------------------------- commands

  /** `status`: with no argument, the first page of the region list; else the
      region is looked up (exact, then contained in an entry) and its five
      newest rows are listed, newest first. */
  function StatusCommand(log: Log, names: seq<string>, args: string): (r: Reply)
    ensures args == "" ==> r == ShowPage(RegionPage(names, 0, "status", ""))
    ensures args != "" ==> (r == RegionNotFound <==> Canonicalise(args, names).None?)
    ensures r.NoRecords? ==> r.region in names && |RegionRows(log, r.region)| == 0
    ensures r.Events? ==>
      r.region in names && 0 < |r.rows| <= 5 && forall i :: 0 <= i < |r.rows| ==> r.rows[i].region == r.region && r.rows[i] in log
    ensures args != "" && Canonicalise(args, names).Some? ==>
      var g := Canonicalise(args, names).value;
      var rows := RegionRows(log, g);
      && (r.NoRecords? || r.Events?) && r.region == g
      && (r.NoRecords? <==> |rows| == 0)
      && (r.Events? ==> |r.rows| == Min(5, |rows|) &&
                        forall i :: 0 <= i < |r.rows| ==> r.rows[i] == rows[|rows| - 1 - i])
  {
    if args == "" then ShowPage(RegionPage(names, 0, "status", ""))
    else
      match Canonicalise(args, names)
      case None => RegionNotFound
      case Some(g) =>
        var events := AttacksByRegion(log, g, 5);
        if |events| == 0 then NoRecords(g) else Events(g, events)
  }

  /** The table after a command, and the reply. */
  datatype Outcome = Outcome(table: Subs, reply: Reply)

  /** `subscribe all`: every listed region except the nationwide one, in list order. */
  function SubscribeAll(t: Subs, user: int, names: seq<string>): (t': Subs)
    ensures forall u, g :: Subscribed(t', u, g) <==>
      Subscribed(t, u, g) || (u == user && g in names && g != Nationwide)
    ensures UniquePairs(t) ==> UniquePairs(t')
    ensures forall u :: IsBanned(t', u) <==> IsBanned(t, u)
    decreases |names|
  {
    if |names| == 0 then t
    else
      var t1 := if names[0] != Nationwide then AddSubscription(t, user, names[0]).table else t;
      AddEffect(t, user, names[0]);
      var t' := SubscribeAll(t1, user, names[1..]);
      assert forall g :: g in names <==> g == names[0] || g in names[1..];
      t'
  }

  /** Adding a pair makes exactly that pair subscribed, and touches no ban flag. */
  lemma AddEffect(t: Subs, user: int, region: string)
    ensures var t' := AddSubscription(t, user, region).table;
      && (forall u, g :: Subscribed(t', u, g) <==> Subscribed(t, u, g) || (u == user && g == region))
      && (forall u :: IsBanned(t', u) <==> IsBanned(t, u))
  {
    var r := AddSubscription(t, user, region);
    if r.added {
      var x := Sub(user, Some(region), false);
      assert r.table == t + [x];
      forall u, g ensures Subscribed(r.table, u, g) <==> Subscribed(t, u, g) || (u == user && g == region) {
        if Subscribed(t, u, g) {
          var i :| 0 <= i < |t| && t[i].user == u && t[i].region == Some(g);
          assert r.table[i] == t[i];
        }
        if u == user && g == region {
          assert r.table[|t|] == x;
        }
      }
      AddKeepsBanFlags(t, x);
    }
  }

  /** Appending a row that is not banned changes no one's ban state. */
  lemma AddKeepsBanFlags(t: Subs, x: Sub)
    requires !x.banned
    ensures forall u :: IsBanned(t + [x], u) <==> IsBanned(t, u)
  {
    forall u ensures IsBanned(t + [x], u) <==> IsBanned(t, u) {
      assert forall i :: 0 <= i < |t| ==> (t + [x])[i] == t[i];
    }
  }

  /** `subscribe`: `all` subscribes to every region but the nationwide one; a
      name is looked up and rejected when unknown; no argument shows the list. */
  function SubscribeCommand(t: Subs, user: int, names: seq<string>, args: string): (r: Outcome)
    ensures args == "" ==> r == Outcome(t, ShowPage(RegionPage(names, 0, "subscribe", SubscribeAllLine)))
    ensures args != "all" && args != "" ==>
      (r.reply == RegionNotFound <==> Canonicalise(args, names).None?)
    ensures r.reply == RegionNotFound ==> r.table == t
    ensures r.reply.NowSubscribed? ==>
      r.reply.region in names && !Subscribed(t, user, r.reply.region) && r.table == t + [Sub(user, Some(r.reply.region), false)]
    ensures r.reply.AlreadySubscribed? ==> r.table == t && Subscribed(t, user, r.reply.region)
    ensures UniquePairs(t) ==> UniquePairs(r.table)
    ensures args == "all" ==> (
      && r.reply == SubscribedAll
      && forall u, g :: Subscribed(r.table, u, g) <==> Subscribed(t, u, g) || (u == user && g in names && g != Nationwide))
    ensures args != "all" && args != "" && Canonicalise(args, names).Some? ==>
      var g := Canonicalise(args, names).value;
      && (r.reply == NowSubscribed(g) <==> !Subscribed(t, user, g))
      && (r.reply == AlreadySubscribed(g) <==> Subscribed(t, user, g))
      && forall u, h :: Subscribed(r.table, u, h) <==> Subscribed(t, u, h) || (u == user && h == g)
    ensures forall u :: IsBanned(r.table, u) <==> IsBanned(t, u)
  {
    if args == "all" then Outcome(SubscribeAll(t, user, names), SubscribedAll)
    else if args != "" then
      match Canonicalise(args, names)
      case None => Outcome(t, RegionNotFound)
      case Some(g) =>
        var a := AddSubscription(t, user, g);
        AddEffect(t, user, g);
        Outcome(a.table, if a.added then NowSubscribed(g) else AlreadySubscribed(g))
    else Outcome(t, ShowPage(RegionPage(names, 0, "subscribe", SubscribeAllLine)))
  }

  /** After `subscribe all` the user follows every listed region but the
      nationwide one, and nobody else's subscriptions change. */
  lemma SubscribeAllCovers(t: Subs, user: int, names: seq<string>, g: string)
    requires g in names && g != Nationwide
    ensures Subscribed(SubscribeCommand(t, user, names, "all").table, user, g)
  {
  }

  /** Unsubscribe the user from each listed region but the nationwide one. */
  function UnsubscribeEach(t: Subs, user: int, regions: seq<Option<string>>): (t': Subs)
    ensures forall u, g :: Subscribed(t', u, g) <==>
      Subscribed(t, u, g) && !(u == user && Some(g) in regions && g != Nationwide)
    ensures forall u :: u != user ==> (IsBanned(t', u) <==> IsBanned(t, u))
    ensures IsBanned(t', user) ==> IsBanned(t, user)
    decreases |regions|
  {
    if |regions| == 0 then t
    else
      var t1 := if regions[0] != Some(Nationwide) then RemoveSubscription(t, user, regions[0]).table else t;
      var t' := UnsubscribeEach(t1, user, regions[1..]);
      assert forall o :: o in regions <==> o == regions[0] || o in regions[1..];
      t'
  }

  /** `unsubscribe`: `all` drops every subscription but the nationwide one; a
      name is looked up but, unlike `subscribe`, an unknown name is not
      rejected: the raw text is removed; with no argument and no
      subscriptions the user is told so, else the subscriptions are listed. */
  function UnsubscribeCommand(t: Subs, user: int, names: seq<string>, args: string): (r: Outcome)
    ensures args != "all" && args != "" ==>
      r.reply == NowUnsubscribed(Canonicalise(args, names).GetOr(args))
      && !Subscribed(r.table, user, r.reply.region)
      && forall u, g :: Subscribed(r.table, u, g) <==> Subscribed(t, u, g) && !(u == user && g == r.reply.region)
    ensures args == "all" ==> (
      && r.reply == UnsubscribedAll
      && forall u, g :: Subscribed(r.table, u, g) <==> Subscribed(t, u, g) && !(u == user && g != Nationwide))
    ensures r.reply == NoSubscriptions <==> args == "" && |GetSubscriptions(t, user)| == 0
    ensures args == "" && |GetSubscriptions(t, user)| > 0 ==>
      r.reply == ShowPage(RegionPage(Shown(GetSubscriptions(t, user)), 0, "unsubscribe", UnsubscribeAllLine))
    ensures r.reply.ShowPage? ==> r.table == t
    ensures forall u :: u != user ==> (IsBanned(r.table, u) <==> IsBanned(t, u))
    ensures IsBanned(r.table, user) ==> IsBanned(t, user)
  {
    var subs := GetSubscriptions(t, user);
    if args == "all" then Outcome(UnsubscribeEach(t, user, subs), UnsubscribedAll)
    else if args != "" then
      var g := Canonicalise(args, names).GetOr(args);
      Outcome(RemoveSubscription(t, user, Some(g)).table, NowUnsubscribed(g))
    else if |subs| == 0 then Outcome(t, NoSubscriptions)
    else Outcome(t, ShowPage(RegionPage(Shown(subs), 0, "unsubscribe", UnsubscribeAllLine)))
  }

  /** After `unsubscribe all` the user follows at most the nationwide entry. */
  lemma {:induction false} UnsubscribeAllLeavesNationwide(t: Subs, user: int, names: seq<string>, g: string)
    requires Subscribed(UnsubscribeCommand(t, user, names, "all").table, user, g)
    ensures g == Nationwide
  {
    var subs := GetSubscriptions(t, user);
    var t' := UnsubscribeEach(t, user, subs);
    assert Subscribed(t', user, g);
    assert Subscribed(t, user, g);
    assert Some(g) in subs;
  }

  /** A banned user who unsubscribes from every region is no longer banned:
      the deleted rows carried the flag. */
  lemma UnsubscribeLiftsBan()
    ensures var t := [Sub(1, Some("A"), true)];
      IsBanned(t, 1) && !IsBanned(UnsubscribeCommand(t, 1, ["A"], "all").table, 1)
  {
    var t := [Sub(1, Some("A"), true)];
    assert t[0].user == 1 && t[0].banned;
    assert GetSubscriptions(t, 1) == [Some("A")];
    var t1 := RemoveSubscription(t, 1, Some("A")).table;
    assert WithoutPair(t, 1, Some("A")) == [];
    assert UnsubscribeEach(t1, 1, []) == t1;
  }

  /** `unsubscribe` as intended: the same reply and the same subscriptions,
      but every ban, the caller's included, survives. */
  function UnsubscribeKeepingBan(t: Subs, user: int, names: seq<string>, args: string): (r: Outcome)
    ensures r.reply == UnsubscribeCommand(t, user, names, args).reply
    ensures forall u, g :: Subscribed(r.table, u, g) <==> Subscribed(UnsubscribeCommand(t, user, names, args).table, u, g)
    ensures forall u :: IsBanned(r.table, u) <==> IsBanned(t, u)
  {
    var o := UnsubscribeCommand(t, user, names, args);
    Outcome(KeepBan(t, o.table, user), o.reply)
  }

  /** A name that matches no region is still "unsubscribed", verbatim. */
  lemma UnsubscribeUnknownName(t: Subs, user: int, names: seq<string>, args: string)
    requires args != "all" && args != "" && Canonicalise(args, names).None?
    ensures UnsubscribeCommand(t, user, names, args).reply == NowUnsubscribed(args)
  {
  }

  // ------------------------------------------------------------- admin gate

  /** `str(user_id) in ADMIN_USER_ID.split(",")`: an exact match against one
      comma-separated entry (spaces are not stripped). */
  predicate IsAdmin(user: int, adminIds: string)
    ensures adminIds == "" ==> !IsAdmin(user, adminIds)
    ensures IsAdmin(user, adminIds) ==> forall c :: c in IntToString(user) ==> c in adminIds
  {
    var parts := Split(adminIds, ',');
    assert IntToString(user) in parts ==> forall c :: c in IntToString(user) ==> c in adminIds by {
      if IntToString(user) in parts {
        var k :| 0 <= k < |parts| && parts[k] == IntToString(user);
        JoinHasPart(parts, k, ',');
      }
    }
    IntToString(user) in parts
  }

  /** The ids written out as `ADMIN_USER_ID`. */
  function IdList(ids: seq<int>): (r: seq<string>)
    ensures |r| == |ids|
    ensures forall i :: 0 <= i < |ids| ==> r[i] == IntToString(ids[i])
  {
    seq(|ids|, i requires 0 <= i < |ids| => IntToString(ids[i]))
  }

  /** Every id listed in a comma-joined list passes the gate, and no other does. */
  lemma AdminGate(ids: seq<int>, user: int)
    requires |ids| > 0
    ensures IsAdmin(user, Join(IdList(ids), ',')) <==> user in ids
  {
    var parts := IdList(ids);
    forall k | 0 <= k < |parts| ensures ',' !in parts[k] {
      NoCommaInNumber(ids[k]);
    }
    SplitJoin(parts, ',');
    IdListHas(ids, user);
  }

  /** A number's text is in the list exactly when the number is. */
  lemma IdListHas(ids: seq<int>, user: int)
    ensures IntToString(user) in IdList(ids) <==> user in ids
  {
    var parts := IdList(ids);
    if user in ids {
      var k :| 0 <= k < |ids| && ids[k] == user;
      assert parts[k] == IntToString(user);
    }
    if IntToString(user) in parts {
      var k :| 0 <= k < |parts| && parts[k] == IntToString(user);
      IntRoundTrip(user);
      IntRoundTrip(ids[k]);
    }
  }

  /** `str(n)` holds no comma. */
  lemma NoCommaInNumber(n: int)
    ensures ',' !in IntToString(n)
  {
    var r := IntToString(n);
    if n < 0 {
      assert forall k :: 1 <= k < |r| ==> r[k] == r[1..][k - 1];
    }
  }

  /** `/ban <id> <reason>` and `/unban <id> <reason>`: the id and the reason
      as the handler reads them; without a reason the `user_answer[1]` lookup
      raises, which the handler catches and nothing happens. */
  function ModerationTarget(args: string): (r: Option<int>)
    ensures r.Some? ==> ' ' in args && ParseInt(SplitFirst(args, ' ')[0]) == r
    ensures ' ' in args ==> r == ParseInt(SplitFirst(args, ' ')[0])
    ensures ' ' !in args ==> r.None?
  {
    var parts := SplitFirst(args, ' ');
    if |parts| < 2 then None else ParseInt(parts[0])
  }

  /** `/ban`: an admin bans a user who is not banned yet; anyone else, a bad id
      or a missing reason changes nothing. */
  function BanCommand(t: Subs, caller: int, adminIds: string, args: string): (r: Subs)
    ensures !IsAdmin(caller, adminIds) || ModerationTarget(args).None? ==> r == t
    ensures IsAdmin(caller, adminIds) && ModerationTarget(args).Some? ==>
      IsBanned(r, ModerationTarget(args).value)
      && forall u :: u != ModerationTarget(args).value ==> (IsBanned(r, u) <==> IsBanned(t, u))
    ensures forall u, g :: Subscribed(r, u, g) <==> Subscribed(t, u, g)
  {
    if !IsAdmin(caller, adminIds) then t
    else
      match ModerationTarget(args)
      case None => t
      case Some(id) => if IsBanned(t, id) then t else BanUser(t, id).table
  }

  /** `/unban`: the mirror image of `/ban`. */
  function UnbanCommand(t: Subs, caller: int, adminIds: string, args: string): (r: Subs)
    ensures !IsAdmin(caller, adminIds) || ModerationTarget(args).None? ==> r == t
    ensures IsAdmin(caller, adminIds) && ModerationTarget(args).Some? ==>
      !IsBanned(r, ModerationTarget(args).value)
      && forall u :: u != ModerationTarget(args).value ==> (IsBanned(r, u) <==> IsBanned(t, u))
    ensures forall u, g :: Subscribed(r, u, g) <==> Subscribed(t, u, g)
  {
    if !IsAdmin(caller, adminIds) then t
    else
      match ModerationTarget(args)
      case None => t
      case Some(id) => if IsBanned(t, id) then UnbanUser(t, id).table else t
  }

  /** `/ban <id> <reason>` from an admin reaches the user it names. */
  lemma BanReachesUser(t: Subs, caller: int, adminIds: string, id: int, reason: string)
    requires IsAdmin(caller, adminIds)
    ensures IsBanned(BanCommand(t, caller, adminIds, IntToString(id) + " " + reason), id)
  {
    SplitFirstAt(IntToString(id), reason, ' ');
    assert IntToString(id) + " " + reason == IntToString(id) + [' '] + reason;
    IntRoundTrip(id);
  }

  /** `/ban <id>` with no reason changes nothing. */
  lemma BanWithoutReasonIgnored(t: Subs, caller: int, adminIds: string, id: int)
    ensures BanCommand(t, caller, adminIds, IntToString(id)) == t
  {
    assert ' ' !in IntToString(id);
  }

  /** `/is_banned <id>`: an admin is told whether the user is banned; anyone
      else, or an id `int()` rejects, gets nothing. */
  function IsBannedCommand(t: Subs, caller: int, adminIds: string, args: seq<string>): (r: Option<bool>)
    ensures !IsAdmin(caller, adminIds) || |args| == 0 ==> r.None?
    ensures r.Some? ==> exists id :: ParseInt(args[0]) == Some(id) && r.value == IsBanned(t, id)
    ensures IsAdmin(caller, adminIds) && |args| > 0 ==>
      (r.Some? <==> ParseInt(args[0]).Some?)
      && (r.Some? ==> r.value == IsBanned(t, ParseInt(args[0]).value))
  {
    if !IsAdmin(caller, adminIds) || |args| == 0 then None
    else
      match ParseInt(args[0])
      case None => None
      case Some(id) => Some(IsBanned(t, id))
  }
}
