/**
 * The Telegram alert text built by the backend for one (region, type,
 * status) change: an all-clear template for status `AC`, a warning template
 * for every other status, and an optional quoted comment. The wall-clock
 * timestamp is a parameter.
 */
module Render {
  import opened Wrappers
  import opened PyText

  /** Human-readable hazard types. */
  const TypeLabels: map<string, string> := map[
    "UAV" := "атаки БПЛА",
    "AIR" := "воздушной атаки",
    "ROCKET" := "ракетной атаки",
    "UB" := "атаки безэкипажного катера (БЭК)"
  ]

  /** Human-readable severities. */
  const StatusLabels: map<string, string> := map[
    "HD" := "Высокий",
    "MD" := "Средний",
    "AC" := "Отбой/Нет угрозы"
  ]

  const AllClearHeader := "<b>\U{2705} ОТБОЙ тревоги</b>"
  const WarningHeader := "<b>\U{26A0}\U{FE0F} ВНИМАНИЕ!</b>"
  const CommentOpen := "<pre>\U{1F4AC} Комментарий:"
  const CommentClose := "</blockquote></pre>"

  /** `r.endswith(CommentClose)`: the text ends with the closed quote block. */
  predicate EndsWithQuote(r: string) {
    |r| >= |CommentClose| && r[|r| - |CommentClose|..] == CommentClose
  }

  /** `table.get(code, code)`: a known code is translated, any other passes through. */
  function Readable(table: map<string, string>, code: string): string {
    if code in table then table[code] else code
  }

  /** How the source is shown: `@channel`, except the literal `Admin`. */
  function ShownSource(source: string): (r: string)
    ensures source == "Admin" <==> r == "Admin"
    ensures source != "Admin" ==> |r| == |source| + 1 && r[0] == '@' && r[1..] == source
  {
    if source != "Admin" then
      assert ("@" + source)[0] == '@';
      "@" + source
    else source
  }

  /** Python truthiness of an optional string: present and non-empty. */
  predicate Truthy(comment: Option<string>) {
    comment.Some? && comment.value != ""
  }

  /** The lines of the template the status selects, each later followed by a newline. */
  function TemplateLines(region: string, kind: string, status: string, source: string, timestamp: string): seq<string> {
    Layout(status == "AC", region, Readable(TypeLabels, kind), Readable(StatusLabels, status),
           ShownSource(source), "Время: <code>" + timestamp + "</code>")
  }

  /** The all-clear or the warning template, filled in. */
  function Layout(allClear: bool, region: string, t: string, s: string, src: string, time: string): (lines: seq<string>)
    ensures |lines| == 6
  {
    if allClear then
      [AllClearHeader, "Регион: " + region, "Тип угрозы: " + t, "Статус: " + s, "Источник: " + src, time]
    else
      [WarningHeader, "Угроза " + t, "Регион: " + region, "Уровень: " + s, "Источник: " + src, time]
  }

  /** Each line followed by a newline, concatenated. */
  function Terminated(lines: seq<string>): string {
    if |lines| == 0 then "" else lines[0] + "\n" + Terminated(lines[1..])
  }

  /** `format_notification(region, attack_type, status, source, comment)`:
      the message opens with the all-clear header exactly for an `AC` status
      and with the warning header exactly otherwise, and it ends with the
      closed quote block exactly when a truthy comment was given. */
  function FormatNotification(region: string, kind: string, status: string, source: string,
                              comment: Option<string>, timestamp: string): (r: string)
    ensures status == "AC" <==> AllClearHeader <= r
    ensures status != "AC" <==> WarningHeader <= r
    ensures Truthy(comment) <==> EndsWithQuote(r)
  {
    var body := TemplateText(region, kind, status, source, timestamp);
    MessageShape(body, status, comment);
    WithOptionalComment(body, comment)
  }

  /** A template text with the header its status selects, ending in a
      newline, keeps that header and no other once the comment block is
      added, and ends with the closing tags exactly when there is one. */
  lemma MessageShape(body: string, status: string, comment: Option<string>)
    requires |body| > |AllClearHeader| && |body| > |WarningHeader| && body[|body| - 1] == '\n'
    requires status == "AC" ==> AllClearHeader <= body
    requires status != "AC" ==> WarningHeader <= body
    ensures var r := WithOptionalComment(body, comment);
      && (status == "AC" <==> AllClearHeader <= r)
      && (status != "AC" <==> WarningHeader <= r)
      && (Truthy(comment) <==> EndsWithQuote(r))
  {
    var r := WithOptionalComment(body, comment);
    HeadersExclusive(r);
    CommentEnd(body, comment);
  }

  /** The text, followed by the comment block when the comment is truthy. */
  function WithOptionalComment(body: string, comment: Option<string>): (r: string)
    ensures body <= r
  {
    if Truthy(comment) then WithComment(body, comment.value) else body
  }

  /** Appending the comment block is what makes a newline-terminated text end
      with the closing tags. */
  lemma CommentEnd(body: string, comment: Option<string>)
    requires |body| > 0 && body[|body| - 1] == '\n'
    ensures var r := WithOptionalComment(body, comment);
      Truthy(comment) <==> EndsWithQuote(r)
  {
    if !Truthy(comment) {
      NewlineIsNoCommentEnd(body);
    }
  }

  /** The template text followed by the quoted comment block. */
  function WithComment(body: string, c: string): (r: string)
    ensures body <= r
    ensures EndsWithQuote(r)
  {
    body + "\n" + CommentOpen + "\n" + ("<blockquote>" + c + CommentClose)
  }

  /** No text starts with both headers: they differ in their fourth code point. */
  lemma HeadersExclusive(r: string)
    ensures !(AllClearHeader <= r && WarningHeader <= r)
  {
    if AllClearHeader <= r {
      assert r[3] == '\U{2705}';
      assert WarningHeader[3] == '\U{26A0}';
    }
  }

  /** A text ending in a newline does not end with the comment block's closing tags. */
  lemma NewlineIsNoCommentEnd(r: string)
    requires |r| > 0 && r[|r| - 1] == '\n'
    ensures !EndsWithQuote(r)
  {
    if |r| >= |CommentClose| {
      assert r[|r| - |CommentClose|..][|CommentClose| - 1] == '\n';
    }
  }

  /** The template text starts with the header its status selects and ends in a newline. */
  function TemplateText(region: string, kind: string, status: string, source: string, timestamp: string): (body: string)
    ensures |body| > |AllClearHeader| && |body| > |WarningHeader|
    ensures status == "AC" ==> AllClearHeader <= body
    ensures status != "AC" ==> WarningHeader <= body
    ensures body[|body| - 1] == '\n'
  {
    var lines := TemplateLines(region, kind, status, source, timestamp);
    TerminatedEnds(lines);
    assert Terminated(lines) == lines[0] + "\n" + Terminated(lines[1..]);
    Terminated(lines)
  }

  /** A non-empty list of terminated lines ends in a newline. */
  lemma {:induction false} TerminatedEnds(lines: seq<string>)
    requires |lines| > 0
    ensures |Terminated(lines)| > 0 && Terminated(lines)[|Terminated(lines)| - 1] == '\n'
    decreases |lines|
  {
    if |lines| > 1 {
      TerminatedEnds(lines[1..]);
    }
  }

  /** Terminating every line is joining them with one more, empty, line. */
  lemma {:induction false} TerminatedIsJoin(lines: seq<string>)
    ensures Terminated(lines) == Join(lines + [""], '\n')
    decreases |lines|
  {
    if |lines| > 0 {
      assert (lines + [""])[1..] == lines[1..] + [""];
      TerminatedIsJoin(lines[1..]);
    }
  }

  /** Unknown type and status codes are shown verbatim. */
  lemma UnknownCodesPassThrough(kind: string, status: string)
    requires kind !in TypeLabels && status !in StatusLabels
    ensures Readable(TypeLabels, kind) == kind && Readable(StatusLabels, status) == status
  {
  }

  /** The rendered source determines the source: distinct channels never look alike. */
  lemma ShownSourceInjective(a: string, b: string)
    requires ShownSource(a) == ShownSource(b)
    ensures a == b
  {
    if a != "Admin" && b != "Admin" {
      assert a == ShownSource(a)[1..];
    }
  }

  /** The message is its lines, and the comment lines if any, joined by newlines. */
  lemma MessageIsJoin(region: string, kind: string, status: string, source: string,
                      comment: Option<string>, timestamp: string)
    ensures FormatNotification(region, kind, status, source, comment, timestamp)
      == Join(TemplateLines(region, kind, status, source, timestamp) + CommentLines(comment), '\n')
  {
    var lines := TemplateLines(region, kind, status, source, timestamp);
    TerminatedIsJoin(lines);
    if Truthy(comment) {
      CommentIsJoin(lines, comment.value);
    }
  }

  /** Appending the comment block to terminated lines joins three more lines. */
  lemma CommentIsJoin(lines: seq<string>, c: string)
    requires Terminated(lines) == Join(lines + [""], '\n')
    ensures WithComment(Terminated(lines), c)
      == Join(lines + ["", CommentOpen, "<blockquote>" + c + CommentClose], '\n')
  {
    var quote := "<blockquote>" + c + CommentClose;
    var tail := [CommentOpen, quote];
    assert Join(tail, '\n') == CommentOpen + "\n" + quote by {
      assert tail[1..] == [quote];
    }
    JoinAppend(lines + [""], tail, '\n');
    assert lines + [""] + tail == lines + ["", CommentOpen, quote];
  }

  /** The lines the comment block adds after the template: an empty one, the
      caption and the quoted comment; without a comment, only the final empty line. */
  function CommentLines(comment: Option<string>): seq<string> {
    if Truthy(comment) then ["", CommentOpen, "<blockquote>" + comment.value + CommentClose] else [""]
  }

  /** No template line holds a newline when no field does. */
  lemma TemplateLinesSingle(region: string, kind: string, status: string, source: string, timestamp: string)
    requires '\n' !in region && '\n' !in kind && '\n' !in status && '\n' !in source && '\n' !in timestamp
    ensures var lines := TemplateLines(region, kind, status, source, timestamp);
      forall k :: 0 <= k < |lines| ==> '\n' !in lines[k]
  {
    var src := ShownSource(source);
    LabelsSingleLine(kind, status);
    assert src == source || src == "@" + source;
    Glued("Время: <code>" + timestamp, "</code>");
    LayoutSingle(status == "AC", region, Readable(TypeLabels, kind), Readable(StatusLabels, status),
                 src, "Время: <code>" + timestamp + "</code>");
  }

  lemma LayoutSingle(allClear: bool, region: string, t: string, s: string, src: string, time: string)
    requires '\n' !in region && '\n' !in t && '\n' !in s && '\n' !in src && '\n' !in time
    ensures var lines := Layout(allClear, region, t, s, src, time);
      forall k :: 0 <= k < |lines| ==> '\n' !in lines[k]
  {
    Glued("Регион: ", region);
    Glued("Источник: ", src);
    if allClear {
      Glued("Тип угрозы: ", t);
      Glued("Статус: ", s);
    } else {
      Glued("Угроза ", t);
      Glued("Уровень: ", s);
    }
  }

  /** Gluing two single-line texts gives a single line. */
  lemma Glued(a: string, b: string)
    ensures '\n' !in a && '\n' !in b ==> '\n' !in a + b
  {
  }

  /** The readable labels hold no newline unless the code itself does. */
  lemma LabelsSingleLine(kind: string, status: string)
    requires '\n' !in kind && '\n' !in status
    ensures '\n' !in Readable(TypeLabels, kind) && '\n' !in Readable(StatusLabels, status)
  {
  }

  /**
   * When the fields hold no newline, the message splits back into exactly the
   * template's lines: both templates carry the region, the readable type and
   * status, the source and the timestamp, each on a line of its own, followed
   * by the comment lines when there is a comment.
   */
  lemma FieldsRecoverable(region: string, kind: string, status: string, source: string,
                          comment: Option<string>, timestamp: string)
    requires '\n' !in region && '\n' !in kind && '\n' !in status && '\n' !in source && '\n' !in timestamp
    requires comment.Some? ==> '\n' !in comment.value
    ensures Split(FormatNotification(region, kind, status, source, comment, timestamp), '\n')
      == TemplateLines(region, kind, status, source, timestamp) + CommentLines(comment)
  {
    var lines := TemplateLines(region, kind, status, source, timestamp);
    var extra := CommentLines(comment);
    MessageIsJoin(region, kind, status, source, comment, timestamp);
    TemplateLinesSingle(region, kind, status, source, timestamp);
    CommentLinesSingle(comment);
    var all := lines + extra;
    assert forall k :: 0 <= k < |all| ==> '\n' !in all[k] by {
      forall k | 0 <= k < |all| ensures '\n' !in all[k] {
        if k < |lines| {
          assert all[k] == lines[k];
        } else {
          assert all[k] == extra[k - |lines|];
        }
      }
    }
    SplitJoin(all, '\n');
  }

  /** The comment lines hold no newline when the comment does not. */
  lemma CommentLinesSingle(comment: Option<string>)
    requires comment.Some? ==> '\n' !in comment.value
    ensures var extra := CommentLines(comment);
      forall k :: 0 <= k < |extra| ==> '\n' !in extra[k]
  {
    if Truthy(comment) {
      assert '\n' !in CommentOpen;
      assert '\n' !in "<blockquote>" + comment.value + CommentClose;
    }
  }
}
