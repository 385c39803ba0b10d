/**
 * The backend's logging helpers (`backend/logger.py`): the namer that turns
 * the rotated file `radarone.log.<date>` into `radarone_<date>.log`, and the
 * filter that strips pictographs from log messages. Paths follow POSIX
 * `os.path`: `/` separates components and there is no alternative separator.
 */
module LogFiles {
  import opened Wrappers

  /** `s.rfind(c)`: the last index of `c`, or -1. */
  function RFind(s: string, c: char): (r: int)
    ensures -1 <= r < |s|
    ensures r == -1 <==> c !in s
    ensures r >= 0 ==> s[r] == c && c !in s[r + 1..]
  {
    if |s| == 0 then -1
    else if s[|s| - 1] == c then |s| - 1
    else
      var r := RFind(s[..|s| - 1], c);
      LastBeforeEnd(s, c, r);
      r
  }

  /** A last occurrence in all but the final character, which is not `c`,
      is the last occurrence in the whole. */
  lemma LastBeforeEnd(s: string, c: char, r: int)
    requires |s| > 0 && s[|s| - 1] != c
    requires -1 <= r < |s| - 1
    requires r == -1 <==> c !in s[..|s| - 1]
    requires r >= 0 ==> s[r] == c && c !in s[..|s| - 1][r + 1..]
    ensures r == -1 <==> c !in s
    ensures r >= 0 ==> c !in s[r + 1..]
  {
    var init := s[..|s| - 1];
    assert s == init + [s[|s| - 1]];
    if r >= 0 {
      assert s[r + 1..] == init[r + 1..] + [s[|s| - 1]];
    }
  }

  /** Some character of `s[lo..hi]` is not a dot. */
  predicate NotAllDots(s: string, lo: int, hi: int)
    requires 0 <= lo <= hi <= |s|
  {
    exists j :: lo <= j < hi && s[j] != '.'
  }

  /** `os.path.splitext(p)`: the extension is the last component's text from
      its last dot on, provided some non-dot character comes before that dot
      in the component (so `.bashrc` and `..` have none). */
  function SplitExt(p: string): (r: (string, string))
    ensures r.0 + r.1 == p
    ensures r.1 == "" || (r.1[0] == '.' && '.' !in r.1[1..] && '/' !in r.1)
  {
    var sep := RFind(p, '/');
    var dot := RFind(p, '.');
    if dot > sep && NotAllDots(p, sep + 1, dot) then
      assert p[..dot] + p[dot..] == p;
      assert p[dot..][1..] == p[dot + 1..];
      (p[..dot], p[dot..])
    else (p, "")
  }

  /** The last path component of `p`. */
  function BaseName(p: string): string {
    p[RFind(p, '/') + 1..]
  }

  /** A path has an extension exactly when its last component holds a dot
      with some non-dot character before it. */
  lemma HasExtension(p: string)
    ensures SplitExt(p).1 != "" <==>
      exists k :: 0 <= k < |BaseName(p)| && BaseName(p)[k] == '.' && NotAllDots(BaseName(p), 0, k)
  {
    var b := BaseName(p);
    if SplitExt(p).1 != "" {
      ExtensionHasDot(p);
    }
    if exists k :: 0 <= k < |b| && b[k] == '.' && NotAllDots(b, 0, k) {
      var k :| 0 <= k < |b| && b[k] == '.' && NotAllDots(b, 0, k);
      DotGivesExtension(p, k);
    }
  }

  /** When `splitext` finds an extension. */
  lemma SplitExtCases(p: string)
    ensures SplitExt(p).1 != "" <==>
      RFind(p, '.') > RFind(p, '/') && NotAllDots(p, RFind(p, '/') + 1, RFind(p, '.'))
  {
  }

  lemma ExtensionHasDot(p: string)
    requires SplitExt(p).1 != ""
    ensures var b := BaseName(p);
      exists k :: 0 <= k < |b| && b[k] == '.' && NotAllDots(b, 0, k)
  {
    var sep := RFind(p, '/');
    var dot := RFind(p, '.');
    var b := BaseName(p);
    SplitExtCases(p);
    var j :| sep + 1 <= j < dot && p[j] != '.';
    var k := dot - sep - 1;
    assert b == p[sep + 1..];
    assert b[k] == p[dot];
    assert b[j - sep - 1] == p[j];
    assert NotAllDots(b, 0, k);
  }

  lemma DotGivesExtension(p: string, k: int)
    requires var b := BaseName(p); 0 <= k < |b| && b[k] == '.' && NotAllDots(b, 0, k)
    ensures SplitExt(p).1 != ""
  {
    var sep := RFind(p, '/');
    var dot := RFind(p, '.');
    var b := BaseName(p);
    var j :| 0 <= j < k && b[j] != '.';
    assert b == p[sep + 1..];
    var at := sep + 1 + k;
    assert 0 <= at < |p| && p[at] == b[k];
    NoneAfterLast(p, '.', at);
    assert p[sep + 1 + j] == b[j];
    assert NotAllDots(p, sep + 1, dot);
    SplitExtCases(p);
  }

  /** `renamer(name)`: the text after the last dot is the date; it moves in
      front of the extension of what remains. A name with no dot cannot be
      unpacked into two parts, which raises. */
  function Renamer(name: string): (r: Result<string>)
    ensures r.Raises? <==> '.' !in name
  {
    var d := RFind(name, '.');
    if d < 0 then Raises("ValueError: not enough values to unpack")
    else
      var base := name[..d];
      var date := name[d + 1..];
      var (root, ext) := SplitExt(base);
      Ok(root + "_" + date + ext)
  }

  /** The rotated log file: `dir/stem.ext.date` becomes `dir/stem_date.ext`
      when the date and the extension hold no dot, the stem and the extension
      no slash, and the stem does not start with a dot. */
  lemma RotatedName(dir: string, stem: string, ext: string, date: string)
    requires '.' !in date && '.' !in ext && '/' !in ext && '/' !in stem
    requires |stem| > 0 && stem[0] != '.'
    ensures Renamer(dir + stem + "." + ext + "." + date) == Ok(dir + stem + "_" + date + "." + ext)
  {
    var base := dir + stem + "." + ext;
    var name := base + ['.'] + date;
    LastAt(base, date, '.');
    SliceParts(base, '.', date);
    assert name[|base| + 1..] == date;
    RenamerAt(name, |base|);
    ExtOf(dir, stem, ext);
    assert dir + stem + "." + ext + "." + date == name;
    var root := dir + stem;
    var dotExt := "." + ext;
    assert root + "_" + date + dotExt == dir + stem + "_" + date + "." + ext;
  }

  /** With its last dot at `d`, a name is renamed around that dot. */
  lemma RenamerAt(name: string, d: int)
    requires 0 <= d < |name| && RFind(name, '.') == d
    ensures Renamer(name) == Ok(SplitExt(name[..d]).0 + "_" + name[d + 1..] + SplitExt(name[..d]).1)
  {
  }

  /** The last index of `c` is the one index holding `c` with none after it. */
  lemma RFindIs(s: string, c: char, r: int)
    requires 0 <= r < |s| && s[r] == c && c !in s[r + 1..]
    ensures RFind(s, c) == r
  {
  }

  /** No `c` comes after the last one. */
  lemma NoneAfterLast(s: string, c: char, i: int)
    requires 0 <= i < |s| && s[i] == c
    ensures i <= RFind(s, c)
  {
  }

  /** In `a + [c] + b` with no `c` in `b`, the last `c` is the one added. */
  lemma LastAt(a: string, b: string, c: char)
    requires c !in b
    ensures RFind(a + [c] + b, c) == |a|
  {
    var s := a + [c] + b;
    assert s[|a|] == c;
    assert s[|a| + 1..] == b;
    RFindIs(s, c, |a|);
  }

  /** In `a + b` with no `c` in `b`, the last `c` is the last `c` of `a`. */
  lemma LastBefore(a: string, b: string, c: char)
    requires c !in b
    ensures RFind(a + b, c) == RFind(a, c)
  {
    var s := a + b;
    var q := RFind(a, c);
    if q >= 0 {
      assert s[q] == c;
      assert s[q + 1..] == a[q + 1..] + b;
      RFindIs(s, c, q);
    } else {
      assert c !in s;
    }
  }

  /** `splitext(dir + stem + "." + ext)` splits off `"." + ext`. */
  lemma ExtOf(dir: string, stem: string, ext: string)
    requires '.' !in ext && '/' !in ext && '/' !in stem
    requires |stem| > 0 && stem[0] != '.'
    ensures SplitExt(dir + stem + "." + ext) == (dir + stem, "." + ext)
  {
    var p := (dir + stem) + ['.'] + ext;
    Positions(dir, stem, ext);
    SliceParts(dir + stem, '.', ext);
    SplitExtAt(p, |dir| + |stem|);
    assert dir + stem + "." + ext == p;
  }

  /** Where the last dot and the last slash of `dir + stem + "." + ext` are. */
  lemma Positions(dir: string, stem: string, ext: string)
    requires '.' !in ext && '/' !in ext && '/' !in stem
    requires |stem| > 0 && stem[0] != '.'
    ensures var p := (dir + stem) + ['.'] + ext;
      && RFind(p, '.') == |dir| + |stem|
      && RFind(p, '/') < |dir|
      && RFind(p, '.') > RFind(p, '/')
      && NotAllDots(p, RFind(p, '/') + 1, |dir| + |stem|)
  {
    var p := (dir + stem) + ['.'] + ext;
    LastAt(dir + stem, ext, '.');
    LastSlash(dir, stem, ext);
    assert p[|dir|] == stem[0];
  }

  /** The last slash of `dir + stem + "." + ext` is in `dir`. */
  lemma LastSlash(dir: string, stem: string, ext: string)
    requires '/' !in ext && '/' !in stem
    ensures RFind((dir + stem) + ['.'] + ext, '/') == RFind(dir, '/')
  {
    var tail := stem + ['.'] + ext;
    assert '/' !in tail by {
      forall i | 0 <= i < |tail| ensures tail[i] != '/' {
        if i < |stem| {
          assert tail[i] == stem[i];
        } else if i > |stem| {
          assert tail[i] == ext[i - |stem| - 1];
        }
      }
    }
    assert (dir + stem) + ['.'] + ext == dir + tail;
    LastBefore(dir, tail, '/');
  }

  /** Where the last dot of the last component has a non-dot before it, the
      extension starts at it. */
  lemma SplitExtAt(p: string, dot: int)
    requires RFind(p, '.') == dot && dot > RFind(p, '/')
    requires NotAllDots(p, RFind(p, '/') + 1, dot)
    ensures SplitExt(p) == (p[..dot], p[dot..])
  {
  }

  /** Cutting `x + [c] + y` just before the `c`. */
  lemma SliceParts(x: string, c: char, y: string)
    ensures (x + [c] + y)[..|x|] == x && (x + [c] + y)[|x|..] == [c] + y
  {
  }

  // ------------------------------------------------------ the emoji filter

  /** The four code-point ranges of the emoji pattern. */
  const EmojiRanges: seq<(int, int)> := [
    (0x1F600, 0x1F64F),
    (0x1F300, 0x1F5FF),
    (0x1F680, 0x1F6FF),
    (0x1F1E0, 0x1F1FF)
  ]

  predicate IsEmoji(c: char) {
    exists i :: 0 <= i < |EmojiRanges| && EmojiRanges[i].0 <= c as int <= EmojiRanges[i].1
  }

  /** `EMOJI_PATTERN.sub("", s)`: removing every run of emoji is removing
      every emoji. */
  function StripEmoji(s: string): (r: string)
    ensures forall c :: c in r <==> c in s && !IsEmoji(c)
    ensures |r| <= |s|
    ensures (forall i :: 0 <= i < |s| ==> !IsEmoji(s[i])) ==> r == s
  {
    if |s| == 0 then ""
    else
      var rest := StripEmoji(s[1..]);
      assert forall c :: c in s <==> c == s[0] || c in s[1..];
      if IsEmoji(s[0]) then rest else [s[0]] + rest
  }

  /** Stripping works character by character: it keeps the order of what it keeps. */
  lemma {:induction false} StripConcat(a: string, b: string)
    ensures StripEmoji(a + b) == StripEmoji(a) + StripEmoji(b)
    decreases |a|
  {
    if |a| > 0 {
      assert (a + b)[1..] == a[1..] + b;
      StripConcat(a[1..], b);
    } else {
      assert a + b == b;
    }
  }

  /** Stripping twice is stripping once. */
  lemma StripIdempotent(s: string)
    ensures StripEmoji(StripEmoji(s)) == StripEmoji(s)
  {
    var r := StripEmoji(s);
    assert forall i :: 0 <= i < |r| ==> r[i] in r;
  }

  /** The smallest and largest code points of each range are emoji; the
      code points just outside the four ranges are not. */
  lemma RangeEdges()
    ensures IsEmoji('\U{1F600}') && IsEmoji('\U{1F64F}') && IsEmoji('\U{1F1E0}') && IsEmoji('\U{1F6FF}')
    ensures !IsEmoji('\U{1F1DF}') && !IsEmoji('\U{1F650}') && !IsEmoji('\U{1F67F}') && !IsEmoji('\U{1F700}')
  {
    assert EmojiRanges[0].0 <= '\U{1F600}' as int <= EmojiRanges[0].1;
    assert EmojiRanges[0].0 <= '\U{1F64F}' as int <= EmojiRanges[0].1;
    assert EmojiRanges[3].0 <= '\U{1F1E0}' as int <= EmojiRanges[3].1;
    assert EmojiRanges[2].0 <= '\U{1F6FF}' as int <= EmojiRanges[2].1;
  }

  /** A log record's message: a text, or any other object. */
  datatype Message = Text(text: string) | Other(shown: string)

  datatype Filtered = Filtered(keep: bool, msg: Message)

  /** `EmojiStripFilter.filter`: every record is kept; a text message loses
      its emoji and any other message is left alone. */
  function Filter(msg: Message): (r: Filtered)
    ensures r.keep
    ensures msg.Other? ==> r.msg == msg
    ensures msg.Text? ==> r.msg.Text? && (forall c :: c in r.msg.text <==> c in msg.text && !IsEmoji(c))
    ensures msg.Text? ==> r.msg == Text(StripEmoji(msg.text))
  {
    match msg
    case Text(s) => Filtered(true, Text(StripEmoji(s)))
    case Other(_) => Filtered(true, msg)
  }

  /** The console and the file handler each filter: the second pass changes nothing. */
  lemma FilterTwice(msg: Message)
    ensures Filter(Filter(msg).msg) == Filter(msg)
  {
    if msg.Text? {
      StripIdempotent(msg.text);
    }
  }
}
