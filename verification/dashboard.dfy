/**
 * The dashboard's status bookkeeping (`frontend/js/utils.js` and
 * `frontend/js/map.js`): the overall-severity rule and colours, the captions
 * and icons, the merge of a `region_update` frame into `REGION_STATUS`, the
 * merge of a `snapshot` frame, alias resolution through `nameMap`, the
 * Ukrainian feature filter and the popup's `UB` rule. A JavaScript object
 * is an association list in insertion order. JavaScript lists integer-like
 * keys ("0", "17") first, in numeric order; the keys here are region
 * names, threat types and map aliases, which never look like that. The
 * map, the DOM and the paint expressions themselves are left out.
 */
module Dashboard {
  import opened Wrappers
  import opened Seqs

  /** A JavaScript object with string keys, in insertion order; the
      integer-like keys JavaScript would list first do not occur here. */
  type Obj<V> = seq<(string, V)>

  /** Object keys are distinct. */
  predicate UniqueKeys<V>(o: Obj<V>) {
    forall i, j :: 0 <= i < j < |o| ==> o[i].0 != o[j].0
  }

  /** `o[k]`, `undefined` being `None`. */
  function Get<V>(o: Obj<V>, k: string): (r: Option<V>)
    ensures r.None? <==> forall i :: 0 <= i < |o| ==> o[i].0 != k
    ensures r.Some? ==> exists i :: 0 <= i < |o| && o[i] == (k, r.value)
  {
    if |o| == 0 then None
    else if o[0].0 == k then Some(o[0].1)
    else Get(o[1..], k)
  }

  /** `o[k] = v`: an existing key keeps its place, a new one goes last. */
  function Put<V>(o: Obj<V>, k: string, v: V): (r: Obj<V>)
    ensures Get(r, k) == Some(v)
    ensures forall k' :: k' != k ==> Get(r, k') == Get(o, k')
    ensures Get(o, k).None? ==> r == o + [(k, v)]
  {
    if |o| == 0 then [(k, v)]
    else if o[0].0 == k then
      GetCons((k, v), o[1..]);
      [(k, v)] + o[1..]
    else
      var rest := Put(o[1..], k, v);
      PutCons(o[0], o[1..], rest, k, v);
      Recons(o);
      [o[0]] + rest
  }

  /** Assigning a key that is not the first one assigns it in the rest. */
  lemma PutCons<V>(x: (string, V), tail: Obj<V>, rest: Obj<V>, k: string, v: V)
    requires x.0 != k
    requires Get(rest, k) == Some(v)
    requires forall k' :: k' != k ==> Get(rest, k') == Get(tail, k')
    requires Get(tail, k).None? ==> rest == tail + [(k, v)]
    ensures Get([x] + rest, k) == Some(v)
    ensures forall k' :: k' != k ==> Get([x] + rest, k') == Get([x] + tail, k')
    ensures Get([x] + tail, k).None? ==> [x] + rest == ([x] + tail) + [(k, v)]
  {
    GetCons(x, rest);
    GetCons(x, tail);
  }

  /** Assigning an existing key keeps every key in its place, so distinct
      keys stay distinct. */
  lemma PutKeepsKeys<V>(o: Obj<V>, k: string, v: V)
    ensures Get(o, k).Some? ==> |Put(o, k, v)| == |o| && forall i :: 0 <= i < |o| ==> Put(o, k, v)[i].0 == o[i].0
    ensures UniqueKeys(o) ==> UniqueKeys(Put(o, k, v))
  {
    var r := Put(o, k, v);
    if Get(o, k).Some? {
      PutKeepsPlaces(o, k, v);
    } else if UniqueKeys(o) {
      forall i, j | 0 <= i < j < |r| ensures r[i].0 != r[j].0 {
        if j == |o| {
          assert o[i].0 != k;
        }
      }
    }
  }

  /** Assigning an existing key changes no key in the object. */
  lemma {:induction false} PutKeepsPlaces<V>(o: Obj<V>, k: string, v: V)
    requires Get(o, k).Some?
    ensures |Put(o, k, v)| == |o| && forall i :: 0 <= i < |o| ==> Put(o, k, v)[i].0 == o[i].0
    decreases |o|
  {
    if o[0].0 != k {
      var rest := Put(o[1..], k, v);
      PutKeepsPlaces(o[1..], k, v);
      assert Put(o, k, v) == [o[0]] + rest;
      forall i | 0 < i < |o| ensures Put(o, k, v)[i].0 == o[i].0 {
        assert Put(o, k, v)[i] == rest[i - 1];
      }
    }
  }

  /** Looking a key up in an object with one more entry in front. */
  lemma GetCons<V>(x: (string, V), rest: Obj<V>)
    ensures forall k :: Get([x] + rest, k) == if x.0 == k then Some(x.1) else Get(rest, k)
  {
    assert ([x] + rest)[1..] == rest;
  }

  /** `Object.values(o).includes(v)`. */
  predicate HasValue(o: Obj<string>, v: string) {
    exists i :: 0 <= i < |o| && o[i].1 == v
  }

  // ------------------------------------------------------- status display

  const Unset := "Не задан"

  /** `getOverallStatus`: the most severe status present. */
  function Overall(statuses: Option<Obj<string>>): (r: string)
    ensures r == "HD" || r == "MD" || r == "AC" || r == Unset
    ensures statuses.None? ==> r == Unset
  {
    match statuses
    case None => Unset
    case Some(o) =>
      if HasValue(o, "HD") then "HD"
      else if HasValue(o, "MD") then "MD"
      else if HasValue(o, "AC") then "AC"
      else Unset
  }

  /** Severity order: HD above MD above AC above anything else. */
  function Rank(status: string): nat {
    if status == "HD" then 3 else if status == "MD" then 2 else if status == "AC" then 1 else 0
  }

  /** The overall status ranks at least as high as every value, and when
      anything ranks above nothing it is the rank of some value. */
  lemma OverallIsHighestRank(o: Obj<string>)
    ensures forall i :: 0 <= i < |o| ==> Rank(o[i].1) <= Rank(Overall(Some(o)))
    ensures Rank(Overall(Some(o))) > 0 ==> exists i :: 0 <= i < |o| && o[i].1 == Overall(Some(o))
  {
    var r := Overall(Some(o));
    forall i | 0 <= i < |o| ensures Rank(o[i].1) <= Rank(r) {
      if o[i].1 == "HD" { assert HasValue(o, "HD"); }
      else if o[i].1 == "MD" { assert HasValue(o, "MD"); }
      else if o[i].1 == "AC" { assert HasValue(o, "AC"); }
    }
  }

  const DefaultBlue := "#2e86d8"

  /** `getColorByStatus`. */
  function Color(status: string): (c: string)
    ensures c == DefaultBlue <==> Rank(status) == 0
  {
    if status == "HD" then "#bf1717"
    else if status == "MD" then "#d1ab15"
    else if status == "AC" then "#48ad23"
    else DefaultBlue
  }

  /** Distinct severities get distinct colours, so the colour gives the severity back. */
  lemma ColorShowsRank(a: string, b: string)
    requires Color(a) == Color(b)
    ensures Rank(a) == Rank(b)
  {
  }

  /** `formatNotification` (the dashboard's caption for a type or status code). */
  function Caption(code: string): (c: string)
    ensures c != Unset <==> code in CaptionedCodes
    ensures c != ""
  {
    if code == "AIR" then "Угроза воздушной атаки"
    else if code == "ROCKET" then "Угроза ракетной атаки"
    else if code == "UAV" then "Угроза атаки БПЛА"
    else if code == "UB" then "Угроза атаки БЭК"
    else if code == "AC" then "Отбой"
    else if code == "MD" then "Средняя"
    else if code == "HD" then "Высокая"
    else Unset
  }

  const CaptionedCodes: seq<string> := ["AIR", "ROCKET", "UAV", "UB", "AC", "MD", "HD"]

  /** The seven codes have seven distinct captions, none of them the fallback. */
  lemma CaptionsDistinct(a: string, b: string)
    requires a in CaptionedCodes
    ensures Caption(a) != Unset
    ensures b in CaptionedCodes && Caption(a) == Caption(b) ==> a == b
  {
    CaptionGivesCode(a);
    if b in CaptionedCodes {
      CaptionGivesCode(b);
    }
  }

  /** The code a caption of the seven stands for. */
  function CodeOf(caption: string): string {
    if caption == "Угроза воздушной атаки" then "AIR"
    else if caption == "Угроза ракетной атаки" then "ROCKET"
    else if caption == "Угроза атаки БПЛА" then "UAV"
    else if caption == "Угроза атаки БЭК" then "UB"
    else if caption == "Отбой" then "AC"
    else if caption == "Средняя" then "MD"
    else "HD"
  }

  lemma CaptionGivesCode(code: string)
    requires code in CaptionedCodes
    ensures Caption(code) != Unset && CodeOf(Caption(code)) == code
  {
    assert |Unset| == 8;
    if code == "AIR" {
      assert CodeOf(Caption("AIR")) == "AIR";
    } else if code == "ROCKET" {
      assert CodeOf(Caption("ROCKET")) == "ROCKET";
    } else if code == "UAV" {
      assert CodeOf(Caption("UAV")) == "UAV";
    } else if code == "UB" {
      assert CodeOf(Caption("UB")) == "UB";
    } else if code == "AC" {
      assert CodeOf(Caption("AC")) == "AC";
    } else if code == "MD" {
      assert CodeOf(Caption("MD")) == "MD";
    } else {
      assert CodeOf(Caption("HD")) == "HD";
    }
  }

  /** Any code outside the seven, the empty "no data yet" value included, reads as unset. */
  lemma UnknownCaption(code: string)
    requires code !in CaptionedCodes
    ensures Caption(code) == Unset
  {
  }

  /** `getIconByType`. */
  function Icon(kind: string): (icon: string)
    ensures icon == "notifications" <==> Rank(kind) == 0
  {
    if kind == "AC" then "done_outline"
    else if kind == "MD" then "warning"
    else if kind == "HD" then "e911_emergency"
    else "notifications"
  }

  // ----------------------------------------------------------- the merges

  /** region -> type -> status, as `REGION_STATUS`. */
  type Board = Obj<Obj<string>>

  /** One `notify(title, message, type)` call. */
  datatype Notice = Notice(title: string, message: string, kind: string)

  /** The toast for one changed cell. */
  function ChangeNotice(region: string, key: string, value: string): Notice {
    Notice("<b>" + region + "</b>", "<b>" + Caption(key) + "</b>", value)
  }

  datatype InnerMerged = InnerMerged(inner: Obj<string>, notices: seq<Notice>)

  /** After the loop, a key holds its update's value if it has one, and its
      old value otherwise. */
  ghost predicate Stores(merged: Obj<string>, inner: Obj<string>, updates: Obj<string>) {
    forall k :: Get(merged, k) == (if Get(updates, k).Some? then Get(updates, k) else Get(inner, k))
  }

  /** Every notice is the toast for an update whose value differs from the
      old one. */
  predicate Announces(notices: seq<Notice>, inner: Obj<string>, region: string, updates: Obj<string>) {
    forall n :: n in notices ==>
      exists i :: 0 <= i < |updates| && n == ChangeNotice(region, updates[i].0, updates[i].1)
        && Get(inner, updates[i].0) != Some(updates[i].1)
  }

  /** Every update whose value differs from the old one has its notice. */
  predicate Complete(notices: seq<Notice>, inner: Obj<string>, region: string, updates: Obj<string>) {
    forall i :: 0 <= i < |updates| && Get(inner, updates[i].0) != Some(updates[i].1) ==>
      ChangeNotice(region, updates[i].0, updates[i].1) in notices
  }

  /** The notices a set of updates calls for, judged against the old object
      alone: one per update whose value differs from the old one, in update
      order. */
  function Changes(inner: Obj<string>, region: string, updates: Obj<string>): (ns: seq<Notice>)
    ensures |ns| <= |updates|
    decreases |updates|
  {
    if |updates| == 0 then []
    else
      (if Get(inner, updates[0].0) != Some(updates[0].1) then [ChangeNotice(region, updates[0].0, updates[0].1)] else [])
      + Changes(inner, region, updates[1..])
  }

  /** Only the old values of the updated keys matter to `Changes`. */
  lemma {:induction false} ChangesFrame(a: Obj<string>, b: Obj<string>, region: string, updates: Obj<string>)
    requires forall i :: 0 <= i < |updates| ==> Get(a, updates[i].0) == Get(b, updates[i].0)
    ensures Changes(a, region, updates) == Changes(b, region, updates)
    decreases |updates|
  {
    if |updates| > 0 {
      assert forall i :: 0 <= i < |updates| - 1 ==> updates[1..][i] == updates[i + 1];
      ChangesFrame(a, b, region, updates[1..]);
    }
  }

  /** The loop of `updateRegionStatus`: each key whose value differs is stored
      and announced exactly once, in update order; equal keys are left alone. */
  function MergeKeys(inner: Obj<string>, region: string, updates: Obj<string>): (r: InnerMerged)
    requires UniqueKeys(updates)
    ensures Stores(r.inner, inner, updates)
    ensures r.notices == Changes(inner, region, updates)
    ensures |r.notices| <= |updates|
    ensures Announces(r.notices, inner, region, updates)
    ensures Complete(r.notices, inner, region, updates)
    decreases |updates|
  {
    if |updates| == 0 then InnerMerged(inner, [])
    else
      var k := updates[0].0;
      var v := updates[0].1;
      var changed := Get(inner, k) != Some(v);
      var inner1 := if changed then Put(inner, k, v) else inner;
      var here := if changed then [ChangeNotice(region, k, v)] else [];
      var rest := MergeKeys(inner1, region, updates[1..]);
      MergeGetStep(inner, inner1, updates, rest.inner);
      NoticesStep(inner, inner1, region, updates, here, rest.notices);
      CompleteStep(inner, inner1, region, updates, here, rest.notices);
      assert rest.notices == Changes(inner, region, updates[1..]) by {
        TailOf(updates);
        ChangesFrame(inner1, inner, region, updates[1..]);
      }
      InnerMerged(rest.inner, here + rest.notices)
  }

  /** What the loop's remainder stores is what the whole loop stores, once
      the first key holds its new value. */
  lemma MergeGetStep(inner: Obj<string>, inner1: Obj<string>, updates: Obj<string>, merged: Obj<string>)
    requires UniqueKeys(updates) && |updates| > 0
    requires Get(inner1, updates[0].0) == Some(updates[0].1)
    requires forall k :: k != updates[0].0 ==> Get(inner1, k) == Get(inner, k)
    requires Stores(merged, inner1, updates[1..])
    ensures Stores(merged, inner, updates)
  {
    TailOf(updates);
    forall k ensures Get(merged, k) == (if Get(updates, k).Some? then Get(updates, k) else Get(inner, k)) {
      if k == updates[0].0 {
        assert Get(updates, k) == Some(updates[0].1);
      }
    }
  }

  /** The notices of the whole loop: the first key's, if its value changed,
      then the remainder's, whose keys the first assignment did not touch. */
  lemma NoticesStep(inner: Obj<string>, inner1: Obj<string>, region: string, updates: Obj<string>,
                    here: seq<Notice>, later: seq<Notice>)
    requires UniqueKeys(updates) && |updates| > 0
    requires forall k :: k != updates[0].0 ==> Get(inner1, k) == Get(inner, k)
    requires here == [] || (here == [ChangeNotice(region, updates[0].0, updates[0].1)]
                            && Get(inner, updates[0].0) != Some(updates[0].1))
    requires Announces(later, inner1, region, updates[1..])
    ensures Announces(here + later, inner, region, updates)
  {
    TailOf(updates);
    forall n | n in here + later
      ensures exists i :: (0 <= i < |updates| && n == ChangeNotice(region, updates[i].0, updates[i].1)
        && Get(inner, updates[i].0) != Some(updates[i].1))
    {
      if n in later {
        var i :| 0 <= i < |updates[1..]| && n == ChangeNotice(region, updates[1..][i].0, updates[1..][i].1)
          && Get(inner1, updates[1..][i].0) != Some(updates[1..][i].1);
        assert updates[1..][i] == updates[i + 1];
        assert updates[i + 1].0 != updates[0].0;
      } else {
        assert n in here;
      }
    }
  }

  /** The loop misses no changed key: the first one's notice is here, and
      every later one's, its old value untouched by the first assignment,
      comes from the remainder. */
  lemma CompleteStep(inner: Obj<string>, inner1: Obj<string>, region: string, updates: Obj<string>,
                     here: seq<Notice>, later: seq<Notice>)
    requires UniqueKeys(updates) && |updates| > 0
    requires forall k :: k != updates[0].0 ==> Get(inner1, k) == Get(inner, k)
    requires Get(inner, updates[0].0) != Some(updates[0].1) ==>
      here == [ChangeNotice(region, updates[0].0, updates[0].1)]
    requires Complete(later, inner1, region, updates[1..])
    ensures Complete(here + later, inner, region, updates)
  {
    forall i | 0 <= i < |updates| && Get(inner, updates[i].0) != Some(updates[i].1)
      ensures ChangeNotice(region, updates[i].0, updates[i].1) in here + later
    {
      if i > 0 {
        assert updates[1..][i - 1] == updates[i];
        assert updates[i].0 != updates[0].0;
      }
    }
  }

  /** In an object with distinct keys, each entry is what its key looks up. */
  lemma {:induction false} GetOwnKey<V>(o: Obj<V>, i: nat)
    requires UniqueKeys(o) && i < |o|
    ensures Get(o, o[i].0) == Some(o[i].1)
    decreases i
  {
    if i > 0 {
      TailOf(o);
      GetOwnKey(o[1..], i - 1);
    }
  }

  /** The first key of an object does not occur in the rest of it. */
  lemma TailOf<V>(o: Obj<V>)
    requires UniqueKeys(o) && |o| > 0
    ensures forall i :: 0 <= i < |o| - 1 ==> o[1..][i] == o[i + 1]
    ensures UniqueKeys(o[1..])
    ensures Get(o[1..], o[0].0).None?
    ensures forall k :: k != o[0].0 ==> Get(o, k) == Get(o[1..], k)
  {
  }

  /** Merging the same statuses a second time stores and announces nothing. */
  lemma {:induction false} MergeTwiceIsQuiet(inner: Obj<string>, region: string, updates: Obj<string>)
    requires UniqueKeys(updates)
    ensures var once := MergeKeys(inner, region, updates);
      MergeKeys(once.inner, region, updates) == InnerMerged(once.inner, [])
  {
    var once := MergeKeys(inner, region, updates);
    assert forall i :: 0 <= i < |updates| ==> Get(once.inner, updates[i].0) == Some(updates[i].1) by {
      forall i | 0 <= i < |updates| ensures Get(once.inner, updates[i].0) == Some(updates[i].1) {
        GetOwnKey(updates, i);
      }
    }
    MergeKeysNoChange(once.inner, region, updates);
  }

  /** Updates the object already agrees with change nothing. */
  lemma {:induction false} MergeKeysNoChange(inner: Obj<string>, region: string, updates: Obj<string>)
    requires UniqueKeys(updates)
    requires forall i :: 0 <= i < |updates| ==> Get(inner, updates[i].0) == Some(updates[i].1)
    ensures MergeKeys(inner, region, updates) == InnerMerged(inner, [])
    decreases |updates|
  {
    if |updates| > 0 {
      TailOf(updates);
      MergeKeysNoChange(inner, region, updates[1..]);
    }
  }

  datatype Merged = Merged(board: Board, notices: seq<Notice>)

  /**
   * The status-merge half of `updateRegionStatus` for a `region_update`
   * frame. With no region (or an empty name) or no statuses nothing happens.
   * A region the board does not hold yet makes `REGION_STATUS[region][key]`
   * throw on the first key; the frame handler catches it, and the frame is lost.
   */
  function UpdateRegion(board: Board, region: Option<string>, updates: Option<Obj<string>>): (r: Result<Merged>)
    requires updates.Some? ==> UniqueKeys(updates.value)
    ensures region.None? || region == Some("") || updates.None? ==> r == Ok(Merged(board, []))
    ensures r.Raises? <==> region.Some? && region.value != "" && updates.Some? && |updates.value| > 0
                           && Get(board, region.value).None?
    ensures r.Ok? && region.Some? && region.value != "" && updates.Some? && Get(board, region.value).Some? ==>
      && (forall g :: g != region.value ==> Get(r.value.board, g) == Get(board, g))
      && (forall k :: Get(updates.value, k).Some? ==> Cell(r.value.board, region.value, k) == Get(updates.value, k))
      && (forall k :: Get(updates.value, k).None? ==> Cell(r.value.board, region.value, k) == Cell(board, region.value, k))
      && r.value.notices == Changes(Get(board, region.value).value, region.value, updates.value)
  {
    if region.None? || region.value == "" || updates.None? then Ok(Merged(board, []))
    else if |updates.value| == 0 then Ok(Merged(board, []))
    else
      match Get(board, region.value)
      case None => Raises("TypeError: Cannot read properties of undefined")
      case Some(inner) =>
        var m := MergeKeys(inner, region.value, updates.value);
        Ok(Merged(Put(board, region.value, m.inner), m.notices))
  }

  /** `REGION_STATUS[region][key]`. */
  function Cell(board: Board, region: string, key: string): Option<string> {
    match Get(board, region)
    case None => None
    case Some(inner) => Get(inner, key)
  }

  /** The four types a region first seen in a snapshot starts with, blank. */
  const Blank: Obj<string> := [("AIR", ""), ("ROCKET", ""), ("UAV", ""), ("UB", "")]

  /** One assignment of the snapshot loop: create the region blank if it is
      missing, then set the cell. */
  function SetCell(board: Board, region: string, key: string, value: string): (r: Board)
    ensures Cell(r, region, key) == Some(value)
    ensures forall g :: g != region ==> Get(r, g) == Get(board, g)
    ensures forall k :: k != key ==>
      Cell(r, region, k) == if Get(board, region).None? then Get(Blank, k) else Cell(board, region, k)
  {
    var inner := Get(board, region).GetOr(Blank);
    Put(board, region, Put(inner, key, value))
  }

  /** The snapshot loop for one region: every key it lists is written. */
  function SnapshotRegion(board: Board, region: string, statuses: Obj<string>): (r: Board)
    requires UniqueKeys(statuses)
    ensures forall g :: g != region ==> Get(r, g) == Get(board, g)
    ensures forall k :: Get(statuses, k).Some? ==> Cell(r, region, k) == Get(statuses, k)
    ensures forall k :: Get(statuses, k).None? ==>
      Cell(r, region, k) == if Get(board, region).None? && |statuses| > 0 then Get(Blank, k) else Cell(board, region, k)
    ensures Get(board, region).Some? || |statuses| > 0 ==> Get(r, region).Some?
    decreases |statuses|
  {
    if |statuses| == 0 then board
    else
      var (k, v) := statuses[0];
      var b1 := SetCell(board, region, k, v);
      TailOf(statuses);
      SnapshotRegion(b1, region, statuses[1..])
  }

  /** What a cell holds after a snapshot, read off the frame and the old
      board: a listed cell takes the frame's value; an unlisted type of a
      region the board lacked and the frame lists with some type starts
      blank; every other cell keeps what it held. */
  function SnapshotCell(board: Board, snap: Board, g: string, k: string): Option<string> {
    match Get(snap, g)
    case None => Cell(board, g, k)
    case Some(statuses) =>
      if Get(statuses, k).Some? then Get(statuses, k)
      else if Get(board, g).None? && |statuses| > 0 then Get(Blank, k)
      else Cell(board, g, k)
  }

  /**
   * The `snapshot` handler of `ws.onmessage`: every (region, type, status)
   * of the frame is written into the board; nothing is removed.
   */
  function MergeSnapshot(board: Board, snap: Board): (r: Board)
    requires UniqueKeys(snap) && forall i :: 0 <= i < |snap| ==> UniqueKeys(snap[i].1)
    ensures forall g :: Get(snap, g).None? ==> Get(r, g) == Get(board, g)
    ensures forall g :: Get(board, g).Some? ==> Get(r, g).Some?
    ensures forall g, k :: Cell(board, g, k).Some? ==> Cell(r, g, k).Some?
    ensures forall g, k :: Cell(r, g, k) == SnapshotCell(board, snap, g, k)
    decreases |snap|
  {
    if |snap| == 0 then board
    else
      var (g, statuses) := snap[0];
      var b1 := SnapshotRegion(board, g, statuses);
      assert forall i :: 0 <= i < |snap| - 1 ==> snap[1..][i] == snap[i + 1];
      TailOf(snap);
      var r := MergeSnapshot(b1, snap[1..]);
      forall g', k ensures Cell(r, g', k) == SnapshotCell(board, snap, g', k) {
        SnapshotCellStep(board, snap, g', k);
      }
      r
  }

  /** Handling the first region of a frame, then the rest, puts each cell
      where the whole frame does. */
  lemma SnapshotCellStep(board: Board, snap: Board, g: string, k: string)
    requires UniqueKeys(snap) && |snap| > 0 && UniqueKeys(snap[0].1)
    ensures SnapshotCell(SnapshotRegion(board, snap[0].0, snap[0].1), snap[1..], g, k)
            == SnapshotCell(board, snap, g, k)
  {
    TailOf(snap);
    var b1 := SnapshotRegion(board, snap[0].0, snap[0].1);
    if g != snap[0].0 {
      assert Get(b1, g) == Get(board, g);
    }
  }

  /** The snapshot loop is its first region's loop followed by the rest's. */
  lemma MergeSnapshotStep(board: Board, snap: Board)
    requires UniqueKeys(snap) && forall i :: 0 <= i < |snap| ==> UniqueKeys(snap[i].1)
    requires |snap| > 0
    ensures UniqueKeys(snap[0].1) && UniqueKeys(snap[1..])
    ensures forall i :: 0 <= i < |snap[1..]| ==> UniqueKeys(snap[1..][i].1)
    ensures MergeSnapshot(board, snap) == MergeSnapshot(SnapshotRegion(board, snap[0].0, snap[0].1), snap[1..])
    ensures Get(snap, snap[0].0) == Some(snap[0].1) && Get(snap[1..], snap[0].0).None?
    ensures forall g :: g != snap[0].0 ==> Get(snap, g) == Get(snap[1..], g)
  {
    assert forall i :: 0 <= i < |snap| - 1 ==> snap[1..][i] == snap[i + 1];
    TailOf(snap);
  }

  /** Every cell a snapshot lists holds the snapshot's value afterwards. */
  lemma {:induction false} SnapshotCellsWritten(board: Board, snap: Board, g: string, k: string, v: string)
    requires UniqueKeys(snap) && forall i :: 0 <= i < |snap| ==> UniqueKeys(snap[i].1)
    requires Get(snap, g).Some? && Get(Get(snap, g).value, k) == Some(v)
    ensures Cell(MergeSnapshot(board, snap), g, k) == Some(v)
    decreases |snap|
  {
    MergeSnapshotStep(board, snap);
    var b1 := SnapshotRegion(board, snap[0].0, snap[0].1);
    if snap[0].0 == g {
      assert Cell(b1, g, k) == Some(v);
      assert Get(MergeSnapshot(b1, snap[1..]), g) == Get(b1, g);
    } else {
      SnapshotCellsWritten(b1, snap[1..], g, k, v);
    }
  }

  /** A region first seen in a snapshot, with at least one type, holds the
      snapshot's types with their values and each of the four types the
      snapshot leaves out as the blank status "". */
  lemma NewRegionStartsBlank(board: Board, snap: Board, g: string, k: string)
    requires UniqueKeys(snap) && forall i :: 0 <= i < |snap| ==> UniqueKeys(snap[i].1)
    requires Get(board, g).None? && Get(snap, g).Some? && |Get(snap, g).value| > 0
    ensures var statuses := Get(snap, g).value;
      Cell(MergeSnapshot(board, snap), g, k) ==
        if Get(statuses, k).Some? then Get(statuses, k)
        else if k in ["AIR", "ROCKET", "UAV", "UB"] then Some("")
        else None
  {
    BlankValues(k);
  }

  /** The blank entry holds the four types, each with the blank status. */
  lemma BlankValues(k: string)
    ensures Get(Blank, k) == if k in ["AIR", "ROCKET", "UAV", "UB"] then Some("") else None
  {
    assert Blank[0] == ("AIR", "") && Blank[1] == ("ROCKET", "") && Blank[2] == ("UAV", "") && Blank[3] == ("UB", "");
  }

  // --------------------------------------------------------- map features

  /** `nameMap[nm] || nm`: an alias maps to its official name, anything else
      (or an alias to the empty string, which is falsy) stays as it is. */
  function Resolve(nameMap: map<string, string>, nm: string): (r: string)
    ensures nm in nameMap && nameMap[nm] != "" ==> r == nameMap[nm]
    ensures nm !in nameMap ==> r == nm
  {
    if nm in nameMap && nameMap[nm] != "" then nameMap[nm] else nm
  }

  /** `geoUAallowedRegions`. */
  const AllowedUkrainian: set<string> := {
    "Республика Крым", "Севастополь", "Донецкая Народная Республика",
    "Луганская Народная Республика", "Запорожская область", "Херсонская область"
  }

  /** The filter on the Ukrainian features: a feature is kept, in order,
      exactly when its resolved name is one of the allowed regions. */
  function KeepUkrainian(features: seq<string>, nameMap: map<string, string>): (r: seq<string>)
    ensures forall f :: f in r ==> f in features && Resolve(nameMap, f) in AllowedUkrainian
    ensures forall f :: f in features && Resolve(nameMap, f) in AllowedUkrainian ==> f in r
    ensures |r| <= |features|
  {
    if |features| == 0 then []
    else
      var rest := KeepUkrainian(features[1..], nameMap);
      assert forall f :: f in features <==> f == features[0] || f in features[1..];
      (if Resolve(nameMap, features[0]) in AllowedUkrainian then [features[0]] else []) + rest
  }

  /** The features drawn: every Russian one, then the kept Ukrainian ones; a
      collection that failed to load contributes nothing. */
  function Combined(ru: Option<seq<string>>, ua: Option<seq<string>>, nameMap: map<string, string>): (r: seq<string>)
    ensures ru.Some? ==> ru.value <= r
    ensures forall f :: f in r && (ru.None? || f !in ru.value) ==>
      ua.Some? && f in ua.value && Resolve(nameMap, f) in AllowedUkrainian
    ensures ua.Some? ==> forall f :: f in ua.value && Resolve(nameMap, f) in AllowedUkrainian ==> f in r
  {
    ru.GetOr([]) + (match ua case None => [] case Some(fs) => KeepUkrainian(fs, nameMap))
  }

  /** The fill colour of a feature: the colour of its region's overall status. */
  function FillColor(board: Board, nameMap: map<string, string>, nm: string): (c: string)
    ensures Get(board, Resolve(nameMap, nm)).None? ==> c == DefaultBlue
  {
    Color(Overall(Get(board, Resolve(nameMap, nm))))
  }

  /** A region with any high-severity type is painted red. */
  lemma HighSeverityPaintsRed(board: Board, nameMap: map<string, string>, nm: string, i: nat)
    requires Get(board, Resolve(nameMap, nm)).Some?
    requires i < |Get(board, Resolve(nameMap, nm)).value| && Get(board, Resolve(nameMap, nm)).value[i].1 == "HD"
    ensures FillColor(board, nameMap, nm) == "#bf1717"
  {
    assert HasValue(Get(board, Resolve(nameMap, nm)).value, "HD");
  }

  /** `allowedUB`: the regions where the unmanned-vessel row is shown. */
  const AllowedUB: seq<string> := [
    "Донецкая Народная Республика", "Запорожская область", "Херсонская область",
    "Республика Крым", "Севастополь", "Краснодарский край", "Ростовская область"
  ]

  /** One popup row: the type's caption, the status colour and caption. */
  datatype Row = Row(kind: string, caption: string, color: string, status: string)

  /** The rows of the popup for a region: one per type it holds, in order,
      without the `UB` row outside the coastal regions; a region the board
      does not hold has none. */
  function PopupRows(board: Board, key: string): (rows: seq<Row>)
    ensures Get(board, key).None? ==> rows == []
    ensures forall r :: r in rows ==> r.kind != "UB" || key in AllowedUB
    ensures Get(board, key).Some? ==> forall k :: (
      (exists r :: r in rows && r.kind == k) <==>
        (Get(Get(board, key).value, k).Some? && (k != "UB" || key in AllowedUB)))
  {
    match Get(board, key)
    case None => []
    case Some(inner) => RowsOf(inner, key)
  }

  function RowsOf(inner: Obj<string>, key: string): (rows: seq<Row>)
    ensures forall r :: r in rows ==> r.kind != "UB" || key in AllowedUB
    ensures forall r :: r in rows ==> Get(inner, r.kind).Some?
    ensures forall k :: Get(inner, k).Some? && (k != "UB" || key in AllowedUB) ==>
      exists r :: r in rows && r.kind == k
  {
    if |inner| == 0 then []
    else
      var (k, v) := inner[0];
      var here := if key !in AllowedUB && k == "UB" then [] else [Row(k, Caption(k), Color(v), Caption(v))];
      var rest := RowsOf(inner[1..], key);
      here + rest
  }
}
