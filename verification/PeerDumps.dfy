/** Reading one `GetDevice` dump: frames of attributes, any number of frames a peer, folded into one
    record a peer. */
module PeerDumps {
  import opened RouteRuns
  import opened Wrappers

  datatype PeerAttr =
    | PublicKey(key: Key)
    | LastHandshake(seconds: int)
    | RxBytes(count: nat)
    | TxBytes(count: nat)
    | OtherPeerAttr

  type Frame = seq<PeerAttr>

  datatype DeviceAttr = Peers(frames: seq<Frame>) | OtherDeviceAttr

  /** The first public key of a frame; a frame without one belongs to nobody. */
  function KeyOf(frame: Frame): Option<Key> {
    if frame == [] then None
    else if frame[0].PublicKey? then Some(frame[0].key)
    else KeyOf(frame[1..])
  }

  function Frames(attrs: seq<DeviceAttr>): seq<Frame> {
    if attrs == [] then []
    else
      var last := match attrs[|attrs| - 1] case Peers(frames) => frames case OtherDeviceAttr => [];
      Frames(attrs[..|attrs| - 1]) + last
  }

  // ---- What a dump reports ----

  function PartFor(frame: Frame, key: Key): seq<PeerAttr> {
    if KeyOf(frame) == Some(key) then frame else []
  }

  /** Everything reported for `key`, in order. */
  function ReportsOf(frames: seq<Frame>, key: Key): seq<PeerAttr> {
    if frames == [] then []
    else ReportsOf(frames[..|frames| - 1], key) + PartFor(frames[|frames| - 1], key)
  }

  ghost predicate Mentions(frames: seq<Frame>, key: Key) {
    exists frame :: frame in frames && KeyOf(frame) == Some(key)
  }

  /** One report replaces the field it is about; a handshake before the epoch reads as never. */
  function Report(stats: PeerStats, attr: PeerAttr): PeerStats {
    match attr
    case LastHandshake(seconds) => stats.(lastHandshake := if seconds < 0 then 0 else seconds)
    case RxBytes(count) => stats.(rxBytes := count)
    case TxBytes(count) => stats.(txBytes := count)
    case _ => stats
  }

  /** Each field is the last value reported for it, zero when there is none. */
  function LastOf(reports: seq<PeerAttr>): PeerStats {
    if reports == [] then PeerStats(0, 0, 0)
    else Report(LastOf(reports[..|reports| - 1]), reports[|reports| - 1])
  }

  /** Index `i` holds the last of the reports that satisfy `about`. */
  ghost predicate IsLast(reports: seq<PeerAttr>, i: nat, about: PeerAttr -> bool) {
    i < |reports| && about(reports[i]) && forall k :: i < k < |reports| ==> !about(reports[k])
  }

  lemma {:induction false} LastReportWins(reports: seq<PeerAttr>, i: nat)
    ensures IsLast(reports, i, IsRx) ==> LastOf(reports).rxBytes == reports[i].count
    ensures IsLast(reports, i, IsTx) ==> LastOf(reports).txBytes == reports[i].count
    ensures IsLast(reports, i, IsHandshake) ==>
      LastOf(reports).lastHandshake == if reports[i].seconds < 0 then 0 else reports[i].seconds
  {
    if reports == [] || i >= |reports| - 1 {
    } else {
      var front := reports[..|reports| - 1];
      LastReportWins(front, i);
      assert forall k :: 0 <= k < |front| ==> front[k] == reports[k];
    }
  }

  ghost predicate ReadsAs(frames: seq<Frame>, out: map<Key, PeerStats>) {
    forall key :: (key in out <==> Mentions(frames, key)) && (key in out ==> out[key] == LastOf(ReportsOf(frames, key)))
  }

  method FindKey(frame: Frame) returns (key: Option<Key>)
    ensures key == KeyOf(frame)
  {
    for i := 0 to |frame|
      invariant KeyOf(frame) == KeyOf(frame[i..])
    {
      if frame[i].PublicKey? {
        return Some(frame[i].key);
      }
      assert frame[i..][1..] == frame[i + 1..];
    }
    return None;
  }

  lemma LastOfPush(reports: seq<PeerAttr>, attr: PeerAttr)
    ensures LastOf(reports + [attr]) == Report(LastOf(reports), attr)
  {
    assert (reports + [attr])[..|reports|] == reports;
  }

  lemma FramePush(frames: seq<Frame>, frame: Frame, key: Key)
    ensures ReportsOf(frames + [frame], key) == ReportsOf(frames, key) + PartFor(frame, key)
    ensures Mentions(frames + [frame], key) <==> Mentions(frames, key) || KeyOf(frame) == Some(key)
  {
    assert (frames + [frame])[..|frames|] == frames;
    assert forall f :: f in frames + [frame] <==> f in frames || f == frame;
  }

  method FoldFrame(ghost earlier: seq<PeerAttr>, frame: Frame, was: PeerStats) returns (stats: PeerStats)
    requires was == LastOf(earlier)
    ensures stats == LastOf(earlier + frame)
  {
    hide LastOf;
    stats := was;
    assert earlier + frame[..0] == earlier;
    for i := 0 to |frame|
      invariant stats == LastOf(earlier + frame[..i])
    {
      LastOfPush(earlier + frame[..i], frame[i]);
      assert earlier + frame[..i + 1] == earlier + frame[..i] + [frame[i]];
      match frame[i]
      case LastHandshake(seconds) => stats := stats.(lastHandshake := if seconds < 0 then 0 else seconds);
      case RxBytes(count) => stats := stats.(rxBytes := count);
      case TxBytes(count) => stats := stats.(txBytes := count);
      case _ =>
    }
    assert frame[..|frame|] == frame;
  }

  /** One frame folded into its peer's record. */
  method MergeFrame(ghost frames: seq<Frame>, frame: Frame, out: map<Key, PeerStats>)
      returns (out': map<Key, PeerStats>)
    requires ReadsAs(frames, out)
    ensures ReadsAs(frames + [frame], out')
  {
    hide LastOf, ReportsOf, KeyOf, Mentions;
    forall key
      ensures ReportsOf(frames + [frame], key) == ReportsOf(frames, key) + PartFor(frame, key)
      ensures Mentions(frames + [frame], key) <==> Mentions(frames, key) || KeyOf(frame) == Some(key)
    {
      FramePush(frames, frame, key);
    }
    var publicKey := FindKey(frame);
    if publicKey.None? {
      assert forall key :: ReportsOf(frames, key) + [] == ReportsOf(frames, key);
      return out;
    }
    var key := publicKey.value;
    NothingReported(frames, key);
    var stats := if key in out then out[key] else PeerStats(0, 0, 0);
    LastOfNothing();
    stats := FoldFrame(ReportsOf(frames, key), frame, stats);
    out' := out[key := stats];
    assert forall k :: ReportsOf(frames, k) + [] == ReportsOf(frames, k);
  }

  lemma LastOfNothing()
    ensures LastOf([]) == PeerStats(0, 0, 0)
  {}

  lemma {:induction false} NothingReported(frames: seq<Frame>, key: Key)
    ensures !Mentions(frames, key) ==> ReportsOf(frames, key) == []
  {
    if frames == [] {
    } else {
      var front, last := frames[..|frames| - 1], frames[|frames| - 1];
      assert frames == front + [last];
      FramePush(front, last, key);
      NothingReported(front, key);
    }
  }

  method MergeFrames(ghost before: seq<Frame>, frames: seq<Frame>, was: map<Key, PeerStats>)
      returns (out: map<Key, PeerStats>)
    requires ReadsAs(before, was)
    ensures ReadsAs(before + frames, out)
  {
    hide ReadsAs;
    out := was;
    assert before + frames[..0] == before;
    for j := 0 to |frames|
      invariant ReadsAs(before + frames[..j], out)
    {
      assert before + frames[..j + 1] == (before + frames[..j]) + [frames[j]];
      out := MergeFrame(before + frames[..j], frames[j], out);
    }
    assert frames[..|frames|] == frames;
  }

  method MergePeerAttrs(attrs: seq<DeviceAttr>) returns (out: map<Key, PeerStats>)
    ensures ReadsAs(Frames(attrs), out)
  {
    out := map[];
    ReadsNothing();
    hide ReadsAs;
    for i := 0 to |attrs|
      invariant ReadsAs(Frames(attrs[..i]), out)
    {
      assert attrs[..i + 1][..i] == attrs[..i] && attrs[..i + 1][i] == attrs[i];
      if attrs[i].OtherDeviceAttr? {
        assert Frames(attrs[..i]) + [] == Frames(attrs[..i]);
        continue;
      }
      out := MergeFrames(Frames(attrs[..i]), attrs[i].frames, out);
    }
    assert attrs[..|attrs|] == attrs;
  }

  lemma ReadsNothing()
    ensures ReadsAs([], map[])
  {}

  // ---- What it does not depend on ----

  /** Only what is reported for each peer counts, in its own order. */
  lemma OnlyReportsCount(frames: seq<Frame>, out: map<Key, PeerStats>, frames': seq<Frame>, out': map<Key, PeerStats>)
    requires ReadsAs(frames, out) && ReadsAs(frames', out')
    requires forall key :: Mentions(frames, key) <==> Mentions(frames', key)
    requires forall key :: LastOf(ReportsOf(frames, key)) == LastOf(ReportsOf(frames', key))
    ensures out == out'
  {
    assert out.Keys == out'.Keys by {
      forall key ensures key in out <==> key in out' {
        assert Mentions(frames, key) <==> Mentions(frames', key);
      }
    }
  }

  lemma {:induction false} ReportsConcat(frames: seq<Frame>, more: seq<Frame>, key: Key)
    ensures ReportsOf(frames + more, key) == ReportsOf(frames, key) + ReportsOf(more, key)
    ensures Mentions(frames + more, key) <==> Mentions(frames, key) || Mentions(more, key)
  {
    if more == [] {
      assert frames + more == frames;
    } else {
      var front, last := more[..|more| - 1], more[|more| - 1];
      assert frames + more == (frames + front) + [last] && more == front + [last];
      hide *;
      ReportsConcat(frames, front, key);
      FramePush(frames + front, last, key);
      FramePush(front, last, key);
      SeqsRegrouped(ReportsOf(frames, key), ReportsOf(front, key), PartFor(last, key));
    }
  }

  lemma SeqsRegrouped(a: seq<PeerAttr>, b: seq<PeerAttr>, c: seq<PeerAttr>)
    ensures (a + b) + c == a + (b + c)
  {}

  lemma ReportsAround(before: seq<Frame>, f: Frame, g: Frame, after: seq<Frame>, key: Key)
    ensures ReportsOf(before + [f, g] + after, key)
      == ReportsOf(before, key) + (PartFor(f, key) + PartFor(g, key)) + ReportsOf(after, key)
    ensures Mentions(before + [f, g] + after, key)
      <==> Mentions(before, key) || KeyOf(f) == Some(key) || KeyOf(g) == Some(key) || Mentions(after, key)
  {
    hide ReportsOf, KeyOf, Mentions;
    ReportsConcat(before + [f, g], after, key);
    assert before + [f, g] == (before + [f]) + [g];
    FramePush(before, f, key);
    FramePush(before + [f], g, key);
  }

  /** Neighbouring frames of different peers may change places. */
  lemma FramesOfOthersCommute(frames: seq<Frame>, i: nat, swapped: seq<Frame>, out: map<Key, PeerStats>,
                              out': map<Key, PeerStats>)
    requires i + 1 < |frames| && KeyOf(frames[i]) != KeyOf(frames[i + 1])
    requires swapped == frames[i := frames[i + 1]][i + 1 := frames[i]]
    requires ReadsAs(frames, out) && ReadsAs(swapped, out')
    ensures out == out'
  {
    hide ReportsOf, KeyOf, Mentions, ReadsAs, LastOf;
    var before, f, g, after := frames[..i], frames[i], frames[i + 1], frames[i + 2..];
    assert frames == before + [f, g] + after && swapped == before + [g, f] + after;
    forall key
      ensures LastOf(ReportsOf(frames, key)) == LastOf(ReportsOf(swapped, key))
      ensures Mentions(frames, key) <==> Mentions(swapped, key)
    {
      ReportsAround(before, f, g, after, key);
      ReportsAround(before, g, f, after, key);
      PartsCommute(f, g, key);
    }
    OnlyReportsCount(frames, out, swapped, out');
  }

  lemma PartsCommute(f: Frame, g: Frame, key: Key)
    ensures KeyOf(f) != KeyOf(g) ==> PartFor(f, key) + PartFor(g, key) == PartFor(g, key) + PartFor(f, key)
  {}

  lemma {:induction false} KeyChangesNothing(reports: seq<PeerAttr>, key: Key, more: seq<PeerAttr>)
    ensures LastOf(reports + [PublicKey(key)] + more) == LastOf(reports + more)
  {
    hide LastOf;
    if more == [] {
      LastOfPush(reports, PublicKey(key));
      assert reports + [PublicKey(key)] + more == reports + [PublicKey(key)] && reports + more == reports;
    } else {
      var front, last := more[..|more| - 1], more[|more| - 1];
      KeyChangesNothing(reports, key, front);
      LastOfPush(reports + [PublicKey(key)] + front, last);
      LastOfPush(reports + front, last);
      assert reports + [PublicKey(key)] + more == (reports + [PublicKey(key)] + front) + [last];
      assert reports + more == (reports + front) + [last];
    }
  }

  lemma CutReports(b: seq<PeerAttr>, key: Key, head: seq<PeerAttr>, tail: seq<PeerAttr>, a: seq<PeerAttr>)
    ensures LastOf(b + (([PublicKey(key)] + head) + ([PublicKey(key)] + tail)) + a)
      == LastOf(b + ([PublicKey(key)] + head + tail) + a)
  {
    hide LastOf;
    var first := [PublicKey(key)] + head;
    KeyChangesNothing(b + first, key, tail + a);
    assert b + (first + ([PublicKey(key)] + tail)) + a == (b + first) + [PublicKey(key)] + (tail + a);
    assert b + (first + tail) + a == (b + first) + (tail + a);
  }

  lemma CutFrameAround(before: seq<Frame>, key: Key, head: seq<PeerAttr>, tail: seq<PeerAttr>, after: seq<Frame>,
                       k: Key)
    ensures var whole, first := [PublicKey(key)] + head + tail, [PublicKey(key)] + head;
      var second := [PublicKey(key)] + tail;
      && LastOf(ReportsOf(before + [whole] + after, k)) == LastOf(ReportsOf(before + [first, second] + after, k))
      && (Mentions(before + [whole] + after, k) <==> Mentions(before + [first, second] + after, k))
  {
    var whole := [PublicKey(key)] + head + tail;
    var first, second := [PublicKey(key)] + head, [PublicKey(key)] + tail;
    assert KeyOf(whole) == KeyOf(first) == KeyOf(second) == Some(key);
    hide ReportsOf, KeyOf, Mentions, LastOf;
    ReportsConcat(before + [whole], after, k);
    FramePush(before, whole, k);
    ReportsAround(before, first, second, after, k);
    var b, a := ReportsOf(before, k), ReportsOf(after, k);
    if k == key {
      CutReports(b, key, head, tail, a);
    } else {
      assert b + ([] + []) + a == b + [] + a;
    }
  }

  /** A peer's frame may be cut anywhere after its key and resumed under the key again: nothing is
      reset, whatever else is in the dump before and after. */
  lemma CutFrameReadsTheSame(before: seq<Frame>, key: Key, head: seq<PeerAttr>, tail: seq<PeerAttr>, after: seq<Frame>,
                             out: map<Key, PeerStats>, out': map<Key, PeerStats>)
    requires ReadsAs(before + [[PublicKey(key)] + head + tail] + after, out)
    requires ReadsAs(before + [[PublicKey(key)] + head, [PublicKey(key)] + tail] + after, out')
    ensures out == out'
  {
    hide ReportsOf, KeyOf, Mentions, ReadsAs, LastOf;
    forall k {
      CutFrameAround(before, key, head, tail, after, k);
    }
    OnlyReportsCount(before + [[PublicKey(key)] + head + tail] + after, out,
      before + [[PublicKey(key)] + head, [PublicKey(key)] + tail] + after, out');
  }

  // ---- Said of the attributes themselves ----

  predicate IsRx(a: PeerAttr) {
    a.RxBytes?
  }

  predicate IsTx(a: PeerAttr) {
    a.TxBytes?
  }

  predicate IsHandshake(a: PeerAttr) {
    a.LastHandshake?
  }

  /** The frame's first public key is this one. */
  ghost predicate BelongsTo(frame: Frame, key: Key) {
    exists i :: 0 <= i < |frame| && frame[i] == PublicKey(key) && forall j :: 0 <= j < i ==> !frame[j].PublicKey?
  }

  lemma {:induction false} KeyIsFirst(frame: Frame, key: Key)
    ensures KeyOf(frame) == Some(key) <==> BelongsTo(frame, key)
  {
    if frame == [] {
    } else if frame[0].PublicKey? {
      if BelongsTo(frame, key) {
        var i :| 0 <= i < |frame| && frame[i] == PublicKey(key) && forall j :: 0 <= j < i ==> !frame[j].PublicKey?;
        assert i == 0;
      }
    } else {
      var rest := frame[1..];
      KeyIsFirst(rest, key);
      if BelongsTo(rest, key) {
        var i :| 0 <= i < |rest| && rest[i] == PublicKey(key) && forall j :: 0 <= j < i ==> !rest[j].PublicKey?;
        assert frame[i + 1] == PublicKey(key);
        assert forall j :: 0 < j < i + 1 ==> frame[j] == rest[j - 1];
      }
      if BelongsTo(frame, key) {
        var i :| 0 <= i < |frame| && frame[i] == PublicKey(key) && forall j :: 0 <= j < i ==> !frame[j].PublicKey?;
        assert rest[i - 1] == PublicKey(key);
        assert forall j :: 0 <= j < i - 1 ==> rest[j] == frame[j + 1];
      }
    }
  }

  lemma {:induction false} FramesConcat(attrs: seq<DeviceAttr>, more: seq<DeviceAttr>)
    ensures Frames(attrs + more) == Frames(attrs) + Frames(more)
  {
    if more == [] {
      assert attrs + more == attrs;
    } else {
      var front, last := more[..|more| - 1], more[|more| - 1];
      FramesConcat(attrs, front);
      assert attrs + more == (attrs + front) + [last];
      assert (attrs + more)[..|attrs + more| - 1] == attrs + front;
    }
  }

  /** A frame is in the dump exactly when it is in one of its `Peers` attributes. */
  lemma {:induction false} FrameIsInDump(attrs: seq<DeviceAttr>, frame: Frame)
    ensures frame in Frames(attrs) <==> exists a :: a in attrs && a.Peers? && frame in a.frames
  {
    if attrs == [] {
    } else {
      var front, last := attrs[..|attrs| - 1], attrs[|attrs| - 1];
      FrameIsInDump(front, frame);
      assert attrs == front + [last];
    }
  }

  lemma {:induction false} ReportIsInFrame(frames: seq<Frame>, key: Key, r: PeerAttr)
    ensures r in ReportsOf(frames, key) <==> exists frame :: frame in frames && KeyOf(frame) == Some(key) && r in frame
  {
    hide KeyOf;
    if frames == [] {
    } else {
      var front, last := frames[..|frames| - 1], frames[|frames| - 1];
      ReportIsInFrame(front, key, r);
      assert frames == front + [last];
    }
  }

  /** One of the frames is the peer's and says something about the field. */
  ghost predicate Says(frames: seq<Frame>, key: Key, about: PeerAttr -> bool) {
    exists frame, r :: frame in frames && BelongsTo(frame, key) && r in frame && about(r)
  }

  /** Attribute `a` of the dump, frame `f` of it, position `p` there: a report for the peer, and nothing after
      it in the dump says anything about that field for this peer. */
  ghost predicate SaidLast(attrs: seq<DeviceAttr>, a: nat, f: nat, p: nat, key: Key, about: PeerAttr -> bool) {
    && a < |attrs| && attrs[a].Peers? && f < |attrs[a].frames|
    && BelongsTo(attrs[a].frames[f], key) && IsLast(attrs[a].frames[f], p, about)
    && !Says(attrs[a].frames[f + 1..], key, about)
    && forall b :: a < b < |attrs| && attrs[b].Peers? ==> !Says(attrs[b].frames, key, about)
  }

  function FramesBefore(attrs: seq<DeviceAttr>, a: nat, f: nat): seq<Frame>
    requires a < |attrs| && attrs[a].Peers? && f < |attrs[a].frames|
  {
    Frames(attrs[..a]) + attrs[a].frames[..f]
  }

  function FramesAfter(attrs: seq<DeviceAttr>, a: nat, f: nat): seq<Frame>
    requires a < |attrs| && attrs[a].Peers? && f < |attrs[a].frames|
  {
    attrs[a].frames[f + 1..] + Frames(attrs[a + 1..])
  }

  lemma DumpAround(attrs: seq<DeviceAttr>, a: nat, f: nat)
    requires a < |attrs| && attrs[a].Peers? && f < |attrs[a].frames|
    ensures Frames(attrs) == FramesBefore(attrs, a, f) + [attrs[a].frames[f]] + FramesAfter(attrs, a, f)
  {
    var frames := attrs[a].frames;
    assert attrs == attrs[..a] + ([attrs[a]] + attrs[a + 1..]);
    OneAttribute(attrs[a]);
    hide Frames;
    FramesConcat(attrs[..a], [attrs[a]] + attrs[a + 1..]);
    FramesConcat([attrs[a]], attrs[a + 1..]);
    assert frames == frames[..f] + [frames[f]] + frames[f + 1..];
    Regrouped(Frames(attrs[..a]), frames[..f], frames[f], frames[f + 1..], Frames(attrs[a + 1..]));
  }

  lemma OneAttribute(attr: DeviceAttr)
    requires attr.Peers?
    ensures Frames([attr]) == attr.frames
  {
    assert [attr][..0] == [];
  }

  lemma Regrouped(a: seq<Frame>, b: seq<Frame>, frame: Frame, c: seq<Frame>, d: seq<Frame>)
    ensures a + ((b + [frame] + c) + d) == a + b + [frame] + (c + d)
  {}

  lemma NothingLater(attrs: seq<DeviceAttr>, a: nat, f: nat, p: nat, key: Key, about: PeerAttr -> bool, r: PeerAttr)
    requires SaidLast(attrs, a, f, p, key, about)
    requires r in ReportsOf(FramesAfter(attrs, a, f), key)
    ensures !about(r)
  {
    var rest, later := attrs[a].frames[f + 1..], Frames(attrs[a + 1..]);
    hide Frames, KeyOf, ReportsOf, BelongsTo, IsLast;
    ReportIsInFrame(rest + later, key, r);
    var g :| g in rest + later && KeyOf(g) == Some(key) && r in g;
    KeyIsFirst(g, key);
    if g !in rest {
      FrameIsInDump(attrs[a + 1..], g);
      var d :| d in attrs[a + 1..] && d.Peers? && g in d.frames;
      var b :| a < b < |attrs| && attrs[b] == d;
      assert !Says(attrs[b].frames, key, about);
    }
  }

  lemma NothingAfter(attrs: seq<DeviceAttr>, a: nat, f: nat, p: nat, key: Key, about: PeerAttr -> bool)
    requires SaidLast(attrs, a, f, p, key, about)
    ensures forall r :: r in ReportsOf(FramesAfter(attrs, a, f), key) ==> !about(r)
  {
    hide ReportsOf, FramesAfter, Says, IsLast, BelongsTo;
    forall r | r in ReportsOf(FramesAfter(attrs, a, f), key) ensures !about(r) {
      NothingLater(attrs, a, f, p, key, about, r);
    }
  }

  lemma LastOfThree(early: seq<PeerAttr>, frame: Frame, late: seq<PeerAttr>, p: nat, about: PeerAttr -> bool)
    requires IsLast(frame, p, about) && forall r :: r in late ==> !about(r)
    ensures IsLast(early + frame + late, |early| + p, about) && (early + frame + late)[|early| + p] == frame[p]
  {
    var reports := early + frame + late;
    forall k | |early| + p < k < |reports| ensures !about(reports[k]) {
      if k < |early| + |frame| {
        assert reports[k] == frame[k - |early|];
      } else {
        assert reports[k] in late;
      }
    }
  }

  /** What is reported before the frame, in it, and after it. */
  lemma ReportsOfDump(attrs: seq<DeviceAttr>, a: nat, f: nat, key: Key)
    requires a < |attrs| && attrs[a].Peers? && f < |attrs[a].frames| && KeyOf(attrs[a].frames[f]) == Some(key)
    ensures Mentions(Frames(attrs), key)
    ensures ReportsOf(Frames(attrs), key) ==
      ReportsOf(FramesBefore(attrs, a, f), key) + attrs[a].frames[f] + ReportsOf(FramesAfter(attrs, a, f), key)
  {
    var frame, before, after := attrs[a].frames[f], FramesBefore(attrs, a, f), FramesAfter(attrs, a, f);
    assert PartFor(frame, key) == frame;
    hide *;
    DumpAround(attrs, a, f);
    ReportsConcat(before + [frame], after, key);
    FramePush(before, frame, key);
  }

  lemma ReadsLast(early: seq<PeerAttr>, frame: Frame, late: seq<PeerAttr>, p: nat)
    ensures IsLast(frame, p, IsRx) && (forall r :: r in late ==> !IsRx(r)) ==>
      LastOf(early + frame + late).rxBytes == frame[p].count
    ensures IsLast(frame, p, IsTx) && (forall r :: r in late ==> !IsTx(r)) ==>
      LastOf(early + frame + late).txBytes == frame[p].count
    ensures IsLast(frame, p, IsHandshake) && (forall r :: r in late ==> !IsHandshake(r)) ==>
      LastOf(early + frame + late).lastHandshake == Max(frame[p].seconds, 0)
  {
    hide LastOf, IsLast;
    LastReportWins(early + frame + late, |early| + p);
    if IsLast(frame, p, IsRx) && forall r :: r in late ==> !IsRx(r) {
      LastOfThree(early, frame, late, p, IsRx);
    }
    if IsLast(frame, p, IsTx) && forall r :: r in late ==> !IsTx(r) {
      LastOfThree(early, frame, late, p, IsTx);
    }
    if IsLast(frame, p, IsHandshake) && forall r :: r in late ==> !IsHandshake(r) {
      LastOfThree(early, frame, late, p, IsHandshake);
    }
  }

  lemma SaidBy(attrs: seq<DeviceAttr>, a: nat, f: nat, p: nat, key: Key, about: PeerAttr -> bool)
    requires SaidLast(attrs, a, f, p, key, about)
    ensures a < |attrs| && attrs[a].Peers? && f < |attrs[a].frames| && p < |attrs[a].frames[f]|
    ensures KeyOf(attrs[a].frames[f]) == Some(key) && IsLast(attrs[a].frames[f], p, about)
  {
    KeyIsFirst(attrs[a].frames[f], key);
    hide KeyOf, BelongsTo;
  }

  function Max(x: int, y: int): int {
    if x < y then y else x
  }

  /** What a whole dump reads as, field by field: the last that is said about it anywhere in the dump. */
  lemma DumpReads(attrs: seq<DeviceAttr>, out: map<Key, PeerStats>, a: nat, f: nat, p: nat, key: Key)
    requires ReadsAs(Frames(attrs), out)
    ensures SaidLast(attrs, a, f, p, key, IsRx) ==> key in out && out[key].rxBytes == attrs[a].frames[f][p].count
    ensures SaidLast(attrs, a, f, p, key, IsTx) ==> key in out && out[key].txBytes == attrs[a].frames[f][p].count
    ensures SaidLast(attrs, a, f, p, key, IsHandshake) ==>
      key in out && out[key].lastHandshake == Max(attrs[a].frames[f][p].seconds, 0)
  {
    hide SaidLast, Mentions, ReportsOf, Frames, LastOf, KeyOf, IsLast, FramesBefore, FramesAfter;
    if SaidLast(attrs, a, f, p, key, IsRx) {
      ReadsField(attrs, a, f, p, key, IsRx);
    }
    if SaidLast(attrs, a, f, p, key, IsTx) {
      ReadsField(attrs, a, f, p, key, IsTx);
    }
    if SaidLast(attrs, a, f, p, key, IsHandshake) {
      ReadsField(attrs, a, f, p, key, IsHandshake);
    }
  }

  lemma ReadsField(attrs: seq<DeviceAttr>, a: nat, f: nat, p: nat, key: Key, about: PeerAttr -> bool)
    requires SaidLast(attrs, a, f, p, key, about) && about in {IsRx, IsTx, IsHandshake}
    ensures Mentions(Frames(attrs), key)
    ensures var stats := LastOf(ReportsOf(Frames(attrs), key));
      && (about == IsRx ==> stats.rxBytes == attrs[a].frames[f][p].count)
      && (about == IsTx ==> stats.txBytes == attrs[a].frames[f][p].count)
      && (about == IsHandshake ==> stats.lastHandshake == Max(attrs[a].frames[f][p].seconds, 0))
  {
    SaidBy(attrs, a, f, p, key, about);
    hide *;
    ReportsOfDump(attrs, a, f, key);
    NothingAfter(attrs, a, f, p, key, about);
    var early, late := ReportsOf(FramesBefore(attrs, a, f), key), ReportsOf(FramesAfter(attrs, a, f), key);
    ReadsLast(early, attrs[a].frames[f], late, p);
  }

  /** A field about which nothing is said of a peer is zero. */
  lemma {:induction false} NothingSaidIsZero(reports: seq<PeerAttr>)
    ensures (forall r :: r in reports ==> !IsRx(r)) ==> LastOf(reports).rxBytes == 0
    ensures (forall r :: r in reports ==> !IsTx(r)) ==> LastOf(reports).txBytes == 0
    ensures (forall r :: r in reports ==> !IsHandshake(r)) ==> LastOf(reports).lastHandshake == 0
  {
    if reports == [] {
    } else {
      var front, last := reports[..|reports| - 1], reports[|reports| - 1];
      assert reports == front + [last];
      assert last in reports && forall r :: r in front ==> r in reports;
      NothingSaidIsZero(front);
    }
  }

  /** A peer is in the map exactly when a frame of the dump is its own. */
  lemma InDumpIff(attrs: seq<DeviceAttr>, out: map<Key, PeerStats>, key: Key)
    requires ReadsAs(Frames(attrs), out)
    ensures key in out <==> exists a, frame :: a in attrs && a.Peers? && frame in a.frames && BelongsTo(frame, key)
  {
    hide Frames, BelongsTo, KeyOf, ReportsOf, LastOf;
    forall frame
      ensures frame in Frames(attrs) <==> exists a :: a in attrs && a.Peers? && frame in a.frames
      ensures KeyOf(frame) == Some(key) <==> BelongsTo(frame, key)
    {
      FrameIsInDump(attrs, frame);
      KeyIsFirst(frame, key);
    }
  }

  lemma NothingReportedOf(attrs: seq<DeviceAttr>, key: Key, about: PeerAttr -> bool, r: PeerAttr)
    requires forall a :: a in attrs && a.Peers? ==> !Says(a.frames, key, about)
    requires r in ReportsOf(Frames(attrs), key)
    ensures !about(r)
  {
    hide Frames, KeyOf, ReportsOf, BelongsTo;
    ReportIsInFrame(Frames(attrs), key, r);
    var g :| g in Frames(attrs) && KeyOf(g) == Some(key) && r in g;
    KeyIsFirst(g, key);
    FrameIsInDump(attrs, g);
    var d :| d in attrs && d.Peers? && g in d.frames;
    assert !Says(d.frames, key, about);
  }

  /** A field about which no frame of the peer says anything is zero. */
  lemma UnsaidIsZero(attrs: seq<DeviceAttr>, out: map<Key, PeerStats>, key: Key)
    requires ReadsAs(Frames(attrs), out) && key in out
    ensures (forall a :: a in attrs && a.Peers? ==> !Says(a.frames, key, IsRx)) ==> out[key].rxBytes == 0
    ensures (forall a :: a in attrs && a.Peers? ==> !Says(a.frames, key, IsTx)) ==> out[key].txBytes == 0
    ensures (forall a :: a in attrs && a.Peers? ==> !Says(a.frames, key, IsHandshake)) ==> out[key].lastHandshake == 0
  {
    var reports := ReportsOf(Frames(attrs), key);
    hide Frames, KeyOf, ReportsOf, Says, LastOf;
    NothingSaidIsZero(reports);
    forall about, r: PeerAttr | (forall a :: a in attrs && a.Peers? ==> !Says(a.frames, key, about)) && r in reports
      ensures !about(r)
    {
      NothingReportedOf(attrs, key, about, r);
    }
  }
}
