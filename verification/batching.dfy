/** What one call of `next` emits, as a reference definition: the accepted
    segments of a cursor range, each contributing `historyLen` context slots
    (its context utterances, then padding) to X and its target to Y. */
module Batching {
  import opened Utterances
  import opened Segments

  /** The lists `next` fills before tensor conversion: X and X_floor hold
      `historyLen` entries per sample, the Y lists one entry per sample. */
  datatype Batch = Batch(
    x: seq<seq<int>>,
    xFloor: seq<nat>,
    y: seq<seq<int>>,
    yFloor: seq<nat>,
    yIsNext: seq<bool>,
    yRef: seq<seq<int>>)

  const NoSamples: Batch := Batch([], [], [], [], [], [])

  /** The ids of the padding utterance: the empty string, tokenized and
      wrapped with bos/eos. Its floor id is 0. */
  function PaddingIds(tok: Tokenizer): (ids: seq<int>)
    ensures |ids| >= 2 && ids[0] == tok.bosId && ids[|ids| - 1] == tok.eosId
    ensures StripBosEos(ids) == tok.toIds(tok.toTokens(""))
  {
    StripUndoesWrap(tok, tok.toTokens(""));
    tok.IdsWithBosEos(tok.toTokens(""))
  }

  /** `id` names an utterance of `sessions`. */
  predicate ValidId(sessions: seq<seq<Utterance>>, id: UttrId)
  {
    id.session < |sessions| && id.index < |sessions[id.session]|
  }

  /** A segment `next` can turn into a sample: a target, at most
      historyLen context utterances, and a reference that resolves. */
  predicate Servable(seg: Segment, sessions: seq<seq<Utterance>>, historyLen: nat)
  {
    && 1 <= |seg.utterances| <= historyLen + 1
    && seg.Target().ref.Some?
    && ValidId(sessions, seg.Target().ref.value)
  }

  predicate AllServable(segs: seq<Segment>, sessions: seq<seq<Utterance>>, historyLen: nat)
  {
    forall k :: 0 <= k < |segs| ==> Servable(segs[k], sessions, historyLen)
  }

  /** `reference_uttr["token_ids"]` of the target. */
  function RefIds(seg: Segment, sessions: seq<seq<Utterance>>, historyLen: nat): seq<int>
    requires Servable(seg, sessions, historyLen)
  {
    var id := seg.Target().ref.value;
    sessions[id.session][id.index].tokenIds
  }

  /** `len(range(historyLen - segLen + 1))`: Python's range is empty for a
      negative bound. */
  function PaddingCount(segLen: nat, historyLen: nat): nat
  {
    if segLen <= historyLen + 1 then historyLen + 1 - segLen else 0
  }

  function TokenIdsOf(uttrs: seq<Utterance>): seq<seq<int>>
  {
    seq(|uttrs|, i requires 0 <= i < |uttrs| => uttrs[i].tokenIds)
  }

  function FloorIdsOf(uttrs: seq<Utterance>): seq<nat>
  {
    seq(|uttrs|, i requires 0 <= i < |uttrs| => uttrs[i].floorId)
  }

  function Repeat<T>(x: T, n: nat): seq<T>
  {
    seq(n, _ => x)
  }

  /** The X entries of one sample: the context ids, then the padding ids. */
  function ContextIds(seg: Segment, historyLen: nat, padIds: seq<int>): (r: seq<seq<int>>)
    requires |seg.utterances| > 0
    ensures |r| >= |seg.utterances| - 1
    ensures |seg.utterances| <= historyLen + 1 ==> |r| == historyLen
    ensures forall c :: 0 <= c < |seg.utterances| - 1 ==> r[c] == seg.utterances[c].tokenIds
    ensures forall c :: |seg.utterances| - 1 <= c < |r| ==> r[c] == padIds
  {
    TokenIdsOf(seg.Context()) + Repeat(padIds, PaddingCount(|seg.utterances|, historyLen))
  }

  /** The X_floor entries of one sample: context floors, then floor 0. */
  function ContextFloors(seg: Segment, historyLen: nat): (r: seq<nat>)
    requires |seg.utterances| > 0
    ensures |r| >= |seg.utterances| - 1
    ensures |seg.utterances| <= historyLen + 1 ==> |r| == historyLen
    ensures forall c :: 0 <= c < |seg.utterances| - 1 ==> r[c] == seg.utterances[c].floorId
    ensures forall c :: |seg.utterances| - 1 <= c < |r| ==> r[c] == 0
  {
    FloorIdsOf(seg.Context()) + Repeat(0, PaddingCount(|seg.utterances|, historyLen))
  }

  /** The batch with one more sample appended (lines 143-162). */
  function AddSample(b: Batch, seg: Segment, sessions: seq<seq<Utterance>>, historyLen: nat, padIds: seq<int>): (r: Batch)
    requires Servable(seg, sessions, historyLen)
    ensures |r.x| == |b.x| + historyLen && |r.xFloor| == |b.xFloor| + historyLen
    ensures r.x[..|b.x|] == b.x && r.xFloor[..|b.xFloor|] == b.xFloor
    ensures |r.y| == |b.y| + 1 && |r.yFloor| == |b.yFloor| + 1 && |r.yIsNext| == |b.yIsNext| + 1 && |r.yRef| == |b.yRef| + 1
    ensures r.y[..|b.y|] == b.y && r.yFloor[..|b.yFloor|] == b.yFloor && r.yIsNext[..|b.yIsNext|] == b.yIsNext && r.yRef[..|b.yRef|] == b.yRef
    ensures r.y[|b.y|] == seg.Target().tokenIds && r.yFloor[|b.yFloor|] == seg.Target().floorId && r.yIsNext[|b.yIsNext|] == seg.Target().isNext
  {
    var t := seg.Target();
    Batch(
      b.x + ContextIds(seg, historyLen, padIds),
      b.xFloor + ContextFloors(seg, historyLen),
      b.y + [t.tokenIds],
      b.yFloor + [t.floorId],
      b.yIsNext + [t.isNext],
      b.yRef + [RefIds(seg, sessions, historyLen)])
  }

  /** The batch made of the given samples, in order: one entry per sample
      in each Y list. */
  function Collate(samples: seq<Segment>, sessions: seq<seq<Utterance>>, historyLen: nat, padIds: seq<int>): (b: Batch)
    requires AllServable(samples, sessions, historyLen)
    ensures |b.y| == |b.yFloor| == |b.yIsNext| == |b.yRef| == |samples|
    ensures |b.x| == |b.xFloor|
  {
    if |samples| == 0 then NoSamples
    else
      var n := |samples| - 1;
      assert AllServable(samples[..n], sessions, historyLen) by {
        forall k | 0 <= k < n ensures Servable(samples[..n][k], sessions, historyLen) {
          assert samples[..n][k] == samples[k];
        }
      }
      AddSample(Collate(samples[..n], sessions, historyLen, padIds), samples[n], sessions, historyLen, padIds)
  }

  /** The X lists hold exactly historyLen entries per sample, which is
      what lets the source reshape X into (batch size, historyLen). */
  lemma {:induction false} CollateXLength(samples: seq<Segment>, sessions: seq<seq<Utterance>>, historyLen: nat, padIds: seq<int>)
    requires AllServable(samples, sessions, historyLen)
    ensures var b := Collate(samples, sessions, historyLen, padIds);
      |b.x| == |b.xFloor| == historyLen * |samples|
  {
    if |samples| > 0 {
      var n := |samples| - 1;
      CollateLast(samples, sessions, historyLen, padIds);
      CollateXLength(samples[..n], sessions, historyLen, padIds);
      MulSucc(historyLen, n);
    }
  }

  lemma MulSucc(h: nat, n: nat)
    ensures h * n + h == h * (n + 1)
  {
  }

  /** `return_paired_Y and segment_uttrs[-1]["is_next"]` is false. */
  predicate Accepts(seg: Segment, pairedY: bool)
    requires |seg.utterances| > 0
  {
    !(pairedY && seg.Target().isNext)
  }

  predicate NonEmptySegments(segs: seq<Segment>)
  {
    forall k :: 0 <= k < |segs| ==> |segs[k].utterances| > 0
  }

  /** The segments `next` turns into samples, in cursor order: all of them,
      or in paired mode only those whose target is not the true next one. */
  function Accepted(segs: seq<Segment>, pairedY: bool): (r: seq<Segment>)
    requires NonEmptySegments(segs)
    ensures |r| <= |segs|
    ensures !pairedY ==> r == segs
  {
    if |segs| == 0 then []
    else
      var n := |segs| - 1;
      assert forall k :: 0 <= k < n ==> segs[..n][k] == segs[k];
      var r := Accepted(segs[..n], pairedY);
      if Accepts(segs[n], pairedY) then r + [segs[n]] else r
  }

  /** Every segment Accepted keeps comes from the input and passes the
      test. */
  lemma {:induction false} AcceptedSound(segs: seq<Segment>, pairedY: bool)
    requires NonEmptySegments(segs)
    ensures forall j :: 0 <= j < |Accepted(segs, pairedY)| ==>
      && Accepted(segs, pairedY)[j] in segs
      && |Accepted(segs, pairedY)[j].utterances| > 0
      && Accepts(Accepted(segs, pairedY)[j], pairedY)
  {
    if |segs| > 0 {
      var n := |segs| - 1;
      assert forall k :: 0 <= k < n ==> segs[..n][k] == segs[k];
      AcceptedSound(segs[..n], pairedY);
    }
  }

  /** Every input segment that passes the test is kept. */
  lemma {:induction false} AcceptedComplete(segs: seq<Segment>, pairedY: bool)
    requires NonEmptySegments(segs)
    ensures forall k :: 0 <= k < |segs| && Accepts(segs[k], pairedY) ==> segs[k] in Accepted(segs, pairedY)
  {
    if |segs| > 0 {
      var n := |segs| - 1;
      assert forall k :: 0 <= k < n ==> segs[..n][k] == segs[k];
      AcceptedComplete(segs[..n], pairedY);
    }
  }

  /** A prefix never accepts more segments than the whole sequence. */
  lemma {:induction false} AcceptedPrefixLength(segs: seq<Segment>, pairedY: bool, j: nat)
    requires NonEmptySegments(segs) && j <= |segs|
    ensures NonEmptySegments(segs[..j])
    ensures |Accepted(segs[..j], pairedY)| <= |Accepted(segs, pairedY)|
    decreases |segs|
  {
    if j < |segs| {
      var n := |segs| - 1;
      assert segs[..n][..j] == segs[..j];
      assert forall k :: 0 <= k < n ==> segs[..n][k] == segs[k];
      AcceptedPrefixLength(segs[..n], pairedY, j);
    } else {
      assert segs[..j] == segs;
    }
  }

  /** Accepting works one segment at a time, in cursor order. */
  lemma AcceptedSnoc(segs: seq<Segment>, seg: Segment, pairedY: bool)
    requires NonEmptySegments(segs) && |seg.utterances| > 0
    ensures NonEmptySegments(segs + [seg])
    ensures Accepted(segs + [seg], pairedY) == Accepted(segs, pairedY) + (if Accepts(seg, pairedY) then [seg] else [])
  {
    assert (segs + [seg])[..|segs|] == segs;
  }

  /** Collating the accepted segments one more segment at a time: an
      accepted segment appends one sample, a skipped one changes nothing. */
  lemma CollateStep(taken: seq<Segment>, seg: Segment, pairedY: bool, sessions: seq<seq<Utterance>>, historyLen: nat, padIds: seq<int>)
    requires NonEmptySegments(taken) && AllServable(Accepted(taken, pairedY), sessions, historyLen)
    requires Servable(seg, sessions, historyLen)
    ensures NonEmptySegments(taken + [seg])
    ensures AllServable(Accepted(taken + [seg], pairedY), sessions, historyLen)
    ensures |Accepted(taken + [seg], pairedY)| == |Accepted(taken, pairedY)| + if Accepts(seg, pairedY) then 1 else 0
    ensures Collate(Accepted(taken + [seg], pairedY), sessions, historyLen, padIds)
      == if Accepts(seg, pairedY)
         then AddSample(Collate(Accepted(taken, pairedY), sessions, historyLen, padIds), seg, sessions, historyLen, padIds)
         else Collate(Accepted(taken, pairedY), sessions, historyLen, padIds)
  {
    AcceptedSnoc(taken, seg, pairedY);
    var samples := Accepted(taken, pairedY);
    if Accepts(seg, pairedY) {
      assert AllServable(samples + [seg], sessions, historyLen);
      CollateLast(samples + [seg], sessions, historyLen, padIds);
      assert (samples + [seg])[..|samples|] == samples;
    }
  }

  /** The accepted segments of servable segments are servable. */
  lemma AcceptedServable(segs: seq<Segment>, pairedY: bool, sessions: seq<seq<Utterance>>, historyLen: nat)
    requires NonEmptySegments(segs) && AllServable(segs, sessions, historyLen)
    ensures AllServable(Accepted(segs, pairedY), sessions, historyLen)
  {
    var r := Accepted(segs, pairedY);
    AcceptedSound(segs, pairedY);
    forall j | 0 <= j < |r| ensures Servable(r[j], sessions, historyLen) {
      var k :| 0 <= k < |segs| && segs[k] == r[j];
    }
  }

  /** Collate peeled once: the batch of all but the last sample, with the
      last one appended. */
  lemma CollateLast(samples: seq<Segment>, sessions: seq<seq<Utterance>>, historyLen: nat, padIds: seq<int>)
    requires AllServable(samples, sessions, historyLen) && |samples| > 0
    ensures AllServable(samples[..|samples| - 1], sessions, historyLen)
    ensures Collate(samples, sessions, historyLen, padIds)
      == AddSample(Collate(samples[..|samples| - 1], sessions, historyLen, padIds), samples[|samples| - 1], sessions, historyLen, padIds)
  {
    var n := |samples| - 1;
    forall k | 0 <= k < n ensures Servable(samples[..n][k], sessions, historyLen) {
      assert samples[..n][k] == samples[k];
    }
  }

  /** Sample j of a collated batch: its Y entries come from the target of
      segment j. */
  lemma {:induction false} CollateTargets(samples: seq<Segment>, sessions: seq<seq<Utterance>>, historyLen: nat, padIds: seq<int>, j: nat)
    requires AllServable(samples, sessions, historyLen) && j < |samples|
    ensures var b := Collate(samples, sessions, historyLen, padIds);
      && b.y[j] == samples[j].Target().tokenIds
      && b.yFloor[j] == samples[j].Target().floorId
      && b.yIsNext[j] == samples[j].Target().isNext
      && b.yRef[j] == RefIds(samples[j], sessions, historyLen)
  {
    var n := |samples| - 1;
    CollateLast(samples, sessions, historyLen, padIds);
    if j < n {
      CollateTargets(samples[..n], sessions, historyLen, padIds, j);
      assert samples[..n][j] == samples[j];
    }
  }

  /** Sample j of a collated batch: its historyLen X entries, starting at
      historyLen·j, are that segment's context followed by padding. */
  lemma {:induction false} CollateContexts(samples: seq<Segment>, sessions: seq<seq<Utterance>>, historyLen: nat, padIds: seq<int>, j: nat)
    requires AllServable(samples, sessions, historyLen) && j < |samples|
    ensures var b := Collate(samples, sessions, historyLen, padIds);
      && historyLen * j + historyLen <= |b.x|
      && b.x[historyLen * j..historyLen * j + historyLen] == ContextIds(samples[j], historyLen, padIds)
      && b.xFloor[historyLen * j..historyLen * j + historyLen] == ContextFloors(samples[j], historyLen)
  {
    var n := |samples| - 1;
    CollateLast(samples, sessions, historyLen, padIds);
    CollateXLength(samples[..n], sessions, historyLen, padIds);
    var prev := Collate(samples[..n], sessions, historyLen, padIds);
    var cx, cf := ContextIds(samples[n], historyLen, padIds), ContextFloors(samples[n], historyLen);
    var bx, bf := ContextIds(samples[j], historyLen, padIds), ContextFloors(samples[j], historyLen);
    if j < n {
      CollateContexts(samples[..n], sessions, historyLen, padIds, j);
      assert samples[..n][j] == samples[j];
    }
    BlockOfSnoc(prev.x, cx, historyLen, j, n, bx);
    BlockOfSnoc(prev.xFloor, cf, historyLen, j, n, bf);
  }

  /** Appending block n to n blocks of length h keeps blocks 0 .. n-1. */
  lemma BlockOfSnoc<T>(a: seq<T>, c: seq<T>, h: nat, j: nat, n: nat, block: seq<T>)
    requires |a| == h * n && |c| == h && j <= n
    requires j < n ==> h * j + h <= |a| && a[h * j..h * j + h] == block
    requires j == n ==> c == block
    ensures h * j + h <= |a + c| && (a + c)[h * j..h * j + h] == block
  {
    MulNonNegative(h, j);
    if j < n {
      SliceOfPrefix(a, c, h * j, h * j + h);
    } else {
      SliceOfSuffix(a, c);
    }
  }

  lemma MulNonNegative(a: nat, b: nat)
    ensures a * b >= 0
  {
  }

  lemma SliceOfSuffix<T>(a: seq<T>, b: seq<T>)
    ensures (a + b)[|a|..|a| + |b|] == b
  {
  }

  lemma SliceOfPrefix<T>(a: seq<T>, b: seq<T>, lo: nat, hi: nat)
    requires lo <= hi <= |a|
    ensures (a + b)[lo..hi] == a[lo..hi]
  {
  }

  /** The reshape of lines 168-172 divides |X| by the batch size; for any
      non-empty batch that recovers historyLen. */
  lemma ReshapeRecoversHistoryLen(samples: seq<Segment>, sessions: seq<seq<Utterance>>, historyLen: nat, padIds: seq<int>)
    requires AllServable(samples, sessions, historyLen) && |samples| > 0
    ensures var b := Collate(samples, sessions, historyLen, padIds);
      |b.x| / |b.y| == historyLen && |b.xFloor| / |b.y| == historyLen
  {
    var b := Collate(samples, sessions, historyLen, padIds);
    CollateXLength(samples, sessions, historyLen, padIds);
    DivExact(historyLen, |samples|);
  }

  lemma DivExact(h: nat, n: nat)
    requires n > 0
    ensures (h * n) / n == h
  {
    var q, r := (h * n) / n, (h * n) % n;
    var d := h - q;
    assert d * n == r;
    if d > 0 {
      MulAtLeast(d, n);
    } else if d < 0 {
      MulAtLeast(-d, n);
    }
  }

  lemma MulAtLeast(k: int, n: nat)
    requires k >= 1
    ensures k * n >= n
  {
    var m := k - 1;
    assert k * n == m * n + n;
  }

  /** In paired mode every emitted target is a sampled negative. */
  lemma PairedYOnlyNegatives(segs: seq<Segment>, sessions: seq<seq<Utterance>>, historyLen: nat, padIds: seq<int>)
    requires NonEmptySegments(segs) && AllServable(segs, sessions, historyLen)
    ensures AllServable(Accepted(segs, true), sessions, historyLen)
    ensures forall j :: 0 <= j < |Collate(Accepted(segs, true), sessions, historyLen, padIds).yIsNext| ==>
      !Collate(Accepted(segs, true), sessions, historyLen, padIds).yIsNext[j]
  {
    AcceptedServable(segs, true, sessions, historyLen);
    AcceptedSound(segs, true);
    var samples := Accepted(segs, true);
    forall j | 0 <= j < |samples| ensures !Collate(samples, sessions, historyLen, padIds).yIsNext[j] {
      CollateTargets(samples, sessions, historyLen, padIds, j);
    }
  }
}
