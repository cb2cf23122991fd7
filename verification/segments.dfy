/** The segment builder of `DataSourceUnsupervised.__init__`: for every end
    index of a session, a positive segment (a context window ending at the
    true next utterance) followed by a negative segment (the same window with
    the target replaced by a sampled pool utterance). */
module Segments {
  import opened Results
  import opened Seqs
  import opened Utterances
  import opened NegativeSampling

  /** A training sample: context utterances followed by one target. The
      source's `segment_meta` is always empty and is not represented. */
  datatype Segment = Segment(utterances: seq<Utterance>)
  {
    function Target(): Utterance
      requires |utterances| > 0
    {
      utterances[|utterances| - 1]
    }

    function Context(): seq<Utterance>
      requires |utterances| > 0
    {
      utterances[..|utterances| - 1]
    }
  }

  /** The two segments built for one end index, positive first. */
  datatype SegmentPair = SegmentPair(positive: Segment, negative: Segment)

  /** `max(0, end - history_len)`: the window keeps `historyLen` context
      utterances when the session has them, and starts at 0 otherwise. */
  function WindowStart(end: nat, historyLen: nat): (start: nat)
    ensures start <= end && end - start <= historyLen
    ensures start == 0 || end - start == historyLen
  {
    if end >= historyLen then end - historyLen else 0
  }

  /** The positive target: the session utterance, referring to itself. */
  function AsPositive(u: Utterance): Utterance
  {
    u.(ref := Some(u.id))
  }

  /** The negative target: a copy of the sampled pool utterance with
      `is_next` cleared, referring to the true positive. */
  function AsNegative(candidate: Utterance, positive: Utterance): Utterance
  {
    candidate.(isNext := false, ref := Some(positive.id))
  }

  /** `uttrs[start:end+1]` with the target marked (lines 57-64). */
  function PositiveSegment(uttrs: seq<Utterance>, end: nat, historyLen: nat): (seg: Segment)
    requires end < |uttrs|
    ensures IsPositiveFor(seg, uttrs, end, historyLen)
    ensures 1 <= |seg.utterances| <= historyLen + 1
    ensures historyLen <= end ==> |seg.utterances| == historyLen + 1
  {
    Segment(uttrs[WindowStart(end, historyLen)..end] + [AsPositive(uttrs[end])])
  }

  /** `uttrs[start:end] + [negative_uttr]` (lines 73-79). */
  function NegativeSegment(uttrs: seq<Utterance>, end: nat, historyLen: nat, candidate: Utterance): (seg: Segment)
    requires end < |uttrs|
    ensures |seg.utterances| == |PositiveSegment(uttrs, end, historyLen).utterances|
    ensures seg.Context() == PositiveSegment(uttrs, end, historyLen).Context()
    ensures seg.Target().tokenIds == candidate.tokenIds && seg.Target().floorId == candidate.floorId
    ensures !seg.Target().isNext && seg.Target().ref == Some(uttrs[end].id)
  {
    Segment(uttrs[WindowStart(end, historyLen)..end] + [AsNegative(candidate, uttrs[end])])
  }

  /** Every utterance of a session has a non-empty id sequence. */
  predicate SessionTokenized(uttrs: seq<Utterance>)
  {
    forall i :: 0 <= i < |uttrs| ==> |uttrs[i].tokenIds| > 0
  }

  /** `seg` is the positive segment of `uttrs` at `end`: its context is
      exactly the window `uttrs[WindowStart(end)..end]` and its target is
      `uttrs[end]` referring to itself. */
  predicate IsPositiveFor(seg: Segment, uttrs: seq<Utterance>, end: nat, historyLen: nat)
  {
    var start := WindowStart(end, historyLen);
    && end < |uttrs|
    && |seg.utterances| == end - start + 1
    && seg.Context() == uttrs[start..end]
    && seg.Target() == AsPositive(uttrs[end])
  }

  /** `seg` is a negative segment of `uttrs` at `end`: the same window as
      the positive, and a target that is a flagged copy of some pool
      utterance passing the overlap test against the true target. */
  predicate IsNegativeFor(seg: Segment, pool: seq<Utterance>, uttrs: seq<Utterance>, end: nat, historyLen: nat)
  {
    var start := WindowStart(end, historyLen);
    && end < |uttrs|
    && |seg.utterances| == end - start + 1
    && seg.Context() == uttrs[start..end]
    && (exists k :: 0 <= k < |pool| && seg.Target() == AsNegative(pool[k], uttrs[end]))
    && |uttrs[end].tokenIds| > 0 && |seg.Target().tokenIds| > 0
    && AreDifferentUttrs(uttrs[end].tokenIds, seg.Target().tokenIds)
  }

  predicate PairFor(p: SegmentPair, pool: seq<Utterance>, uttrs: seq<Utterance>, end: nat, historyLen: nat)
  {
    IsPositiveFor(p.positive, uttrs, end, historyLen) && IsNegativeFor(p.negative, pool, uttrs, end, historyLen)
  }

  /** Number of end indices of a session with n utterances: `range(1, n)`. */
  function PairCount(n: nat): nat
  {
    if n <= 1 then 0 else n - 1
  }

  /** The pairs of one session are, in end-index order, exactly the pairs
      for end indices 1 .. n-1. */
  predicate SessionPairsOk(pool: seq<Utterance>, uttrs: seq<Utterance>, historyLen: nat, pairs: seq<SegmentPair>)
  {
    |pairs| == PairCount(|uttrs|) && PairsFrom(pairs, pool, uttrs, 1, historyLen)
  }

  /** The pair for end index `end` once pool utterance k was accepted. */
  function MakePair(pool: seq<Utterance>, uttrs: seq<Utterance>, end: nat, historyLen: nat, k: nat): SegmentPair
    requires end < |uttrs| && k < |pool|
  {
    SegmentPair(PositiveSegment(uttrs, end, historyLen), NegativeSegment(uttrs, end, historyLen, pool[k]))
  }

  /** The pair built from an accepted pool utterance satisfies the window
      and substitution requirements for its end index. */
  lemma MakePairCorrect(pool: seq<Utterance>, uttrs: seq<Utterance>, end: nat, historyLen: nat, k: nat)
    requires end < |uttrs| && k < |pool|
    requires |uttrs[end].tokenIds| > 0 && |pool[k].tokenIds| > 0
    requires AreDifferentUttrs(uttrs[end].tokenIds, pool[k].tokenIds)
    ensures PairFor(MakePair(pool, uttrs, end, historyLen, k), pool, uttrs, end, historyLen)
  {
    var p := MakePair(pool, uttrs, end, historyLen, k);
    assert p.negative.Target() == AsNegative(pool[k], uttrs[end]);
  }

  /** `pairs` are the pairs for end indices start, start+1, ... in order. */
  predicate PairsFrom(pairs: seq<SegmentPair>, pool: seq<Utterance>, uttrs: seq<Utterance>, start: nat, historyLen: nat)
  {
    |pairs| == 0 || (PairFor(pairs[0], pool, uttrs, start, historyLen) && PairsFrom(pairs[1..], pool, uttrs, start + 1, historyLen))
  }

  /** PairsFrom, stated element by element. */
  lemma {:induction false} PairsFromIndexed(pairs: seq<SegmentPair>, pool: seq<Utterance>, uttrs: seq<Utterance>, start: nat, historyLen: nat)
    requires PairsFrom(pairs, pool, uttrs, start, historyLen)
    ensures forall k :: 0 <= k < |pairs| ==> PairFor(pairs[k], pool, uttrs, start + k, historyLen)
  {
    if |pairs| > 0 {
      PairsFromIndexed(pairs[1..], pool, uttrs, start + 1, historyLen);
      forall k | 1 <= k < |pairs|
        ensures PairFor(pairs[k], pool, uttrs, start + k, historyLen)
      {
        assert pairs[k] == pairs[1..][k - 1];
      }
    }
  }

  /** Prepending the pair for `end` to the pairs for end+1, end+2, ... */
  lemma ConsPair(pool: seq<Utterance>, uttrs: seq<Utterance>, end: nat, historyLen: nat, k: nat, rest: seq<SegmentPair>)
    requires end < |uttrs| && k < |pool|
    requires |uttrs[end].tokenIds| > 0 && |pool[k].tokenIds| > 0
    requires AreDifferentUttrs(uttrs[end].tokenIds, pool[k].tokenIds)
    requires PairsFrom(rest, pool, uttrs, end + 1, historyLen)
    ensures PairsFrom([MakePair(pool, uttrs, end, historyLen, k)] + rest, pool, uttrs, end, historyLen)
  {
    var pairs := [MakePair(pool, uttrs, end, historyLen, k)] + rest;
    MakePairCorrect(pool, uttrs, end, historyLen, k);
    assert pairs[0] == MakePair(pool, uttrs, end, historyLen, k) && pairs[1..] == rest;
  }

  /** Pairs built so far and the position of the next unread draw. */
  datatype SessionBuild = SessionBuild(pairs: seq<SegmentPair>, next: nat)

  /** The inner loop `for segment_end_idx in range(end, len(uttrs))` of
      session `s`, reading random draws from position `from` on. */
  function BuildSessionPairs(pool: seq<Utterance>, uttrs: seq<Utterance>, s: nat, historyLen: nat, end: nat, draws: seq<nat>, from: nat): (r: Result<SessionBuild>)
    requires 1 <= end && from <= |draws|
    requires PoolTokenized(pool) && SessionTokenized(uttrs) && DrawsInPool(draws, |pool|)
    decreases |uttrs| - end
    ensures r.Ok? ==> |r.value.pairs| == (if end < |uttrs| then |uttrs| - end else 0)
    ensures r.Ok? ==> from + |r.value.pairs| <= r.value.next <= |draws|
    ensures r.Ok? ==> PairsFrom(r.value.pairs, pool, uttrs, end, historyLen)
    ensures r.Err? ==> r.error.NegativeSamplingStarvation? && r.error.session == s && end <= r.error.end < |uttrs|
    ensures AcceptedFrom(pool, uttrs, end, draws, from) ==>
      && (r.Ok? <==> from + (if end < |uttrs| then |uttrs| - end else 0) <= |draws|)
      && (r.Ok? ==> r.value.next == from + (if end < |uttrs| then |uttrs| - end else 0))
    ensures forall t :: from <= t && t + (if end < |uttrs| then |uttrs| - end else 0) <= |draws| && AcceptedFrom(pool, uttrs, end, draws, t) ==>
      r.Ok? && r.value.next <= t + (if end < |uttrs| then |uttrs| - end else 0)
  {
    if end >= |uttrs| then Ok(SessionBuild([], from))
    else
      match SampleNegative(pool, uttrs[end].tokenIds, draws, from)
      case None =>
        AcceptedBoundsSample(pool, uttrs, end, draws, from);
        Err(NegativeSamplingStarvation(s, end))
      case Some(j) =>
        assert AcceptedFrom(pool, uttrs, end, draws, from) ==> j == from && AcceptedFrom(pool, uttrs, end + 1, draws, j + 1);
        AcceptedBoundsSample(pool, uttrs, end, draws, from);
        var pair := MakePair(pool, uttrs, end, historyLen, draws[j]);
        match BuildSessionPairs(pool, uttrs, s, historyLen, end + 1, draws, j + 1)
        case Err(e) => Err(e)
        case Ok(b) =>
          ConsPair(pool, uttrs, end, historyLen, draws[j], b.pairs);
          Ok(SessionBuild([pair] + b.pairs, b.next))
  }

  /** A draw position t from which every draw passes against every target
      from `end` on bounds the negative sampled for `end`, and the builder
      may resume from t (or just past it) for the next end index. */
  lemma AcceptedBoundsSample(pool: seq<Utterance>, uttrs: seq<Utterance>, end: nat, draws: seq<nat>, from: nat)
    requires 1 <= end < |uttrs| && from <= |draws|
    requires PoolTokenized(pool) && SessionTokenized(uttrs) && DrawsInPool(draws, |pool|)
    ensures forall t :: from <= t < |draws| && AcceptedFrom(pool, uttrs, end, draws, t) ==>
      var sn := SampleNegative(pool, uttrs[end].tokenIds, draws, from);
      sn.Some? && sn.value <= t && AcceptedFrom(pool, uttrs, end + 1, draws, Later(sn.value + 1, t))
  {
    forall t | from <= t < |draws| && AcceptedFrom(pool, uttrs, end, draws, t)
      ensures SampleNegative(pool, uttrs[end].tokenIds, draws, from).Some?
      ensures SampleNegative(pool, uttrs[end].tokenIds, draws, from).value <= t
    {
      assert AreDifferentUttrs(uttrs[end].tokenIds, pool[draws[t]].tokenIds);
    }
  }

  /** Every draw from position `from` on passes the overlap test against
      every target from end index `end` on. */
  predicate AcceptedFrom(pool: seq<Utterance>, uttrs: seq<Utterance>, end: nat, draws: seq<nat>, from: nat)
  {
    forall j, e :: from <= j < |draws| && end <= e < |uttrs| ==>
      && draws[j] < |pool| && |uttrs[e].tokenIds| > 0 && |pool[draws[j]].tokenIds| > 0
      && AreDifferentUttrs(uttrs[e].tokenIds, pool[draws[j]].tokenIds)
  }

  /** Pool utterance k passes the overlap test against every target of
      `uttrs` from end index `end` on. */
  predicate PassesFrom(pool: seq<Utterance>, uttrs: seq<Utterance>, end: nat, k: nat)
  {
    && k < |pool|
    && forall e :: end <= e < |uttrs| ==>
      |uttrs[e].tokenIds| > 0 && |pool[k].tokenIds| > 0 && AreDifferentUttrs(uttrs[e].tokenIds, pool[k].tokenIds)
  }

  /** The later of two draw positions. */
  function Later(a: nat, b: nat): (c: nat)
    ensures a <= c && b <= c && (c == a || c == b)
  {
    if a < b then b else a
  }

  /** Every draw passes the overlap test against every target of every
      session. */
  predicate AcceptedInAll(pool: seq<Utterance>, sessions: seq<seq<Utterance>>, draws: seq<nat>)
  {
    forall s :: 0 <= s < |sessions| ==> AcceptedFrom(pool, sessions[s], 1, draws, 0)
  }

  /** Per-session pairs of every session, and the next unread draw. */
  datatype Built = Built(perSession: seq<seq<SegmentPair>>, next: nat)

  predicate AllSessionsTokenized(sessions: seq<seq<Utterance>>)
  {
    forall s :: 0 <= s < |sessions| ==> SessionTokenized(sessions[s])
  }

  /** The outer loop over sessions (lines 52-80), in session order. */
  function BuildAllPairs(pool: seq<Utterance>, sessions: seq<seq<Utterance>>, historyLen: nat, draws: seq<nat>): (r: Result<Built>)
    requires PoolTokenized(pool) && AllSessionsTokenized(sessions) && DrawsInPool(draws, |pool|)
    ensures r.Ok? ==> |r.value.perSession| == |sessions| && r.value.next <= |draws|
    ensures r.Ok? ==> AllPairsOk(pool, sessions, historyLen, r.value.perSession)
    ensures r.Err? ==> r.error.NegativeSamplingStarvation? && r.error.session < |sessions|
    ensures r.Err? ==> 1 <= r.error.end < |sessions[r.error.session]|
  {
    if |sessions| == 0 then Ok(Built([], 0))
    else
      var n := |sessions| - 1;
      assert AllSessionsTokenized(sessions[..n]);
      match BuildAllPairs(pool, sessions[..n], historyLen, draws)
      case Err(e) =>
        assert sessions[..n][e.session] == sessions[e.session];
        Err(e)
      case Ok(b) =>
        match BuildSessionPairs(pool, sessions[n], n, historyLen, 1, draws, b.next)
        case Err(e) => Err(e)
        case Ok(sb) =>
          AllPairsSnoc(pool, sessions, historyLen, b.perSession, sb.pairs);
          Ok(Built(b.perSession + [sb.pairs], sb.next))
  }

  /** When every draw is acceptable, building every session's pairs
      succeeds exactly when there is one draw per negative segment, and
      then reads exactly one draw per negative segment. */
  lemma {:induction false} BuildAllSucceeds(pool: seq<Utterance>, sessions: seq<seq<Utterance>>, historyLen: nat, draws: seq<nat>)
    requires PoolTokenized(pool) && AllSessionsTokenized(sessions) && DrawsInPool(draws, |pool|)
    requires AcceptedInAll(pool, sessions, draws)
    ensures var r := BuildAllPairs(pool, sessions, historyLen, draws);
      && (r.Ok? <==> SegmentTotal(sessions) <= 2 * |draws|)
      && (r.Ok? ==> 2 * r.value.next == SegmentTotal(sessions))
  {
    if |sessions| > 0 {
      var n := |sessions| - 1;
      assert AllSessionsTokenized(sessions[..n]);
      assert AcceptedInAll(pool, sessions[..n], draws) by {
        forall s | 0 <= s < n ensures AcceptedFrom(pool, sessions[..n][s], 1, draws, 0) {
          assert sessions[..n][s] == sessions[s];
        }
      }
      BuildAllSucceeds(pool, sessions[..n], historyLen, draws);
      SegmentTotalSnoc(sessions);
      var prev := BuildAllPairs(pool, sessions[..n], historyLen, draws);
      if prev.Ok? {
        assert AcceptedFrom(pool, sessions[n], 1, draws, prev.value.next);
      }
    }
  }

  /** The builders fail only by running out of draws. Suppose every draw
      from position t on passes the test against every target of every
      session, whatever the draws before t were. Then building succeeds
      once those draws number at least the negative segments to build, and
      it reads at most one draw per negative segment past t. */
  lemma {:induction false} BuildAllWithSpareDraws(pool: seq<Utterance>, sessions: seq<seq<Utterance>>, historyLen: nat,
                                                  draws: seq<nat>, t: nat)
    requires PoolTokenized(pool) && AllSessionsTokenized(sessions) && DrawsInPool(draws, |pool|) && t <= |draws|
    requires forall s :: 0 <= s < |sessions| ==> AcceptedFrom(pool, sessions[s], 1, draws, t)
    requires SegmentTotal(sessions) <= 2 * (|draws| - t)
    ensures var r := BuildAllPairs(pool, sessions, historyLen, draws);
      r.Ok? && 2 * r.value.next <= 2 * t + SegmentTotal(sessions)
  {
    if |sessions| > 0 {
      var n := |sessions| - 1;
      assert AllSessionsTokenized(sessions[..n]);
      forall s | 0 <= s < n ensures AcceptedFrom(pool, sessions[..n][s], 1, draws, t) {
        assert sessions[..n][s] == sessions[s];
      }
      SegmentTotalSnoc(sessions);
      BuildAllWithSpareDraws(pool, sessions[..n], historyLen, draws, t);
      var prev := BuildAllPairs(pool, sessions[..n], historyLen, draws);
      var resume := Later(prev.value.next, t);
      assert AcceptedFrom(pool, sessions[n], 1, draws, resume);
      assert BuildSessionPairs(pool, sessions[n], n, historyLen, 1, draws, prev.value.next).Ok?;
    }
  }

  /** Session s of `sessions` yields exactly the pairs `perSession[s]`. */
  predicate AllPairsOk(pool: seq<Utterance>, sessions: seq<seq<Utterance>>, historyLen: nat, perSession: seq<seq<SegmentPair>>)
  {
    |perSession| == |sessions| &&
    forall s :: 0 <= s < |sessions| ==> SessionPairsOk(pool, sessions[s], historyLen, perSession[s])
  }

  /** The pairs of one more session extend the per-session list. */
  lemma AllPairsSnoc(pool: seq<Utterance>, sessions: seq<seq<Utterance>>, historyLen: nat, prev: seq<seq<SegmentPair>>, last: seq<SegmentPair>)
    requires |sessions| > 0
    requires AllPairsOk(pool, sessions[..|sessions| - 1], historyLen, prev)
    requires SessionPairsOk(pool, sessions[|sessions| - 1], historyLen, last)
    ensures AllPairsOk(pool, sessions, historyLen, prev + [last])
  {
    var n := |sessions| - 1;
    forall s | 0 <= s < |sessions|
      ensures SessionPairsOk(pool, sessions[s], historyLen, (prev + [last])[s])
    {
      if s < n {
        assert sessions[s] == sessions[..n][s];
        assert (prev + [last])[s] == prev[s];
      }
    }
  }

  /** The flat segment list: each pair contributes its positive and then
      its negative, so a positive immediately precedes its negative. */
  function Unpair(pairs: seq<SegmentPair>): (segs: seq<Segment>)
    ensures |segs| == 2 * |pairs|
    ensures forall k :: 0 <= k < |pairs| ==> segs[2 * k] == pairs[k].positive && segs[2 * k + 1] == pairs[k].negative
  {
    if |pairs| == 0 then []
    else
      var rest := Unpair(pairs[1..]);
      var segs := [pairs[0].positive, pairs[0].negative] + rest;
      assert forall k :: 1 <= k < |pairs| ==> pairs[k] == pairs[1..][k - 1];
      assert forall m :: 2 <= m < |segs| ==> segs[m] == rest[m - 2];
      segs
  }

  /** Segment k of the flat list is the positive (k even) or the negative
      (k odd) of pair k / 2. */
  lemma UnpairAt(pairs: seq<SegmentPair>, k: nat)
    requires k < 2 * |pairs|
    ensures k / 2 < |pairs|
    ensures Unpair(pairs)[k] == if k % 2 == 0 then pairs[k / 2].positive else pairs[k / 2].negative
  {
    var m, odd := Halve(k);
    assert Unpair(pairs)[2 * m] == pairs[m].positive && Unpair(pairs)[2 * m + 1] == pairs[m].negative;
  }

  /** Segment k and, for an odd k, segment k - 1 both come from pair
      k / 2. */
  lemma PairOfSegment(pairs: seq<SegmentPair>, k: nat)
    requires k < 2 * |pairs|
    ensures k / 2 < |pairs|
    ensures k % 2 == 0 ==> Unpair(pairs)[k] == pairs[k / 2].positive
    ensures k % 2 == 1 ==> Unpair(pairs)[k] == pairs[k / 2].negative && Unpair(pairs)[k - 1] == pairs[k / 2].positive
  {
    var m, odd := Halve(k);
    var segs := Unpair(pairs);
    assert segs[2 * m] == pairs[m].positive && segs[2 * m + 1] == pairs[m].negative;
  }

  lemma Halve(k: nat) returns (m: nat, odd: bool)
    ensures k / 2 == m && (k % 2 == 1) == odd
    ensures k == if odd then 2 * m + 1 else 2 * m
  {
    m, odd := k / 2, k % 2 == 1;
  }

  /** Segments a collection of sessions yields: 2·(n-1) for a session of
      n >= 2 utterances, none for shorter ones. */
  function SegmentTotal<T>(sessions: seq<seq<T>>): nat
  {
    if |sessions| == 0 then 0 else 2 * PairCount(|sessions[0]|) + SegmentTotal(sessions[1..])
  }

  /** The segment count grows by the last session's segments. */
  lemma {:induction false} SegmentTotalSnoc<T>(ss: seq<seq<T>>)
    requires |ss| > 0
    ensures SegmentTotal(ss) == SegmentTotal(ss[..|ss| - 1]) + 2 * PairCount(|ss[|ss| - 1]|)
  {
    var n := |ss| - 1;
    if n > 0 {
      SegmentTotalSnoc(ss[1..]);
      assert ss[1..][..n - 1] == ss[..n][1..];
      assert ss[1..][n - 1] == ss[n];
      assert ss[..n][0] == ss[0];
    } else {
      assert ss[..n] == [];
    }
  }

  /** The segment count depends only on the session lengths. */
  lemma {:induction false} SegmentTotalOfShape<T, U>(ss: seq<seq<T>>, tt: seq<seq<U>>)
    requires SameShape(ss, tt)
    ensures SegmentTotal(ss) == SegmentTotal(tt)
  {
    if |ss| > 0 {
      assert SameShape(ss[1..], tt[1..]) by {
        forall i | 0 <= i < |ss[1..]| ensures |ss[1..][i]| == |tt[1..][i]| {
          assert ss[1..][i] == ss[i + 1];
          assert tt[1..][i] == tt[i + 1];
        }
      }
      SegmentTotalOfShape(ss[1..], tt[1..]);
    }
  }
}
