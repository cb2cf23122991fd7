/** The constructor of `DataSourceUnsupervised` as a whole: preprocessing,
    the utterance pool, the segment list and the statistics, and what holds
    of every data source it builds. */
module Corpora {
  import opened Results
  import opened Seqs
  import opened Utterances
  import opened NegativeSampling
  import opened Segments
  import opened Batching

  /** The configuration entries the core reads (`dataset_path` is stored
      and never used, so it is not represented). */
  datatype Config = Config(maxUttrLen: nat, historyLen: nat)

  /** `self.statistics`. */
  datatype Statistics = Statistics(nSessions: nat, nUttrs: nat, nTokens: nat, nSegments: nat)

  /** A constructed data source. `pairs` groups the segment list by session
      and end index; `segments` is `self._segments`; `padIds` are the ids
      of the padding utterance `next` builds from the tokenizer. */
  datatype Corpus = Corpus(
    sessions: seq<seq<Utterance>>,
    pool: seq<Utterance>,
    pairs: seq<seq<SegmentPair>>,
    segments: seq<Segment>,
    historyLen: nat,
    padIds: seq<int>,
    statistics: Statistics)
  {
    /** The pool is every utterance in session order, and the segments
        are, session by session and end index by end index, the positive
        and then the negative segment for that end index. */
    predicate Valid()
    {
      && NumberedSessions(sessions)
      && pool == Flatten(sessions)
      && AllPairsOk(pool, sessions, historyLen, pairs)
      && segments == Unpair(Flatten(pairs))
    }

    /** `__len__`. */
    function Len(): nat
    {
      |segments|
    }
  }

  /** Every preprocessed utterance has an id sequence of length >= 2, so
      the pool and the sessions qualify for negative sampling. */
  lemma {:induction false} PoolOfNumberedSessions(sessions: seq<seq<Utterance>>)
    requires NumberedSessions(sessions)
    ensures PoolTokenized(Flatten(sessions)) && AllSessionsTokenized(sessions)
  {
    forall k | 0 <= k < |Flatten(sessions)| ensures |Flatten(sessions)[k].tokenIds| > 0 {
      var s, i := FlattenIndex(sessions, k);
    }
  }

  /** One positive and one negative per end index: twice the pair count. */
  lemma {:induction false} SegmentCount<T>(pairs: seq<seq<SegmentPair>>, ss: seq<seq<T>>)
    requires |pairs| == |ss|
    requires forall s :: 0 <= s < |ss| ==> |pairs[s]| == PairCount(|ss[s]|)
    ensures 2 * TotalLength(pairs) == SegmentTotal(ss)
  {
    if |ss| > 0 {
      SegmentCount(pairs[1..], ss[1..]);
    }
  }

  /** `DataSourceUnsupervised(data, config, tokenizer)`, with `random.choice`
      drawing pool positions from `draws` in order. Fails on the first
      invalid floor label, or when the draws run out before a negative is
      found. */
  function Construct(raws: seq<RawSession>, cfg: Config, tok: Tokenizer, draws: seq<nat>): (r: Result<Corpus>)
    requires DrawsInPool(draws, TotalLength(raws))
    ensures (r.Err? && r.error.InvalidFloorLabel?) <==> !AllValidFloors(raws)
    ensures r.Err? ==> r.error.InvalidFloorLabel? || r.error.NegativeSamplingStarvation?
    ensures r.Ok? ==> r.value.Valid() && r.value.historyLen == cfg.historyLen && r.value.padIds == PaddingIds(tok)
    ensures r.Ok? ==> SameShape(r.value.sessions, raws)
    ensures r.Ok? ==> forall s, i :: 0 <= s < |raws| && 0 <= i < |raws[s]| ==>
      r.value.sessions[s][i] == PrepareUtterance(raws[s][i], UttrId(s, i), cfg.maxUttrLen, tok)
    ensures r.Ok? ==> |r.value.pool| == r.value.statistics.nUttrs == TotalLength(raws)
    ensures r.Ok? ==> r.value.Len() == r.value.statistics.nSegments == SegmentTotal(raws)
    ensures r.Ok? ==> r.value.statistics.nSessions == |raws|
    ensures r.Ok? ==> r.value.statistics.nTokens == TokenTotal(Flatten(raws))
  {
    match PreprocessSessions(raws, cfg.maxUttrLen, tok)
    case Err(e) => Err(e)
    case Ok(sessions) =>
      var pool := Flatten(sessions);
      FlattenLength(sessions);
      SameShapeTotalLength(sessions, raws);
      PoolOfNumberedSessions(sessions);
      match BuildAllPairs(pool, sessions, cfg.historyLen, draws)
      case Err(e) => Err(e)
      case Ok(b) =>
        var segments := Unpair(Flatten(b.perSession));
        FlattenLength(b.perSession);
        SegmentCount(b.perSession, raws);
        var stats := Statistics(|raws|, |pool|, TokenTotal(Flatten(raws)), |segments|);
        Ok(Corpus(sessions, pool, b.perSession, segments, cfg.historyLen, PaddingIds(tok), stats))
  }

  /** Construction fails only when the draws run out: with valid floor
      labels and every draw passing the overlap test against every target,
      it succeeds exactly when there is one draw per negative segment. */
  lemma ConstructSucceeds(raws: seq<RawSession>, cfg: Config, tok: Tokenizer, draws: seq<nat>)
    requires DrawsInPool(draws, TotalLength(raws)) && AllValidFloors(raws)
    requires var ss := PreprocessSessions(raws, cfg.maxUttrLen, tok).value;
      AcceptedInAll(Flatten(ss), ss, draws)
    ensures Construct(raws, cfg, tok, draws).Ok? <==> SegmentTotal(raws) <= 2 * |draws|
  {
    var ss := PreprocessSessions(raws, cfg.maxUttrLen, tok).value;
    FlattenLength(ss);
    SameShapeTotalLength(ss, raws);
    PoolOfNumberedSessions(ss);
    BuildAllSucceeds(Flatten(ss), ss, cfg.historyLen, draws);
    SegmentTotalOfShape(ss, raws);
  }

  /** Construction fails only by running out of draws: whatever the
      draws so far, appending one copy per negative segment of a pool
      utterance k that passes the overlap test against every target makes
      it succeed (given valid floor labels). */
  lemma ConstructWithSpareDraws(raws: seq<RawSession>, cfg: Config, tok: Tokenizer, draws: seq<nat>, k: nat, m: nat)
    requires DrawsInPool(draws, TotalLength(raws)) && AllValidFloors(raws) && k < TotalLength(raws)
    requires var ss := PreprocessSessions(raws, cfg.maxUttrLen, tok).value;
      forall s :: 0 <= s < |ss| ==> PassesFrom(Flatten(ss), ss[s], 1, k)
    requires SegmentTotal(raws) <= 2 * m
    ensures DrawsInPool(draws + seq(m, _ => k), TotalLength(raws))
    ensures Construct(raws, cfg, tok, draws + seq(m, _ => k)).Ok?
  {
    var ss := PreprocessSessions(raws, cfg.maxUttrLen, tok).value;
    var ds := draws + seq(m, _ => k);
    FlattenLength(ss);
    SameShapeTotalLength(ss, raws);
    PoolOfNumberedSessions(ss);
    assert DrawsInPool(ds, |Flatten(ss)|);
    forall s | 0 <= s < |ss| ensures AcceptedFrom(Flatten(ss), ss[s], 1, ds, |draws|) {
      assert PassesFrom(Flatten(ss), ss[s], 1, k);
    }
    SegmentTotalOfShape(ss, raws);
    BuildAllWithSpareDraws(Flatten(ss), ss, cfg.historyLen, ds, |draws|);
  }

  /** Pair m of the flattened pair list is the pair of some session s for
      some end index. */
  lemma PairOrigin(c: Corpus, m: nat) returns (s: nat, end: nat)
    requires c.Valid() && m < |Flatten(c.pairs)|
    ensures s < |c.sessions| && 1 <= end < |c.sessions[s]|
    ensures PairFor(Flatten(c.pairs)[m], c.pool, c.sessions[s], end, c.historyLen)
  {
    s, end := FlatPairOrigin(c.pool, c.sessions, c.historyLen, c.pairs, m);
  }

  lemma FlatPairOrigin(pool: seq<Utterance>, sessions: seq<seq<Utterance>>, historyLen: nat, pairs: seq<seq<SegmentPair>>, m: nat) returns (s: nat, end: nat)
    requires AllPairsOk(pool, sessions, historyLen, pairs) && m < |Flatten(pairs)|
    ensures s < |sessions| && 1 <= end < |sessions[s]|
    ensures PairFor(Flatten(pairs)[m], pool, sessions[s], end, historyLen)
  {
    var i;
    s, i := FlattenIndex(pairs, m);
    end := i + 1;
    assert SessionPairsOk(pool, sessions[s], historyLen, pairs[s]);
    PairsFromIndexed(pairs[s], pool, sessions[s], 1, historyLen);
  }

  /** Where segment k of a data source comes from: the end index `end` of
      session s. An even k is that end index's positive, an odd k its
      negative, preceded by the matching positive. */
  lemma SegmentOrigin(c: Corpus, k: nat) returns (s: nat, end: nat)
    requires c.Valid() && k < |c.segments|
    ensures s < |c.sessions| && 1 <= end < |c.sessions[s]|
    ensures k % 2 == 0 ==> IsPositiveFor(c.segments[k], c.sessions[s], end, c.historyLen)
    ensures k % 2 == 1 ==> IsNegativeFor(c.segments[k], c.pool, c.sessions[s], end, c.historyLen)
    ensures k % 2 == 1 ==> IsPositiveFor(c.segments[k - 1], c.sessions[s], end, c.historyLen)
  {
    PairOfSegment(Flatten(c.pairs), k);
    s, end := PairOrigin(c, k / 2);
  }

  /** Segments alternate: even positions hold true next utterances as
      targets, odd positions sampled negatives. */
  lemma Alternation(c: Corpus, k: nat)
    requires c.Valid() && k < |c.segments|
    ensures |c.segments[k].utterances| > 0
    ensures c.segments[k].Target().isNext <==> k % 2 == 0
  {
    var s, end := SegmentOrigin(c, k);
    assert Preprocessed(c.sessions[s][end]);
  }

  /** A positive segment holds at most historyLen context utterances and
      at least one when historyLen >= 1; its target is a true next
      utterance that refers to itself. */
  lemma PositiveWindow(c: Corpus, k: nat)
    requires c.Valid() && k < |c.segments| && k % 2 == 0
    ensures c.historyLen >= 1 ==> 2 <= |c.segments[k].utterances|
    ensures 1 <= |c.segments[k].utterances| <= c.historyLen + 1
    ensures c.segments[k].Target().isNext
    ensures c.segments[k].Target().ref == Some(c.segments[k].Target().id)
  {
    var s, end := SegmentOrigin(c, k);
    assert Preprocessed(c.sessions[s][end]);
  }

  /** A negative has the length and context of the positive right before
      it, is not a true next utterance, refers to the same true target,
      passes the overlap test against it, and so has a different id set. */
  lemma NegativeFollowsPositive(c: Corpus, k: nat)
    requires c.Valid() && k < |c.segments| && k % 2 == 1
    ensures |c.segments[k].utterances| == |c.segments[k - 1].utterances| > 0
    ensures c.segments[k].Context() == c.segments[k - 1].Context()
    ensures !c.segments[k].Target().isNext
    ensures c.segments[k].Target().ref == c.segments[k - 1].Target().ref
    ensures |c.segments[k - 1].Target().tokenIds| > 0 && |c.segments[k].Target().tokenIds| > 0
    ensures AreDifferentUttrs(c.segments[k - 1].Target().tokenIds, c.segments[k].Target().tokenIds)
    ensures IdSet(c.segments[k].Target().tokenIds) != IdSet(c.segments[k - 1].Target().tokenIds)
  {
    var s, end := SegmentOrigin(c, k);
    var pos, neg := c.segments[k - 1].Target(), c.segments[k].Target();
    assert pos.tokenIds == c.sessions[s][end].tokenIds;
    if IdSet(neg.tokenIds) == IdSet(pos.tokenIds) {
      SameIdSetRejected(pos.tokenIds, neg.tokenIds);
    }
  }

  /** Every segment of a data source can be served by `next`: it has
      between 1 and historyLen + 1 utterances and its reference resolves
      to the utterance at its end index. */
  lemma SegmentsServable(c: Corpus)
    requires c.Valid()
    ensures NonEmptySegments(c.segments)
    ensures AllServable(c.segments, c.sessions, c.historyLen)
  {
    forall k | 0 <= k < |c.segments|
      ensures |c.segments[k].utterances| > 0 && Servable(c.segments[k], c.sessions, c.historyLen)
    {
      var s, end := SegmentOrigin(c, k);
      assert c.sessions[s][end].id == UttrId(s, end);
    }
  }

  /** `Y_ref` of a segment: for a positive, its own target's ids; for a
      negative, the ids of the positive target right before it. */
  lemma ReferenceIds(c: Corpus, k: nat)
    requires c.Valid() && k < |c.segments|
    ensures AllServable(c.segments, c.sessions, c.historyLen)
    ensures k % 2 == 0 ==> RefIds(c.segments[k], c.sessions, c.historyLen) == c.segments[k].Target().tokenIds
    ensures k % 2 == 1 ==> RefIds(c.segments[k], c.sessions, c.historyLen) == c.segments[k - 1].Target().tokenIds
  {
    SegmentsServable(c);
    var s, end := SegmentOrigin(c, k);
    assert c.sessions[s][end].id == UttrId(s, end);
  }

  /** `__len__` equals the segment count 2·(n-1) summed over sessions of
      n >= 2 utterances. */
  lemma SegmentCountOfValid(c: Corpus)
    requires c.Valid()
    ensures c.Len() == SegmentTotal(c.sessions)
  {
    FlattenLength(c.pairs);
    SegmentCount(c.pairs, c.sessions);
  }

  /** In paired mode, the first k segments of the constructed order yield
      k / 2 samples: exactly the negatives. */
  lemma {:induction false} PairedTakesNegatives(c: Corpus, k: nat)
    requires c.Valid() && k <= |c.segments|
    ensures NonEmptySegments(c.segments[..k])
    ensures |Accepted(c.segments[..k], true)| == k / 2
  {
    if k > 0 {
      var prefix, seg := c.segments[..k - 1], c.segments[k - 1];
      PairedTakesNegatives(c, k - 1);
      assert c.segments[..k] == prefix + [seg];
      Alternation(c, k - 1);
      AcceptedSnoc(prefix, seg, true);
      var m, odd := Halve(k - 1);
      var n, odd' := Halve(k);
      assert Accepts(seg, true) == odd;
    }
  }
}
