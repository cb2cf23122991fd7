/** The serving side of `DataSourceUnsupervised`: `epoch_init`, `__len__`
    and `next`. The object's mutable cursor and segment order are a value
    that each call takes and returns. */
module DataSources {
  import opened Results
  import opened Seqs
  import opened Utterances
  import opened Segments
  import opened Batching
  import opened Corpora
  import opened Shuffling

  /** A data source between calls: the constructed corpus, the segment
      order of the current epoch (`self.segments`) and the cursor
      (`self.cur_segment_idx`). */
  datatype Loader = Loader(corpus: Corpus, order: seq<Segment>, cursor: nat)

  /** The epoch order is a rearrangement of the constructed segments and
      the cursor lies within it. */
  predicate LoaderValid(l: Loader)
  {
    && l.corpus.Valid()
    && multiset(l.order) == multiset(l.corpus.segments)
    && l.cursor <= |l.order|
  }

  /** `__len__`: the number of constructed segments, whatever the epoch. */
  function Len(l: Loader): (n: nat)
    requires LoaderValid(l)
    ensures n == |l.order| == SegmentTotal(l.corpus.sessions)
  {
    SegmentCountOfValid(l.corpus);
    assert |multiset(l.order)| == |multiset(l.corpus.segments)|;
    l.corpus.Len()
  }

  /** `epoch_init(shuffle)`: the cursor goes back to 0; the order is the
      constructed one, or a shuffled copy of it. */
  function EpochInit(c: Corpus, shuffle: bool, swaps: seq<nat>): (l: Loader)
    requires c.Valid()
    requires shuffle ==> ValidSwaps(swaps, |c.segments|)
    ensures LoaderValid(l) && l.corpus == c && l.cursor == 0
    ensures !shuffle ==> l.order == c.segments
    ensures shuffle ==> l.order == Shuffle(c.segments, swaps)
  {
    Loader(c, if shuffle then Shuffle(c.segments, swaps) else c.segments, 0)
  }

  /** Whatever the epoch order, every segment in it can be served. */
  lemma OrderServable(l: Loader)
    requires LoaderValid(l)
    ensures NonEmptySegments(l.order) && AllServable(l.order, l.corpus.sessions, l.corpus.historyLen)
  {
    SegmentsServable(l.corpus);
    forall k | 0 <= k < |l.order|
      ensures |l.order[k].utterances| > 0 && Servable(l.order[k], l.corpus.sessions, l.corpus.historyLen)
    {
      assert l.order[k] in multiset(l.corpus.segments);
      var i :| 0 <= i < |l.corpus.segments| && l.corpus.segments[i] == l.order[k];
    }
  }

  /** After moving over segs[cursor..j] the batch does not yet hold
      `batchSize` samples, so the loop goes on. */
  predicate NotFull(segs: seq<Segment>, cursor: nat, j: nat, batchSize: int, pairedY: bool)
  {
    && cursor <= j <= |segs|
    && NonEmptySegments(segs[cursor..j])
    && |Accepted(segs[cursor..j], pairedY)| != batchSize
  }

  /** The state of the loop of `next` after moving the cursor from
      `cursor` to `next`: the batch is the collation of the segments
      accepted so far, and it was not full at any earlier position. */
  predicate DrainInv(segs: seq<Segment>, cursor: nat, next: nat, batchSize: int, pairedY: bool,
                     sessions: seq<seq<Utterance>>, historyLen: nat, padIds: seq<int>, b: Batch)
  {
    && cursor <= next <= |segs| && NonEmptySegments(segs) && AllServable(segs, sessions, historyLen)
    && NonEmptySegments(segs[cursor..next])
    && AllServable(Accepted(segs[cursor..next], pairedY), sessions, historyLen)
    && b == Collate(Accepted(segs[cursor..next], pairedY), sessions, historyLen, padIds)
    && (batchSize >= 0 ==> |b.y| <= batchSize)
    && (forall j :: cursor <= j < next ==> NotFull(segs, cursor, j, batchSize, pairedY))
  }

  /** The loop of lines 131-162: starting at `cursor`, take segments until
      the batch holds `batchSize` samples or the order is exhausted; skip
      true next targets in paired mode (the skipped ones still advance the
      cursor). */
  method Drain(segs: seq<Segment>, cursor: nat, batchSize: int, pairedY: bool,
               sessions: seq<seq<Utterance>>, historyLen: nat, padIds: seq<int>)
    returns (b: Batch, next: nat)
    requires cursor <= |segs| && NonEmptySegments(segs) && AllServable(segs, sessions, historyLen)
    ensures cursor <= next <= |segs|
    ensures NonEmptySegments(segs[cursor..next])
    ensures AllServable(Accepted(segs[cursor..next], pairedY), sessions, historyLen)
    ensures b == Collate(Accepted(segs[cursor..next], pairedY), sessions, historyLen, padIds)
    ensures next == |segs| || |b.y| == batchSize
    ensures batchSize >= 0 ==> |b.y| <= batchSize
    ensures forall j :: cursor <= j < next ==> NotFull(segs, cursor, j, batchSize, pairedY)
  {
    b, next := NoSamples, cursor;
    assert segs[cursor..next] == [];
    while next < |segs|
      invariant DrainInv(segs, cursor, next, batchSize, pairedY, sessions, historyLen, padIds, b)
    {
      if |b.y| == batchSize {
        break;
      }
      b, next := DrainOne(segs, cursor, next, batchSize, pairedY, sessions, historyLen, padIds, b);
    }
  }

  /** One pass of the loop body (lines 135-162): move the cursor over the
      next segment and, unless paired mode skips it, add it as a sample. */
  method DrainOne(segs: seq<Segment>, cursor: nat, next: nat, batchSize: int, pairedY: bool,
                  sessions: seq<seq<Utterance>>, historyLen: nat, padIds: seq<int>, b: Batch)
    returns (b': Batch, next': nat)
    requires DrainInv(segs, cursor, next, batchSize, pairedY, sessions, historyLen, padIds, b)
    requires next < |segs| && |b.y| != batchSize
    ensures next' == next + 1
    ensures DrainInv(segs, cursor, next', batchSize, pairedY, sessions, historyLen, padIds, b')
  {
    var seg := segs[next];
    DrainStep(segs, cursor, next, batchSize, pairedY, sessions, historyLen, padIds, b);
    next' := next + 1;
    if pairedY && seg.Target().isNext {
      b' := b;
    } else {
      b' := AppendSample(b, seg, sessions, historyLen, padIds);
    }
  }

  lemma SliceSnoc<T>(s: seq<T>, i: nat, j: nat)
    requires i <= j < |s|
    ensures s[i..j + 1] == s[i..j] + [s[j]]
  {
  }

  /** One iteration of the loop of `next` keeps its invariant: an
      accepted segment adds one sample, a skipped one none. */
  lemma DrainStep(segs: seq<Segment>, cursor: nat, next: nat, batchSize: int, pairedY: bool,
                  sessions: seq<seq<Utterance>>, historyLen: nat, padIds: seq<int>, b: Batch)
    requires DrainInv(segs, cursor, next, batchSize, pairedY, sessions, historyLen, padIds, b)
    requires next < |segs| && |b.y| != batchSize
    ensures Servable(segs[next], sessions, historyLen)
    ensures DrainInv(segs, cursor, next + 1, batchSize, pairedY, sessions, historyLen, padIds,
      if Accepts(segs[next], pairedY) then AddSample(b, segs[next], sessions, historyLen, padIds) else b)
  {
    SliceSnoc(segs, cursor, next);
    CollateStep(segs[cursor..next], segs[next], pairedY, sessions, historyLen, padIds);
    NotFullYet(segs, cursor, next, batchSize, pairedY);
  }

  /** The batch was not full at any cursor position up to `next`. */
  lemma NotFullYet(segs: seq<Segment>, cursor: nat, next: nat, batchSize: int, pairedY: bool)
    requires cursor <= next < |segs| && NonEmptySegments(segs)
    requires forall j :: cursor <= j < next ==> NotFull(segs, cursor, j, batchSize, pairedY)
    requires NotFull(segs, cursor, next, batchSize, pairedY)
    ensures forall j :: cursor <= j < next + 1 ==> NotFull(segs, cursor, j, batchSize, pairedY)
  {
  }

  /** Lines 143-162 for one accepted segment: its context ids, then
      `historyLen - len + 1` padding entries, go to X; its target goes to
      the Y lists. */
  method AppendSample(b: Batch, seg: Segment, sessions: seq<seq<Utterance>>, historyLen: nat, padIds: seq<int>)
    returns (b': Batch)
    requires Servable(seg, sessions, historyLen)
    ensures b' == AddSample(b, seg, sessions, historyLen, padIds)
  {
    var uttrs := seg.utterances;
    var x, xFloor := b.x, b.xFloor;
    var i := 0;
    while i < |uttrs| - 1
      invariant 0 <= i <= |uttrs| - 1
      invariant x == b.x + TokenIdsOf(uttrs[..i]) && xFloor == b.xFloor + FloorIdsOf(uttrs[..i])
    {
      x, xFloor := x + [uttrs[i].tokenIds], xFloor + [uttrs[i].floorId];
      i := i + 1;
    }
    assert uttrs[..i] == seg.Context();
    var pad := 0;
    while pad < historyLen - |uttrs| + 1
      invariant 0 <= pad <= PaddingCount(|uttrs|, historyLen)
      invariant x == b.x + TokenIdsOf(seg.Context()) + Repeat(padIds, pad)
      invariant xFloor == b.xFloor + FloorIdsOf(seg.Context()) + Repeat(0, pad)
    {
      x, xFloor := x + [padIds], xFloor + [0];
      pad := pad + 1;
    }
    var t := seg.Target();
    b' := Batch(x, xFloor, b.y + [t.tokenIds], b.yFloor + [t.floorId], b.yIsNext + [t.isNext],
                b.yRef + [RefIds(seg, sessions, historyLen)]);
  }

  /** `next(batch_size, return_paired_Y)`: None once the cursor has reached
      the end of the epoch; otherwise the batch of the segments it moved
      over, which is an error when it holds no sample. */
  method Next(l: Loader, batchSize: int, pairedY: bool) returns (r: Option<Result<Batch>>, l': Loader)
    requires LoaderValid(l)
    ensures l' == l.(cursor := l'.cursor) && l.cursor <= l'.cursor <= |l.order|
    ensures r.None? <==> l.cursor == |l.order|
    ensures r.None? ==> l'.cursor == l.cursor
    ensures r.Some? && batchSize != 0 ==> l'.cursor > l.cursor
    ensures r.Some? ==>
      var taken := l.order[l.cursor..l'.cursor];
      && NonEmptySegments(taken)
      && AllServable(Accepted(taken, pairedY), l.corpus.sessions, l.corpus.historyLen)
      && (r.value.Err? <==> |Accepted(taken, pairedY)| == 0)
      && (r.value.Err? ==> r.value.error == EmptyBatch)
      && (r.value.Ok? ==> r.value.value == Collate(Accepted(taken, pairedY), l.corpus.sessions, l.corpus.historyLen, l.corpus.padIds))
      && (l'.cursor == |l.order| || |Accepted(taken, pairedY)| == batchSize)
      && (batchSize >= 0 ==> |Accepted(taken, pairedY)| <= batchSize)
    ensures forall j :: l.cursor <= j < l'.cursor ==>
      NotFull(l.order, l.cursor, j, batchSize, pairedY)
  {
    if l.cursor == |l.order| {
      return None, l;
    }
    OrderServable(l);
    var b, next := Drain(l.order, l.cursor, batchSize, pairedY, l.corpus.sessions, l.corpus.historyLen, l.corpus.padIds);
    l' := l.(cursor := next);
    if |b.y| == 0 {
      r := Some(Err(EmptyBatch));
    } else {
      r := Some(Ok(b));
    }
  }

  /** Moving the cursor within the order keeps a data source valid. */
  lemma MovedCursor(l: Loader, cursor: nat)
    requires LoaderValid(l) && cursor <= |l.order|
    ensures LoaderValid(l.(cursor := cursor))
  {
  }

  /** `next` as its comment says it should behave: None once no sample
      is left to emit. It differs from Next only when a call with
      `batchSize != 0` reaches the end of the order without accepting a
      segment, where Next reports EmptyBatch (Python divides by zero). */
  method NextOrDone(l: Loader, batchSize: int, pairedY: bool) returns (r: Option<Result<Batch>>, l': Loader)
    requires LoaderValid(l)
    ensures l' == l.(cursor := l'.cursor) && l.cursor <= l'.cursor <= |l.order|
    ensures NonEmptySegments(l.order[l.cursor..])
    ensures r.None? <==> l.cursor == |l.order| || (batchSize != 0 && |Accepted(l.order[l.cursor..], pairedY)| == 0)
    ensures r.None? ==> l'.cursor == |l.order|
    ensures (r.Some? && r.value.Err?) <==> batchSize == 0 && l.cursor < |l.order|
    ensures r.Some? && r.value.Err? ==> r.value.error == EmptyBatch && l'.cursor == l.cursor
    ensures r.Some? && r.value.Ok? ==>
      var taken := l.order[l.cursor..l'.cursor];
      && l'.cursor > l.cursor
      && NonEmptySegments(taken)
      && AllServable(Accepted(taken, pairedY), l.corpus.sessions, l.corpus.historyLen)
      && r.value.value == Collate(Accepted(taken, pairedY), l.corpus.sessions, l.corpus.historyLen, l.corpus.padIds)
      && |r.value.value.y| > 0
      && (l'.cursor == |l.order| || |r.value.value.y| == batchSize)
  {
    OrderServable(l);
    SuffixNonEmpty(l.order, l.cursor);
    if l.cursor == |l.order| {
      return None, l;
    }
    var b, next := Drain(l.order, l.cursor, batchSize, pairedY, l.corpus.sessions, l.corpus.historyLen, l.corpus.padIds);
    l' := l.(cursor := next);
    RemainingAccepted(l.order, l.cursor, next, pairedY);
    ZeroBatchStaysPut(l.order, l.cursor, next, batchSize, pairedY);
    if |b.y| == 0 && next == |l.order| {
      r := None;
    } else if |b.y| == 0 {
      r := Some(Err(EmptyBatch));
    } else {
      r := Some(Ok(b));
    }
  }

  /** `next` under the other reading of its comment: a call that moves
      over segments but accepts none returns an empty batch, and None is
      kept for a cursor already at the end. It differs from Next only
      where Next reports EmptyBatch (Python divides by zero). */
  method NextOrEmpty(l: Loader, batchSize: int, pairedY: bool) returns (r: Option<Batch>, l': Loader)
    requires LoaderValid(l)
    ensures l' == l.(cursor := l'.cursor) && l.cursor <= l'.cursor <= |l.order|
    ensures r.None? <==> l.cursor == |l.order|
    ensures r.None? ==> l'.cursor == l.cursor
    ensures r.Some? ==>
      var taken := l.order[l.cursor..l'.cursor];
      && NonEmptySegments(taken)
      && AllServable(Accepted(taken, pairedY), l.corpus.sessions, l.corpus.historyLen)
      && r.value == Collate(Accepted(taken, pairedY), l.corpus.sessions, l.corpus.historyLen, l.corpus.padIds)
      && (l'.cursor == |l.order| || |r.value.y| == batchSize)
      && (batchSize >= 0 ==> |r.value.y| <= batchSize)
    ensures r.Some? && |r.value.y| == 0 ==> r.value == NoSamples
  {
    var res;
    res, l' := Next(l, batchSize, pairedY);
    if res.None? {
      r := None;
    } else if res.value.Err? {
      r := Some(NoSamples);
    } else {
      r := Some(res.value.value);
    }
  }

  /** With batch size 0 the loop stops before taking any segment. */
  lemma ZeroBatchStaysPut(segs: seq<Segment>, cursor: nat, next: nat, batchSize: int, pairedY: bool)
    requires NonEmptySegments(segs) && cursor <= next <= |segs|
    requires forall j :: cursor <= j < next ==> NotFull(segs, cursor, j, batchSize, pairedY)
    ensures batchSize == 0 ==> next == cursor
  {
    if next > cursor {
      assert NotFull(segs, cursor, cursor, batchSize, pairedY);
      assert segs[cursor..cursor] == [];
    }
  }

  /** The segments a call moved over are a prefix of those left, so it
      accepted no more than remain. */
  lemma RemainingAccepted(segs: seq<Segment>, cursor: nat, next: nat, pairedY: bool)
    requires NonEmptySegments(segs) && cursor <= next <= |segs|
    ensures NonEmptySegments(segs[cursor..]) && NonEmptySegments(segs[cursor..next])
    ensures |Accepted(segs[cursor..next], pairedY)| <= |Accepted(segs[cursor..], pairedY)|
    ensures next == |segs| ==> segs[cursor..next] == segs[cursor..]
  {
    SuffixNonEmpty(segs, cursor);
    assert segs[cursor..][..next - cursor] == segs[cursor..next];
    AcceptedPrefixLength(segs[cursor..], pairedY, next - cursor);
  }

  lemma SuffixNonEmpty(segs: seq<Segment>, i: nat)
    requires NonEmptySegments(segs) && i <= |segs|
    ensures NonEmptySegments(segs[i..])
  {
    assert forall k :: 0 <= k < |segs| - i ==> segs[i..][k] == segs[i + k];
  }

  /** An even-length order over which paired mode with batch size
      |order| / 2 fills its batch exactly at the second-to-last segment
      and finds nothing in the last. */
  predicate PairedTail(order: seq<Segment>)
  {
    && |order| >= 2 && |order| % 2 == 0 && NonEmptySegments(order)
    && (forall j :: 0 <= j < |order| - 1 ==> NonEmptySegments(order[0..j]) && |Accepted(order[0..j], true)| < |order| / 2)
    && NonEmptySegments(order[0..|order| - 1]) && |Accepted(order[0..|order| - 1], true)| == |order| / 2
    && NonEmptySegments(order[|order| - 1..|order|]) && |Accepted(order[|order| - 1..|order|], true)| == 0
  }

  /** The order a shuffle gives when it exchanges only the last two
      segments: the first |order| - 1 segments hold |order| / 2
      negatives, every shorter prefix fewer, and the last segment is a
      positive. */
  lemma TailSwappedCounts(c: Corpus, order: seq<Segment>)
    requires c.Valid() && |c.segments| >= 2
    requires order == c.segments[..|c.segments| - 2] + [c.segments[|c.segments| - 1], c.segments[|c.segments| - 2]]
    ensures |order| == |c.segments| && PairedTail(order)
  {
    var n := |c.segments|;
    assert |c.segments| == 2 * |Flatten(c.pairs)|;
    assert order[..n - 2] == c.segments[..n - 2];
    forall j | 0 <= j < n - 1
      ensures NonEmptySegments(order[0..j]) && |Accepted(order[0..j], true)| < n / 2
    {
      TailPrefix(c, order, j);
    }
    TailEnds(c, order);
  }

  /** A prefix of the swapped order that stops before the swapped pair
      is a prefix of the constructed order. */
  lemma TailPrefix(c: Corpus, order: seq<Segment>, j: nat)
    requires c.Valid() && |c.segments| >= 2 && |c.segments| % 2 == 0 && j < |c.segments| - 1
    requires |order| == |c.segments| && order[..|c.segments| - 2] == c.segments[..|c.segments| - 2]
    ensures j <= |order| && NonEmptySegments(order[0..j]) && |Accepted(order[0..j], true)| < |c.segments| / 2
  {
    assert order[0..j] == c.segments[..j];
    PairedTakesNegatives(c, j);
  }

  /** The swapped pair: the negative completes the count, the positive
      after it is never accepted. */
  lemma TailEnds(c: Corpus, order: seq<Segment>)
    requires c.Valid() && |c.segments| >= 2 && |c.segments| % 2 == 0
    requires order == c.segments[..|c.segments| - 2] + [c.segments[|c.segments| - 1], c.segments[|c.segments| - 2]]
    ensures NonEmptySegments(order)
    ensures NonEmptySegments(order[0..|order| - 1]) && |Accepted(order[0..|order| - 1], true)| == |order| / 2
    ensures NonEmptySegments(order[|order| - 1..|order|]) && |Accepted(order[|order| - 1..|order|], true)| == 0
  {
    var n := |c.segments|;
    TailFacts(c);
    TailEndsOf(order, c.segments[..n - 2], c.segments[n - 1], c.segments[n - 2], n / 2 - 1);
  }

  /** What the constructed order says about its last two segments and the
      prefix before them. */
  lemma TailFacts(c: Corpus)
    requires c.Valid() && |c.segments| >= 2 && |c.segments| % 2 == 0
    ensures var n := |c.segments|;
      && NonEmptySegments(c.segments[..n - 2]) && |Accepted(c.segments[..n - 2], true)| == n / 2 - 1
      && |c.segments[n - 1].utterances| > 0 && !c.segments[n - 1].Target().isNext
      && |c.segments[n - 2].utterances| > 0 && c.segments[n - 2].Target().isNext
  {
    var n := |c.segments|;
    PairedTakesNegatives(c, n - 2);
    Alternation(c, n - 1);
    Alternation(c, n - 2);
    EvenArith(n);
  }

  /** prefix, a negative, then a positive: the first |order| - 1 segments
      accept one more than the prefix, the last one accepts nothing. */
  lemma TailEndsOf(order: seq<Segment>, prefix: seq<Segment>, neg: Segment, pos: Segment, m: nat)
    requires order == prefix + [neg, pos]
    requires NonEmptySegments(prefix) && |Accepted(prefix, true)| == m
    requires |neg.utterances| > 0 && !neg.Target().isNext
    requires |pos.utterances| > 0 && pos.Target().isNext
    ensures NonEmptySegments(order)
    ensures NonEmptySegments(order[0..|order| - 1]) && |Accepted(order[0..|order| - 1], true)| == m + 1
    ensures NonEmptySegments(order[|order| - 1..|order|]) && |Accepted(order[|order| - 1..|order|], true)| == 0
  {
    NegativeCompletes(prefix, neg, m);
    PositiveSkipped(pos);
    SplitLastTwo(order, prefix, neg, pos);
    assert order == (prefix + [neg]) + [pos];
  }

  lemma EvenArith(n: nat)
    requires n >= 2 && n % 2 == 0
    ensures (n - 2) / 2 == n / 2 - 1 && (n - 2) % 2 == 0 && (n - 1) % 2 == 1
  {
  }

  /** Appending a negative to a prefix adds one sample in paired mode. */
  lemma NegativeCompletes(prefix: seq<Segment>, neg: Segment, m: nat)
    requires NonEmptySegments(prefix) && |Accepted(prefix, true)| == m
    requires |neg.utterances| > 0 && !neg.Target().isNext
    ensures NonEmptySegments(prefix + [neg]) && |Accepted(prefix + [neg], true)| == m + 1
  {
    AcceptedSnoc(prefix, neg, true);
  }

  /** A lone positive segment is skipped in paired mode. */
  lemma PositiveSkipped(pos: Segment)
    requires |pos.utterances| > 0 && pos.Target().isNext
    ensures NonEmptySegments([pos]) && |Accepted([pos], true)| == 0
  {
    AcceptedSnoc([], pos, true);
    assert [] + [pos] == [pos];
  }

  lemma SplitLastTwo<T>(order: seq<T>, prefix: seq<T>, a: T, b: T)
    requires order == prefix + [a, b]
    ensures order[0..|order| - 1] == prefix + [a] && order[|order| - 1..|order|] == [b]
  {
  }

  /** Paired mode over a shuffled epoch whose shuffle exchanged the last
      two segments: a first call with batch size |order| / 2 emits every
      negative and stops just before the final positive. */
  method PairedFirstCall(c: Corpus, swaps: seq<nat>) returns (first: Option<Result<Batch>>, l1: Loader)
    requires c.Valid() && |c.segments| >= 2
    requires ValidSwaps(swaps, |c.segments|)
    requires forall i :: 0 <= i < |c.segments| - 1 ==> swaps[i] == i
    requires swaps[|c.segments| - 1] == |c.segments| - 2
    ensures first.Some? && first.value.Ok? && |first.value.value.y| == |c.segments| / 2
    ensures LoaderValid(l1) && l1.corpus == c && |l1.order| == |c.segments| && l1.cursor == |c.segments| - 1
    ensures NonEmptySegments(l1.order[l1.cursor..]) && |Accepted(l1.order[l1.cursor..], true)| == 0
  {
    var l := EpochInit(c, true, swaps);
    ShuffledTail(c, swaps);
    var order := l.order;
    first, l1 := Next(l, |order| / 2, true);
    MovedCursor(l, l1.cursor);
    FirstCallStops(order, l1.cursor);
  }

  /** The shuffle that exchanges only the last two segments gives a
      PairedTail order. */
  lemma ShuffledTail(c: Corpus, swaps: seq<nat>)
    requires c.Valid() && |c.segments| >= 2
    requires ValidSwaps(swaps, |c.segments|)
    requires forall i :: 0 <= i < |c.segments| - 1 ==> swaps[i] == i
    requires swaps[|c.segments| - 1] == |c.segments| - 2
    ensures |Shuffle(c.segments, swaps)| == |c.segments| && PairedTail(Shuffle(c.segments, swaps))
  {
    ShuffleLastTwo(c.segments, swaps);
    TailSwappedCounts(c, Shuffle(c.segments, swaps));
  }


  /** Where the first call stops, given the accepted counts of every
      prefix. */
  lemma FirstCallStops(order: seq<Segment>, cursor: nat)
    requires PairedTail(order) && cursor <= |order|
    requires forall j :: 0 <= j < cursor ==> NotFull(order, 0, j, |order| / 2, true)
    requires cursor == |order| || (NonEmptySegments(order[0..cursor]) && |Accepted(order[0..cursor], true)| == |order| / 2)
    ensures cursor == |order| - 1
    ensures NonEmptySegments(order[cursor..]) && |Accepted(order[cursor..], true)| == 0
  {
    var k := |order| - 1;
    assert !NotFull(order, 0, k, |order| / 2, true);
    assert order[k..] == order[k..|order|];
  }

  /** After that first call, one more call moves over the final positive
      alone: as written it finds no sample and reports EmptyBatch (Python
      divides by zero), where the corrected NextOrDone ends the epoch. */
  method PairedEpochTail(c: Corpus, swaps: seq<nat>)
    returns (first: Option<Result<Batch>>, second: Option<Result<Batch>>, secondCorrected: Option<Result<Batch>>)
    requires c.Valid() && |c.segments| >= 2
    requires ValidSwaps(swaps, |c.segments|)
    requires forall i :: 0 <= i < |c.segments| - 1 ==> swaps[i] == i
    requires swaps[|c.segments| - 1] == |c.segments| - 2
    ensures first.Some? && first.value.Ok? && |first.value.value.y| == |c.segments| / 2
    ensures second == Some(Err(EmptyBatch))
    ensures secondCorrected.None?
  {
    var n := |c.segments|;
    var l1, l2, l2';
    first, l1 := PairedFirstCall(c, swaps);
    second, l2 := Next(l1, n / 2, true);
    assert l1.order[l1.cursor..l2.cursor] == l1.order[l1.cursor..];
    secondCorrected, l2' := NextOrDone(l1, n / 2, true);
  }

  /** The same second call under the empty-batch reading: NextOrEmpty
      moves over the final positive and returns the empty batch. */
  method PairedEpochTailEmpty(c: Corpus, swaps: seq<nat>) returns (second: Option<Batch>)
    requires c.Valid() && |c.segments| >= 2
    requires ValidSwaps(swaps, |c.segments|)
    requires forall i :: 0 <= i < |c.segments| - 1 ==> swaps[i] == i
    requires swaps[|c.segments| - 1] == |c.segments| - 2
    ensures second == Some(NoSamples)
  {
    var first, l1 := PairedFirstCall(c, swaps);
    var l2;
    second, l2 := NextOrEmpty(l1, |c.segments| / 2, true);
    assert l1.order[l1.cursor..l2.cursor] == l1.order[l1.cursor..];
  }

  /** An unshuffled epoch served in one unpaired call whose batch size is
      the segment count: every segment becomes a sample, in construction
      order, so `Y_is_next` alternates true, false, true, false, ... */
  method WholeEpochInOrder(c: Corpus) returns (r: Option<Result<Batch>>, l': Loader)
    requires c.Valid() && |c.segments| > 0
    ensures l'.cursor == |c.segments|
    ensures r.Some? && r.value.Ok? && |r.value.value.y| == |r.value.value.yIsNext| == |c.segments|
    ensures NonEmptySegments(c.segments)
    ensures forall j :: 0 <= j < |c.segments| ==>
      r.value.value.yIsNext[j] == (j % 2 == 0) && r.value.value.y[j] == c.segments[j].Target().tokenIds
  {
    var l := EpochInit(c, false, []);
    r, l' := Next(l, |c.segments|, false);
    assert l.order[l.cursor..l'.cursor] == c.segments[..l'.cursor];
    assert c.segments[..|c.segments|] == c.segments;
    InOrderTargets(c);
  }

  /** The collation of the constructed order: target j is the target of
      segment j, a true next utterance exactly for even j. */
  lemma InOrderTargets(c: Corpus)
    requires c.Valid()
    ensures NonEmptySegments(c.segments) && AllServable(c.segments, c.sessions, c.historyLen)
    ensures var b := Collate(c.segments, c.sessions, c.historyLen, c.padIds);
      forall j :: 0 <= j < |c.segments| ==> b.yIsNext[j] == (j % 2 == 0) && b.y[j] == c.segments[j].Target().tokenIds
  {
    SegmentsServable(c);
    var b := Collate(c.segments, c.sessions, c.historyLen, c.padIds);
    forall j | 0 <= j < |c.segments|
      ensures b.yIsNext[j] == (j % 2 == 0) && b.y[j] == c.segments[j].Target().tokenIds
    {
      CollateTargets(c.segments, c.sessions, c.historyLen, c.padIds, j);
      Alternation(c, j);
    }
  }
}
