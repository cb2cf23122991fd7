# DataSourceUnsupervised, modelled in Dafny

This project models the data source of the unsupervised response-evaluation
task (`src/tasks/response_eval/data_source_unsupervised.py`). Given dialogue
sessions, the constructor does four things:

- It preprocesses every utterance: tokenize, truncate to `max_uttr_len`, wrap the ids with bos/eos, and map the floor label "A"/"B" to 0/1.
- It pools all utterances.
- For every end index of every session, it builds a positive segment (a context window ending at the true next utterance) and then a negative segment. The negative has the same window, with the target replaced by a pool utterance that passes the lexical-overlap test `_are_different_uttrs`.
- It computes the statistics.

`epoch_init` resets the cursor and optionally shuffles the segments.
`__len__` counts the segments. `next` drains segments from the cursor until
`batch_size` targets are collected. Each sample gets `history_len` context
slots, and the targets, floors, `is_next` flags and reference targets are
collected in lockstep.

Modules, one per file, in dependency order:

| module | file | models |
|---|---|---|
| `Results` | results.dfy | `Option`, `Result` and the error kinds |
| `Seqs` | seqs.dfy | the Python list operations used (`s[:n]`, `list.index`, concatenation of lists) |
| `Utterances` | utterances.dfy | the tokenizer interface, per-utterance preprocessing, the `n_tokens` count |
| `NegativeSampling` | negative_sampling.dfy | `_are_different_uttrs` in exact integer form, and the retry loop of `random.choice` |
| `Segments` | segments.dfy | the positive/negative segment builder |
| `Batching` | batching.dfy | what one call of `next` emits, as a reference definition (`Accepted`, `Collate`) |
| `Corpora` | corpus.dfy | the constructor as a whole, and what holds of every data source it builds |
| `Shuffling` | shuffling.dfy | `random.shuffle` as Fisher–Yates over supplied swap positions |
| `DataSources` | data_source.dfy | `epoch_init`, `__len__` and `next`, with the object's cursor as a value |

Modelling choices:

- **Utterance identity.** An utterance is identified by `UttrId(session, index)`. The target's `reference_uttr` object reference becomes the id of the true positive. `Y_ref` is the token ids of the utterance with that id.
- **Tokenizer.** The tokenizer is a value with two uninterpreted conversion functions plus the bos and eos ids.
- **Random negatives.** `random.choice` draws pool positions from a supplied sequence `draws`, read in order.
- **Random shuffle.** `random.shuffle` takes supplied swap positions: `swaps[i] <= i`, applied from the last position down, as CPython does.
- **Value semantics.** The Python object is mutable. Here `epoch_init` returns a `Loader` value, and `next` takes one `Loader` and returns the next.
- **Batch output.** The lists X, X_floor, Y, Y_floor, Y_is_next and Y_ref are returned before tensor conversion. A call that collects no sample returns the error `EmptyBatch`, because lines 164-169 fail on it: at the latest, the reshape at line 169 divides by the batch size.
- **Padding position.** Padding comes after the real context utterances of a sample, as the code does (lines 143-152). It is not put in front of them.
- **Short windows.** A positive segment has at least 2 utterances only when `history_len >= 1`. With `history_len = 0` the code builds one-utterance segments, and `PositiveWindow` states exactly that.
- **Empty batches.** Paired mode can leave a call with an empty batch. The code then fails at the reshape instead of returning an empty batch (see Findings).

## Model

| member | source | states |
|---|---|---|
| Seqs.Truncate | src/tasks/response_eval/data_source_unsupervised.py:33 | `tokens[:max_uttr_len]` is the longest prefix of at most that many tokens |
| Seqs.IndexOf | src/tasks/response_eval/data_source_unsupervised.py:35 | `list.index` gives the first position holding the value, and fails exactly when the value is absent |
| Utterances.FloorId | src/tasks/response_eval/data_source_unsupervised.py:35 | "A" maps to 0 and "B" to 1; any other label fails, in both directions |
| Utterances.PrepareUtterance | src/tasks/response_eval/data_source_unsupervised.py:30-42 | the tokens are a prefix of the tokenizer's tokens, at most `max_uttr_len` long, and the whole list when shorter; the ids are bos, the ids of those tokens, then eos; the floor id matches the label; `is_next` starts true |
| Utterances.StripUndoesWrap | src/tasks/response_eval/data_source_unsupervised.py:34 | dropping the first and last id recovers the unwrapped ids, so every id sequence has at least two entries |
| Utterances.PreprocessSession | src/tasks/response_eval/data_source_unsupervised.py:29-42 | succeeds exactly when every floor label of the session is valid; utterance i becomes the prepared utterance with id (s, i); an error names the first invalid label and its position |
| Utterances.PreprocessSessions | src/tasks/response_eval/data_source_unsupervised.py:29-42 | succeeds exactly when every label in every session is valid; the result has the input's shape; an error names the first invalid label in session order, and every label before it is valid |
| Utterances.TokenTotal | src/tasks/response_eval/data_source_unsupervised.py:85-89 | `n_tokens` counts at least one token per utterance, and exactly the number of utterances plus the number of space characters in all their texts |
| Utterances.TokenTotalSnoc | src/tasks/response_eval/data_source_unsupervised.py:87-89 | adding the utterances one at a time, as the loop does, each adds its own whitespace token count |
| Utterances.WhitespaceTokenCount | src/tasks/response_eval/data_source_unsupervised.py:88-89 | `len(text.split(" "))` is the number of space characters plus one |
| NegativeSampling.IdSetMembers | src/tasks/response_eval/data_source_unsupervised.py:92-93 | the id set the overlap test works on is exactly the set of ids occurring in the utterance, as `set(ids)` builds it |
| NegativeSampling.AreDifferentUttrs | src/tasks/response_eval/data_source_unsupervised.py:91-99 | accepts a pair exactly when the coverage score (i/a + i/b)/2, in exact arithmetic, is below 0.8, where a and b are the sizes of the two id sets and i the size of their intersection; it is evaluated with integers as 5·i·(a+b) < 8·a·b |
| NegativeSampling.AreDifferentSymmetric | src/tasks/response_eval/data_source_unsupervised.py:91-99 | the overlap test gives the same answer with its arguments swapped |
| NegativeSampling.SameIdSetRejected | src/tasks/response_eval/data_source_unsupervised.py:91-99 | two id sequences with the same id set are never accepted as a pair |
| NegativeSampling.DisjointAccepted | src/tasks/response_eval/data_source_unsupervised.py:91-99 | two id sequences sharing no id are always accepted |
| NegativeSampling.SampleNegative | src/tasks/response_eval/data_source_unsupervised.py:68-72 | gives the first draw whose pool utterance passes the test against the positive; every earlier draw fails it; none is given exactly when every remaining draw fails |
| Segments.WindowStart | src/tasks/response_eval/data_source_unsupervised.py:57 | the window keeps `history_len` context utterances when the session has them, and otherwise starts at 0 |
| Segments.PositiveSegment | src/tasks/response_eval/data_source_unsupervised.py:57-64 | the positive segment is the window of at most `history_len` utterances before the end index (exactly that many when the session has them), followed by the target referring to itself |
| Segments.NegativeSegment | src/tasks/response_eval/data_source_unsupervised.py:73-79 | the negative segment has the same length and context as the positive for the same end index; its target carries the candidate's ids and floor, has `is_next` false, and refers to the true target |
| Segments.MakePairCorrect | src/tasks/response_eval/data_source_unsupervised.py:56-80 | the pair built from an accepted pool utterance: the positive is the window with the true target referring to itself; the negative is the same window with a flagged copy of the pool utterance, referring to the true target and passing the test |
| Segments.PairsFromIndexed | src/tasks/response_eval/data_source_unsupervised.py:54-80 | pair k of a session is the pair for end index start + k |
| Segments.BuildSessionPairs | src/tasks/response_eval/data_source_unsupervised.py:54-80 | one pair per end index from `end` to n-1, in order, each consuming at least one draw; a failure is NegativeSamplingStarvation naming the session and an end index from `end` on; when every remaining draw passes the test, it succeeds exactly when one draw per end index is left, and reads exactly that many; more generally, when every draw from some position t on passes the test, whatever the draws before t, it succeeds once one draw per end index is left after t, and reads at most that many past t |
| Segments.BuildAllPairs | src/tasks/response_eval/data_source_unsupervised.py:51-80 | session s yields exactly n_s - 1 pairs (none for n_s <= 1), for end indices 1 .. n_s - 1 in order; a failure is NegativeSamplingStarvation naming a session of the input and one of its end indices |
| Segments.BuildAllSucceeds | src/tasks/response_eval/data_source_unsupervised.py:51-80 | when every draw passes the overlap test against every target, building succeeds exactly when there is one draw per negative segment, and then reads one draw per negative segment |
| Segments.BuildAllWithSpareDraws | src/tasks/response_eval/data_source_unsupervised.py:51-80 | building fails only by running out of draws: when every draw from some position t on passes the overlap test against every target, whatever the draws before t, building succeeds once there is one draw per negative segment after t, and reads at most one draw per negative segment past t |
| Segments.AllPairsSnoc | src/tasks/response_eval/data_source_unsupervised.py:52-80 | the pairs of one more session extend those of the sessions before it |
| Segments.UnpairAt | src/tasks/response_eval/data_source_unsupervised.py:64-80 | segment k of the flat list is the positive of pair k/2 for even k and its negative for odd k |
| Segments.PairOfSegment | src/tasks/response_eval/data_source_unsupervised.py:64-80 | an odd segment and the segment before it are the negative and the positive of the same pair |
| Corpora.Construct | src/tasks/response_eval/data_source_unsupervised.py:16-89 | fails with InvalidFloorLabel exactly when some label is invalid, and any other failure is NegativeSamplingStarvation; when it succeeds, the source is well formed (the pool is every utterance of every session, in session order, and the segments are each session's pairs in end-index order), every utterance is its prepared version, the pool holds `n_uttrs` utterances, `n_segments` equals the length and is 2·(n-1) summed over sessions, `n_sessions` is the session count and `n_tokens` the whitespace token total |
| Corpora.ConstructSucceeds | src/tasks/response_eval/data_source_unsupervised.py:16-80 | with valid floor labels and every draw passing the overlap test against every target, construction succeeds exactly when there are at least as many draws as negative segments: it fails only when the draws run out |
| Corpora.ConstructWithSpareDraws | src/tasks/response_eval/data_source_unsupervised.py:16-80 | with valid floor labels, appending to any draws one copy per negative segment of a pool utterance that passes the overlap test against every target makes construction succeed, so a failure only ever means the draws ran out |
| Corpora.PairOrigin | src/tasks/response_eval/data_source_unsupervised.py:51-80 | every pair of the flat pair list is the pair of some session for some end index 1 <= end < n |
| Corpora.SegmentOrigin | src/tasks/response_eval/data_source_unsupervised.py:51-80 | segment k is the positive (even k) or the negative (odd k) for some end index of some session; a negative immediately follows the positive for the same end index |
| Corpora.Alternation | src/tasks/response_eval/data_source_unsupervised.py:56-80 | the target of segment k is a true next utterance exactly when k is even |
| Corpora.PositiveWindow | src/tasks/response_eval/data_source_unsupervised.py:57-63 | a positive segment has between 1 and `history_len` + 1 utterances, and at least 2 when `history_len >= 1`; its target is a true next utterance that refers to itself |
| Corpora.NegativeFollowsPositive | src/tasks/response_eval/data_source_unsupervised.py:66-80 | a negative has the same length and context as the positive before it; `is_next` is false; it refers to the same true target; it passes the overlap test against that target; its id set differs from the target's |
| Corpora.SegmentsServable | src/tasks/response_eval/data_source_unsupervised.py:57-80 | every constructed segment has between 1 and `history_len` + 1 utterances, and a reference that resolves to an utterance of the sessions |
| Corpora.ReferenceIds | src/tasks/response_eval/data_source_unsupervised.py:63-74 | the Y_ref ids are a positive's own target ids, and for a negative the target ids of the positive right before it |
| Corpora.SegmentCountOfValid | src/tasks/response_eval/data_source_unsupervised.py:52-54 | the segment count of any constructed source is 2·(n-1) summed over sessions with n >= 2 utterances |
| Corpora.PairedTakesNegatives | src/tasks/response_eval/data_source_unsupervised.py:139-141 | in construction order, paired mode takes exactly k/2 of the first k segments |
| Shuffling.Swap | src/tasks/response_eval/data_source_unsupervised.py:105 | exchanging two positions moves their elements and changes nothing else |
| Shuffling.SwapPermutes | src/tasks/response_eval/data_source_unsupervised.py:105 | an exchange keeps the multiset of elements |
| Shuffling.Shuffle | src/tasks/response_eval/data_source_unsupervised.py:104-105 | the shuffled copy has the same length and the same multiset of segments |
| Shuffling.ShuffleIdentity | src/tasks/response_eval/data_source_unsupervised.py:105 | when every position is exchanged with itself, the order is unchanged |
| Shuffling.ShuffleLastTwo | src/tasks/response_eval/data_source_unsupervised.py:105 | exchanging only the last position with the one before it swaps the last two elements and keeps the rest in place |
| Shuffling.ShuffleMembers | src/tasks/response_eval/data_source_unsupervised.py:104-105 | every element of the shuffled copy comes from the original |
| Batching.PaddingIds | src/tasks/response_eval/data_source_unsupervised.py:122-129 | the padding utterance's ids are bos, the ids of the empty string's tokens, then eos |
| Batching.AddSample | src/tasks/response_eval/data_source_unsupervised.py:143-162 | one sample adds exactly `history_len` entries to X and to X_floor and one entry to each Y list, keeps every earlier entry, and the new Y entries are the target's ids, floor and `is_next` |
| Batching.ContextIds | src/tasks/response_eval/data_source_unsupervised.py:143-152 | a sample's X entries are its context ids and then padding ids, exactly `history_len` of them |
| Batching.ContextFloors | src/tasks/response_eval/data_source_unsupervised.py:143-152 | a sample's X_floor entries are its context floors and then floor 0, exactly `history_len` of them |
| Batching.Collate | src/tasks/response_eval/data_source_unsupervised.py:143-162 | Y, Y_floor, Y_is_next and Y_ref hold one entry per sample; X and X_floor have equal length |
| Batching.CollateXLength | src/tasks/response_eval/data_source_unsupervised.py:143-152 | X and X_floor hold exactly `history_len` entries per sample |
| Batching.CollateTargets | src/tasks/response_eval/data_source_unsupervised.py:154-162 | the Y entries of sample j are the ids, floor, `is_next` and reference ids of segment j's target |
| Batching.CollateContexts | src/tasks/response_eval/data_source_unsupervised.py:143-152 | block j of X and of X_floor (`history_len` entries starting at `history_len`·j) is segment j's context followed by padding |
| Batching.ReshapeRecoversHistoryLen | src/tasks/response_eval/data_source_unsupervised.py:168-172 | for a non-empty batch, dividing the X length by the batch size gives back `history_len` |
| Batching.Accepted | src/tasks/response_eval/data_source_unsupervised.py:139-141 | without paired mode every segment is taken; in any mode no more segments are taken than are given |
| Batching.AcceptedSound | src/tasks/response_eval/data_source_unsupervised.py:139-141 | every taken segment is one of the given ones and passes the paired-mode filter |
| Batching.AcceptedComplete | src/tasks/response_eval/data_source_unsupervised.py:139-141 | every given segment that passes the filter is taken |
| Batching.AcceptedSnoc | src/tasks/response_eval/data_source_unsupervised.py:131-141 | segments are taken one at a time in cursor order, and a skipped segment adds nothing |
| Batching.AcceptedPrefixLength | src/tasks/response_eval/data_source_unsupervised.py:131-141 | a prefix of the segments never yields more samples than the whole |
| Batching.CollateStep | src/tasks/response_eval/data_source_unsupervised.py:131-162 | moving over one more segment appends one sample if the segment is taken, and otherwise changes nothing |
| Batching.PairedYOnlyNegatives | src/tasks/response_eval/data_source_unsupervised.py:139-158 | in paired mode every emitted `Y_is_next` is false |
| DataSources.Len | src/tasks/response_eval/data_source_unsupervised.py:109-110 | `__len__` is the epoch's segment count in any order, and 2·(n-1) summed over sessions |
| DataSources.EpochInit | src/tasks/response_eval/data_source_unsupervised.py:101-107 | the cursor is 0; without shuffle the order is the construction order; with shuffle it is the shuffled copy, a permutation of the segments |
| DataSources.OrderServable | src/tasks/response_eval/data_source_unsupervised.py:101-107 | in any epoch order, every segment can be served |
| DataSources.Drain | src/tasks/response_eval/data_source_unsupervised.py:131-162 | the loop stops at the end of the order or once it holds `batch_size` samples, whichever comes first, and was not full at any earlier position; the batch is the collation of the taken segments it moved over, skipped ones included; it never holds more than a non-negative `batch_size` |
| DataSources.DrainOne | src/tasks/response_eval/data_source_unsupervised.py:135-162 | one iteration moves the cursor by one and keeps the loop invariant |
| DataSources.DrainStep | src/tasks/response_eval/data_source_unsupervised.py:135-162 | one iteration adds the segment as a sample if it is taken, and keeps the batch equal to the collation of what was taken |
| DataSources.AppendSample | src/tasks/response_eval/data_source_unsupervised.py:143-162 | the two loops and the four appends add exactly one sample to the batch |
| DataSources.Next | src/tasks/response_eval/data_source_unsupervised.py:112-169 | None exactly when the cursor is at the end; otherwise the cursor never passes the end, advances when `batch_size != 0`, and counts skipped segments; the batch is the collation of the taken segments, with no more than a non-negative `batch_size` samples; an empty batch is the EmptyBatch error |
| DataSources.NextOrEmpty | src/tasks/response_eval/data_source_unsupervised.py:112-169 | under the empty-batch reading: None exactly when the cursor is at the end; otherwise the batch is the collation of the taken segments, possibly empty, and never an error |
| DataSources.ZeroBatchStaysPut | src/tasks/response_eval/data_source_unsupervised.py:131-133 | with `batch_size` 0 the loop stops before taking any segment |
| DataSources.NextOrDone | src/tasks/response_eval/data_source_unsupervised.py:112-169 | None exactly when the cursor is at the end or no remaining segment would be taken; an error only for `batch_size` 0; otherwise a non-empty batch |
| DataSources.FirstCallStops | src/tasks/response_eval/data_source_unsupervised.py:131-137 | over such an order, a paired call with `batch_size` len/2 stops just before the last segment, which would yield nothing |
| DataSources.TailSwappedCounts | src/tasks/response_eval/data_source_unsupervised.py:139-141 | with the last two segments exchanged, the first len-1 segments yield len/2 paired samples, every shorter prefix fewer, and the last segment none |
| DataSources.PairedFirstCall | src/tasks/response_eval/data_source_unsupervised.py:101-169 | with that shuffle, the first paired call of batch size len/2 emits len/2 samples and leaves the cursor on the final positive |
| DataSources.PairedEpochTail | src/tasks/response_eval/data_source_unsupervised.py:112-169 | the next call, as written, ends in EmptyBatch; the corrected call ends the epoch with None |
| DataSources.PairedEpochTailEmpty | src/tasks/response_eval/data_source_unsupervised.py:112-169 | under the empty-batch reading, that second call returns the empty batch |
| DataSources.InOrderTargets | src/tasks/response_eval/data_source_unsupervised.py:154-158 | collating the construction order gives Y entry j equal to segment j's target, with `is_next` true exactly for even j |
| DataSources.WholeEpochInOrder | src/tasks/response_eval/data_source_unsupervised.py:101-169 | one unpaired call over an unshuffled epoch, with `batch_size` equal to the length, serves every segment in order, and `Y_is_next` alternates true, false, ... |

## Left out

- Tensor conversion and device placement (lines 164-177) are left out. The model returns the plain lists. From the reshape it keeps only the division by the batch size, as the EmptyBatch error and `Batching.ReshapeRecoversHistoryLen`.
- With `history_len = 0` every X is empty, and `view(batch_size, 0, -1)` would fail in torch. The model returns the empty X.
- The tokenizer's conversions are uninterpreted functions. `convert_batch_ids_to_tensor` is not part of this model.
- `random.choice` is replaced by the supplied draws. Python keeps drawing forever when no pool utterance passes the test; the model instead reports `NegativeSamplingStarvation` when the draws run out.
- `random.shuffle` is replaced by supplied swap positions. Any positions `swaps[i] <= i` are allowed; which ones CPython's generator picks is not modelled.
- `segment_meta` is always an empty dict and is not represented. `dataset_path` is stored and never read, so it is left out too.
- The input dictionaries are updated in place (line 37), and the model does not model that mutation. A raw utterance without an `utterance_meta` entry would raise KeyError at line 63; the model's `ref` field replaces that entry.
- Object aliasing is left out. In Python, line 63 sets `reference_uttr` on the session's utterance object itself, so the same utterance shows that reference when it appears as context in later segments or in the pool. The model sets the reference only on targets. `next` reads references only from targets, and a copied negative gets its reference overwritten at line 74.
- The coverage score is compared in exact arithmetic. The floating-point rounding of `(i/a + i/b)/2` could decide differently right at the 0.8 boundary.
- Negative configuration values are left out: `max_uttr_len` and `history_len` are natural numbers here. In Python a negative `max_uttr_len` would drop tokens from the end of an utterance. A negative `history_len` would build empty positive segments, and `next` would then raise IndexError at line 155. The data source is meant to be configured with positive values only.
- Calling `next` before `epoch_init` is left out; Python raises AttributeError there. Every `Loader` in the model comes with an order and a cursor.

## Findings

| source | as written | input that shows it | evidently intended | confidence | as-written member | corrected member |
|---|---|---|---|---|---|---|
| src/tasks/response_eval/data_source_unsupervised.py:112-169 | a call of `next` whose segments from the cursor to the end are all skipped (paired mode, only true next targets left) collects no sample and then fails at lines 164-169: converting the empty lists may already fail, depending on the tokenizer, and at the latest `X.size(0)//batch_size` divides by 0 at line 169 | a shuffle that exchanges only the last two segments, `return_paired_Y=True`, and `batch_size = len/2`: the first call emits every negative and stops before the final positive, and the second call moves over that positive alone | not certain; two readings fit. (a) The epoch ends and the call returns None, as the comment on line 113 promises for running out of segments. (b) The call returns an empty batch, and the caller must tell it apart from None. The corrected member takes (a): the cursor has in fact reached the end, an empty batch cannot pass the reshape at line 169, and a caller that loops until None then ends the epoch normally. Reading (b) is modelled too, as `DataSources.NextOrEmpty`, and `DataSources.PairedEpochTailEmpty` shows it returning the empty batch on the same input | not executed | DataSources.PairedEpochTail | DataSources.NextOrDone |
