/** Per-utterance preprocessing of `DataSourceUnsupervised.__init__`:
    tokenize, truncate to `max_uttr_len`, wrap with bos/eos ids, map the floor
    label to a floor id, and mark the utterance as a true next utterance. */
module Utterances {
  import opened Results
  import opened Seqs

  /** The external tokenizer. Its string-to-token and token-to-id
      conversions are opaque functions; asking for bos/eos wrapping puts
      `bosId` in front of the ids and `eosId` after them. */
  datatype Tokenizer = Tokenizer(
    toTokens: string -> seq<string>,
    toIds: seq<string> -> seq<int>,
    bosId: int,
    eosId: int)
  {
    /** `convert_tokens_to_ids(tokens, bos_and_eos=True)`. */
    function IdsWithBosEos(tokens: seq<string>): seq<int>
    {
      [bosId] + toIds(tokens) + [eosId]
    }
  }

  /** Removes the first and last id, undoing the bos/eos wrapping. */
  function StripBosEos(ids: seq<int>): seq<int>
    requires |ids| >= 2
  {
    ids[1..|ids| - 1]
  }

  /** Input record of one utterance: its text and its floor label. */
  datatype RawUtterance = RawUtterance(text: string, floor: string)

  type RawSession = seq<RawUtterance>

  /** Stable handle of an utterance: its session and its position there.
      It replaces the object reference `utterance_meta["reference_uttr"]`. */
  datatype UttrId = UttrId(session: nat, index: nat)

  /** A preprocessed utterance. `ref` is the id of the true positive this
      utterance stands for as a target (unset until it becomes one). A
      negative is a copy of a pool utterance and keeps that utterance's id. */
  datatype Utterance = Utterance(
    id: UttrId,
    text: string,
    tokens: seq<string>,
    tokenIds: seq<int>,
    floorId: nat,
    isNext: bool,
    ref: Option<UttrId>)

  /** The fixed floor order; a label's floor id is its position here. */
  const FloorLabels: seq<string> := ["A", "B"]

  predicate ValidFloor(floor: string)
  {
    floor == "A" || floor == "B"
  }

  /** `["A", "B"].index(floor)`; None where Python raises ValueError. */
  function FloorId(floor: string): (r: Option<nat>)
    ensures r == Some(0) <==> floor == "A"
    ensures r == Some(1) <==> floor == "B"
    ensures r.None? <==> !ValidFloor(floor)
  {
    IndexOf(FloorLabels, floor)
  }

  /** Preprocessing of one utterance with a valid floor label, given the
      id it gets: the tokens are cut to `maxUttrLen`, the ids are the
      bos/eos-wrapped ids of the cut tokens, and `is_next` starts true. */
  function PrepareUtterance(raw: RawUtterance, id: UttrId, maxUttrLen: nat, tok: Tokenizer): (u: Utterance)
    requires ValidFloor(raw.floor)
    ensures u.id == id && u.text == raw.text
    ensures |u.tokens| <= maxUttrLen && |u.tokens| <= |tok.toTokens(raw.text)|
    ensures u.tokens == tok.toTokens(raw.text)[..|u.tokens|]
    ensures |u.tokens| < maxUttrLen ==> u.tokens == tok.toTokens(raw.text)
    ensures |u.tokenIds| >= 2 && StripBosEos(u.tokenIds) == tok.toIds(u.tokens)
    ensures u.tokenIds[0] == tok.bosId && u.tokenIds[|u.tokenIds| - 1] == tok.eosId
    ensures u.floorId == 0 <==> raw.floor == "A"
    ensures u.floorId == 1 <==> raw.floor == "B"
    ensures u.isNext && u.ref.None?
  {
    var tokens := Truncate(tok.toTokens(raw.text), maxUttrLen);
    Utterance(id, raw.text, tokens, tok.IdsWithBosEos(tokens), FloorId(raw.floor).value, true, None)
  }

  /** What every preprocessed utterance satisfies: an id sequence holding at
      least bos and eos, a floor id in {0, 1}, and `is_next` set. */
  predicate Preprocessed(u: Utterance)
  {
    |u.tokenIds| >= 2 && u.floorId <= 1 && u.isNext && u.ref.None?
  }

  /** Session `s` is numbered: utterance i of it carries id (s, i). */
  predicate NumberedSession(uttrs: seq<Utterance>, s: nat)
  {
    forall i :: 0 <= i < |uttrs| ==> uttrs[i].id == UttrId(s, i) && Preprocessed(uttrs[i])
  }

  /** All sessions numbered in order. */
  predicate NumberedSessions(sessions: seq<seq<Utterance>>)
  {
    forall s :: 0 <= s < |sessions| ==> NumberedSession(sessions[s], s)
  }

  /** Every floor label of a session is valid. */
  predicate ValidFloors(raw: RawSession)
  {
    forall i :: 0 <= i < |raw| ==> ValidFloor(raw[i].floor)
  }

  /** Preprocessing of session `s`. The Python loop stops at the first
      invalid floor label, raising ValueError; that is the error here. */
  function PreprocessSession(raw: RawSession, s: nat, maxUttrLen: nat, tok: Tokenizer): (r: Result<seq<Utterance>>)
    ensures r.Ok? <==> ValidFloors(raw)
    ensures r.Ok? ==> |r.value| == |raw| && NumberedSession(r.value, s)
    ensures r.Ok? ==> forall i :: 0 <= i < |raw| ==>
      r.value[i] == PrepareUtterance(raw[i], UttrId(s, i), maxUttrLen, tok)
    ensures r.Err? ==>
      var e := r.error;
      && e.InvalidFloorLabel? && e.session == s && e.index < |raw|
      && e.floor == raw[e.index].floor && !ValidFloor(e.floor)
      && ValidFloors(raw[..e.index])
  {
    match FirstWhere(raw, (u: RawUtterance) => !ValidFloor(u.floor))
    case Some(i) => Err(InvalidFloorLabel(raw[i].floor, s, i))
    case None =>
      Ok(seq(|raw|, i requires 0 <= i < |raw| => PrepareUtterance(raw[i], UttrId(s, i), maxUttrLen, tok)))
  }

  /** Every floor label of every session is valid. */
  predicate AllValidFloors(raws: seq<RawSession>)
  {
    forall s :: 0 <= s < |raws| ==> ValidFloors(raws[s])
  }

  /** The first pass of the constructor over every utterance of every
      session; the first invalid floor label, in session order, aborts. */
  function PreprocessSessions(raws: seq<RawSession>, maxUttrLen: nat, tok: Tokenizer): (r: Result<seq<seq<Utterance>>>)
    ensures r.Ok? <==> AllValidFloors(raws)
    ensures r.Ok? ==> SameShape(r.value, raws) && NumberedSessions(r.value)
    ensures r.Ok? ==> forall s, i :: 0 <= s < |raws| && 0 <= i < |raws[s]| ==>
      r.value[s][i] == PrepareUtterance(raws[s][i], UttrId(s, i), maxUttrLen, tok)
    ensures r.Err? ==>
      var e := r.error;
      && e.InvalidFloorLabel? && e.session < |raws| && e.index < |raws[e.session]|
      && e.floor == raws[e.session][e.index].floor && !ValidFloor(e.floor)
      && AllValidFloors(raws[..e.session])
      && ValidFloors(raws[e.session][..e.index])
  {
    match FirstWhere(raws, (raw: RawSession) => !ValidFloors(raw))
    case Some(s) =>
      Err(PreprocessSession(raws[s], s, maxUttrLen, tok).error)
    case None =>
      Ok(seq(|raws|, s requires 0 <= s < |raws| => PreprocessSession(raws[s], s, maxUttrLen, tok).value))
  }

  /** Number of ' ' characters in a text. */
  function SpaceCount(text: string): nat
  {
    if |text| == 0 then 0
    else (if text[0] == ' ' then 1 else 0) + SpaceCount(text[1..])
  }

  /** `len(text.split(" "))`: splitting on an explicit separator yields one
      more piece than there are separators, so the empty text counts 1. */
  function WhitespaceTokenCount(text: string): (r: nat)
    ensures r == multiset(text)[' '] + 1
  {
    SpaceCountIsMultiplicity(text);
    SpaceCount(text) + 1
  }

  lemma {:induction false} SpaceCountIsMultiplicity(text: string)
    ensures SpaceCount(text) == multiset(text)[' ']
  {
    if |text| > 0 {
      assert text == [text[0]] + text[1..];
      assert multiset(text) == multiset{text[0]} + multiset(text[1..]);
      SpaceCountIsMultiplicity(text[1..]);
    }
  }

  /** `n_tokens`: whitespace pieces summed over utterances. */
  function TokenTotal(raws: seq<RawUtterance>): (n: nat)
    ensures n >= |raws|
    ensures n == |raws| + SpaceTotal(raws)
  {
    if |raws| == 0 then 0 else WhitespaceTokenCount(raws[0].text) + TokenTotal(raws[1..])
  }

  /** The space characters of all texts together. */
  function SpaceTotal(raws: seq<RawUtterance>): nat
  {
    if |raws| == 0 then 0 else multiset(raws[0].text)[' '] + SpaceTotal(raws[1..])
  }

  /** Counting utterance by utterance, as the loop of lines 87-89 adds
      to `n_tokens`: one more utterance adds its whitespace token count. */
  lemma {:induction false} TokenTotalSnoc(raws: seq<RawUtterance>, u: RawUtterance)
    ensures TokenTotal(raws + [u]) == TokenTotal(raws) + WhitespaceTokenCount(u.text)
  {
    if |raws| > 0 {
      assert (raws + [u])[1..] == raws[1..] + [u];
      TokenTotalSnoc(raws[1..], u);
    } else {
      assert (raws + [u])[1..] == [];
    }
  }

  /** The bos/eos wrapping is undone by dropping the first and last id. */
  lemma {:induction false} StripUndoesWrap(tok: Tokenizer, tokens: seq<string>)
    ensures |tok.IdsWithBosEos(tokens)| >= 2
    ensures StripBosEos(tok.IdsWithBosEos(tokens)) == tok.toIds(tokens)
  {
    var ids := tok.IdsWithBosEos(tokens);
    assert ids[1..|ids| - 1] == tok.toIds(tokens);
  }
}
