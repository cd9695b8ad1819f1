/**
 * The poll part of a Discord webhook payload.  A `Poll` numbers its answers
 * itself: `AddAnswer` takes the next id from a per-poll counter
 * (`lastAnswerId`, an int64 that starts at zero) and appends the answer.
 * The counter is incremented atomically in the source; here calls are
 * sequential.  The int64 wrap-around of the counter is written out.
 */
module WebhookParams {
  import opened GoInts

  datatype PollMedia = PollMedia(text: string)

  datatype PollAnswer = PollAnswer(id: int, pollMedia: PollMedia)

  /** Go's `x + 1` on int64 (what `atomic.AddInt64(&x, 1)` stores): `x + 1` modulo 2^64, in the int64 range. */
  function Succ64(x: Int64): (r: Int64)
    ensures (r - x - 1) % TwoTo64 == 0
    ensures x < MaxInt64 ==> r == x + 1
  {
    if x == MaxInt64 then MinInt64 else x + 1
  }

  /** The answers that adding `texts` in order appends to a poll whose counter is at `last`. */
  function Numbered(last: Int64, texts: seq<string>): (answers: seq<PollAnswer>)
    ensures |answers| == |texts|
    decreases |texts|
  {
    if texts == [] then []
    else [PollAnswer(Succ64(last), PollMedia(texts[0]))] + Numbered(Succ64(last), texts[1..])
  }

  /** The counter value after adding `n` answers from `last`. */
  function Advanced(last: Int64, n: nat): Int64
    decreases n
  {
    if n == 0 then last else Advanced(Succ64(last), n - 1)
  }

  /**
   * Short of overflow, the ids are the next |texts| integers after the counter, in order,
   * each with its own text: never reused, never skipped.
   */
  lemma {:induction false} NumberedIds(last: Int64, texts: seq<string>)
    requires last + |texts| <= MaxInt64
    ensures forall i :: 0 <= i < |texts| ==> Numbered(last, texts)[i] == PollAnswer(last + i + 1, PollMedia(texts[i]))
    ensures Advanced(last, |texts|) == last + |texts|
    decreases |texts|
  {
    if texts != [] {
      NumberedIds(last + 1, texts[1..]);
    }
  }

  /** Starting from a fresh poll, the ids of n answers are 1..n, strictly increasing. */
  lemma FreshPollIds(texts: seq<string>)
    requires |texts| <= MaxInt64
    ensures forall i :: 0 <= i < |texts| ==> Numbered(0, texts)[i].id == i + 1
    ensures forall i, j :: 0 <= i < j < |texts| ==> Numbered(0, texts)[i].id < Numbered(0, texts)[j].id
  {
    NumberedIds(0, texts);
  }

  /** Adding answers one batch after another numbers them as one batch. */
  lemma {:induction false} NumberedAppend(last: Int64, texts: seq<string>, text: string)
    ensures Numbered(last, texts + [text]) == Numbered(last, texts) + [PollAnswer(Succ64(Advanced(last, |texts|)), PollMedia(text))]
    decreases |texts|
  {
    if texts != [] {
      assert (texts + [text])[1..] == texts[1..] + [text];
      NumberedAppend(Succ64(last), texts[1..], text);
    }
  }

  class Poll {
    var question: PollMedia
    var lastAnswerId: Int64
    var answers: seq<PollAnswer>
    var duration: int
    var allowMultiselect: bool

    /** A poll literal: the unexported counter is always zero. */
    constructor (question: PollMedia, answers: seq<PollAnswer>, duration: int, allowMultiselect: bool)
      ensures this.question == question && this.answers == answers
      ensures this.duration == duration && this.allowMultiselect == allowMultiselect
      ensures lastAnswerId == 0
    {
      this.question := question;
      this.lastAnswerId := 0;
      this.answers := answers;
      this.duration := duration;
      this.allowMultiselect := allowMultiselect;
    }

    method NextAnswerId() returns (id: int)
      modifies this`lastAnswerId
      ensures lastAnswerId == Succ64(old(lastAnswerId)) && id == lastAnswerId
    {
      lastAnswerId := Succ64(lastAnswerId);
      id := lastAnswerId;
    }

    /** Appends one answer with the next id and the given text; nothing else changes. */
    method AddAnswer(text: string)
      modifies this`lastAnswerId, this`answers
      ensures lastAnswerId == Succ64(old(lastAnswerId))
      ensures answers == old(answers) + [PollAnswer(lastAnswerId, PollMedia(text))]
      ensures unchanged(this`question) && unchanged(this`duration) && unchanged(this`allowMultiselect)
    {
      var id := NextAnswerId();
      answers := answers + [PollAnswer(id, PollMedia(text))];
    }
  }

  /** One `AddAnswer` per text, in order, as the webhook sender does for the selected dates. */
  method AddAnswers(p: Poll, texts: seq<string>)
    modifies p
    ensures p.answers == old(p.answers) + Numbered(old(p.lastAnswerId), texts)
    ensures p.lastAnswerId == Advanced(old(p.lastAnswerId), |texts|)
    ensures p.question == old(p.question) && p.duration == old(p.duration)
    ensures p.allowMultiselect == old(p.allowMultiselect)
  {
    var i := 0;
    while i < |texts|
      invariant 0 <= i <= |texts|
      invariant p.answers == old(p.answers) + Numbered(old(p.lastAnswerId), texts[..i])
      invariant p.lastAnswerId == Advanced(old(p.lastAnswerId), i)
      invariant p.question == old(p.question) && p.duration == old(p.duration)
      invariant p.allowMultiselect == old(p.allowMultiselect)
    {
      NumberedAppend(old(p.lastAnswerId), texts[..i], texts[i]);
      AdvancedStep(old(p.lastAnswerId), i);
      assert texts[..i + 1] == texts[..i] + [texts[i]];
      p.AddAnswer(texts[i]);
      i := i + 1;
    }
    assert texts[..i] == texts;
  }

  lemma {:induction false} AdvancedStep(last: Int64, n: nat)
    ensures Advanced(last, n + 1) == Succ64(Advanced(last, n))
    decreases n
  {
    if n > 0 {
      AdvancedStep(Succ64(last), n - 1);
    }
  }
}
