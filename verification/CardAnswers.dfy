/**
 What one turn of the polling thread of PCSC/src/eventhandler.c, and the adding and
 removing of a reader in PCSC/src/readerfactory.c, leave in the fields of the reader.
 */
module CardAnswers {
  import opened StatusWord
  import opened Atr
  import opened Readers
  import opened Sessions
  import opened CallAnswers

  /** The flags of a card that has just been powered up: it is there, and powered or mute as the driver says. */
  predicate PowerTried(w: Word, ok: bool) {
    && w.present && !w.absent && !w.unknown && !w.specific
    && w.powered == ok && w.negotiable == ok && w.swallowed == !ok
  }

  /** The flags of a reader without a card. */
  predicate CardGone(w: Word) {
    w.absent && !w.present && !w.unknown && !w.specific && !w.powered && !w.negotiable && !w.swallowed
  }

  /** The flags after a communication error. */
  predicate Unreadable(w: Word) {
    w.unknown && !w.present && !w.absent && !w.specific && !w.powered && !w.negotiable && !w.swallowed
  }

  /** One more movement of the card, counted modulo 2^16, and nothing else in the upper bits. */
  predicate CountedOnce(w: Word, w': Word) {
    w'.counter == (w.counter + 1) % 0x1_0000 && w'.spare == w.spare
  }

  predicate NotCounted(w: Word, w': Word) {
    w'.counter == w.counter && w'.spare == w.spare
  }

  /** An insertion was recorded: the card has been powered up. */
  predicate RecordedInsertion(r: Reader, r': Reader, power: Power) {
    var ok := power.rv == Success;
    && PowerTried(r'.card.status, ok) && CountedOnce(r.card.status, r'.card.status)
    && r'.card.atr == power.atr && r'.card.atrLength == (if ok then power.length else 0) && r'.card.protocol == {}
    && r'.seen == SeenPresent && r'.sh == r.sh
  }

  /** A removal was recorded: every handle is told, and the lock is free. */
  ghost predicate RecordedRemoval(r: Reader, r': Reader) {
    && CardGone(r'.card.status) && CountedOnce(r.card.status, r'.card.status)
    && r'.card.atrLength == 0 && r'.card.protocol == {}
    && r'.seen == SeenAbsent
    && r'.sh.contexts == r.sh.contexts && r'.sh.lockId == 0 && r'.sh.lockCount == 0
    && AllMarked(r.sh.handles, r'.sh.handles, EVENT_REMOVED)
  }

  predicate RecordedError(r: Reader, r': Reader) {
    && Unreadable(r'.card.status) && NotCounted(r.card.status, r'.card.status)
    && r'.card.atrLength == 0 && r'.card.protocol == {}
    && r'.seen == SeenUnknown && r'.sh == r.sh
  }

  predicate RecordedNothing(r: Reader, r': Reader, answer: IccStatus) {
    && r'.card.status == r.card.status && r'.card.protocol == r.card.protocol
    && r'.card.atr == answer.atr && r'.card.atrLength == answer.length
    && r'.seen == r.seen && r'.sh == r.sh
  }

  /** The four outcomes of a turn. A card that is there is news when the thread last saw none or could not tell, a card that
      is gone when it last saw one or could not tell; an error counts as not being able to tell. */
  ghost predicate Turned(r: Reader, r': Reader, answer: IccStatus, power: Power) {
    && (answer.absent && (!answer.ok || r.seen != SeenAbsent) ==> RecordedRemoval(r, r'))
    && (!answer.absent && answer.present && (!answer.ok || r.seen != SeenPresent) ==> RecordedInsertion(r, r', power))
    && (!answer.absent && !answer.present && !answer.ok ==> RecordedError(r, r'))
    && (answer.ok && (if answer.absent then r.seen == SeenAbsent else answer.present ==> r.seen == SeenPresent)
        ==> RecordedNothing(r, r', answer))
  }

  lemma {:induction false} PollExactly(r: Reader, answer: IccStatus, power: Power)
    ensures Turned(r, Poll(r, answer, power), answer, power)
  {
  }

  /** The same in the reader table: the turn belongs to one reader, and the others are as they were. */
  lemma {:induction false} PollOnTable(t: Table, i: nat, answer: IccStatus, power: Power)
    requires i < |t| && t[i].live
    ensures var t' := Step(t, DoPoll(i, answer, power)).0;
            && |t'| == |t| && Turned(t[i], t'[i], answer, power) && t'[i].live
            && forall j :: 0 <= j < |t| && j != i ==> t'[j] == t[j]
  {
    PollExactly(t[i], answer, power);
  }

  /** A turn publishes the context count when it is not the one it published last. */
  lemma {:induction false} PollPublishes(r: Reader, answer: IccStatus, power: Power)
    ensures var r' := Poll(r, answer, power);
            && r'.live == r.live && r'.identity == r.identity && r'.seenContexts == r.sh.contexts
            && r'.card.published == if r.seenContexts != r.sh.contexts then r.sh.contexts else r.card.published
  {
  }

  ghost predicate AllFree(hs: seq<Slot>, gs: seq<Slot>) {
    |gs| == |hs| && forall k :: 0 <= k < |hs| ==> gs[k].hCard == 0
  }

  /** A reader that is plugged in starts with nobody connected, and with the card powered up if there is one. */
  lemma {:induction false} AttachExactly(r: Reader, i: nat, word: Word, power: Power)
    ensures var r' := Attached(r, i, word, power);
            var ok := power.rv == Success;
            && r'.live && r'.identity == (i + 1) * 0x1_0000
            && r'.sh.contexts == 0 && r'.sh.lockId == 0 && r'.sh.lockCount == 0 && AllFree(r.sh.handles, r'.sh.handles)
            && r'.card.protocol == {} && r'.card.published == 0 && r'.seenContexts == 0 && NotCounted(word, r'.card.status)
            && (word.present ==> PowerTried(r'.card.status, ok) && r'.seen == SeenPresent
                                 && r'.card.atr == power.atr && r'.card.atrLength == power.length)
            && (!word.present ==> CardGone(r'.card.status) && r'.seen == SeenAbsent && r'.card.atrLength == 0)
  {
  }

  /** A reader that is unplugged keeps no identity, no context, no lock and no handle. */
  lemma {:induction false} DetachExactly(r: Reader)
    ensures var r' := Detached(r);
            && !r'.live && r'.identity == 0 && r'.sh.contexts == 0 && r'.sh.lockId == 0 && r'.sh.lockCount == 0
            && AllFree(r.sh.handles, r'.sh.handles) && r'.card == r.card
  {
  }
}
