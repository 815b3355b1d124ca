/** Waiting for acknowledgements: who is signalled by which Ack, over any history. */
module AckWait {
  import opened Types

  datatype Event = Await(id: U64) | Resolve(id: U64)

  /** The attempt that waits under each id; an attempt is named by the position of its registration. */
  function Pending(es: seq<Event>): map<U64, nat> {
    if es == [] then map[] else
    var before := Pending(es[..|es| - 1]);
    match es[|es| - 1]
    case Await(id) => before[id := |es| - 1]
    case Resolve(id) => before - {id}
  }

  /** The attempts signalled, in order. */
  function Signals(es: seq<Event>): seq<nat> {
    if es == [] then [] else
    var before := Signals(es[..|es| - 1]);
    match es[|es| - 1]
    case Await(_) => before
    case Resolve(id) =>
      if id in Pending(es[..|es| - 1]) then before + [Pending(es[..|es| - 1])[id]] else before
  }

  ghost predicate IsAttempt(es: seq<Event>, i: nat, id: U64) { i < |es| && es[i] == Await(id) }

  /** An Ack for the id was dispatched after attempt i, before the id was taken by a later attempt. */
  ghost predicate Answered(es: seq<Event>, i: nat, id: U64) {
    exists j :: i < j < |es| && es[j] == Resolve(id) && forall k :: i < k < j ==> es[k] != Await(id)
  }

  ghost predicate Superseded(es: seq<Event>, i: nat, id: U64) {
    exists k :: i < k < |es| && es[k] == Await(id)
  }

  lemma PrefixFacts(es: seq<Event>, i: nat, id: U64)
    requires es != [] && i < |es| - 1
    ensures var init, last := es[..|es| - 1], es[|es| - 1];
            && (Superseded(es, i, id) <==> Superseded(init, i, id) || last == Await(id))
            && (Answered(es, i, id) <==> Answered(init, i, id) || (last == Resolve(id) && !Superseded(init, i, id)))
  {
    var init, last := es[..|es| - 1], es[|es| - 1];
    if k :| i < k < |init| && init[k] == Await(id) {
      assert es[k] == Await(id);
    }
    if j :| i < j < |init| && init[j] == Resolve(id) && forall k :: i < k < j ==> init[k] != Await(id) {
      assert es[j] == Resolve(id) && forall k :: i < k < j ==> es[k] != Await(id);
    }
    if j :| i < j < |es| && es[j] == Resolve(id) && forall k :: i < k < j ==> es[k] != Await(id) {
      assert forall k :: i < k < j ==> init[k] != Await(id);
      if j < |es| - 1 {
        assert init[j] == Resolve(id);
      }
    }
  }

  /** An attempt waits while it is neither answered nor replaced, and is signalled when answered. */
  lemma {:induction false} SignalledIffAnswered(es: seq<Event>, i: nat, id: U64)
    requires IsAttempt(es, i, id)
    ensures i in Signals(es) <==> Answered(es, i, id)
    ensures id in Pending(es) && Pending(es)[id] == i <==> !Answered(es, i, id) && !Superseded(es, i, id)
  {
    var init := es[..|es| - 1];
    SignalsNameAttempts(init);
    if i < |es| - 1 {
      SignalledIffAnswered(init, i, id);
      PrefixFacts(es, i, id);
    }
  }

  lemma {:induction false} SignalsNameAttempts(es: seq<Event>)
    ensures forall i <- Signals(es) ::
              i < |es| && es[i].Await? && (es[i].id in Pending(es) ==> Pending(es)[es[i].id] != i)
    ensures forall id <- Pending(es) :: IsAttempt(es, Pending(es)[id], id)
  {
    if es != [] {
      SignalsNameAttempts(es[..|es| - 1]);
    }
  }

  /** No attempt is signalled twice. */
  lemma {:induction false} SignalledAtMostOnce(es: seq<Event>)
    ensures forall i, j :: 0 <= i < j < |Signals(es)| ==> Signals(es)[i] != Signals(es)[j]
  {
    if es != [] {
      var init := es[..|es| - 1];
      SignalledAtMostOnce(init);
      SignalsNameAttempts(init);
      var before := Signals(init);
      assert forall k :: 0 <= k < |before| ==> before[k] in before;
    }
  }

  /**
   * send_and_wait_ack: attempt i gives up at position t. It returns true exactly when an Ack naming
   * its own id was dispatched in between, given that nothing else was registered under that id.
   */
  lemma WaitReturnsTrueIff(es: seq<Event>, i: nat, t: nat, id: U64)
    requires IsAttempt(es, i, id) && i < t <= |es|
    requires forall k :: 0 <= k < |es| && es[k] == Await(id) ==> k == i
    ensures i in Signals(es[..t]) <==> exists j :: i < j < t && es[j] == Resolve(id)
  {
    SignalledIffAnswered(es[..t], i, id);
    if j :| i < j < t && es[j] == Resolve(id) {
      assert es[..t][j] == Resolve(id) && forall k :: i < k < j ==> es[..t][k] != Await(id);
    }
  }

  /** These are late Acks: for other attempts than those under this id. */
  predicate OthersAcks(late: seq<Event>, id: U64) { forall e <- late :: e.Resolve? && e.id != id }

  /** The history with more events after its first j. */
  function Inserted(es: seq<Event>, j: nat, more: seq<Event>): (all: seq<Event>)
    requires j <= |es|
    ensures |all| == |es| + |more|
    ensures forall k :: 0 <= k < |all| ==>
              all[k] == if k < j then es[k] else if k < j + |more| then more[k - j] else es[k - |more|]
  {
    es[..j] + more + es[j..]
  }

  lemma AnswerSurvives(es: seq<Event>, i: nat, id: U64, j: nat, late: seq<Event>)
    requires i < j <= |es| && OthersAcks(late, id) && Answered(es, i, id)
    ensures Answered(Inserted(es, j, late), i, id)
  {
    var all := Inserted(es, j, late);
    var x :| i < x < |es| && es[x] == Resolve(id) && forall k :: i < k < x ==> es[k] != Await(id);
    var y := if x < j then x else x + |late|;
    assert all[y] == Resolve(id);
    forall k | i < k < y ensures all[k] != Await(id) {
      assert all[k] == if k < j then es[k] else if k < j + |late| then late[k - j] else es[k - |late|];
    }
  }

  lemma AnswerIsNotInvented(es: seq<Event>, i: nat, id: U64, j: nat, late: seq<Event>)
    requires i < j <= |es| && OthersAcks(late, id) && Answered(Inserted(es, j, late), i, id)
    ensures Answered(es, i, id)
  {
    var all := Inserted(es, j, late);
    var y :| i < y < |all| && all[y] == Resolve(id) && forall k :: i < k < y ==> all[k] != Await(id);
    assert y < j || y >= j + |late|;
    var x := if y < j then y else y - |late|;
    assert es[x] == Resolve(id);
    forall k | i < k < x ensures es[k] != Await(id) {
      assert all[if k < j then k else k + |late|] == es[k];
    }
  }

  /** Late Acks for other attempts, whenever they come, neither complete this one nor hold it up. */
  lemma LateAckIsHarmless(es: seq<Event>, i: nat, id: U64, j: nat, late: seq<Event>)
    requires IsAttempt(es, i, id) && i < j <= |es| && OthersAcks(late, id)
    ensures i in Signals(Inserted(es, j, late)) <==> i in Signals(es)
  {
    SignalledIffAnswered(es, i, id);
    SignalledIffAnswered(Inserted(es, j, late), i, id);
    if Answered(es, i, id) {
      AnswerSurvives(es, i, id, j, late);
    }
    if Answered(Inserted(es, j, late), i, id) {
      AnswerIsNotInvented(es, i, id, j, late);
    }
  }

  lemma AfterAwait(es: seq<Event>, id: U64)
    ensures Pending(es + [Await(id)]) == Pending(es)[id := |es|] && Signals(es + [Await(id)]) == Signals(es)
    ensures |es| !in Signals(es)
  {
    assert (es + [Await(id)])[..|es|] == es;
    SignalsNameAttempts(es);
  }

  // ---------- the object ----------

  /** A oneshot channel: the receiving end can only see whether the signal came. */
  class Waiter {
    var signalled: bool

    constructor ()
      ensures !signalled
    {
      signalled := false;
    }
  }

  class AckWaiter {
    var pending: map<U64, Waiter>
    ghost var history: seq<Event>
    ghost var waiters: map<nat, Waiter>  // by the position of their registration

    ghost predicate Valid()
      reads this, waiters.Values
    {
      && pending.Keys == Pending(history).Keys
      && (forall id <- pending :: Pending(history)[id] in waiters && pending[id] == waiters[Pending(history)[id]])
      && (forall i <- waiters :: i < |history|)
      && (forall i <- waiters, j <- waiters :: i != j ==> waiters[i] != waiters[j])
      && (forall i <- waiters :: waiters[i].signalled <==> i in Signals(history))
    }

    constructor ()
      ensures Valid() && history == []
    {
      pending := map[];
      history := [];
      waiters := map[];
    }

    method Register(id: U64) returns (rx: Waiter)
      requires Valid()
      modifies this
      ensures Valid() && fresh(rx)
      ensures history == old(history) + [Await(id)]
      ensures waiters == old(waiters)[|old(history)| := rx]
    {
      AfterAwait(history, id);
      rx := new Waiter();
      assert |history| !in waiters && rx !in waiters.Values;
      pending := pending[id := rx];
      waiters := waiters[|history| := rx];
      history := history + [Await(id)];
    }

    method Resolve(replyTo: U64)
      requires Valid()
      modifies this, waiters.Values
      ensures Valid() && waiters == old(waiters)
      ensures history == old(history) + [Event.Resolve(replyTo)]
    {
      if replyTo in pending {
        pending[replyTo].signalled := true;
        pending := pending - {replyTo};
      }
      history := history + [Event.Resolve(replyTo)];
      assert history[..|history| - 1] == old(history);
    }
  }
}
