/**
 * The mailbox as a value: the sequence of its messages' states, in storage
 * order. The operations of the in-place store are specified against the
 * functions here, and the properties of staged deletion and commit are
 * proved about them.
 */
module MailboxSpec {
  import opened Results

  /** What one stored message holds at a given moment. */
  datatype MessageState = MessageState(content: string, labelText: Option<string>, deleted: bool)

  /** `v` with the deletion flag of message `i` set to `flag`. */
  function Flagged(v: seq<MessageState>, i: nat, flag: bool): (r: seq<MessageState>)
    requires i < |v|
    ensures |r| == |v|
    ensures r[i].deleted == flag
    ensures r[i].content == v[i].content && r[i].labelText == v[i].labelText
    ensures forall j :: 0 <= j < |v| && j != i ==> r[j] == v[j]
  {
    v[i := v[i].(deleted := flag)]
  }

  /** Flagging a message a second time changes nothing. */
  lemma FlaggedIdempotent(v: seq<MessageState>, i: nat, flag: bool)
    requires i < |v|
    ensures Flagged(Flagged(v, i, flag), i, flag) == Flagged(v, i, flag)
  {
  }

  /** Deleting a message that was not flagged and then undeleting it restores the mailbox. */
  lemma DeleteThenUndelete(v: seq<MessageState>, i: nat)
    requires i < |v| && !v[i].deleted
    ensures Flagged(Flagged(v, i, true), i, false) == v
  {
  }

  /** Undeleting a flagged message and then deleting it again restores the mailbox. */
  lemma UndeleteThenDelete(v: seq<MessageState>, i: nat)
    requires i < |v| && v[i].deleted
    ensures Flagged(Flagged(v, i, false), i, true) == v
  {
  }

  /** The messages of `v` that are not flagged deleted, in their order in `v`. */
  function Kept(v: seq<MessageState>): seq<MessageState>
  {
    if v == [] then []
    else
      var last := v[|v| - 1];
      Kept(v[..|v| - 1]) + (if last.deleted then [] else [last])
  }

  /** The number of messages of `v` that are not flagged deleted. */
  function CountUndeleted(v: seq<MessageState>): nat
  {
    if v == [] then 0
    else CountUndeleted(v[..|v| - 1]) + (if v[|v| - 1].deleted then 0 else 1)
  }

  /**
   * The positions of the messages of `v` that are not flagged deleted, in
   * increasing order: every such position, and no other, appears once.
   */
  function UndeletedPositions(v: seq<MessageState>): (ps: seq<nat>)
    ensures forall k :: 0 <= k < |ps| ==> ps[k] < |v| && !v[ps[k]].deleted
    ensures forall k, l :: 0 <= k < l < |ps| ==> ps[k] < ps[l]
    ensures forall i :: 0 <= i < |v| && !v[i].deleted ==> i in ps
  {
    if v == [] then []
    else
      var n := |v| - 1;
      var init := UndeletedPositions(v[..n]);
      if v[n].deleted then init else init + [n]
  }

  /**
   * Committing keeps exactly the unflagged messages, in order: the k-th kept
   * message is the message at the k-th unflagged position.
   */
  lemma {:induction false} KeptIsUndeletedInOrder(v: seq<MessageState>)
    ensures |Kept(v)| == |UndeletedPositions(v)|
    ensures forall k :: 0 <= k < |Kept(v)| ==> Kept(v)[k] == v[UndeletedPositions(v)[k]]
  {
    if v != [] {
      var n := |v| - 1;
      var pre := v[..n];
      KeptIsUndeletedInOrder(pre);
      var kept, ps := Kept(pre), UndeletedPositions(pre);
      assert Kept(v) == kept + (if v[n].deleted then [] else [v[n]]);
      assert UndeletedPositions(v) == if v[n].deleted then ps else ps + [n];
      forall k | 0 <= k < |Kept(v)|
        ensures Kept(v)[k] == v[UndeletedPositions(v)[k]]
      {
        if k < |kept| {
          assert Kept(v)[k] == kept[k] == pre[ps[k]];
          assert UndeletedPositions(v)[k] == ps[k];
        }
      }
    }
  }

  /** No message left after a commit is flagged, and their number is the count of unflagged ones. */
  lemma {:induction false} KeptUnflagged(v: seq<MessageState>)
    ensures forall k :: 0 <= k < |Kept(v)| ==> !Kept(v)[k].deleted
    ensures |Kept(v)| == CountUndeleted(v)
  {
    if v != [] {
      KeptUnflagged(v[..|v| - 1]);
    }
  }

  /** A mailbox with nothing flagged is left as it is by a commit. */
  lemma {:induction false} KeptAllUnflagged(v: seq<MessageState>)
    requires forall k :: 0 <= k < |v| ==> !v[k].deleted
    ensures Kept(v) == v
  {
    if v != [] {
      var n := |v| - 1;
      KeptAllUnflagged(v[..n]);
      assert v[..n] + [v[n]] == v;
    }
  }

  /** A second commit changes nothing. */
  lemma KeptIdempotent(v: seq<MessageState>)
    ensures Kept(Kept(v)) == Kept(v)
  {
    KeptUnflagged(v);
    KeptAllUnflagged(Kept(v));
  }

  /**
   * Committing after deleting message `i` of a mailbox in which nothing was
   * flagged removes exactly that message.
   */
  lemma {:induction false} KeptAfterOneDelete(v: seq<MessageState>, i: nat)
    requires i < |v|
    requires forall k :: 0 <= k < |v| ==> !v[k].deleted
    ensures Kept(Flagged(v, i, true)) == v[..i] + v[i + 1..]
  {
    var n := |v| - 1;
    var w := Flagged(v, i, true);
    assert w[..n] == if i == n then v[..n] else Flagged(v[..n], i, true);
    if i == n {
      KeptAllUnflagged(v[..n]);
    } else {
      KeptAfterOneDelete(v[..n], i);
      assert v[..n][..i] + v[..n][i + 1..] + [v[n]] == v[..i] + v[i + 1..];
    }
  }
}
