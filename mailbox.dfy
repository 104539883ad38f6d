/**
 * The in-memory mailbox store: an ordered list of message objects addressed
 * by 0-based index. Deletion only flags a message; a commit removes the
 * flagged ones.
 */
module Mailboxes {
  import opened Results
  import opened MailboxSpec
  import opened Messages

  /** The states of the messages `ms` point to, in order. */
  ghost function Snapshot(ms: seq<Message>): (v: seq<MessageState>)
    reads ms
    ensures |v| == |ms|
    ensures forall i :: 0 <= i < |ms| ==> v[i] == ms[i].State()
  {
    seq(|ms|, i reads ms requires 0 <= i < |ms| => ms[i].State())
  }

  /** No message object occupies two positions. */
  ghost predicate Distinct(ms: seq<Message>) {
    forall i, j :: 0 <= i < j < |ms| ==> ms[i] != ms[j]
  }

  /** The message objects of `ms` not flagged deleted, in their order in `ms`. */
  function KeptMessages(ms: seq<Message>): (r: seq<Message>)
    reads ms
    ensures forall m :: m in r ==> m in ms && !m.deleted
  {
    if ms == [] then []
    else
      var last := ms[|ms| - 1];
      KeptMessages(ms[..|ms| - 1]) + (if last.deleted then [] else [last])
  }

  /** Keeping the unflagged objects keeps exactly the unflagged states. */
  lemma {:induction false} SnapshotKept(ms: seq<Message>)
    ensures Snapshot(KeptMessages(ms)) == Kept(Snapshot(ms))
  {
    if ms != [] {
      var n := |ms| - 1;
      SnapshotKept(ms[..n]);
      assert Snapshot(ms)[..n] == Snapshot(ms[..n]);
      var tail := if ms[n].deleted then [] else [ms[n]];
      assert Snapshot(KeptMessages(ms[..n]) + tail) == Snapshot(KeptMessages(ms[..n])) + Snapshot(tail);
    }
  }

  /** A commit never makes one object appear twice. */
  lemma {:induction false} KeptMessagesDistinct(ms: seq<Message>)
    requires Distinct(ms)
    ensures Distinct(KeptMessages(ms))
  {
    if ms != [] {
      var n := |ms| - 1;
      assert Distinct(ms[..n]);
      KeptMessagesDistinct(ms[..n]);
      assert ms[n] !in ms[..n];
    }
  }

  /** What `listMessages` returns: every size, or the size of one message. */
  datatype Listing = Sizes(sizes: seq<nat>) | Size(size: nat)

  class Mailbox {
    var messages: seq<Message>
    /** Stands in for the hex SHA-1 digest of a message's content. */
    const digest: string -> string
    /** One per mailbox-change notification sent to the GUI. */
    ghost var notifications: nat

    constructor (digest: string -> string)
      ensures messages == [] && this.digest == digest && notifications == 0
    {
      messages := [];
      this.digest := digest;
      notifications := 0;
    }

    /** The mailbox as a value. */
    ghost function View(): seq<MessageState>
      reads this, messages
    {
      Snapshot(messages)
    }

    /**
     * Without an index, the size of every stored message in storage order,
     * flagged ones included; with an index, the size of that message, or
     * the error when it is past the end.
     */
    function ListMessages(index: Option<nat>): (r: Result<Listing>)
      reads this
      ensures index.None? ==> r.Ok? && r.value.Sizes? && |r.value.sizes| == |messages|
      ensures index.None? ==>
        forall i :: 0 <= i < |messages| ==> r.value.sizes[i] == |messages[i].content|
      ensures index.Some? ==> (r.Err? <==> index.value >= |messages|)
      ensures index.Some? && r.Ok? ==> r.value == Size(|messages[index.value].content|)
    {
      match index
      case None =>
        var ms := messages;
        Ok(Sizes(seq(|ms|, i requires 0 <= i < |ms| => |ms[i].content|)))
      case Some(i) =>
        if i >= |messages| then Err(ValueError)
        else Ok(Size(|messages[i].content|))
    }

    /** The content of message `index`, or the error when it is past the end. */
    function GetMessage(index: nat): (r: Result<string>)
      reads this
      ensures r.Err? <==> index >= |messages|
      ensures r.Ok? ==> r.value == messages[index].content
    {
      if index >= |messages| then Err(ValueError)
      else Ok(messages[index].content)
    }

    /** The unique-id of message `index`, a digest of its content only. */
    function GetUidl(index: nat): (r: Result<string>)
      reads this
      ensures r.Err? <==> index >= |messages|
      ensures r.Ok? ==> r.value == digest(messages[index].content)
    {
      if index >= |messages| then Err(ValueError)
      else Ok(digest(messages[index].content))
    }

    /** Listing one message agrees with the full listing at its position. */
    lemma ListOneAgreesWithAll(index: nat)
      ensures ListMessages(Some(index))
        == if index < |ListMessages(None).value.sizes|
           then Ok(Size(ListMessages(None).value.sizes[index]))
           else Err(ValueError)
    {
    }

    /** Messages with equal content have equal unique-ids. */
    lemma UidlOfEqualContent(i: nat, j: nat)
      requires i < |messages| && j < |messages|
      requires messages[i].content == messages[j].content
      ensures GetUidl(i) == GetUidl(j)
    {
    }

    /**
     * Flags message `index` deleted. The flag belongs to the message object,
     * so every position holding that same object shows it flagged; when
     * all positions hold distinct objects only position `index` changes.
     */
    method DeleteMessage(index: nat) returns (r: Outcome)
      modifies this, if index < |messages| then {messages[index]} else {}
      ensures messages == old(messages)
      ensures r == if index < |messages| then Pass else Fail(ValueError)
      ensures r.Fail? ==> View() == old(View()) && notifications == old(notifications)
      ensures r.Pass? ==> notifications == old(notifications) + 1
      ensures r.Pass? ==> forall j :: 0 <= j < |messages| ==>
        messages[j].deleted == (messages[j] == messages[index] || old(messages[j].deleted))
      ensures r.Pass? && Distinct(messages) ==> View() == Flagged(old(View()), index, true)
      ensures ListMessages(None) == old(ListMessages(None))
    {
      if index >= |messages| {
        return Fail(ValueError);
      }
      messages[index].Delete();
      notifications := notifications + 1;
      r := Pass;
    }

    /**
     * Clears the deletion flag of message `index`, with the same sharing of
     * the flag among positions holding one object as for deletion.
     */
    method UndeleteMessages(index: nat) returns (r: Outcome)
      modifies this, if index < |messages| then {messages[index]} else {}
      ensures messages == old(messages)
      ensures r == if index < |messages| then Pass else Fail(ValueError)
      ensures r.Fail? ==> View() == old(View()) && notifications == old(notifications)
      ensures r.Pass? ==> notifications == old(notifications) + 1
      ensures r.Pass? ==> forall j :: 0 <= j < |messages| ==>
        messages[j].deleted == (messages[j] != messages[index] && old(messages[j].deleted))
      ensures r.Pass? && Distinct(messages) ==> View() == Flagged(old(View()), index, false)
      ensures ListMessages(None) == old(ListMessages(None))
    {
      if index >= |messages| {
        return Fail(ValueError);
      }
      messages[index].Undelete();
      notifications := notifications + 1;
      r := Pass;
    }

    /** Commits the staged deletions: keeps the unflagged messages, in order. */
    method Sync()
      modifies this
      ensures messages == KeptMessages(old(messages))
      ensures View() == Kept(old(View()))
      ensures Distinct(old(messages)) ==> Distinct(messages)
      ensures notifications == old(notifications) + 1
    {
      var ms := messages;
      var keep := [];
      for i := 0 to |ms|
        invariant keep == KeptMessages(ms[..i])
      {
        var message := ms[i];
        if !message.deleted {
          keep := keep + [message];
        }
        assert ms[..i + 1][..i] == ms[..i];
      }
      assert ms[..|ms|] == ms;
      SnapshotKept(ms);
      if Distinct(ms) {
        KeptMessagesDistinct(ms);
      }
      messages := keep;
      notifications := notifications + 1;
    }

    /** Appends `msg` after the stored messages. */
    method AddMessage(msg: Message)
      modifies this
      ensures messages == old(messages) + [msg]
      ensures View() == old(View()) + [msg.State()]
      ensures Distinct(old(messages)) && msg !in old(messages) ==> Distinct(messages)
      ensures notifications == old(notifications) + 1
    {
      messages := messages + [msg];
      notifications := notifications + 1;
    }
  }

  /**
   * A client of the store: two messages arrive, the second is deleted and
   * undeleted, the first is deleted, a request past the end fails and
   * changes nothing, and the commit keeps only the second message.
   */
  method CommitScenario(digest: string -> string)
  {
    var box := new Mailbox(digest);
    var first := new Message("Hi there!\n", None);
    var second := new Message("Second\n", Some("second.eml"));
    box.AddMessage(first);
    box.AddMessage(second);
    assert box.messages == [first, second];
    var r := box.DeleteMessage(1);
    assert r == Pass && second.deleted;
    r := box.UndeleteMessages(1);
    assert !second.deleted && !first.deleted;
    r := box.DeleteMessage(0);
    assert first.deleted && !second.deleted;
    r := box.DeleteMessage(2);
    assert r == Fail(ValueError) && first.deleted && !second.deleted;
    assert box.ListMessages(Some(0)) == Ok(Size(10));
    box.Sync();
    assert box.messages == KeptMessages([first, second]);
    assert [first, second][..1] == [first] && [first][..0] == [];
    assert KeptMessages([first]) == [];
    assert box.messages == [second];
    assert box.GetMessage(0) == Ok("Second\n") && box.GetMessage(1) == Err(ValueError);
  }
}
