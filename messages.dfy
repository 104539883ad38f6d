/** One stored message: immutable content, an optional label and a deletion flag changed in place. */
module Messages {
  import opened Results
  import opened MailboxSpec

  class Message {
    const content: string
    /** The label given at creation, typically the name of the file the message came from. */
    const storedLabel: Option<string>
    var deleted: bool

    /** A new message is never flagged deleted. */
    constructor (content: string, storedLabel: Option<string>)
      ensures this.content == content && this.storedLabel == storedLabel
      ensures !deleted
    {
      this.content := content;
      this.storedLabel := storedLabel;
      deleted := false;
    }

    /**
     * The label shown for the message: nothing when no label or an empty
     * one was stored; otherwise the stored label, marked when the message
     * is flagged deleted.
     */
    function Label(): (r: Option<string>)
      reads this
      ensures r.None? <==> storedLabel == None || storedLabel == Some("")
      ensures r.Some? && !deleted ==> r == storedLabel
      ensures r.Some? && deleted ==> r.value == storedLabel.value + " (deleted)"
    {
      match storedLabel
      case None => None
      case Some(text) =>
        if text == "" then None
        else if deleted then Some(text + " (deleted)")
        else Some(text)
    }

    /** The message as a value, as the mailbox model sees it. */
    function State(): MessageState
      reads this
    {
      MessageState(content, storedLabel, deleted)
    }

    method Delete()
      modifies this
      ensures deleted
    {
      deleted := true;
    }

    method Undelete()
      modifies this
      ensures !deleted
    {
      deleted := false;
    }
  }

  /** The shown label always begins with the stored one. */
  lemma LabelExtendsStored(m: Message)
    ensures m.Label().Some? ==> m.storedLabel.Some? && m.storedLabel.value <= m.Label().value
  {
  }
}
