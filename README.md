# tiny-pop3-server: the mailbox store and the protocol trace

This Dafny project models the in-memory mailbox behind `tiny-pop3-server.py`, a small POP3 server
with a GUI, meant for development. It also models the trace of protocol lines the server keeps.

- **Message** (`Messages.Message`) is a class. Its content and its stored label never change. Its
  `deleted` flag is switched in place by `Delete` and `Undelete`. `Label` gives the label the GUI
  shows.
- **Mailbox** (`Mailboxes.Mailbox`) is a class holding a `seq<Message>` of message objects, in
  arrival order, addressed by 0-based index.
  - Listing, content lookup and unique-id lookup are functions over that state.
  - Delete and undelete flag one message in place.
  - `Sync` commits: a `for` loop builds the list of unflagged messages and then replaces the list.
  - `AddMessage` appends a message.
  - Every indexed operation fails with `ValueError` exactly when the index is at or past the end.
- The mailbox's value is `View()`, a sequence of `MailboxSpec.MessageState`. Staged deletion is
  specified by `MailboxSpec.Flagged` and the commit by `MailboxSpec.Kept`. The properties of both
  are proved in module `MailboxSpec`.
- The flag belongs to the message object. If the same object is stored at two positions, deleting
  one position flags both. The method contracts say this. Where every position holds a distinct
  object (`Distinct`), they reduce to `Flagged` on the value.
- **The message log** (`Trace.MessageLog`) stands for the process-wide `messagelog` list. A
  received line is appended as `"C: "` plus the line with all leading and trailing `'\n'` and
  `'\r'` removed. A sent line gets `"S: "` instead.
- Change notifications to the GUI are counted in ghost fields (`notifications`).
- The SHA-1 hex digest behind the unique-ids is the constructor parameter `digest`. It is a
  deterministic function the model does not interpret.

Where RFC 1939's POP3 semantics differ, this model follows the code:
- a listing without an index includes flagged messages, where LIST hides them;
- indices are 0-based, where message numbers are 1-based;
- undelete takes one index, where RSET undeletes every message;
- there is no lock on the maildrop.

## Model

| member | source | states |
|---|---|---|
| `Messages.Message.constructor` | tiny-pop3-server.py:78-81 | a new message keeps the given content and label and is not flagged deleted |
| `Messages.Message.Label` | tiny-pop3-server.py:86-92 | no label when none or an empty one was stored; otherwise the stored label, followed by " (deleted)" exactly when the message is flagged |
| `Messages.LabelExtendsStored` | tiny-pop3-server.py:86-92 | a shown label always begins with the stored label |
| `Messages.Message.Delete` | tiny-pop3-server.py:97-98 | the message is flagged deleted afterwards, and nothing else changes |
| `Messages.Message.Undelete` | tiny-pop3-server.py:100-101 | the message is not flagged afterwards, and nothing else changes |
| `MailboxSpec.Flagged` | tiny-pop3-server.py:126-136 | setting one message's flag leaves the length, that message's content and label, and every other message unchanged |
| `MailboxSpec.FlaggedIdempotent` | tiny-pop3-server.py:126-136 | deleting or undeleting the same message twice is the same as doing it once |
| `MailboxSpec.DeleteThenUndelete` | tiny-pop3-server.py:126-136 | deleting an unflagged message and then undeleting it restores the mailbox |
| `MailboxSpec.UndeleteThenDelete` | tiny-pop3-server.py:126-136 | undeleting a flagged message and then deleting it again restores the mailbox |
| `MailboxSpec.UndeletedPositions` | tiny-pop3-server.py:140-142 | the positions of the unflagged messages, strictly increasing, each unflagged, and containing every unflagged position |
| `MailboxSpec.KeptIsUndeletedInOrder` | tiny-pop3-server.py:138-143 | a commit leaves exactly the unflagged messages: the k-th remaining message is the one at the k-th unflagged position |
| `MailboxSpec.KeptUnflagged` | tiny-pop3-server.py:138-143 | after a commit no message is flagged, and the new length is the number of unflagged messages |
| `MailboxSpec.KeptAllUnflagged` | tiny-pop3-server.py:138-143 | a commit of a mailbox with nothing flagged changes nothing |
| `MailboxSpec.KeptIdempotent` | tiny-pop3-server.py:138-143 | a second commit changes nothing |
| `MailboxSpec.KeptAfterOneDelete` | tiny-pop3-server.py:126-143 | deleting message i of an unflagged mailbox and committing removes exactly message i and keeps the others in order |
| `Mailboxes.KeptMessages` | tiny-pop3-server.py:139-142 | every message object kept by a commit was in the list and is not flagged |
| `Mailboxes.SnapshotKept` | tiny-pop3-server.py:138-143 | keeping the unflagged message objects keeps exactly the unflagged message states (`Kept`) |
| `Mailboxes.KeptMessagesDistinct` | tiny-pop3-server.py:138-143 | a commit never places one message object at two positions |
| `Mailboxes.Mailbox.constructor` | tiny-pop3-server.py:106-107 | a new mailbox holds no messages |
| `Mailboxes.Mailbox.ListMessages` | tiny-pop3-server.py:109-114 | without an index, one size per stored message in storage order, each that message's content length, flagged messages included; with an index, an error exactly when it is past the end, else that message's content length |
| `Mailboxes.Mailbox.ListOneAgreesWithAll` | tiny-pop3-server.py:109-114 | listing one message gives the entry of the full listing at that position, or the error past its end |
| `Mailboxes.Mailbox.GetMessage` | tiny-pop3-server.py:116-119 | an error exactly when the index is past the end, else that message's content |
| `Mailboxes.Mailbox.GetUidl` | tiny-pop3-server.py:121-124 | an error exactly when the index is past the end, else the digest of that message's content and nothing else |
| `Mailboxes.Mailbox.UidlOfEqualContent` | tiny-pop3-server.py:121-124 | two messages with equal content have equal unique-ids |
| `Mailboxes.Mailbox.DeleteMessage` | tiny-pop3-server.py:126-130 | fails exactly past the end, changing nothing and sending no notification; otherwise flags the message object at the index and every position holding it, and changes no other flag and no content; with distinct objects the new value is `Flagged(old value, index, true)`; the full listing is unchanged; one notification on success |
| `Mailboxes.Mailbox.UndeleteMessages` | tiny-pop3-server.py:132-136 | as `DeleteMessage`, clearing the flag: with distinct objects the new value is `Flagged(old value, index, false)` |
| `Mailboxes.Mailbox.Sync` | tiny-pop3-server.py:138-144 | the new list is the unflagged message objects in their original order, so the new value is `Kept(old value)`; distinct objects stay distinct; one notification |
| `Mailboxes.Mailbox.AddMessage` | tiny-pop3-server.py:146-148 | the message is appended after the earlier ones, which are unchanged; adding an object not yet stored keeps the objects distinct; one notification |
| `Trace.LeadingBreaks` | tiny-pop3-server.py:67 | the length of the longest prefix of line-break characters |
| `Trace.TrailingBreaks` | tiny-pop3-server.py:67 | the length of the longest suffix of line-break characters |
| `Trace.StripLineBreaks` | tiny-pop3-server.py:67 | the result is a contiguous slice of the line with only line breaks before and after it, and it neither starts nor ends with a line break |
| `Trace.StripLineBreaksUnique` | tiny-pop3-server.py:67 | line breaks, then a middle that neither starts nor ends with one, then line breaks strip to exactly that middle |
| `Trace.StripLineBreaksIdempotent` | tiny-pop3-server.py:67 | stripping a stripped line changes nothing |
| `Trace.EntryDetermines` | tiny-pop3-server.py:66-73 | two log lines are equal exactly when their directions and their stripped lines are equal |
| `Trace.MessageLog.constructor` | tiny-pop3-server.py:49 | the log starts empty |
| `Trace.MessageLog.IncomingLine` | tiny-pop3-server.py:66-68 | appends exactly one entry, "C: " followed by the stripped line, keeps the earlier entries, and sends one notification |
| `Trace.MessageLog.OutgoingLine` | tiny-pop3-server.py:71-73 | appends exactly one entry, "S: " followed by the stripped line, keeps the earlier entries, and sends one notification |

## Left out

- The POP3 protocol engine is left out. Command parsing, session states, authentication, multi-line framing and byte-stuffing all live in `twisted.mail.pop3.POP3`, which the server subclasses, and that library is not part of this model. So are the `successResponse`, `lineReceived` and `sendLine` overrides, which only forward lines to the trace and to the library.
- There is no mailbox lock in the code, so none is modelled.
- `Mailboxes.Mailbox.GetUidl`: SHA-1 and its hex rendering are the uninterpreted parameter `digest`. The model does not capture that `hashlib.sha1` needs bytes, so it would raise `TypeError` on the `str` content the GUI stores.
- `Mailboxes.Mailbox.GetMessage`: returns the content itself, not a stream over it. The source calls `StringIO.StringIO` on the `io.StringIO` class, which has no such attribute, so in Python 3 the in-range path raises `AttributeError`. The model follows the evident intent.
- Negative indices are not modelled: indices are `nat`. The guard `index >= len` lets a negative index through, and Python would then count it from the end of the list, or raise `IndexError` (not `ValueError`) below `-len`.
- `Messages.Message.constructor`: content is required. The source defaults it to `None`, and such a message would make `listMessages` raise.
- Content and lines are `string`. The UTF-8 `.decode()` of trace lines and any byte-level encoding of content are left out.
- A GUI event from `emit_event` is only counted in a ghost `notifications` field. The Tk event queue, the `GUI` class, the message import from files, `Service`, `SimpleRealm`, the credential checker and the TCP listener are UI, file I/O and framework wiring, and are left out.
- `messagelog` is a global list in the source. Here it is one `MessageLog` object, and `incoming_line` and `outgoing_line` are its methods.
