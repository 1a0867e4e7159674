/**
 * Values the go-imap client libraries hand to the drivers. The libraries
 * themselves (wire parsing, sessions) are not part of this model: their
 * results are inputs.
 */
module Imap {
  import opened Wrappers

  /** Go's uint32. */
  type uint32 = x: int | 0 <= x < 0x1_0000_0000

  /** A message UID (imap.UID in go-imap v2, a uint32 in v1). */
  type UID = uint32

  /** The envelope fields the drivers read. */
  datatype Envelope = Envelope(messageId: string, subject: string)

  /** A message literal as io.ReadAll sees it: the bytes read, then the error that stopped the read, if not EOF. */
  datatype Literal = Literal(data: string, readErr: Option<string>)

  /**
   * One fetch data item of go-imap v2 (the FetchItemData* types the drivers
   * switch on); Other stands for every type they have no case for.
   */
  datatype FetchItem =
    | EnvelopeItem(envelope: Envelope)
    | FlagsItem(flags: seq<string>)
    | UidItem(uid: UID)
    | InternalDateItem(unixSeconds: int)
    | BodySectionItem(literal: Literal)
    | Other(typeName: string)

  /** reflect.TypeOf(item).String() for an item. */
  function TypeName(item: FetchItem): string {
    match item
    case EnvelopeItem(_) => "imapclient.FetchItemDataEnvelope"
    case FlagsItem(_) => "imapclient.FetchItemDataFlags"
    case UidItem(_) => "imapclient.FetchItemDataUID"
    case InternalDateItem(_) => "imapclient.FetchItemDataInternalDate"
    case BodySectionItem(_) => "imapclient.FetchItemDataBodySection"
    case Other(t) => t
  }

  /** A message as go-imap v1 delivers it on a channel (imap.Message), with the fields the drivers read. */
  datatype Message = Message(seqNum: uint32, uid: UID, envelope: Option<Envelope>)

  /** A mailbox as go-imap v1 lists it (imap.MailboxInfo). */
  datatype MailboxInfo = MailboxInfo(attributes: seq<string>, delimiter: string, name: string)

  /** The buffer size of the channels the go-imap v1 drivers hand to List and Fetch. */
  const ChannelCapacity: nat := 10

  /**
   * The drivers' collection pattern: start the command in a goroutine that
   * sends every item on a channel of ChannelCapacity slots and closes it,
   * wait for the command's result on `done`, and only then drain the
   * channel. While the channel is full the command cannot finish, so with
   * more items than slots nothing ever arrives on `done` (None: the caller
   * waits forever); otherwise every item comes out in the order it was sent.
   */
  method CollectAfterDone<T>(sent: seq<T>) returns (r: Option<seq<T>>)
    ensures r.Some? <==> |sent| <= ChannelCapacity
    ensures r.Some? ==> r.value == sent
  {
    var buffer: seq<T> := [];
    var i := 0;
    while i < |sent| && |buffer| < ChannelCapacity
      invariant i <= |sent| && buffer == sent[..i] && |buffer| <= ChannelCapacity
    {
      buffer := buffer + [sent[i]];
      i := i + 1;
    }
    if i < |sent| {
      return None;
    }
    assert buffer == sent;
    var result: seq<T> := [];
    while |buffer| > 0
      invariant result + buffer == sent
    {
      result, buffer := result + [buffer[0]], buffer[1..];
    }
    return Some(result);
  }

  /**
   * The same channel drained while the command runs: the command sends
   * whenever a slot is free, the caller receives whenever the channel holds
   * an item, and `done` is read after the channel is closed. Every item
   * comes out, in the order it was sent.
   */
  method CollectWhileRunning<T>(sent: seq<T>) returns (r: seq<T>)
    ensures r == sent
  {
    var buffer: seq<T> := [];
    var i := 0;
    r := [];
    while i < |sent| || |buffer| > 0
      invariant i <= |sent| && |buffer| <= ChannelCapacity
      invariant r + buffer == sent[..i]
      decreases 2 * (|sent| - i) + |buffer|
    {
      if i < |sent| && |buffer| < ChannelCapacity {
        buffer, i := buffer + [sent[i]], i + 1;
      } else {
        r, buffer := r + [buffer[0]], buffer[1..];
      }
    }
    assert sent[..i] == sent;
  }
}
