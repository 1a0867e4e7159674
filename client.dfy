/**
 * client: the benchmark flow's message listing and lookup over go-imap v1.
 * listMessage asks for the last N messages of the selected mailbox, and
 * fetchMessageById fetches one UID and insists the server returned it.
 */
module Client {
  import opened Wrappers
  import opened Imap

  /** uint32 subtraction, wrapping modulo 2^32. */
  function Sub32(a: uint32, b: uint32): (r: uint32)
    ensures a >= b ==> r == a - b
    ensures a < b ==> r == a - b + 0x1_0000_0000
  {
    (a - b) % 0x1_0000_0000
  }

  /** A sequence-number range from:to of section 9 of RFC 3501. */
  datatype SeqRange = SeqRange(from: uint32, to: uint32)

  /** How many sequence numbers the range covers. */
  function Size(r: SeqRange): nat {
    if r.from <= r.to then r.to - r.from + 1 else 0
  }

  function Min(a: int, b: int): int {
    if a <= b then a else b
  }

  /**
   * listMessage's range: it ends at the newest message and covers the last
   * lastN of them, or the whole mailbox when it holds fewer; the
   * subtraction only happens when it stays above zero. With lastN = 0 the
   * uint32 expression lastN-1 wraps to 2^32-1, so the range is the whole
   * mailbox too.
   */
  function ListRange(messages: uint32, lastN: uint32): (r: SeqRange)
    ensures r.to == messages && r.from >= 1
    ensures lastN >= 1 && messages >= lastN ==> r.from == messages - lastN + 1
    ensures lastN >= 1 && messages < lastN ==> r.from == 1
    ensures lastN == 0 ==> r.from == 1
    ensures lastN >= 1 ==> Size(r) == Min(messages, lastN)
  {
    if messages > Sub32(lastN, 1) then SeqRange(Sub32(messages, Sub32(lastN, 1)), messages)
    else SeqRange(1, messages)
  }

  /** What listMessage ends with: the messages, a fatal Fetch error, or waiting forever on a full channel. */
  datatype Listing = Listed(messages: seq<Message>) | FetchFatal(err: string) | Hung

  /**
   * listMessage with the mailbox size, the messages the server sends for
   * the request and its Fetch result taken as inputs. The range is computed
   * in uint32 as above; the messages are collected after Fetch returns
   * (the drain of the channel is CollectAfterDone's second loop), one entry
   * per message in receipt order.
   */
  method ListMessage(messages: uint32, lastN: uint32, received: seq<Message>, fetchErr: Option<string>)
    returns (request: SeqRange, r: Listing)
    ensures request == ListRange(messages, lastN)
    ensures |received| > ChannelCapacity ==> r == Hung
    ensures |received| <= ChannelCapacity && fetchErr.Some? ==> r == FetchFatal(fetchErr.value)
    ensures |received| <= ChannelCapacity && fetchErr.None? ==> r == Listed(received)
  {
    var from: uint32 := 1;
    var to := messages;
    if messages > Sub32(lastN, 1) {
      from := Sub32(messages, Sub32(lastN, 1));
    }
    request := SeqRange(from, to);
    var collected := CollectAfterDone(received);
    if collected.None? {
      return request, Hung;
    }
    if fetchErr.Some? {
      return request, FetchFatal(fetchErr.value);
    }
    r := Listed(collected.value);
  }

  /** What fetchMessageById ends with. */
  datatype Lookup =
    | Found(message: Message)
    | WrongUid(actual: UID, expected: UID)
    | NoSuchMessage(id: UID)
    | FetchFailed(err: string)
    | Blocked

  /**
   * fetchMessageById: it requests UID `id` (as the number; go-imap writes
   * 0 as `*`), a failed UidFetch is fatal, and it returns the first message
   * received only when that message's UID is `id`; a first message with
   * another UID panics without looking further, and receiving none panics
   * too.
   */
  method FetchMessageById(id: UID, received: seq<Message>, fetchErr: Option<string>)
    returns (requested: seq<UID>, r: Lookup)
    ensures requested == [id]
    ensures r.Found? ==> r.message.uid == id
    ensures r.Found? <==> |received| <= ChannelCapacity && fetchErr.None? && |received| > 0 && received[0].uid == id
    ensures r.Found? ==> r.message == received[0]
    ensures r.WrongUid? <==> |received| <= ChannelCapacity && fetchErr.None? && |received| > 0 && received[0].uid != id
    ensures r.WrongUid? ==> r == WrongUid(received[0].uid, id)
    ensures r == NoSuchMessage(id) <==> |received| <= ChannelCapacity && fetchErr.None? && received == []
    ensures r == Blocked <==> |received| > ChannelCapacity
    ensures |received| <= ChannelCapacity && fetchErr.Some? ==> r == FetchFailed(fetchErr.value)
  {
    requested := [id];
    var collected := CollectAfterDone(received);
    if collected.None? {
      return requested, Blocked;
    }
    if fetchErr.Some? {
      return requested, FetchFailed(fetchErr.value);
    }
    var msgs := collected.value;
    // The range loop either panics or returns on its first message.
    if |msgs| > 0 {
      if msgs[0].uid != id {
        return requested, WrongUid(msgs[0].uid, id);
      } else {
        return requested, Found(msgs[0]);
      }
    }
    r := NoSuchMessage(id);
  }
}
