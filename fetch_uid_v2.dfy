/**
 * benchmark/fetch_uid_v2: fetch one UID and, for every message the server
 * returns, fold its data items into per-message variables, skip the
 * message if its body could not be read, and otherwise open the body with
 * go-message to read the Message-ID header.
 */
module FetchUidV2 {
  import opened Wrappers
  import opened Imap
  import opened Mime

  const UnknownCharsetExit: string := "Unknown charset."
  const ReaderExit: string := "Failed to create mail reader."

  /** The field Header.Get("Message-ID") reads: the key's canonical form (Mime.DriverKeys). */
  const MessageIdField: string := "Message-Id"

  /** The variables main declares afresh for every message, plus the unknown item types it logged. */
  datatype Record = Record(
    envelope: Option<Envelope>,
    flags: Option<seq<string>>,
    uid: Option<UID>,
    internalDate: int,
    emlStr: string,
    emlErr: Option<string>,
    unknown: seq<string>)

  /** The zero values every message starts from. */
  const Fresh: Record := Record(None, None, None, 0, "", None, [])

  /** Which case of the type switch an item takes. */
  datatype Kind = EnvelopeKind | FlagsKind | UidKind | DateKind | BodyKind | OtherKind

  function KindOf(item: FetchItem): Kind {
    match item
    case EnvelopeItem(_) => EnvelopeKind
    case FlagsItem(_) => FlagsKind
    case UidItem(_) => UidKind
    case InternalDateItem(_) => DateKind
    case BodySectionItem(_) => BodyKind
    case Other(_) => OtherKind
  }

  /**
   * The type switch on one item: each kind sets its own variable, whatever
   * it held before, and leaves every other one alone; an unknown kind is
   * only logged.
   */
  function Apply(rec: Record, item: FetchItem): (r: Record)
    ensures KindOf(item) != EnvelopeKind ==> r.envelope == rec.envelope
    ensures KindOf(item) != FlagsKind ==> r.flags == rec.flags
    ensures KindOf(item) != UidKind ==> r.uid == rec.uid
    ensures KindOf(item) != DateKind ==> r.internalDate == rec.internalDate
    ensures KindOf(item) != BodyKind ==> r.emlStr == rec.emlStr && r.emlErr == rec.emlErr
    ensures KindOf(item) != OtherKind ==> r.unknown == rec.unknown
    ensures KindOf(item) == OtherKind ==> r == rec.(unknown := rec.unknown + [TypeName(item)])
  {
    match item
    case EnvelopeItem(e) => rec.(envelope := Some(e))
    case FlagsItem(f) => rec.(flags := Some(f))
    case UidItem(u) => rec.(uid := Some(u))
    case InternalDateItem(t) => rec.(internalDate := t)
    case BodySectionItem(literal) => rec.(emlStr := literal.data, emlErr := literal.readErr)
    case Other(_) => rec.(unknown := rec.unknown + [TypeName(item)])
  }

  /** The inner loop over one message's items, from the fresh variables. */
  function Collect(items: seq<FetchItem>): Record
    decreases |items|
  {
    if items == [] then Fresh else Apply(Collect(items[..|items| - 1]), items[|items| - 1])
  }

  /** The index of the last item of kind k, or -1 when there is none. */
  function LastOf(items: seq<FetchItem>, k: Kind): (i: int)
    ensures -1 <= i < |items|
    ensures i >= 0 ==> KindOf(items[i]) == k
    ensures forall m :: i < m < |items| ==> KindOf(items[m]) != k
    decreases |items|
  {
    if items == [] then -1
    else if KindOf(items[|items| - 1]) == k then |items| - 1
    else LastOf(items[..|items| - 1], k)
  }

  /** The types of the items of unknown kind, in order. */
  function UnknownTypes(items: seq<FetchItem>): seq<string>
    decreases |items|
  {
    if items == [] then []
    else UnknownTypes(items[..|items| - 1]) + (if items[|items| - 1].Other? then [TypeName(items[|items| - 1])] else [])
  }

  /** Dropping the last item: the last item of another kind is where it was. */
  lemma LastOfInit(items: seq<FetchItem>, k: Kind)
    requires items != [] && KindOf(items[|items| - 1]) != k
    ensures LastOf(items, k) == LastOf(items[..|items| - 1], k)
    ensures LastOf(items, k) >= 0 ==> items[LastOf(items, k)] == items[..|items| - 1][LastOf(items, k)]
  {
  }

  lemma {:induction false} LastEnvelope(items: seq<FetchItem>)
    ensures var i := LastOf(items, EnvelopeKind);
            Collect(items).envelope == if i < 0 then None else Some(items[i].envelope)
    decreases |items|
  {
    if items != [] && !items[|items| - 1].EnvelopeItem? {
      LastEnvelope(items[..|items| - 1]);
      LastOfInit(items, EnvelopeKind);
    }
  }

  lemma {:induction false} LastFlags(items: seq<FetchItem>)
    ensures var i := LastOf(items, FlagsKind);
            Collect(items).flags == if i < 0 then None else Some(items[i].flags)
    decreases |items|
  {
    if items != [] && !items[|items| - 1].FlagsItem? {
      LastFlags(items[..|items| - 1]);
      LastOfInit(items, FlagsKind);
    }
  }

  lemma {:induction false} LastUid(items: seq<FetchItem>)
    ensures var i := LastOf(items, UidKind);
            Collect(items).uid == if i < 0 then None else Some(items[i].uid)
    decreases |items|
  {
    if items != [] && !items[|items| - 1].UidItem? {
      LastUid(items[..|items| - 1]);
      LastOfInit(items, UidKind);
    }
  }

  lemma {:induction false} LastDate(items: seq<FetchItem>)
    ensures var i := LastOf(items, DateKind);
            Collect(items).internalDate == if i < 0 then 0 else items[i].unixSeconds
    decreases |items|
  {
    if items != [] && !items[|items| - 1].InternalDateItem? {
      LastDate(items[..|items| - 1]);
      LastOfInit(items, DateKind);
    }
  }

  lemma {:induction false} LastBody(items: seq<FetchItem>)
    ensures var i := LastOf(items, BodyKind);
            && Collect(items).emlStr == (if i < 0 then "" else items[i].literal.data)
            && Collect(items).emlErr == (if i < 0 then None else items[i].literal.readErr)
    decreases |items|
  {
    if items != [] && !items[|items| - 1].BodySectionItem? {
      LastBody(items[..|items| - 1]);
      LastOfInit(items, BodyKind);
    }
  }

  lemma {:induction false} UnknownLogged(items: seq<FetchItem>)
    ensures Collect(items).unknown == UnknownTypes(items)
    decreases |items|
  {
    if items != [] {
      UnknownLogged(items[..|items| - 1]);
    }
  }

  /**
   * After a message's items, every variable holds what the last item of its
   * kind carried, or its zero value when no such item came: internalDate
   * is 0 and emlStr "" with no error if no internal-date or body item
   * arrived. Unknown kinds only add to the log.
   */
  lemma FieldsFromLastItems(items: seq<FetchItem>)
    ensures var r := Collect(items);
      && (var i := LastOf(items, EnvelopeKind); r.envelope == if i < 0 then None else Some(items[i].envelope))
      && (var i := LastOf(items, FlagsKind); r.flags == if i < 0 then None else Some(items[i].flags))
      && (var i := LastOf(items, UidKind); r.uid == if i < 0 then None else Some(items[i].uid))
      && (var i := LastOf(items, DateKind); r.internalDate == if i < 0 then 0 else items[i].unixSeconds)
      && (var i := LastOf(items, BodyKind);
            && r.emlStr == (if i < 0 then "" else items[i].literal.data)
            && r.emlErr == (if i < 0 then None else items[i].literal.readErr))
      && r.unknown == UnknownTypes(items)
  {
    LastEnvelope(items);
    LastFlags(items);
    LastUid(items);
    LastDate(items);
    LastBody(items);
    UnknownLogged(items);
  }

  /** How main's loop ends a message: skipped, read, or the program exits. */
  datatype MessageResult =
    | Skipped(err: string)
    | Processed(record: Record, rawMessageId: string)
    | NilEnvelope(record: Record)
    | Exited(record: Record, text: string)

  predicate Ends(m: MessageResult) {
    m.NilEnvelope? || m.Exited?
  }

  /** One message, with mail.CreateReader over the eml string as an input. */
  function MessageOutcome(open: string -> MailOpen, items: seq<FetchItem>): MessageResult {
    var rec := Collect(items);
    if rec.emlErr.Some? then Skipped(rec.emlErr.value)
    else if rec.envelope.None? then NilEnvelope(rec)
    else
      match open(rec.emlStr)
      case OpenFailed(e) => Exited(rec, if e.IsUnknownCharset() then UnknownCharsetExit else ReaderExit)
      case Opened(header, _) => Processed(rec, Get(header, MessageIdField))
  }

  /** The outer loop: one result per message until one ends the program. */
  function FetchAll(open: string -> MailOpen, msgs: seq<seq<FetchItem>>): seq<MessageResult>
    decreases |msgs|
  {
    if msgs == [] then []
    else
      var m := MessageOutcome(open, msgs[0]);
      if Ends(m) then [m] else [m] + FetchAll(open, msgs[1..])
  }

  /**
   * The inner loop over one message's items, starting from fresh variables,
   * proved to leave them as Collect describes.
   */
  method ReadItems(items: seq<FetchItem>) returns (rec: Record)
    ensures rec == Collect(items)
  {
    var envelope: Option<Envelope> := None;
    var flags: Option<seq<string>> := None;
    var uid: Option<UID> := None;
    var emlStr := "";
    var emlErr: Option<string> := None;
    var internalDate := 0;
    var unknown: seq<string> := [];
    var j := 0;
    while j < |items|
      invariant j <= |items|
      invariant Record(envelope, flags, uid, internalDate, emlStr, emlErr, unknown) == Collect(items[..j])
    {
      var item := items[j];
      assert items[..j + 1][..j] == items[..j];
      match item {
        case EnvelopeItem(e) => envelope := Some(e);
        case FlagsItem(f) => flags := Some(f);
        case UidItem(u) => uid := Some(u);
        case InternalDateItem(t) => internalDate := t;
        case BodySectionItem(literal) => emlStr, emlErr := literal.data, literal.readErr;
        case Other(_) => unknown := unknown + [TypeName(item)];
      }
      j := j + 1;
    }
    assert items[..j] == items;
    rec := Record(envelope, flags, uid, internalDate, emlStr, emlErr, unknown);
  }

  /**
   * The body of main's loop for one message: read its items, then skip it on
   * a body read error, end on a nil envelope or a failed CreateReader, and
   * otherwise read its Message-ID.
   */
  method HandleMessage(open: string -> MailOpen, items: seq<FetchItem>) returns (m: MessageResult)
    ensures m == MessageOutcome(open, items)
  {
    var rec := ReadItems(items);
    if rec.emlErr.Some? {
      return Skipped(rec.emlErr.value);
    }
    if rec.envelope.None? {
      return NilEnvelope(rec);
    }
    var created := open(rec.emlStr);
    if created.OpenFailed? {
      return Exited(rec, if created.err.IsUnknownCharset() then UnknownCharsetExit else ReaderExit);
    }
    m := Processed(rec, Get(created.header, MessageIdField));
  }

  /** FetchAll from message i on: that message's outcome, then the rest unless it ends the program. */
  lemma FetchAllAt(open: string -> MailOpen, msgs: seq<seq<FetchItem>>, i: nat)
    requires i < |msgs|
    ensures var m := MessageOutcome(open, msgs[i]);
      FetchAll(open, msgs[i..]) == if Ends(m) then [m] else [m] + FetchAll(open, msgs[i + 1..])
  {
    assert msgs[i..][0] == msgs[i] && msgs[i..][1..] == msgs[i + 1..];
  }

  /**
   * main's fetch loop, with the FETCH response (each message's items) and
   * mail.CreateReader as inputs, proved to produce the results FetchAll
   * describes.
   */
  method FetchMessages(open: string -> MailOpen, msgs: seq<seq<FetchItem>>) returns (results: seq<MessageResult>)
    ensures results == FetchAll(open, msgs)
  {
    results := [];
    var i := 0;
    while i < |msgs|
      invariant i <= |msgs|
      invariant FetchAll(open, msgs) == results + FetchAll(open, msgs[i..])
    {
      FetchAllAt(open, msgs, i);
      var m := HandleMessage(open, msgs[i]);
      results := results + [m];
      if Ends(m) {
        return;
      }
      i := i + 1;
    }
    assert msgs[i..] == [];
  }

  /**
   * Nothing carries across messages: each result is that message's own
   * outcome from fresh variables, a skipped message does not stop the
   * loop, and only the last result can end the program; without one the
   * loop sees every message.
   */
  lemma {:induction false} PerMessage(open: string -> MailOpen, msgs: seq<seq<FetchItem>>)
    ensures |FetchAll(open, msgs)| <= |msgs|
    ensures forall k :: 0 <= k < |FetchAll(open, msgs)| ==> FetchAll(open, msgs)[k] == MessageOutcome(open, msgs[k])
    ensures forall k :: 0 <= k < |FetchAll(open, msgs)| - 1 ==> !Ends(FetchAll(open, msgs)[k])
    ensures |FetchAll(open, msgs)| < |msgs| ==>
      |FetchAll(open, msgs)| > 0 && Ends(FetchAll(open, msgs)[|FetchAll(open, msgs)| - 1])
    decreases |msgs|
  {
    if msgs != [] {
      PerMessage(open, msgs[1..]);
      var rest := FetchAll(open, msgs[1..]);
      if !Ends(MessageOutcome(open, msgs[0])) {
        assert FetchAll(open, msgs) == [MessageOutcome(open, msgs[0])] + rest;
        assert forall k :: 1 <= k < |FetchAll(open, msgs)| ==> FetchAll(open, msgs)[k] == rest[k - 1];
      }
    }
  }

  /**
   * A message whose last body section failed to read is skipped; with no
   * body section at all, emlStr is "" and there is no error, so it is not.
   */
  lemma SkipRule(open: string -> MailOpen, items: seq<FetchItem>)
    ensures MessageOutcome(open, items).Skipped? <==>
      LastOf(items, BodyKind) >= 0 && items[LastOf(items, BodyKind)].literal.readErr.Some?
    ensures LastOf(items, BodyKind) < 0 ==> Collect(items).emlStr == "" && !MessageOutcome(open, items).Skipped?
  {
    FieldsFromLastItems(items);
  }

  /**
   * A message that is not skipped must have had an envelope item, or the
   * program panics on it; a processed message reports the header's
   * "Message-Id" field, which Header.Get("Message-ID") reads.
   */
  lemma EnvelopeRequired(open: string -> MailOpen, items: seq<FetchItem>)
    requires !MessageOutcome(open, items).Skipped?
    ensures MessageOutcome(open, items).NilEnvelope? <==> LastOf(items, EnvelopeKind) < 0
    ensures MessageOutcome(open, items).Processed? ==>
      MessageOutcome(open, items).record.envelope == Some(items[LastOf(items, EnvelopeKind)].envelope)
    ensures MessageOutcome(open, items).Processed? ==>
      && open(Collect(items).emlStr).Opened?
      && var header := open(Collect(items).emlStr).header;
         MessageOutcome(open, items).rawMessageId == (if "Message-Id" in header then header["Message-Id"] else "")
  {
    FieldsFromLastItems(items);
  }
}
