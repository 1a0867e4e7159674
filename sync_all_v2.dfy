/**
 * benchmark/sync_all_v2: search each folder for the last 90 days, fetch the
 * hits, keep a mail reader for the body section of the last fetched item,
 * and walk that reader once with a five-way error triage.
 */
module SyncAllV2 {
  import opened Wrappers
  import opened GoStrings
  import opened Imap
  import opened Mime

  const MalformedHeaderError: string := "malformed MIME header line"
  const MultipartError: string := "multipart:"
  const EncodingError: string := "encoding error"

  // ---------------------------------------------------------------- searchOneFolder

  /**
   * The date criteria of imap.SearchCriteria, as day numbers: SENTSINCE and
   * SENTBEFORE of section 6.4.4 of RFC 3501. The driver sets only SentSince.
   */
  datatype SearchCriteria = SearchCriteria(sentSince: Option<int>, sentBefore: Option<int>)

  /** Whether a message sent on day `sent` satisfies the criteria (SENTSINCE is inclusive, SENTBEFORE strict). */
  predicate Admits(c: SearchCriteria, sent: int) {
    (c.sentSince.None? || c.sentSince.value <= sent) && (c.sentBefore.None? || sent < c.sentBefore.value)
  }

  /** The criteria searchOneFolder sends: SentSince is today moved back 90 days. */
  function Criteria(today: int): SearchCriteria {
    SearchCriteria(Some(today - 90), None)
  }

  /** The search admits exactly the messages sent on or after the day 90 days before today. */
  lemma SearchWindow(today: int, sent: int)
    ensures Admits(Criteria(today), sent) <==> today - 90 <= sent
  {
  }

  /**
   * searchOneFolder with the server taken as inputs: the SELECT error, if
   * any, and the UID SEARCH response to each criteria. Either failure
   * panics; otherwise every UID of the response comes back.
   */
  function SearchOneFolder(today: int, selectErr: Option<string>, search: SearchCriteria -> Result<seq<UID>, string>)
    : (r: Result<seq<UID>, string>)
    ensures selectErr.Some? ==> r == Err(selectErr.value)
    ensures selectErr.None? && search(Criteria(today)).Ok? ==> r == Ok(search(Criteria(today)).value)
    ensures selectErr.None? && search(Criteria(today)).Err? ==> r == Err(search(Criteria(today)).error)
  {
    if selectErr.Some? then Err(selectErr.value)
    else
      match search(Criteria(today))
      case Err(e) => Err(e)
      case Ok(uids) => Ok(uids)
  }

  // ---------------------------------------------------------------- parseBody

  /** The error switch of parseBody, first match wins. */
  function Triage(e: PartError): Verdict {
    if e.IsUnknownCharset() then Ignore(UnknownCharset)
    else if Contains(e.Error(), MalformedHeaderError) then Ignore(MalformedHeaderLine)
    else if Contains(e.Error(), MultipartError) then Stop(MultipartFailure)
    else if Contains(e.Error(), EncodingError) then Stop(EncodingFailure)
    else Panic
  }

  /** What parseBody does with a part: a nil part is skipped, and only inline parts are looked at. */
  function Dispatch(part: Option<Part>): Step {
    match part
    case None => Proceed([])
    case Some(p) =>
      match p.header
      case InlineHeader(fields) =>
        var contentType := Get(fields, "Content-Type");
        (match InlineKind(contentType)
         case Plain => Proceed([TextBody(ReadAll(p.body))])
         case Html => Proceed([HtmlBody(ReadAll(p.body))])
         case NotText => Proceed([InlineAttachment(contentType)]))
      case AttachmentHeader(_) => Proceed([])
  }

  /** The loop body of parseBody for one NextPart result. */
  function Handle(o: Outcome): Step {
    match o.err
    case None => Dispatch(o.part)
    case Some(e) =>
      if e.IsEOF() then Finish([], Done)
      else
        match Triage(e)
        case Ignore(w) => Prepend([Warned(w)], Dispatch(o.part))
        case Stop(w) => Finish([Warned(w)], Stopped)
        case Panic => Finish([], Failed(PartFailed(e.Error())))
  }

  const Handler: Outcome -> Step := o => Handle(o)

  /** parseBody's walk; NextPart on a nil reader panics on the dereference. */
  function Parse(mr: Option<seq<Outcome>>): Walk {
    match mr
    case None => Walk([], Failed(NilReader), 0)
    case Some(outcomes) => Run(Handler, outcomes)
  }

  /** One pass of parseBody's loop body; `leave` says the loop breaks (or panics) here. */
  method HandlePart(o: Outcome) returns (actions: seq<Action>, leave: bool, status: Status)
    ensures (if leave then Finish(actions, status) else Proceed(actions)) == Handle(o)
  {
    actions, leave, status := [], false, Done;
    if o.err.Some? && o.err.value.IsEOF() {
      leave := true;
      return;
    } else if o.err.Some? {
      var err := o.err.value;
      var shouldBreak := false;
      if err.IsUnknownCharset() {
        actions := actions + [Warned(UnknownCharset)];
      } else if Contains(err.Error(), MalformedHeaderError) {
        actions := actions + [Warned(MalformedHeaderLine)];
      } else if Contains(err.Error(), MultipartError) {
        actions := actions + [Warned(MultipartFailure)];
        shouldBreak := true;
      } else if Contains(err.Error(), EncodingError) {
        actions := actions + [Warned(EncodingFailure)];
        shouldBreak := true;
      } else {
        leave, status := true, Failed(PartFailed(err.Error()));
        return;
      }
      if shouldBreak {
        leave, status := true, Stopped;
        return;
      }
    }
    if o.part.None? {
      return;
    }
    var part := o.part.value;
    match part.header {
      case InlineHeader(fields) =>
        var contentType := Get(fields, "Content-Type");
        if Contains(contentType, PlainTextContentType) {
          actions := actions + [TextBody(ReadAll(part.body))];
        } else if Contains(contentType, HTMLContentType) {
          actions := actions + [HtmlBody(ReadAll(part.body))];
        } else {
          actions := actions + [InlineAttachment(contentType)];
        }
      case AttachmentHeader(_) =>
    }
  }

  lemma RunStep(outcomes: seq<Outcome>, c: nat)
    requires c < |outcomes|
    ensures Handle(outcomes[c]).Proceed? ==>
      Run(Handler, outcomes[c..]) == Resumed(Handle(outcomes[c]).actions, 1, Run(Handler, outcomes[c + 1..]))
    ensures Handle(outcomes[c]).Finish? ==>
      Run(Handler, outcomes[c..]) == Walk(Handle(outcomes[c]).actions, Handle(outcomes[c]).status, 1)
  {
    assert Handler(outcomes[c]) == Handle(outcomes[c]);
    RunFirst(Handler, outcomes, c);
  }

  /** parseBody, proved to perform the walk Parse describes. */
  method ParseBody(mr: Option<seq<Outcome>>) returns (actions: seq<Action>, status: Status, calls: nat)
    ensures Walk(actions, status, calls) == Parse(mr)
  {
    actions, status, calls := [], Done, 0;
    if mr.None? {
      status := Failed(NilReader);
      return;
    }
    var outcomes := mr.value;
    while calls < |outcomes|
      invariant calls <= |outcomes|
      invariant status == Done
      invariant Run(Handler, outcomes) == Resumed(actions, calls, Run(Handler, outcomes[calls..]))
    {
      RunStep(outcomes, calls);
      ResumedTwice(actions, calls, Handle(outcomes[calls]).actions, 1, Run(Handler, outcomes[calls + 1..]));
      var acts, leave, st := HandlePart(outcomes[calls]);
      actions, calls := actions + acts, calls + 1;
      if leave {
        status := st;
        break;
      }
    }
    if status == Done && calls == |outcomes| {
      assert outcomes[calls..] == [];
    }
  }

  /** The error NextPart returned stops parseBody: it passes both ignore tests and names a multipart or encoding failure. */
  predicate StopsWalk(o: Outcome) {
    && o.err.Some? && !o.err.value.IsEOF() && !o.err.value.IsUnknownCharset()
    && !Contains(o.err.value.Error(), MalformedHeaderError)
    && (Contains(o.err.value.Error(), MultipartError) || Contains(o.err.value.Error(), EncodingError))
  }

  /** The error NextPart returned makes parseBody panic: it matches none of the four tests. */
  predicate PanicsWalk(o: Outcome) {
    && o.err.Some? && !o.err.value.IsEOF() && !o.err.value.IsUnknownCharset()
    && !Contains(o.err.value.Error(), MalformedHeaderError)
    && !Contains(o.err.value.Error(), MultipartError) && !Contains(o.err.value.Error(), EncodingError)
  }

  /**
   * Only an error leaves parseBody's loop, and how it ends follows the
   * triage: EOF ends it, a multipart or encoding error stops it, an
   * unrecognised error panics, and nothing else leaves the loop.
   */
  lemma LeaveOnlyOnError(o: Outcome)
    ensures Handle(o).Finish? <==>
      o.err.Some? && (o.err.value.IsEOF() || StopsWalk(o) || PanicsWalk(o))
    ensures Handle(o).Finish? ==>
      && (Handle(o).status == Done <==> o.err.value.IsEOF())
      && (Handle(o).status == Stopped <==> StopsWalk(o))
      && (Handle(o).status.Failed? <==> PanicsWalk(o))
      && (PanicsWalk(o) ==> Handle(o).status == Failed(PartFailed(o.err.value.Error())))
  {
  }

  /** How any walk of parseBody ends, by the result at which it halts. */
  lemma WalkEnding(outcomes: seq<Outcome>)
    ensures var h := HaltIndex(Handler, outcomes);
            var w := Run(Handler, outcomes);
            && (forall j :: 0 <= j < h ==> !StopsWalk(outcomes[j]) && !PanicsWalk(outcomes[j]))
            && (w.status == Done <==> h == |outcomes| || outcomes[h].err.value.IsEOF())
            && (w.status == Stopped <==> h < |outcomes| && StopsWalk(outcomes[h]))
            && (w.status.Failed? <==> h < |outcomes| && PanicsWalk(outcomes[h]))
  {
    RunShape(Handler, outcomes);
    var h := HaltIndex(Handler, outcomes);
    forall j | 0 <= j < h
      ensures !StopsWalk(outcomes[j]) && !PanicsWalk(outcomes[j])
    {
      assert Handler(outcomes[j]) == Handle(outcomes[j]);
      LeaveOnlyOnError(outcomes[j]);
    }
    if h < |outcomes| {
      assert Handler(outcomes[h]) == Handle(outcomes[h]);
      LeaveOnlyOnError(outcomes[h]);
    }
  }

  /**
   * Because the malformed-header test comes before the multipart test, an
   * error naming both is ignored and the part returned with it is handled.
   */
  lemma MalformedBeforeMultipart(o: Outcome)
    requires o.err.Some? && !o.err.value.IsEOF() && !o.err.value.IsUnknownCharset()
    requires Contains(o.err.value.Error(), MalformedHeaderError) && Contains(o.err.value.Error(), MultipartError)
    ensures Handle(o) == Proceed([Warned(MalformedHeaderLine)] + Dispatch(o.part).actions)
  {
  }

  /**
   * The part NextPart returned goes to the type switch when there is no
   * error, and after the warning when the error is an unknown charset or a
   * malformed header line; so a nil part is skipped in both cases.
   */
  lemma HandleDispatches(o: Outcome)
    ensures o.err.None? ==> Handle(o) == Dispatch(o.part)
    ensures o.err.Some? && !o.err.value.IsEOF() && o.err.value.IsUnknownCharset() ==>
      Handle(o) == Proceed([Warned(UnknownCharset)] + Dispatch(o.part).actions)
    ensures o.err.Some? && !o.err.value.IsEOF() && !o.err.value.IsUnknownCharset()
            && Contains(o.err.value.Error(), MalformedHeaderError) ==>
      Handle(o) == Proceed([Warned(MalformedHeaderLine)] + Dispatch(o.part).actions)
    ensures o.part.None? && (o.err.None? || (!o.err.value.IsEOF() && Triage(o.err.value).Ignore?)) ==>
      Handle(o).Proceed? && Handle(o).actions == (if o.err.None? then [] else [Warned(Triage(o.err.value).warning)])
  {
  }

  /**
   * A nil part produces no action, and only inline parts produce actions, in
   * the order text/plain, text/html, inline attachment (HandleDispatches
   * connects this to the loop body).
   */
  lemma DispatchRules(part: Option<Part>)
    ensures Dispatch(part).Proceed? && |Dispatch(part).actions| <= 1
    ensures part.None? || part.value.header.AttachmentHeader? <==> Dispatch(part).actions == []
    ensures part.Some? && part.value.header.InlineHeader? ==>
      var ct := Get(part.value.header.fields, "Content-Type");
      && (Contains(ct, PlainTextContentType) ==> Dispatch(part).actions == [TextBody(part.value.body.data)])
      && (!Contains(ct, PlainTextContentType) && Contains(ct, HTMLContentType) ==>
            Dispatch(part).actions == [HtmlBody(part.value.body.data)])
      && (!Contains(ct, PlainTextContentType) && !Contains(ct, HTMLContentType) ==>
            Dispatch(part).actions == [InlineAttachment(ct)])
  {
  }

  // ---------------------------------------------------------------- loadMsgs

  /** A body section to fetch: BODY.PEEK[] when peek is set. */
  datatype BodySection = BodySection(peek: bool)

  /** The FETCH command loadMsgs sends: the UID set and the fetch options. */
  datatype FetchRequest = FetchRequest(uids: seq<UID>, envelope: bool, flags: bool, uid: bool, bodySections: seq<BodySection>)

  function Request(uids: seq<UID>): FetchRequest {
    FetchRequest(uids, true, true, true, [BodySection(true)])
  }

  /** The item types loadMsgs' switch has a case for; the rest only log a warning. */
  predicate Recognised(item: FetchItem) {
    item.EnvelopeItem? || item.BodySectionItem? || item.FlagsItem? || item.UidItem?
  }

  /** What the fetch loop has built so far: the current reader, the unknown item types logged, and a CreateReader failure. */
  datatype Scan = Scan(reader: Option<seq<Outcome>>, unknown: seq<string>, failed: Option<PartError>)

  const Start: Scan := Scan(None, [], None)

  /** The switch on one fetch item; once CreateReader has failed the driver has panicked and nothing changes. */
  function Absorb(open: Literal -> MailOpen, st: Scan, item: FetchItem): Scan {
    if st.failed.Some? then st
    else if item.BodySectionItem? then
      match open(item.literal)
      case Opened(_, parts) => st.(reader := Some(parts))
      case OpenFailed(e) => st.(failed := Some(e))
    else if Recognised(item) then st
    else st.(unknown := st.unknown + [TypeName(item)])
  }

  /** The fetch loop over a stream of items. */
  function ScanAll(open: Literal -> MailOpen, st: Scan, items: seq<FetchItem>): Scan
    decreases |items|
  {
    if items == [] then st else ScanAll(open, Absorb(open, st, items[0]), items[1..])
  }

  /** All fetched messages' items, message by message. */
  function Flatten(msgs: seq<seq<FetchItem>>): seq<FetchItem>
    decreases |msgs|
  {
    if msgs == [] then [] else msgs[0] + Flatten(msgs[1..])
  }

  /** What loadMsgs does: no fetch at all, a panic in CreateReader, or one parseBody walk. */
  datatype Load =
    | NoFetch
    | OpenPanicked(request: FetchRequest, unknown: seq<string>, err: PartError)
    | Loaded(request: FetchRequest, unknown: seq<string>, walk: Walk)

  function LoadSpec(open: Literal -> MailOpen, uids: seq<UID>, msgs: seq<seq<FetchItem>>): Load {
    if |uids| == 0 then NoFetch
    else
      var s := ScanAll(open, Start, Flatten(msgs));
      match s.failed
      case Some(e) => OpenPanicked(Request(uids), s.unknown, e)
      case None => Loaded(Request(uids), s.unknown, Parse(s.reader))
  }

  lemma {:induction false} FailedStays(open: Literal -> MailOpen, st: Scan, items: seq<FetchItem>)
    requires st.failed.Some?
    ensures ScanAll(open, st, items) == st
    decreases |items|
  {
    if items != [] {
      FailedStays(open, st, items[1..]);
    }
  }

  lemma FlattenFrom(msgs: seq<seq<FetchItem>>, i: nat)
    requires i < |msgs|
    ensures Flatten(msgs[i..]) == msgs[i] + Flatten(msgs[i + 1..])
  {
    assert msgs[i..][0] == msgs[i] && msgs[i..][1..] == msgs[i + 1..];
  }

  /**
   * loadMsgs with the server's FETCH response (each message's items) and
   * mail.CreateReader taken as inputs: returns at once for no UIDs, panics
   * if a reader cannot be created, else walks the last reader once.
   */
  method LoadMsgs(open: Literal -> MailOpen, uids: seq<UID>, msgs: seq<seq<FetchItem>>) returns (r: Load)
    ensures r == LoadSpec(open, uids, msgs)
    ensures r.NoFetch? <==> |uids| == 0
    ensures !r.NoFetch? ==> r.request.uids == uids
  {
    if |uids| == 0 {
      return NoFetch;
    }
    var request := Request(uids);
    var mr: Option<seq<Outcome>> := None;
    var unknown: seq<string> := [];
    var i := 0;
    while i < |msgs|
      invariant i <= |msgs|
      invariant ScanAll(open, Scan(mr, unknown, None), Flatten(msgs[i..])) == ScanAll(open, Start, Flatten(msgs))
    {
      var items := msgs[i];
      FlattenFrom(msgs, i);
      var j := 0;
      while j < |items|
        invariant j <= |items|
        invariant ScanAll(open, Scan(mr, unknown, None), items[j..] + Flatten(msgs[i + 1..]))
               == ScanAll(open, Start, Flatten(msgs))
      {
        var item := items[j];
        ghost var rest := items[j + 1..] + Flatten(msgs[i + 1..]);
        assert (items[j..] + Flatten(msgs[i + 1..]))[0] == item;
        assert (items[j..] + Flatten(msgs[i + 1..]))[1..] == rest;
        match item {
          case EnvelopeItem(_) =>
          case BodySectionItem(literal) =>
            var created := open(literal);
            if created.OpenFailed? {
              FailedStays(open, Scan(mr, unknown, Some(created.err)), rest);
              return OpenPanicked(request, unknown, created.err);
            }
            mr := Some(created.parts);
          case FlagsItem(_) =>
          case UidItem(_) =>
          case _ =>
            unknown := unknown + [TypeName(item)];
        }
        j := j + 1;
      }
      assert items[j..] == [];
      assert items[j..] + Flatten(msgs[i + 1..]) == Flatten(msgs[i + 1..]);
      i := i + 1;
    }
    assert msgs[i..] == [];
    var actions, status, calls := ParseBody(mr);
    return Loaded(request, unknown, Walk(actions, status, calls));
  }

  /** The literal of the last body-section item, if any. */
  function LastBody(items: seq<FetchItem>): (r: Option<Literal>)
    ensures r.Some? <==> exists k :: 0 <= k < |items| && items[k].BodySectionItem?
    ensures r.Some? ==>
      exists k :: 0 <= k < |items| && items[k] == BodySectionItem(r.value)
                  && forall m :: k < m < |items| ==> !items[m].BodySectionItem?
    decreases |items|
  {
    if items == [] then None
    else
      match LastBody(items[1..])
      case Some(l) => Some(l)
      case None => if items[0].BodySectionItem? then Some(items[0].literal) else None
  }

  /** The types of the items the switch has no case for, in order. */
  function Unrecognised(items: seq<FetchItem>): seq<string>
    decreases |items|
  {
    if items == [] then []
    else (if Recognised(items[0]) then [] else [TypeName(items[0])]) + Unrecognised(items[1..])
  }

  /**
   * The fetch loop never panics unless CreateReader fails on some body
   * section; when it does not, the reader is the one built from the last
   * body section (earlier ones are overwritten, none keeps the old one), and
   * the unknown item types are logged in order and change nothing else.
   */
  lemma {:induction false} ScanResult(open: Literal -> MailOpen, st: Scan, items: seq<FetchItem>)
    requires st.failed.None?
    ensures ScanAll(open, st, items).failed.None? <==>
      forall k :: 0 <= k < |items| && items[k].BodySectionItem? ==> open(items[k].literal).Opened?
    ensures ScanAll(open, st, items).failed.None? ==>
      && ScanAll(open, st, items).reader ==
           (if LastBody(items).Some? then Some(open(LastBody(items).value).parts) else st.reader)
      && ScanAll(open, st, items).unknown == st.unknown + Unrecognised(items)
  {
    ScanSucceeds(open, st, items);
    if ScanAll(open, st, items).failed.None? {
      ScanReader(open, st, items);
      ScanUnknown(open, st, items);
    }
  }

  /** The scan ends without a panic exactly when every body section opens. */
  lemma {:induction false} ScanSucceeds(open: Literal -> MailOpen, st: Scan, items: seq<FetchItem>)
    requires st.failed.None?
    ensures ScanAll(open, st, items).failed.None? <==>
      forall k :: 0 <= k < |items| && items[k].BodySectionItem? ==> open(items[k].literal).Opened?
    decreases |items|
  {
    if items != [] {
      var next := Absorb(open, st, items[0]);
      if next.failed.Some? {
        FailedStays(open, next, items[1..]);
      } else {
        ScanSucceeds(open, next, items[1..]);
        assert forall k :: 1 <= k < |items| ==> items[k] == items[1..][k - 1];
      }
    }
  }

  /** Without a panic, the reader is built from the last body section, or is the one the scan started with. */
  lemma {:induction false} ScanReader(open: Literal -> MailOpen, st: Scan, items: seq<FetchItem>)
    requires ScanAll(open, st, items).failed.None?
    ensures LastBody(items).Some? ==>
      open(LastBody(items).value).Opened? && ScanAll(open, st, items).reader == Some(open(LastBody(items).value).parts)
    ensures LastBody(items).None? ==> ScanAll(open, st, items).reader == st.reader
    decreases |items|
  {
    if items != [] {
      var next := Absorb(open, st, items[0]);
      if st.failed.Some? || next.failed.Some? {
        FailedStays(open, next, items[1..]);
      } else {
        ScanReader(open, next, items[1..]);
      }
    }
  }

  /** Without a panic, the unknown item types are appended to the log in order. */
  lemma {:induction false} ScanUnknown(open: Literal -> MailOpen, st: Scan, items: seq<FetchItem>)
    requires ScanAll(open, st, items).failed.None?
    ensures ScanAll(open, st, items).unknown == st.unknown + Unrecognised(items)
    decreases |items|
  {
    if items != [] {
      var next := Absorb(open, st, items[0]);
      if st.failed.Some? || next.failed.Some? {
        FailedStays(open, next, items[1..]);
      } else {
        ScanUnknown(open, next, items[1..]);
      }
    }
  }

  /**
   * loadMsgs walks exactly one reader, after the fetch loop: the one built
   * from the last body section of all fetched messages, or a nil reader
   * when no body section arrived.
   */
  lemma LoadWalksLastReader(open: Literal -> MailOpen, uids: seq<UID>, msgs: seq<seq<FetchItem>>)
    requires |uids| > 0
    requires forall k :: 0 <= k < |Flatten(msgs)| && Flatten(msgs)[k].BodySectionItem? ==>
      open(Flatten(msgs)[k].literal).Opened?
    ensures LoadSpec(open, uids, msgs).Loaded?
    ensures LoadSpec(open, uids, msgs).unknown == Unrecognised(Flatten(msgs))
    ensures LoadSpec(open, uids, msgs).walk ==
      Parse(if LastBody(Flatten(msgs)).Some? then Some(open(LastBody(Flatten(msgs)).value).parts) else None)
  {
    ScanResult(open, Start, Flatten(msgs));
  }
}
