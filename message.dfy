/**
 * benchmark/message: the strict driver. Every NextPart error other than
 * io.EOF itself panics, an attachment must carry X-Attachment-Id, and the
 * folder list is collected from a buffered channel after List returns.
 */
module MessageBench {
  import opened Wrappers
  import opened GoStrings
  import opened Imap
  import opened Mime
  import NameRegex

  /** printAttachment: the metadata and content of an attachment, which must have an X-Attachment-Id field. */
  function PrintAttachment(fields: Fields, body: Body): Step {
    if Has(fields, "X-Attachment-Id") then
      Proceed([FoundAttachment(Describe(fields, Given(Get(fields, "X-Attachment-Id"))), ReadAll(body))])
    else
      Finish([], Failed(NoAttachmentId))
  }

  /** The type switch on a part; a nil part panics on the dereference. */
  function Dispatch(part: Option<Part>): Step {
    match part
    case None => Finish([], Failed(NilPart))
    case Some(p) =>
      match p.header
      case InlineHeader(fields) =>
        (match InlineKind(Get(fields, "Content-Type"))
         case Plain => Proceed([TextBody(ReadAll(p.body))])
         case Html => Proceed([HtmlBody(ReadAll(p.body))])
         case NotText => PrintAttachment(fields, p.body))
      case AttachmentHeader(fields) => PrintAttachment(fields, p.body)
  }

  /** The loop body for one NextPart result: `err == io.EOF` compares the value itself, so a wrapped EOF panics. */
  function Handle(o: Outcome): Step {
    match o.err
    case Some(e) => if e == EOF then Finish([], Done) else Finish([], Failed(PartFailed(e.Error())))
    case None => Dispatch(o.part)
  }

  const Handler: Outcome -> Step := o => Handle(o)

  /** One pass of the loop body; `leave` says the loop breaks (or panics) here. */
  method HandlePart(o: Outcome) returns (actions: seq<Action>, leave: bool, status: Status)
    ensures (if leave then Finish(actions, status) else Proceed(actions)) == Handle(o)
  {
    actions, leave, status := [], false, Done;
    if o.err == Some(EOF) {
      leave := true;
      return;
    } else if o.err.Some? {
      leave, status := true, Failed(PartFailed(o.err.value.Error()));
      return;
    }
    var next := Dispatch(o.part);
    actions := next.actions;
    if next.Finish? {
      leave, status := true, next.status;
    }
  }

  lemma RunStep(outcomes: seq<Outcome>, c: nat)
    requires c < |outcomes|
    ensures Handle(outcomes[c]).Proceed? ==>
      Run(Handler, outcomes[c..]) == Resumed(Handle(outcomes[c]).actions, 1, Run(Handler, outcomes[c + 1..]))
    ensures Handle(outcomes[c]).Finish? ==>
      Run(Handler, outcomes[c..]) == Walk(Handle(outcomes[c]).actions, Handle(outcomes[c]).status, 1)
  {
    assert Handler(outcomes[c]) == Handle(outcomes[c]);
    RunFirst(Handler, outcomes, c);
  }

  /** The NextPart loop of main, proved to perform the walk Run describes. */
  method WalkParts(outcomes: seq<Outcome>) returns (actions: seq<Action>, status: Status, calls: nat)
    ensures Walk(actions, status, calls) == Run(Handler, outcomes)
  {
    actions, status, calls := [], Done, 0;
    while calls < |outcomes|
      invariant calls <= |outcomes|
      invariant status == Done
      invariant Run(Handler, outcomes) == Resumed(actions, calls, Run(Handler, outcomes[calls..]))
    {
      RunStep(outcomes, calls);
      ResumedTwice(actions, calls, Handle(outcomes[calls]).actions, 1, Run(Handler, outcomes[calls + 1..]));
      var acts, leave, st := HandlePart(outcomes[calls]);
      actions, calls := actions + acts, calls + 1;
      if leave {
        status := st;
        break;
      }
    }
    if status == Done && calls == |outcomes| {
      assert outcomes[calls..] == [];
    }
  }

  /** Whether a part makes printAttachment or the type switch panic. */
  predicate BadPart(part: Option<Part>) {
    part.None? || (part.value.header.AttachmentHeader? && !Has(part.value.header.fields, "X-Attachment-Id"))
    || (part.value.header.InlineHeader? && InlineKind(Get(part.value.header.fields, "Content-Type")) == NotText
        && !Has(part.value.header.fields, "X-Attachment-Id"))
  }

  /** A step leaves the loop exactly on an error or a part it cannot handle, and only io.EOF itself ends it normally. */
  lemma LeaveRules(o: Outcome)
    ensures Handle(o).Finish? <==> o.err.Some? || BadPart(o.part)
    ensures Handle(o).Finish? ==> (Handle(o).status == Done <==> o.err == Some(EOF))
    ensures Handle(o).Finish? ==> !Handle(o).status.Stopped?
    ensures o.err.Some? && o.err != Some(EOF) ==> Handle(o).status == Failed(PartFailed(o.err.value.Error()))
  {
  }

  /**
   * The type switch on a result without an error: a nil part panics, an
   * attachment header always goes to printAttachment, and an inline part is
   * text when its Content-Type contains "text/plain", else html when it
   * contains "text/html", else an attachment.
   */
  lemma Classification(part: Option<Part>)
    ensures part.None? ==> Handle(Outcome(part, None)) == Finish([], Failed(NilPart))
    ensures part.Some? && part.value.header.AttachmentHeader? ==>
      Handle(Outcome(part, None)) == PrintAttachment(part.value.header.fields, part.value.body)
    ensures part.Some? && part.value.header.InlineHeader? ==>
      var ct := Get(part.value.header.fields, "Content-Type");
      && (Contains(ct, PlainTextContentType) ==> Handle(Outcome(part, None)) == Proceed([TextBody(part.value.body.data)]))
      && (!Contains(ct, PlainTextContentType) && Contains(ct, HTMLContentType) ==>
            Handle(Outcome(part, None)) == Proceed([HtmlBody(part.value.body.data)]))
      && (!Contains(ct, PlainTextContentType) && !Contains(ct, HTMLContentType) ==>
            Handle(Outcome(part, None)) == PrintAttachment(part.value.header.fields, part.value.body))
  {
  }

  /**
   * The strict walk: every result before the halting one carried no error,
   * the walk never stops quietly, it is Done exactly when the results run
   * out or it halts at io.EOF itself, and any other error (a wrapped EOF
   * included) is fatal.
   */
  lemma StrictWalk(outcomes: seq<Outcome>)
    ensures var h := HaltIndex(Handler, outcomes);
            var w := Run(Handler, outcomes);
            && (forall j :: 0 <= j < h ==> outcomes[j].err.None?)
            && !w.status.Stopped?
            && (w.status == Done <==> h == |outcomes| || outcomes[h].err == Some(EOF))
            && (h < |outcomes| && outcomes[h].err.Some? && outcomes[h].err != Some(EOF) ==>
                  w.status == Failed(PartFailed(outcomes[h].err.value.Error())))
  {
    RunShape(Handler, outcomes);
    var h := HaltIndex(Handler, outcomes);
    forall j | 0 <= j < h
      ensures outcomes[j].err.None?
    {
      assert Handler(outcomes[j]) == Handle(outcomes[j]);
      LeaveRules(outcomes[j]);
    }
    if h < |outcomes| {
      assert Handler(outcomes[h]) == Handle(outcomes[h]);
      LeaveRules(outcomes[h]);
    }
  }

  /**
   * printAttachment: an attachment without X-Attachment-Id is fatal; with
   * it, fileID is its value, fileName follows the Content-Type pattern, the
   * disposition is the field's value or "", and the content is what the
   * body delivered.
   */
  lemma AttachmentMetadata(fields: Fields, body: Body)
    ensures PrintAttachment(fields, body).Finish? <==> !Has(fields, "X-Attachment-Id")
    ensures PrintAttachment(fields, body).Finish? ==> PrintAttachment(fields, body).status == Failed(NoAttachmentId)
    ensures PrintAttachment(fields, body).Proceed? ==>
      && |PrintAttachment(fields, body).actions| == 1
      && var act := PrintAttachment(fields, body).actions[0];
         && act.FoundAttachment? && act.content == body.data
         && act.attachment.fileId == Given(Get(fields, "X-Attachment-Id"))
         && act.attachment.contentType == Get(fields, "Content-Type")
         && (act.attachment.fileName == "" <==> forall k, e :: !NameRegex.MatchAt(act.attachment.contentType, k, e))
         && (act.attachment.fileName != "" ==>
               && (forall i :: 0 <= i < |act.attachment.fileName| ==> !NameRegex.IsPerlSpace(act.attachment.fileName[i]))
               && Contains(act.attachment.contentType, NameRegex.Prefix + act.attachment.fileName + "\""))
         && act.attachment.contentDisposition == (if Has(fields, "Content-Disposition") then Get(fields, "Content-Disposition") else "")
  {
    NameRegex.FileNameShape(Get(fields, "Content-Type"));
  }

  /**
   * listFolder as written: it waits for List's result before draining the
   * 10-slot channel, so it hangs (None) once the server lists more than 10
   * mailboxes; otherwise it returns them all, in order, and a List error
   * is only logged.
   */
  method ListFolderAsWritten(mailboxes: seq<MailboxInfo>, listErr: Option<string>)
    returns (r: Option<seq<MailboxInfo>>, logged: Option<string>)
    ensures r.Some? <==> |mailboxes| <= ChannelCapacity
    ensures r.Some? ==> r.value == mailboxes && logged == listErr
  {
    r := CollectAfterDone(mailboxes);
    logged := if r.Some? then listErr else None;
  }

  /**
   * listFolder with the channel drained while List runs: every mailbox the
   * server listed, in arrival order, whatever List reports; an error is
   * only logged.
   */
  method ListFolder(mailboxes: seq<MailboxInfo>, listErr: Option<string>)
    returns (result: seq<MailboxInfo>, logged: Option<string>)
    ensures result == mailboxes && logged == listErr
  {
    result := CollectWhileRunning(mailboxes);
    logged := listErr;
  }
}
