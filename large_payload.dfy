/**
 * benchmark/large_payload: the tolerant part walk over one fetched message.
 * An unknown charset is logged and the part is still handled; an error whose
 * text contains "multipart: NextPart: EOF" is logged and ends the walk; EOF
 * ends it normally; any other error panics. Inline text/plain and text/html
 * parts are read into strings, everything else goes to printAttachment,
 * which logs the attachment's metadata and copies its body to tmp.txt.
 */
module LargePayload {
  import opened Wrappers
  import opened GoStrings
  import opened Mime
  import NameRegex

  const MultipartError: string := "multipart: NextPart: EOF"

  /** The file system as writeToFile meets it: whether creating tmp.txt fails, and whether writing to it fails. */
  datatype Disk = Disk(createErr: Option<string>, writeErr: Option<string>)

  /**
   * The error io.Copy reports. It writes only after a read has delivered
   * bytes, so a failing disk shows only when the body has data; otherwise
   * the copy ends with the error the body reader ended with.
   */
  function CopyError(disk: Disk, body: Body): (err: Option<string>)
    ensures body.data == [] ==> err == body.readErr
    ensures err.Some? && err != body.readErr ==> body.data != [] && err == disk.writeErr
  {
    if disk.writeErr.Some? && body.data != [] then disk.writeErr else body.readErr
  }

  /**
   * writeToFile's result: nil exactly when tmp.txt is created and the copy
   * either succeeds or fails with an error whose text contains "EOF".
   */
  function WriteToFile(disk: Disk, body: Body): (err: Option<string>)
    ensures err.None? <==>
      disk.createErr.None? && (CopyError(disk, body).None? || Contains(CopyError(disk, body).value, "EOF"))
    ensures err.Some? ==> err == disk.createErr || err == CopyError(disk, body)
  {
    if disk.createErr.Some? then disk.createErr
    else
      match CopyError(disk, body)
      case Some(e) => if Contains(e, "EOF") then None else Some(e)
      case None => None
  }

  /** The X-Attachment-Id value when the header has the field, else a generated UUID. */
  function FileIdOf(fields: Fields): FileId {
    if Has(fields, "X-Attachment-Id") then Given(Get(fields, "X-Attachment-Id")) else Generated
  }

  /** printAttachment: log the metadata and write the body to tmp.txt, panicking if the write fails. */
  function PrintAttachment(disk: Disk, fields: Fields, body: Body): Step {
    match WriteToFile(disk, body)
    case Some(e) => Finish([], Failed(WriteFailed(e)))
    case None => Proceed([FoundAttachment(Describe(fields, FileIdOf(fields)), ReadAll(body))])
  }

  /** The type switch on the part's header; a nil part panics on the dereference. */
  function Dispatch(disk: Disk, part: Option<Part>): Step {
    match part
    case None => Finish([], Failed(NilPart))
    case Some(p) =>
      match p.header
      case InlineHeader(fields) =>
        (match InlineKind(Get(fields, "Content-Type"))
         case Plain => Proceed([TextBody(ReadAll(p.body))])
         case Html => Proceed([HtmlBody(ReadAll(p.body))])
         case NotText => PrintAttachment(disk, fields, p.body))
      case AttachmentHeader(fields) => PrintAttachment(disk, fields, p.body)
  }

  /** The switch on an error that is not EOF: the charset test comes first. */
  function Triage(e: PartError): Verdict {
    if e.IsUnknownCharset() then Ignore(UnknownCharset)
    else if Contains(e.Error(), MultipartError) then Stop(MultipartFailure)
    else Panic
  }

  /** The loop body for one NextPart result. */
  function Handle(disk: Disk, o: Outcome): Step {
    match o.err
    case None => Dispatch(disk, o.part)
    case Some(e) =>
      if e.IsEOF() then Finish([], Done)
      else
        match Triage(e)
        case Ignore(w) => Prepend([Warned(w)], Dispatch(disk, o.part))
        case Stop(w) => Finish([Warned(w)], Stopped)
        case Panic => Finish([], Failed(PartFailed(e.Error())))
  }

  function Handler(disk: Disk): Outcome -> Step {
    o => Handle(disk, o)
  }

  /** One step of the walk over the results from index c on. */
  lemma RunStep(disk: Disk, outcomes: seq<Outcome>, c: nat)
    requires c < |outcomes|
    ensures Handle(disk, outcomes[c]).Proceed? ==>
      Run(Handler(disk), outcomes[c..]) == Resumed(Handle(disk, outcomes[c]).actions, 1, Run(Handler(disk), outcomes[c + 1..]))
    ensures Handle(disk, outcomes[c]).Finish? ==>
      Run(Handler(disk), outcomes[c..]) == Walk(Handle(disk, outcomes[c]).actions, Handle(disk, outcomes[c]).status, 1)
  {
    assert Handler(disk)(outcomes[c]) == Handle(disk, outcomes[c]);
    RunFirst(Handler(disk), outcomes, c);
  }

  /**
   * One pass of main's NextPart loop body: the error switch, then the type
   * switch on the part; `leave` says the loop breaks (or panics) here.
   */
  method HandlePart(disk: Disk, o: Outcome) returns (actions: seq<Action>, leave: bool, status: Status)
    ensures (if leave then Finish(actions, status) else Proceed(actions)) == Handle(disk, o)
  {
    actions, leave, status := [], false, Done;
    if o.err.Some? && o.err.value.IsEOF() {
      leave := true;
      return;
    } else if o.err.Some? {
      var err := o.err.value;
      var shouldBreak := false;
      if err.IsUnknownCharset() {
        actions := actions + [Warned(UnknownCharset)];
      } else if Contains(err.Error(), MultipartError) {
        actions := actions + [Warned(MultipartFailure)];
        shouldBreak := true;
      } else {
        leave, status := true, Failed(PartFailed(err.Error()));
        return;
      }
      if shouldBreak {
        leave, status := true, Stopped;
        return;
      }
    }
    if o.part.None? {
      leave, status := true, Failed(NilPart);
      return;
    }
    var part := o.part.value;
    var attachment: Option<Fields> := None;
    match part.header {
      case InlineHeader(fields) =>
        var contentType := Get(fields, "Content-Type");
        if Contains(contentType, PlainTextContentType) {
          actions := actions + [TextBody(ReadAll(part.body))];
        } else if Contains(contentType, HTMLContentType) {
          actions := actions + [HtmlBody(ReadAll(part.body))];
        } else {
          attachment := Some(fields);
        }
      case AttachmentHeader(fields) =>
        attachment := Some(fields);
    }
    if attachment.Some? {
      var printed := PrintAttachment(disk, attachment.value, part.body);
      actions := actions + printed.actions;
      if printed.Finish? {
        leave, status := true, printed.status;
      }
    }
  }

  /** The NextPart loop of main, proved to perform the walk Run describes. */
  method WalkParts(disk: Disk, outcomes: seq<Outcome>) returns (actions: seq<Action>, status: Status, calls: nat)
    ensures Walk(actions, status, calls) == Run(Handler(disk), outcomes)
  {
    actions, status, calls := [], Done, 0;
    while calls < |outcomes|
      invariant calls <= |outcomes|
      invariant status == Done
      invariant Run(Handler(disk), outcomes) == Resumed(actions, calls, Run(Handler(disk), outcomes[calls..]))
    {
      RunStep(disk, outcomes, calls);
      ResumedTwice(actions, calls, Handle(disk, outcomes[calls]).actions, 1, Run(Handler(disk), outcomes[calls + 1..]));
      var acts, leave, st := HandlePart(disk, outcomes[calls]);
      actions, calls := actions + acts, calls + 1;
      if leave {
        status := st;
        break;
      }
    }
    if status == Done && calls == |outcomes| {
      assert outcomes[calls..] == [];
    }
  }

  /** The error NextPart returned stops the walk: not EOF, not an unknown charset, and it names the multipart failure. */
  predicate StopsWalk(o: Outcome) {
    o.err.Some? && !o.err.value.IsEOF() && !o.err.value.IsUnknownCharset()
    && Contains(o.err.value.Error(), MultipartError)
  }

  /**
   * An unknown-charset error never ends the walk: it is logged and the part
   * is dispatched, even when the error text also names the multipart failure.
   */
  lemma UnknownCharsetIsDispatched(disk: Disk, o: Outcome)
    requires o.err.Some? && o.err.value.IsUnknownCharset() && !o.err.value.IsEOF()
    ensures Handle(disk, o) == Prepend([Warned(UnknownCharset)], Dispatch(disk, o.part))
  {
  }

  /**
   * How any walk ends: Stopped exactly at a multipart error, Done exactly at
   * EOF or when the results run out, and every other error panics.
   */
  lemma WalkEnding(disk: Disk, outcomes: seq<Outcome>)
    ensures var h := HaltIndex(Handler(disk), outcomes);
            var w := Run(Handler(disk), outcomes);
            && (w.status == Stopped <==> h < |outcomes| && StopsWalk(outcomes[h]))
            && (w.status == Done <==> h == |outcomes| || (outcomes[h].err.Some? && outcomes[h].err.value.IsEOF()))
            && (h < |outcomes| && outcomes[h].err.Some? && !outcomes[h].err.value.IsEOF()
                && !outcomes[h].err.value.IsUnknownCharset() && !StopsWalk(outcomes[h])
                ==> w.status == Failed(PartFailed(outcomes[h].err.value.Error())))
  {
    RunShape(Handler(disk), outcomes);
    var h := HaltIndex(Handler(disk), outcomes);
    if h < |outcomes| {
      assert Handler(disk)(outcomes[h]) == Handle(disk, outcomes[h]);
      FinishStatus(disk, outcomes[h]);
    }
  }

  /** The status a step that leaves the loop carries, by the error that caused it. */
  lemma FinishStatus(disk: Disk, o: Outcome)
    requires Handle(disk, o).Finish?
    ensures Handle(disk, o).status == Stopped <==> StopsWalk(o)
    ensures Handle(disk, o).status == Done <==> o.err.Some? && o.err.value.IsEOF()
    ensures o.err.Some? && !o.err.value.IsEOF() && !o.err.value.IsUnknownCharset() && !StopsWalk(o) ==>
      Handle(disk, o).status == Failed(PartFailed(o.err.value.Error()))
  {
    DispatchNeverEnds(disk, o.part);
  }

  /** Handling a part can fail, but never ends or stops the walk by itself. */
  lemma DispatchNeverEnds(disk: Disk, part: Option<Part>)
    ensures Dispatch(disk, part).Finish? ==> Dispatch(disk, part).status.Failed?
    ensures part.None? ==> Dispatch(disk, part) == Finish([], Failed(NilPart))
  {
  }

  /** A result without an error goes straight to the type switch. */
  lemma NoErrorIsDispatched(disk: Disk, o: Outcome)
    requires o.err.None?
    ensures Handle(disk, o) == Dispatch(disk, o.part)
  {
  }

  /**
   * A multipart error ends the walk with Stopped right there, after logging
   * it; no result NextPart would return later is dispatched.
   */
  lemma MultipartErrorStopsWalk(disk: Disk, outcomes: seq<Outcome>, i: nat, later: seq<Outcome>)
    requires i < |outcomes| && StopsWalk(outcomes[i])
    requires forall j :: 0 <= j < i ==> Handle(disk, outcomes[j]).Proceed?
    ensures Run(Handler(disk), outcomes).status == Stopped
    ensures Run(Handler(disk), outcomes).calls == i + 1
    ensures Run(Handler(disk), outcomes[..i + 1] + later) == Run(Handler(disk), outcomes)
  {
    HaltAt(Handler(disk), outcomes, i, later);
  }

  /**
   * Part classification: an inline part is text if its Content-Type contains
   * text/plain, else html if it contains text/html, else an attachment; a
   * part with an attachment header is an attachment whatever its Content-Type.
   */
  lemma Classification(disk: Disk, p: Part)
    ensures p.header.AttachmentHeader? ==> Dispatch(disk, Some(p)) == PrintAttachment(disk, p.header.fields, p.body)
    ensures p.header.InlineHeader? ==>
      var ct := Get(p.header.fields, "Content-Type");
      && (Contains(ct, PlainTextContentType) ==> Dispatch(disk, Some(p)) == Proceed([TextBody(p.body.data)]))
      && (!Contains(ct, PlainTextContentType) && Contains(ct, HTMLContentType) ==>
            Dispatch(disk, Some(p)) == Proceed([HtmlBody(p.body.data)]))
      && (!Contains(ct, PlainTextContentType) && !Contains(ct, HTMLContentType) ==>
            Dispatch(disk, Some(p)) == PrintAttachment(disk, p.header.fields, p.body))
  {
  }

  /**
   * printAttachment's metadata: fileID is the X-Attachment-Id value whenever
   * the field is present (even empty), else generated; fileName is "" unless
   * the Content-Type pattern matches, and then non-empty, whitespace-free and
   * quoted after `name=` in Content-Type; contentDisposition is the field's
   * value or "".
   */
  lemma AttachmentMetadata(disk: Disk, fields: Fields, body: Body)
    requires WriteToFile(disk, body).None?
    ensures PrintAttachment(disk, fields, body).Proceed?
    ensures |PrintAttachment(disk, fields, body).actions| == 1
    ensures var a := PrintAttachment(disk, fields, body).actions[0].attachment;
            && (Has(fields, "X-Attachment-Id") ==> a.fileId == Given(Get(fields, "X-Attachment-Id")))
            && (!Has(fields, "X-Attachment-Id") ==> a.fileId == Generated)
            && a.contentType == Get(fields, "Content-Type")
            && (a.fileName == "" <==> forall k, e :: !NameRegex.MatchAt(a.contentType, k, e))
            && (a.fileName != "" ==>
                  && (forall i :: 0 <= i < |a.fileName| ==> !NameRegex.IsPerlSpace(a.fileName[i]))
                  && Contains(a.contentType, NameRegex.Prefix + a.fileName + "\""))
            && a.contentDisposition == (if Has(fields, "Content-Disposition") then Get(fields, "Content-Disposition") else "")
    ensures PrintAttachment(disk, fields, body).actions[0].content == body.data
  {
    NameRegex.FileNameShape(Get(fields, "Content-Type"));
  }

  /** printAttachment panics with writeToFile's error when the write fails. */
  lemma WriteFailurePanics(disk: Disk, fields: Fields, body: Body)
    requires WriteToFile(disk, body).Some?
    ensures PrintAttachment(disk, fields, body) == Finish([], Failed(WriteFailed(WriteToFile(disk, body).value)))
  {
  }

  /**
   * An attachment with an empty, cleanly ending body is never written, so
   * once tmp.txt is created a failing disk cannot make printAttachment panic.
   */
  lemma EmptyBodyIsNotWritten(disk: Disk, fields: Fields, body: Body)
    requires body.data == [] && body.readErr.None?
    ensures WriteToFile(disk, body) == disk.createErr
    ensures disk.createErr.None? ==> PrintAttachment(disk, fields, body).Proceed?
  {
  }
}
