/**
 * What go-message's mail.Reader gives the drivers, and the walk they all run
 * over it: call NextPart until something ends the loop. A reader is modelled
 * by the sequence of (part, error) pairs its NextPart calls return; once the
 * sequence is used up the reader keeps returning io.EOF. The multipart
 * structure itself (section 5.1 of RFC 2046) is parsed by the library and is
 * not part of this model.
 */
module Mime {
  import opened Wrappers
  import opened GoStrings
  import NameRegex

  const PlainTextContentType: string := "text/plain"
  const HTMLContentType: string := "text/html"

  /** A part's header, one value per field name in net/textproto's canonical form ("Message-Id"). */
  type Fields = map<string, string>

  /** A byte net/textproto accepts in a header field name: a token character of section 5.6.2 of RFC 9110. */
  predicate IsTokenChar(c: char) {
    '!' <= c <= '~' && c !in {'"', '(', ')', ',', '/', ':', ';', '<', '=', '>', '?', '@', '[', '\\', ']', '{', '}'}
  }

  /** The ASCII letter c in upper case when upper holds and in lower case otherwise; any other character as it is. */
  function CaseAs(c: char, upper: bool): char {
    if upper && 'a' <= c <= 'z' then (c as int - 32) as char
    else if !upper && 'A' <= c <= 'Z' then (c as int + 32) as char
    else c
  }

  /** Whether position i of a field name starts a word: it is the first character or follows a '-'. */
  predicate StartsWord(key: string, i: int)
    requires 0 <= i < |key|
  {
    i == 0 || key[i - 1] == '-'
  }

  /** Re-case a field name: upper case where a word starts, lower case elsewhere. */
  function Recase(key: string): string {
    seq(|key|, i requires 0 <= i < |key| => CaseAs(key[i], StartsWord(key, i)))
  }

  /**
   * textproto.CanonicalMIMEHeaderKey, which Header.Get and Header.Has apply
   * to their key: a name made only of token characters is re-cased letter
   * by letter; any other name is left as it is.
   */
  function CanonicalKey(key: string): string {
    if AllTokens(key) then Recase(key) else key
  }

  /** Whether every character of the key is a token character. */
  predicate AllTokens(key: string) {
    key == [] || (IsTokenChar(key[0]) && AllTokens(key[1..]))
  }

  lemma {:induction false} AllTokensAt(key: string)
    ensures AllTokens(key) <==> forall i :: 0 <= i < |key| ==> IsTokenChar(key[i])
  {
    if key != [] {
      AllTokensAt(key[1..]);
      assert forall i :: 1 <= i < |key| ==> key[1..][i - 1] == key[i];
    }
  }

  /**
   * The canonical key keeps the length; a token-only key gets upper case at
   * the start and after each '-' and lower case elsewhere; any other key is
   * kept as it is.
   */
  lemma CanonicalKeyShape(key: string)
    ensures |CanonicalKey(key)| == |key|
    ensures (forall i :: 0 <= i < |key| ==> IsTokenChar(key[i])) ==>
      forall i :: 0 <= i < |key| ==> CanonicalKey(key)[i] == CaseAs(key[i], StartsWord(key, i))
    ensures (exists i :: 0 <= i < |key| && !IsTokenChar(key[i])) ==> CanonicalKey(key) == key
  {
    AllTokensAt(key);
  }

  /**
   * Header.Has for a key in canonical form. Header.Has and Header.Get first
   * pass their key through CanonicalKey; the drivers' keys are given here in
   * the form that yields (DriverKeys).
   */
  predicate Has(fields: Fields, name: string) {
    name in fields
  }

  /** Header.Get for a key in canonical form: the field's value, or "" when it is absent. */
  function Get(fields: Fields, name: string): string {
    if Has(fields, name) then fields[name] else ""
  }

  /**
   * The keys the drivers pass to Header.Get and Header.Has: "Message-ID" is
   * looked up as "Message-Id", and the other three are already canonical.
   */
  lemma DriverKeys()
    ensures CanonicalKey("Message-ID") == "Message-Id"
    ensures CanonicalKey("Content-Type") == "Content-Type"
    ensures CanonicalKey("Content-Disposition") == "Content-Disposition"
    ensures CanonicalKey("X-Attachment-Id") == "X-Attachment-Id"
  {
    MessageIdKey();
    ContentTypeKey();
    ContentDispositionKey();
    AttachmentIdKey();
  }

  lemma MessageIdKey()
    ensures CanonicalKey("Message-ID") == "Message-Id"
  {
    CanonicalKeyIs("Message-ID", "Message-Id");
  }

  lemma ContentTypeKey()
    ensures CanonicalKey("Content-Type") == "Content-Type"
  {
    CanonicalKeyIs("Content-Type", "Content-Type");
  }

  lemma ContentDispositionKey()
    ensures CanonicalKey("Content-Disposition") == "Content-Disposition"
  {
    var key := "Content-Disposition";
    assert forall i :: 0 <= i < |key| ==> IsTokenChar(key[i]);
    assert forall i :: 0 <= i < |key| ==> key[i] == CaseAs(key[i], StartsWord(key, i));
    CanonicalKeyIs(key, key);
  }

  lemma AttachmentIdKey()
    ensures CanonicalKey("X-Attachment-Id") == "X-Attachment-Id"
  {
    CanonicalKeyIs("X-Attachment-Id", "X-Attachment-Id");
  }

  /** A token-only key re-cased position by position gives canon. */
  lemma CanonicalKeyIs(key: string, canon: string)
    requires |canon| == |key|
    requires forall i :: 0 <= i < |key| ==> IsTokenChar(key[i])
    requires forall i :: 0 <= i < |key| ==> canon[i] == CaseAs(key[i], StartsWord(key, i))
    ensures CanonicalKey(key) == canon
  {
    var r := Recase(key);
    AllTokensAt(key);
    assert CanonicalKey(key) == r;
    forall i | 0 <= i < |key|
      ensures r[i] == canon[i]
    {
      assert r[i] == CaseAs(key[i], StartsWord(key, i));
    }
  }

  /** mail.InlineHeader or mail.AttachmentHeader: the two header types NextPart returns. */
  datatype PartHeader = InlineHeader(fields: Fields) | AttachmentHeader(fields: Fields)

  /** A part's body reader: what it delivers, then the error that ends it, if not EOF. */
  datatype Body = Body(data: string, readErr: Option<string>)

  datatype Part = Part(header: PartHeader, body: Body)

  /** An error NextPart returns: io.EOF itself, or any other error value. */
  datatype PartError = EOF | Failure(wrapsEOF: bool, unknownCharset: bool, text: string) {
    /** errors.Is(err, io.EOF) */
    predicate IsEOF() { EOF? || wrapsEOF }
    /** message.IsUnknownCharset(err) */
    predicate IsUnknownCharset() { Failure? && unknownCharset }
    /** err.Error() */
    function Error(): string { if EOF? then "EOF" else text }
  }

  /** One NextPart result: a part or nil, and an error or nil. */
  datatype Outcome = Outcome(part: Option<Part>, err: Option<PartError>)

  /** What mail.CreateReader returns: a reader with its header and NextPart results, or an error. */
  datatype MailOpen = Opened(header: Fields, parts: seq<Outcome>) | OpenFailed(err: PartError)

  /** The NextPart errors the drivers log as ignored. */
  datatype Ignored = UnknownCharset | MalformedHeaderLine | MultipartFailure | EncodingFailure

  /** An attachment's file ID: the X-Attachment-Id value, or a freshly generated UUID. */
  datatype FileId = Given(id: string) | Generated

  datatype Attachment = Attachment(contentType: string, fileId: FileId, fileName: string, contentDisposition: string)

  /** What the walk does with a part, or logs about an ignored error. */
  datatype Action =
    | Warned(ignored: Ignored)
    | TextBody(text: string)
    | HtmlBody(html: string)
    | InlineAttachment(contentType: string)
    | FoundAttachment(attachment: Attachment, content: string)

  /** Why a driver panics or exits in the middle of a walk. */
  datatype Fatal =
    | PartFailed(text: string)
    | NilPart
    | NoAttachmentId
    | WriteFailed(text: string)
    | NilReader

  /** How a walk ends: io.EOF, an error it chose to stop on, or a panic. */
  datatype Status = Done | Stopped | Failed(reason: Fatal)

  /** How the loop body handles one NextPart result: carry on with the next call, or leave the loop. */
  datatype Step = Proceed(actions: seq<Action>) | Finish(actions: seq<Action>, status: Status)

  /** A finished walk: what it did, how it ended, and how many NextPart results it consumed. */
  datatype Walk = Walk(actions: seq<Action>, status: Status, calls: nat)

  /** A triage verdict on a NextPart error that is not EOF. */
  datatype Verdict = Ignore(warning: Ignored) | Stop(warning: Ignored) | Panic

  /** How tolerant a verdict is: 2 keeps walking, 1 stops quietly, 0 panics. */
  function Tolerance(v: Verdict): nat {
    match v
    case Ignore(_) => 2
    case Stop(_) => 1
    case Panic => 0
  }

  /** readerToString and io.ReadAll with the error dropped: what the reader delivered before it failed. */
  function ReadAll(body: Body): string {
    body.data
  }

  /** Runs `acts` before a step's own actions. */
  function Prepend(acts: seq<Action>, s: Step): (r: Step)
    ensures r.actions == acts + s.actions
    ensures r.Finish? == s.Finish? && (s.Finish? ==> r.status == s.status)
  {
    match s
    case Proceed(a) => Proceed(acts + a)
    case Finish(a, st) => Finish(acts + a, st)
  }

  /** How an inline part's Content-Type is read: text/plain is tested before text/html. */
  datatype TextKind = Plain | Html | NotText

  function InlineKind(contentType: string): (k: TextKind)
    ensures k == Plain <==> Contains(contentType, PlainTextContentType)
    ensures k == Html <==> !Contains(contentType, PlainTextContentType) && Contains(contentType, HTMLContentType)
  {
    if Contains(contentType, PlainTextContentType) then Plain
    else if Contains(contentType, HTMLContentType) then Html
    else NotText
  }

  /**
   * printAttachment's metadata for an attachment whose file ID is settled:
   * the file name the Content-Type pattern captures, and the
   * Content-Disposition value or "".
   */
  function Describe(fields: Fields, fileId: FileId): (a: Attachment)
    ensures a.fileId == fileId
    ensures a.contentType == Get(fields, "Content-Type")
    ensures a.fileName == NameRegex.FileName(a.contentType)
    ensures Has(fields, "Content-Disposition") ==> a.contentDisposition == Get(fields, "Content-Disposition")
    ensures !Has(fields, "Content-Disposition") ==> a.contentDisposition == ""
  {
    var contentType := Get(fields, "Content-Type");
    var disposition := if Has(fields, "Content-Disposition") then Get(fields, "Content-Disposition") else "";
    Attachment(contentType, fileId, NameRegex.FileName(contentType), disposition)
  }

  /** The walk: one handler step per NextPart result until a step leaves the loop or the results run out. */
  function Run(handle: Outcome -> Step, outcomes: seq<Outcome>): (w: Walk)
    ensures w.calls <= |outcomes|
    decreases |outcomes|
  {
    if outcomes == [] then Walk([], Done, 0)
    else
      match handle(outcomes[0])
      case Proceed(acts) =>
        var rest := Run(handle, outcomes[1..]);
        Walk(acts + rest.actions, rest.status, rest.calls + 1)
      case Finish(acts, st) => Walk(acts, st, 1)
  }

  /** A walk picked up after `calls` results that had performed `acts`. */
  function Resumed(acts: seq<Action>, calls: nat, rest: Walk): Walk {
    Walk(acts + rest.actions, rest.status, calls + rest.calls)
  }

  /** One step of a walk: the first result's step, then the rest of the walk if that step stays in the loop. */
  lemma RunFirst(handle: Outcome -> Step, outcomes: seq<Outcome>, c: nat)
    requires c < |outcomes|
    ensures handle(outcomes[c]).Proceed? ==>
      Run(handle, outcomes[c..]) == Resumed(handle(outcomes[c]).actions, 1, Run(handle, outcomes[c + 1..]))
    ensures handle(outcomes[c]).Finish? ==>
      Run(handle, outcomes[c..]) == Walk(handle(outcomes[c]).actions, handle(outcomes[c]).status, 1)
  {
    assert outcomes[c..][0] == outcomes[c] && outcomes[c..][1..] == outcomes[c + 1..];
  }

  /** Resuming twice is resuming once after both prefixes. */
  lemma ResumedTwice(a: seq<Action>, m: nat, b: seq<Action>, n: nat, w: Walk)
    ensures Resumed(a, m, Resumed(b, n, w)) == Resumed(a + b, m + n, w)
  {
    assert a + (b + w.actions) == (a + b) + w.actions;
  }

  /** The index of the first result whose step leaves the loop, or |outcomes| if none does. */
  function HaltIndex(handle: Outcome -> Step, outcomes: seq<Outcome>): (h: nat)
    ensures h <= |outcomes|
    ensures forall j :: 0 <= j < h ==> handle(outcomes[j]).Proceed?
    ensures h < |outcomes| ==> handle(outcomes[h]).Finish?
    decreases |outcomes|
  {
    if outcomes == [] then 0
    else if handle(outcomes[0]).Finish? then 0
    else 1 + HaltIndex(handle, outcomes[1..])
  }

  /** The actions of every step, in order. */
  function Emitted(handle: Outcome -> Step, outcomes: seq<Outcome>): seq<Action>
    decreases |outcomes|
  {
    if outcomes == [] then [] else handle(outcomes[0]).actions + Emitted(handle, outcomes[1..])
  }

  /**
   * A walk consumes the results up to the first step that leaves the loop,
   * ends with that step's status (Done if the results run out first), and
   * performs exactly the actions of the steps it consumed.
   */
  lemma {:induction false} RunShape(handle: Outcome -> Step, outcomes: seq<Outcome>)
    ensures var h := HaltIndex(handle, outcomes);
            var w := Run(handle, outcomes);
            && w.calls == (if h < |outcomes| then h + 1 else |outcomes|)
            && w.status == (if h < |outcomes| then handle(outcomes[h]).status else Done)
            && w.actions == Emitted(handle, outcomes[..w.calls])
    decreases |outcomes|
  {
    if outcomes != [] {
      var w := Run(handle, outcomes);
      assert outcomes[..w.calls][0] == outcomes[0];
      if handle(outcomes[0]).Proceed? {
        RunShape(handle, outcomes[1..]);
        assert outcomes[..w.calls][1..] == outcomes[1..][..w.calls - 1];
      } else {
        assert outcomes[..1][1..] == [];
      }
    }
  }

  /**
   * When the step for result i is the first to leave the loop, the walk ends
   * there with that step's status, and whatever NextPart would return
   * afterwards (`later`) is never looked at.
   */
  lemma {:induction false} HaltAt(handle: Outcome -> Step, outcomes: seq<Outcome>, i: nat, later: seq<Outcome>)
    requires i < |outcomes|
    requires forall j :: 0 <= j < i ==> handle(outcomes[j]).Proceed?
    requires handle(outcomes[i]).Finish?
    ensures HaltIndex(handle, outcomes) == i
    ensures Run(handle, outcomes).status == handle(outcomes[i]).status
    ensures Run(handle, outcomes).calls == i + 1
    ensures Run(handle, outcomes[..i + 1] + later) == Run(handle, outcomes)
    decreases i
  {
    var os := outcomes[..i + 1] + later;
    assert os[0] == outcomes[0];
    if i > 0 {
      assert handle(outcomes[0]).Proceed?;
      assert forall j :: 0 <= j < i - 1 ==> outcomes[1..][j] == outcomes[j + 1];
      HaltAt(handle, outcomes[1..], i - 1, later);
      assert os[1..] == outcomes[1..][..i] + later;
    }
  }
}
