/**
 * The request handler `summarizeText` (backend/utils/summarizer.js:4-44): validate
 * the text, try the remote summarizer once, fall back to the local summarizer,
 * persist, answer. The remote service and the database are collaborators whose
 * outcomes are inputs here.
 */
module Resolution {
  import opened Wrappers
  import LocalSummarizer

  /** What the remote call (lines 11-23) came to. */
  datatype RemoteOutcome =
    | Threw(message: string)                        // `fetch` or `response.json()` rejected
    | Responded(ok: bool, summary: Option<string>)  // `response.ok` and the string `data.summary`, if any

  /** What one `Summary.create` call came to: the stored document's id and timestamp, or a rejection. */
  datatype CreateOutcome = Created(id: nat, createdAt: nat) | CreateFailed(message: string)

  /** How the database answers the first and the second `Summary.create` of this request. */
  datatype Database = Database(first: CreateOutcome, second: CreateOutcome)

  /** Where a summary came from. */
  datatype Source = Remote | Local

  /** The arguments of one `Summary.create` call, tagged with the summary's source. */
  datatype Draft = Draft(text: string, summary: string, source: Source)

  /** A stored summary as `res.json(saved)` sends it. */
  datatype Entry = Entry(id: nat, text: string, summary: string, createdAt: nat)

  datatype Body = Saved(entry: Entry) | Error(error: string, details: Option<string>)

  /** The HTTP status and JSON body of the response. */
  datatype Reply = Reply(status: nat, body: Body)

  /** `!text` is false: the text field is present and is not the empty string. */
  predicate Truthy(text: Option<string>) {
    text.Some? && text.value != ""
  }

  /** `response.ok && data.summary`: an ok response carrying a non-empty summary. */
  predicate RemoteUsable(remote: RemoteOutcome) {
    remote.Responded? && remote.ok && remote.summary.Some? && remote.summary.value != ""
  }

  /** The outcome of the create call with the given number (0 or 1). */
  function Attempt(db: Database, k: nat): CreateOutcome {
    if k == 0 then db.first else db.second
  }

  /** The summary the local fallback produces, with the default sentence count 3. */
  function Fallback(text: string): string {
    LocalSummarizer.LocalSummary(text, 3)
  }

  /**
   * `summarizeText`. `remoteCalls` counts the requests sent to the remote
   * service; `drafts` lists the `Summary.create` calls in the order they are made.
   */
  method SummarizeText(text: Option<string>, remote: RemoteOutcome, db: Database)
    returns (reply: Reply, remoteCalls: nat, drafts: seq<Draft>)
    // validation: a missing or empty text is refused before anything else happens
    ensures !Truthy(text) ==>
      reply == Reply(400, Error("Text is required", None)) && remoteCalls == 0 && drafts == []
    ensures Truthy(text) ==>
      remoteCalls == 1 && 1 <= |drafts| <= 2 && (reply.status == 200 || reply.status == 500)
    // every create call stores the request's own text
    ensures forall k :: 0 <= k < |drafts| ==> text.Some? && drafts[k].text == text.value
    // the remote summary is stored only when it is usable, and only by the first call
    ensures forall k :: 0 <= k < |drafts| ==>
      (drafts[k].source == Remote <==> k == 0 && RemoteUsable(remote))
    ensures forall k :: 0 <= k < |drafts| && drafts[k].source == Remote ==>
      RemoteUsable(remote) && drafts[k].summary == remote.summary.value
    // otherwise the local summary is stored
    ensures forall k :: 0 <= k < |drafts| && drafts[k].source == Local ==>
      text.Some? && drafts[k].summary == Fallback(text.value)
    // a rejected create on the success path is swallowed and followed by the fallback create
    ensures |drafts| == 2 <==> Truthy(text) && RemoteUsable(remote) && db.first.CreateFailed?
    // the reply reports the last create call
    ensures Truthy(text) ==>
      (reply.status == 200 <==> Attempt(db, |drafts| - 1).Created?)
    ensures Truthy(text) && reply.status == 200 ==>
      var saved := Attempt(db, |drafts| - 1);
      reply.body == Saved(Entry(saved.id, text.value, drafts[|drafts| - 1].summary, saved.createdAt)) &&
      reply.body.entry.summary != ""
    // an error reaches the caller only when every create call failed
    ensures reply.status == 500 ==>
      (forall k :: 0 <= k < |drafts| ==> Attempt(db, k).CreateFailed?) &&
      reply.body == Error("Summarization failed", Some(Attempt(db, |drafts| - 1).message))
  {
    remoteCalls, drafts := 0, [];
    if !Truthy(text) {
      reply := Reply(400, Error("Text is required", None));
      return;
    }
    var t := text.value;
    // the inner try (lines 9-34)
    remoteCalls := 1;
    if RemoteUsable(remote) {
      drafts := [Draft(t, remote.summary.value, Remote)];
      var saved := db.first;
      if saved.Created? {
        reply := Reply(200, Saved(Entry(saved.id, t, remote.summary.value, saved.createdAt)));
        return;
      }
      // a rejection here is caught at line 32, like any remote failure
    }
    // the fallback (lines 36-39)
    var summary := LocalSummarizer.GenerateLocalSummary(t);
    var outcome := Attempt(db, |drafts|);
    drafts := drafts + [Draft(t, summary, Local)];
    match outcome
    case Created(id, createdAt) =>
      reply := Reply(200, Saved(Entry(id, t, summary, createdAt)));
    case CreateFailed(message) =>
      // caught at line 40
      reply := Reply(500, Error("Summarization failed", Some(message)));
  }
}
