/** The demo's progress tracker: a session holding the history of
    finished documents, at most one document in progress and at most one
    step in progress inside it, with per-step call and token counters.
    Clock readings are parameters (`now`); durations, averages and rates
    are not modelled. */
module Tracker {
  import opened Base

  // =====================================================================
  // Metrics records

  datatype StepMetrics = StepMetrics(
    stepName: string,
    startedAt: int,
    completedAt: Option<int>,
    success: bool,
    error: Option<string>,
    apiCalls: nat,
    tokensUsed: int)

  datatype DocumentMetrics = DocumentMetrics(
    documentName: string,
    startedAt: int,
    completedAt: Option<int>,
    success: bool,
    error: Option<string>,
    steps: seq<StepMetrics>)

  /** `StepMetrics(step_name, started_at)` with the field defaults. */
  function NewStep(name: string, now: int): StepMetrics
  {
    StepMetrics(name, now, None, false, None, 0, 0)
  }

  /** `DocumentMetrics(document_name, started_at)` with the field defaults. */
  function NewDocument(name: string, now: int): DocumentMetrics
  {
    DocumentMetrics(name, now, None, false, None, [])
  }

  /** `total_api_calls`: the sum of the steps' call counts. */
  function TotalApiCalls(steps: seq<StepMetrics>): (r: nat)
    ensures steps == [] ==> r == 0
  {
    if steps == [] then 0 else TotalApiCalls(steps[..|steps| - 1]) + steps[|steps| - 1].apiCalls
  }

  /** `total_tokens`: the sum of the steps' token counts. */
  function TotalTokens(steps: seq<StepMetrics>): (r: int)
    ensures steps == [] ==> r == 0
  {
    if steps == [] then 0 else TotalTokens(steps[..|steps| - 1]) + steps[|steps| - 1].tokensUsed
  }

  /** The totals are additive over a split of the steps. */
  lemma {:induction false} TotalsAppend(a: seq<StepMetrics>, b: seq<StepMetrics>)
    ensures TotalApiCalls(a + b) == TotalApiCalls(a) + TotalApiCalls(b)
    ensures TotalTokens(a + b) == TotalTokens(a) + TotalTokens(b)
  {
    if b == [] {
      assert a + b == a;
    } else {
      var n := |b| - 1;
      TotalsAppend(a, b[..n]);
      assert (a + b)[..|a + b| - 1] == a + b[..n];
    }
  }

  /** Each step contributes at least its own calls to the total. */
  lemma {:induction false} TotalApiCallsBound(steps: seq<StepMetrics>, i: nat)
    requires i < |steps|
    ensures steps[i].apiCalls <= TotalApiCalls(steps)
  {
    var n := |steps| - 1;
    if i < n {
      TotalApiCallsBound(steps[..n], i);
    }
  }

  // =====================================================================
  // Tracker state and its transitions

  /** The four fields of a `ProgressTracker`. */
  datatype TrackerState = TrackerState(
    currentDocument: Option<DocumentMetrics>,
    currentStep: Option<StepMetrics>,
    history: seq<DocumentMetrics>,
    sessionStartedAt: Option<int>)

  const Initial := TrackerState(None, None, [], None)
  const Interrupted := "Interrupted by new document"

  /** What the operations keep: an open step lies inside an open document,
      and whatever is finished carries its completion time. */
  predicate Valid(s: TrackerState)
  {
    (s.currentStep.Some? ==> s.currentDocument.Some? && s.currentStep.value.completedAt.None?)
    && (s.currentDocument.Some? ==> s.currentDocument.value.completedAt.None?
                                    && Finished(s.currentDocument.value.steps))
    && forall i :: 0 <= i < |s.history| ==> s.history[i].completedAt.Some? && Finished(s.history[i].steps)
  }

  predicate Finished(steps: seq<StepMetrics>)
  {
    forall i :: 0 <= i < |steps| ==> steps[i].completedAt.Some?
  }

  /** A step open and not yet completed (`current_step and not
      current_step.completed_at`). */
  predicate StepOpen(s: TrackerState)
  {
    s.currentStep.Some? && s.currentStep.value.completedAt.None?
  }

  predicate DocumentOpen(s: TrackerState)
  {
    s.currentDocument.Some? && s.currentDocument.value.completedAt.None?
  }

  /** `start_session`. */
  function StartSessionOn(s: TrackerState, now: int): (s': TrackerState)
    ensures s'.sessionStartedAt == Some(now) && s'.history == []
    ensures s'.currentDocument == s.currentDocument && s'.currentStep == s.currentStep
  {
    s.(sessionStartedAt := Some(now), history := [])
  }

  /** `finish_step`: raises unless both a step and a document are current;
      otherwise the step, completed, is appended to the document. */
  function FinishStepOn(s: TrackerState, success: bool, error: Option<string>, now: int)
    : (res: (TrackerState, Result<StepMetrics>))
    ensures res.1.Err? <==> s.currentStep.None? || s.currentDocument.None?
    ensures res.1.Err? ==> res.1.error == ValueError && res.0 == s
    ensures res.1.Ok? ==>
      var d := s.currentDocument.value;
      var st := res.1.value;
      && st == s.currentStep.value.(completedAt := Some(now), success := success, error := error)
      && res.0 == s.(currentDocument := Some(d.(steps := d.steps + [st])), currentStep := None)
      && TotalApiCalls(res.0.currentDocument.value.steps) == TotalApiCalls(d.steps) + st.apiCalls
      && TotalTokens(res.0.currentDocument.value.steps) == TotalTokens(d.steps) + st.tokensUsed
  {
    if s.currentStep.None? || s.currentDocument.None? then (s, Err(ValueError))
    else
      var st := s.currentStep.value.(completedAt := Some(now), success := success, error := error);
      var d := s.currentDocument.value;
      TotalsAppend(d.steps, [st]);
      (s.(currentDocument := Some(d.(steps := d.steps + [st])), currentStep := None), Ok(st))
  }

  /** `finish_document`: raises without a current document; otherwise an
      open step is first finished with the same outcome, and the document,
      completed, is appended to the history. */
  function FinishDocumentOn(s: TrackerState, success: bool, error: Option<string>, now: int)
    : (res: (TrackerState, Result<DocumentMetrics>))
    ensures res.1.Err? <==> s.currentDocument.None?
    ensures res.1.Err? ==> res.1.error == ValueError && res.0 == s
    ensures res.1.Ok? ==>
      && res.0.history == s.history + [res.1.value]
      && res.0.currentDocument.None?
      && res.0.currentStep == (if StepOpen(s) then None else s.currentStep)
      && res.0.sessionStartedAt == s.sessionStartedAt
      && res.1.value.documentName == s.currentDocument.value.documentName
      && res.1.value.completedAt == Some(now)
      && res.1.value.success == success && res.1.value.error == error
      && res.1.value.steps == s.currentDocument.value.steps
         + (if StepOpen(s) then [s.currentStep.value.(completedAt := Some(now), success := success, error := error)]
            else [])
  {
    if s.currentDocument.None? then (s, Err(ValueError))
    else
      var s1 := if StepOpen(s) then FinishStepOn(s, success, error, now).0 else s;
      var d := s1.currentDocument.value.(completedAt := Some(now), success := success, error := error);
      (s1.(history := s1.history + [d], currentDocument := None), Ok(d))
  }

  /** `start_document`: an open document is first finished as failed with
      the interruption message; then a fresh document becomes current. */
  function StartDocumentOn(s: TrackerState, name: string, now: int): (res: (TrackerState, DocumentMetrics))
    ensures res.1 == NewDocument(name, now) && res.0.currentDocument == Some(res.1)
    ensures res.0.sessionStartedAt == s.sessionStartedAt
    ensures DocumentOpen(s) ==>
      var closed := FinishDocumentOn(s, false, Some(Interrupted), now).1.value;
      && res.0.history == s.history + [closed]
      && !closed.success && closed.error == Some(Interrupted)
      && closed.documentName == s.currentDocument.value.documentName
      && res.0.currentStep == (if StepOpen(s) then None else s.currentStep)
    ensures !DocumentOpen(s) ==> res.0.history == s.history && res.0.currentStep == s.currentStep
  {
    var s1 := if DocumentOpen(s) then FinishDocumentOn(s, false, Some(Interrupted), now).0 else s;
    var d := NewDocument(name, now);
    (s1.(currentDocument := Some(d)), d)
  }

  /** `start_step`: raises without a current document; otherwise an open
      step is first finished as successful and a fresh step becomes
      current. */
  function StartStepOn(s: TrackerState, name: string, now: int): (res: (TrackerState, Result<StepMetrics>))
    ensures res.1.Err? <==> s.currentDocument.None?
    ensures res.1.Err? ==> res.1.error == ValueError && res.0 == s
    ensures res.1.Ok? ==>
      && res.1.value == NewStep(name, now) && res.0.currentStep == Some(res.1.value)
      && res.0.history == s.history && res.0.sessionStartedAt == s.sessionStartedAt
      && res.0.currentDocument.Some?
      && res.0.currentDocument.value.steps == s.currentDocument.value.steps
         + (if StepOpen(s) then [s.currentStep.value.(completedAt := Some(now), success := true, error := None)]
            else [])
  {
    if s.currentDocument.None? then (s, Err(ValueError))
    else
      var s1 := if StepOpen(s) then FinishStepOn(s, true, None, now).0 else s;
      var st := NewStep(name, now);
      (s1.(currentStep := Some(st)), Ok(st))
  }

  /** `add_api_call`: one more call and `tokens` more tokens on the open
      step; nothing without one. */
  function AddApiCallOn(s: TrackerState, tokens: int): (s': TrackerState)
    ensures s.currentStep.None? ==> s' == s
    ensures s.currentStep.Some? ==>
      && s'.currentStep.Some?
      && s'.currentStep.value.apiCalls == s.currentStep.value.apiCalls + 1
      && s'.currentStep.value.tokensUsed == s.currentStep.value.tokensUsed + tokens
      && s'.currentStep.value == s.currentStep.value.(apiCalls := s'.currentStep.value.apiCalls,
                                                       tokensUsed := s'.currentStep.value.tokensUsed)
      && s' == s.(currentStep := s'.currentStep)
  {
    if s.currentStep.Some? then
      var st := s.currentStep.value;
      s.(currentStep := Some(st.(apiCalls := st.apiCalls + 1, tokensUsed := st.tokensUsed + tokens)))
    else s
  }

  /** Every operation keeps the tracker well formed. */
  lemma FinishStepValid(s: TrackerState, success: bool, error: Option<string>, now: int)
    requires Valid(s)
    ensures Valid(FinishStepOn(s, success, error, now).0)
  {
    if s.currentStep.Some? {
      var d := FinishStepOn(s, success, error, now).0.currentDocument.value;
      assert d.steps == s.currentDocument.value.steps + [d.steps[|d.steps| - 1]];
    }
  }

  lemma FinishDocumentValid(s: TrackerState, success: bool, error: Option<string>, now: int)
    requires Valid(s)
    ensures Valid(FinishDocumentOn(s, success, error, now).0)
  {
    if s.currentDocument.Some? {
      FinishStepValid(s, success, error, now);
      var d := FinishDocumentOn(s, success, error, now).1.value;
      assert Finished(d.steps);
    }
  }

  lemma StartDocumentValid(s: TrackerState, name: string, now: int)
    requires Valid(s)
    ensures Valid(StartDocumentOn(s, name, now).0)
  {
    FinishDocumentValid(s, false, Some(Interrupted), now);
  }

  lemma StartStepValid(s: TrackerState, name: string, now: int)
    requires Valid(s)
    ensures Valid(StartStepOn(s, name, now).0)
  {
    FinishStepValid(s, true, None, now);
  }

  lemma SessionAndCallsValid(s: TrackerState, tokens: int, now: int)
    requires Valid(s)
    ensures Valid(StartSessionOn(s, now))
    ensures Valid(AddApiCallOn(s, tokens))
  {
  }

  /** In a well-formed tracker the completion guards reduce to presence:
      finishing a document closes any current step, and starting a
      document closes any current document. */
  lemma GuardsArePresence(s: TrackerState)
    requires Valid(s)
    ensures StepOpen(s) <==> s.currentStep.Some?
    ensures DocumentOpen(s) <==> s.currentDocument.Some?
  {
  }

  // =====================================================================
  // Summaries

  function CountSuccessful(docs: seq<DocumentMetrics>): (r: nat)
    ensures r <= |docs|
  {
    if docs == [] then 0
    else CountSuccessful(docs[..|docs| - 1]) + (if docs[|docs| - 1].success then 1 else 0)
  }

  function HistoryApiCalls(docs: seq<DocumentMetrics>): nat
  {
    if docs == [] then 0 else HistoryApiCalls(docs[..|docs| - 1]) + TotalApiCalls(docs[|docs| - 1].steps)
  }

  function HistoryTokens(docs: seq<DocumentMetrics>): int
  {
    if docs == [] then 0 else HistoryTokens(docs[..|docs| - 1]) + TotalTokens(docs[|docs| - 1].steps)
  }

  /** The integer part of `get_session_summary`. */
  datatype SessionSummary = SessionSummary(
    startedAt: int,
    status: string,
    total: nat,
    successful: nat,
    failed: int,
    totalApiCalls: nat,
    totalTokens: int)

  /** `get_session_summary`: nothing before a session starts; afterwards
      the document counts and the call and token totals. */
  function SessionSummaryOf(s: TrackerState): (r: Option<SessionSummary>)
    ensures r.None? <==> s.sessionStartedAt.None?
    ensures r.Some? ==>
      && r.value.total == |s.history|
      && r.value.failed == r.value.total - r.value.successful
      && 0 <= r.value.failed <= r.value.total
      && (r.value.status == "active" <==> s.currentDocument.Some?)
  {
    if s.sessionStartedAt.None? then None
    else
      var total := |s.history|;
      var successful := CountSuccessful(s.history);
      Some(SessionSummary(s.sessionStartedAt.value,
                          if s.currentDocument.Some? then "active" else "completed",
                          total, successful, total - successful,
                          HistoryApiCalls(s.history), HistoryTokens(s.history)))
  }

  /** Finishing a document adds one to the total, and one to the
      successful count exactly when it succeeded; its calls join the
      session's calls. */
  lemma FinishDocumentCounts(s: TrackerState, success: bool, error: Option<string>, now: int)
    requires s.currentDocument.Some? && s.sessionStartedAt.Some?
    ensures var before := SessionSummaryOf(s).value;
            var after := SessionSummaryOf(FinishDocumentOn(s, success, error, now).0).value;
            && after.total == before.total + 1
            && after.successful == before.successful + (if success then 1 else 0)
            && after.failed == before.failed + (if success then 0 else 1)
            && after.totalApiCalls == before.totalApiCalls
               + TotalApiCalls(FinishDocumentOn(s, success, error, now).1.value.steps)
  {
    var h := FinishDocumentOn(s, success, error, now).0.history;
    assert h[..|h| - 1] == s.history;
  }

  /** The summary fields of one document that `get_document_summary` reports
      (durations aside). */
  datatype DocumentSummary = DocumentSummary(
    documentName: string,
    success: bool,
    error: Option<string>,
    steps: nat,
    apiCalls: nat,
    tokens: int)

  function SummaryOf(d: DocumentMetrics): DocumentSummary
  {
    DocumentSummary(d.documentName, d.success, d.error, |d.steps|, TotalApiCalls(d.steps), TotalTokens(d.steps))
  }

  // =====================================================================
  // ProgressTracker

  class ProgressTracker {
    var currentDocument: Option<DocumentMetrics>
    var currentStep: Option<StepMetrics>
    var documentHistory: seq<DocumentMetrics>
    var sessionStartedAt: Option<int>

    function State(): TrackerState
      reads this
    {
      TrackerState(currentDocument, currentStep, documentHistory, sessionStartedAt)
    }

    constructor ()
      ensures State() == Initial && Valid(State())
    {
      currentDocument := None;
      currentStep := None;
      documentHistory := [];
      sessionStartedAt := None;
    }

    method StartSession(now: int)
      modifies this
      ensures State() == StartSessionOn(old(State()), now)
    {
      sessionStartedAt := Some(now);
      documentHistory := [];
    }

    method FinishStep(success: bool, error: Option<string>, now: int) returns (r: Result<StepMetrics>)
      modifies this
      ensures (State(), r) == FinishStepOn(old(State()), success, error, now)
    {
      if currentStep.None? {
        return Err(ValueError);
      }
      if currentDocument.None? {
        return Err(ValueError);
      }
      var step := currentStep.value.(completedAt := Some(now), success := success, error := error);
      var doc := currentDocument.value;
      currentDocument := Some(doc.(steps := doc.steps + [step]));
      currentStep := None;
      r := Ok(step);
    }

    method FinishDocument(success: bool, error: Option<string>, now: int) returns (r: Result<DocumentMetrics>)
      modifies this
      ensures (State(), r) == FinishDocumentOn(old(State()), success, error, now)
    {
      if currentDocument.None? {
        return Err(ValueError);
      }
      if currentStep.Some? && currentStep.value.completedAt.None? {
        var _ := FinishStep(success, error, now);
      }
      var doc := currentDocument.value.(completedAt := Some(now), success := success, error := error);
      documentHistory := documentHistory + [doc];
      currentDocument := None;
      r := Ok(doc);
    }

    method StartDocument(name: string, now: int) returns (d: DocumentMetrics)
      modifies this
      ensures (State(), d) == StartDocumentOn(old(State()), name, now)
    {
      if currentDocument.Some? && currentDocument.value.completedAt.None? {
        var _ := FinishDocument(false, Some(Interrupted), now);
      }
      d := NewDocument(name, now);
      currentDocument := Some(d);
    }

    method StartStep(name: string, now: int) returns (r: Result<StepMetrics>)
      modifies this
      ensures (State(), r) == StartStepOn(old(State()), name, now)
    {
      if currentDocument.None? {
        return Err(ValueError);
      }
      if currentStep.Some? && currentStep.value.completedAt.None? {
        var _ := FinishStep(true, None, now);
      }
      var step := NewStep(name, now);
      currentStep := Some(step);
      r := Ok(step);
    }

    method AddApiCall(tokens: int)
      modifies this
      ensures State() == AddApiCallOn(old(State()), tokens)
    {
      if currentStep.Some? {
        var step := currentStep.value;
        currentStep := Some(step.(apiCalls := step.apiCalls + 1, tokensUsed := step.tokensUsed + tokens));
      }
    }

    function GetSessionSummary(): Option<SessionSummary>
      reads this
    {
      SessionSummaryOf(State())
    }

    /** `get_document_summary`: the first document of the history with
        that name, or None. */
    method GetDocumentSummary(name: string) returns (r: Option<DocumentSummary>)
      ensures r.None? <==> forall i :: 0 <= i < |documentHistory| ==> documentHistory[i].documentName != name
      ensures r.Some? ==>
        exists i :: 0 <= i < |documentHistory| && documentHistory[i].documentName == name &&
          r.value == SummaryOf(documentHistory[i]) &&
          forall j :: 0 <= j < i ==> documentHistory[j].documentName != name
    {
      for i := 0 to |documentHistory|
        invariant forall j :: 0 <= j < i ==> documentHistory[j].documentName != name
      {
        var doc := documentHistory[i];
        if doc.documentName == name {
          return Some(SummaryOf(doc));
        }
      }
      return None;
    }
  }
}
