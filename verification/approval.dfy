/**
  The approval gate and the "Run Career Analysis" action: scores are always
  computed and shown, but the PDF career report is produced only when the
  effective approval status is Approved, and only the HR view can select a
  status other than Draft.
*/
module Approval {
  import opened Text
  import opened Skills
  import opened Scoring
  import opened Segmenter

  /** The two views of the sidebar selector. */
  datatype ViewMode = ManagerView | HRView

  datatype Status = Draft | Approved | Rejected

  /** The status in force: Draft unless the HR view selected another one. */
  function EffectiveStatus(view: ViewMode, selected: Status): (status: Status)
    ensures status == selected || status == Draft
    ensures status == Approved <==> view == HRView && selected == Approved
    ensures status == Rejected <==> view == HRView && selected == Rejected
  {
    if view == HRView then selected else Draft
  }

  /** The manager view never approves and never rejects. */
  lemma ManagerViewIsDraft(selected: Status)
    ensures EffectiveStatus(ManagerView, selected) == Draft
  {
  }

  /** The PDF career report: the summary cells that depend on the model, then
      one section per non-blank "###" fragment of the insights. */
  datatype Report = Report(status: Status, peerPercentile: int, sections: seq<Section>)

  /** What the action offers: the report to download, or the warning that the
      PDF is available only after HR approval. */
  datatype Export = Download(report: Report) | Refused

  /** The download branch: a report exactly when the status is Approved. */
  function ExportReport(status: Status, scores: Scores, insights: string): (offer: Export)
    ensures offer.Download? <==> status == Approved
    ensures offer.Download? ==> offer.report.status == Approved
    ensures offer.Download? ==> offer.report.peerPercentile == scores.peerPercentile
    ensures offer.Download? ==> offer.report.sections == Segment(insights)
  {
    if status == Approved then Download(Report(status, scores.peerPercentile, Segment(insights))) else Refused
  }

  /** The outcome of one press of the analysis button. */
  datatype Analysis = Analysis(scores: Scores, offer: Export)

  /** One analysis: parse the skills field, score the employee, and gate the
      report on the effective status. The insights text is the language
      model's reply, taken as a parameter. */
  function Analyse(view: ViewMode, selected: Status, role: string, skillsField: string,
                   experience: int, insights: string): (a: Analysis)
    ensures a.offer.Download? <==> view == HRView && selected == Approved
    ensures a.scores == ComputeScores(role, ParseSkills(skillsField), experience)
    ensures experience >= 0 ==> BASE <= a.scores.readiness <= CAP
    ensures PEER_MIN <= a.scores.peerPercentile <= PEER_MAX
    ensures a.offer.Download? ==> a.offer.report.peerPercentile == a.scores.peerPercentile
    ensures a.offer.Download? ==> a.offer.report.sections == Segment(insights)
  {
    var scores := ComputeScores(role, ParseSkills(skillsField), experience);
    Analysis(scores, ExportReport(EffectiveStatus(view, selected), scores, insights))
  }

  /** The manager view never gets a report, whatever status it might hold. */
  lemma ManagerViewNeverExports(selected: Status, role: string, skillsField: string,
                                experience: int, insights: string)
    ensures Analyse(ManagerView, selected, role, skillsField, experience, insights).offer == Refused
  {
  }

  /** The gate changes only whether a report is offered: the view and the
      selected status never change the scores. */
  lemma ScoresIgnoreApproval(v1: ViewMode, s1: Status, v2: ViewMode, s2: Status, role: string,
                             skillsField: string, experience: int, insights1: string, insights2: string)
    ensures Analyse(v1, s1, role, skillsField, experience, insights1).scores
         == Analyse(v2, s2, role, skillsField, experience, insights2).scores
  {
  }

  /** Every section of an exported report is well formed. A report is
      exported exactly when the HR view selected Approved (`Analyse`). */
  lemma ReportWellFormed(view: ViewMode, selected: Status, role: string, skillsField: string,
                         experience: int, insights: string)
    requires view == HRView && selected == Approved
    ensures Analyse(view, selected, role, skillsField, experience, insights).offer.Download?
    ensures forall k :: 0 <= k < |Analyse(view, selected, role, skillsField, experience, insights).offer.report.sections| ==>
              WellFormed(Analyse(view, selected, role, skillsField, experience, insights).offer.report.sections[k])
  {
    SegmentWellFormed(insights);
  }

  /** A reply laid out as the prompt asks, each section under a `### Title`
      heading line, carries its sections into the approved report
      unchanged. */
  lemma ReportKeepsSections(role: string, skillsField: string, experience: int, sections: seq<Section>)
    requires forall k :: 0 <= k < |sections| ==> Renderable(sections[k])
    ensures Analyse(HRView, Approved, role, skillsField, experience, Render(sections)).offer
         == Download(Report(Approved, Analyse(HRView, Approved, role, skillsField, experience, Render(sections)).scores.peerPercentile, sections))
  {
    SegmentRender(sections);
  }
}
