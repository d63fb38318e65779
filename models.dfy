/**
 * The records the extraction step fills in. Every field is optional and
 * starts out absent; the bounds that the field descriptions mention
 * (para number 1 to 50, group number 1 to 30) are not enforced by the
 * types, so the records below do not enforce them either.
 */
module Models {
  import opened Basics
  import opened Frames

  /** One audit para of a report. */
  datatype AuditPara = AuditPara(
    auditParaNumber: Option<int>,
    auditParaHeading: Option<string>,
    revenueInvolvedLakhsRs: Option<Float>,
    revenueRecoveredLakhsRs: Option<Float>,
    statusOfPara: Option<string>)

  /** The taxpayer details at the head of a report. */
  datatype DarHeader = DarHeader(
    auditGroupNumber: Option<int>,
    gstin: Option<string>,
    tradeName: Option<string>,
    category: Option<string>,
    totalAmountDetectedOverallRs: Option<Float>,
    totalAmountRecoveredOverallRs: Option<Float>)

  /** What the extraction step returns: a header, the paras, and a note on what went wrong. */
  datatype ParsedDarReport = ParsedDarReport(
    header: Option<DarHeader>,
    auditParas: seq<AuditPara>,
    parsingErrors: Option<string>)

  /** One row of the final table: the header fields followed by the para fields. */
  datatype FlattenedAuditData = FlattenedAuditData(
    auditGroupNumber: Option<int>,
    gstin: Option<string>,
    tradeName: Option<string>,
    category: Option<string>,
    totalAmountDetectedOverallRs: Option<Float>,
    totalAmountRecoveredOverallRs: Option<Float>,
    auditParaNumber: Option<int>,
    auditParaHeading: Option<string>,
    revenueInvolvedLakhsRs: Option<Float>,
    revenueRecoveredLakhsRs: Option<Float>,
    statusOfPara: Option<string>)

  const EmptyPara := AuditPara(None, None, None, None, None)
  const EmptyHeader := DarHeader(None, None, None, None, None, None)
  const EmptyReport := ParsedDarReport(None, [], None)

  /** The report every failure path returns: nothing but the error note. */
  function FailedReport(msg: string): ParsedDarReport {
    ParsedDarReport(None, [], Some(msg))
  }

  predicate IsFailure(r: ParsedDarReport) {
    r.header.None? && r.auditParas == [] && r.parsingErrors.Some?
  }

  /** A failure report gives back exactly the note it was built from. */
  lemma FailedReportRoundTrip(msg: string, r: ParsedDarReport)
    ensures IsFailure(FailedReport(msg)) && FailedReport(msg).parsingErrors.value == msg
    ensures IsFailure(r) ==> FailedReport(r.parsingErrors.value) == r
  {
  }

  // ---------------------------------------------------------------------
  // `model_dump()`: a record as a column -> cell mapping
  // ---------------------------------------------------------------------

  function IntCell(v: Option<int>): Cell {
    if v.Some? then Int(v.value) else Null
  }

  function StrCell(v: Option<string>): Cell {
    if v.Some? then Str(v.value) else Null
  }

  function NumCell(v: Option<Float>): Cell {
    if v.Some? then Num(v.value) else Null
  }

  const HeaderKeys: seq<string> := [
    "audit_group_number", "gstin", "trade_name", "category",
    "total_amount_detected_overall_rs", "total_amount_recovered_overall_rs"]

  const ParaKeys: seq<string> := [
    "audit_para_number", "audit_para_heading",
    "revenue_involved_lakhs_rs", "revenue_recovered_lakhs_rs", "status_of_para"]

  function HeaderDump(h: DarHeader): (r: Row)
    ensures r.Keys == set k | k in HeaderKeys
  {
    map[
      "audit_group_number" := IntCell(h.auditGroupNumber),
      "gstin" := StrCell(h.gstin),
      "trade_name" := StrCell(h.tradeName),
      "category" := StrCell(h.category),
      "total_amount_detected_overall_rs" := NumCell(h.totalAmountDetectedOverallRs),
      "total_amount_recovered_overall_rs" := NumCell(h.totalAmountRecoveredOverallRs)]
  }

  function ParaDump(p: AuditPara): (r: Row)
    ensures r.Keys == set k | k in ParaKeys
  {
    map[
      "audit_para_number" := IntCell(p.auditParaNumber),
      "audit_para_heading" := StrCell(p.auditParaHeading),
      "revenue_involved_lakhs_rs" := NumCell(p.revenueInvolvedLakhsRs),
      "revenue_recovered_lakhs_rs" := NumCell(p.revenueRecoveredLakhsRs),
      "status_of_para" := StrCell(p.statusOfPara)]
  }

  /** Which header field a column name stands for is absent. */
  predicate HeaderFieldAbsent(h: DarHeader, k: string) {
    (k == "audit_group_number" && h.auditGroupNumber.None?)
    || (k == "gstin" && h.gstin.None?)
    || (k == "trade_name" && h.tradeName.None?)
    || (k == "category" && h.category.None?)
    || (k == "total_amount_detected_overall_rs" && h.totalAmountDetectedOverallRs.None?)
    || (k == "total_amount_recovered_overall_rs" && h.totalAmountRecoveredOverallRs.None?)
  }

  predicate ParaFieldAbsent(p: AuditPara, k: string) {
    (k == "audit_para_number" && p.auditParaNumber.None?)
    || (k == "audit_para_heading" && p.auditParaHeading.None?)
    || (k == "revenue_involved_lakhs_rs" && p.revenueInvolvedLakhsRs.None?)
    || (k == "revenue_recovered_lakhs_rs" && p.revenueRecoveredLakhsRs.None?)
    || (k == "status_of_para" && p.statusOfPara.None?)
  }

  /**
   * Dumping a record keeps every field: a column holds a missing value
   * exactly when its field is absent.
   */
  lemma DumpMarksAbsentFields(h: DarHeader, p: AuditPara, k: string)
    ensures k in HeaderDump(h) ==> (IsNa(HeaderDump(h)[k]) <==> HeaderFieldAbsent(h, k))
    ensures k in ParaDump(p) ==> (IsNa(ParaDump(p)[k]) <==> ParaFieldAbsent(p, k))
  {
  }

  /** A flattened record is the header of its report with one para's fields. */
  function Flatten(h: DarHeader, p: AuditPara): (f: FlattenedAuditData)
    ensures FlattenedDump(f) == HeaderDump(h) + ParaDump(p)
  {
    FlattenedAuditData(
      h.auditGroupNumber, h.gstin, h.tradeName, h.category,
      h.totalAmountDetectedOverallRs, h.totalAmountRecoveredOverallRs,
      p.auditParaNumber, p.auditParaHeading,
      p.revenueInvolvedLakhsRs, p.revenueRecoveredLakhsRs, p.statusOfPara)
  }

  function FlattenedDump(f: FlattenedAuditData): (r: Row)
    ensures r.Keys == (set k | k in HeaderKeys) + (set k | k in ParaKeys)
  {
    map[
      "audit_group_number" := IntCell(f.auditGroupNumber),
      "gstin" := StrCell(f.gstin),
      "trade_name" := StrCell(f.tradeName),
      "category" := StrCell(f.category),
      "total_amount_detected_overall_rs" := NumCell(f.totalAmountDetectedOverallRs),
      "total_amount_recovered_overall_rs" := NumCell(f.totalAmountRecoveredOverallRs),
      "audit_para_number" := IntCell(f.auditParaNumber),
      "audit_para_heading" := StrCell(f.auditParaHeading),
      "revenue_involved_lakhs_rs" := NumCell(f.revenueInvolvedLakhsRs),
      "revenue_recovered_lakhs_rs" := NumCell(f.revenueRecoveredLakhsRs),
      "status_of_para" := StrCell(f.statusOfPara)]
  }
}
