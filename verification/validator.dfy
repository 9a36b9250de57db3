/** `validate_dsc`: open the document, try the AcroForm strategy, fall back to
    scanning only when it found nothing, and classify the outcome. */
module Validator {
  import opened Wrappers
  import opened PdfObjects
  import opened Signatures
  import opened Seqs

  datatype Status = Valid | Invalid | Error

  /** The dictionary `validate_dsc` returns: a status, the signer labels, and
      the error message in the Error case only. */
  datatype Report = Report(status: Status, signers: seq<string>, error: Option<string>)

  /** `validate_dsc`: the AcroForm labels, or, only when there are none, the
      scanned labels, never the two merged. `parsed` is what constructing the `PdfReader` produced:
      the parsed document, or the message of the exception it raised. */
  function ValidateDsc(parsed: Result<Reader, string>, render: Obj -> string): (rep: Report)
    ensures rep.status == Valid <==> rep.signers != []
    ensures rep.status == Error <==> parsed.Failure?
    ensures rep.status != Valid ==> rep.signers == []
    ensures parsed.Failure? ==> rep.error == Some(parsed.error)
    ensures parsed.Success? ==> rep.error == None
    ensures parsed.Success? && ViaAcroForm(parsed.value, render) != [] ==>
      rep.signers == ViaAcroForm(parsed.value, render)
    ensures parsed.Success? && ViaAcroForm(parsed.value, render) == [] ==>
      rep.signers == ViaScanning(parsed.value, render)
  {
    match parsed
    case Failure(message) => Report(Error, [], Some(message))
    case Success(doc) =>
      var acroform := ViaAcroForm(doc, render);
      var names := if acroform != [] then acroform else ViaScanning(doc, render);
      if names != [] then Report(Valid, names, None) else Report(Invalid, [], None)
  }

  /** Some field of the AcroForm walk yields a label. */
  ghost predicate SomeFieldLabelled(doc: Reader, render: Obj -> string) {
    var fields := AcroFormFields(doc);
    exists i :: 0 <= i < |fields| && FieldContribution(doc.table, fields[i], render).Some?
  }

  /** Some cached object yields a label in the scan. */
  ghost predicate SomeObjectLabelled(doc: Reader, render: Obj -> string) {
    exists i :: 0 <= i < |doc.resolved| && ScanContribution(doc.table, doc.resolved[i], render).Some?
  }

  /** A parsed document is Valid exactly when some AcroForm field or some
      cached signature dictionary yields a label, and Invalid otherwise;
      failures on single items never turn into Error. */
  lemma ValidIffSomeLabel(doc: Reader, render: Obj -> string)
    ensures ValidateDsc(Success(doc), render).status == Valid <==>
      SomeFieldLabelled(doc, render) || SomeObjectLabelled(doc, render)
    ensures ValidateDsc(Success(doc), render).status == Invalid <==>
      !SomeFieldLabelled(doc, render) && !SomeObjectLabelled(doc, render)
  {
    FilterMapEmptyIff(AcroFormFields(doc), f => FieldContribution(doc.table, f, render));
    FilterMapEmptyIff(doc.resolved, o => ScanContribution(doc.table, o, render));
  }

  /** Once the AcroForm walk finds a label the cache is never consulted: the
      report is the same whatever objects the scan would have seen. */
  lemma ScanIgnoredAfterAcroForm(doc: Reader, cached: seq<Obj>, render: Obj -> string)
    requires ViaAcroForm(doc, render) != []
    ensures ValidateDsc(Success(doc), render) == ValidateDsc(Success(doc.(resolved := cached)), render)
  {
    assert AcroFormFields(doc.(resolved := cached)) == AcroFormFields(doc);
  }

  /** No deduplication: two fields, distinct or not, whose labels are equal
      both appear in the report. */
  lemma DuplicatesKept(doc: Reader, f: Obj, g: Obj, l: string, render: Obj -> string)
    requires AcroFormFields(doc) == [f, g]
    requires FieldLabel(doc.table, f, render) == Value(Some(l))
    requires FieldLabel(doc.table, g, render) == Value(Some(l))
    ensures ValidateDsc(Success(doc), render) == Report(Valid, [l, l], None)
  {
    LabelledFieldInPlace(doc.table, [], g, [], render, l);
    assert [g] == [] + [g] + [];
    LabelledFieldInPlace(doc.table, [], f, [g], render, l);
    assert [] + [f] + [g] == [f, g];
  }

  /** The scan reads a `/Sig` key and nothing else: adding or changing a
      `/Type` entry never changes what a cached object contributes. */
  lemma TypeTagIgnoredByScan(t: Table, d: map<string, Obj>, tag: Obj, render: Obj -> string)
    ensures ScanContribution(t, Dict(d["/Type" := tag]), render) == ScanContribution(t, Dict(d), render)
  {
    assert SigKey != "/Type";
    assert (SigKey in d["/Type" := tag]) == (SigKey in d);
  }

  /** A cache in which no object holds a `/Sig` key yields no scanned label,
      however many dictionaries in it are typed `/Type /Sig` and carry a
      `/Name`. */
  lemma TypeTaggedSignatureNotScanned(doc: Reader, render: Obj -> string)
    requires forall i :: 0 <= i < |doc.resolved| ==>
      !(doc.resolved[i].Dict? && SigKey in doc.resolved[i].entries)
    ensures ViaScanning(doc, render) == []
  {
    FilterMapEmptyIff(doc.resolved, o => ScanContribution(doc.table, o, render));
  }
}
