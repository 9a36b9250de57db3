/** The two signature-discovery strategies of app.py: a walk of the AcroForm
    field list, and a scan of the reader's resolved-object cache. Both apply
    the same Name-then-M rule to a signature value, and both swallow any
    failure on a single item and move on. */
module Signatures {
  import opened Wrappers
  import opened PdfObjects
  import opened Seqs

  /** The Name-then-M rule on a plain dictionary: a truthy `/Name` wins,
      then a truthy `/M`; a dictionary with neither has no label. */
  ghost function DictLabel(d: map<string, Obj>, render: Obj -> string): Option<string> {
    if Truthy(Lookup(d, NameKey)) then Some(render(d[NameKey]))
    else if Truthy(Lookup(d, TimeKey)) then Some(render(d[TimeKey]))
    else None
  }

  /** The label of a signature value `v` as the code computes it with `get`.
      It raises exactly when `v` has no `get`, that is, when it is neither a
      dictionary nor a reference to one; otherwise it follows the
      Name-then-M rule on that dictionary. */
  function SignerLabel(t: Table, v: Obj, render: Obj -> string): (r: Outcome<Option<string>>)
    ensures r.Raised? <==> !v.Dict? && !(v.Ref? && v.num in t && t[v.num].Dict?)
    ensures v.Dict? ==> r == Value(DictLabel(v.entries, render))
    ensures v.Ref? && v.num in t && t[v.num].Dict? ==> r == Value(DictLabel(t[v.num].entries, render))
  {
    var name :- Get(t, v, NameKey);
    if Truthy(name) then Value(Some(render(name.value)))
    else match Get(t, v, TimeKey)
      case Raised => Raised
      case Value(m) => if Truthy(m) then Value(Some(render(m.value))) else Value(None)
  }

  /** The dictionary of a field as the loop sees it: an inline field
      dictionary, or, for a field given by reference, the dictionary that
      `get` reaches from the object the reference resolves to. `None` when
      there is no such dictionary: a dangling reference, or a value without
      `get`. */
  ghost function FieldDict(t: Table, f: Obj): Option<map<string, Obj>> {
    match f
    case Dict(d) => Some(d)
    case Ref(n) => if n in t then DictOf(t, t[n]) else None
    case _ => None
  }

  /** The outcome for a truthy `/V` value: an inline signature dictionary, or
      a reference whose target `get` can read, gives that dictionary's label;
      a dangling reference and any other value raise. */
  ghost function ValueLabel(t: Table, v: Obj, render: Obj -> string): Outcome<Option<string>> {
    match v
    case Dict(d) => Value(DictLabel(d, render))
    case Ref(m) =>
      if m in t && DictOf(t, t[m]).Some? then Value(DictLabel(DictOf(t, t[m]).value, render))
      else Raised
    case _ => Raised
  }

  /** The body of the per-field `try` block: resolve the field, read its `/V`,
      and when that is truthy resolve it and take its signer label. `Raised`
      means the field is skipped by the `except ... continue`. */
  function FieldLabel(t: Table, f: Obj, render: Obj -> string): (r: Outcome<Option<string>>)
    ensures FieldDict(t, f).None? ==> r.Raised?
    ensures FieldDict(t, f).Some? && !Truthy(Lookup(FieldDict(t, f).value, ValueKey)) ==>
      r == Value(None)
    ensures FieldDict(t, f).Some? && Truthy(Lookup(FieldDict(t, f).value, ValueKey)) ==>
      r == ValueLabel(t, FieldDict(t, f).value[ValueKey], render)
  {
    var fobj :- GetObject(t, f);
    var v :- Get(t, fobj, ValueKey);
    if !Truthy(v) then Value(None)
    else
      var vobj :- GetObject(t, v.value);
      SignerLabel(t, vobj, render)
  }

  /** The usual layout of a signed form: the field is an indirect reference to
      its dictionary, whose `/V` is an indirect reference to the signature
      dictionary. The field's label is that dictionary's Name-then-M label. */
  lemma IndirectFieldIndirectValue(t: Table, n: nat, m: nat, sig: map<string, Obj>, render: Obj -> string)
    requires n in t && t[n].Dict? && ValueKey in t[n].entries
    requires t[n].entries[ValueKey] == Ref(m) && m in t && t[m] == Dict(sig)
    ensures FieldLabel(t, Ref(n), render) == Value(DictLabel(sig, render))
  {
  }

  /** A field given by reference behaves exactly as its dictionary written
      inline. */
  lemma ReferencedFieldAsInline(t: Table, n: nat, render: Obj -> string)
    requires n in t && t[n].Dict?
    ensures FieldLabel(t, Ref(n), render) == FieldLabel(t, t[n], render)
  {
  }

  /** What one field adds to the list: its label when processing it returns
      one, and nothing when it has no label or when processing it raised. */
  function FieldContribution(t: Table, f: Obj, render: Obj -> string): (l: Option<string>)
    ensures FieldLabel(t, f, render).Value? ==> l == FieldLabel(t, f, render).value
    ensures FieldLabel(t, f, render).Raised? ==> l.None?
  {
    match FieldLabel(t, f, render)
    case Value(l) => l
    case Raised => None
  }

  /** The loop over the fields: one contribution per field, in field order.
      Every label is some field's label, and no labelled field is lost. */
  function FieldLabels(t: Table, fields: seq<Obj>, render: Obj -> string): (labels: seq<string>)
    ensures |labels| <= |fields|
    ensures forall l :: l in labels ==>
              exists i :: 0 <= i < |fields| && FieldLabel(t, fields[i], render) == Value(Some(l))
    ensures forall i :: 0 <= i < |fields| && FieldContribution(t, fields[i], render).Some? ==>
              FieldContribution(t, fields[i], render).value in labels
  {
    FilterMap(fields, f => FieldContribution(t, f, render))
  }

  /** The dictionary of the document catalog: the trailer's `/Root` when it
      is truthy and `get` can read it, inline or one reference away. */
  ghost function RootDict(doc: Reader): Option<map<string, Obj>> {
    var root := Lookup(doc.trailer, RootKey);
    if Truthy(root) then DictOf(doc.table, root.value) else None
  }

  /** The dictionary of the interactive form: the catalog's `/AcroForm` when
      it is truthy and `get` can read it, inline or one reference away. */
  ghost function AcroFormDict(doc: Reader): Option<map<string, Obj>> {
    match RootDict(doc)
    case None => None
    case Some(rd) =>
      var acroform := Lookup(rd, AcroFormKey);
      if Truthy(acroform) then DictOf(doc.table, acroform.value) else None
  }

  /** The fields the AcroForm strategy visits: `/Root`, then its `/AcroForm`,
      then its `/Fields` (an empty list when absent). A missing or falsy
      `/Root` or `/AcroForm`, or a lookup that raises, leaves nothing to
      visit; the raise is swallowed. */
  function AcroFormFields(doc: Reader): (fields: seq<Obj>)
    ensures !Truthy(Lookup(doc.trailer, RootKey)) ==> fields == []
    ensures RootDict(doc).Some? && !Truthy(Lookup(RootDict(doc).value, AcroFormKey)) ==> fields == []
    ensures AcroFormDict(doc).None? ==> fields == []
    ensures AcroFormDict(doc).Some? && FieldsKey !in AcroFormDict(doc).value ==> fields == []
    ensures AcroFormDict(doc).Some? && FieldsKey in AcroFormDict(doc).value ==>
      fields == Elements(doc.table, AcroFormDict(doc).value[FieldsKey])
  {
    var root := Lookup(doc.trailer, RootKey);
    if !Truthy(root) then []
    else match Get(doc.table, root.value, AcroFormKey)
      case Raised => []
      case Value(acroform) =>
        if !Truthy(acroform) then []
        else match Get(doc.table, acroform.value, FieldsKey)
          case Raised => []
          case Value(fields) => Elements(doc.table, fields.GetOr(Arr([])))
  }

  /** An indirect `/Root` visits the same fields as the catalog dictionary it
      resolves to, written inline in the trailer. */
  lemma IndirectRootAsInline(doc: Reader, n: nat)
    requires Lookup(doc.trailer, RootKey) == Some(Ref(n))
    requires n in doc.table && doc.table[n].Dict?
    ensures AcroFormFields(doc) == AcroFormFields(doc.(trailer := doc.trailer[RootKey := doc.table[n]]))
  {
    var doc' := doc.(trailer := doc.trailer[RootKey := doc.table[n]]);
    assert AcroFormDict(doc') == AcroFormDict(doc);
  }

  /** `_extract_signatures_via_acroform`: the labels of the AcroForm fields,
      one at most per field, each from a field, none lost. */
  function ViaAcroForm(doc: Reader, render: Obj -> string): (labels: seq<string>)
    ensures AcroFormDict(doc).None? ==> labels == []
    ensures |labels| <= |AcroFormFields(doc)|
    ensures forall l :: l in labels ==>
              exists i :: 0 <= i < |AcroFormFields(doc)|
                && FieldLabel(doc.table, AcroFormFields(doc)[i], render) == Value(Some(l))
    ensures forall i | 0 <= i < |AcroFormFields(doc)| ::
              FieldContribution(doc.table, AcroFormFields(doc)[i], render).Some? ==>
                FieldContribution(doc.table, AcroFormFields(doc)[i], render).value in labels
  {
    FieldLabels(doc.table, AcroFormFields(doc), render)
  }

  /** A field that contributes nothing, because it raised or has no label, is
      skipped, and every other field still contributes what it would have
      contributed without it. */
  lemma UnlabelledFieldSkipped(t: Table, before: seq<Obj>, f: Obj, after: seq<Obj>, render: Obj -> string)
    requires FieldContribution(t, f, render).None?
    ensures FieldLabels(t, before + [f] + after, render)
            == FieldLabels(t, before, render) + FieldLabels(t, after, render)
  {
    SkippedElement(before, f, after, x => FieldContribution(t, x, render));
  }

  /** A field with a label contributes exactly that label, between the labels
      of the fields before it and those after it. */
  lemma LabelledFieldInPlace(t: Table, before: seq<Obj>, f: Obj, after: seq<Obj>, render: Obj -> string, l: string)
    requires FieldLabel(t, f, render) == Value(Some(l))
    ensures FieldLabels(t, before + [f] + after, render)
            == FieldLabels(t, before, render) + [l] + FieldLabels(t, after, render)
  {
    KeptElement(before, f, after, x => FieldContribution(t, x, render));
  }

  /** What one cached object adds in the scan: a label only when it is a
      dictionary holding `/Sig` whose value is itself a dictionary (not a
      reference to one). */
  function ScanContribution(t: Table, o: Obj, render: Obj -> string): (l: Option<string>)
    ensures l.Some? ==> o.Dict? && SigKey in o.entries && o.entries[SigKey].Dict?
    ensures o.Dict? && SigKey in o.entries && o.entries[SigKey].Dict?
            ==> Value(l) == SignerLabel(t, o.entries[SigKey], render)
  {
    if o.Dict? && SigKey in o.entries && o.entries[SigKey].Dict? then
      match SignerLabel(t, o.entries[SigKey], render)
      case Value(l) => l
      case Raised => None
    else None
  }

  /** `_extract_signatures_by_scanning`: the labels of the cached objects that
      hold a signature dictionary, in cache order: every label comes from a
      cached object's `/Sig` dictionary, and no labelled object is lost. */
  function ViaScanning(doc: Reader, render: Obj -> string): (labels: seq<string>)
    ensures |labels| <= |doc.resolved|
    ensures forall l :: l in labels ==>
              exists i :: 0 <= i < |doc.resolved|
                && doc.resolved[i].Dict? && SigKey in doc.resolved[i].entries
                && doc.resolved[i].entries[SigKey].Dict?
                && SignerLabel(doc.table, doc.resolved[i].entries[SigKey], render) == Value(Some(l))
    ensures forall i :: 0 <= i < |doc.resolved| && ScanContribution(doc.table, doc.resolved[i], render).Some? ==>
              ScanContribution(doc.table, doc.resolved[i], render).value in labels
  {
    FilterMap(doc.resolved, o => ScanContribution(doc.table, o, render))
  }

  /** A cached object without a label is skipped; the others keep their
      labels and their order. */
  lemma UnlabelledObjectSkipped(doc: Reader, before: seq<Obj>, o: Obj, after: seq<Obj>, render: Obj -> string)
    requires doc.resolved == before + [o] + after
    requires ScanContribution(doc.table, o, render).None?
    ensures ViaScanning(doc, render)
            == ViaScanning(doc.(resolved := before), render) + ViaScanning(doc.(resolved := after), render)
  {
    SkippedElement(before, o, after, x => ScanContribution(doc.table, x, render));
  }

  /** A cached object with a label contributes exactly that label, after the
      labels of the objects before it in the cache and before those after. */
  lemma LabelledObjectInPlace(doc: Reader, before: seq<Obj>, o: Obj, after: seq<Obj>, render: Obj -> string, l: string)
    requires doc.resolved == before + [o] + after
    requires ScanContribution(doc.table, o, render) == Some(l)
    ensures ViaScanning(doc, render)
            == ViaScanning(doc.(resolved := before), render) + [l] + ViaScanning(doc.(resolved := after), render)
  {
    KeptElement(before, o, after, x => ScanContribution(doc.table, x, render));
  }

  /** Both strategies apply one rule: a signature dictionary held inline as a
      field's `/V` (the field inline or by reference) and the same dictionary
      held under a cached object's `/Sig` give the same label, whatever else
      the two dictionaries hold. */
  lemma SameRuleBothStrategies(t: Table, f: Obj, o: Obj, sig: map<string, Obj>, render: Obj -> string)
    requires FieldDict(t, f).Some? && ValueKey in FieldDict(t, f).value
    requires FieldDict(t, f).value[ValueKey] == Dict(sig)
    requires o.Dict? && SigKey in o.entries && o.entries[SigKey] == Dict(sig)
    ensures FieldContribution(t, f, render) == ScanContribution(t, o, render)
  {
  }
}
