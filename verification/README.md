# Signature discovery of dsc-validator, in Dafny

This project models the signature-discovery core of the dsc-validator web app
(`app.py`). Given an already-parsed PDF, `validate_dsc` reports whether the
document carries digital signatures and lists a label for each signer. It does
not check any cryptography. It only looks for signature dictionaries and reads
their `/Name`, or their `/M` signing time when no name is present.

It uses two strategies:

- **AcroForm walk** (`_extract_signatures_via_acroform`). Follows trailer →
  `/Root` → `/AcroForm` → `/Fields`. For each field it resolves the field,
  reads its `/V` and resolves that too. It then applies the Name-then-M rule.
  A field that raises is skipped.
- **Cache scan** (`_extract_signatures_by_scanning`). Visits every object in
  the reader's resolved-object cache. It keeps the dictionaries that hold a
  `/Sig` key whose value is itself a dictionary, and applies the same rule.

`validate_dsc` uses the scan only when the AcroForm walk found nothing. The
result is Valid when there are labels and Invalid when there are none. It is
Error only when the reader could not be constructed.

Modules:

- `Wrappers` (`wrappers.dfy`): `Option`, `Result`, and `Outcome`, which stands
  for a Python call that returns or raises.
- `Seqs` (`seqs.dfy`): `FilterMap`, the "append the label if there is one"
  loop both strategies share, with its lemmas.
- `PdfObjects` (`pdf_objects.dfy`): the `Obj` value tree and the `Reader`
  (trailer, object table, resolved-object cache). Also the PyPDF2 operations
  the core uses: truthiness, `get_object()`, `.get(key)` and iteration.
- `Signatures` (`signatures.dfy`): both strategies.
- `Validator` (`validator.dfy`): `validate_dsc` and its classification.

How the loosely typed Python operations are modelled. These are assumptions
about the PyPDF2 library, which app.py calls but does not contain:

- `.get(key)` on a dictionary returns `None` for a missing key. On an indirect
  reference it is assumed to be forwarded to the object the reference resolves
  to, and it looks the key up there when that object is a dictionary
  (`PdfObjects.DictOf`). On anything else it raises, because there is no
  `get` attribute.
- `get_object()` resolves a reference one step and raises when the reference
  dangles. Any other value resolves to itself.
- Iterating `/Fields` visits the items of an array, or of the array a
  reference resolves to.
- Truthiness: dictionaries, arrays, names and strings are true when non-empty.
  References are always true. Numbers and booleans keep their own truth value.
- `str()` is the parameter `render: Obj -> string`. The text PyPDF2 produces
  is not modelled.

Facts about app.py that the lemmas pin down:

- The scan runs only when the AcroForm walk found no label. The two lists are
  never merged (`ScanIgnoredAfterAcroForm`).
- Labels are never deduplicated (`DuplicatesKept`).
- The scan selects dictionaries holding a `/Sig` key. It does not look at a
  `/Type` entry, so a signature dictionary typed `/Type /Sig` is found only
  through a `/Sig` key of some other cached object (`TypeTagIgnoredByScan`,
  `TypeTaggedSignatureNotScanned`).
- There is no cycle guard. Each access in the code makes a fixed number of
  resolutions, so the model's walk terminates on any object table, cyclic or
  not.
- A signature value with neither `/Name` nor `/M` adds no label and no
  placeholder.

## Model

| member | source | states |
|---|---|---|
| Signatures.SignerLabel | app.py:32-38 | Raises exactly when the value is neither a dictionary nor a reference to one. Otherwise a truthy `/Name` gives `str(Name)`, else a truthy `/M` gives `str(M)`, else no label. This is the same for an inline dictionary and a referenced one |
| Signatures.FieldLabel | app.py:27-38 | For a field, inline or by reference, whose dictionary cannot be reached, the step raises and the field is skipped. A missing or falsy `/V` gives no label. A truthy `/V` gives the Name-then-M label of the signature dictionary it is or references. A dangling `/V` reference, or a `/V` that is neither a dictionary nor a reference, raises |
| Signatures.IndirectFieldIndirectValue | app.py:28-31 | In the usual layout the field is a reference to its dictionary and `/V` is a reference to the signature dictionary. The label is then that dictionary's Name-then-M label |
| Signatures.ReferencedFieldAsInline | app.py:28-29 | A field given by reference gives the same outcome as its dictionary written inline |
| Signatures.FieldContribution | app.py:26-40 | A field adds exactly the label its processing returns. It adds nothing when processing raised or returned no label |
| Signatures.FieldLabels | app.py:25-40 | At most one label per field. Every label is the label of some field. Every labelled field's label appears |
| Signatures.AcroFormFields | app.py:19-25 | A missing or falsy `/Root` or `/AcroForm`, inline or by reference, leaves no fields, without raising. So does a `/Root` or `/AcroForm` without `get`, or a missing `/Fields`. Otherwise the fields are the elements of `/Fields` |
| Signatures.IndirectRootAsInline | app.py:19-25 | An indirect `/Root` visits the same fields as its catalog dictionary written inline |
| Signatures.ViaAcroForm | app.py:15-43 | No catalog or form dictionary gives the empty list. The output has at most one label per field, each label comes from a field, and no labelled field is lost |
| Signatures.UnlabelledFieldSkipped | app.py:26-40 | A field that raises or has no label contributes nothing. The fields before and after it still contribute exactly what they would without it |
| Signatures.LabelledFieldInPlace | app.py:25-38 | A labelled field contributes exactly its label, after the labels of earlier fields and before those of later ones |
| Signatures.ScanContribution | app.py:50-62 | A cached object gives a label only when it is a dictionary holding `/Sig` whose value is a dictionary, not a reference. The label is then the signer label of that dictionary |
| Signatures.ViaScanning | app.py:45-65 | At most one label per cached object. Every label is the signer label of some cached object's `/Sig` dictionary. Every labelled object's label appears |
| Signatures.UnlabelledObjectSkipped | app.py:49-62 | A cached object without a label contributes nothing. The objects before and after it keep their labels |
| Signatures.LabelledObjectInPlace | app.py:49-60 | A labelled cached object contributes exactly its label, in cache order |
| Signatures.SameRuleBothStrategies | app.py:32-38 | A signature dictionary gives the same label as a field's inline `/V` (the field inline or by reference) and under a cached object's `/Sig`, whatever else the two dictionaries hold |
| Validator.ValidateDsc | app.py:67-80 | Valid exactly when the signer list is non-empty. Otherwise the list is empty. Error exactly when the reader failed, and it carries the message. The signers are the AcroForm labels when there are any, otherwise the scanned labels |
| Validator.ValidIffSomeLabel | app.py:71-78 | A parsed document is Valid exactly when some field or some cached object yields a label, and Invalid exactly when none does. It is never Error |
| Validator.ScanIgnoredAfterAcroForm | app.py:71-73 | Once the AcroForm walk finds a label, the report does not depend on the cache at all. The two lists are not merged |
| Validator.DuplicatesKept | app.py:71-76 | Two fields, distinct or not, with equal labels give that label twice. There is no deduplication |
| Validator.TypeTagIgnoredByScan | app.py:51-53 | A `/Type` entry never changes what a cached object contributes to the scan |
| Validator.TypeTaggedSignatureNotScanned | app.py:49-53 | A cache with no object holding a `/Sig` key gives no scanned label, even if it holds `/Type /Sig` dictionaries with names |

## Left out

- The Flask app: the upload route, the file checks, saving and removing the upload, `MAX_CONTENT_LENGTH` and `UPLOAD_DIR` (app.py:7-13, 82-113). These are web and filesystem I/O.
- PyPDF2's parsing of the file into objects. A document is given as a `Reader`, and a failed parse as `Failure(message)`. The message text is opaque.
- Which objects PyPDF2 has in its resolved-object cache when the scan runs. This is the library's business, so the cache contents are given as `Reader.resolved`.
- The exact text of `str()` on PDF objects. It is the parameter `render`.
- PdfObjects.Get: assumes PyPDF2 forwards `.get` and iteration on an indirect reference to the object it resolves to. This is not pinned by app.py or by any library version. A PyPDF2 that does not forward would make `root.get("/AcroForm")` raise on an indirect `/Root`, and the AcroForm walk would then return the empty list for every document.
- PdfObjects.GetObject: resolves a reference one step. A reference whose target is another reference is followed once more only where `.get` is forwarded. Whether PyPDF2's `get_object()` follows longer chains is not modelled. The one-step resolution is a property of the model.
- PdfObjects.Elements: iterating a `/Fields` value that is neither an array nor a reference to one is modelled as visiting nothing. In Python it either raises, which the outer handler turns into the empty list, or it visits elements that each raise and are skipped. Both give the same empty result.
- PdfObjects.IsTruthy: a PDF null is treated as falsy, like an absent entry, following section 7.3.9 of ISO 32000-1 (a null-valued dictionary entry is equivalent to a missing one). The truthiness of PyPDF2's null object is not modelled separately.
- Exceptions that are not `Exception` subclasses (such as `KeyboardInterrupt`) are not modelled.
- Cryptographic validation, deduplication and cycle guards are not modelled. None of them exist in the code.
