/** The multipart body `handleSubmit` posts once the form validates: the
    parts appended to its `FormData`, in the order they are appended. */
module Submission {
  import opened FormTypes

  /** A `FormData` value: a string, or a picked file appended as is. */
  datatype PartValue = TextValue(text: string) | FileValue(file: FileRef)

  /** The names the body uses. */
  datatype FieldName =
    | FirstNameField
    | LastNameField
    | EmailField
    | DateOfBirthField
    | SameAsResidentialField
    | ResidentialStreet1Field
    | ResidentialStreet2Field
    | PermanentStreet1Field
    | PermanentStreet2Field
    | DocumentsField
  {
    /** The name as it goes over the wire. */
    function Key(): string {
      match this
      case FirstNameField => "firstName"
      case LastNameField => "lastName"
      case EmailField => "email"
      case DateOfBirthField => "dateOfBirth"
      case SameAsResidentialField => "sameAsResidential"
      case ResidentialStreet1Field => "residentialAddress[street1]"
      case ResidentialStreet2Field => "residentialAddress[street2]"
      case PermanentStreet1Field => "permanentAddress[street1]"
      case PermanentStreet2Field => "permanentAddress[street2]"
      case DocumentsField => "documents"
    }
  }

  /** One `formData.append(name, value)`. */
  datatype Part = Part(name: FieldName, value: PartValue)

  /** `FormData` stores a boolean as its string conversion. */
  function BoolText(b: bool): string {
    if b then "true" else "false"
  }

  /** The parts appended unconditionally: the four text fields, the flag and
      both lines of the residential address. */
  function HeaderParts(c: Candidate): seq<Part> {
    [ Part(FirstNameField, TextValue(c.firstName)),
      Part(LastNameField, TextValue(c.lastName)),
      Part(EmailField, TextValue(c.email)),
      Part(DateOfBirthField, TextValue(c.dateOfBirth)),
      Part(SameAsResidentialField, TextValue(BoolText(c.sameAsResidential))),
      Part(ResidentialStreet1Field, TextValue(c.residentialAddress.street1)),
      Part(ResidentialStreet2Field, TextValue(c.residentialAddress.street2)) ]
  }

  /** Both lines of the permanent address, appended only when the addresses
      are not the same. */
  function PermanentParts(c: Candidate): seq<Part> {
    if c.sameAsResidential then []
    else
      [ Part(PermanentStreet1Field, TextValue(c.permanentAddress.street1)),
        Part(PermanentStreet2Field, TextValue(c.permanentAddress.street2)) ]
  }

  /** The part one entry contributes: its file under `documents`, or nothing
      when no file was picked. */
  function DocumentPart(doc: Document): seq<Part> {
    if doc.file.Some? then [Part(DocumentsField, FileValue(doc.file.value))] else []
  }

  /** The parts the `forEach` over the list appends. */
  function DocumentParts(docs: seq<Document>): seq<Part> {
    if docs == [] then [] else DocumentPart(docs[0]) + DocumentParts(docs[1..])
  }

  /** The whole body, in append order. */
  function Payload(c: Candidate): (body: seq<Part>)
    ensures |body| == 7 + (if c.sameAsResidential then 0 else 2) + PresentCount(c.documents)
    ensures body[..7] == HeaderParts(c)
  {
    DocumentPartsShape(c.documents);
    HeaderParts(c) + PermanentParts(c) + DocumentParts(c.documents)
  }

  /** The number of entries that hold a file. */
  function PresentCount(docs: seq<Document>): nat {
    if docs == [] then 0 else (if docs[0].file.Some? then 1 else 0) + PresentCount(docs[1..])
  }

  /** The part names, in order. */
  function Names(parts: seq<Part>): seq<FieldName> {
    seq(|parts|, i requires 0 <= i < |parts| => parts[i].name)
  }

  /** `n` copies of `name`. */
  function Repeat(name: FieldName, n: nat): (names: seq<FieldName>)
    ensures |names| == n
    ensures forall i :: 0 <= i < n ==> names[i] == name
  {
    if n == 0 then [] else [name] + Repeat(name, n - 1)
  }

  /** `formData.get(name)`: the value of the first part with that name. */
  function Get(parts: seq<Part>, name: FieldName): (v: Option<PartValue>)
    ensures v.Some? <==> name in Names(parts)
  {
    if parts == [] then None
    else if parts[0].name == name then
      assert Names(parts)[0] == name;
      Some(parts[0].value)
    else
      assert Names(parts) == [parts[0].name] + Names(parts[1..]);
      Get(parts[1..], name)
  }

  /** `get` finds the first part that carries the name. */
  lemma {:induction false} GetFirst(parts: seq<Part>, name: FieldName, i: nat)
    requires i < |parts| && parts[i].name == name
    requires forall j :: 0 <= j < i ==> parts[j].name != name
    ensures Get(parts, name) == Some(parts[i].value)
  {
    if i > 0 {
      GetFirst(parts[1..], name, i - 1);
    }
  }

  /** Appending the parts of two lists one after the other gives the parts of
      the joined list. */
  lemma {:induction false} DocumentPartsAppend(a: seq<Document>, b: seq<Document>)
    ensures DocumentParts(a + b) == DocumentParts(a) + DocumentParts(b)
  {
    if a == [] {
      assert a + b == b;
    } else {
      var rest := a[1..];
      assert a + b == [a[0]] + (rest + b);
      DocumentPartsAppend(rest, b);
      calc {
        DocumentParts(a + b);
        DocumentPart(a[0]) + DocumentParts(rest + b);
        DocumentPart(a[0]) + (DocumentParts(rest) + DocumentParts(b));
        (DocumentPart(a[0]) + DocumentParts(rest)) + DocumentParts(b);
      }
    }
  }

  /** Every part of the list's contribution is a file under `documents`, and
      there is one per entry that holds a file. */
  lemma {:induction false} DocumentPartsShape(docs: seq<Document>)
    ensures |DocumentParts(docs)| == PresentCount(docs)
    ensures forall i | 0 <= i < |DocumentParts(docs)| ::
      DocumentParts(docs)[i].name == DocumentsField && DocumentParts(docs)[i].value.FileValue?
  {
    if docs != [] {
      DocumentPartsShape(docs[1..]);
      var head: seq<Part>, tail: seq<Part> := DocumentPart(docs[0]), DocumentParts(docs[1..]);
      assert DocumentParts(docs) == head + tail;
      forall i | 0 <= i < |head + tail|
        ensures (head + tail)[i].name == DocumentsField && (head + tail)[i].value.FileValue?
      {
        if i >= |head| {
          assert (head + tail)[i] == tail[i - |head|];
        }
      }
    }
  }

  /** The file of entry `k` sits in the list's contribution right after the
      files of the entries before it, so the files keep their list order. */
  lemma {:induction false} DocumentPartsAt(docs: seq<Document>, k: nat)
    requires k < |docs| && docs[k].file.Some?
    ensures PresentCount(docs[..k]) < |DocumentParts(docs)|
    ensures DocumentParts(docs)[PresentCount(docs[..k])] == Part(DocumentsField, FileValue(docs[k].file.value))
  {
    DocumentPartsShape(docs);
    DocumentPartsShape(docs[..k]);
    DocumentPartsShape(docs[k..]);
    DocumentPartsAppend(docs[..k], docs[k..]);
    assert docs[..k] + docs[k..] == docs;
    assert DocumentParts(docs[k..]) == DocumentPart(docs[k]) + DocumentParts(docs[k + 1..]);
  }

  /** The names of the body: the seven fixed parts, the two permanent ones
      exactly when the addresses differ, then one `documents` per file. */
  lemma PayloadNames(c: Candidate)
    ensures Names(Payload(c)) ==
      [FirstNameField, LastNameField, EmailField, DateOfBirthField, SameAsResidentialField,
       ResidentialStreet1Field, ResidentialStreet2Field]
      + (if c.sameAsResidential then [] else [PermanentStreet1Field, PermanentStreet2Field])
      + Repeat(DocumentsField, PresentCount(c.documents))
  {
    DocumentPartsShape(c.documents);
    var h, q, d := HeaderParts(c), PermanentParts(c), DocumentParts(c.documents);
    assert Names(d) == Repeat(DocumentsField, PresentCount(c.documents));
    assert Names(h + q + d) == Names(h) + Names(q) + Names(d);
  }

  /** Entry `i` of the body is entry `i` of the fixed parts. */
  lemma HeaderAt(c: Candidate, i: nat)
    requires i < 7
    ensures Payload(c)[i] == HeaderParts(c)[i]
  {
  }

  /** What the server reads back with `get` for the candidate's own fields. */
  lemma PayloadGetPerson(c: Candidate)
    ensures Get(Payload(c), FirstNameField) == Some(TextValue(c.firstName))
    ensures Get(Payload(c), LastNameField) == Some(TextValue(c.lastName))
    ensures Get(Payload(c), EmailField) == Some(TextValue(c.email))
    ensures Get(Payload(c), DateOfBirthField) == Some(TextValue(c.dateOfBirth))
  {
    var p := Payload(c);
    forall i | 0 <= i < 4 ensures p[i] == HeaderParts(c)[i] {
      HeaderAt(c, i);
    }
    GetFirst(p, FirstNameField, 0);
    GetFirst(p, LastNameField, 1);
    GetFirst(p, EmailField, 2);
    GetFirst(p, DateOfBirthField, 3);
  }

  /** What the server reads back with `get` for the flag and the residential
      address. */
  lemma PayloadGetResidence(c: Candidate)
    ensures Get(Payload(c), SameAsResidentialField) == Some(TextValue(if c.sameAsResidential then "true" else "false"))
    ensures Get(Payload(c), ResidentialStreet1Field) == Some(TextValue(c.residentialAddress.street1))
    ensures Get(Payload(c), ResidentialStreet2Field) == Some(TextValue(c.residentialAddress.street2))
  {
    var p := Payload(c);
    forall i | 0 <= i < 7 ensures p[i] == HeaderParts(c)[i] {
      HeaderAt(c, i);
    }
    GetFirst(p, SameAsResidentialField, 4);
    GetFirst(p, ResidentialStreet1Field, 5);
    GetFirst(p, ResidentialStreet2Field, 6);
  }

  /** The permanent address can be read back exactly when the addresses
      differ, and then it holds the permanent lines. */
  lemma PayloadGetPermanent(c: Candidate)
    ensures Get(Payload(c), PermanentStreet1Field).Some? <==> !c.sameAsResidential
    ensures Get(Payload(c), PermanentStreet2Field).Some? <==> !c.sameAsResidential
    ensures !c.sameAsResidential ==>
      && Get(Payload(c), PermanentStreet1Field) == Some(TextValue(c.permanentAddress.street1))
      && Get(Payload(c), PermanentStreet2Field) == Some(TextValue(c.permanentAddress.street2))
  {
    var p := Payload(c);
    PayloadNames(c);
    if !c.sameAsResidential {
      GetFirst(p, PermanentStreet1Field, 7);
      GetFirst(p, PermanentStreet2Field, 8);
    }
  }

  /** The `handleSubmit` body as written: the seven fixed appends, the
      permanent address when it differs, then a loop over the list appending each
      present file. The result is `Payload`. */
  method AssemblePayload(c: Candidate) returns (formData: seq<Part>)
    ensures formData == Payload(c)
  {
    formData := [];
    formData := formData + [Part(FirstNameField, TextValue(c.firstName))];
    formData := formData + [Part(LastNameField, TextValue(c.lastName))];
    formData := formData + [Part(EmailField, TextValue(c.email))];
    formData := formData + [Part(DateOfBirthField, TextValue(c.dateOfBirth))];
    formData := formData + [Part(SameAsResidentialField, TextValue(BoolText(c.sameAsResidential)))];
    formData := formData + [Part(ResidentialStreet1Field, TextValue(c.residentialAddress.street1))];
    formData := formData + [Part(ResidentialStreet2Field, TextValue(c.residentialAddress.street2))];
    if !c.sameAsResidential {
      formData := formData + [Part(PermanentStreet1Field, TextValue(c.permanentAddress.street1))];
      formData := formData + [Part(PermanentStreet2Field, TextValue(c.permanentAddress.street2))];
    }
    var index := 0;
    while index < |c.documents|
      invariant 0 <= index <= |c.documents|
      invariant formData == HeaderParts(c) + PermanentParts(c) + DocumentParts(c.documents[..index])
    {
      var doc := c.documents[index];
      DocumentPartsAppend(c.documents[..index], [doc]);
      assert c.documents[..index + 1] == c.documents[..index] + [doc];
      if doc.file.Some? {
        formData := formData + [Part(DocumentsField, FileValue(doc.file.value))];
      }
      index := index + 1;
    }
    assert c.documents[..index] == c.documents;
  }
}
