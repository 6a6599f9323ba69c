/** The `CandidateForm` component: its state variables as the fields of a
    class, and one method per handler. Each handler is one atomic state
    update; `today` and the parsed date of birth are passed in. */
module CandidateFormModel {
  import opened Text
  import opened FormTypes
  import opened AgeCheck
  import opened DocumentList
  import opened Validation
  import opened Submission

  /** What a submit does: nothing leaves the page when validation fails,
      otherwise the body is posted. */
  datatype SubmitOutcome = NotSent | Sent(body: seq<Part>)

  class CandidateForm {
    var firstName: string
    var lastName: string
    var email: string
    var dateOfBirth: string
    var residentialAddress: Address
    var permanentAddress: Address
    var sameAsResidential: bool
    var documents: seq<Document>
    var errors: map<ErrorKey, ErrorMessage>

    /** The field values, as the validator and the body builder see them. */
    function Current(): Candidate
      reads this
    {
      Candidate(firstName, lastName, email, dateOfBirth, residentialAddress,
        permanentAddress, sameAsResidential, documents)
    }

    /** The initial state: empty fields, the same address for both, one empty
        document entry and no errors. */
    constructor ()
      ensures Current() == Candidate("", "", "", "", Address("", ""), Address("", ""), true, [EmptyDocument])
      ensures errors == map[]
    {
      firstName := "";
      lastName := "";
      email := "";
      dateOfBirth := "";
      residentialAddress := Address("", "");
      permanentAddress := Address("", "");
      sameAsResidential := true;
      documents := [EmptyDocument];
      errors := map[];
    }

    /** `handleFileChange(e, index)`, `picked` being the first selected file.
        The list and the error map become what `SelectFile` says: a rejected
        type only records the error, an accepted file fills slot `index` and
        clears its error. */
    method HandleFileChange(picked: Option<FileRef>, index: nat)
      requires index < |documents|
      modifies this`documents, this`errors
      ensures Slots(documents, errors) == SelectFile(old(documents), old(errors), picked, index)
      ensures |documents| == |old(documents)|
    {
      if picked.Some? {
        var file := picked.value;
        if !ValidateFile(picked) {
          errors := errors[DocumentKey(index, Slot) := InvalidFileType];
          return;
        }
        var updatedDocuments := documents;
        updatedDocuments := updatedDocuments[index := Document(file.name, file.mimeType, picked)];
        documents := updatedDocuments;
        errors := errors[DocumentKey(index, Slot) := Cleared];
      }
    }

    /** `handleAddDocument`: one empty entry more at the end. */
    method HandleAddDocument()
      modifies this`documents
      ensures documents == old(documents) + [EmptyDocument]
    {
      documents := documents + [EmptyDocument];
    }

    /** `handleRemoveDocument(index)`: the list without the entry at `index`.
        The button that calls it exists only while the list holds more than
        one entry, so the list is never left empty. */
    method HandleRemoveDocument(index: int)
      requires |documents| > 1
      modifies this`documents
      ensures documents == WithoutIndex(old(documents), index)
      ensures documents != []
    {
      WithoutIndexLength(documents, index);
      documents := WithoutIndex(documents, index);
    }

    /** `validateForm`: the error map is replaced by the validator's map for
        the current fields, and the result says whether it is empty, that
        is whether every rule passes. `birth` is `new Date(dateOfBirth)`, so a
        blank field is an Invalid Date and its key carries the age message. */
    method ValidateForm(birth: BirthDate, today: Date) returns (ok: bool)
      requires ParsedFrom(dateOfBirth, birth)
      modifies this`errors
      ensures errors == Errors(Current(), DateOfBirthRejected(birth, today))
      ensures ok <==> errors == map[]
      ensures ok <==> Acceptable(Current(), DateOfBirthRejected(birth, today))
      ensures DateOfBirthKey in errors ==> errors[DateOfBirthKey] == AgeRequired
    {
      var age := ValidateDateOfBirth(birth, today);
      var ageRejected := Falsy(age);
      var newErrors := BuildErrors(Current(), ageRejected);
      errors := newErrors;
      ok := |newErrors| == 0;
      assert ok <==> newErrors == map[] by {
        if newErrors != map[] {
          var key :| key in newErrors;
        }
      }
      ErrorsEmptyIff(Current(), ageRejected);
      BlankDateGetsAgeMessage(Current(), birth, today);
    }

    /** The synchronous part of `handleSubmit`: validate, and when that
        passes build the body to post. */
    method HandleSubmit(birth: BirthDate, today: Date) returns (outcome: SubmitOutcome)
      requires ParsedFrom(dateOfBirth, birth)
      modifies this`errors
      ensures errors == Errors(Current(), DateOfBirthRejected(birth, today))
      ensures outcome == if errors == map[] then Sent(Payload(Current())) else NotSent
    {
      var ok := ValidateForm(birth, today);
      if !ok {
        return NotSent;
      }
      var body := AssemblePayload(Current());
      outcome := Sent(body);
    }

    method SetFirstName(value: string)
      modifies this`firstName
      ensures firstName == value
    {
      firstName := value;
    }

    method SetLastName(value: string)
      modifies this`lastName
      ensures lastName == value
    {
      lastName := value;
    }

    method SetEmail(value: string)
      modifies this`email
      ensures email == value
    {
      email := value;
    }

    method SetDateOfBirth(value: string)
      modifies this`dateOfBirth
      ensures dateOfBirth == value
    {
      dateOfBirth := value;
    }

    /** The address inputs copy the address and replace one line. */
    method SetResidentialStreet1(value: string)
      modifies this`residentialAddress
      ensures residentialAddress == old(residentialAddress).(street1 := value)
    {
      residentialAddress := residentialAddress.(street1 := value);
    }

    method SetResidentialStreet2(value: string)
      modifies this`residentialAddress
      ensures residentialAddress == old(residentialAddress).(street2 := value)
    {
      residentialAddress := residentialAddress.(street2 := value);
    }

    method SetPermanentStreet1(value: string)
      modifies this`permanentAddress
      ensures permanentAddress == old(permanentAddress).(street1 := value)
    {
      permanentAddress := permanentAddress.(street1 := value);
    }

    method SetPermanentStreet2(value: string)
      modifies this`permanentAddress
      ensures permanentAddress == old(permanentAddress).(street2 := value)
    {
      permanentAddress := permanentAddress.(street2 := value);
    }

    /** The checkbox flips the flag. */
    method ToggleSameAsResidential()
      modifies this`sameAsResidential
      ensures sameAsResidential == !old(sameAsResidential)
    {
      sameAsResidential := !sameAsResidential;
    }
  }

  /** The form as first shown cannot be submitted: its one entry is too few,
      and its blank fields are all reported; the empty date, an Invalid Date,
      with the age message. */
  lemma InitialFormRejected(birth: BirthDate, today: Date)
    ensures var c := Candidate("", "", "", "", Address("", ""), Address("", ""), true, [EmptyDocument]);
      var e := Errors(c, DateOfBirthRejected(birth, today));
      && e != map[]
      && DocumentsKey in e && FirstNameKey in e && ResidentialStreet1Key in e
      && PermanentStreet1Key !in e
      && DocumentKey(0, File) in e
    ensures birth.Invalid? ==>
      var e := Errors(Candidate("", "", "", "", Address("", ""), Address("", ""), true, [EmptyDocument]), DateOfBirthRejected(birth, today));
      DateOfBirthKey in e && e[DateOfBirthKey] == AgeRequired
  {
    var c := Candidate("", "", "", "", Address("", ""), Address("", ""), true, [EmptyDocument]);
    var rejected := DateOfBirthRejected(birth, today);
    FewerThanTwoDocuments(c, rejected);
    ErrorsKeys(c, rejected, FirstNameKey);
    StreetRules(c, rejected);
    DocumentRules(c, rejected, 0);
    if birth.Invalid? {
      BlankDateGetsAgeMessage(c, birth, today);
    }
  }

  /** A form filled in with two named PDFs and the same address for both. */
  function CompleteForm(dateOfBirth: string, f1: FileRef, f2: FileRef): Candidate {
    Candidate("Ann", "Lee", "a@x.com", dateOfBirth, Address("1 Main St", ""), Address("", ""), true,
      [Document(f1.name, f1.mimeType, Some(f1)), Document(f2.name, f2.mimeType, Some(f2))])
  }

  /** With a date whose first character is not whitespace and an age test
      that passes, that form sets no key. */
  lemma CompleteFormAccepted(dateOfBirth: string, f1: FileRef, f2: FileRef)
    requires f1.name != "" && f2.name != ""
    requires f1.mimeType == "application/pdf" && f2.mimeType == "application/pdf"
    requires dateOfBirth != [] && !IsWhitespace(dateOfBirth[0])
    ensures Errors(CompleteForm(dateOfBirth, f1, f2), false) == map[]
  {
    var c := CompleteForm(dateOfBirth, f1, f2);
    assert !Blank(c.firstName) by { assert !IsWhitespace(c.firstName[0]); }
    assert !Blank(c.lastName) by { assert !IsWhitespace(c.lastName[0]); }
    assert !Blank(c.email) by { assert !IsWhitespace(c.email[0]); }
    assert !Blank(c.dateOfBirth);
    assert !Blank(c.residentialAddress.street1) by { assert !IsWhitespace(c.residentialAddress.street1[0]); }
    assert forall i | 0 <= i < |c.documents| :: DocumentComplete(c.documents[i]);
    assert Acceptable(c, false);
    ErrorsEmptyIff(c, false);
  }

  /** For a 26-year-old that form validates: no key is set. */
  lemma CompleteFormValidates(f1: FileRef, f2: FileRef)
    requires f1.name != "" && f2.name != ""
    requires f1.mimeType == "application/pdf" && f2.mimeType == "application/pdf"
    ensures ValidateDateOfBirth(Parsed(Date(2000, 0, 1)), Date(2026, 9, 19)) == Years(26)
    ensures Errors(CompleteForm("2000-01-01", f1, f2), DateOfBirthRejected(Parsed(Date(2000, 0, 1)), Date(2026, 9, 19))) == map[]
  {
    CompleteFormAccepted("2000-01-01", f1, f2);
  }

  /** The same form for a ten-year-old validates too, although the test the
      message describes would flag its date: the age test as written lets
      every parsed date past the first birthday through. */
  lemma UnderageFormValidates(f1: FileRef, f2: FileRef)
    requires f1.name != "" && f2.name != ""
    requires f1.mimeType == "application/pdf" && f2.mimeType == "application/pdf"
    ensures ValidateDateOfBirth(Parsed(Date(2016, 0, 1)), Date(2026, 9, 19)) == Years(10)
    ensures Errors(CompleteForm("2016-01-01", f1, f2), DateOfBirthRejected(Parsed(Date(2016, 0, 1)), Date(2026, 9, 19))) == map[]
    ensures DateOfBirthKey in Errors(CompleteForm("2016-01-01", f1, f2), DateOfBirthRejectedIntended(Parsed(Date(2016, 0, 1)), Date(2026, 9, 19)))
  {
    CompleteFormAccepted("2016-01-01", f1, f2);
    DateOfBirthRule(CompleteForm("2016-01-01", f1, f2), true);
  }

  /** That form is posted as nine parts: the seven fixed ones, no permanent
      address, then the two files in list order. */
  lemma CompleteFormBody(dateOfBirth: string, f1: FileRef, f2: FileRef)
    ensures |Payload(CompleteForm(dateOfBirth, f1, f2))| == 9
    ensures Payload(CompleteForm(dateOfBirth, f1, f2))[7] == Part(DocumentsField, FileValue(f1))
    ensures Payload(CompleteForm(dateOfBirth, f1, f2))[8] == Part(DocumentsField, FileValue(f2))
  {
    var docs := CompleteForm(dateOfBirth, f1, f2).documents;
    assert docs[1..][1..] == [];
    assert DocumentParts(docs[1..]) == [Part(DocumentsField, FileValue(f2))];
    assert DocumentParts(docs) == [Part(DocumentsField, FileValue(f1)), Part(DocumentsField, FileValue(f2))];
  }
}
