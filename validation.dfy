/** `validateForm`: the error map the validator builds from the form's fields. */
module Validation {
  import opened Text
  import opened FormTypes
  import opened AgeCheck

  /** The per-document test behind key `document{i}{field}`: the name or type
      is the empty string, or the file is null. `document{i}` itself is never
      set by the validator. */
  predicate Missing(doc: Document, field: DocumentField) {
    match field
    case Slot => false
    case FileName => doc.fileName == ""
    case FileType => doc.fileType == ""
    case File => doc.file.None?
  }

  /** Whether the validator puts `key` in the map, rule by rule.
      `ageRejected` is the outcome of the age test on the date of birth. */
  predicate Flagged(c: Candidate, ageRejected: bool, key: ErrorKey) {
    match key
    case FirstNameKey => Blank(c.firstName)
    case LastNameKey => Blank(c.lastName)
    case EmailKey => Blank(c.email)
    case DateOfBirthKey => Blank(c.dateOfBirth) || ageRejected
    case ResidentialStreet1Key => Blank(c.residentialAddress.street1)
    case PermanentStreet1Key => !c.sameAsResidential && Blank(c.permanentAddress.street1)
    case DocumentsKey => |c.documents| < 2
    case DocumentKey(i, f) => i < |c.documents| && Missing(c.documents[i], f)
  }

  /** The message stored under a flagged key. For the date of birth the age
      message of the later rule replaces the "required" one. */
  function Message(ageRejected: bool, key: ErrorKey): ErrorMessage
  {
    match key
    case FirstNameKey => FirstNameRequired
    case LastNameKey => LastNameRequired
    case EmailKey => EmailRequired
    case DateOfBirthKey => if ageRejected then AgeRequired else DateOfBirthRequired
    case ResidentialStreet1Key => ResidentialStreet1Required
    case PermanentStreet1Key => PermanentStreet1Required
    case DocumentsKey => DocumentsRequired
    case DocumentKey(_, f) => DocumentMessage(f)
  }

  function DocumentMessage(f: DocumentField): ErrorMessage
  {
    match f
    case FileName => FileNameRequired
    case FileType => FileTypeRequired
    case _ => FileRequired
  }

  const FieldKeys: set<ErrorKey> := {
    FirstNameKey, LastNameKey, EmailKey, DateOfBirthKey,
    ResidentialStreet1Key, PermanentStreet1Key, DocumentsKey
  }

  /** The keys the validator may set for a list of `n` documents: the field
      keys and three keys per document. */
  predicate InScope(key: ErrorKey, n: nat) {
    match key
    case DocumentKey(i, f) => i < n && f != Slot
    case _ => true
  }

  function KeysUpTo(n: nat): (keys: set<ErrorKey>)
    ensures forall key :: key in keys <==> InScope(key, n)
  {
    var keys := FieldKeys + set i: nat, f: DocumentField | i < n && f in {FileName, FileType, File} :: DocumentKey(i, f);
    assert forall key | InScope(key, n) && key.DocumentKey? :: key.field in {FileName, FileType, File};
    keys
  }

  /** The map `validateForm` stores: every flagged key, with its message. */
  function Errors(c: Candidate, ageRejected: bool): (m: map<ErrorKey, ErrorMessage>)
    ensures forall key :: key in m <==> Flagged(c, ageRejected, key)
    ensures forall key :: key in m ==> m[key] == Message(ageRejected, key)
  {
    map key | key in KeysUpTo(|c.documents|) && Flagged(c, ageRejected, key) :: Message(ageRejected, key)
  }

  /** `m` holds `key` exactly when its rule fires, with the rule's message. */
  ghost predicate Agrees(m: map<ErrorKey, ErrorMessage>, c: Candidate, ageRejected: bool, key: ErrorKey) {
    && (key in m <==> Flagged(c, ageRejected, key))
    && (key in m ==> m[key] == Message(ageRejected, key))
  }

  /** `m` agrees with the rules on every key that is not a document's. */
  ghost predicate FieldRulesApplied(m: map<ErrorKey, ErrorMessage>, c: Candidate, ageRejected: bool) {
    && Agrees(m, c, ageRejected, FirstNameKey)
    && Agrees(m, c, ageRejected, LastNameKey)
    && Agrees(m, c, ageRejected, EmailKey)
    && Agrees(m, c, ageRejected, DateOfBirthKey)
    && Agrees(m, c, ageRejected, ResidentialStreet1Key)
    && Agrees(m, c, ageRejected, PermanentStreet1Key)
    && Agrees(m, c, ageRejected, DocumentsKey)
  }

  /** `m` agrees with the rule for part `f` on the first `n` documents and
      holds no key for part `f` of a later one. */
  ghost predicate DocumentRuleApplied(m: map<ErrorKey, ErrorMessage>, docs: seq<Document>, n: nat, f: DocumentField)
    requires n <= |docs|
  {
    forall i: nat ::
      && (DocumentKey(i, f) in m <==> i < n && Missing(docs[i], f))
      && (DocumentKey(i, f) in m ==> m[DocumentKey(i, f)] == DocumentMessage(f))
  }

  /** `m` agrees with the first three rules. */
  ghost predicate NameRulesApplied(m: map<ErrorKey, ErrorMessage>, c: Candidate, ageRejected: bool) {
    && Agrees(m, c, ageRejected, FirstNameKey)
    && Agrees(m, c, ageRejected, LastNameKey)
    && Agrees(m, c, ageRejected, EmailKey)
  }

  /** `m` agrees with the first five rules. */
  ghost predicate PersonRulesApplied(m: map<ErrorKey, ErrorMessage>, c: Candidate, ageRejected: bool) {
    && NameRulesApplied(m, c, ageRejected)
    && Agrees(m, c, ageRejected, DateOfBirthKey)
    && Agrees(m, c, ageRejected, ResidentialStreet1Key)
  }

  /** The first three rules of `validateForm`, into the fresh map: first
      name, last name and email must not be blank. */
  method NameAndEmailRules(c: Candidate, ageRejected: bool) returns (newErrors: map<ErrorKey, ErrorMessage>)
    ensures NameRulesApplied(newErrors, c, ageRejected)
    ensures newErrors.Keys <= {FirstNameKey, LastNameKey, EmailKey}
  {
    newErrors := map[];
    if Blank(c.firstName) { newErrors := newErrors[FirstNameKey := FirstNameRequired]; }
    if Blank(c.lastName) { newErrors := newErrors[LastNameKey := LastNameRequired]; }
    if Blank(c.email) { newErrors := newErrors[EmailKey := EmailRequired]; }
  }

  /** The date-of-birth rules and the residential street rule. A date that is
      blank gets the "required" message, which the age rule then overwrites. */
  method DateOfBirthAndResidenceRules(c: Candidate, ageRejected: bool, errors: map<ErrorKey, ErrorMessage>) returns (newErrors: map<ErrorKey, ErrorMessage>)
    requires NameRulesApplied(errors, c, ageRejected)
    requires errors.Keys <= {FirstNameKey, LastNameKey, EmailKey}
    ensures PersonRulesApplied(newErrors, c, ageRejected)
    ensures newErrors.Keys <= {FirstNameKey, LastNameKey, EmailKey, DateOfBirthKey, ResidentialStreet1Key}
  {
    newErrors := errors;
    if Blank(c.dateOfBirth) { newErrors := newErrors[DateOfBirthKey := DateOfBirthRequired]; }
    if ageRejected { newErrors := newErrors[DateOfBirthKey := AgeRequired]; }
    if Blank(c.residentialAddress.street1) {
      newErrors := newErrors[ResidentialStreet1Key := ResidentialStreet1Required];
    }
  }

  /** The permanent street rule, which applies only when the addresses
      differ, and the rule on the number of documents. */
  method PermanentAndCountRules(c: Candidate, ageRejected: bool, errors: map<ErrorKey, ErrorMessage>) returns (newErrors: map<ErrorKey, ErrorMessage>)
    requires PersonRulesApplied(errors, c, ageRejected)
    requires errors.Keys <= {FirstNameKey, LastNameKey, EmailKey, DateOfBirthKey, ResidentialStreet1Key}
    ensures FieldRulesApplied(newErrors, c, ageRejected)
    ensures newErrors.Keys <= FieldKeys
  {
    newErrors := errors;
    if !c.sameAsResidential && Blank(c.permanentAddress.street1) {
      newErrors := newErrors[PermanentStreet1Key := PermanentStreet1Required];
    }
    if |c.documents| < 2 { newErrors := newErrors[DocumentsKey := DocumentsRequired]; }
  }

  /** The field rules of `validateForm`, run one after the other into a fresh
      map. */
  method FieldErrors(c: Candidate, ageRejected: bool) returns (newErrors: map<ErrorKey, ErrorMessage>)
    ensures FieldRulesApplied(newErrors, c, ageRejected)
    ensures forall i: nat, f :: DocumentKey(i, f) !in newErrors
  {
    newErrors := NameAndEmailRules(c, ageRejected);
    newErrors := DateOfBirthAndResidenceRules(c, ageRejected, newErrors);
    newErrors := PermanentAndCountRules(c, ageRejected, newErrors);
  }

  /** One round of the `forEach`: the name, type and file tests on entry
      `index`, each setting its own key. Given the map for the entries before
      `index`, it leaves the map for the entries up to and including it. */
  method DocumentEntryRules(docs: seq<Document>, index: nat, errors: map<ErrorKey, ErrorMessage>) returns (newErrors: map<ErrorKey, ErrorMessage>)
    requires index < |docs|
    requires DocumentRuleApplied(errors, docs, index, Slot)
    requires DocumentRuleApplied(errors, docs, index, FileName)
    requires DocumentRuleApplied(errors, docs, index, FileType)
    requires DocumentRuleApplied(errors, docs, index, File)
    ensures DocumentRuleApplied(newErrors, docs, index + 1, Slot)
    ensures DocumentRuleApplied(newErrors, docs, index + 1, FileName)
    ensures DocumentRuleApplied(newErrors, docs, index + 1, FileType)
    ensures DocumentRuleApplied(newErrors, docs, index + 1, File)
    ensures forall key: ErrorKey | !key.DocumentKey? ::
      (key in newErrors <==> key in errors) && (key in newErrors ==> newErrors[key] == errors[key])
  {
    var doc := docs[index];
    newErrors := errors;
    if doc.fileName == "" { newErrors := newErrors[DocumentKey(index, FileName) := FileNameRequired]; }
    if doc.fileType == "" { newErrors := newErrors[DocumentKey(index, FileType) := FileTypeRequired]; }
    if doc.file.None? { newErrors := newErrors[DocumentKey(index, File) := FileRequired]; }
  }

  /** `validateForm`'s map: the field rules, then one round of three tests per
      document in list order. The result is `Errors`. */
  method BuildErrors(c: Candidate, ageRejected: bool) returns (newErrors: map<ErrorKey, ErrorMessage>)
    ensures newErrors == Errors(c, ageRejected)
  {
    newErrors := FieldErrors(c, ageRejected);
    ghost var fieldErrors := newErrors;

    var index := 0;
    while index < |c.documents|
      invariant 0 <= index <= |c.documents|
      invariant forall key: ErrorKey | !key.DocumentKey? ::
        (key in newErrors <==> key in fieldErrors) && (key in newErrors ==> newErrors[key] == fieldErrors[key])
      invariant DocumentRuleApplied(newErrors, c.documents, index, Slot)
      invariant DocumentRuleApplied(newErrors, c.documents, index, FileName)
      invariant DocumentRuleApplied(newErrors, c.documents, index, FileType)
      invariant DocumentRuleApplied(newErrors, c.documents, index, File)
    {
      newErrors := DocumentEntryRules(c.documents, index, newErrors);
      index := index + 1;
    }
    assert FieldRulesApplied(newErrors, c, ageRejected);
    RulesAppliedIsErrors(newErrors, c, ageRejected);
  }

  /** A map that agrees with every field rule and every document rule is the
      validator's map. */
  lemma RulesAppliedIsErrors(m: map<ErrorKey, ErrorMessage>, c: Candidate, ageRejected: bool)
    requires FieldRulesApplied(m, c, ageRejected)
    requires DocumentRuleApplied(m, c.documents, |c.documents|, Slot)
    requires DocumentRuleApplied(m, c.documents, |c.documents|, FileName)
    requires DocumentRuleApplied(m, c.documents, |c.documents|, FileType)
    requires DocumentRuleApplied(m, c.documents, |c.documents|, File)
    ensures m == Errors(c, ageRejected)
  {
    var e := Errors(c, ageRejected);
    forall key ensures (key in m <==> key in e) && (key in m ==> m[key] == e[key]) {
      ErrorsKeys(c, ageRejected, key);
      match key
      case DocumentKey(i, f) =>
        match f {
          case Slot => assert DocumentRuleApplied(m, c.documents, |c.documents|, Slot);
          case FileName => assert DocumentRuleApplied(m, c.documents, |c.documents|, FileName);
          case FileType => assert DocumentRuleApplied(m, c.documents, |c.documents|, FileType);
          case File => assert DocumentRuleApplied(m, c.documents, |c.documents|, File);
        }
      case _ =>
    }
  }

  /** A key is in the map exactly when its rule fires. */
  lemma ErrorsKeys(c: Candidate, ageRejected: bool, key: ErrorKey)
    ensures key in Errors(c, ageRejected) <==> Flagged(c, ageRejected, key)
    ensures key in Errors(c, ageRejected) ==> Errors(c, ageRejected)[key] == Message(ageRejected, key)
  {
  }

  /** Every condition the validator checks, stated as one predicate. */
  predicate DocumentComplete(doc: Document) {
    doc.fileName != "" && doc.fileType != "" && doc.file.Some?
  }

  predicate Acceptable(c: Candidate, ageRejected: bool) {
    && !Blank(c.firstName) && !Blank(c.lastName) && !Blank(c.email)
    && !Blank(c.dateOfBirth) && !ageRejected
    && !Blank(c.residentialAddress.street1)
    && (c.sameAsResidential || !Blank(c.permanentAddress.street1))
    && |c.documents| >= 2
    && forall i :: 0 <= i < |c.documents| ==> DocumentComplete(c.documents[i])
  }

  /** `validateForm` returns true, the map being empty, exactly when every
      rule passes. */
  lemma ErrorsEmptyIff(c: Candidate, ageRejected: bool)
    ensures Errors(c, ageRejected) == map[] <==> Acceptable(c, ageRejected)
  {
    var e := Errors(c, ageRejected);
    if e == map[] {
      ErrorsKeys(c, ageRejected, FirstNameKey);
      ErrorsKeys(c, ageRejected, LastNameKey);
      ErrorsKeys(c, ageRejected, EmailKey);
      ErrorsKeys(c, ageRejected, DateOfBirthKey);
      ErrorsKeys(c, ageRejected, ResidentialStreet1Key);
      ErrorsKeys(c, ageRejected, PermanentStreet1Key);
      ErrorsKeys(c, ageRejected, DocumentsKey);
      forall i | 0 <= i < |c.documents| ensures DocumentComplete(c.documents[i]) {
        ErrorsKeys(c, ageRejected, DocumentKey(i, FileName));
        ErrorsKeys(c, ageRejected, DocumentKey(i, FileType));
        ErrorsKeys(c, ageRejected, DocumentKey(i, File));
      }
    } else {
      var key :| key in e;
      ErrorsKeys(c, ageRejected, key);
    }
  }

  /** With fewer than two entries the documents error is always there, so the
      form never validates. */
  lemma FewerThanTwoDocuments(c: Candidate, ageRejected: bool)
    requires |c.documents| < 2
    ensures DocumentsKey in Errors(c, ageRejected)
    ensures Errors(c, ageRejected) != map[]
  {
    ErrorsKeys(c, ageRejected, DocumentsKey);
  }

  /** The residential street is required always; the permanent one only when
      the addresses are not the same. */
  lemma StreetRules(c: Candidate, ageRejected: bool)
    ensures ResidentialStreet1Key in Errors(c, ageRejected) <==> Blank(c.residentialAddress.street1)
    ensures PermanentStreet1Key in Errors(c, ageRejected) <==>
      !c.sameAsResidential && Blank(c.permanentAddress.street1)
  {
    ErrorsKeys(c, ageRejected, ResidentialStreet1Key);
    ErrorsKeys(c, ageRejected, PermanentStreet1Key);
  }

  /** Entry `k` gets the key for its name, its type or its file exactly when
      that part is missing, whatever the length of the list; the key
      `document{k}` is never set. */
  lemma DocumentRules(c: Candidate, ageRejected: bool, k: nat)
    ensures DocumentKey(k, FileName) in Errors(c, ageRejected) <==> k < |c.documents| && c.documents[k].fileName == ""
    ensures DocumentKey(k, FileType) in Errors(c, ageRejected) <==> k < |c.documents| && c.documents[k].fileType == ""
    ensures DocumentKey(k, File) in Errors(c, ageRejected) <==> k < |c.documents| && c.documents[k].file.None?
    ensures DocumentKey(k, Slot) !in Errors(c, ageRejected)
  {
    ErrorsKeys(c, ageRejected, DocumentKey(k, FileName));
    ErrorsKeys(c, ageRejected, DocumentKey(k, FileType));
    ErrorsKeys(c, ageRejected, DocumentKey(k, File));
    ErrorsKeys(c, ageRejected, DocumentKey(k, Slot));
  }

  /** Lines 68-69 taken by themselves: the date-of-birth key is set when the
      field is blank or the age test fails, and the age message of line 69
      replaces the required one. Whether a blank field can pass the age test
      is `ParsedFrom`'s business; see `BlankDateGetsAgeMessage`. */
  lemma DateOfBirthRule(c: Candidate, ageRejected: bool)
    ensures DateOfBirthKey in Errors(c, ageRejected) <==>
      Blank(c.dateOfBirth) || ageRejected
    ensures ageRejected ==> Errors(c, ageRejected)[DateOfBirthKey] == AgeRequired
    ensures !ageRejected && Blank(c.dateOfBirth) ==>
      Errors(c, ageRejected)[DateOfBirthKey] == DateOfBirthRequired
  {
    ErrorsKeys(c, ageRejected, DateOfBirthKey);
  }

  /** The required text fields the validator trims. */
  datatype RequiredText = FirstName | LastName | Email | DateOfBirth | ResidentialStreet1 | PermanentStreet1

  function KeyOf(field: RequiredText): ErrorKey {
    match field
    case FirstName => FirstNameKey
    case LastName => LastNameKey
    case Email => EmailKey
    case DateOfBirth => DateOfBirthKey
    case ResidentialStreet1 => ResidentialStreet1Key
    case PermanentStreet1 => PermanentStreet1Key
  }

  function WithText(c: Candidate, field: RequiredText, v: string): Candidate {
    match field
    case FirstName => c.(firstName := v)
    case LastName => c.(lastName := v)
    case Email => c.(email := v)
    case DateOfBirth => c.(dateOfBirth := v)
    case ResidentialStreet1 => c.(residentialAddress := c.residentialAddress.(street1 := v))
    case PermanentStreet1 => c.(permanentAddress := c.permanentAddress.(street1 := v))
  }

  /** Starting from a form that validates, blanking one required text field
      (the permanent street only when the addresses differ) makes that field's
      key the only error. `ageRejectedAfter` is the age test on the new date:
      blanking the date field may change it, blanking another field may not. */
  lemma OnlyBlankedFieldReported(c: Candidate, ageRejected: bool, field: RequiredText, v: string, ageRejectedAfter: bool)
    requires Errors(c, ageRejected) == map[]
    requires Blank(v)
    requires field == PermanentStreet1 ==> !c.sameAsResidential
    requires field != DateOfBirth ==> ageRejectedAfter == ageRejected
    ensures Errors(WithText(c, field, v), ageRejectedAfter).Keys == {KeyOf(field)}
  {
    var c' := WithText(c, field, v);
    ErrorsEmptyIff(c, ageRejected);
    forall key ensures key in Errors(c', ageRejectedAfter) <==> key == KeyOf(field) {
      ErrorsKeys(c', ageRejectedAfter, key);
      ErrorsKeys(c, ageRejected, key);
    }
  }

  /** The date text and its parse belong together: the field is a date input,
      whose value is the empty string or a full date, and `new Date('')` is an
      Invalid Date. */
  predicate ParsedFrom(dateOfBirth: string, birth: BirthDate) {
    Blank(dateOfBirth) ==> birth.Invalid?
  }

  /** With the date parsed from the field, line 69 always overrides line 68:
      the key is set exactly for an invalid date or a candidate in the first
      year of life, and the "required" message never survives, so a blank
      field is reported with the age message. */
  lemma BlankDateGetsAgeMessage(c: Candidate, birth: BirthDate, today: Date)
    requires ParsedFrom(c.dateOfBirth, birth)
    ensures DateOfBirthKey in Errors(c, DateOfBirthRejected(birth, today)) <==>
      || birth.Invalid?
      || (AnniversaryReached(birth.date, today, 0) && !AnniversaryReached(birth.date, today, 1))
    ensures DateOfBirthKey in Errors(c, DateOfBirthRejected(birth, today)) ==>
      Errors(c, DateOfBirthRejected(birth, today))[DateOfBirthKey] == AgeRequired
    ensures Blank(c.dateOfBirth) ==>
      DateOfBirthKey in Errors(c, DateOfBirthRejected(birth, today))
      && Errors(c, DateOfBirthRejected(birth, today))[DateOfBirthKey] == AgeRequired
  {
    var rejected := DateOfBirthRejected(birth, today);
    DateOfBirthRule(c, rejected);
    DateOfBirthRejectedIff(birth, today);
  }

  /** As written, the date-of-birth key is set for a blank field, an
      invalid date, or a candidate still in the first year of life, and for
      nobody else. */
  lemma AsWrittenDateOfBirthRule(c: Candidate, birth: BirthDate, today: Date)
    ensures DateOfBirthKey in Errors(c, DateOfBirthRejected(birth, today)) <==>
      || Blank(c.dateOfBirth)
      || birth.Invalid?
      || (AnniversaryReached(birth.date, today, 0) && !AnniversaryReached(birth.date, today, 1))
  {
    DateOfBirthRule(c, DateOfBirthRejected(birth, today));
    DateOfBirthRejectedIff(birth, today);
  }

  /** With the test the message describes, the date-of-birth key is set
      exactly for a blank field, an invalid date or a candidate under 18, and
      then carries the age message unless the field is only blank. */
  lemma CorrectedDateOfBirthRule(c: Candidate, birth: BirthDate, today: Date)
    ensures DateOfBirthKey in Errors(c, DateOfBirthRejectedIntended(birth, today)) <==>
      Blank(c.dateOfBirth) || birth.Invalid? || !AnniversaryReached(birth.date, today, 18)
    ensures (birth.Invalid? || !AnniversaryReached(birth.date, today, 18)) ==>
      Errors(c, DateOfBirthRejectedIntended(birth, today))[DateOfBirthKey] == AgeRequired
  {
    DateOfBirthRule(c, DateOfBirthRejectedIntended(birth, today));
    IntendedRejectsExactlyMinors(birth, today);
  }
}
