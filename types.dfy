/** The values the candidate form holds: the candidate's fields, the two
    addresses, the document entries and the keys of the error map. */
module FormTypes {
  import opened Text

  datatype Option<+T> = None | Some(value: T)

  /** A file picked in the browser. Its bytes are not modelled; `id` tells
      apart two picks that carry the same name and type. */
  datatype FileRef = FileRef(name: string, mimeType: string, id: nat)

  /** One entry of the document list: `{ fileName, fileType, file }`,
      where a missing file is `null`. */
  datatype Document = Document(fileName: string, fileType: string, file: Option<FileRef>)

  /** `{ street1, street2 }`. */
  datatype Address = Address(street1: string, street2: string)

  /** Every field value the form holds apart from the error map. */
  datatype Candidate = Candidate(
    firstName: string,
    lastName: string,
    email: string,
    dateOfBirth: string,
    residentialAddress: Address,
    permanentAddress: Address,
    sameAsResidential: bool,
    documents: seq<Document>)

  /** The per-document part of an error key: `document{i}` (set when a file is
      picked) and `document{i}FileName`, `document{i}FileType`, `document{i}File`
      (set by the validator). */
  datatype DocumentField = Slot | FileName | FileType | File {
    function Suffix(): string {
      match this
      case Slot => ""
      case FileName => "FileName"
      case FileType => "FileType"
      case File => "File"
    }
  }

  /** A key of the error map. */
  datatype ErrorKey =
    | FirstNameKey
    | LastNameKey
    | EmailKey
    | DateOfBirthKey
    | ResidentialStreet1Key
    | PermanentStreet1Key
    | DocumentsKey
    | DocumentKey(index: nat, field: DocumentField)
  {
    /** The property name the component uses for this key. */
    function Name(): string {
      match this
      case FirstNameKey => "firstName"
      case LastNameKey => "lastName"
      case EmailKey => "email"
      case DateOfBirthKey => "dateOfBirth"
      case ResidentialStreet1Key => "residentialStreet1"
      case PermanentStreet1Key => "permanentStreet1"
      case DocumentsKey => "documents"
      case DocumentKey(i, f) => "document" + Decimal(i) + f.Suffix()
    }
  }

  /** The messages the component stores in the error map. `Cleared` is the
      empty string `handleFileChange` stores once a slot holds an accepted
      file: the key stays, but the form shows nothing for it. */
  datatype ErrorMessage =
    | FirstNameRequired
    | LastNameRequired
    | EmailRequired
    | DateOfBirthRequired
    | AgeRequired
    | ResidentialStreet1Required
    | PermanentStreet1Required
    | DocumentsRequired
    | FileNameRequired
    | FileTypeRequired
    | FileRequired
    | InvalidFileType
    | Cleared
  {
    function Text(): string {
      match this
      case FirstNameRequired => "First name is required"
      case LastNameRequired => "Last name is required"
      case EmailRequired => "Email is required"
      case DateOfBirthRequired => "Date of birth is required"
      case AgeRequired => "You must be at least 18 years old"
      case ResidentialStreet1Required => "Residential street 1 is required"
      case PermanentStreet1Required => "Permanent street 1 is required"
      case DocumentsRequired => "At least two documents are required"
      case FileNameRequired => "File name is required"
      case FileTypeRequired => "File type is required"
      case FileRequired => "File is required"
      case InvalidFileType => "Invalid file type. Only JPEG, PNG, and PDF are allowed."
      case Cleared => ""
    }
  }

  lemma SuffixInjective(f: DocumentField, g: DocumentField)
    requires f.Suffix() == g.Suffix()
    ensures f == g
  {
  }

  /** Facts about the name of a per-document key. */
  lemma DocumentKeyName(i: nat, f: DocumentField)
    ensures var s := DocumentKey(i, f).Name();
      && |s| >= 9 && s[..8] == "document" && IsDigit(s[8])
      && s[8..] == Decimal(i) + f.Suffix()
  {
    var s := DocumentKey(i, f).Name();
    assert s == "document" + (Decimal(i) + f.Suffix());
  }

  /** No two error keys share a property name, so modelling the component's
      string-keyed error object by `ErrorKey` loses nothing. */
  lemma NameInjective(a: ErrorKey, b: ErrorKey)
    requires a.Name() == b.Name()
    ensures a == b
  {
    var s := a.Name();
    if a.DocumentKey? && b.DocumentKey? {
      DocumentKeyName(a.index, a.field);
      DocumentKeyName(b.index, b.field);
      SplitAfterDigits(Decimal(a.index), a.field.Suffix(), Decimal(b.index), b.field.Suffix());
      DecimalInjective(a.index, b.index);
      SuffixInjective(a.field, b.field);
    } else if a.DocumentKey? || b.DocumentKey? {
      var (k, other) := if a.DocumentKey? then (a, b) else (b, a);
      DocumentKeyName(k.index, k.field);
    }
  }
}
