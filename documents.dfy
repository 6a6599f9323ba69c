/** The document list handlers: `validateFile`, `handleFileChange`,
    `handleAddDocument` and `handleRemoveDocument`, as functions from the old
    list (and error map) to the new one. */
module DocumentList {
  import opened FormTypes

  /** The entry `handleAddDocument` appends and the list starts with. */
  const EmptyDocument := Document("", "", None)

  const AllowedTypes: seq<string> := ["image/jpeg", "image/png", "application/pdf"]

  /** `validateFile`: a file is present and its MIME type is one of the three
      allowed ones. */
  predicate ValidateFile(file: Option<FileRef>): (accepted: bool)
    ensures accepted ==> file.Some? && file.value.mimeType != ""
    ensures file.Some? && file.value.mimeType == "application/pdf" ==> accepted
  {
    file.Some? && file.value.mimeType in AllowedTypes
  }

  /** The list and error map a handler leaves behind. */
  datatype Slots = Slots(documents: seq<Document>, errors: map<ErrorKey, ErrorMessage>)

  /** `handleFileChange(e, index)` with `picked` the first selected file (None
      when the picker was cancelled). A rejected type records an error for slot
      `index` and keeps the list; an accepted file fills the slot from the
      file's name and type and clears that slot's error. Nothing else moves. */
  function SelectFile(docs: seq<Document>, errors: map<ErrorKey, ErrorMessage>, picked: Option<FileRef>, index: nat): (r: Slots)
    requires index < |docs|
    ensures |r.documents| == |docs|
    ensures forall j :: 0 <= j < |docs| && j != index ==> r.documents[j] == docs[j]
    ensures forall k :: k != DocumentKey(index, Slot) ==>
      (k in r.errors <==> k in errors) && (k in errors ==> r.errors[k] == errors[k])
    ensures picked.None? ==> r == Slots(docs, errors)
    ensures picked.Some? && !ValidateFile(picked) ==>
      && r.documents == docs
      && DocumentKey(index, Slot) in r.errors
      && r.errors[DocumentKey(index, Slot)] == InvalidFileType
    ensures ValidateFile(picked) ==>
      && r.documents[index] == Document(picked.value.name, picked.value.mimeType, picked)
      && DocumentKey(index, Slot) in r.errors
      && r.errors[DocumentKey(index, Slot)] == Cleared
  {
    match picked
    case None => Slots(docs, errors)
    case Some(file) =>
      if !ValidateFile(picked) then
        Slots(docs, errors[DocumentKey(index, Slot) := InvalidFileType])
      else
        Slots(docs[index := Document(file.name, file.mimeType, picked)], errors[DocumentKey(index, Slot) := Cleared])
  }

  /** A file of type text/plain leaves the slot as it was and flags it; a PDF
      fills the slot and clears its flag. */
  lemma FileTypeGate(docs: seq<Document>, errors: map<ErrorKey, ErrorMessage>, index: nat, name: string, id: nat)
    requires index < |docs|
    ensures var r := SelectFile(docs, errors, Some(FileRef(name, "text/plain", id)), index);
      r.documents[index] == docs[index] && r.errors[DocumentKey(index, Slot)] == InvalidFileType
    ensures var f := FileRef(name, "application/pdf", id);
      var r := SelectFile(docs, errors, Some(f), index);
      r.documents[index] == Document(name, "application/pdf", Some(f)) && r.errors[DocumentKey(index, Slot)] == Cleared
  {
    assert "text/plain" !in AllowedTypes;
    assert AllowedTypes[2] == "application/pdf";
  }

  /** `documents.filter((_, i) => i !== index)`: keeps every entry whose
      position differs from `index`. */
  function WithoutIndex<T>(s: seq<T>, index: int): (r: seq<T>)
    ensures |r| <= |s|
    ensures forall x :: x in r ==> x in s
  {
    if s == [] then []
    else
      (if index == 0 then [] else [s[0]]) + WithoutIndex(s[1..], index - 1)
  }

  /** Removing drops exactly the entry at `index` and keeps the others in their
      order; an index outside the list changes nothing. */
  lemma {:induction false} WithoutIndexSlices<T>(s: seq<T>, index: int)
    ensures WithoutIndex(s, index) == if 0 <= index < |s| then s[..index] + s[index + 1..] else s
  {
    if s != [] {
      WithoutIndexSlices(s[1..], index - 1);
      if 0 < index < |s| {
        assert s[1..][..index - 1] == s[1..index];
        assert s[1..][index..] == s[index + 1..];
        assert [s[0]] + s[1..index] == s[..index];
      } else if index != 0 {
        assert [s[0]] + s[1..] == s;
      }
    }
  }

  /** The length drops by one exactly when `index` is a position of the list. */
  lemma WithoutIndexLength<T>(s: seq<T>, index: int)
    ensures |WithoutIndex(s, index)| == if 0 <= index < |s| then |s| - 1 else |s|
  {
    WithoutIndexSlices(s, index);
  }

  /** Entry `j` of the new list is entry `j` of the old one before `index` and
      entry `j + 1` from `index` on. */
  lemma WithoutIndexAt<T>(s: seq<T>, index: nat, j: nat)
    requires index < |s| && j < |s| - 1
    ensures |WithoutIndex(s, index)| == |s| - 1
    ensures WithoutIndex(s, index)[j] == if j < index then s[j] else s[j + 1]
  {
    WithoutIndexSlices(s, index);
  }
}
