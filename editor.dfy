/**
 * `openEditModal`: the form values the editor is filled with, from the
 * object it is opened with.
 */
module Editor {
  import opened Wrappers
  import opened Contacts
  import opened Extract

  /** A form field after the reset: the draft's value when it is truthy, otherwise empty. */
  function Fill(value: Option<string>): string {
    if Truthy(value) then value.value else ""
  }

  /**
   * The editor's fields as `openEditModal` fills them as written: the notes
   * field is set only `if (data.notes)`, so the fallback to `data.fullText`
   * inside that branch can never be taken.
   */
  function EditorForm(data: Draft): Form {
    Form(Fill(data.name), Fill(data.company), Fill(data.jobTitle), Fill(data.phone), Fill(data.email),
         Fill(data.address), Fill(data.website), Fill(data.category), Fill(data.notes))
  }

  /**
   * The editor's fields with the notes fallback working: the notes, or else
   * the recognised full text, or else nothing.
   */
  function EditorFormFixed(data: Draft): Form {
    EditorForm(data).(notes := if Truthy(data.notes) then data.notes.value else Fill(data.fullText))
  }

  /** As written: the recognised text of a scanned card never reaches the notes field. */
  lemma ScanNotesLost(text: string, found: RegexMatches)
    ensures EditorForm(ParseOCRText(text, found)).notes == ""
  {
  }

  /** Corrected: the recognised text of a scanned card becomes the notes. */
  lemma ScanNotesKept(text: string, found: RegexMatches)
    ensures EditorFormFixed(ParseOCRText(text, found)).notes == text
  {
  }

  /**
   * The correction changes the form exactly when the draft has no notes of
   * its own but does have recognised text.
   */
  lemma FixedAgrees(data: Draft)
    ensures EditorFormFixed(data) == EditorForm(data) <==> Truthy(data.notes) || !Truthy(data.fullText)
  {
    if !Truthy(data.notes) && Truthy(data.fullText) {
      assert EditorFormFixed(data).notes != EditorForm(data).notes;
    }
  }

  /** Opening the editor on a saved contact shows exactly its fields, under either filling. */
  lemma EditorShowsContact(c: Contact)
    ensures EditorForm(DraftOf(c))
         == Form(c.name, c.company, c.jobTitle, c.phone, c.email, c.address, c.website, c.category, c.notes)
    ensures EditorFormFixed(DraftOf(c)) == EditorForm(DraftOf(c))
  {
  }
}
