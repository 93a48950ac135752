/**
 * The records the card scanner keeps: a saved contact, the values of the
 * editor's form fields, and the partial record the editor is opened with.
 */
module Contacts {
  import opened Wrappers

  /** The category chip meaning "no category restriction" ("all"). */
  const AllCategories: string := "全部"

  /**
   * A saved business card. `id` is the save-time clock value (or the id it
   * was edited under); `image` is the captured photo as a data URL, if any;
   * `createdAt` is the ISO time stamp of the first save.
   */
  datatype Contact = Contact(
    id: int,
    name: string,
    company: string,
    jobTitle: string,
    phone: string,
    email: string,
    address: string,
    website: string,
    category: string,
    notes: string,
    image: Option<string>,
    createdAt: string)

  /** The text fields of the edit form, as the save handler reads them. */
  datatype Form = Form(
    name: string,
    company: string,
    jobTitle: string,
    phone: string,
    email: string,
    address: string,
    website: string,
    category: string,
    notes: string)

  /**
   * What the editor is opened with: a saved contact, the fields read off a
   * card, or a placeholder note. Every field may be missing.
   */
  datatype Draft = Draft(
    id: Option<int>,
    name: Option<string>,
    company: Option<string>,
    jobTitle: Option<string>,
    phone: Option<string>,
    email: Option<string>,
    address: Option<string>,
    website: Option<string>,
    category: Option<string>,
    notes: Option<string>,
    fullText: Option<string>,
    image: Option<string>)

  /** A draft with nothing in it (`{}`). */
  const EmptyDraft := Draft(None, None, None, None, None, None, None, None, None, None, None, None)

  /** JavaScript truthiness of a string that may be missing: present and not empty. */
  predicate Truthy(s: Option<string>) {
    s.Some? && s.value != ""
  }

  /** A saved contact seen as editor input (the object `openEditModal` is given). */
  function DraftOf(c: Contact): Draft {
    Draft(Some(c.id), Some(c.name), Some(c.company), Some(c.jobTitle), Some(c.phone), Some(c.email),
          Some(c.address), Some(c.website), Some(c.category), Some(c.notes), None, c.image)
  }
}
