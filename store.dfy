/**
 * The contact store: the ordered list of saved cards, how a save inserts or
 * replaces an entry, how a delete removes one, and the page state
 * (`contacts`, `currentFilter`, `editingId`, `capturedImage`) that the
 * handlers update.
 */
module Store {
  import opened Wrappers
  import opened Seqs
  import opened Contacts
  import opened Search
  import opened Extract
  import opened Editor

  /** `c => c.id === id` */
  function HasId(id: int): Contact -> bool {
    (c: Contact) => c.id == id
  }

  /** `c => c.id !== id` */
  function OtherId(id: int): Contact -> bool {
    (c: Contact) => c.id != id
  }

  /** `contacts.findIndex(c => c.id === id)`, `None` for -1. */
  function IndexOfId(cs: seq<Contact>, id: int): Option<nat> {
    FindIndex(cs, HasId(id))
  }

  /** `if (editingId)`: an id is being edited, and it is not the falsy 0. */
  predicate Editing(editingId: Option<int>) {
    editingId.Some? && editingId.value != 0
  }

  /** A save under `editingId` has an entry to replace (or is an insert). */
  predicate EditTargetFound(cs: seq<Contact>, editingId: Option<int>) {
    Editing(editingId) ==> IndexOfId(cs, editingId.value).Some?
  }

  /** No two entries share an id. */
  ghost predicate UniqueIds(cs: seq<Contact>) {
    forall i, j :: 0 <= i < j < |cs| ==> cs[i].id != cs[j].id
  }

  /** The contact object `saveContact` builds from the form. */
  function SavedContact(cs: seq<Contact>, editingId: Option<int>, form: Form,
                        captured: Option<string>, now: int, nowIso: string): Contact
    requires EditTargetFound(cs, editingId)
  {
    var previous := if Editing(editingId) then Find(cs, HasId(editingId.value)) else None;
    Contact(
      if Editing(editingId) then editingId.value else now,
      form.name, form.company, form.jobTitle, form.phone, form.email,
      form.address, form.website, form.category, form.notes,
      if Truthy(captured) then captured else if previous.Some? then previous.value.image else None,
      if previous.Some? then previous.value.createdAt else nowIso)
  }

  /** The list after `saveContact`: replace at the found index when editing, prepend otherwise. */
  function Upsert(cs: seq<Contact>, editingId: Option<int>, form: Form,
                  captured: Option<string>, now: int, nowIso: string): seq<Contact>
    requires EditTargetFound(cs, editingId)
  {
    var c := SavedContact(cs, editingId, form, captured, now, nowIso);
    if Editing(editingId) then cs[IndexOfId(cs, editingId.value).value := c] else [c] + cs
  }

  /** The list after the delete branch of `viewContact`. */
  function RemoveById(cs: seq<Contact>, id: int): seq<Contact> {
    Filter(cs, OtherId(id))
  }

  /** The record a save builds from `form` for a contact with this id and these kept fields. */
  function Record(id: int, form: Form, image: Option<string>, createdAt: string): Contact {
    Contact(id, form.name, form.company, form.jobTitle, form.phone, form.email,
            form.address, form.website, form.category, form.notes, image, createdAt)
  }

  /**
   * Insert: with no entry being edited, the new contact, stamped with the
   * clock value and the current time, goes first and every old entry moves
   * one place down unchanged.
   */
  lemma UpsertInsert(cs: seq<Contact>, form: Form, captured: Option<string>, now: int, nowIso: string)
    ensures var r := Upsert(cs, None, form, captured, now, nowIso);
      && |r| == |cs| + 1
      && r[0] == Record(now, form, if Truthy(captured) then captured else None, nowIso)
      && r[1..] == cs
      && forall k :: 0 <= k < |cs| ==> r[k + 1] == cs[k]
  {
  }

  /** An `editingId` of 0 is falsy: the save stamps a new id and inserts, as with none. */
  lemma UpsertZeroInserts(cs: seq<Contact>, form: Form, captured: Option<string>, now: int, nowIso: string)
    ensures Upsert(cs, Some(0), form, captured, now, nowIso) == Upsert(cs, None, form, captured, now, nowIso)
  {
  }

  /**
   * Edit: the entry found first under the id is replaced in place by the
   * form's values; it keeps its id and creation time, and its image unless a
   * new photo was captured. The length and every other entry stay as they were.
   */
  lemma UpsertEdit(cs: seq<Contact>, id: int, form: Form, captured: Option<string>, now: int, nowIso: string)
    requires id != 0 && IndexOfId(cs, id).Some?
    ensures var i := IndexOfId(cs, id).value;
            var r := Upsert(cs, Some(id), form, captured, now, nowIso);
      && i < |cs| && cs[i].id == id
      && (forall j :: 0 <= j < i ==> cs[j].id != id)
      && |r| == |cs|
      && r[i] == Record(id, form, if Truthy(captured) then captured else cs[i].image, cs[i].createdAt)
      && forall j :: 0 <= j < |cs| && j != i ==> r[j] == cs[j]
  {
  }

  /** Saving an opened contact's own fields without a new photo changes nothing. */
  lemma SaveUnchangedIsIdentity(cs: seq<Contact>, id: int, now: int, nowIso: string)
    requires id != 0 && IndexOfId(cs, id).Some?
    ensures var c := cs[IndexOfId(cs, id).value];
      Upsert(cs, Some(id), EditorForm(DraftOf(c)), None, now, nowIso) == cs
  {
    var i := IndexOfId(cs, id).value;
    EditorShowsContact(cs[i]);
    assert cs[i := cs[i]] == cs;
  }

  /** An insert under a fresh clock value, and any edit, keep the ids distinct. */
  lemma UpsertKeepsIdsUnique(cs: seq<Contact>, editingId: Option<int>, form: Form,
                             captured: Option<string>, now: int, nowIso: string)
    requires UniqueIds(cs) && EditTargetFound(cs, editingId)
    requires !Editing(editingId) ==> forall c :: c in cs ==> c.id != now
    ensures UniqueIds(Upsert(cs, editingId, form, captured, now, nowIso))
  {
    var r := Upsert(cs, editingId, form, captured, now, nowIso);
    if !Editing(editingId) {
      forall i, j | 0 <= i < j < |r| ensures r[i].id != r[j].id {
        if i == 0 {
          assert r[j] == cs[j - 1];
          assert cs[j - 1] in cs;
        } else {
          assert r[i] == cs[i - 1] && r[j] == cs[j - 1];
        }
      }
    }
  }

  /**
   * Delete: an entry is kept iff its id differs from the deleted one, and the
   * kept entries appear in their original relative order.
   */
  lemma RemoveByIdSpec(cs: seq<Contact>, id: int)
    ensures var r, idx := RemoveById(cs, id), Positions(cs, OtherId(id));
      && (forall c :: c in r <==> c in cs && c.id != id)
      && |r| == |idx|
      && (forall k :: 0 <= k < |idx| ==> idx[k] < |cs| && r[k] == cs[idx[k]])
      && (forall k, l :: 0 <= k < l < |idx| ==> idx[k] < idx[l])
      && (forall i :: 0 <= i < |cs| ==> (cs[i].id != id <==> i in idx))
  {
    FilterKeepsOrder(cs, OtherId(id));
  }

  /** Deleting an id that is not in the list changes nothing. */
  lemma RemoveAbsent(cs: seq<Contact>, id: int)
    requires IndexOfId(cs, id).None?
    ensures RemoveById(cs, id) == cs
  {
    FilterAll(cs, OtherId(id));
  }

  /** With distinct ids, deleting one that is present removes exactly its slot. */
  lemma RemoveUnique(cs: seq<Contact>, id: int)
    requires UniqueIds(cs) && IndexOfId(cs, id).Some?
    ensures var i := IndexOfId(cs, id).value;
      && RemoveById(cs, id) == cs[..i] + cs[i + 1..]
      && |RemoveById(cs, id)| == |cs| - 1
  {
    var i := IndexOfId(cs, id).value;
    assert HasId(id)(cs[i]);
    OnlySlotWithId(cs, id, i);
    FilterSkipsAt(cs, i, OtherId(id));
  }

  /** With distinct ids, the entries before and after the one with `id` all have other ids. */
  lemma OnlySlotWithId(cs: seq<Contact>, id: int, i: nat)
    requires UniqueIds(cs) && i < |cs| && cs[i].id == id
    ensures Filter(cs[..i], OtherId(id)) == cs[..i]
    ensures Filter(cs[i + 1..], OtherId(id)) == cs[i + 1..]
  {
    var before, after := cs[..i], cs[i + 1..];
    forall x | x in before ensures x.id != id {
      var j :| 0 <= j < |before| && before[j] == x;
      assert x == cs[j];
    }
    forall x | x in after ensures x.id != id {
      var j :| 0 <= j < |after| && after[j] == x;
      assert x == cs[i + 1 + j];
    }
    FilterAll(before, OtherId(id));
    FilterAll(after, OtherId(id));
  }

  /** Deleting keeps the ids distinct. */
  lemma RemoveKeepsIdsUnique(cs: seq<Contact>, id: int)
    requires UniqueIds(cs)
    ensures UniqueIds(RemoveById(cs, id))
  {
    var p := OtherId(id);
    PositionsPick(cs, p);
    PositionsInRange(cs, p);
    PositionsAscend(cs, p);
  }

  /**
   * The page's state: the saved list, the selected category chip, the id the
   * editor is editing (`null` for a new card), the last captured photo, and
   * what local storage holds under the key `contacts` (absent before the
   * first save).
   */
  class CardScanner {
    var contacts: seq<Contact>
    var currentFilter: string
    var editingId: Option<int>
    var capturedImage: Option<string>
    var storage: Option<seq<Contact>>

    /** `editingId` is `data.id || null`, so it is never the falsy id 0. */
    ghost predicate Valid()
      reads this
    {
      editingId != Some(0)
    }

    /** The initial page state, over what storage already holds. */
    constructor(saved: Option<seq<Contact>>)
      ensures Valid()
      ensures contacts == [] && currentFilter == AllCategories
      ensures editingId == None && capturedImage == None && storage == saved
    {
      contacts := [];
      currentFilter := AllCategories;
      editingId := None;
      capturedImage := None;
      storage := saved;
    }

    /** `loadContacts`: take the stored list when there is one, else keep the list. */
    method LoadContacts()
      requires Valid()
      modifies this`contacts
      ensures Valid()
      ensures contacts == if storage.Some? then storage.value else old(contacts)
    {
      if storage.Some? {
        contacts := storage.value;
      }
    }

    /** `saveContacts`: store a snapshot of the list. */
    method SaveContacts()
      requires Valid()
      modifies this`storage
      ensures Valid()
      ensures storage == Some(contacts)
    {
      storage := Some(contacts);
    }

    /** `filterByCategory`. */
    method FilterByCategory(category: string)
      requires Valid()
      modifies this`currentFilter
      ensures Valid()
      ensures currentFilter == category
    {
      currentFilter := category;
    }

    /**
     * `openEditModal`: the form shows the draft's fields, and the editor
     * edits the draft's id when it has a truthy one, else it makes a new card.
     */
    method OpenEditModal(data: Draft) returns (form: Form)
      modifies this`editingId
      ensures Valid()
      ensures form == EditorForm(data)
      ensures editingId == if data.id.Some? && data.id.value != 0 then data.id else None
    {
      editingId := None;
      form := EditorForm(data);
      if data.id.Some? && data.id.value != 0 {
        editingId := data.id;
      }
    }

    /** `closeEditModal`: the captured photo is dropped. */
    method CloseEditModal()
      requires Valid()
      modifies this`capturedImage
      ensures Valid()
      ensures capturedImage == None
    {
      capturedImage := None;
    }

    /**
     * `saveContact`: the list becomes the upsert of the form's record, is
     * stored, and the editor is closed. `editingId` is left as it was.
     */
    method SaveContact(form: Form, now: int, nowIso: string)
      requires Valid() && EditTargetFound(contacts, editingId)
      modifies this`contacts, this`storage, this`capturedImage
      ensures Valid()
      ensures contacts == Upsert(old(contacts), editingId, form, old(capturedImage), now, nowIso)
      ensures storage == Some(contacts) && capturedImage == None
      ensures !Editing(editingId) ==> |contacts| == |old(contacts)| + 1 && contacts[1..] == old(contacts)
      ensures Editing(editingId) ==> |contacts| == |old(contacts)|
    {
      var c := SavedContact(contacts, editingId, form, capturedImage, now, nowIso);
      if Editing(editingId) {
        var index := IndexOfId(contacts, editingId.value).value;
        contacts := contacts[index := c];
      } else {
        contacts := [c] + contacts;
      }
      SaveContacts();
      CloseEditModal();
    }

    /**
     * `viewContact`: for the first entry with this id, either open it in the
     * editor (`edit`), or, when the deletion is confirmed, remove every entry
     * with the id and store the list. An unknown id does nothing.
     */
    method ViewContact(id: int, edit: bool, confirmDelete: bool) returns (form: Option<Form>)
      requires Valid()
      modifies this`editingId, this`contacts, this`storage
      ensures Valid()
      ensures var found := Find(old(contacts), HasId(id));
        && (found.None? || (!edit && !confirmDelete) ==>
              form.None? && contacts == old(contacts) && storage == old(storage) && editingId == old(editingId))
        && (found.Some? && edit ==>
              && form == Some(EditorForm(DraftOf(found.value)))
              && editingId == (if id != 0 then Some(id) else None)
              && contacts == old(contacts) && storage == old(storage))
        && (found.Some? && !edit && confirmDelete ==>
              && form.None? && contacts == RemoveById(old(contacts), id)
              && storage == Some(contacts) && editingId == old(editingId))
    {
      form := None;
      var contact := Find(contacts, HasId(id));
      if contact.None? {
        return;
      }
      if edit {
        var f := OpenEditModal(DraftOf(contact.value));
        form := Some(f);
      } else if confirmDelete {
        contacts := RemoveById(contacts, id);
        SaveContacts();
      }
    }

    /**
     * `takePicture` with recognition: the photo is kept, and when the text
     * was recognised the editor opens on the fields read from it, as a new
     * card; as written, the notes field stays empty. On a recognition
     * failure nothing else changes, and the photo stays captured.
     */
    method TakePicture(snapshot: string, recognized: Option<string>, found: RegexMatches)
      returns (form: Option<Form>)
      requires Valid()
      modifies this`capturedImage, this`editingId
      ensures Valid()
      ensures capturedImage == Some(snapshot)
      ensures recognized.Some? ==>
        && form == Some(EditorForm(ParseOCRText(recognized.value, found))) && editingId == None
        && form.value.notes == ""
      ensures recognized.None? ==> form.None? && editingId == old(editingId)
    {
      capturedImage := Some(snapshot);
      form := None;
      if recognized.Some? {
        var f := OpenEditModal(ParseOCRText(recognized.value, found));
        ScanNotesLost(recognized.value, found);
        form := Some(f);
      }
    }

    /**
     * `takePicture` without recognition: the photo is kept and the editor
     * opens as a new card whose notes ask for the fields to be typed in.
     */
    method TakePictureManual(snapshot: string) returns (form: Form)
      modifies this`capturedImage, this`editingId
      ensures Valid()
      ensures capturedImage == Some(snapshot) && editingId == None
      ensures form == Form("", "", "", "", "", "", "", "", ManualNote)
    {
      capturedImage := Some(snapshot);
      form := OpenEditModal(EmptyDraft.(notes := Some(ManualNote)));
    }
  }

  /** The note the editor opens with when the photo is not read. */
  const ManualNote: string := "📸 名片已拍攝，請手動輸入資訊"

  /**
   * Opening the editor resets `editingId`: after taking a picture, whatever
   * was being edited before, the next save inserts the new card first.
   */
  method ScanThenSave(app: CardScanner, snapshot: string, form: Form, now: int, nowIso: string)
    modifies app
    ensures app.contacts
         == [Record(now, form, if snapshot != "" then Some(snapshot) else None, nowIso)] + old(app.contacts)
    ensures app.storage == Some(app.contacts)
    ensures app.Valid() && app.editingId == None && app.capturedImage == None
    ensures app.currentFilter == old(app.currentFilter)
  {
    var _ := app.TakePictureManual(snapshot);
    app.SaveContact(form, now, nowIso);
  }

  /** Saving then loading gives back the same list. */
  method SaveThenLoad(app: CardScanner)
    requires app.Valid()
    modifies app
    ensures app.Valid()
    ensures app.contacts == old(app.contacts) && app.storage == Some(old(app.contacts))
    ensures app.editingId == old(app.editingId) && app.capturedImage == old(app.capturedImage)
    ensures app.currentFilter == old(app.currentFilter)
  {
    app.SaveContacts();
    app.LoadContacts();
  }
}
