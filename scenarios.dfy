/**
 * Walk-throughs of the manager driven only through its method contracts:
 * the create / duplicate / update / delete life of a raw file, names scoped
 * per owner, and the stale states the handlers leave behind.
 */
module Scenarios {
  import opened Wrappers
  import opened Names
  import opened Store
  import opened Manager

  /** Well-formed form input: a name already in normal form, a trimmed
      non-empty version and some content. */
  predicate CleanForm(name: string, version: string, content: string) {
    MatchesNamePattern(name) && version != [] && Trim(version) == version && content != []
  }

  /** A fresh page with owner `a` signed in: nothing stored or cached. */
  method SignedIn(a: Email) returns (m: RawFileManager)
    ensures fresh(m) && m.Valid()
    ensures m.currentUser == Some(a) && !m.isEditing && m.viewSelection == None
    ensures m.db == map[] && m.clock == 0 && m.nextId == 0
    ensures m.currentRawFiles == [] && m.pane == Hidden
  {
    m := new RawFileManager();
    m.OnAuthStateChanged(Some(a), true);
    ListingEmptyIff(m.db, a, m.currentRawFiles);
  }

  /** Owner `a` signed in with one raw file of theirs, id 0, created at
      tick 0 and listed first in the cache. */
  method SignedInWithOneFile(a: Email, name: string, version: string, content: string)
    returns (m: RawFileManager)
    requires CleanForm(name, version, content)
    ensures fresh(m) && m.Valid()
    ensures m.currentUser == Some(a) && !m.isEditing && m.viewSelection == None
    ensures m.db.Keys == {0} && m.db[0] == RawFile(name, version, content, a, 0, 0)
    ensures m.currentRawFiles != [] && m.currentRawFiles[0] == Doc(0, m.db[0])
    ensures m.clock == 1 && m.nextId == 1
  {
    m := SignedIn(a);
    ValidateCleanForm(name, version, content);
    var created := m.Submit(name, version, content, true, true);
    assert created == Created(0);
  }

  /** The same owner cannot create a second file of a name; the store keeps
      the first. */
  method DuplicateRefused(a: Email, name: string, v1: string, c1: string, v2: string, c2: string)
    requires CleanForm(name, v1, c1) && CleanForm(name, v2, c2)
  {
    var m := SignedInWithOneFile(a, name, v1, c1);
    ValidateCleanForm(name, v2, c2);
    assert NameTaken(m.db, a, name);
    var again := m.Submit(name, v2, c2, true, true);
    assert again == DuplicateName;
    assert m.db.Keys == {0} && m.db[0] == RawFile(name, v1, c1, a, 0, 0);
  }

  /** Another owner may create a file of the same name. */
  method SameNameOtherOwner(a: Email, b: Email, name: string, version: string, content: string)
    requires a != b && CleanForm(name, version, content)
  {
    var m := SignedInWithOneFile(a, name, version, content);
    m.OnAuthStateChanged(Some(b), true);
    assert !NameTaken(m.db, b, name);
    ValidateCleanForm(name, version, content);
    var created := m.Submit(name, version, content, true, true);
    assert created == Created(1);
    assert m.db[1].owner == b && m.db[0].owner == a;
  }

  /** Editing replaces the content and refreshes the update time; owner and
      creation time stay. */
  method EditThenSave(a: Email, name: string, version: string, c1: string, c2: string)
    requires CleanForm(name, version, c1) && CleanForm(name, version, c2)
  {
    var m := SignedInWithOneFile(a, name, version, c1);
    var form := m.EditRawFile(0, true);
    assert form == Some(Fields(name, version, c1));
    assert m.editingRawId == Some(0) && 0 in m.db && m.clock == 1;
    ValidateCleanForm(name, version, c2);
    var saved := m.Submit(name, version, c2, true, true);
    assert saved == Updated(0);
    assert m.db[0] == RawFile(name, version, c2, a, 0, 1);
    assert !m.isEditing && m.editingRawId == None;
  }

  /** Deleting the file on view clears the selection and, once the cache is
      refreshed, leaves an empty list. */
  method DeleteViewed(a: Email, name: string, version: string, content: string, origin: string)
    requires CleanForm(name, version, content)
  {
    var m := SignedInWithOneFile(a, name, version, content);
    m.ViewRawFile(0, origin);
    assert m.viewSelection == Some(0) && m.pane == Shown(content, PublicUrl(origin, name));
    var gone := m.DeleteRawFile(0, true, true, true);
    assert m.db.Keys == {} && m.viewSelection == None && m.pane == Hidden;
    ListingEmptyIff(m.db, a, m.currentRawFiles);
    assert m.currentRawFiles == [];
  }

  /** Deleting the file being edited does not end the edit session; the
      next save then fails in the store and the session stays. */
  method DeleteWhileEditing(a: Email, name: string, version: string, content: string)
    requires CleanForm(name, version, content)
  {
    var m := SignedInWithOneFile(a, name, version, content);
    var form := m.EditRawFile(0, true);
    var gone := m.DeleteRawFile(0, true, true, true);
    assert m.isEditing && m.editingRawId == Some(0) && 0 !in m.db;
    ValidateCleanForm(name, version, content);
    var saved := m.Submit(name, version, content, true, true);
    assert saved == StoreFailed && m.isEditing && 0 !in m.db;
  }

  /** A delete whose refresh fails keeps the deleted file in the cache, and
      viewing it then selects an id the store no longer holds. */
  method StaleCacheSelection(a: Email, name: string, version: string, content: string, origin: string)
    requires CleanForm(name, version, content)
  {
    var m := SignedInWithOneFile(a, name, version, content);
    var gone := m.DeleteRawFile(0, true, true, false);
    assert m.currentRawFiles[0].id == 0;
    m.ViewRawFile(0, origin);
    assert m.viewSelection == Some(0) && 0 !in m.db;
  }

  /** A raw name with blanks around it and capitals in it is stored in
      normal form, and counts as the name it normalises to: submitting it
      again after that name exists is refused as a duplicate. */
  method CapitalsNormalised(a: Email, rawName: string, name: string, version: string, c1: string, c2: string)
    requires CleanForm(name, version, c1) && CleanForm(name, version, c2)
    requires NormalizeName(rawName) == name
  {
    var m := SignedIn(a);
    assert ValidateForm(rawName, version, c1) == Success(Fields(name, version, c1)) by {
      ValidateCleanForm(name, version, c1);
    }
    var created := m.Submit(rawName, version, c1, true, true);
    assert created == Created(0) && m.db[0].name == name;
    assert NameTaken(m.db, a, name);
    var again := m.Submit(rawName, version, c2, true, true);
    assert again == DuplicateName;
  }

  /** The update path makes no name check: renaming a second file onto the
      first one's name is saved, and the owner then holds two files of one
      name. */
  method RenameOntoSibling(a: Email, n1: string, n2: string, version: string, content: string)
    requires n1 != n2 && CleanForm(n1, version, content) && CleanForm(n2, version, content)
  {
    var m := SignedInWithOneFile(a, n1, version, content);
    ValidateCleanForm(n2, version, content);
    assert !NameTaken(m.db, a, n2);
    var second := m.Submit(n2, version, content, true, true);
    assert second == Created(1);
    var form := m.EditRawFile(1, true);
    ValidateCleanForm(n1, version, content);
    var saved := m.Submit(n1, version, content, true, true);
    assert saved == Updated(1);
    assert m.db[0].name == n1 && m.db[1].name == n1 && m.db[0].owner == m.db[1].owner;
    assert !NamesUniquePerOwner(m.db);
  }
}
