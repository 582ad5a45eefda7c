/**
 * The raw-file manager of app.js: the page's globals (`currentUser`,
 * `isEditing`, `editingRawId`, `currentRawFiles`, the value of the
 * `view-raw-select` element and the view pane) together with the
 * `raw_files` collection of the document store, and the event handlers that
 * change them. Each asynchronous handler is one atomic step; whether a store
 * call succeeds is a parameter.
 */
module Manager {
  import opened Wrappers
  import opened Names
  import opened Store

  /** The outcome of one submit of the raw-file form. */
  datatype SaveOutcome =
    | Rejected(reason: FormError)   // a field is empty or the name is malformed
    | DuplicateName                 // "A file with this name already exists!"
    | StoreFailed                   // the store call threw; reported by the catch block
    | Updated(id: Id)
    | Created(id: Id)

  /** The view pane: hidden, or showing a raw file's content and public URL. */
  datatype Pane = Hidden | Shown(content: string, url: string)

  /** `currentRawFiles.find(f => f.id === id)`: the first cache entry with
      that id. */
  function Find(cache: seq<Doc>, id: Id): (r: Option<Doc>)
    ensures r.None? <==> forall i :: 0 <= i < |cache| ==> cache[i].id != id
    ensures r.Some? ==> exists i :: 0 <= i < |cache| && cache[i] == r.value && IsFirstWithId(cache, i, id)
  {
    if cache == [] then None
    else if cache[0].id == id then
      assert IsFirstWithId(cache, 0, id);
      Some(cache[0])
    else
      var r := Find(cache[1..], id);
      assert r.Some? ==> exists i :: 0 <= i < |cache| && cache[i] == r.value && IsFirstWithId(cache, i, id) by {
        if r.Some? {
          var i :| 0 <= i < |cache| - 1 && cache[1..][i] == r.value && IsFirstWithId(cache[1..], i, id);
          assert IsFirstWithId(cache, i + 1, id);
        }
      }
      r
  }

  ghost predicate IsFirstWithId(cache: seq<Doc>, i: int, id: Id) {
    0 <= i < |cache| && cache[i].id == id && forall j :: 0 <= j < i ==> cache[j].id != id
  }

  class RawFileManager {
    var currentUser: Option<Email>
    var isEditing: bool
    var editingRawId: Option<Id>
    var currentRawFiles: seq<Doc>
    /** The value of `view-raw-select`; `None` is the empty value. */
    var viewSelection: Option<Id>
    var pane: Pane
    /** The `raw_files` collection of the store. */
    var db: Db
    /** The store's clock: every write is stamped with it and advances it. */
    var clock: nat
    /** The next id `doc()` hands out. */
    var nextId: Id

    ghost predicate Valid()
      reads this
    {
      && (isEditing <==> editingRawId.Some?)
      && (forall id | id in db :: id < nextId)
      && (forall id | id in db :: db[id].createdAt <= db[id].updatedAt < clock)
      && CreationTimesDistinct(db)
    }

    /** After a refresh attempt: the owner's listing when the query ran, the
        previous cache otherwise. */
    ghost predicate CacheRefreshed(previous: seq<Doc>, queryOk: bool)
      reads this
    {
      if queryOk && currentUser.Some? then IsOwnerListing(db, currentUser.value, currentRawFiles)
      else currentRawFiles == previous
    }

    /** The page as loaded: nobody signed in, create mode, nothing cached or
        selected, an empty collection. */
    constructor ()
      ensures Valid()
      ensures currentUser == None && !isEditing && editingRawId == None
      ensures currentRawFiles == [] && viewSelection == None && pane == Hidden
      ensures db == map[] && clock == 0 && nextId == 0
    {
      currentUser := None;
      isEditing := false;
      editingRawId := None;
      currentRawFiles := [];
      viewSelection := None;
      pane := Hidden;
      db := map[];
      clock := 0;
      nextId := 0;
    }

    /** `resetForm`: back to create mode. */
    method ResetForm()
      requires Valid()
      modifies this`isEditing, this`editingRawId
      ensures Valid()
      ensures !isEditing && editingRawId == None
    {
      isEditing := false;
      editingRawId := None;
    }

    /** `loadRawFiles`: query the signed-in owner's records newest first and
        rebuild the cache from the snapshot. With nobody signed in the query
        throws; a failed query leaves the cache as it was. */
    method LoadRawFiles(queryOk: bool) returns (loaded: bool)
      requires Valid()
      modifies this`currentRawFiles
      ensures Valid()
      ensures loaded == (queryOk && currentUser.Some?)
      ensures CacheRefreshed(old(currentRawFiles), queryOk)
    {
      if currentUser.None? || !queryOk {
        return false;
      }
      var snapshot := QueryByOwner(db, currentUser.value);
      currentRawFiles := [];
      for i := 0 to |snapshot|
        invariant currentRawFiles == snapshot[..i]
      {
        currentRawFiles := currentRawFiles + [snapshot[i]];
      }
      assert currentRawFiles == snapshot;
      return true;
    }

    /** The edit-mode save of validated fields `f`: the update of record
        `editingRawId` succeeded and replaced its name, version and content,
        stamped a new `updatedAt`, ended the session and refreshed the cache;
        or it failed and nothing changed. Owner, creation time and every
        other record stay as they were; no name check is made. */
    twostate predicate UpdateStep(f: Fields, storeOk: bool, refreshOk: bool, outcome: SaveOutcome)
      requires old(editingRawId).Some?
      reads this
    {
      var id := old(editingRawId).value;
      && currentUser == old(currentUser) && viewSelection == old(viewSelection) && pane == old(pane)
      && if storeOk && id in old(db) then
        && outcome == Updated(id)
        && db == old(db)[id := old(db)[id].(name := f.name, version := f.version, content := f.content, updatedAt := old(clock))]
        && clock == old(clock) + 1 && nextId == old(nextId)
        && !isEditing && editingRawId == None
        && CacheRefreshed(old(currentRawFiles), refreshOk)
      else
        && outcome == StoreFailed
        && db == old(db) && clock == old(clock) && nextId == old(nextId)
        && isEditing == old(isEditing) && editingRawId == old(editingRawId)
        && currentRawFiles == old(currentRawFiles)
    }

    /** The create-mode save of validated fields `f`: with nobody signed in
        or a failed store call nothing changes; a name the owner already
        holds is refused and nothing changes; otherwise one record with a
        fresh id, the owner's email and equal creation and update times is
        added, the session ends and the cache is refreshed. */
    twostate predicate CreateStep(f: Fields, storeOk: bool, refreshOk: bool, outcome: SaveOutcome)
      reads this
    {
      && currentUser == old(currentUser) && viewSelection == old(viewSelection) && pane == old(pane)
      && if old(currentUser).Some? && storeOk && !NameTaken(old(db), old(currentUser).value, f.name) then
        var id := old(nextId);
        && outcome == Created(id)
        && id !in old(db)
        && db == old(db)[id := RawFile(f.name, f.version, f.content, old(currentUser).value, old(clock), old(clock))]
        && clock == old(clock) + 1 && nextId == old(nextId) + 1
        && !isEditing && editingRawId == None
        && CacheRefreshed(old(currentRawFiles), refreshOk)
      else
        && outcome == (if old(currentUser).Some? && storeOk then DuplicateName else StoreFailed)
        && db == old(db) && clock == old(clock) && nextId == old(nextId)
        && isEditing == old(isEditing) && editingRawId == old(editingRawId)
        && currentRawFiles == old(currentRawFiles)
    }

    method SaveUpdate(f: Fields, storeOk: bool, refreshOk: bool) returns (outcome: SaveOutcome)
      requires Valid() && isEditing
      modifies this
      ensures Valid()
      ensures UpdateStep(f, storeOk, refreshOk, outcome)
      ensures outcome.Updated? ==>
        var id := outcome.id;
        && db[id].owner == old(db)[id].owner && db[id].createdAt == old(db)[id].createdAt
        && db[id].updatedAt > old(db)[id].updatedAt
    {
      var id := editingRawId.value;
      if !storeOk || id !in db {
        return StoreFailed;
      }
      db := db[id := db[id].(name := f.name, version := f.version, content := f.content, updatedAt := clock)];
      clock := clock + 1;
      ResetForm();
      var _ := LoadRawFiles(refreshOk);
      outcome := Updated(id);
    }

    /** The store write `doc().set(...)`: a record under the fresh id `doc()`
        hands out, stamped with the current tick as both its creation and its
        update time. */
    method AddRecord(f: Fields, owner: Email) returns (id: Id)
      requires Valid()
      modifies this`db, this`clock, this`nextId
      ensures Valid()
      ensures id == old(nextId) && id !in old(db)
      ensures db == old(db)[id := RawFile(f.name, f.version, f.content, owner, old(clock), old(clock))]
      ensures clock == old(clock) + 1 && nextId == old(nextId) + 1
      ensures forall k | k in old(db) :: old(db)[k].createdAt < db[id].createdAt
      ensures NamesUniquePerOwner(old(db)) && !NameTaken(old(db), owner, f.name) ==> NamesUniquePerOwner(db)
    {
      id := nextId;
      var file := RawFile(f.name, f.version, f.content, owner, clock, clock);
      assert forall k | k in db :: db[k].createdAt < file.createdAt;
      InsertNewestKeepsDistinct(db, id, file);
      assert NamesUniquePerOwner(db) && !NameTaken(db, owner, f.name) ==> NamesUniquePerOwner(db[id := file]) by {
        if NamesUniquePerOwner(db) && !NameTaken(db, owner, f.name) {
          CreateKeepsNamesUnique(db, id, file);
        }
      }
      db := db[id := file];
      clock := clock + 1;
      nextId := nextId + 1;
    }

    method SaveCreate(f: Fields, storeOk: bool, refreshOk: bool) returns (outcome: SaveOutcome)
      requires Valid() && !isEditing
      modifies this
      ensures Valid()
      ensures CreateStep(f, storeOk, refreshOk, outcome)
      ensures outcome.Created? && refreshOk ==> currentRawFiles != [] && currentRawFiles[0].id == outcome.id
      ensures NamesUniquePerOwner(old(db)) ==> NamesUniquePerOwner(db)
    {
      if currentUser.None? || !storeOk {
        return StoreFailed;
      }
      var owner := currentUser.value;
      if NameTaken(db, owner, f.name) {
        return DuplicateName;
      }
      ghost var before := db;
      var id := AddRecord(f, owner);
      ResetForm();
      var _ := LoadRawFiles(refreshOk);
      if refreshOk {
        InsertedNewestListedFirst(before, owner, currentRawFiles, id, db[id]);
      }
      outcome := Created(id);
    }

    /** The raw-form submit handler. Validation comes first and touches
        nothing; then edit mode updates and create mode creates. */
    method Submit(rawName: string, rawVersion: string, content: string, storeOk: bool, refreshOk: bool)
      returns (outcome: SaveOutcome)
      requires Valid()
      modifies this
      ensures Valid()
      ensures ValidateForm(rawName, rawVersion, content).Failure? ==>
        outcome == Rejected(ValidateForm(rawName, rawVersion, content).error) && unchanged(this)
      ensures ValidateForm(rawName, rawVersion, content).Success? && old(isEditing) ==>
        UpdateStep(ValidateForm(rawName, rawVersion, content).value, storeOk, refreshOk, outcome)
      ensures ValidateForm(rawName, rawVersion, content).Success? && !old(isEditing) ==>
        CreateStep(ValidateForm(rawName, rawVersion, content).value, storeOk, refreshOk, outcome)
      ensures !old(isEditing) && NamesUniquePerOwner(old(db)) ==> NamesUniquePerOwner(db)
    {
      var form := ValidateForm(rawName, rawVersion, content);
      if form.Failure? {
        return Rejected(form.error);
      }
      if isEditing {
        outcome := SaveUpdate(form.value, storeOk, refreshOk);
      } else {
        outcome := SaveCreate(form.value, storeOk, refreshOk);
      }
    }

    /** `editRawFile`: fetch the record by id; if it exists, return its
        fields for the form and enter edit mode on it. The owner is not
        checked. */
    method EditRawFile(id: Id, storeOk: bool) returns (form: Option<Fields>)
      requires Valid()
      modifies this`isEditing, this`editingRawId
      ensures Valid()
      ensures form.Some? <==> storeOk && id in db
      ensures form.Some? ==>
        && form.value == Fields(db[id].name, db[id].version, db[id].content)
        && isEditing && editingRawId == Some(id)
      ensures form.None? ==> isEditing == old(isEditing) && editingRawId == old(editingRawId)
    {
      if !storeOk || id !in db {
        return None;
      }
      var file := db[id];
      isEditing := true;
      editingRawId := Some(id);
      return Some(Fields(file.name, file.version, file.content));
    }

    /** `loadRawForView`: no selection hides the pane; a selection found in
        the cache shows its content and public URL; a selection missing from
        the cache leaves the pane as it was. */
    method LoadRawForView(origin: string)
      requires Valid()
      modifies this`pane
      ensures Valid()
      ensures viewSelection.None? ==> pane == Hidden
      ensures viewSelection.Some? ==>
        match Find(currentRawFiles, viewSelection.value)
        case Some(d) => pane == Shown(d.file.content, PublicUrl(origin, d.file.name))
        case None => pane == old(pane)
    {
      if viewSelection.None? {
        pane := Hidden;
        return;
      }
      var found := Find(currentRawFiles, viewSelection.value);
      if found.Some? {
        pane := Shown(found.value.file.content, PublicUrl(origin, found.value.file.name));
      }
    }

    /** `viewRawFile`: select the id and show it, only if it is cached. */
    method ViewRawFile(id: Id, origin: string)
      requires Valid()
      modifies this`viewSelection, this`pane
      ensures Valid()
      ensures match Find(currentRawFiles, id)
        case Some(d) => viewSelection == Some(id) && pane == Shown(d.file.content, PublicUrl(origin, d.file.name))
        case None => viewSelection == old(viewSelection) && pane == old(pane)
    {
      var found := Find(currentRawFiles, id);
      if found.Some? {
        viewSelection := Some(id);
        LoadRawForView(origin);
      }
    }

    /** `editCurrentRaw`: edit whatever the view selector holds. */
    method EditCurrentRaw(storeOk: bool) returns (form: Option<Fields>)
      requires Valid()
      modifies this`isEditing, this`editingRawId
      ensures Valid()
      ensures form.Some? <==> viewSelection.Some? && storeOk && viewSelection.value in db
      ensures form.Some? ==> isEditing && editingRawId == viewSelection
      ensures form.Some? ==>
        var id := viewSelection.value;
        form.value == Fields(db[id].name, db[id].version, db[id].content)
      ensures form.None? ==> isEditing == old(isEditing) && editingRawId == old(editingRawId)
    {
      form := None;
      if viewSelection.Some? {
        form := EditRawFile(viewSelection.value, storeOk);
      }
    }

    /** `deleteRawFile`: after confirmation, delete the document (an unknown
        id deletes nothing and still succeeds), refresh the cache, and clear
        the view selection if it pointed at the deleted id. The edit session
        is left as it is. */
    method DeleteRawFile(id: Id, confirmed: bool, storeOk: bool, refreshOk: bool) returns (deleted: bool)
      requires Valid()
      modifies this
      ensures Valid()
      ensures deleted == (confirmed && storeOk)
      ensures !deleted ==> unchanged(this)
      ensures deleted ==>
        && db == old(db) - {id} && id !in db
        && clock == old(clock) && nextId == old(nextId) && currentUser == old(currentUser)
        && isEditing == old(isEditing) && editingRawId == old(editingRawId)
        && CacheRefreshed(old(currentRawFiles), refreshOk)
        && (old(viewSelection) == Some(id) ==> viewSelection == None && pane == Hidden)
        && (old(viewSelection) != Some(id) ==> viewSelection == old(viewSelection) && pane == old(pane))
      ensures deleted && refreshOk && currentUser.Some? ==>
        forall i :: 0 <= i < |currentRawFiles| ==> currentRawFiles[i].id != id
    {
      if !confirmed || !storeOk {
        return false;
      }
      db := db - {id};
      var _ := LoadRawFiles(refreshOk);
      if viewSelection == Some(id) {
        viewSelection := None;
        pane := Hidden;
      }
      return true;
    }

    /** The auth-state listener: record the new user; on sign-in refresh the
        cache, on sign-out end the edit session. Sign-out keeps the cache and
        the view selection. */
    method OnAuthStateChanged(user: Option<Email>, queryOk: bool)
      requires Valid()
      modifies this
      ensures Valid()
      ensures currentUser == user
      ensures db == old(db) && clock == old(clock) && nextId == old(nextId)
      ensures viewSelection == old(viewSelection) && pane == old(pane)
      ensures user.Some? ==>
        && isEditing == old(isEditing) && editingRawId == old(editingRawId)
        && CacheRefreshed(old(currentRawFiles), queryOk)
      ensures user.None? ==>
        !isEditing && editingRawId == None && currentRawFiles == old(currentRawFiles)
    {
      currentUser := user;
      if user.Some? {
        var _ := LoadRawFiles(queryOk);
      } else {
        ResetForm();
      }
    }
  }
}
