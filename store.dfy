/**
 * The `raw_files` collection of the document store, as the client sees it:
 * a map from document id to record, the owner-scoped name lookup the create
 * path makes, and the owner query, newest creation first, that refreshes the
 * cache (app.js).
 */
module Store {

  type Id = nat
  type Email = string

  /** One stored raw file. The timestamps are ticks of a counter that stands
      for the store's server clock. */
  datatype RawFile = RawFile(
    name: string,
    version: string,
    content: string,
    owner: Email,
    createdAt: nat,
    updatedAt: nat)

  /** A query result row and a cache entry: `{ id: doc.id, ...doc.data() }`. */
  datatype Doc = Doc(id: Id, file: RawFile)

  type Db = map<Id, RawFile>

  /** The create path's query `owner == o && name == n` returns a document. */
  predicate NameTaken(db: Db, owner: Email, name: string): (b: bool)
    ensures b <==> exists f | f in db.Values :: f.owner == owner && f.name == name
  {
    exists id | id in db :: db[id].owner == owner && db[id].name == name
  }

  /** No owner holds two raw files of the same name. */
  ghost predicate NamesUniquePerOwner(db: Db) {
    forall a, b | a in db && b in db ::
      db[a].owner == db[b].owner && db[a].name == db[b].name ==> a == b
  }

  function OwnedIds(db: Db, owner: Email): set<Id> {
    set id | id in db && db[id].owner == owner
  }

  ghost predicate NewestFirst(s: seq<Doc>) {
    forall i, j | 0 <= i < j < |s| :: s[i].file.createdAt >= s[j].file.createdAt
  }

  /** `s` is an answer to `where('owner', '==', owner).orderBy('createdAt',
      'desc')`: each of the owner's documents exactly once, as stored, newest
      creation first. */
  ghost predicate IsOwnerListing(db: Db, owner: Email, s: seq<Doc>) {
    && (forall i | 0 <= i < |s| :: s[i].id in db && db[s[i].id] == s[i].file && s[i].file.owner == owner)
    && (forall i, j | 0 <= i < j < |s| :: s[i].id != s[j].id)
    && (forall id | id in db && db[id].owner == owner :: exists i | 0 <= i < |s| :: s[i].id == id)
    && NewestFirst(s)
  }

  predicate IsNewest(db: Db, ids: set<Id>, n: Id)
    requires ids <= db.Keys
  {
    n in ids && forall k | k in ids :: db[k].createdAt <= db[n].createdAt
  }

  lemma {:induction false} NewestExists(db: Db, ids: set<Id>)
    requires ids != {} && ids <= db.Keys
    ensures exists n :: IsNewest(db, ids, n)
    decreases ids
  {
    var x :| x in ids;
    if ids == {x} {
      assert IsNewest(db, ids, x);
    } else {
      var rest := ids - {x};
      NewestExists(db, rest);
      var y :| IsNewest(db, rest, y);
      if db[x].createdAt <= db[y].createdAt {
        assert IsNewest(db, ids, y);
      } else {
        assert IsNewest(db, ids, x);
      }
    }
  }

  /** The owner query: repeatedly takes the newest of the owner's documents
      not yet returned. */
  method QueryByOwner(db: Db, owner: Email) returns (snapshot: seq<Doc>)
    ensures IsOwnerListing(db, owner, snapshot)
  {
    var pending := OwnedIds(db, owner);
    snapshot := [];
    while pending != {}
      invariant pending <= OwnedIds(db, owner)
      invariant forall i | 0 <= i < |snapshot| ::
        snapshot[i].id in db && db[snapshot[i].id] == snapshot[i].file
        && snapshot[i].file.owner == owner && snapshot[i].id !in pending
      invariant forall i, j | 0 <= i < j < |snapshot| :: snapshot[i].id != snapshot[j].id
      invariant forall id | id in OwnedIds(db, owner) ::
        id in pending || exists i | 0 <= i < |snapshot| :: snapshot[i].id == id
      invariant NewestFirst(snapshot)
      invariant forall i, k | 0 <= i < |snapshot| && k in pending ::
        snapshot[i].file.createdAt >= db[k].createdAt
      decreases pending
    {
      NewestExists(db, pending);
      var n :| IsNewest(db, pending, n);
      ghost var before := snapshot;
      snapshot := snapshot + [Doc(n, db[n])];
      pending := pending - {n};
      assert snapshot[|before|].id == n;
      assert forall i | 0 <= i < |before| :: snapshot[i] == before[i];
    }
    assert forall id | id in db && db[id].owner == owner :: id in OwnedIds(db, owner);
  }

  /** Creating a record whose name the owner does not hold yet keeps names
      unique per owner. */
  lemma CreateKeepsNamesUnique(db: Db, id: Id, f: RawFile)
    requires NamesUniquePerOwner(db)
    requires id !in db && !NameTaken(db, f.owner, f.name)
    ensures NamesUniquePerOwner(db[id := f])
  {
  }

  /** An owner's listing is empty exactly when the owner holds no record. */
  lemma ListingEmptyIff(db: Db, owner: Email, s: seq<Doc>)
    requires IsOwnerListing(db, owner, s)
    ensures s == [] <==> OwnedIds(db, owner) == {}
  {
    if s != [] {
      assert s[0].id in OwnedIds(db, owner);
    }
  }

  /** A record created after every other one heads its owner's listing. */
  lemma NewestCreatedListedFirst(db: Db, owner: Email, s: seq<Doc>, id: Id)
    requires IsOwnerListing(db, owner, s)
    requires id in db && db[id].owner == owner
    requires forall k | k in db && k != id :: db[k].createdAt < db[id].createdAt
    ensures s != [] && s[0].id == id
  {
    var i :| 0 <= i < |s| && s[i].id == id;
  }

  /** A record added with a creation time later than every stored one heads
      its owner's listing of the new store. */
  lemma InsertedNewestListedFirst(db: Db, owner: Email, s: seq<Doc>, id: Id, f: RawFile)
    requires id !in db && f.owner == owner
    requires forall k | k in db :: db[k].createdAt < f.createdAt
    requires IsOwnerListing(db[id := f], owner, s)
    ensures s != [] && s[0].id == id
  {
    NewestCreatedListedFirst(db[id := f], owner, s, id);
  }

  /** Renaming a record in place, as an edit does, can give an owner two
      files of one name: the edit path makes no name check. */
  lemma RenameCanDuplicate(f: RawFile, g: RawFile)
    requires f.owner == g.owner && f.name != g.name
    ensures NamesUniquePerOwner(map[0 := f, 1 := g])
    ensures !NamesUniquePerOwner(map[0 := f, 1 := g][1 := g.(name := f.name)])
  {
    var db := map[0 := f, 1 := g][1 := g.(name := f.name)];
    assert db[0].owner == db[1].owner && db[0].name == db[1].name;
  }

  /** No two records were created at the same tick. */
  ghost predicate CreationTimesDistinct(db: Db) {
    forall a, b | a in db && b in db && a != b :: db[a].createdAt != db[b].createdAt
  }

  /** A record stamped later than every stored one keeps creation times
      distinct. */
  lemma InsertNewestKeepsDistinct(db: Db, id: Id, f: RawFile)
    requires CreationTimesDistinct(db) && id !in db
    requires forall k | k in db :: db[k].createdAt < f.createdAt
    ensures CreationTimesDistinct(db[id := f])
  {
  }

  /** Dropping the head of a listing leaves a listing of the store without
      that record. */
  lemma ListingTail(db: Db, owner: Email, s: seq<Doc>)
    requires IsOwnerListing(db, owner, s) && s != []
    ensures IsOwnerListing(db - {s[0].id}, owner, s[1..])
  {
    var db' := db - {s[0].id};
    forall id | id in db' && db'[id].owner == owner
      ensures exists i | 0 <= i < |s[1..]| :: s[1..][i].id == id
    {
      var i :| 0 <= i < |s| && s[i].id == id;
      assert s[1..][i - 1].id == id;
    }
  }

  /** Two non-empty listings of a store with distinct creation times start
      with the same record: the owner's newest. */
  lemma ListingHead(db: Db, owner: Email, s: seq<Doc>, t: seq<Doc>)
    requires CreationTimesDistinct(db)
    requires IsOwnerListing(db, owner, s) && IsOwnerListing(db, owner, t)
    requires s != [] && t != []
    ensures s[0] == t[0]
  {
    var i :| 0 <= i < |s| && s[i].id == t[0].id;
    var j :| 0 <= j < |t| && t[j].id == s[0].id;
    assert s[0].file.createdAt >= s[i].file.createdAt;
    assert t[0].file.createdAt >= t[j].file.createdAt;
  }

  /** When creation times are distinct, the owner query has exactly one
      answer, so the refreshed cache is determined by the store. */
  lemma {:induction false} ListingDetermined(db: Db, owner: Email, s: seq<Doc>, t: seq<Doc>)
    requires CreationTimesDistinct(db)
    requires IsOwnerListing(db, owner, s) && IsOwnerListing(db, owner, t)
    ensures s == t
    decreases |s|
  {
    assert s == [] <==> t == [] by {
      ListingEmptyIff(db, owner, s);
      ListingEmptyIff(db, owner, t);
    }
    if s != [] {
      ListingHead(db, owner, s, t);
      ListingTail(db, owner, s);
      ListingTail(db, owner, t);
      ListingDetermined(db - {s[0].id}, owner, s[1..], t[1..]);
      assert s == [s[0]] + s[1..] && t == [t[0]] + t[1..];
    }
  }
}
