/** The server's three registries: documents by id, the users present in
    each document, and each user's cursor in each document. The user and
    cursor maps never keep an empty entry: removing the last user or cursor
    of a document drops the document's key. */
module Services {
  import opened CrdtTypes
  import ServerState
  import ServerDocument

  // ---- users, as values ----

  /** No document is listed with an empty set of users. */
  ghost predicate NoEmptyUsers(m: map<string, set<string>>)
  {
    forall d :: d in m ==> m[d] != {}
  }

  /** `addUser(docId, username)` */
  function WithUser(m: map<string, set<string>>, docId: string, username: string): map<string, set<string>>
  {
    m[docId := (if docId in m then m[docId] else {}) + {username}]
  }

  /** `removeUser(docId, username)` */
  function WithoutUser(m: map<string, set<string>>, docId: string, username: string): map<string, set<string>>
  {
    if docId !in m then m
    else if m[docId] - {username} == {} then m - {docId}
    else m[docId := m[docId] - {username}]
  }

  /** `getUsers(docId)`, as the set the returned array lists. */
  function Users(m: map<string, set<string>>, docId: string): set<string>
  {
    if docId in m then m[docId] else {}
  }

  /** Adding a user lists it, keeps everyone else, and leaves other
      documents alone. */
  lemma AddUserEffect(m: map<string, set<string>>, docId: string, username: string)
    requires NoEmptyUsers(m)
    ensures NoEmptyUsers(WithUser(m, docId, username))
    ensures Users(WithUser(m, docId, username), docId) == Users(m, docId) + {username}
    ensures forall d :: d != docId ==> Users(WithUser(m, docId, username), d) == Users(m, d)
  {
  }

  /** Removing a user unlists it only, and the map keeps no empty entry. */
  lemma RemoveUserEffect(m: map<string, set<string>>, docId: string, username: string)
    requires NoEmptyUsers(m)
    ensures NoEmptyUsers(WithoutUser(m, docId, username))
    ensures Users(WithoutUser(m, docId, username), docId) == Users(m, docId) - {username}
    ensures forall d :: d != docId ==> Users(WithoutUser(m, docId, username), d) == Users(m, d)
  {
  }

  /** Joining and then leaving restores the registry, when the user was not
      there before. */
  lemma JoinLeaveRoundTrip(m: map<string, set<string>>, docId: string, username: string)
    requires NoEmptyUsers(m) && username !in Users(m, docId)
    ensures WithoutUser(WithUser(m, docId, username), docId, username) == m
  {
    var r := WithoutUser(WithUser(m, docId, username), docId, username);
    if docId in m {
      assert (m[docId] + {username}) - {username} == m[docId];
      assert r == m[docId := m[docId]];
    } else {
      assert ({} + {username}) - {username} == {};
      assert r.Keys == m.Keys;
    }
  }

  // ---- cursors, as values ----

  /** No document is listed with an empty cursor map. */
  ghost predicate NoEmptyCursors(m: map<string, map<string, int>>)
  {
    forall d :: d in m ==> m[d] != map[]
  }

  /** `updateCursor(docId, username, position)` */
  function WithCursor(m: map<string, map<string, int>>, docId: string, username: string, position: int): map<string, map<string, int>>
  {
    m[docId := (if docId in m then m[docId] else map[])[username := position]]
  }

  /** `removeCursor(docId, username)` */
  function WithoutCursor(m: map<string, map<string, int>>, docId: string, username: string): map<string, map<string, int>>
  {
    if docId !in m then m
    else if m[docId] - {username} == map[] then m - {docId}
    else m[docId := m[docId] - {username}]
  }

  /** `getCursorsForDoc(docId)` */
  function CursorsOf(m: map<string, map<string, int>>, docId: string): map<string, int>
  {
    if docId in m then m[docId] else map[]
  }

  /** `getCursor(docId, username)`; `None` stands for null. */
  function CursorOf(m: map<string, map<string, int>>, docId: string, username: string): Option<int>
  {
    var c := CursorsOf(m, docId);
    if username in c then Some(c[username]) else None
  }

  /** An update is read back, and no other cursor moves. */
  lemma UpdateThenGet(m: map<string, map<string, int>>, docId: string, username: string, position: int)
    requires NoEmptyCursors(m)
    ensures NoEmptyCursors(WithCursor(m, docId, username, position))
    ensures CursorOf(WithCursor(m, docId, username, position), docId, username) == Some(position)
    ensures forall d, u :: (d, u) != (docId, username) ==>
      CursorOf(WithCursor(m, docId, username, position), d, u) == CursorOf(m, d, u)
  {
    assert username in WithCursor(m, docId, username, position)[docId];
  }

  /** A removed cursor reads as null, and no other cursor moves. */
  lemma RemoveThenGet(m: map<string, map<string, int>>, docId: string, username: string)
    requires NoEmptyCursors(m)
    ensures NoEmptyCursors(WithoutCursor(m, docId, username))
    ensures CursorOf(WithoutCursor(m, docId, username), docId, username) == None
    ensures forall d, u :: (d, u) != (docId, username) ==>
      CursorOf(WithoutCursor(m, docId, username), d, u) == CursorOf(m, d, u)
  {
    var r := WithoutCursor(m, docId, username);
    forall d, u | (d, u) != (docId, username)
      ensures CursorOf(r, d, u) == CursorOf(m, d, u)
    {
      if d == docId && docId in m && u in m[docId] {
        assert u in m[docId] - {username};
      }
    }
  }

  /** Placing a new cursor and removing it restores the registry. */
  lemma UpdateRemoveRoundTrip(m: map<string, map<string, int>>, docId: string, username: string, position: int)
    requires NoEmptyCursors(m) && CursorOf(m, docId, username).None?
    ensures WithoutCursor(WithCursor(m, docId, username, position), docId, username) == m
  {
    var r := WithoutCursor(WithCursor(m, docId, username, position), docId, username);
    if docId in m {
      assert m[docId][username := position] - {username} == m[docId];
      assert r == m[docId := m[docId]];
    } else {
      assert map[][username := position] - {username} == map[];
      assert r.Keys == m.Keys;
    }
  }

  // ---- the services ----

  /** `after` is `before` with `docId` registered: unchanged when it was
      there already, otherwise gaining that one id. */
  ghost predicate RegisteredOnDemand(before: map<string, ServerDocument.Document>, after: map<string, ServerDocument.Document>, docId: string)
  {
    && docId in after
    && after == if docId in before then before else before[docId := after[docId]]
  }

  /** `DocumentService`: one server document per id, created on first use. */
  class DocumentService {
    var documents: map<string, ServerDocument.Document>

    /** Every registered document is well formed, and no two ids share one:
        `computeIfAbsent` makes a new document per id. */
    ghost predicate Valid()
      reads this, documents.Values
    {
      && (forall d :: d in documents.Values ==> d.Valid())
      && (forall a, b :: a in documents && b in documents && a != b ==> documents[a] != documents[b])
    }

    constructor()
      ensures Valid() && documents == map[]
    {
      documents := map[];
    }

    /** `getDocument(docId)`: the registered document, or a fresh one now
        registered under that id. */
    method GetDocument(docId: string) returns (doc: ServerDocument.Document)
      requires Valid()
      modifies this
      ensures Valid() && docId in documents && doc == documents[docId]
      ensures docId in old(documents) ==> documents == old(documents) && doc == old(documents[docId])
      ensures docId !in old(documents) ==>
        fresh(doc) && documents == old(documents)[docId := doc] && doc.State() == ServerState.Fresh
    {
      if docId in documents {
        doc := documents[docId];
      } else {
        doc := new ServerDocument.Document();
        documents := documents[docId := doc];
      }
    }

    /** `removeDocument(docId)` */
    method RemoveDocument(docId: string)
      requires Valid()
      modifies this
      ensures Valid() && documents == old(documents) - {docId}
    {
      documents := documents - {docId};
    }

    /** `exists(docId)` */
    method Exists(docId: string) returns (r: bool)
      ensures r <==> docId in documents
    {
      r := docId in documents;
    }
  }

  /** `UserSessionService` */
  class UserSessionService {
    var documentUsers: map<string, set<string>>

    ghost predicate Valid()
      reads this
    {
      NoEmptyUsers(documentUsers)
    }

    constructor()
      ensures Valid() && documentUsers == map[]
    {
      documentUsers := map[];
    }

    /** `addUser(docId, username)` */
    method AddUser(docId: string, username: string)
      requires Valid()
      modifies this
      ensures Valid() && documentUsers == WithUser(old(documentUsers), docId, username)
    {
      var users := if docId in documentUsers then documentUsers[docId] else {};
      documentUsers := documentUsers[docId := users + {username}];
    }

    /** `removeUser(docId, username)` */
    method RemoveUser(docId: string, username: string)
      requires Valid()
      modifies this
      ensures Valid() && documentUsers == WithoutUser(old(documentUsers), docId, username)
    {
      if docId in documentUsers {
        var users := documentUsers[docId] - {username};
        if users == {} {
          documentUsers := documentUsers - {docId};
        } else {
          documentUsers := documentUsers[docId := users];
        }
      }
    }

    /** `getUsers(docId)` */
    method GetUsers(docId: string) returns (users: set<string>)
      ensures users == Users(documentUsers, docId)
      ensures docId !in documentUsers ==> users == {}
    {
      users := if docId in documentUsers then documentUsers[docId] else {};
    }

    /** `hasUsers(docId)`: in a registry with no empty entry, exactly the
        listed documents have users. */
    method HasUsers(docId: string) returns (r: bool)
      requires Valid()
      ensures r <==> Users(documentUsers, docId) != {}
      ensures r <==> docId in documentUsers
    {
      r := docId in documentUsers && documentUsers[docId] != {};
    }
  }

  /** `CursorService` */
  class CursorService {
    var cursorMap: map<string, map<string, int>>

    ghost predicate Valid()
      reads this
    {
      NoEmptyCursors(cursorMap)
    }

    constructor()
      ensures Valid() && cursorMap == map[]
    {
      cursorMap := map[];
    }

    /** `updateCursor(docId, username, position)` */
    method UpdateCursor(docId: string, username: string, position: int)
      requires Valid()
      modifies this
      ensures Valid() && cursorMap == WithCursor(old(cursorMap), docId, username, position)
    {
      UpdateThenGet(cursorMap, docId, username, position);
      var cursors := if docId in cursorMap then cursorMap[docId] else map[];
      cursorMap := cursorMap[docId := cursors[username := position]];
    }

    /** `getCursor(docId, username)` */
    method GetCursor(docId: string, username: string) returns (r: Option<int>)
      ensures r == CursorOf(cursorMap, docId, username)
      ensures r.Some? <==> docId in cursorMap && username in cursorMap[docId]
    {
      var cursors := if docId in cursorMap then cursorMap[docId] else map[];
      r := if username in cursors then Some(cursors[username]) else None;
    }

    /** `getCursorsForDoc(docId)` */
    method GetCursorsForDoc(docId: string) returns (r: map<string, int>)
      ensures r == CursorsOf(cursorMap, docId)
      ensures docId !in cursorMap ==> r == map[]
    {
      r := if docId in cursorMap then cursorMap[docId] else map[];
    }

    /** `removeCursor(docId, username)` */
    method RemoveCursor(docId: string, username: string)
      requires Valid()
      modifies this
      ensures Valid() && cursorMap == WithoutCursor(old(cursorMap), docId, username)
    {
      if docId in cursorMap {
        var cursors := cursorMap[docId] - {username};
        if cursors == map[] {
          cursorMap := cursorMap - {docId};
        } else {
          cursorMap := cursorMap[docId := cursors];
        }
      }
    }
  }
}
