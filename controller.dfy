/** The server's message handlers: edits applied to the document under a
    lock and echoed to every subscriber, the full-state sync, document
    creation and lookup, and join/leave with the user list they broadcast. */
module Controller {
  import opened CrdtTypes
  import opened Linear
  import ServerState
  import ServerDocument
  import opened Services

  /** The message `handleEdit` broadcasts after applying `m` to a document
      whose state was `s`. */
  function EditReply(s: ServerState.ServerDoc, m: Message): Message
    requires m.kind == "insert" || m.kind == "delete" ==> m.character.Some?
  {
    if m.kind == "insert" then SingleMessage("insert", m.character)
    else if m.kind == "delete" then
      var deleted := ServerState.Deleted(s, m.character.value.id);
      if deleted.Some? then SingleMessage("delete", deleted) else SingleMessage("error", None)
    else SingleMessage("error", None)
  }

  /** The reply is "error" exactly for an unknown message type or a delete of
      an unknown id, and such a message leaves the document as it was. */
  lemma ErrorReplyIff(s: ServerState.ServerDoc, m: Message)
    requires m.kind == "insert" || m.kind == "delete" ==> m.character.Some?
    ensures EditReply(s, m).kind == "error" <==>
      (m.kind != "insert" && m.kind != "delete") || (m.kind == "delete" && m.character.value.id !in s.nodes)
    ensures EditReply(s, m).kind == "error" ==> ServerState.Apply(s, m) == s && EditReply(s, m).character.None?
  {
  }

  /** A successful reply carries the id it was sent; a delete reply carries
      the tombstone the document now holds. */
  lemma ReplyEchoes(s: ServerState.ServerDoc, m: Message)
    requires ServerState.Wf(s)
    requires m.kind == "insert" || m.kind == "delete" ==> m.character.Some?
    requires EditReply(s, m).kind != "error"
    ensures EditReply(s, m).kind == m.kind
    ensures EditReply(s, m).character.Some? && EditReply(s, m).character.value.id == m.character.value.id
    ensures m.kind == "delete" ==>
      var t := ServerState.Apply(s, m);
      m.character.value.id in t.nodes
      && EditReply(s, m).character.value == t.nodes[m.character.value.id]
      && !EditReply(s, m).character.value.visible
  {
    if m.kind == "delete" {
      ServerState.DeleteEffect(s, m.character.value.id);
      assert ServerState.Apply(s, m) == ServerState.Delete(s, m.character.value.id);
    }
  }

  /** The messages `handleSyncRequest` returns for a list of characters. */
  function SyncMessages(chars: seq<CharNode>): (msgs: seq<Message>)
    ensures |msgs| == |chars|
    ensures forall i :: 0 <= i < |chars| ==> msgs[i] == SingleMessage("insert", Some(chars[i]))
  {
    if chars == [] then [] else [SingleMessage("insert", Some(chars[0]))] + SyncMessages(chars[1..])
  }

  /** The switch `handleEdit` runs while holding the document's lock: an
      insert or a delete applied to the document, and the reply it yields. */
  method ApplyEdit(document: ServerDocument.Document, incoming: Message) returns (reply: Message)
    requires document.Valid()
    requires incoming.kind == "insert" || incoming.kind == "delete" ==> incoming.character.Some?
    modifies document
    ensures document.Valid()
    ensures document.State() == ServerState.Apply(old(document.State()), incoming)
    ensures reply == EditReply(old(document.State()), incoming)
  {
    if incoming.kind == "insert" {
      var inserted := document.Insert(incoming.character.value);
      reply := SingleMessage("insert", Some(inserted));
    } else if incoming.kind == "delete" {
      var deleted := document.Delete(incoming.character.value.id);
      if deleted.Some? {
        reply := SingleMessage("delete", deleted);
      } else {
        reply := SingleMessage("error", None);
      }
    } else {
      reply := SingleMessage("error", None);
    }
  }

  class MessageController {
    const documentService: DocumentService
    const userSessionService: UserSessionService

    ghost predicate Valid()
      reads this, documentService, documentService.documents.Values, userSessionService
    {
      documentService.Valid() && userSessionService.Valid()
    }

    constructor(documentService: DocumentService, userSessionService: UserSessionService)
      requires documentService.Valid() && userSessionService.Valid()
      ensures Valid()
      ensures this.documentService == documentService && this.userSessionService == userSessionService
    {
      this.documentService := documentService;
      this.userSessionService := userSessionService;
    }

    /** `handleEdit(incoming, docId)`: the document of that id, created on
        demand, takes the edit, and the reply says what happened. */
    method HandleEdit(incoming: Message, docId: string) returns (reply: Message)
      requires Valid()
      requires incoming.kind == "insert" || incoming.kind == "delete" ==> incoming.character.Some?
      modifies documentService
      modifies if docId in documentService.documents then {documentService.documents[docId]} else {}
      ensures Valid() && RegisteredOnDemand(old(documentService.documents), documentService.documents, docId)
      ensures forall id :: id in old(documentService.documents) && id != docId ==>
        documentService.documents[id].State() == old(documentService.documents[id].State())
      ensures
        var before := if docId in old(documentService.documents) then old(documentService.documents[docId].State()) else ServerState.Fresh;
        && documentService.documents[docId].State() == ServerState.Apply(before, incoming)
        && reply == EditReply(before, incoming)
    {
      ghost var before := documentService.documents;
      var document := documentService.GetDocument(docId);
      ghost var mid := documentService.documents;
      assert RegisteredOnDemand(before, mid, docId);
      reply := EditRegistered(docId, incoming);
      assert documentService.documents == mid;
    }

    /** The locked part of `handleEdit`, on the document registered under
        `docId`: it takes the edit and every other document is left alone. */
    method EditRegistered(docId: string, incoming: Message) returns (reply: Message)
      requires Valid() && docId in documentService.documents
      requires incoming.kind == "insert" || incoming.kind == "delete" ==> incoming.character.Some?
      modifies documentService.documents[docId]
      ensures Valid()
      ensures documentService.documents[docId].State() == ServerState.Apply(old(documentService.documents[docId].State()), incoming)
      ensures reply == EditReply(old(documentService.documents[docId].State()), incoming)
      ensures forall id :: id in documentService.documents && id != docId ==>
        documentService.documents[id].State() == old(documentService.documents[id].State())
    {
      var docs := documentService.documents;
      var document := docs[docId];
      reply := ApplyEdit(document, incoming);
      // Every other id holds another document, which the edit leaves alone.
      forall id | id in docs && id != docId
        ensures docs[id].State() == old(docs[id].State()) && docs[id].Valid()
      {
        assert docs[id] != document;
        assert old(docs[id].Valid());
      }
      forall d | d in docs.Values
        ensures d.Valid()
      {
        var id :| id in docs && docs[id] == d;
        assert id == docId || d != document;
      }
    }

    /** `handleSyncRequest(docId)`: one insert message per character of the
        document, tombstones included, in pre-order. */
    method HandleSyncRequest(docId: string) returns (msgs: seq<Message>)
      requires Valid()
      modifies documentService
      ensures Valid() && RegisteredOnDemand(old(documentService.documents), documentService.documents, docId)
      ensures docId in old(documentService.documents) ==>
        documentService.documents[docId].State() == old(documentService.documents[docId].State())
      ensures docId !in old(documentService.documents) ==>
        documentService.documents[docId].State() == ServerState.Fresh
      ensures var doc := documentService.documents[docId];
        && |msgs| == |Linearize(doc.tree)|
        && forall i :: 0 <= i < |msgs| ==>
          Linearize(doc.tree)[i] in doc.nodes
          && msgs[i] == SingleMessage("insert", Some(doc.nodes[Linearize(doc.tree)[i]]))
          && msgs[i].character.value.id == Linearize(doc.tree)[i]
    {
      var document := documentService.GetDocument(docId);
      var chars := document.GetAllCharacters();
      msgs := SyncMessages(chars);
    }

    /** `handleCreate(docId)` */
    method HandleCreate(docId: string)
      requires Valid()
      modifies documentService
      ensures Valid() && RegisteredOnDemand(old(documentService.documents), documentService.documents, docId)
      ensures docId in old(documentService.documents) ==>
        documentService.documents[docId].State() == old(documentService.documents[docId].State())
      ensures docId !in old(documentService.documents) ==>
        documentService.documents[docId].State() == ServerState.Fresh
    {
      var _ := documentService.GetDocument(docId);
    }

    /** `handleExistCheck(docId)` */
    method HandleExistCheck(docId: string) returns (r: bool)
      ensures r <==> docId in documentService.documents
    {
      r := documentService.Exists(docId);
    }

    /** `handleJoin(docId, username)`: returns the user list it broadcasts,
        which names the new user. */
    method HandleJoin(docId: string, username: string) returns (users: set<string>)
      requires Valid()
      modifies userSessionService
      ensures Valid()
      ensures userSessionService.documentUsers == WithUser(old(userSessionService.documentUsers), docId, username)
      ensures users == Users(userSessionService.documentUsers, docId) && username in users
    {
      userSessionService.AddUser(docId, username);
      users := userSessionService.GetUsers(docId);
    }

    /** `handleLeave(docId, username)`: returns the user list it broadcasts,
        which no longer names the user. */
    method HandleLeave(docId: string, username: string) returns (users: set<string>)
      requires Valid()
      modifies userSessionService
      ensures Valid()
      ensures userSessionService.documentUsers == WithoutUser(old(userSessionService.documentUsers), docId, username)
      ensures users == Users(userSessionService.documentUsers, docId) && username !in users
    {
      userSessionService.RemoveUser(docId, username);
      users := userSessionService.GetUsers(docId);
    }
  }
}
