/**
 * The socket.io handlers of backend/index.js over one in-memory presentation.
 * `Presentation` is the loaded document that each handler mutates in place;
 * `Connection` is one socket with its per-connection `currentPresentationId`,
 * and each of its methods is one handler, atomic, returning the messages it
 * emits.
 */
module Server {
  import opened Wrappers
  import opened Members
  import opened Deck

  /** The whole document, as `presentation-data` sends it. */
  datatype Document = Document(id: string, name: string, slides: seq<Slide>, creatorId: Option<ConnId>, users: Users)

  datatype Message =
    | ErrorMessage(text: string)
    | PresentationData(doc: Document)
    | UpdateUserList(users: Users)

  /** `socket.emit` reaches the requesting connection only; `io.to(id).emit` reaches the whole room. */
  datatype Emit = ToSocket(msg: Message) | ToRoom(msg: Message)

  class Presentation {
    const id: Uuid
    const name: string
    var slides: seq<Slide>
    var creatorId: Option<ConnId>
    var users: Users

    /** `users` is a Map, slide ids are unique, element ids are unique and truthy per slide. */
    ghost predicate Valid()
      reads this
    {
      DistinctKeys(users) && ValidSlides(slides)
    }

    function Roster(): Membership
      reads this
    {
      Membership(creatorId, users)
    }

    function Snapshot(): Document
      reads this
    {
      Document(id, name, slides, creatorId, users)
    }

    /** A new presentation: one slide with no elements, no creator, no members. */
    constructor (id: Uuid, name: string, firstSlideId: Uuid)
      ensures this.id == id && this.name == name
      ensures slides == [Slide(firstSlideId, [])] && |slides| == 1 && slides[0].elements == []
      ensures creatorId == None && users == []
      ensures Valid() && Roster().CreatorConsistent() && Roster().UniqueCreator()
    {
      this.id := id;
      this.name := name;
      slides := [Slide(firstSlideId, [])];
      creatorId := None;
      users := [];
    }
  }

  class Connection {
    const socketId: ConnId
    var currentPresentationId: Option<string>

    constructor (socketId: ConnId)
      ensures this.socketId == socketId && currentPresentationId == None
    {
      this.socketId := socketId;
      currentPresentationId := None;
    }

    /** The lookup at the head of every handler but join succeeds: the connection has joined `doc`. */
    predicate Resolves(doc: Presentation)
      reads this
    {
      currentPresentationId == Some(doc.id)
    }

    /**
     * `join-presentation`: an unknown id only emits an error to this socket;
     * otherwise the connection enters the room, becomes creator of a vacant
     * presentation or a viewer, and receives the document while the room
     * receives the member list.
     */
    method JoinPresentation(doc: Presentation, presentationId: string, nickname: string) returns (out: seq<Emit>)
      requires doc.Valid()
      modifies this, doc
      ensures doc.Valid() && doc.slides == old(doc.slides)
      ensures presentationId != doc.id ==>
        && currentPresentationId == old(currentPresentationId)
        && doc.Roster() == old(doc.Roster())
        && out == [ToSocket(ErrorMessage("Presentation not found"))]
      ensures presentationId == doc.id ==>
        && currentPresentationId == Some(doc.id)
        && doc.Roster() == Join(old(doc.Roster()), socketId, nickname)
        && out == [ToSocket(PresentationData(doc.Snapshot())), ToRoom(UpdateUserList(doc.users))]
      ensures old(doc.Roster()).UniqueCreator() ==> doc.Roster().UniqueCreator()
      ensures old(doc.Roster()).CreatorConsistent() && old(doc.creatorId) != Some(socketId) ==>
        doc.Roster().CreatorConsistent()
    {
      if presentationId != doc.id {
        out := [ToSocket(ErrorMessage("Presentation not found"))];
        return;
      }
      currentPresentationId := Some(presentationId);
      JoinSpec(doc.Roster(), socketId, nickname);
      JoinPreservesInvariants(doc.Roster(), socketId, nickname);
      if doc.creatorId.None? && |doc.users| == 0 {
        doc.creatorId := Some(socketId);
        doc.users := SetUser(doc.users, socketId, Member(nickname, CREATOR));
      } else {
        doc.users := SetUser(doc.users, socketId, Member(nickname, VIEWER));
      }
      out := [ToSocket(PresentationData(doc.Snapshot())), ToRoom(UpdateUserList(doc.users))];
    }

    /**
     * `update-user-role`: only the creator may change a member's role, and not
     * its own to anything but creator; a rejected request changes and emits
     * nothing.
     */
    method UpdateUserRole(doc: Presentation, userSocketId: string, newRole: Role) returns (out: seq<Emit>)
      requires doc.Valid()
      modifies doc
      ensures doc.Valid() && doc.slides == old(doc.slides)
      ensures doc.Roster() ==
        if Resolves(doc) then UpdateRole(old(doc.Roster()), socketId, userSocketId, newRole) else old(doc.Roster())
      ensures out ==
        if Resolves(doc) && RoleChangeAllowed(old(doc.Roster()), socketId, userSocketId, newRole)
        then [ToRoom(UpdateUserList(doc.users))] else []
      ensures old(doc.Roster()).CreatorConsistent() ==> doc.Roster().CreatorConsistent()
      ensures old(doc.Roster()).UniqueCreator() && newRole != CREATOR ==> doc.Roster().UniqueCreator()
    {
      out := [];
      if currentPresentationId.None? { return; }
      if currentPresentationId.value != doc.id { return; }
      UpdateRoleSpec(doc.Roster(), socketId, userSocketId, newRole);
      UpdateRolePreservesInvariants(doc.Roster(), socketId, userSocketId, newRole);
      if doc.creatorId != Some(socketId) { return; }
      if !Has(doc.users, userSocketId) { return; }
      if doc.creatorId.value == userSocketId && newRole != CREATOR { return; }
      var userData := Get(doc.users, userSocketId).value;
      userData := userData.(role := newRole);
      doc.users := SetUser(doc.users, userSocketId, userData);
      out := [ToRoom(UpdateUserList(doc.users))];
    }

    /** `add-slide`: the creator appends a slide with a fresh id and no elements. */
    method AddSlide(doc: Presentation, freshId: Uuid) returns (out: seq<Emit>)
      requires doc.Valid() && FreshIn(doc.slides, freshId)
      modifies doc
      ensures doc.Valid() && doc.Roster() == old(doc.Roster())
      ensures doc.slides ==
        if Resolves(doc) && CanManageSlides(doc.creatorId, socketId)
        then old(doc.slides) + [Slide(freshId, [])] else old(doc.slides)
      ensures out ==
        if Resolves(doc) && CanManageSlides(doc.creatorId, socketId)
        then [ToRoom(PresentationData(doc.Snapshot()))] else []
    {
      out := [];
      if currentPresentationId.None? { return; }
      if currentPresentationId.value != doc.id { return; }
      if doc.creatorId != Some(socketId) { return; }
      AddSlidePreservesValid(doc.slides, freshId);
      doc.slides := doc.slides + [Slide(freshId, [])];
      out := [ToRoom(PresentationData(doc.Snapshot()))];
    }

    /** `remove-slide`: the creator removes every slide with the id, even the last one. */
    method RemoveSlide(doc: Presentation, slideId: string) returns (out: seq<Emit>)
      requires doc.Valid()
      modifies doc
      ensures doc.Valid() && doc.Roster() == old(doc.Roster())
      ensures doc.slides ==
        if Resolves(doc) && CanManageSlides(doc.creatorId, socketId)
        then Deck.RemoveSlide(old(doc.slides), slideId) else old(doc.slides)
      ensures out ==
        if Resolves(doc) && CanManageSlides(doc.creatorId, socketId)
        then [ToRoom(PresentationData(doc.Snapshot()))] else []
    {
      out := [];
      if currentPresentationId.None? { return; }
      if currentPresentationId.value != doc.id { return; }
      if doc.creatorId != Some(socketId) { return; }
      RemoveSlidePreservesValid(doc.slides, slideId);
      doc.slides := Deck.RemoveSlide(doc.slides, slideId);
      out := [ToRoom(PresentationData(doc.Snapshot()))];
    }

    /**
     * `update-element`: a creator or editor inserts, replaces or appends an
     * element of the first slide with the id; only that slide changes.
     */
    method UpdateElement(doc: Presentation, slideId: string, element: Element, freshId: Uuid) returns (out: seq<Emit>)
      requires doc.Valid() && FreshIn(doc.slides, freshId)
      modifies doc
      ensures doc.Valid() && doc.Roster() == old(doc.Roster())
      ensures var found := FindSlide(old(doc.slides), slideId);
        var accepted := Resolves(doc) && CanEditElements(doc.users, socketId) && found.Some?;
        && doc.slides ==
             (if accepted
              then old(doc.slides)[found.value :=
                     old(doc.slides)[found.value].(elements := Upsert(old(doc.slides)[found.value].elements, element, freshId))]
              else old(doc.slides))
        && out == (if accepted then [ToRoom(PresentationData(doc.Snapshot()))] else [])
    {
      out := [];
      if currentPresentationId.None? { return; }
      if currentPresentationId.value != doc.id { return; }
      var myRole := RoleOf(doc.users, socketId);
      if myRole != Some(CREATOR) && myRole != Some(EDITOR) { return; }
      var found := FindSlide(doc.slides, slideId);
      if found.None? { return; }
      var i := found.value;
      var slide := doc.slides[i];
      var elements := slide.elements;
      var e := element;
      if !Truthy(e.id) {
        e := e.(id := Some(freshId));
        if e.content == Missing {
          e := e.(content := Str(""));
        }
        elements := elements + [e];
      } else {
        var idx := FindElement(elements, e.id);
        if idx.Some? {
          elements := elements[idx.value := e];
        } else {
          elements := elements + [e];
        }
      }
      assert elements == Upsert(slide.elements, element, freshId);
      UpsertPreservesValid(slide.elements, element, freshId);
      doc.slides := doc.slides[i := slide.(elements := elements)];
      out := [ToRoom(PresentationData(doc.Snapshot()))];
    }

    /** `remove-shape`: a creator or editor removes the elements with the id from the first slide with the id. */
    method RemoveShape(doc: Presentation, slideId: string, shapeId: Option<string>) returns (out: seq<Emit>)
      requires doc.Valid()
      modifies doc
      ensures doc.Valid() && doc.Roster() == old(doc.Roster())
      ensures var found := FindSlide(old(doc.slides), slideId);
        var accepted := Resolves(doc) && CanEditElements(doc.users, socketId) && found.Some?;
        && doc.slides ==
             (if accepted
              then old(doc.slides)[found.value :=
                     old(doc.slides)[found.value].(elements := RemoveElement(old(doc.slides)[found.value].elements, shapeId))]
              else old(doc.slides))
        && out == (if accepted then [ToRoom(PresentationData(doc.Snapshot()))] else [])
    {
      out := [];
      if currentPresentationId.None? { return; }
      if currentPresentationId.value != doc.id { return; }
      var myRole := RoleOf(doc.users, socketId);
      if myRole != Some(CREATOR) && myRole != Some(EDITOR) { return; }
      var found := FindSlide(doc.slides, slideId);
      if found.None? { return; }
      var i := found.value;
      var slide := doc.slides[i];
      RemoveElementPreservesValid(slide.elements, shapeId);
      doc.slides := doc.slides[i := slide.(elements := RemoveElement(slide.elements, shapeId))];
      out := [ToRoom(PresentationData(doc.Snapshot()))];
    }

    /**
     * `disconnect`: a member is deleted; if it was the creator, the first
     * remaining key becomes creator, or `creatorId` is cleared when nobody
     * remains. The room receives the member list.
     */
    method Disconnect(doc: Presentation) returns (out: seq<Emit>)
      requires doc.Valid()
      modifies doc
      ensures doc.Valid() && doc.slides == old(doc.slides)
      ensures doc.Roster() ==
        if Resolves(doc) && Has(old(doc.users), socketId) then Leave(old(doc.Roster()), socketId) else old(doc.Roster())
      ensures out ==
        if Resolves(doc) && Has(old(doc.users), socketId) then [ToRoom(UpdateUserList(doc.users))] else []
      ensures old(doc.Roster()).CreatorConsistent() ==> doc.Roster().CreatorConsistent()
      ensures old(doc.Roster()).CreatorConsistent() && old(doc.Roster()).UniqueCreator() ==> doc.Roster().UniqueCreator()
    {
      out := [];
      if currentPresentationId.None? { return; }
      if currentPresentationId.value != doc.id { return; }
      if !Has(doc.users, socketId) { return; }
      LeaveSpec(doc.Roster(), socketId);
      LeavePreservesInvariants(doc.Roster(), socketId);
      doc.users := DeleteUser(doc.users, socketId);
      if doc.creatorId == Some(socketId) {
        var remaining := Keys(doc.users);
        if |remaining| > 0 {
          var newCreatorSocketId := remaining[0];
          doc.creatorId := Some(newCreatorSocketId);
          var newCreatorData := Get(doc.users, newCreatorSocketId).value;
          newCreatorData := newCreatorData.(role := CREATOR);
          doc.users := SetUser(doc.users, newCreatorSocketId, newCreatorData);
        } else {
          doc.creatorId := None;
        }
      }
      out := [ToRoom(UpdateUserList(doc.users))];
    }
  }

  /**
   * A session through the handlers: Ann creates and fills a deck; the session
   * goes on in DemoViewerJoins and DemoEditAndHandover.
   */
  method DemoSession() {
    var doc := new Presentation("p1", "Demo", "s1");
    var ann := new Connection("a");
    var bob := new Connection("b");

    ghost var before := doc.Roster();
    var out := ann.JoinPresentation(doc, "p1", "Ann");
    JoinSpec(before, "a", "Ann");
    assert doc.creatorId == Some("a") && Keys(doc.users) == ["a"];

    out := ann.AddSlide(doc, "s2");
    assert doc.slides == [Slide("s1", []), Slide("s2", [])];

    DemoViewerJoins(doc, ann, bob);
  }

  /** Bob joins as viewer and is refused a slide; Ann makes Bob an editor. */
  method DemoViewerJoins(doc: Presentation, ann: Connection, bob: Connection)
    requires doc.Valid() && doc.id == "p1" && doc.slides == [Slide("s1", []), Slide("s2", [])]
    requires ann.socketId == "a" && ann.Resolves(doc) && bob.socketId == "b" && bob.currentPresentationId == None
    requires doc.creatorId == Some("a") && Keys(doc.users) == ["a"]
    requires ann != bob
    modifies doc, bob
  {
    ghost var before := doc.Roster();
    var out := bob.JoinPresentation(doc, "p1", "Bob");
    GetAt(before.users, "b");
    assert !before.Vacant() && !Has(before.users, "b");
    JoinSpec(before, "b", "Bob");
    assert RoleOf(doc.users, "b") == Some(VIEWER) && Keys(doc.users) == ["a", "b"];

    out := bob.AddSlide(doc, "s3");
    assert doc.slides == [Slide("s1", []), Slide("s2", [])] && out == [];

    before := doc.Roster();
    out := ann.UpdateUserRole(doc, "b", EDITOR);
    UpdateRoleSpec(before, "a", "b", EDITOR);
    assert RoleOf(doc.users, "b") == Some(EDITOR);

    DemoEditAndHandover(doc, ann, bob);
  }

  /** Bob, now an editor, adds a text block to the first slide; when Ann leaves, Bob inherits the deck. */
  method DemoEditAndHandover(doc: Presentation, ann: Connection, bob: Connection)
    requires doc.Valid() && doc.slides == [Slide("s1", []), Slide("s2", [])]
    requires ann.socketId == "a" && ann.Resolves(doc) && bob.socketId == "b" && bob.Resolves(doc)
    requires doc.creatorId == Some("a") && Keys(doc.users) == ["a", "b"] && RoleOf(doc.users, "b") == Some(EDITOR)
    modifies doc
  {
    var text := Element(None, Str("Hello"), 50.0, 50.0);
    assert FindSlide(doc.slides, "s1") == Some(0);
    var out := bob.UpdateElement(doc, "s1", text, "e1");
    UpsertSpec([], text, "e1");
    assert |doc.slides[0].elements| == 1;

    ghost var before := doc.Roster();
    assert before.users[0].0 == "a" && before.users[1].0 == "b";
    GetAt(before.users, "a");
    out := ann.Disconnect(doc);
    LeaveHandover(before, "a");
    assert doc.creatorId == Some("b") && RoleOf(doc.users, "b") == Some(CREATOR);
  }
}
