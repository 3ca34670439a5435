/**
 * The parts of frontend/src/components/Presentation.js that decide what a
 * client sends and shows: the role it derives from the last member list, the
 * `img:` encoding of image content, the elements its buttons and gestures
 * send, and the role-change requests its member list offers.
 */
module Client {
  import opened Wrappers
  import opened Members
  import opened Deck

  /** `users[socket.id]?.role || "viewer"`. */
  function MyRole(users: Users, me: ConnId): (r: Role)
    ensures !Has(users, me) ==> r == VIEWER
    ensures r != ""
  {
    match RoleOf(users, me)
    case Some(role) => if role != "" then role else VIEWER
    case None => VIEWER
  }

  predicate IsCreator(role: Role) {
    role == CREATOR
  }

  predicate IsEditor(role: Role) {
    IsCreator(role) || role == EDITOR
  }

  /**
   * A creator is an editor, and the client offers editing exactly when the
   * server's element gate would accept this connection on the same member list.
   */
  lemma EditorViewMatchesServer(users: Users, me: ConnId)
    ensures IsCreator(MyRole(users, me)) ==> IsEditor(MyRole(users, me))
    ensures IsEditor(MyRole(users, me)) <==> MyRole(users, me) == CREATOR || MyRole(users, me) == EDITOR
    ensures IsEditor(MyRole(users, me)) <==> CanEditElements(users, me)
  {
  }

  /**
   * While the server's invariants hold, the client offers slide management
   * exactly when the server's slide gate (`creatorId`) would accept it.
   */
  lemma CreatorViewMatchesServer(ms: Membership, me: ConnId)
    requires ms.CreatorConsistent() && ms.UniqueCreator()
    ensures IsCreator(MyRole(ms.users, me)) <==> CanManageSlides(ms.creatorId, me)
  {
    if ms.creatorId == Some(me) {
      assert RoleOf(ms.users, me) == Some(CREATOR);
    }
  }

  /**
   * After a creator gives another member the role creator, that member's
   * client shows the slide buttons, but the server's slide gate refuses it.
   */
  lemma CreatorViewCanDisagree()
    ensures var ms0 := Membership(Some("a"), [("a", Member("Ann", CREATOR)), ("b", Member("Bob", VIEWER))]);
      var ms := UpdateRole(ms0, "a", "b", CREATOR);
      && ms0.CreatorConsistent() && ms0.UniqueCreator()
      && ms.CreatorConsistent()
      && IsCreator(MyRole(ms.users, "b"))
      && !CanManageSlides(ms.creatorId, "b")
  {
    var ms0 := Membership(Some("a"), [("a", Member("Ann", CREATOR)), ("b", Member("Bob", VIEWER))]);
    PromotionMakesSecondCreator();
    UpdateRolePreservesInvariants(ms0, "a", "b", CREATOR);
    UpdateRoleSpec(ms0, "a", "b", CREATOR);
  }

  const IMAGE_PREFIX: string := "img:"

  /** `"img:" + url`: the content an image block is sent with. */
  function ImageContent(url: string): string {
    IMAGE_PREFIX + url
  }

  /** `typeof el.content === "string" ? el.content : ""`. */
  function ContentText(c: Content): string {
    if c.Str? then c.text else ""
  }

  /** How an element is shown: an image with its URL, or its text as Markdown. */
  datatype View = Image(url: string) | Markdown(text: string)

  /** `isImage = content.startsWith("img:")` and `imageUrl = content.slice(4)`, 4 being the prefix length. */
  function Decode(c: Content): View {
    var content := ContentText(c);
    if |content| >= |IMAGE_PREFIX| && content[..|IMAGE_PREFIX|] == IMAGE_PREFIX then Image(content[|IMAGE_PREFIX|..])
    else Markdown(content)
  }

  /** Image content decodes back to the URL it was built from. */
  lemma DecodeImageContent(url: string)
    ensures Decode(Str(ImageContent(url))) == Image(url)
  {
    assert ImageContent(url)[..|IMAGE_PREFIX|] == IMAGE_PREFIX;
    assert ImageContent(url)[|IMAGE_PREFIX|..] == url;
  }

  /**
   * A string decodes as an image exactly when it is some URL's image content,
   * and then encoding the decoded URL gives the string back; any other string
   * is shown as itself.
   */
  lemma DecodeString(s: string)
    ensures Decode(Str(s)).Image? ==> ImageContent(Decode(Str(s)).url) == s
    ensures Decode(Str(s)).Markdown? ==> Decode(Str(s)) == Markdown(s)
    ensures Decode(Str(s)).Image? <==> exists url :: ImageContent(url) == s
  {
    if Decode(Str(s)).Image? {
      assert ImageContent(s[|IMAGE_PREFIX|..]) == s[..|IMAGE_PREFIX|] + s[|IMAGE_PREFIX|..] == s;
    } else {
      forall url ensures ImageContent(url) != s {
        DecodeImageContent(url);
      }
    }
  }

  /** Content that is not a string is shown as empty Markdown text, never as an image. */
  lemma NonStringContentIsText(c: Content)
    requires !c.Str?
    ensures Decode(c) == Markdown("")
  {
  }

  /** `handleAddTextBlock`: a cancelled or empty prompt sends nothing; the block has no id. */
  function TextBlock(answer: Option<string>): Option<Element> {
    if answer.None? || answer.value == "" then None
    else Some(Element(None, Str(answer.value), 50.0, 50.0))
  }

  /** `handleAddImageBlock`: a cancelled or empty prompt sends nothing; the block has no id. */
  function ImageBlock(answer: Option<string>): Option<Element> {
    if answer.None? || answer.value == "" then None
    else Some(Element(None, Str(ImageContent(answer.value)), 50.0, 50.0))
  }

  /** `handleElementDrag`: `{ ...el, x: newX, y: newY }`. */
  function Dragged(el: Element, x: Coord, y: Coord): Element {
    el.(x := x, y := y)
  }

  /** Double-click on an image: `{ ...el, content: "img:" + newUrl }` unless the prompt was cancelled. */
  function EditedImage(el: Element, answer: Option<string>): Option<Element> {
    if answer.None? then None else Some(el.(content := Str(ImageContent(answer.value))))
  }

  /** Double-click on text: `{ ...el, content: newText }` unless the prompt was cancelled. */
  function EditedText(el: Element, answer: Option<string>): Option<Element> {
    if answer.None? then None else Some(el.(content := Str(answer.value)))
  }

  /**
   * New text and image blocks take the server's insert path: stored after the
   * existing elements under the fresh id, with the content as typed, so an
   * image block reads back as its URL.
   */
  lemma NewBlocksAreInserted(els: seq<Element>, answer: Option<string>, freshId: Uuid)
    ensures TextBlock(answer).Some? ==>
      Upsert(els, TextBlock(answer).value, freshId) == els + [TextBlock(answer).value.(id := Some(freshId))]
    ensures ImageBlock(answer).Some? ==>
      && Upsert(els, ImageBlock(answer).value, freshId) == els + [ImageBlock(answer).value.(id := Some(freshId))]
      && Decode(Upsert(els, ImageBlock(answer).value, freshId)[|els|].content) == Image(answer.value)
  {
    if ImageBlock(answer).Some? {
      DecodeImageContent(answer.value);
    }
  }

  /** With unique ids in the slide, an element's own id finds that element. */
  lemma FindOwnElement(els: seq<Element>, i: nat)
    requires ValidElements(els) && i < |els|
    ensures FindElement(els, els[i].id) == Some(i)
  {
  }

  /**
   * A drag spreads the element it starts from, so it keeps its id and takes
   * the server's replace path: the element is overwritten in place with the
   * new coordinates.
   */
  lemma DragReplacesInPlace(els: seq<Element>, i: nat, x: Coord, y: Coord, freshId: Uuid)
    requires ValidElements(els) && i < |els|
    ensures Upsert(els, Dragged(els[i], x, y), freshId) == els[i := Dragged(els[i], x, y)]
  {
    FindOwnElement(els, i);
  }

  /**
   * An edit of an image URL or of a text spreads the element too, so it keeps
   * its id and overwrites that element in place with the new content.
   */
  lemma EditsReplaceInPlace(els: seq<Element>, i: nat, answer: Option<string>, freshId: Uuid)
    requires ValidElements(els) && i < |els|
    ensures EditedImage(els[i], answer).Some? ==>
      Upsert(els, EditedImage(els[i], answer).value, freshId) == els[i := EditedImage(els[i], answer).value]
    ensures EditedText(els[i], answer).Some? ==>
      Upsert(els, EditedText(els[i], answer).value, freshId) == els[i := EditedText(els[i], answer).value]
  {
    FindOwnElement(els, i);
  }

  /** The Editor and Viewer buttons of the member list, for every listed member other than me. */
  function RoleButtons(entries: Users, me: ConnId): (reqs: seq<(ConnId, Role)>)
    ensures forall q :: q in reqs ==> (q.1 == EDITOR || q.1 == VIEWER) && q.0 != me && q.0 in Keys(entries)
  {
    if entries == [] then []
    else
      var here := if entries[0].0 != me then [(entries[0].0, EDITOR), (entries[0].0, VIEWER)] else [];
      KeysCons(entries[0], entries[1..]);
      assert entries == [entries[0]] + entries[1..];
      here + RoleButtons(entries[1..], me)
  }

  /** The role-change requests a client can send: the buttons, which only a creator is shown. */
  function RoleRequests(users: Users, me: ConnId): (reqs: seq<(ConnId, Role)>)
    ensures !IsCreator(MyRole(users, me)) ==> reqs == []
    ensures forall q :: q in reqs ==> (q.1 == EDITOR || q.1 == VIEWER) && q.0 != me && q.0 in Keys(users)
  {
    if IsCreator(MyRole(users, me)) then RoleButtons(users, me) else []
  }

  /** Every role change the client can request keeps a single creator on the server. */
  lemma RoleRequestsKeepUniqueCreator(listed: Users, ms: Membership, me: ConnId, q: (ConnId, Role))
    requires q in RoleRequests(listed, me)
    requires DistinctKeys(ms.users) && ms.CreatorConsistent() && ms.UniqueCreator()
    ensures UpdateRole(ms, me, q.0, q.1).CreatorConsistent() && UpdateRole(ms, me, q.0, q.1).UniqueCreator()
  {
    UpdateRolePreservesInvariants(ms, me, q.0, q.1);
  }
}
