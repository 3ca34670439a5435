/**
 * The slide deck of a presentation: slides in order, each holding positioned
 * elements, and the slide and element mutations of the `add-slide`,
 * `remove-slide`, `update-element` and `remove-shape` handlers of
 * backend/index.js (`slides.find`, `slides.filter`, `elements.findIndex`,
 * `elements.push`, `elements[idx] = element` and `elements.filter`).
 */
module Deck {
  import opened Wrappers
  import opened Seqs

  /** An id produced by `uuidv4()`; such an id is never empty. */
  type Uuid = s: string | s != "" witness "uuid"

  /** An element's `content` as JavaScript holds it: undefined, a string, or any other value. */
  datatype Content = Missing | Str(text: string) | NotAString

  /** Coordinates are copied through unchanged; the model treats them as opaque numbers. */
  type Coord = real

  datatype Element = Element(id: Option<string>, content: Content, x: Coord, y: Coord)

  datatype Slide = Slide(id: string, elements: seq<Element>)

  /** JavaScript truthiness of an element id: present and not the empty string. */
  predicate Truthy(id: Option<string>) {
    id.Some? && id.value != ""
  }

  /** Every element of a slide has a truthy id, and no two share one. */
  predicate ValidElements(els: seq<Element>) {
    && (forall i :: 0 <= i < |els| ==> Truthy(els[i].id))
    && (forall i, j :: 0 <= i < j < |els| ==> els[i].id != els[j].id)
  }

  predicate DistinctSlideIds(slides: seq<Slide>) {
    forall i, j :: 0 <= i < j < |slides| ==> slides[i].id != slides[j].id
  }

  /** Slide ids are unique in the deck and element ids are unique and truthy in each slide. */
  predicate ValidSlides(slides: seq<Slide>) {
    && DistinctSlideIds(slides)
    && (forall i :: 0 <= i < |slides| ==> ValidElements(slides[i].elements))
  }

  /** A `uuidv4()` result is new: no slide and no element of the deck carries it yet. */
  predicate FreshIn(slides: seq<Slide>, freshId: string) {
    forall i :: 0 <= i < |slides| ==>
      && slides[i].id != freshId
      && (forall j :: 0 <= j < |slides[i].elements| ==> slides[i].elements[j].id != Some(freshId))
  }

  /** `slides.find((s) => s.id === id)`, as the index of the slide found. */
  function FindSlide(slides: seq<Slide>, id: string): (r: Option<nat>)
    ensures r.None? <==> forall j :: 0 <= j < |slides| ==> slides[j].id != id
    ensures r.Some? ==> r.value < |slides| && slides[r.value].id == id
    ensures r.Some? ==> forall j :: 0 <= j < r.value ==> slides[j].id != id
  {
    if slides == [] then None
    else if slides[0].id == id then Some(0)
    else
      match FindSlide(slides[1..], id)
      case None => None
      case Some(i) => Some(i + 1)
  }

  /** `slides.filter((s) => s.id !== id)`. */
  function RemoveSlide(slides: seq<Slide>, id: string): (r: seq<Slide>)
    ensures forall s :: s in r <==> s in slides && s.id != id
    ensures (forall j :: 0 <= j < |slides| ==> slides[j].id != id) ==> r == slides
  {
    if slides == [] then []
    else if slides[0].id == id then RemoveSlide(slides[1..], id)
    else [slides[0]] + RemoveSlide(slides[1..], id)
  }

  /** With unique slide ids, removing the id of slide `i` drops exactly that slide and keeps the rest in order. */
  lemma {:induction false} RemoveSlideAt(slides: seq<Slide>, i: nat)
    requires DistinctSlideIds(slides) && i < |slides|
    ensures RemoveSlide(slides, slides[i].id) == slides[..i] + slides[i + 1..]
  {
    var id := slides[i].id;
    var tail := slides[1..];
    if i == 0 {
      forall j | 0 <= j < |tail| ensures tail[j].id != id {
        assert tail[j] == slides[j + 1];
      }
    } else {
      assert DistinctSlideIds(tail) by {
        forall a, b | 0 <= a < b < |tail| ensures tail[a].id != tail[b].id {
          assert tail[a] == slides[a + 1] && tail[b] == slides[b + 1];
        }
      }
      assert tail[i - 1] == slides[i];
      RemoveSlideAt(tail, i - 1);
      assert slides[0].id != id;
      DropCons(slides, i);
    }
  }

  /** `remove-slide` keeps the deck well formed, whether or not a slide matches. */
  lemma RemoveSlidePreservesValid(slides: seq<Slide>, id: string)
    requires ValidSlides(slides)
    ensures ValidSlides(RemoveSlide(slides, id))
  {
    match FindSlide(slides, id)
    case None =>
    case Some(i) =>
      RemoveSlideAt(slides, i);
      var r := slides[..i] + slides[i + 1..];
      forall a | 0 <= a < |r| ensures r[a] == slides[if a < i then a else a + 1] {
        DropAt(slides, i, a);
      }
  }

  /** Appending a slide with a fresh id and no elements keeps the deck well formed. */
  lemma AddSlidePreservesValid(slides: seq<Slide>, freshId: Uuid)
    requires ValidSlides(slides) && FreshIn(slides, freshId)
    ensures ValidSlides(slides + [Slide(freshId, [])])
  {
  }

  /** `elements.findIndex((el) => el.id === id)`, or None for -1. */
  function FindElement(els: seq<Element>, id: Option<string>): (r: Option<nat>)
    ensures r.None? <==> forall j :: 0 <= j < |els| ==> els[j].id != id
    ensures r.Some? ==> r.value < |els| && els[r.value].id == id
    ensures r.Some? ==> forall j :: 0 <= j < r.value ==> els[j].id != id
  {
    if els == [] then None
    else if els[0].id == id then Some(0)
    else
      match FindElement(els[1..], id)
      case None => None
      case Some(i) => Some(i + 1)
  }

  /** `elements.filter((el) => el.id !== id)`. */
  function RemoveElement(els: seq<Element>, id: Option<string>): (r: seq<Element>)
    ensures forall e :: e in r <==> e in els && e.id != id
    ensures (forall j :: 0 <= j < |els| ==> els[j].id != id) ==> r == els
  {
    if els == [] then []
    else if els[0].id == id then RemoveElement(els[1..], id)
    else [els[0]] + RemoveElement(els[1..], id)
  }

  /** With unique element ids, removing the id of element `i` drops exactly that element and keeps the rest in order. */
  lemma {:induction false} RemoveElementAt(els: seq<Element>, i: nat)
    requires ValidElements(els) && i < |els|
    ensures RemoveElement(els, els[i].id) == els[..i] + els[i + 1..]
  {
    var id := els[i].id;
    var tail := els[1..];
    if i == 0 {
      forall j | 0 <= j < |tail| ensures tail[j].id != id {
        assert tail[j] == els[j + 1];
      }
    } else {
      assert ValidElements(tail) by {
        forall a | 0 <= a < |tail| ensures Truthy(tail[a].id) {
          assert tail[a] == els[a + 1];
        }
        forall a, b | 0 <= a < b < |tail| ensures tail[a].id != tail[b].id {
          assert tail[a] == els[a + 1] && tail[b] == els[b + 1];
        }
      }
      assert tail[i - 1] == els[i];
      RemoveElementAt(tail, i - 1);
      assert els[0].id != id;
      DropCons(els, i);
    }
  }

  /**
   * `remove-shape` on a found slide: afterwards no element carries the id; a
   * matching element disappears and the others stay in order, and nothing
   * changes when no element matches.
   */
  lemma RemoveElementSpec(els: seq<Element>, id: Option<string>)
    requires ValidElements(els)
    ensures FindElement(RemoveElement(els, id), id).None?
    ensures FindElement(els, id).None? ==> RemoveElement(els, id) == els
    ensures FindElement(els, id).Some? ==>
      var i := FindElement(els, id).value;
      RemoveElement(els, id) == els[..i] + els[i + 1..] && |RemoveElement(els, id)| == |els| - 1
  {
    var r := RemoveElement(els, id);
    forall j | 0 <= j < |r| ensures r[j].id != id {
      assert r[j] in r;
    }
    if FindElement(els, id).Some? {
      RemoveElementAt(els, FindElement(els, id).value);
    }
  }

  /** `remove-shape` keeps the slide's element ids unique and truthy. */
  lemma RemoveElementPreservesValid(els: seq<Element>, id: Option<string>)
    requires ValidElements(els)
    ensures ValidElements(RemoveElement(els, id))
  {
    match FindElement(els, id)
    case None =>
    case Some(i) =>
      RemoveElementAt(els, i);
      var r := els[..i] + els[i + 1..];
      forall a | 0 <= a < |r| ensures r[a] == els[if a < i then a else a + 1] {
        DropAt(els, i, a);
      }
  }

  /** The element stored by the insert path: a fresh id, and `""` for undefined content. */
  function Inserted(e: Element, freshId: Uuid): Element {
    var content := if e.content == Missing then Str("") else e.content;
    e.(id := Some(freshId), content := content)
  }

  /** `update-element` on a found slide: insert with a fresh id, replace in place, or append. */
  function Upsert(els: seq<Element>, e: Element, freshId: Uuid): seq<Element> {
    if !Truthy(e.id) then els + [Inserted(e, freshId)]
    else
      match FindElement(els, e.id)
      case Some(idx) => els[idx := e]
      case None => els + [e]
  }

  /**
   * An element sent without a truthy id is appended after the existing ones
   * with the fresh id, its content defaulted to `""` only when undefined and
   * its coordinates kept, so the count grows by exactly one. An element whose
   * id matches element `i` replaces element `i` wholesale and the count stays.
   * An element whose id matches nothing is appended as it is.
   */
  lemma UpsertSpec(els: seq<Element>, e: Element, freshId: Uuid)
    ensures var r := Upsert(els, e, freshId);
      && (!Truthy(e.id) ==>
            && |r| == |els| + 1 && r[..|els|] == els
            && r[|els|].id == Some(freshId)
            && r[|els|].content == (if e.content == Missing then Str("") else e.content)
            && r[|els|].x == e.x && r[|els|].y == e.y)
      && (Truthy(e.id) && FindElement(els, e.id).Some? ==>
            var i := FindElement(els, e.id).value;
            |r| == |els| && r[i] == e && forall j :: 0 <= j < |els| && j != i ==> r[j] == els[j])
      && (Truthy(e.id) && FindElement(els, e.id).None? ==> r == els + [e])
  {
    var r := Upsert(els, e, freshId);
    if !Truthy(e.id) {
      assert r[..|els|] == els;
    }
  }

  /**
   * Reading back after `update-element`: looking up the id the element was
   * stored under finds exactly the element written (with the fresh id and the
   * defaulted content on the insert path), provided the id was fresh and the
   * slide's ids were unique.
   */
  lemma {:induction false} UpsertReadBack(els: seq<Element>, e: Element, freshId: Uuid)
    requires ValidElements(els)
    requires forall j :: 0 <= j < |els| ==> els[j].id != Some(freshId)
    ensures var r := Upsert(els, e, freshId);
      var stored := if Truthy(e.id) then e else Inserted(e, freshId);
      && FindElement(r, stored.id).Some?
      && r[FindElement(r, stored.id).value] == stored
  {
    UpsertSpec(els, e, freshId);
    var r := Upsert(els, e, freshId);
    var stored := if Truthy(e.id) then e else Inserted(e, freshId);
    var at := if Truthy(e.id) && FindElement(els, e.id).Some? then FindElement(els, e.id).value else |els|;
    assert r[at] == stored;
    forall j | 0 <= j < at ensures r[j].id != stored.id {
      assert r[j] == els[j];
    }
  }

  /** `update-element` keeps the slide's element ids unique and truthy. */
  lemma UpsertPreservesValid(els: seq<Element>, e: Element, freshId: Uuid)
    requires ValidElements(els)
    requires forall j :: 0 <= j < |els| ==> els[j].id != Some(freshId)
    ensures ValidElements(Upsert(els, e, freshId))
  {
    UpsertSpec(els, e, freshId);
    var r := Upsert(els, e, freshId);
    if Truthy(e.id) && FindElement(els, e.id).Some? {
      var i := FindElement(els, e.id).value;
      forall a, b | 0 <= a < b < |r| ensures r[a].id != r[b].id {
        assert r[a].id == els[a].id && r[b].id == els[b].id;
      }
    } else {
      forall a, b | 0 <= a < b < |r| ensures r[a].id != r[b].id {
        if b < |els| {
          assert r[a] == els[a] && r[b] == els[b];
        } else {
          assert r[a] == els[a];
        }
      }
    }
  }
}
