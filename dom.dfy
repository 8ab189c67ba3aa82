/** The browser state the widget touches: the elements of the document's
    head and body, and the globals on `window` it reads or writes. */
module Dom {
  import opened Js
  import opened Config

  datatype Tag = Style | Div | Other(name: string)

  /** What an element holds: markup assigned through `innerHTML`, the widget's
      style sheet text (kept opaque), or a tree rendered by React from the
      given properties (kept opaque). */
  datatype Content = Html(markup: string) | WidgetStyleSheet | Rendered(props: Props)

  /** An element; an empty id stands for an element without an id. Elements
      of the host page nested deeper are flattened into document order. */
  datatype Element = Element(tag: Tag, id: string, className: string, content: Content)

  datatype Loc = InHead(index: nat) | InBody(index: nat)

  /** The value of `window.chatWidgetHandleClick`. */
  datatype Handler = Unset | LogChatStarted | Invoke(cb: Callback)

  /** `window.ChatWidget`, with the variant whose mount and unmount it holds
      and its `config` property. */
  datatype Variant = MarkupOnly | ReactWithFallback
  datatype Registry = Registry(variant: Variant, config: ConfigObject)

  /** `document.body.appendChild` while `document.body` is null. */
  datatype DomError = BodyIsNull

  datatype DocState = DocState(
    head: seq<Element>,
    body: seq<Element>,
    hasBody: bool,
    clickHandler: Handler,
    reactAvailable: bool,
    registry: Option<Registry>)

  datatype Placed = Placed(doc: DocState, loc: Loc)

  /** Index of the first element of s with the given id. */
  function FirstWithId(s: seq<Element>, id: string): (r: Option<nat>)
    ensures r.Some? ==> r.value < |s| && s[r.value].id == id
    ensures r.Some? ==> forall j :: 0 <= j < r.value ==> s[j].id != id
    ensures r.None? ==> forall j :: 0 <= j < |s| ==> s[j].id != id
  {
    if |s| == 0 then None
    else if s[0].id == id then Some(0)
    else match FirstWithId(s[1..], id)
      case None => None
      case Some(i) => Some(i + 1)
  }

  predicate ValidLoc(d: DocState, loc: Loc) {
    match loc
    case InHead(i) => i < |d.head|
    case InBody(i) => i < |d.body|
  }

  function At(d: DocState, loc: Loc): Element
    requires ValidLoc(d, loc)
  {
    match loc
    case InHead(i) => d.head[i]
    case InBody(i) => d.body[i]
  }

  /** `document.getElementById(id)`: the first element in document order
      (head, then body) with that id; the empty string names no element. */
  function Find(d: DocState, id: string): (r: Option<Loc>)
    ensures id == "" ==> r.None?
    ensures r.Some? ==> ValidLoc(d, r.value) && At(d, r.value).id == id
    ensures r.None? && id != "" ==>
      (forall j :: 0 <= j < |d.head| ==> d.head[j].id != id) &&
      (forall j :: 0 <= j < |d.body| ==> d.body[j].id != id)
    ensures r.Some? && r.value.InBody? ==> forall j :: 0 <= j < |d.head| ==> d.head[j].id != id
    ensures r.Some? ==> match r.value
      case InHead(i) => forall j :: 0 <= j < i ==> d.head[j].id != id
      case InBody(i) => forall j :: 0 <= j < i ==> d.body[j].id != id
  {
    if id == "" then None
    else match FirstWithId(d.head, id)
      case Some(i) => Some(InHead(i))
      case None =>
        match FirstWithId(d.body, id)
        case Some(i) => Some(InBody(i))
        case None => None
  }

  /** `document.head.appendChild(e)` */
  function AppendToHead(d: DocState, e: Element): (r: DocState)
    ensures |r.head| == |d.head| + 1 && r.head[..|d.head|] == d.head && r.head[|d.head|] == e
    ensures r.(head := d.head) == d
  {
    d.(head := d.head + [e])
  }

  /** `document.body.appendChild(e)`: fails, changing nothing, when there is
      no body yet. */
  function AppendToBody(d: DocState, e: Element): (r: Result<Placed, DomError>)
    ensures r.Ok? <==> d.hasBody
    ensures r.Ok? ==> r.value.doc.head == d.head && r.value.doc.body == d.body + [e]
    ensures r.Ok? ==> r.value.loc == InBody(|d.body|) && ValidLoc(r.value.doc, r.value.loc)
    ensures r.Ok? ==> r.value.doc == d.(body := d.body + [e])
  {
    if d.hasBody then Ok(Placed(d.(body := d.body + [e]), InBody(|d.body|)))
    else Err(BodyIsNull)
  }

  /** `element.innerHTML = ...` (or a render into the element). */
  function SetContent(d: DocState, loc: Loc, c: Content): (r: DocState)
    requires ValidLoc(d, loc)
    ensures ValidLoc(r, loc) && At(r, loc) == At(d, loc).(content := c)
    ensures |r.head| == |d.head| && |r.body| == |d.body|
    ensures forall l :: ValidLoc(d, l) && l != loc ==> ValidLoc(r, l) && At(r, l) == At(d, l)
    ensures r.(head := d.head, body := d.body) == d
  {
    match loc
    case InHead(i) => d.(head := d.head[i := d.head[i].(content := c)])
    case InBody(i) => d.(body := d.body[i := d.body[i].(content := c)])
  }

  /** Clearing the content first (`innerHTML = ''`) and then assigning it
      leaves only the second assignment visible. */
  lemma SetContentTwice(d: DocState, loc: Loc, a: Content, b: Content)
    requires ValidLoc(d, loc)
    ensures SetContent(SetContent(d, loc, a), loc, b) == SetContent(d, loc, b)
  {
  }

  /** `element.remove()` */
  function RemoveAt(d: DocState, loc: Loc): (r: DocState)
    requires ValidLoc(d, loc)
    ensures r.(head := d.head, body := d.body) == d
    ensures match loc
      case InHead(i) =>
        && r.body == d.body && |r.head| == |d.head| - 1
        && (forall j :: 0 <= j < i ==> r.head[j] == d.head[j])
        && (forall j :: i <= j < |r.head| ==> r.head[j] == d.head[j + 1])
      case InBody(i) =>
        && r.head == d.head && |r.body| == |d.body| - 1
        && (forall j :: 0 <= j < i ==> r.body[j] == d.body[j])
        && (forall j :: i <= j < |r.body| ==> r.body[j] == d.body[j + 1])
  {
    match loc
    case InHead(i) => d.(head := d.head[..i] + d.head[i + 1..])
    case InBody(i) => d.(body := d.body[..i] + d.body[i + 1..])
  }

  function CountIn(s: seq<Element>, id: string): nat {
    if |s| == 0 then 0 else (if s[0].id == id then 1 else 0) + CountIn(s[1..], id)
  }

  /** How many elements of the document carry the id. */
  function Count(d: DocState, id: string): nat {
    CountIn(d.head, id) + CountIn(d.body, id)
  }

  lemma {:induction false} CountInAppend(s: seq<Element>, e: Element, id: string)
    ensures CountIn(s + [e], id) == CountIn(s, id) + (if e.id == id then 1 else 0)
  {
    if |s| > 0 {
      assert (s + [e])[1..] == s[1..] + [e];
      CountInAppend(s[1..], e, id);
    }
  }

  lemma {:induction false} CountInRemove(s: seq<Element>, i: nat, id: string)
    requires i < |s|
    ensures CountIn(s[..i] + s[i + 1..], id) + (if s[i].id == id then 1 else 0) == CountIn(s, id)
  {
    if i > 0 {
      assert (s[..i] + s[i + 1..])[1..] == s[1..][..i - 1] + s[1..][i..];
      CountInRemove(s[1..], i - 1, id);
    } else {
      assert s[..i] + s[i + 1..] == s[1..];
    }
  }

  lemma {:induction false} CountInUpdate(s: seq<Element>, i: nat, e: Element, id: string)
    requires i < |s| && e.id == s[i].id
    ensures CountIn(s[i := e], id) == CountIn(s, id)
  {
    if i > 0 {
      assert s[i := e][1..] == s[1..][i - 1 := e];
      CountInUpdate(s[1..], i - 1, e, id);
    }
  }

  lemma {:induction false} CountInNone(s: seq<Element>, id: string)
    requires forall j :: 0 <= j < |s| ==> s[j].id != id
    ensures CountIn(s, id) == 0
  {
    if |s| > 0 {
      CountInNone(s[1..], id);
    }
  }

  lemma {:induction false} CountInAt(s: seq<Element>, i: nat, id: string)
    requires i < |s| && s[i].id == id
    ensures CountIn(s, id) >= 1
  {
    if i > 0 {
      CountInAt(s[1..], i - 1, id);
    }
  }

  /** getElementById finds nothing exactly when no element carries the
      (non-empty) id, and otherwise finds one of them. */
  lemma FindCount(d: DocState, id: string)
    requires id != ""
    ensures Find(d, id).None? <==> Count(d, id) == 0
  {
    match Find(d, id)
    case None =>
      CountInNone(d.head, id);
      CountInNone(d.body, id);
    case Some(loc) =>
      match loc
      case InHead(i) => CountInAt(d.head, i, id);
      case InBody(i) => CountInAt(d.body, i, id);
  }

  /** Overwriting an element's content keeps every count. */
  lemma SetContentCount(d: DocState, loc: Loc, c: Content, id: string)
    requires ValidLoc(d, loc)
    ensures Count(SetContent(d, loc, c), id) == Count(d, id)
  {
    match loc
    case InHead(i) => CountInUpdate(d.head, i, d.head[i].(content := c), id);
    case InBody(i) => CountInUpdate(d.body, i, d.body[i].(content := c), id);
  }

  /** Removing an element lowers the count of its own id by one and leaves
      every other count alone. */
  lemma RemoveAtCount(d: DocState, loc: Loc, id: string)
    requires ValidLoc(d, loc)
    ensures Count(RemoveAt(d, loc), id) + (if At(d, loc).id == id then 1 else 0) == Count(d, id)
  {
    match loc
    case InHead(i) => CountInRemove(d.head, i, id);
    case InBody(i) => CountInRemove(d.body, i, id);
  }

  /** The window and its document, updated in place by the widget code
      through the DOM operations below. */
  class Page {
    var head: seq<Element>
    var body: seq<Element>
    var hasBody: bool
    var clickHandler: Handler
    var reactAvailable: bool
    var registry: Option<Registry>

    function State(): DocState
      reads this
    {
      DocState(head, body, hasBody, clickHandler, reactAvailable, registry)
    }

    /** A page as the host leaves it before any widget script runs. */
    constructor (head: seq<Element>, body: seq<Element>, hasBody: bool, reactAvailable: bool)
      ensures State() == DocState(head, body, hasBody, Unset, reactAvailable, None)
    {
      this.head := head;
      this.body := body;
      this.hasBody := hasBody;
      this.clickHandler := Unset;
      this.reactAvailable := reactAvailable;
      this.registry := None;
    }

    method AppendChildToHead(e: Element)
      modifies this
      ensures State() == AppendToHead(old(State()), e)
    {
      head := head + [e];
    }

    method AppendChildToBody(e: Element) returns (r: Result<Loc, DomError>)
      modifies this
      ensures match AppendToBody(old(State()), e)
        case Ok(p) => State() == p.doc && r == Ok(p.loc)
        case Err(err) => State() == old(State()) && r == Err(err)
    {
      if !hasBody {
        return Err(BodyIsNull);
      }
      r := Ok(InBody(|body|));
      body := body + [e];
    }

    method SetInnerHtml(loc: Loc, c: Content)
      requires ValidLoc(State(), loc)
      modifies this
      ensures State() == SetContent(old(State()), loc, c)
    {
      match loc
      case InHead(i) => head := head[i := head[i].(content := c)];
      case InBody(i) => body := body[i := body[i].(content := c)];
    }

    method RemoveElement(loc: Loc)
      requires ValidLoc(State(), loc)
      modifies this
      ensures State() == RemoveAt(old(State()), loc)
    {
      match loc
      case InHead(i) => head := head[..i] + head[i + 1..];
      case InBody(i) => body := body[..i] + body[i + 1..];
    }

    method SetClickHandler(h: Handler)
      modifies this
      ensures State() == old(State()).(clickHandler := h)
    {
      clickHandler := h;
    }

    method SetRegistry(r: Registry)
      modifies this
      ensures State() == old(State()).(registry := Some(r))
    {
      registry := Some(r);
    }
  }
}
