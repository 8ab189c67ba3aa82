/** The container element both widget variants mount into: finding or
    creating it, and removing it again. */
module Container {
  import opened Js
  import opened Config
  import opened Dom

  const ContainerClass := "chat-widget-container"

  /** `document.createElement('div')` with the id and class set. */
  function NewContainer(id: string): Element {
    Element(Div, id, ContainerClass, Html(""))
  }

  /** Use the element that getElementById finds; only when there is none,
      create a container and append it to the body. */
  function FindOrCreate(d: DocState, id: string): (r: Result<Placed, DomError>)
    ensures r.Err? <==> Find(d, id).None? && !d.hasBody
    ensures r.Ok? ==> ValidLoc(r.value.doc, r.value.loc) && At(r.value.doc, r.value.loc).id == id
    ensures r.Ok? ==> r.value.doc.head == d.head
    ensures Find(d, id).Some? ==> r == Ok(Placed(d, Find(d, id).value))
    ensures Find(d, id).None? && r.Ok? ==>
      r.value.doc == d.(body := d.body + [NewContainer(id)]) && r.value.loc == InBody(|d.body|)
  {
    match Find(d, id)
    case Some(loc) => Ok(Placed(d, loc))
    case None => AppendToBody(d, NewContainer(id))
  }

  method FindOrCreateContainer(page: Page, id: string) returns (r: Result<Loc, DomError>)
    modifies page
    ensures match FindOrCreate(old(page.State()), id)
      case Ok(p) => page.State() == p.doc && r == Ok(p.loc)
      case Err(e) => page.State() == old(page.State()) && r == Err(e)
  {
    var found := Find(page.State(), id);
    if found.Some? {
      return Ok(found.value);
    }
    r := page.AppendChildToBody(NewContainer(id));
  }

  /** With a non-empty id held by at most one element, exactly one element
      holds it afterwards: the existing one is reused, or one is created. */
  lemma FindOrCreateKeepsOne(d: DocState, id: string)
    requires id != "" && Count(d, id) <= 1
    requires FindOrCreate(d, id).Ok?
    ensures var p := FindOrCreate(d, id).value;
      && Count(p.doc, id) == 1
      && Find(p.doc, id) == Some(p.loc)
      && (Count(d, id) == 0 <==> |p.doc.body| == |d.body| + 1)
      && (Count(d, id) == 1 <==> p.doc == d)
  {
    FindCount(d, id);
    var p := FindOrCreate(d, id).value;
    if Find(d, id).None? {
      CountInAppend(d.body, NewContainer(id), id);
      assert p.doc.body == d.body + [NewContainer(id)];
      assert FirstWithId(p.doc.head, id).None?;
      assert FirstWithId(p.doc.body, id) == Some(|d.body|);
    }
  }

  /** An empty id never matches, so every mount with it appends one more
      container to the body. */
  lemma EmptyIdAlwaysCreates(d: DocState)
    requires d.hasBody
    ensures FindOrCreate(d, "").Ok?
    ensures FindOrCreate(d, "").value.doc.body == d.body + [NewContainer("")]
  {
  }

  /** `unmountChatWidget(containerId = 'chat-widget-container')`: the
      default applies when the argument is left out or undefined. */
  function UnmountTarget(arg: Prop<string>): string
  {
    OrDefault(arg, "chat-widget-container")
  }

  /** Remove the element getElementById finds, if any; never fails. */
  function UnmountSpec(d: DocState, arg: Prop<string>): (r: DocState)
    ensures Find(d, UnmountTarget(arg)).None? ==> r == d
    ensures Find(d, UnmountTarget(arg)).Some? ==> r == RemoveAt(d, Find(d, UnmountTarget(arg)).value)
  {
    match Find(d, UnmountTarget(arg))
    case Some(loc) => RemoveAt(d, loc)
    case None => d
  }

  method Unmount(page: Page, arg: Prop<string>)
    modifies page
    ensures page.State() == UnmountSpec(old(page.State()), arg)
  {
    var container := Find(page.State(), UnmountTarget(arg));
    if container.Some? {
      page.RemoveElement(container.value);
    }
  }

  /** Unmount removes one element carrying the id when there is one, and
      otherwise leaves the document exactly as it was; it touches no global. */
  lemma UnmountEffect(d: DocState, arg: Prop<string>)
    ensures var id := UnmountTarget(arg);
      var d' := UnmountSpec(d, arg);
      && (Count(d, id) == 0 || id == "" ==> d' == d)
      && (id != "" ==> Count(d', id) == if Count(d, id) == 0 then 0 else Count(d, id) - 1)
      && d'.clickHandler == d.clickHandler && d'.registry == d.registry
      && |d'.head| + |d'.body| + (if d' == d then 0 else 1) == |d.head| + |d.body|
  {
    var id := UnmountTarget(arg);
    if id != "" {
      FindCount(d, id);
    }
    match Find(d, id)
    case None =>
    case Some(loc) =>
      RemoveAtCount(d, loc, id);
      assert |RemoveAt(d, loc).head| + |RemoveAt(d, loc).body| + 1 == |d.head| + |d.body|;
  }

  /** Unmounting twice is unmounting once, as long as the id is not
      duplicated in the document. */
  lemma UnmountIdempotent(d: DocState, arg: Prop<string>)
    requires Count(d, UnmountTarget(arg)) <= 1
    ensures UnmountSpec(UnmountSpec(d, arg), arg) == UnmountSpec(d, arg)
  {
    var id := UnmountTarget(arg);
    UnmountEffect(d, arg);
    var d' := UnmountSpec(d, arg);
    if id != "" {
      FindCount(d', id);
    }
  }

  /** With the id on two elements, the second unmount removes the second
      element: the condition above is needed. */
  lemma UnmountTwiceWithDuplicateId()
    ensures var e := NewContainer(DefaultContainerId);
      var d := DocState([], [e, e], true, Unset, false, None);
      UnmountSpec(UnmountSpec(d, Absent), Absent) != UnmountSpec(d, Absent)
  {
  }
}
