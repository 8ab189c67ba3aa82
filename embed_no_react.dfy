/** The markup-only widget: styles injected once into the head, the widget
    written into its container as markup, and the click handler published
    on `window`. */
module EmbedNoReact {
  import opened Js
  import opened Config
  import opened Template
  import opened Dom
  import opened Container

  const StylesId := "chat-widget-styles"

  /** The `<style>` element injectStyles creates; its CSS text is opaque. */
  const StyleElement := Element(Style, StylesId, "", WidgetStyleSheet)

  /** Append the style element unless some element already has its id. */
  function InjectStyles(d: DocState): (r: DocState)
    ensures r.(head := d.head) == d
    ensures Find(r, StylesId).Some?
    ensures Find(d, StylesId).Some? ==> r == d
    ensures Find(d, StylesId).None? ==> r == AppendToHead(d, StyleElement)
  {
    if Find(d, StylesId).None? then AppendToHead(d, StyleElement) else d
  }

  method InjectStylesInto(page: Page)
    modifies page
    ensures page.State() == InjectStyles(old(page.State()))
  {
    if Find(page.State(), StylesId).None? {
      page.AppendChildToHead(StyleElement);
    }
  }

  /** The fixed text of createWidgetHTML's template literal around its four
      holes: position, theme, title, button text. */
  const WidgetOpen := "\n    <div class=\"chat-widget "
  const ClassSeparator := " "
  const TitleOpen := "\">\n      <div class=\"chat-widget-title\">"
  const ButtonOpen := "</div>" + "\n      <button class=\"chat-widget-button\" onclick=\"window.chatWidgetHandleClick && window.chatWidgetHandleClick()\">\n        "
  const WidgetClose := "\n      </button>\n    </div>\n  "
  const WidgetFrags: seq<string> := [WidgetOpen, ClassSeparator, TitleOpen, ButtonOpen, WidgetClose]

  /** createWidgetHTML: destructuring defaults fill in every field that reads
      as undefined; the values are interpolated without escaping. */
  function CreateWidgetHtml(c: Display): string {
    Fill(WidgetFrags, [
      OrDefault(c.position, "bottom-right"),
      OrDefault(c.theme, "light"),
      OrDefault(c.title, "Hi there! Need help?"),
      OrDefault(c.buttonText, "Start Chat")])
  }

  /** The markup carries position and theme as the widget's class tokens, the
      title, and the button text, and they can be read back out of it,
      provided the values do not contain the character that ends their slot
      (nothing is escaped). */
  lemma CreateWidgetHtmlShows(c: Display)
    requires ' ' !in OrDefault(c.position, "bottom-right")
    requires '"' !in OrDefault(c.theme, "light")
    requires '<' !in OrDefault(c.title, "Hi there! Need help?")
    ensures Unfill(WidgetFrags, CreateWidgetHtml(c)) == Some([
      OrDefault(c.position, "bottom-right"), OrDefault(c.theme, "light"),
      OrDefault(c.title, "Hi there! Need help?"), OrDefault(c.buttonText, "Start Chat")])
  {
    var holes := [
      OrDefault(c.position, "bottom-right"), OrDefault(c.theme, "light"),
      OrDefault(c.title, "Hi there! Need help?"), OrDefault(c.buttonText, "Start Chat")];
    assert ClassSeparator[0] == ' ' && TitleOpen[0] == '"' && ButtonOpen[0] == '<';
    assert Delimited(WidgetFrags, holes);
    UnfillFill(WidgetFrags, holes);
  }

  /** An empty title or button text shows as empty: destructuring defaults
      replace only undefined, so the markup is empty in that slot exactly
      when the caller gave the empty string. */
  lemma EmptyTextShownInMarkup(c: Display)
    requires ' ' !in OrDefault(c.position, "bottom-right")
    requires '"' !in OrDefault(c.theme, "light")
    requires '<' !in OrDefault(c.title, "Hi there! Need help?")
    ensures var shown := Unfill(WidgetFrags, CreateWidgetHtml(c));
      && shown.Some? && |shown.value| == 4
      && (shown.value[2] == "" <==> c.title == Given(""))
      && (shown.value[3] == "" <==> c.buttonText == Given(""))
  {
    CreateWidgetHtmlShows(c);
  }

  /** Because title and button text are interpolated raw, a title that
      contains the markup between the two slots renders exactly like a
      different title and button text. */
  lemma MarkupNotEscaped(pos: string, theme: string, a: string, b: string, c: string)
    ensures CreateWidgetHtml(Display(Given(pos), Given(theme), Given(a + ButtonOpen + b), Given(c)))
         == CreateWidgetHtml(Display(Given(pos), Given(theme), Given(a), Given(b + ButtonOpen + c)))
  {
    var f := WidgetFrags;
    Fill4(f, [pos, theme, a + ButtonOpen + b, c]);
    Fill4(f, [pos, theme, a, b + ButtonOpen + c]);
    Regroup(f[0] + pos + f[1] + theme + f[2], a, f[3], b, c, f[4]);
  }

  lemma Regroup(pre: string, a: string, cut: string, b: string, c: string, post: string)
    ensures pre + (a + cut + b) + cut + c + post == pre + a + cut + (b + cut + c) + post
  {
  }

  lemma Fill4(frags: seq<string>, holes: seq<string>)
    requires |frags| == 5 && |holes| == 4
    ensures Fill(frags, holes) == frags[0] + holes[0] + frags[1] + holes[1] + frags[2] + holes[2]
      + frags[3] + holes[3] + frags[4]
  {
    var f1, h1 := frags[1..], holes[1..];
    var f2, h2 := f1[1..], h1[1..];
    var f3, h3 := f2[1..], h2[1..];
    var f4, h4 := f3[1..], h3[1..];
    assert Fill(f4, h4) == frags[4];
    var t3 := Fill(f3, h3);
    assert t3 == frags[3] + holes[3] + frags[4];
    var t2 := Fill(f2, h2);
    assert t2 == frags[2] + holes[2] + t3;
    var t1 := Fill(f1, h1);
    assert t1 == frags[1] + holes[1] + t2;
    assert Fill(frags, holes) == frags[0] + holes[0] + t1;
  }

  /** An explicit `undefined` in the caller's configuration overrides the
      default in the merge, and the destructuring defaults then show the
      same markup as if the field had been left out. */
  lemma UndefinedShowsLikeOmitted(config: ConfigObject)
    ensures CreateWidgetHtml(DisplayOf(Resolve(config.(title := Undefined, buttonText := Undefined))))
         == CreateWidgetHtml(DisplayOf(Resolve(config.(title := Absent, buttonText := Absent))))
  {
  }

  /** `window.chatWidgetHandleClick` after a mount: the caller's onChatStart,
      or a handler that only logs. */
  function HandlerFor(onChatStart: Prop<Callback>): (h: Handler)
    ensures Click(h) == if onChatStart.Given? then Called(onChatStart.value) else LoggedChatStarted
  {
    match onChatStart
    case Given(f) => Invoke(f)
    case _ => LogChatStarted
  }

  /** What activating the widget's button does: the onclick attribute calls
      whatever handler is published at that moment, if any. */
  datatype Effect = NoEffect | LoggedChatStarted | Called(cb: Callback)

  function Click(h: Handler): Effect {
    match h
    case Unset => NoEffect
    case LogChatStarted => LoggedChatStarted
    case Invoke(f) => Called(f)
  }

  datatype MountOutcome = MountOutcome(doc: DocState, result: Result<Loc, DomError>)

  /** mountChatWidget: merge, inject styles, find or create the container,
      overwrite its content with the widget markup, publish the handler.
      A failure to append the container is passed on to the caller, after
      the styles were injected and before the handler is set. */
  function MountSpec(d: DocState, config: ConfigObject): (out: MountOutcome)
    ensures out.doc.registry == d.registry && out.doc.hasBody == d.hasBody
    ensures out.doc.reactAvailable == d.reactAvailable
    ensures out.result.Err? ==> out.doc == InjectStyles(d)
    ensures out.result.Ok? ==> (Click(out.doc.clickHandler) ==
      if config.onChatStart.Given? then Called(config.onChatStart.value) else LoggedChatStarted)
  {
    var final := Resolve(config);
    var styled := InjectStyles(d);
    match FindOrCreate(styled, IdString(final.containerId))
    case Err(e) => MountOutcome(styled, Err(e))
    case Ok(p) =>
      var shown := SetContent(p.doc, p.loc, Html(CreateWidgetHtml(DisplayOf(final))));
      MountOutcome(shown.(clickHandler := HandlerFor(final.onChatStart)), Ok(p.loc))
  }

  method Mount(page: Page, config: ConfigObject) returns (r: Result<Loc, DomError>)
    modifies page
    ensures MountSpec(old(page.State()), config) == MountOutcome(page.State(), r)
  {
    var final := Resolve(config);
    ghost var d0 := page.State();
    InjectStylesInto(page);
    ghost var styled := page.State();
    var container := FindOrCreateContainer(page, IdString(final.containerId));
    if container.Err? {
      return container;
    }
    var loc := container.value;
    ghost var placed := page.State();
    page.SetInnerHtml(loc, Html(""));
    page.SetInnerHtml(loc, Html(CreateWidgetHtml(DisplayOf(final))));
    SetContentTwice(placed, loc, Html(""), Html(CreateWidgetHtml(DisplayOf(final))));
    match final.onChatStart {
      case Given(f) => page.SetClickHandler(Invoke(f));
      case _ => page.SetClickHandler(LogChatStarted);
    }
    return Ok(loc);
  }

  /** The container id mount uses. */
  function MountTarget(config: ConfigObject): string {
    IdString(Resolve(config).containerId)
  }

  /** A successful mount leaves the container, found under the configured
      id, showing the widget markup of the merged configuration, and
      publishes the caller's onChatStart (or the logging default). */
  lemma MountShows(d: DocState, config: ConfigObject)
    requires MountSpec(d, config).result.Ok?
    ensures var out := MountSpec(d, config);
      var loc := out.result.value;
      && ValidLoc(out.doc, loc)
      && At(out.doc, loc).id == MountTarget(config)
      && At(out.doc, loc).content == Html(CreateWidgetHtml(DisplayOf(Resolve(config))))
      && Click(out.doc.clickHandler) == (if config.onChatStart.Given? then Called(config.onChatStart.value) else LoggedChatStarted)
  {
  }

  /** Mount fails only when no element has the id and there is no body; the
      injected styles stay, nothing else changes, and the failure reaches
      the caller. */
  lemma MountFails(d: DocState, config: ConfigObject)
    ensures var out := MountSpec(d, config);
      && (out.result.Err? <==> Find(InjectStyles(d), MountTarget(config)).None? && !d.hasBody)
      && (out.result.Err? ==> out.doc == InjectStyles(d) && out.result.error == BodyIsNull)
  {
  }

  lemma InjectStylesCount(d: DocState, id: string)
    ensures Count(InjectStyles(d), id) ==
      Count(d, id) + (if id == StylesId && Count(d, StylesId) == 0 then 1 else 0)
    ensures InjectStyles(d).body == d.body && Find(InjectStyles(d), StylesId).Some?
  {
    FindCount(d, StylesId);
    if Find(d, StylesId).None? {
      CountInAppend(d.head, StyleElement, id);
      var s := InjectStyles(d);
      assert s.head[|d.head|] == StyleElement;
      FindCount(s, StylesId);
      CountInAppend(d.head, StyleElement, StylesId);
    }
  }

  /** Mount keeps the container unique: with a non-empty id that at most one
      element carries, exactly one element carries it afterwards and
      getElementById finds the container. A new one is created exactly
      when none existed. */
  lemma MountKeepsOneContainer(d: DocState, config: ConfigObject)
    requires MountTarget(config) != "" && Count(d, MountTarget(config)) <= 1
    requires MountSpec(d, config).result.Ok?
    ensures var out := MountSpec(d, config);
      && Count(out.doc, MountTarget(config)) == 1
      && Find(out.doc, MountTarget(config)) == Some(out.result.value)
      && (MountTarget(config) != StylesId ==>
           (|out.doc.body| == |d.body| + 1 <==> Count(d, MountTarget(config)) == 0))
  {
    var id := MountTarget(config);
    var styled := InjectStyles(d);
    InjectStylesCount(d, id);
    FindCount(d, StylesId);
    var p := FindOrCreate(styled, id).value;
    if id == StylesId {
      FindCount(styled, id);
    }
    FindOrCreateKeepsOne(styled, id);
    var out := MountSpec(d, config);
    SetContentCount(p.doc, p.loc, Html(CreateWidgetHtml(DisplayOf(Resolve(config)))), id);
    assert out.doc.head == SetContent(p.doc, p.loc, Html(CreateWidgetHtml(DisplayOf(Resolve(config))))).head;
    FindAfterSetContent(p.doc, p.loc, Html(CreateWidgetHtml(DisplayOf(Resolve(config)))), id);
  }

  lemma FindAfterSetContent(d: DocState, loc: Loc, c: Content, id: string)
    requires ValidLoc(d, loc)
    ensures Find(SetContent(d, loc, c), id) == Find(d, id)
  {
    var d' := SetContent(d, loc, c);
    assert forall j :: 0 <= j < |d.head| ==> d'.head[j].id == d.head[j].id;
    assert forall j :: 0 <= j < |d.body| ==> d'.body[j].id == d.body[j].id;
    FirstWithIdSameIds(d.head, d'.head, id);
    FirstWithIdSameIds(d.body, d'.body, id);
  }

  lemma FirstWithIdSameIds(s: seq<Element>, t: seq<Element>, id: string)
    requires |s| == |t| && forall j :: 0 <= j < |s| ==> s[j].id == t[j].id
    ensures FirstWithId(s, id) == FirstWithId(t, id)
  {
  }

  /** Mount adds at most the style element to the head and the container to
      the body, changes no element other than the container, and leaves the
      registry alone. */
  lemma MountFrame(d: DocState, config: ConfigObject)
    ensures var out := MountSpec(d, config);
      && |out.doc.head| == |d.head| + (if Find(d, StylesId).None? then 1 else 0)
      && |d.body| <= |out.doc.body| <= |d.body| + 1
      && (Find(InjectStyles(d), MountTarget(config)).Some? ==> |out.doc.body| == |d.body|)
      && (forall j :: 0 <= j < |d.head| && out.result != Ok(InHead(j)) ==> out.doc.head[j] == d.head[j])
      && (forall j :: 0 <= j < |d.body| && out.result != Ok(InBody(j)) ==> out.doc.body[j] == d.body[j])
      && out.doc.registry == d.registry && out.doc.hasBody == d.hasBody && out.doc.reactAvailable == d.reactAvailable
  {
  }

  /** A mount into any container other than the style element keeps the
      style sheet: getElementById finds the widget's `<style>` element when
      the page had none, and otherwise the element the page already had,
      unchanged. */
  lemma MountKeepsStyleElement(d: DocState, config: ConfigObject)
    requires MountTarget(config) != StylesId
    ensures var out := MountSpec(d, config);
      var found := Find(out.doc, StylesId);
      && found.Some? && ValidLoc(out.doc, found.value)
      && At(out.doc, found.value) ==
           if Find(d, StylesId).None? then StyleElement else At(d, Find(d, StylesId).value)
  {
    var styled := InjectStyles(d);
    InjectedStyleElement(d);
    match FindOrCreate(styled, MountTarget(config))
    case Err(_) =>
    case Ok(p) =>
      FindOrCreateKeepsOther(styled, MountTarget(config), StylesId);
      FindAfterSetContent(p.doc, p.loc, Html(CreateWidgetHtml(DisplayOf(Resolve(config)))), StylesId);
  }

  lemma InjectedStyleElement(d: DocState)
    ensures var styled := InjectStyles(d);
      var found := Find(styled, StylesId);
      && found.Some? && ValidLoc(styled, found.value)
      && At(styled, found.value) ==
           if Find(d, StylesId).None? then StyleElement else At(d, Find(d, StylesId).value)
  {
    if Find(d, StylesId).None? {
      var styled := InjectStyles(d);
      assert FirstWithId(styled.head, StylesId) == Some(|d.head|);
    }
  }

  /** Finding or creating one container leaves what getElementById finds
      for any other id where it was. */
  lemma FindOrCreateKeepsOther(d: DocState, id: string, other: string)
    requires id != other && FindOrCreate(d, id).Ok?
    ensures var p := FindOrCreate(d, id).value;
      && Find(p.doc, other) == Find(d, other)
      && (Find(d, other).Some? ==> p.loc != Find(d, other).value && At(p.doc, Find(d, other).value) == At(d, Find(d, other).value))
  {
    if Find(d, id).None? {
      FirstWithIdAppend(d.body, NewContainer(id), other);
    }
  }

  lemma {:induction false} FirstWithIdAppend(s: seq<Element>, e: Element, id: string)
    requires e.id != id
    ensures FirstWithId(s + [e], id) == FirstWithId(s, id)
  {
    if |s| > 0 {
      assert (s + [e])[1..] == s[1..] + [e];
      FirstWithIdAppend(s[1..], e, id);
    }
  }

  /** Styles are injected once: after a mount there is at least one element
      with the style id, and a new one was added only when there was none. */
  lemma MountStylesOnce(d: DocState, config: ConfigObject)
    ensures Count(MountSpec(d, config).doc, StylesId) == if Count(d, StylesId) == 0 then 1 else Count(d, StylesId)
  {
    var id := MountTarget(config);
    var styled := InjectStyles(d);
    InjectStylesCount(d, StylesId);
    match FindOrCreate(styled, id)
    case Err(_) =>
    case Ok(p) =>
      if Find(styled, id).None? {
        assert id != StylesId;
        CountInAppend(styled.body, NewContainer(id), StylesId);
      }
      SetContentCount(p.doc, p.loc, Html(CreateWidgetHtml(DisplayOf(Resolve(config)))), StylesId);
  }

  /** A second mount with the same container id reuses the one container,
      which then shows the second configuration only. */
  lemma SecondMountWins(d: DocState, first: ConfigObject, second: ConfigObject)
    requires MountTarget(first) == MountTarget(second) != ""
    requires Count(d, MountTarget(first)) <= 1
    requires MountSpec(d, first).result.Ok?
    ensures var d1 := MountSpec(d, first).doc;
      var out := MountSpec(d1, second);
      && out.result == MountSpec(d, first).result
      && Count(out.doc, MountTarget(second)) == 1
      && |out.doc.body| == |d1.body|
      && At(out.doc, out.result.value).content == Html(CreateWidgetHtml(DisplayOf(Resolve(second))))
  {
    MountKeepsOneContainer(d, first);
    var d1 := MountSpec(d, first).doc;
    FindCount(d1, StylesId);
    MountStylesOnce(d, first);
    assert InjectStyles(d1) == d1;
    MountKeepsOneContainer(d1, second);
  }

  /** `{ containerId: undefined }` mounts into an element whose id is the
      string "undefined", while `unmountChatWidget(undefined)` falls back to
      the default id: that unmount leaves the widget in place. */
  lemma UndefinedIdNotUnmounted(d: DocState, config: ConfigObject)
    requires config.containerId == Undefined && d.hasBody
    requires Count(d, DefaultContainerId) == 0
    ensures MountTarget(config) == "undefined"
    ensures var out := MountSpec(d, config);
      && out.result.Ok? && At(out.doc, out.result.value).id == "undefined"
      && UnmountSpec(out.doc, Undefined) == out.doc
  {
    var id := MountTarget(config);
    var styled := InjectStyles(d);
    InjectStylesCount(d, DefaultContainerId);
    var p := FindOrCreate(styled, id).value;
    if Find(styled, id).None? {
      CountInAppend(styled.body, NewContainer(id), DefaultContainerId);
    }
    SetContentCount(p.doc, p.loc, Html(CreateWidgetHtml(DisplayOf(Resolve(config)))), DefaultContainerId);
    FindCount(MountSpec(d, config).doc, DefaultContainerId);
  }

  /** `window.ChatWidget = { mount, unmount, config: defaultConfig }` */
  function InstallSpec(d: DocState): DocState {
    d.(registry := Some(Registry(MarkupOnly, DefaultConfig)))
  }

  method Install(page: Page)
    modifies page
    ensures page.State() == InstallSpec(old(page.State()))
  {
    page.SetRegistry(Registry(MarkupOnly, DefaultConfig));
  }

  /** A sequence of explicit calls to the global API. */
  datatype Op = MountOp(config: ConfigObject) | UnmountOp(arg: Prop<string>)

  function Step(d: DocState, op: Op): DocState {
    match op
    case MountOp(c) => MountSpec(d, c).doc
    case UnmountOp(a) => UnmountSpec(d, a)
  }

  function Run(d: DocState, ops: seq<Op>): DocState
    decreases |ops|
  {
    if |ops| == 0 then d else Run(Step(d, ops[0]), ops[1..])
  }

  lemma {:induction false} RunAppend(d: DocState, a: seq<Op>, b: seq<Op>)
    ensures Run(d, a + b) == Run(Run(d, a), b)
    decreases |a|
  {
    if |a| > 0 {
      assert (a + b)[1..] == a[1..] + b;
      RunAppend(Step(d, a[0]), a[1..], b);
    } else {
      assert a + b == b;
    }
  }

  lemma StepFrame(d: DocState, op: Op)
    ensures Step(d, op).registry == d.registry && Step(d, op).hasBody == d.hasBody
  {
  }

  /** Neither mount nor unmount ever writes the registry, so the published
      `config` keeps the default table however the widget is used. */
  lemma {:induction false} RunKeepsRegistry(d: DocState, ops: seq<Op>)
    ensures Run(d, ops).registry == d.registry && Run(d, ops).hasBody == d.hasBody
    decreases |ops|
  {
    if |ops| > 0 {
      StepFrame(d, ops[0]);
      RunKeepsRegistry(Step(d, ops[0]), ops[1..]);
    }
  }

  lemma RegistryKeepsDefaults(d: DocState, ops: seq<Op>)
    ensures Run(InstallSpec(d), ops).registry == Some(Registry(MarkupOnly, DefaultConfig))
  {
    RunKeepsRegistry(InstallSpec(d), ops);
  }

  function OpTarget(op: Op): string {
    match op
    case MountOp(c) => MountTarget(c)
    case UnmountOp(a) => UnmountTarget(a)
  }

  lemma StepStyles(d: DocState, op: Op)
    requires OpTarget(op) != StylesId
    ensures Count(Step(d, op), StylesId) ==
      if Count(d, StylesId) == 0 && op.MountOp? then 1 else Count(d, StylesId)
  {
    match op
    case MountOp(c) =>
      MountStylesOnce(d, c);
    case UnmountOp(a) =>
      match Find(d, UnmountTarget(a))
      case None =>
      case Some(loc) => RemoveAtCount(d, loc, StylesId);
  }

  predicate HasMount(ops: seq<Op>) {
    exists i :: 0 <= i < |ops| && ops[i].MountOp?
  }

  lemma HasMountCons(ops: seq<Op>)
    requires |ops| > 0
    ensures HasMount(ops) <==> ops[0].MountOp? || HasMount(ops[1..])
  {
  }

  /** Whatever the sequence of calls, as long as none of them names the style
      element's id as its container, the number of style elements becomes
      one at the first mount and never changes afterwards. */
  lemma {:induction false} RunStylesOnce(d: DocState, ops: seq<Op>)
    requires forall i :: 0 <= i < |ops| ==> OpTarget(ops[i]) != StylesId
    ensures Count(Run(d, ops), StylesId) ==
      if Count(d, StylesId) == 0 && HasMount(ops) then 1 else Count(d, StylesId)
    decreases |ops|
  {
    if |ops| > 0 {
      StepStyles(d, ops[0]);
      assert forall i :: 0 <= i < |ops[1..]| ==> OpTarget(ops[1..][i]) != StylesId by {
        forall i | 0 <= i < |ops[1..]| ensures OpTarget(ops[1..][i]) != StylesId {
          assert ops[1..][i] == ops[i + 1];
        }
      }
      RunStylesOnce(Step(d, ops[0]), ops[1..]);
      HasMountCons(ops);
    }
  }

  /** Unmount does not touch the published handler. */
  lemma {:induction false} UnmountsKeepHandler(d: DocState, ops: seq<Op>)
    requires forall i :: 0 <= i < |ops| ==> ops[i].UnmountOp?
    ensures Run(d, ops).clickHandler == d.clickHandler
    decreases |ops|
  {
    if |ops| > 0 {
      UnmountEffect(d, ops[0].arg);
      assert forall i :: 0 <= i < |ops[1..]| ==> ops[1..][i].UnmountOp? by {
        forall i | 0 <= i < |ops[1..]| ensures ops[1..][i].UnmountOp? {
          assert ops[1..][i] == ops[i + 1];
        }
      }
      UnmountsKeepHandler(Step(d, ops[0]), ops[1..]);
    }
  }

  /** The most recent mount wins: once the page has a body, clicking the
      button calls the onChatStart of the last mount (or logs when that
      mount gave none), whatever came before it and however many unmounts
      came after it. */
  lemma MostRecentMountWins(d: DocState, before: seq<Op>, config: ConfigObject, after: seq<Op>)
    requires d.hasBody
    requires forall i :: 0 <= i < |after| ==> after[i].UnmountOp?
    ensures Click(Run(d, before + [MountOp(config)] + after).clickHandler) ==
      if config.onChatStart.Given? then Called(config.onChatStart.value) else LoggedChatStarted
  {
    RunAppend(d, before + [MountOp(config)], after);
    RunAppend(d, before, [MountOp(config)]);
    var mid := Run(d, before);
    RunKeepsRegistry(d, before);
    MountThenUnmounts(mid, config, after);
  }

  lemma MountThenUnmounts(mid: DocState, config: ConfigObject, after: seq<Op>)
    requires mid.hasBody
    requires forall i :: 0 <= i < |after| ==> after[i].UnmountOp?
    ensures Click(Run(Run(mid, [MountOp(config)]), after).clickHandler) ==
      if config.onChatStart.Given? then Called(config.onChatStart.value) else LoggedChatStarted
  {
    var out := MountSpec(mid, config);
    assert Run(mid, [MountOp(config)]) == out.doc;
    assert out.result.Ok?;
    UnmountsKeepHandler(out.doc, after);
  }

  const ScenarioTitle := "Hey"
  const ScenarioButton := "Go"

  function Scenario(f: Callback): ConfigObject {
    EmptyConfig.(position := Given("top-left"), theme := Given("dark"),
      title := Given(ScenarioTitle), buttonText := Given(ScenarioButton), onChatStart := Given(f))
  }

  lemma ScenarioContainer(d: DocState, f: Callback)
    requires d.hasBody && Count(d, DefaultContainerId) == 0
    ensures var out := MountSpec(d, Scenario(f));
      && out.result.Ok?
      && Find(out.doc, DefaultContainerId) == Some(out.result.value)
      && Count(out.doc, DefaultContainerId) == 1
  {
    var config := Scenario(f);
    assert MountTarget(config) == DefaultContainerId;
    MountFails(d, config);
    MountKeepsOneContainer(d, config);
  }

  lemma ScenarioShows(d: DocState, f: Callback)
    requires MountSpec(d, Scenario(f)).result.Ok?
    ensures var out := MountSpec(d, Scenario(f));
      && ValidLoc(out.doc, out.result.value)
      && At(out.doc, out.result.value).content.Html?
      && Unfill(WidgetFrags, At(out.doc, out.result.value).content.markup) == Some(["top-left", "dark", "Hey", "Go"])
      && Click(out.doc.clickHandler) == Called(f)
  {
    var config := Scenario(f);
    MountShows(d, config);
    var shown := Display(Given("top-left"), Given("dark"), Given(ScenarioTitle), Given(ScenarioButton));
    assert DisplayOf(Resolve(config)) == shown;
    assert ' ' !in "top-left" && '"' !in "dark" && '<' !in ScenarioTitle;
    CreateWidgetHtmlShows(shown);
  }

  /** Mount top-left, dark, "Hey", "Go" with callback f on a page with a body
      that lacks the container: one container, showing those values, and the
      button calls f. */
  lemma ScenarioMount(d: DocState, f: Callback)
    requires d.hasBody && Count(d, DefaultContainerId) == 0
    ensures var out := MountSpec(d, Scenario(f));
      && out.result.Ok?
      && Find(out.doc, DefaultContainerId) == Some(out.result.value)
      && Count(out.doc, DefaultContainerId) == 1
      && At(out.doc, out.result.value).content.Html?
      && Unfill(WidgetFrags, At(out.doc, out.result.value).content.markup) == Some(["top-left", "dark", "Hey", "Go"])
      && Click(out.doc.clickHandler) == Called(f)
  {
    ScenarioContainer(d, f);
    ScenarioShows(d, f);
  }

  /** Then unmounting with the default id removes it: getElementById finds
      nothing afterwards. */
  lemma ScenarioUnmount(d: DocState, f: Callback)
    requires d.hasBody && Count(d, DefaultContainerId) == 0
    ensures Find(UnmountSpec(MountSpec(d, Scenario(f)).doc, Absent), DefaultContainerId).None?
  {
    ScenarioMount(d, f);
    var after := MountSpec(d, Scenario(f)).doc;
    UnmountEffect(after, Absent);
    FindCount(UnmountSpec(after, Absent), DefaultContainerId);
  }
}
