/** The React variant: the widget is rendered by React into its container
    when React is available, and written as fallback markup otherwise. */
module EmbedRobust {
  import opened Js
  import opened Config
  import opened Template
  import opened Dom
  import opened Container
  import EmbedNoReact

  /** The React root created over a container; opaque otherwise. */
  datatype Root = Root(container: Loc)

  datatype RootError = ReactNotAvailable

  /** createSafeRoot: a root when `window.React` is present, an error
      otherwise. */
  function CreateSafeRoot(d: DocState, loc: Loc): Result<Root, RootError>
  {
    if d.reactAvailable then Ok(Root(loc)) else Err(ReactNotAvailable)
  }

  /** The colours the fallback writes into its inline style. */
  datatype Palette = Palette(background: string, text: string, border: string)

  const DarkPalette := Palette("#1f2937", "#f9fafb", "#374151")
  const LightPalette := Palette("#ffffff", "#111827", "#e5e7eb")

  /** `theme === 'dark' ? dark : light`, decided once per colour. */
  function PaletteFor(theme: Prop<string>): (r: Palette)
    ensures r == if theme == Given("dark") then DarkPalette else LightPalette
  {
    Palette(
      if theme == Given("dark") then "#1f2937" else "#ffffff",
      if theme == Given("dark") then "#f9fafb" else "#111827",
      if theme == Given("dark") then "#374151" else "#e5e7eb")
  }

  /** The fixed text of the fallback template literal around its holes:
      position, theme, background, text colour, border colour, title,
      button text. */
  const FallbackOpen := "\n        <div class=\"chat-widget "
  const FallbackSeparator := " "
  const BackgroundOpen := " " + "p-4\" \n             style=\"position: fixed; z-index: 999999; max-width: 320px; width: 100%; border-radius: 12px; box-shadow: 0 10px 25px rgba(0, 0, 0, 0.15); background: "
  const ColorOpen := "; color: "
  const BorderOpen := "; border: 1px solid "
  const TextOpen := ";" + "\">\n          <p style=\"margin-bottom: 8px; font-weight: 500;\">"
  const FallbackButtonOpen := "</p>" + "\n          <button onclick=\"this.parentElement.remove()\" \n                  style=\"width: 100%; padding: 8px 16px; background: #3b82f6; color: white; border: none; border-radius: 6px; cursor: pointer; font-size: 14px;\">\n            "
  const FallbackClose := "\n          </button>\n        </div>\n      "
  const FallbackFrags: seq<string> := [FallbackOpen, FallbackSeparator, BackgroundOpen, ColorOpen,
    BorderOpen, TextOpen, FallbackButtonOpen, FallbackClose]

  /** The fallback markup: `||` defaults for the shown fields, so an empty
      string falls back too; the button removes the widget rather than
      calling onChatStart. Nothing is escaped. */
  function FallbackHtml(c: Display): string {
    var palette := PaletteFor(c.theme);
    Fill(FallbackFrags, [
      OrElse(c.position, "bottom-right"),
      OrElse(c.theme, "light"),
      palette.background, palette.text, palette.border,
      OrElse(c.title, "Hi there! Need help?"),
      OrElse(c.buttonText, "Start Chat")])
  }

  /** The fallback markup carries position and theme as class tokens, the
      dark colours exactly when the theme is the string "dark" and the light
      ones otherwise, the title and the button text, all readable back out
      of it when the values do not contain the character ending their slot. */
  lemma FallbackShows(c: Display)
    requires ' ' !in OrElse(c.position, "bottom-right")
    requires ' ' !in OrElse(c.theme, "light")
    requires '<' !in OrElse(c.title, "Hi there! Need help?")
    ensures var palette := if c.theme == Given("dark") then DarkPalette else LightPalette;
      Unfill(FallbackFrags, FallbackHtml(c)) == Some([
        OrElse(c.position, "bottom-right"), OrElse(c.theme, "light"),
        palette.background, palette.text, palette.border,
        OrElse(c.title, "Hi there! Need help?"), OrElse(c.buttonText, "Start Chat")])
  {
    var palette := if c.theme == Given("dark") then DarkPalette else LightPalette;
    var holes := [
        OrElse(c.position, "bottom-right"), OrElse(c.theme, "light"),
        palette.background, palette.text, palette.border,
        OrElse(c.title, "Hi there! Need help?"), OrElse(c.buttonText, "Start Chat")];
    assert PaletteFor(c.theme) == palette;
    assert FallbackSeparator[0] == ' ' && BackgroundOpen[0] == ' ';
    assert ColorOpen[0] == ';' && BorderOpen[0] == ';' && TextOpen[0] == ';';
    assert FallbackButtonOpen[0] == '<';
    assert ';' !in palette.background && ';' !in palette.text && ';' !in palette.border;
    assert Delimited(FallbackFrags, holes);
    UnfillFill(FallbackFrags, holes);
  }

  /** The two palettes differ in every colour, so which one the fallback uses
      tells exactly whether the theme was "dark". */
  lemma PaletteExactlyDark(theme: Prop<string>)
    ensures PaletteFor(theme) == DarkPalette <==> theme == Given("dark")
    ensures PaletteFor(theme) == LightPalette <==> theme != Given("dark")
  {
  }

  datatype MountOutcome = MountOutcome(doc: DocState, result: Result<Option<Root>, DomError>)

  /** mountChatWidget: merge (onChatStart is kept for the component), find or
      create the container, clear it, then render through React, or write
      the fallback markup and return null when React is missing. A failure
      to append the container is passed on to the caller. */
  function MountSpec(d: DocState, config: ConfigObject): (out: MountOutcome)
    ensures out.result.Err? ==> out.doc == d
    ensures out.doc.registry == d.registry && out.doc.clickHandler == d.clickHandler
    ensures out.doc.hasBody == d.hasBody && out.doc.reactAvailable == d.reactAvailable
  {
    var final := Resolve(config);
    match FindOrCreate(d, IdString(final.containerId))
    case Err(e) => MountOutcome(d, Err(e))
    case Ok(p) =>
      var cleared := SetContent(p.doc, p.loc, Html(""));
      match CreateSafeRoot(cleared, p.loc)
      case Ok(root) => MountOutcome(SetContent(cleared, p.loc, Rendered(PropsOf(final))), Ok(Some(root)))
      case Err(_) => MountOutcome(SetContent(cleared, p.loc, Html(FallbackHtml(DisplayOf(final)))), Ok(None))
  }

  method Mount(page: Page, config: ConfigObject) returns (r: Result<Option<Root>, DomError>)
    modifies page
    ensures MountSpec(old(page.State()), config) == MountOutcome(page.State(), r)
  {
    var final := Resolve(config);
    var container := FindOrCreateContainer(page, IdString(final.containerId));
    if container.Err? {
      return Err(container.error);
    }
    var loc := container.value;
    page.SetInnerHtml(loc, Html(""));
    var root := CreateSafeRoot(page.State(), loc);
    if root.Ok? {
      page.SetInnerHtml(loc, Rendered(PropsOf(final)));
      return Ok(Some(root.value));
    }
    page.SetInnerHtml(loc, Html(FallbackHtml(DisplayOf(final))));
    return Ok(None);
  }

  function MountTarget(config: ConfigObject): string {
    IdString(Resolve(config).containerId)
  }

  /** With React available, mount returns a root over the container, which
      holds the tree rendered from the merged display fields and the
      caller's own onChatStart. */
  lemma MountRenders(d: DocState, config: ConfigObject)
    requires d.reactAvailable && MountSpec(d, config).result.Ok?
    ensures var out := MountSpec(d, config);
      && out.result.value.Some?
      && var loc := out.result.value.value.container;
      && ValidLoc(out.doc, loc)
      && At(out.doc, loc).id == MountTarget(config)
      && At(out.doc, loc).content == Rendered(Props(DisplayOf(Resolve(config)), config.onChatStart))
  {
  }

  /** Without React, mount returns null instead of failing, and the container
      holds the fallback markup of the merged configuration. */
  lemma MountFallsBack(d: DocState, config: ConfigObject)
    requires !d.reactAvailable && MountSpec(d, config).result.Ok?
    ensures var out := MountSpec(d, config);
      && out.result.value.None?
      && var loc := FindOrCreate(d, MountTarget(config)).value.loc;
      && ValidLoc(out.doc, loc)
      && At(out.doc, loc).id == MountTarget(config)
      && At(out.doc, loc).content == Html(FallbackHtml(DisplayOf(Resolve(config))))
  {
  }

  /** Mount fails only when no element has the id and there is no body; then
      nothing at all has changed, the fallback is not attempted, and the
      failure reaches the caller. */
  lemma MountFails(d: DocState, config: ConfigObject)
    ensures var out := MountSpec(d, config);
      && (out.result.Err? <==> Find(d, MountTarget(config)).None? && !d.hasBody)
      && (out.result.Err? ==> out.doc == d && out.result.error == BodyIsNull)
  {
  }

  /** Mount reuses the container or creates exactly one: with a non-empty id
      held by at most one element, exactly one element holds it afterwards,
      and the body grows exactly when there was none. The globals are
      untouched: this variant publishes no click handler. */
  lemma MountKeepsOneContainer(d: DocState, config: ConfigObject)
    requires MountTarget(config) != "" && Count(d, MountTarget(config)) <= 1
    requires MountSpec(d, config).result.Ok?
    ensures var out := MountSpec(d, config);
      && Count(out.doc, MountTarget(config)) == 1
      && (|out.doc.body| == |d.body| + 1 <==> Count(d, MountTarget(config)) == 0)
      && |out.doc.head| == |d.head|
      && out.doc.clickHandler == d.clickHandler && out.doc.registry == d.registry
  {
    var id := MountTarget(config);
    var final := Resolve(config);
    FindOrCreateKeepsOne(d, id);
    var p := FindOrCreate(d, id).value;
    var cleared := SetContent(p.doc, p.loc, Html(""));
    SetContentCount(p.doc, p.loc, Html(""), id);
    SetContentCount(cleared, p.loc, Rendered(PropsOf(final)), id);
    SetContentCount(cleared, p.loc, Html(FallbackHtml(DisplayOf(final))), id);
  }

  /** Mount adds nothing to the head and at most the container to the body,
      adds nothing when the container already exists, and changes no
      element other than the container. */
  lemma MountFrame(d: DocState, config: ConfigObject)
    ensures var out := MountSpec(d, config);
      var fc := FindOrCreate(d, MountTarget(config));
      && |out.doc.head| == |d.head|
      && |d.body| <= |out.doc.body| <= |d.body| + 1
      && (Find(d, MountTarget(config)).Some? ==> |out.doc.body| == |d.body|)
      && (forall j :: 0 <= j < |d.head| && !(fc.Ok? && fc.value.loc == InHead(j)) ==> out.doc.head[j] == d.head[j])
      && (forall j :: 0 <= j < |d.body| && !(fc.Ok? && fc.value.loc == InBody(j)) ==> out.doc.body[j] == d.body[j])
  {
  }

  /** The fallback never shows an empty title or button text: its `||`
      treats the empty string as missing and shows the default instead. */
  lemma EmptyTextFallsBack(c: Display)
    requires ' ' !in OrElse(c.position, "bottom-right")
    requires ' ' !in OrElse(c.theme, "light")
    requires '<' !in OrElse(c.title, "Hi there! Need help?")
    ensures var shown := Unfill(FallbackFrags, FallbackHtml(c));
      && shown.Some? && |shown.value| == 7
      && shown.value[5] != "" && shown.value[6] != ""
      && (c.title == Given("") ==> shown.value[5] == "Hi there! Need help?")
      && (c.buttonText == Given("") ==> shown.value[6] == "Start Chat")
  {
    FallbackShows(c);
  }

  /** `window.ChatWidget = { mount, unmount, config: defaultConfig }` */
  function InstallSpec(d: DocState): DocState {
    d.(registry := Some(Registry(ReactWithFallback, DefaultConfig)))
  }

  method Install(page: Page)
    modifies page
    ensures page.State() == InstallSpec(old(page.State()))
  {
    page.SetRegistry(Registry(ReactWithFallback, DefaultConfig));
  }

  datatype Op = MountOp(config: ConfigObject) | UnmountOp(arg: Prop<string>)

  function Step(d: DocState, op: Op): DocState {
    match op
    case MountOp(c) => MountSpec(d, c).doc
    case UnmountOp(a) => UnmountSpec(d, a)
  }

  function Run(d: DocState, ops: seq<Op>): DocState
    decreases |ops|
  {
    if |ops| == 0 then d else Run(Step(d, ops[0]), ops[1..])
  }

  lemma StepFrame(d: DocState, op: Op)
    ensures var s := Step(d, op);
      s.registry == d.registry && s.clickHandler == d.clickHandler && s.reactAvailable == d.reactAvailable
  {
  }

  /** However the global API is used, the published `config` keeps the
      default table, the click handler global is never written, and React's
      availability decides every mount the same way. */
  lemma {:induction false} RunKeepsGlobals(d: DocState, ops: seq<Op>)
    ensures var s := Run(d, ops);
      s.registry == d.registry && s.clickHandler == d.clickHandler && s.reactAvailable == d.reactAvailable
    decreases |ops|
  {
    if |ops| > 0 {
      StepFrame(d, ops[0]);
      RunKeepsGlobals(Step(d, ops[0]), ops[1..]);
    }
  }

  lemma RegistryKeepsDefaults(d: DocState, ops: seq<Op>)
    ensures Run(InstallSpec(d), ops).registry == Some(Registry(ReactWithFallback, DefaultConfig))
  {
    RunKeepsGlobals(InstallSpec(d), ops);
  }
}
