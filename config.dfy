/** The widget configuration object and the shallow merge that resolves it. */
module Config {
  import opened Js

  /** A configuration object as the caller writes it: every property may be
      left out, given as `undefined`, or given a value. Position and theme
      are plain strings because nothing checks them at run time. */
  datatype ConfigObject = ConfigObject(
    position: Prop<string>,
    theme: Prop<string>,
    title: Prop<string>,
    buttonText: Prop<string>,
    onChatStart: Prop<Callback>,
    containerId: Prop<string>,
    autoMount: Prop<bool>)

  /** The property names of a configuration object and the values they hold,
      used to state the merge key by key. */
  datatype Key = Position | Theme | Title | ButtonText | OnChatStart | ContainerId | AutoMount
  datatype Value = Str(s: string) | Fn(cb: Callback) | Bool(b: bool)

  function Lift<T>(p: Prop<T>, f: T -> Value): Prop<Value> {
    match p
    case Absent => Absent
    case Undefined => Undefined
    case Given(v) => Given(f(v))
  }

  function Get(o: ConfigObject, k: Key): Prop<Value> {
    match k
    case Position => Lift(o.position, s => Str(s))
    case Theme => Lift(o.theme, s => Str(s))
    case Title => Lift(o.title, s => Str(s))
    case ButtonText => Lift(o.buttonText, s => Str(s))
    case OnChatStart => Lift(o.onChatStart, cb => Fn(cb))
    case ContainerId => Lift(o.containerId, s => Str(s))
    case AutoMount => Lift(o.autoMount, b => Bool(b))
  }

  const DefaultPosition := "bottom-right"
  const DefaultTheme := "light"
  const DefaultTitle := "Hi there! Need help?"
  const DefaultButtonText := "Start Chat"
  const DefaultContainerId := "chat-widget-container"

  /** The default table; it has no `onChatStart` property. */
  const DefaultConfig := ConfigObject(
    Given(DefaultPosition), Given(DefaultTheme), Given(DefaultTitle),
    Given(DefaultButtonText), Absent, Given(DefaultContainerId), Given(true))

  const EmptyConfig: ConfigObject := ConfigObject(Absent, Absent, Absent, Absent, Absent, Absent, Absent)

  /** One property of `{...a, ...b}`: b's own property wins whenever b has it,
      even when its value is `undefined`. */
  function Override<T>(a: Prop<T>, b: Prop<T>): Prop<T> {
    if b.Absent? then a else b
  }

  /** Object spread `{...a, ...b}`. */
  function Spread(a: ConfigObject, b: ConfigObject): (r: ConfigObject)
    ensures forall k :: Get(r, k) == (if Get(b, k).Absent? then Get(a, k) else Get(b, k))
  {
    ConfigObject(
      Override(a.position, b.position), Override(a.theme, b.theme),
      Override(a.title, b.title), Override(a.buttonText, b.buttonText),
      Override(a.onChatStart, b.onChatStart), Override(a.containerId, b.containerId),
      Override(a.autoMount, b.autoMount))
  }

  /** `{ ...defaultConfig, ...config }` */
  function Resolve(config: ConfigObject): (r: ConfigObject)
    ensures forall k :: Get(config, k).Absent? ==> Get(r, k) == Get(DefaultConfig, k)
    ensures forall k :: !Get(config, k).Absent? ==> Get(r, k) == Get(config, k)
  {
    Spread(DefaultConfig, config)
  }

  /** The fields left after `containerId`, `autoMount` and `onChatStart` are
      destructured away: what the markup builder receives. */
  datatype Display = Display(position: Prop<string>, theme: Prop<string>, title: Prop<string>, buttonText: Prop<string>)

  /** The fields left after only `containerId` and `autoMount` are
      destructured away: what the React component receives. */
  datatype Props = Props(display: Display, onChatStart: Prop<Callback>)

  function DisplayOf(c: ConfigObject): Display {
    Display(c.position, c.theme, c.title, c.buttonText)
  }

  function PropsOf(c: ConfigObject): Props {
    Props(DisplayOf(c), c.onChatStart)
  }

  /** Each field of the resolved configuration is the caller's property when
      the caller has one (a value or an explicit undefined) and the default
      otherwise; the defaults are the documented table. */
  lemma ResolveFields(config: ConfigObject)
    ensures var r := Resolve(config);
      && r.position == (if config.position.Absent? then Given("bottom-right") else config.position)
      && r.theme == (if config.theme.Absent? then Given("light") else config.theme)
      && r.title == (if config.title.Absent? then Given("Hi there! Need help?") else config.title)
      && r.buttonText == (if config.buttonText.Absent? then Given("Start Chat") else config.buttonText)
      && r.onChatStart == config.onChatStart
      && r.containerId == (if config.containerId.Absent? then Given("chat-widget-container") else config.containerId)
      && r.autoMount == (if config.autoMount.Absent? then Given(true) else config.autoMount)
  {
  }

  /** Only the caller's own properties change the result: whatever the
      caller leaves out reads exactly as in the default table. */
  lemma ResolveAbsentKeepsDefault(config: ConfigObject, k: Key)
    requires Get(config, k).Absent?
    ensures Get(Resolve(config), k) == Get(DefaultConfig, k)
  {
  }

  /** Every property but `onChatStart` is present after the merge. */
  lemma ResolvePresent(config: ConfigObject, k: Key)
    requires k != OnChatStart
    ensures !Get(Resolve(config), k).Absent?
  {
  }

  /** Resolving a configuration that is already resolved changes nothing, and
      resolving with no configuration gives the default table. */
  lemma ResolveIdempotent(config: ConfigObject)
    ensures Resolve(Resolve(config)) == Resolve(config)
    ensures Resolve(EmptyConfig) == DefaultConfig
  {
  }
}
