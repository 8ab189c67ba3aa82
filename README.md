# Chat widget mount/unmount lifecycle — a Dafny model

The repository ships an embeddable chat widget: a floating panel with a title
and a button, mounted into a host page by a script. This project models the
core of its two script variants:

- `src/embed-no-react.tsx` (module `EmbedNoReact`): merges the caller's
  configuration over a default table and injects a style sheet once. It finds
  or creates the container element, overwrites it with markup built by
  `createWidgetHTML`, and publishes the click handler as
  `window.chatWidgetHandleClick`.
- `src/embed-robust.tsx` (module `EmbedRobust`): merges the same way, then finds
  or creates and clears the container. When `window.React` is present it renders
  through React and returns the root. Otherwise it writes fallback markup and
  returns null.

Both variants share the `unmountChatWidget` behaviour and publish
`window.ChatWidget = { mount, unmount, config: defaultConfig }`.

Modules:

- `Js` holds JavaScript notions: a property is absent, explicitly `undefined`, or
  given (`Prop`). It also holds destructuring defaults, the `||` fallback for
  strings, and the conversion of `undefined` to the id string `"undefined"`.
- `Config` holds the configuration object, the default table, and the object
  spread `{...defaultConfig, ...config}` (`Spread`, `Resolve`). It also holds the
  field subsets each variant passes on: `Display` for markup, and `Props` for
  React, which keeps `onChatStart`.
- `Template` models template literals. `Fill` interpolates the holes without
  escaping. `Unfill` decodes them back. `UnfillFill` is the round trip.
- `Dom` models the document as the head and body elements in document order,
  plus the window globals the widget touches. `getElementById` is `Find`: the
  first element in document order, and the empty string names no element. The
  class `Page` holds this state and offers the DOM operations the widget uses
  (`appendChild`, `innerHTML =`, `remove()`, global assignments). Each operation
  is specified by a pure function on the `DocState` value.
- `Container` models finding or creating the container, which is the same code
  in both variants, and `unmountChatWidget`, which is identical in both.
- `EmbedNoReact` and `EmbedRobust` each hold a `Mount` method on a `Page`. Each
  method is proved equal to a pure `MountSpec`. The lemmas state the promised
  behaviour of `MountSpec`, and `Run` covers sequences of calls.

Behaviour of the code worth knowing:

- An explicit `undefined` in the caller's object overrides the default, because
  that is what object spread does. The markup-only variant's destructuring
  defaults re-default the display fields (`UndefinedShowsLikeOmitted`). A
  `containerId: undefined` makes the id the string `"undefined"`.
- A mount that fails does not avoid partial mutation. In the markup-only
  variant, the styles are already injected when appending the container to a
  missing body fails.
- The fallback's button runs `this.parentElement.remove()`. It does not call
  `onChatStart`, and the React variant never sets `window.chatWidgetHandleClick`.
  So a click calls the most recent mount's callback only in the markup-only
  variant.
- Unmount removes the container element but does not unmount a React root
  created over it.
- "Exactly one container per id" holds only when the host page had at most one
  element with that id and the id is non-empty. With an empty id, every mount
  appends another container (`EmptyIdAlwaysCreates`). With a duplicated id, a
  second unmount removes the second element (`UnmountTwiceWithDuplicateId`).

## Model

| member | source | states |
|---|---|---|
| `Js.OrElseVersusOrDefault` | src/embed-robust.tsx:67-70 | `s \|\| d` and the destructuring default `{ s = d }` (src/embed-no-react.tsx:127) give the same value except on the empty string, where `\|\|` shows the default and the destructuring default shows the empty string |
| `Config.Spread` | src/embed-no-react.tsx:141 | key by key, the second object's own property wins whenever present (even if `undefined`); otherwise the first object's |
| `Config.Resolve` | src/embed-no-react.tsx:141 | a property the caller leaves out reads as in the default table; a property the caller has (even `undefined`) is kept as given |
| `Config.ResolveFields` | src/embed-no-react.tsx:13-20 | every merged field is the caller's property when present, else the default: bottom-right, light, 'Hi there! Need help?', 'Start Chat', 'chat-widget-container', autoMount true; onChatStart has no default |
| `Config.ResolveAbsentKeepsDefault` | src/embed-robust.tsx:37 | a property the caller leaves out reads as in the default table (the robust variant merges the same table, lines 11-18) |
| `Config.ResolvePresent` | src/embed-no-react.tsx:141-142 | every property except onChatStart is present after the merge, so the destructured `containerId` is never missing |
| `Config.ResolveIdempotent` | src/embed-no-react.tsx:141 | merging an already merged configuration changes nothing; `mount()` with no argument yields the default table |
| `Template.Unfill` | src/embed-no-react.tsx:129-136 | a decoded template has exactly one value per hole |
| `Template.UnfillFill` | src/embed-no-react.tsx:129-136 | filling a template literal and decoding it gives back the interpolated values whenever no value contains the character that opens the next fragment |
| `Dom.FirstWithId` | src/embed-no-react.tsx:149 | the index found holds the id and no earlier element does; none is found only when no element holds it |
| `Dom.Find` | src/embed-no-react.tsx:117 | getElementById returns a valid location holding the id, and no element before it in document order (head, then body) holds the id; it returns nothing for the empty id or when no element holds the id |
| `Dom.FindCount` | src/embed-no-react.tsx:150 | getElementById finds nothing exactly when no element carries the non-empty id |
| `Dom.AppendToBody` | src/embed-no-react.tsx:154 | appending succeeds exactly when the body exists; the new state is the old one with the element added at the end of the body, so head and window globals are unchanged |
| `Dom.SetContent` | src/embed-no-react.tsx:162 | assigning `innerHTML` changes only that element's content: every other element, the window globals and the body's presence stay as they were |
| `Dom.SetContentTwice` | src/embed-no-react.tsx:157-162 | clearing the content before assigning it leaves only the assigned markup |
| `Dom.RemoveAtCount` | src/embed-no-react.tsx:186 | `remove()` lowers the count of the removed element's id by one and leaves all other counts |
| `Dom.AppendToHead` | src/embed-no-react.tsx:121 | the head grows by the new element at its end, keeping its old elements; nothing else changes |
| `Dom.RemoveAt` | src/embed-no-react.tsx:186 | `remove()` takes the element out of its list, the later elements shift down by one, the earlier ones and the other list stay, and no global changes |
| `Dom.Page.AppendChildToHead` | src/embed-no-react.tsx:121 | appends to the head in place |
| `Dom.Page.AppendChildToBody` | src/embed-no-react.tsx:154 | appends to the body in place, or fails with nothing changed when the body is null |
| `Dom.Page.SetInnerHtml` | src/embed-robust.tsx:51 | overwrites one element's content in place |
| `Dom.Page.RemoveElement` | src/embed-robust.tsx:89 | removes one element in place |
| `Dom.Page.SetClickHandler` | src/embed-no-react.tsx:165-171 | assigns `window.chatWidgetHandleClick` |
| `Dom.Page.SetRegistry` | src/embed-no-react.tsx:197-201 | assigns `window.ChatWidget` |
| `Container.FindOrCreate` | src/embed-no-react.tsx:149-155 | an existing element with the id is reused unchanged; only when none exists is a div with class 'chat-widget-container' appended to the body; failure happens exactly when none exists and the body is null |
| `Container.FindOrCreateContainer` | src/embed-robust.tsx:42-48 | the in-place find-or-create step equals `FindOrCreate` |
| `Container.FindOrCreateKeepsOne` | src/embed-no-react.tsx:149-155 | with a non-empty id held by at most one element, exactly one holds it afterwards, getElementById finds it, and the body grows exactly when none existed |
| `Container.EmptyIdAlwaysCreates` | src/embed-no-react.tsx:149-154 | with the empty id, a new container is appended on every call |
| `Container.UnmountSpec` | src/embed-no-react.tsx:182-192 | unmount leaves the page as it was when getElementById finds nothing, and otherwise the new page is exactly `RemoveAt` of the element found: that element is gone, every other element stays in order, and no global changes (counts per id in `UnmountEffect`) |
| `Container.Unmount` | src/embed-no-react.tsx:182-192 | the in-place unmount equals `UnmountSpec`: removes the element found, if any, and never fails |
| `Container.UnmountEffect` | src/embed-robust.tsx:85-95 | on the flattened document, unmount removes one element carrying the id when there is one and otherwise leaves the document unchanged; it never touches the handler or registry |
| `Container.UnmountIdempotent` | src/embed-no-react.tsx:184-188 | unmounting twice equals unmounting once when the id is not duplicated |
| `Container.UnmountTwiceWithDuplicateId` | src/embed-no-react.tsx:184-186 | with two elements sharing the id, a second unmount removes the second one |
| `EmbedNoReact.InjectStyles` | src/embed-no-react.tsx:116-123 | when no element has the styles id, the `<style>` element holding the widget sheet is appended to the end of the head and nothing else changes; when one exists, nothing changes; afterwards getElementById finds an element with the id (counts in `InjectStylesCount`) |
| `EmbedNoReact.InjectStylesInto` | src/embed-no-react.tsx:116-123 | the in-place injection equals `InjectStyles`: append the style element only when no element has its id |
| `EmbedNoReact.InjectStylesCount` | src/embed-no-react.tsx:116-123 | injection adds one element with the styles id exactly when there was none, leaves the body, and leaves the style element findable |
| `EmbedNoReact.CreateWidgetHtml` | src/embed-no-react.tsx:126-137 | the widget markup; what it shows is stated by `CreateWidgetHtmlShows`, `EmptyTextShownInMarkup` and `MarkupNotEscaped` |
| `EmbedNoReact.CreateWidgetHtmlShows` | src/embed-no-react.tsx:126-137 | the markup carries position and theme as class tokens, the title and the button text; each is the caller's value when defined, else the default; all decode back from the markup |
| `EmbedNoReact.MarkupNotEscaped` | src/embed-no-react.tsx:131-133 | a title containing the text between the title and button slots renders identically to a different title and button text: nothing is escaped |
| `EmbedNoReact.UndefinedShowsLikeOmitted` | src/embed-no-react.tsx:127-141 | an explicit undefined title or button text renders the same markup as an omitted one |
| `EmbedNoReact.HandlerFor` | src/embed-no-react.tsx:165-171 | clicking the published handler (`Click` models the button's `onclick`, src/embed-no-react.tsx:132, which does nothing while no handler is set) calls the caller's onChatStart when given, and only logs otherwise |
| `EmbedNoReact.MountSpec` | src/embed-no-react.tsx:140-179 | mount never writes the registry or the body's presence; a failure leaves exactly the injected styles; after a success a click calls the caller's onChatStart or logs |
| `EmbedNoReact.Mount` | src/embed-no-react.tsx:140-179 | the in-place mount equals `MountSpec` on the page state and its result |
| `EmbedNoReact.MountShows` | src/embed-no-react.tsx:158-171 | after a successful mount, the container holds the configured id and the markup of the merged display fields; a click calls the caller's onChatStart, or logs when none was given |
| `EmbedNoReact.MountFails` | src/embed-no-react.tsx:144-178 | mount fails exactly when no element has the id and there is no body; the styles stay injected and the error reaches the caller |
| `EmbedNoReact.MountKeepsOneContainer` | src/embed-no-react.tsx:148-155 | with a non-empty id held by at most one element, exactly one holds it afterwards and getElementById returns the container; a new one is created exactly when none existed |
| `EmbedNoReact.MountFrame` | src/embed-no-react.tsx:141-171 | on the flattened document, the head grows by one element exactly when no element had the styles id, the body grows by at most one and not at all when the container was found, no element but the container changes, and the registry is never written (`defaultConfig` is not mutated) |
| `EmbedNoReact.MountKeepsStyleElement` | src/embed-no-react.tsx:116-162 | a mount into any other container leaves getElementById('chat-widget-styles') finding the widget's `<style>` element when the page had none, and otherwise the page's own element, unchanged: the style sheet is injected once and never replaced |
| `EmbedNoReact.MountStylesOnce` | src/embed-no-react.tsx:146 | the count of elements with the styles id becomes one if it was zero and is otherwise unchanged |
| `EmbedNoReact.SecondMountWins` | src/embed-no-react.tsx:149-162 | a second mount with the same id reuses the one container, adds nothing, and shows only the second configuration |
| `EmbedNoReact.Install` | src/embed-no-react.tsx:197-201 | publishes the registry with the default configuration |
| `EmbedNoReact.RunKeepsRegistry` | src/embed-no-react.tsx:141 | no sequence of mounts and unmounts changes the registry or the body's presence |
| `EmbedNoReact.RegistryKeepsDefaults` | src/embed-no-react.tsx:197-201 | after installation, `window.ChatWidget.config` is the default table whatever calls follow |
| `EmbedNoReact.RunStylesOnce` | src/embed-no-react.tsx:116-123 | over any sequence of calls not naming the styles id, the style count becomes one at the first mount and never changes otherwise |
| `EmbedNoReact.UnmountsKeepHandler` | src/embed-no-react.tsx:182-192 | unmounts never change the published click handler |
| `EmbedNoReact.MostRecentMountWins` | src/embed-no-react.tsx:165-171 | on a page with a body, a click calls the callback of the last mount, or logs when that mount gave none, whatever preceded it and whatever unmounts followed |
| `EmbedNoReact.EmptyTextShownInMarkup` | src/embed-no-react.tsx:127 | for every configuration whose values decode, the title (button text) slot of the markup is empty exactly when the caller gave the empty string |
| `EmbedNoReact.UndefinedIdNotUnmounted` | src/embed-no-react.tsx:141-184 | mounting with `containerId: undefined` creates a container with the id 'undefined', and `unmountChatWidget(undefined)` then looks for the default id and leaves it in place |
| `EmbedNoReact.ScenarioMount` | src/embed-no-react.tsx:140-171 | mounting top-left, dark, 'Hey', 'Go', f on a page without the container yields one container showing exactly those values, and a click calls f |
| `EmbedNoReact.ScenarioUnmount` | src/embed-no-react.tsx:182-192 | a following default unmount leaves getElementById finding nothing |
| `EmbedRobust.PaletteFor` | src/embed-robust.tsx:66 | the three colours are the dark palette when the theme is the string 'dark' and the light palette otherwise |
| `EmbedRobust.FallbackHtml` | src/embed-robust.tsx:64-73 | the fallback markup; what it shows is stated by `FallbackShows` and `EmptyTextFallsBack` |
| `EmbedRobust.FallbackShows` | src/embed-robust.tsx:64-73 | the fallback carries position and theme tokens, the dark palette exactly when theme is 'dark' (light otherwise), the title and the button text, with `\|\|` defaults; all decode back |
| `EmbedRobust.PaletteExactlyDark` | src/embed-robust.tsx:66 | the dark colours are chosen if and only if the theme is the string 'dark' |
| `EmbedRobust.MountSpec` | src/embed-robust.tsx:36-82 | a failed mount changes nothing; no mount writes the registry, the click handler, the body's presence or React's availability |
| `EmbedRobust.Mount` | src/embed-robust.tsx:36-82 | the in-place mount equals `MountSpec` on the page state and its result |
| `EmbedRobust.MountRenders` | src/embed-robust.tsx:54-59 | with React available, mount returns a root over the container, which holds the render of the display fields and the caller's onChatStart (not stripped) |
| `EmbedRobust.MountFallsBack` | src/embed-robust.tsx:60-77 | without React, mount returns null instead of failing, and the container holds the fallback markup of the merged configuration |
| `EmbedRobust.MountFails` | src/embed-robust.tsx:78-81 | mount fails exactly when no element has the id and the body is null; nothing has changed and the error reaches the caller |
| `EmbedRobust.MountKeepsOneContainer` | src/embed-robust.tsx:42-51 | the container is reused or exactly one is created; the body grows exactly when none existed; handler and registry are untouched |
| `EmbedRobust.MountFrame` | src/embed-robust.tsx:42-51 | on the flattened document, mount adds nothing to the head and at most the container to the body, adds nothing when the container already exists, and changes no element other than the container |
| `EmbedRobust.EmptyTextFallsBack` | src/embed-robust.tsx:67-70 | for every configuration whose values decode, the fallback never shows an empty title or button text, and an empty one shows the default |
| `EmbedRobust.Install` | src/embed-robust.tsx:100-104 | publishes the registry with the default configuration |
| `EmbedRobust.RunKeepsGlobals` | src/embed-robust.tsx:36-95 | no sequence of mounts and unmounts changes the registry, the click handler or React's availability |
| `EmbedRobust.RegistryKeepsDefaults` | src/embed-robust.tsx:100-104 | after installation, `window.ChatWidget.config` is the default table whatever calls follow |

## Left out

- Auto-initialisation is not modelled. This covers the `document.readyState` / `DOMContentLoaded` wait and the 100 ms and 500 ms timers (src/embed-no-react.tsx:203-222, src/embed-robust.tsx:106-127). These are event and timer plumbing; the one mount they perform is `Mount` with the empty configuration.
- The CommonJS `module.exports` exposure is not modelled; it is packaging only.
- The CSS text of the style sheet and the inline style values other than the three palette colours are not modelled. The style sheet is the opaque `WidgetStyleSheet`. The model therefore does not relate class tokens to selectors. The sheet's selectors are `.theme-light` / `.theme-dark`, while `createWidgetHTML` emits `light` / `dark`.
- React rendering is not modelled. `createRoot(...).render` is the opaque content `Rendered(props)`. The `ChatWidget` component in src/widget.tsx ignores its props anyway.
- Console logging is not modelled.
- HTML escaping is not modelled, because the source does none. `MarkupNotEscaped` shows the consequence, and the decode lemmas carry conditions on the values for that reason.
- `document.head` is assumed present. Only a missing `document.body` is modelled as a failure. The try/catch in unmount guards nothing the model can raise.
- The document's tree structure is flattened into the head and body element lists in document order. Nesting in the host page is not represented, with two consequences the `MountFrame`, `UnmountEffect` and `UnmountSpec` rows hold only around:
  - Clearing or overwriting the container (`innerHTML`, src/embed-no-react.tsx:158-162, src/embed-robust.tsx:51) and `remove()` (src/embed-no-react.tsx:186, src/embed-robust.tsx:89) detach the container's descendants. In the model, an element with an id that the host page had nested inside the container stays findable by getElementById.
  - Assigning `innerHTML` parses the unescaped markup into elements. A title such as `<i id="x"></i>` makes `x` findable in the browser, and `unmountChatWidget('x')` then removes it; in the model the markup is a string, so no element has the id `x` and that unmount does nothing.
  The rows are faithful for pages with no id-carrying element inside the container and for titles and button texts without markup.
- `window.ChatWidget.config` is the same object as `defaultConfig`. A host page that writes to it would change the defaults of later mounts. The model treats `defaultConfig` as a constant, since no widget code writes it.
- Validation of position and theme is not modelled, because the source performs none at run time. Both are arbitrary strings.
- The script loader with its `<script>` injection and readiness detection (debug-widget.tsx, react-integration-example.tsx, simple-react-integration.tsx) is not modelled. src/embed.tsx, src/widget.tsx, src/App.tsx and vite.config.ts are not part of this model either.
- The root returned by the React variant is only a value naming its container. Its later lifetime (React's asynchronous render, never unmounting it) is not modelled.
