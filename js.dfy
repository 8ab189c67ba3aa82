/** Values of the JavaScript runtime that the widget code inspects. */
module Js {

  datatype Option<+T> = None | Some(value: T)

  datatype Result<+R, +E> = Ok(value: R) | Err(error: E)

  /** A property of a JavaScript object: not present at all, present with the
      value `undefined`, or present with a defined value. The difference
      between the first two matters to object spread. */
  datatype Prop<+T> = Absent | Undefined | Given(value: T)

  /** A function supplied by the host page, known only by its identity. */
  datatype Callback = Callback(name: string)

  /** A destructuring default `const { x = d } = obj`: applies when the
      property reads as undefined. */
  function OrDefault<T>(p: Prop<T>, d: T): T
  {
    match p
    case Given(v) => v
    case _ => d
  }

  /** `s || d` for a string-valued property: falls back when the value is
      falsy, that is undefined or the empty string. */
  function OrElse(p: Prop<string>, d: string): string
  {
    match p
    case Given(v) => if v != "" then v else d
    case _ => d
  }

  /** The string an id-taking DOM API sees: `undefined` converts to the
      string "undefined". */
  function IdString(p: Prop<string>): string
  {
    match p
    case Given(v) => v
    case _ => "undefined"
  }

  /** `||` and a destructuring default part ways on exactly one value: the
      empty string, which `||` treats as missing and a default keeps. */
  lemma OrElseVersusOrDefault(p: Prop<string>, d: string)
    ensures OrElse(p, d) == if p == Given("") then d else OrDefault(p, d)
    ensures OrElse(p, d) != OrDefault(p, d) <==> p == Given("") && d != ""
  {
  }
}
