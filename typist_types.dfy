/** The value types the typist engine works on: typed lines, splitters and
    the compiled animation instructions. */
module TypistTypes {

  /** One line of the typed output: a (partial) string, an opaque element
      (identified by a token, never shown partially), or the placeholder a
      fully backspaced line leaves behind so that line indices stay stable. */
  datatype Line = Str(text: string) | Node(id: nat) | Null

  type TypedLines = seq<Line>

  /** Splits a string into the units that are typed and erased one at a time. */
  type Splitter = string -> seq<string>

  /** The instructions the action compiler produces, in the order they run.
      A paste payload is appended as it is, so it may be any line. */
  datatype Action =
    | TypeString(text: string)
    | TypeElement(element: nat)
    | Backspace(amount: int)
    | Pause(delay: int)
    | Paste(payload: Line)

  /** `units.join('')`: the units concatenated in order. */
  function Join(units: seq<string>): string
  {
    if units == [] then "" else Join(units[..|units| - 1]) + units[|units| - 1]
  }

  /** `units.slice(0, -1)`: every unit but the last; empty stays empty. */
  function DropLast(units: seq<string>): (r: seq<string>)
    ensures |units| > 0 ==> |r| == |units| - 1 && units == r + [units[|units| - 1]]
    ensures |units| == 0 ==> r == []
  {
    if |units| == 0 then [] else units[..|units| - 1]
  }

  /** The joined string is empty exactly when every unit is empty. */
  lemma {:induction false} JoinEmpty(units: seq<string>)
    ensures Join(units) == "" <==> forall i :: 0 <= i < |units| ==> units[i] == ""
  {
    if units != [] {
      var init := units[..|units| - 1];
      JoinEmpty(init);
      assert forall i :: 0 <= i < |init| ==> init[i] == units[i];
    }
  }
}
