/** The error messages of the built-in functions (eval/error.go). Every
    message is the function's label in parentheses followed by the text;
    `%d` prints a decimal integer. */
module Errors {

  import opened Outcomes
  import opened Text
  import opened Values
  import Types

  /** `ErrorMessage`. */
  function ErrorMessage(l: string, m: string): string {
    "(" + l + ") " + m
  }

  /** The first closing parenthesis of a message is the one after the
      label. */
  lemma FirstClose(l: string, m: string)
    requires forall i :: 0 <= i < |l| ==> l[i] != ')'
    ensures |ErrorMessage(l, m)| > 1 + |l| && ErrorMessage(l, m)[1 + |l|] == ')'
    ensures forall i :: 0 <= i < 1 + |l| ==> ErrorMessage(l, m)[i] != ')'
    ensures ErrorMessage(l, m)[1..1 + |l|] == l && ErrorMessage(l, m)[3 + |l|..] == m
  {
    var s := ErrorMessage(l, m);
    assert forall i :: 1 <= i < 1 + |l| ==> s[i] == l[i - 1];
  }

  /** Labels never contain a closing parenthesis, so the label and the text
      can be read back from a message. */
  lemma ErrorMessageInjective(l1: string, m1: string, l2: string, m2: string)
    requires forall i :: 0 <= i < |l1| ==> l1[i] != ')'
    requires forall i :: 0 <= i < |l2| ==> l2[i] != ')'
    requires ErrorMessage(l1, m1) == ErrorMessage(l2, m2)
    ensures l1 == l2 && m1 == m2
  {
    FirstClose(l1, m1);
    FirstClose(l2, m2);
  }

  /** `TooManyArgs`; it uses the text of `TooFewArgs`. */
  function TooManyArgs(l: string, provided: int, expected: int): Error {
    Error(ErrorMessage(l, "Wrong number of arguments (" + IntToString(provided) + " while at least "
                          + IntToString(expected) + " arguments are expected)"))
  }

  function TooFewArgs(l: string, provided: int, expected: int): Error {
    Error(ErrorMessage(l, "Wrong number of arguments (" + IntToString(provided) + " while at least "
                          + IntToString(expected) + " arguments are expected)"))
  }

  function WrongNumberOfArgs(l: string, provided: int, expected: int): Error {
    Error(ErrorMessage(l, "Wrong number of arguments (" + IntToString(provided) + " instead of "
                          + IntToString(expected) + ")"))
  }

  /** Too many and too few arguments read the same: both say "at least";
      the "instead of" message is a different one. */
  lemma ArgumentCountMessages(l: string, provided: int, expected: int)
    ensures TooManyArgs(l, provided, expected) == TooFewArgs(l, provided, expected)
    ensures WrongNumberOfArgs(l, provided, expected) != TooFewArgs(l, provided, expected)
  {
    var tail := IntToString(provided);
    var few := ErrorMessage(l, "Wrong number of arguments (" + tail + " while at least "
                               + IntToString(expected) + " arguments are expected)");
    var wrong := ErrorMessage(l, "Wrong number of arguments (" + tail + " instead of "
                                 + IntToString(expected) + ")");
    var k := |"(" + l + ") " + "Wrong number of arguments (" + tail|;
    assert few[k + 1] == 'w';
    assert wrong[k + 1] == 'i';
  }

  /** `WrongTypeOfArg`: the type name of the argument and its 1-based
      position. Asking a nil argument for its type panics. */
  function WrongTypeOfArg(l: string, idx: int, param: Value): (r: Error)
    ensures param.Nil? <==> r == NilDereference
  {
    match TypeOf(param)
    case Fail(e) => e
    case Ok(t) => Error(ErrorMessage(l, "unsupported type '" + t.name + "' for param " + IntToString(idx)))
  }

  /** `InvalidVarName`: reports the argument's type name, not its text, in a
      message that cannot be mistaken for the wrong-type one. */
  function InvalidVarName(l: string, idx: int, param: Value): (r: Error)
    ensures param.Nil? <==> r == NilDereference
    ensures !param.Nil? ==> r.Error? && r != WrongTypeOfArg(l, idx, param)
  {
    match TypeOf(param)
    case Fail(e) => e
    case Ok(t) =>
      var r := Error(ErrorMessage(l, "invalid variable name '" + t.name + "' for param " + IntToString(idx)));
      assert r.message[|l| + 3] == 'i';
      assert WrongTypeOfArg(l, idx, param).message[|l| + 3] == 'u';
      r
  }

  /** `CheckVariableName`: only hidden names, those starting with "_", are
      rejected. */
  function CheckVariableName(l: string, idx: int, param: Value): (r: Option<Error>)
    requires Printable(param)
    ensures r.Some? <==> HasPrefix(String(param), "_")
    ensures r.Some? ==> r.value == InvalidVarName(l, idx, param)
  {
    if HasPrefix(String(param), "_") then Some(InvalidVarName(l, idx, param)) else None
  }

  /** The rejection of a hidden symbol names its type, "symbol", and never
      the offending text itself. */
  lemma HiddenSymbolMessage(l: string, idx: int, name: string)
    requires HasPrefix(name, "_")
    ensures CheckVariableName(l, idx, Symbol(name))
            == Some(Error(ErrorMessage(l, "invalid variable name 'symbol' for param " + IntToString(idx))))
  {
    assert String(Symbol(name)) == name;
    assert TypeOf(Symbol(name)) == Ok(Types.TypeSymbol);
    assert "invalid variable name '" + "symbol" + "' for param " == "invalid variable name 'symbol' for param ";
  }
}
