/**
 * The two enumerations of the domain, Sport and Specifier, and their
 * case-insensitive `fromString` lookups, which throw IllegalArgumentException
 * on a name they do not know.
 */
module Enums {
  import opened Util
  import opened Strings

  datatype Sport = FOOTBALL | BASKETBALL

  datatype Specifier = WIN | DRAW | LOSE

  /** Sport.name(). */
  function SportName(s: Sport): string {
    match s
    case FOOTBALL => "FOOTBALL"
    case BASKETBALL => "BASKETBALL"
  }

  /** Specifier.name(). */
  function SpecifierName(s: Specifier): string {
    match s
    case WIN => "WIN"
    case DRAW => "DRAW"
    case LOSE => "LOSE"
  }

  /** Sport.values(), in declaration order. */
  const SportValues: seq<Sport> := [FOOTBALL, BASKETBALL]

  /** Specifier.values(), in declaration order. */
  const SpecifierValues: seq<Specifier> := [WIN, DRAW, LOSE]

  /** A call that either returns a constant or throws IllegalArgumentException. */
  datatype Lookup<+T> = Found(value: T) | IllegalArgument(message: string)

  /** How Java's string concatenation prints a possibly-null string. */
  function Printed(value: Option<string>): string {
    if value.None? then "null" else value.value
  }

  /** The message both `fromString` methods throw: the kind, the value as printed, the allowed names. */
  function RejectionMessage(kind: string, value: Option<string>, allowed: string): string {
    "Invalid " + kind + " value: " + Printed(value) + ". Allowed values are: " + allowed + "."
  }

  /** Collectors.joining(separator) over the names of the given constants. */
  function JoinNames<T>(values: seq<T>, name: T -> string, separator: string): string {
    if values == [] then ""
    else if |values| == 1 then name(values[0])
    else name(values[0]) + separator + JoinNames(values[1..], name, separator)
  }

  /** values[i] is the first constant whose name equals s ignoring case. */
  predicate IsFirstNamed<T>(values: seq<T>, name: T -> string, s: string, i: nat) {
    && i < |values|
    && EqualsIgnoreCase(name(values[i]), s)
    && forall j :: 0 <= j < i ==> !EqualsIgnoreCase(name(values[j]), s)
  }

  /**
   * The loop of both `fromString` methods: walk the constants in order and
   * stop at the first whose name equals the input ignoring case. A null input
   * matches nothing, as `equalsIgnoreCase(null)` is false.
   */
  function FirstNamed<T(==)>(values: seq<T>, name: T -> string, value: Option<string>): (r: Option<T>)
    ensures r.Some? ==> value.Some? && exists i: nat | i < |values| :: IsFirstNamed(values, name, value.value, i) && values[i] == r.value
    ensures r.None? ==> value.None? || forall i :: 0 <= i < |values| ==> !EqualsIgnoreCase(name(values[i]), value.value)
  {
    if value.None? || values == [] then None
    else if EqualsIgnoreCase(name(values[0]), value.value) then
      assert IsFirstNamed(values, name, value.value, 0);
      Some(values[0])
    else
      var r := FirstNamed(values[1..], name, value);
      if r.Some? then
        var i: nat :| i < |values| - 1 && IsFirstNamed(values[1..], name, value.value, i) && values[1..][i] == r.value;
        assert IsFirstNamed(values, name, value.value, i + 1);
        r
      else
        r
  }

  /** Two names equal ignoring case to one input are equal ignoring case to each other. */
  lemma EqualsIgnoreCaseThrough(a: string, s: string, b: string)
    requires EqualsIgnoreCase(a, s) && EqualsIgnoreCase(b, s)
    ensures EqualsIgnoreCase(a, b)
  {
    EqualsIgnoreCaseIffSameLower(a, s);
    EqualsIgnoreCaseIffSameLower(b, s);
    EqualsIgnoreCaseIffSameLower(a, b);
  }

  /** No two sports have names equal ignoring case. */
  lemma SportNamesDistinct(x: Sport, y: Sport)
    ensures EqualsIgnoreCase(SportName(x), SportName(y)) ==> x == y
  {
  }

  /** No two specifiers have names equal ignoring case. */
  lemma SpecifierNamesDistinct(x: Specifier, y: Specifier)
    ensures EqualsIgnoreCase(SpecifierName(x), SpecifierName(y)) ==> x == y
  {
    if x != y && |SpecifierName(x)| == |SpecifierName(y)| {
      assert !CharEqualsIgnoreCase(SpecifierName(x)[0], SpecifierName(y)[0]);
    }
  }

  /** The allowed sports as the rejection lists them. */
  lemma SportNamesJoined()
    ensures JoinNames(SportValues, SportName, " or ") == "FOOTBALL or BASKETBALL"
  {
  }

  /** The allowed specifiers as the rejection lists them. */
  lemma SpecifierNamesJoined()
    ensures JoinNames(SpecifierValues, SpecifierName, " or ") == "WIN or DRAW or LOSE"
  {
  }

  /** Sport.fromString. */
  function SportFromString(value: Option<string>): (r: Lookup<Sport>)
    ensures r.Found? ==> value.Some? && EqualsIgnoreCase(SportName(r.value), value.value)
    ensures r.IllegalArgument? ==> value.None? || forall x: Sport :: !EqualsIgnoreCase(SportName(x), value.value)
    ensures r.IllegalArgument? ==>
      r.message == RejectionMessage("sport", value, "FOOTBALL or BASKETBALL")
  {
    SportNamesJoined();
    match FirstNamed(SportValues, SportName, value)
    case Some(s) => Found(s)
    case None =>
      IllegalArgument(RejectionMessage("sport", value, JoinNames(SportValues, SportName, " or ")))
  }

  /** Specifier.fromString. */
  function SpecifierFromString(value: Option<string>): (r: Lookup<Specifier>)
    ensures r.Found? ==> value.Some? && EqualsIgnoreCase(SpecifierName(r.value), value.value)
    ensures r.IllegalArgument? ==> value.None? || forall x: Specifier :: !EqualsIgnoreCase(SpecifierName(x), value.value)
    ensures r.IllegalArgument? ==>
      r.message == RejectionMessage("specifier", value, "WIN or DRAW or LOSE")
  {
    SpecifierNamesJoined();
    match FirstNamed(SpecifierValues, SpecifierName, value)
    case Some(s) => Found(s)
    case None =>
      IllegalArgument(RejectionMessage("specifier", value, JoinNames(SpecifierValues, SpecifierName, " or ")))
  }

  /** Any spelling of a sport's name, in any case, finds that sport. */
  lemma SportFromStringIgnoresCase(s: string, x: Sport)
    requires EqualsIgnoreCase(s, SportName(x))
    ensures SportFromString(Some(s)) == Found(x)
  {
    EqualsIgnoreCaseSymmetric(s, SportName(x));
    var r := SportFromString(Some(s));
    if r.Found? {
      EqualsIgnoreCaseThrough(SportName(r.value), s, SportName(x));
      SportNamesDistinct(r.value, x);
    }
  }

  /** Any spelling of a specifier's name, in any case, finds that specifier. */
  lemma SpecifierFromStringIgnoresCase(s: string, x: Specifier)
    requires EqualsIgnoreCase(s, SpecifierName(x))
    ensures SpecifierFromString(Some(s)) == Found(x)
  {
    EqualsIgnoreCaseSymmetric(s, SpecifierName(x));
    var r := SpecifierFromString(Some(s));
    if r.Found? {
      EqualsIgnoreCaseThrough(SpecifierName(r.value), s, SpecifierName(x));
      SpecifierNamesDistinct(r.value, x);
    }
  }

  /** fromString(x.name()) == x for every sport. */
  lemma SportRoundTrip(x: Sport)
    ensures SportFromString(Some(SportName(x))) == Found(x)
  {
    SportFromStringIgnoresCase(SportName(x), x);
  }

  /** fromString(x.name()) == x for every specifier. */
  lemma SpecifierRoundTrip(x: Specifier)
    ensures SpecifierFromString(Some(SpecifierName(x))) == Found(x)
  {
    SpecifierFromStringIgnoresCase(SpecifierName(x), x);
  }

  /** "win", "Win" and "WIN" all give WIN; "football" gives FOOTBALL. */
  lemma LookupExamples()
    ensures SpecifierFromString(Some("win")) == Found(WIN)
    ensures SpecifierFromString(Some("Win")) == Found(WIN)
    ensures SpecifierFromString(Some("WIN")) == Found(WIN)
    ensures SportFromString(Some("football")) == Found(FOOTBALL)
  {
    SpecifierFromStringIgnoresCase("win", WIN);
    SpecifierFromStringIgnoresCase("Win", WIN);
    SpecifierFromStringIgnoresCase("WIN", WIN);
    SportFromStringIgnoresCase("football", FOOTBALL);
  }
}
