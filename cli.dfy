/** octocrab's `params::State`, the state filter of the pull request listing. */
module Params {

  datatype State = Open | Closed | All
}

/** The `--state` argument: clap's `ValueEnum` for `ArgState` and its conversion to `State`. */
module Cli {
  import opened Wrappers
  import Params

  datatype ArgState = Open | Closed | All

  /** clap's `ErrorKind::ValueValidation`; the message clap renders from it is not modelled. */
  datatype ParseError = ValueValidation

  /**
   * `from_str`: exactly `"open"`, `"closed"` and `"all"` are accepted, case-sensitively, and the
   * ignore-case flag is not consulted. An accepted string is its variant's possible value.
   */
  function FromStr(input: string, ignoreCase: bool): (r: Result<ArgState, ParseError>)
    ensures r.Ok? <==> input == "open" || input == "closed" || input == "all"
    ensures r.Ok? ==> ToPossibleValue(r.value) == Some(input)
    ensures r.Err? ==> r == Err(ValueValidation)
  {
    match input
    case "open" => Ok(Open)
    case "closed" => Ok(Closed)
    case "all" => Ok(All)
    case _ => Err(ValueValidation)
  }

  /** `to_possible_value`: every variant has a name, its lower-case spelling. */
  function ToPossibleValue(v: ArgState): (r: Option<string>)
    ensures r.Some?
  {
    Some(match v
      case Open => "open"
      case Closed => "closed"
      case All => "all")
  }

  /** `value_variants`: the three variants, pairwise distinct. */
  function ValueVariants(): (vs: seq<ArgState>)
    ensures |vs| == 3
    ensures forall i, j | 0 <= i < j < |vs| :: vs[i] != vs[j]
  {
    [Open, Closed, All]
  }

  /** Every variant is listed, and listed once. */
  lemma ValueVariantsEachOnce(v: ArgState)
    ensures multiset(ValueVariants())[v] == 1
  {
    var vs := ValueVariants();
    assert vs == [Open] + [Closed] + [All];
    assert multiset(vs) == multiset{Open} + multiset{Closed} + multiset{All};
    match v
    case Open =>
    case Closed =>
    case All =>
  }

  /** `Into<State>`: each variant becomes the state of the same name. */
  function IntoState(v: ArgState): (s: Params.State)
    ensures s == Params.Open <==> v == Open
    ensures s == Params.Closed <==> v == Closed
    ensures s == Params.All <==> v == All
  {
    match v
    case Open => Params.Open
    case Closed => Params.Closed
    case All => Params.All
  }

  /** Parsing a variant's possible value gives the variant back, whatever the ignore-case flag. */
  lemma RoundTrip(v: ArgState, ignoreCase: bool)
    ensures FromStr(ToPossibleValue(v).value, ignoreCase) == Ok(v)
  {
  }

  /** Distinct variants have distinct names. */
  lemma PossibleValuesDistinct(v: ArgState, w: ArgState)
    ensures ToPossibleValue(v) == ToPossibleValue(w) ==> v == w
  {
  }

  /** The ignore-case flag changes nothing: `"Open"` is refused either way. */
  lemma FromStrIgnoresFlag(input: string)
    ensures FromStr(input, true) == FromStr(input, false)
    ensures FromStr("Open", true).Err? && FromStr("OPEN", true).Err?
  {
  }

  /** The conversion to `State` is injective. */
  lemma IntoStateInjective(v: ArgState, w: ArgState)
    ensures IntoState(v) == IntoState(w) ==> v == w
  {
  }
}
