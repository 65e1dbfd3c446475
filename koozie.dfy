/**
 * The pint unit registry as koozie sees it, and the conversion front end
 * of koozie/koozie.py: `fr_u`, `to_u`, `convert` (scalar-or-sequence
 * dispatch over pint's per-value conversions) and `get_dimensionality`.
 *
 * pint itself is not modelled: every question the code asks pint is a field
 * of `Registry`, an uninterpreted input.
 */
module Koozie {
  import opened Wrappers

  /** pint's UnitsContainer for a dimensionality: base dimension name to exponent. */
  type Dimensionality = map<string, real>

  /** A magnitude; all arithmetic on magnitudes happens inside pint. */
  type Magnitude = real

  /** The two pint exceptions the command line front end reports. */
  datatype UnitError =
    | UndefinedUnitError(message: string)
    | DimensionalityError(message: string)

  /** An entry of the registry's declared dimensions: its name and its reference. */
  datatype DimensionDecl = DimensionDecl(name: string, reference: Dimensionality)

  /** Everything koozie asks of pint's unit registry. */
  datatype Registry = Registry(
    // the names produced by iterating the registry, in iteration order
    names: seq<string>,
    // `u in unit_registry`: whether pint resolves the name
    isMember: string -> bool,
    // `unit_registry[u].dimensionless`
    dimensionless: string -> bool,
    // `unit_registry.Unit(u).dimensionality` (also used for the empty unit "")
    dimensionality: string -> Dimensionality,
    // the text pint prints for a dimensionality
    render: Dimensionality -> string,
    // the first unit name of `unit_registry[u]`: the canonical unit of u
    canonical: string -> string,
    // the registry's declared dimensions, in declaration order
    dimensions: seq<DimensionDecl>,
    // `unit_registry.get_dimensionality(reference)`
    resolveReference: Dimensionality -> Dimensionality,
    // magnitude of `Quantity(v, from).to_base_units()`
    frQ: (Magnitude, string) -> Result<Magnitude, UnitError>,
    // magnitude of `Quantity(v, base units of to).to(to)`
    toQ: (Magnitude, string) -> Result<Magnitude, UnitError>,
    // magnitude of `Quantity(v, from).to(to)`
    convertQ: (Magnitude, string, string) -> Result<Magnitude, UnitError>)

  /** A value argument of `fr_u`/`to_u`/`convert`: one float or an iterable of floats. */
  datatype Magnitudes = Scalar(x: Magnitude) | Many(xs: seq<Magnitude>)

  /** Wraps a single conversion result as a scalar result. */
  function LiftScalar(r: Result<Magnitude, UnitError>): Result<Magnitudes, UnitError>
  {
    match r
    case Success(y) => Success(Scalar(y))
    case Failure(e) => Failure(e)
  }

  /**
   * A list comprehension over a per-value conversion that may raise: the
   * elements are converted left to right and the first failure propagates.
   */
  function MapAll(f: Magnitude -> Result<Magnitude, UnitError>, xs: seq<Magnitude>)
    : (r: Result<seq<Magnitude>, UnitError>)
    ensures r.Success? <==> forall i | 0 <= i < |xs| :: f(xs[i]).Success?
    ensures r.Success? ==>
      |r.value| == |xs| && forall i | 0 <= i < |xs| :: r.value[i] == f(xs[i]).value
    ensures r.Failure? ==>
      exists j | 0 <= j < |xs| ::
        f(xs[j]) == Failure(r.error) && forall i | 0 <= i < j :: f(xs[i]).Success?
  {
    if xs == [] then Success([])
    else
      match f(xs[0])
      case Failure(e) => Failure(e)
      case Success(y) =>
        match MapAll(f, xs[1..])
        case Failure(e) =>
          assert exists j | 0 <= j < |xs[1..]| ::
            f(xs[1..][j]) == Failure(e) && forall i | 0 <= i < j :: f(xs[1..][i]).Success?;
          var j :| 0 <= j < |xs[1..]| &&
            f(xs[1..][j]) == Failure(e) && forall i | 0 <= i < j :: f(xs[1..][i]).Success?;
          assert f(xs[j + 1]) == Failure(e);
          assert forall i | 0 <= i < j + 1 :: f(xs[i]).Success? by {
            forall i | 0 <= i < j + 1 ensures f(xs[i]).Success? {
              if i > 0 { assert xs[i] == xs[1..][i - 1]; }
            }
          }
          Failure(e)
        case Success(ys) =>
          assert forall i | 0 <= i < |xs| :: f(xs[i]).Success? by {
            forall i | 0 <= i < |xs| ensures f(xs[i]).Success? {
              if i > 0 { assert xs[i] == xs[1..][i - 1]; }
            }
          }
          Success([y] + ys)
  }

  /**
   * The `isinstance(value, SupportsFloat)` branch shared by `fr_u`, `to_u`
   * and `convert`: a scalar is converted once, a sequence elementwise.
   */
  function Dispatch(value: Magnitudes, f: Magnitude -> Result<Magnitude, UnitError>)
    : (r: Result<Magnitudes, UnitError>)
    ensures value.Scalar? ==> r == LiftScalar(f(value.x))
    ensures value.Many? ==>
      (r.Success? <==> forall i | 0 <= i < |value.xs| :: f(value.xs[i]).Success?)
    ensures value.Many? && r.Success? ==>
      r.value.Many? && |r.value.xs| == |value.xs| &&
      forall i | 0 <= i < |value.xs| :: r.value.xs[i] == f(value.xs[i]).value
    ensures value.Many? && r.Failure? ==>
      exists j | 0 <= j < |value.xs| ::
        f(value.xs[j]) == Failure(r.error) && forall i | 0 <= i < j :: f(value.xs[i]).Success?
  {
    match value
    case Scalar(x) => LiftScalar(f(x))
    case Many(xs) =>
      match MapAll(f, xs)
      case Success(ys) => Success(Many(ys))
      case Failure(e) => Failure(e)
  }

  /** `fr_u`: from the given units to base SI units. */
  function FrU(reg: Registry, value: Magnitudes, fromUnits: string): (r: Result<Magnitudes, UnitError>)
    ensures value.Scalar? ==> r == LiftScalar(reg.frQ(value.x, fromUnits))
    ensures value.Many? ==>
      (r.Success? <==> forall i | 0 <= i < |value.xs| :: reg.frQ(value.xs[i], fromUnits).Success?)
    ensures value.Many? && r.Success? ==>
      r.value.Many? && |r.value.xs| == |value.xs| &&
      forall i | 0 <= i < |value.xs| :: r.value.xs[i] == reg.frQ(value.xs[i], fromUnits).value
    ensures value.Many? && r.Failure? ==>
      exists j | 0 <= j < |value.xs| ::
        && reg.frQ(value.xs[j], fromUnits) == Failure(r.error)
        && forall i | 0 <= i < j :: reg.frQ(value.xs[i], fromUnits).Success?
  {
    Dispatch(value, v => reg.frQ(v, fromUnits))
  }

  /** `to_u`: from base SI units to the given units. */
  function ToU(reg: Registry, value: Magnitudes, toUnits: string): (r: Result<Magnitudes, UnitError>)
    ensures value.Scalar? ==> r == LiftScalar(reg.toQ(value.x, toUnits))
    ensures value.Many? ==>
      (r.Success? <==> forall i | 0 <= i < |value.xs| :: reg.toQ(value.xs[i], toUnits).Success?)
    ensures value.Many? && r.Success? ==>
      r.value.Many? && |r.value.xs| == |value.xs| &&
      forall i | 0 <= i < |value.xs| :: r.value.xs[i] == reg.toQ(value.xs[i], toUnits).value
    ensures value.Many? && r.Failure? ==>
      exists j | 0 <= j < |value.xs| ::
        && reg.toQ(value.xs[j], toUnits) == Failure(r.error)
        && forall i | 0 <= i < j :: reg.toQ(value.xs[i], toUnits).Success?
  {
    Dispatch(value, v => reg.toQ(v, toUnits))
  }

  /** `convert`: between two units of the same dimension. */
  function Convert(reg: Registry, value: Magnitudes, fromUnits: string, toUnits: string)
    : (r: Result<Magnitudes, UnitError>)
    ensures value.Scalar? ==> r == LiftScalar(reg.convertQ(value.x, fromUnits, toUnits))
    ensures value.Many? ==>
      (r.Success? <==>
        forall i | 0 <= i < |value.xs| :: reg.convertQ(value.xs[i], fromUnits, toUnits).Success?)
    ensures value.Many? && r.Success? ==>
      r.value.Many? && |r.value.xs| == |value.xs| &&
      forall i | 0 <= i < |value.xs| ::
        r.value.xs[i] == reg.convertQ(value.xs[i], fromUnits, toUnits).value
    ensures value.Many? && r.Failure? ==>
      exists j | 0 <= j < |value.xs| ::
        && reg.convertQ(value.xs[j], fromUnits, toUnits) == Failure(r.error)
        && forall i | 0 <= i < j :: reg.convertQ(value.xs[i], fromUnits, toUnits).Success?
  {
    Dispatch(value, v => reg.convertQ(v, fromUnits, toUnits))
  }

  /** pint's message for a unit name it cannot resolve. */
  function NotDefined(units: string): UnitError
  {
    UndefinedUnitError("'" + units + "' is not defined in the unit registry")
  }

  /**
   * `get_dimensionality`: a name the registry lists gets its own
   * dimensionality, provided pint can resolve it; any other text gets that of
   * the empty (dimensionless) unit, which always resolves.
   */
  function GetDimensionality(reg: Registry, units: string): (r: Result<Dimensionality, UnitError>)
    ensures r.Failure? <==> units in reg.names && !reg.isMember(units)
    ensures r.Failure? ==> r.error == NotDefined(units)
    ensures r.Success? && units in reg.names ==> r.value == reg.dimensionality(units)
    ensures units !in reg.names ==> r == Success(reg.dimensionality(""))
  {
    if units in reg.names then
      if reg.isMember(units) then Success(reg.dimensionality(units)) else Failure(NotDefined(units))
    else
      Success(reg.dimensionality(""))
  }

  /** Any two unlisted strings compare equal: neither fails and both are dimensionless. */
  lemma UnlistedTextsCompareEqual(reg: Registry, a: string, b: string)
    requires a !in reg.names && b !in reg.names
    ensures GetDimensionality(reg, a).Success? && GetDimensionality(reg, b).Success?
    ensures GetDimensionality(reg, a) == GetDimensionality(reg, b)
  {
  }
}
