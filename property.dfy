/**
 * The four property kinds of src/lib.rs (`Property`, `ClampedProp`,
 * `ReadOnlyProp`, `OwnedProp`) and the output sink they write diagnostics to.
 *
 * The value semantics is stated once, as functions of the property's fixed
 * description and its current value (`AfterSet`, `AfterSetValue`,
 * `AfterReset`, `StateOf`); the `Property` class updates its variable in
 * place and is proved to follow those functions, and the console's host
 * storage uses the same functions.
 */
module Props {
  import opened Wrappers

  /** Stands for `std::any::TypeId`: the runtime type of an erased value. */
  type TypeId = nat

  /**
   * A type-erased value (`&dyn IValue`) as a property of type `T` sees it:
   * its runtime type, and its payload read at `T`, which `downcast_ref::<T>`
   * hands out only when the runtime type is `T`'s.
   */
  datatype Dyn<T> = Dyn(tag: TypeId, payload: T)

  datatype PropState = Default | UserSet | Invalid

  /** Which of the four property structs a property is; a clamped one carries its bounds and `<=`. */
  datatype Kind<!T> =
    | Standard
    | Clamped(min: Option<T>, max: Option<T>, le: (T, T) -> bool)
    | ReadOnly
    | Owned

  /**
   * What a property fixes at construction: its kind, its type's id, its
   * default value, and the `FromStr` and `Display` of its type (`parse`
   * gives the value or the error's display text).
   */
  datatype PropSpec<!T> = PropSpec(
    kind: Kind<T>,
    tag: TypeId,
    default: T,
    parse: string -> Result<T, string>,
    show: T -> string)

  const ReadOnlyMessage: string := "cannot set read-only property"
  const MismatchMessage: string := "mismatched types"

  /** The result of a set: the returned flag, the new variable, and the text appended to the writer. */
  datatype Outcome<T> = Outcome(ok: bool, variable: T, written: string)

  /**
   * `check_bounds_inclusive` as written: a present `min` alone decides
   * (`val >= min`) and `max` is then never looked at; otherwise a present
   * `max` decides (`val <= max`); with neither bound every value passes.
   */
  function CheckBoundsInclusive<T>(le: (T, T) -> bool, val: T, min: Option<T>, max: Option<T>): (r: bool)
    ensures min.Some? ==> (r <==> le(min.value, val))
    ensures min.None? && max.Some? ==> (r <==> le(val, max.value))
    ensures min.None? && max.None? ==> r
  {
    match min
    case Some(lo) => le(lo, val)
    case None =>
      match max
      case Some(hi) => le(val, hi)
      case None => true
  }

  /** When `min` is present the result does not depend on `max` at all. */
  lemma CheckBoundsIgnoresMax<T>(le: (T, T) -> bool, val: T, lo: T, max1: Option<T>, max2: Option<T>)
    ensures CheckBoundsInclusive(le, val, Some(lo), max1) == CheckBoundsInclusive(le, val, Some(lo), max2)
  {
  }

  /** So 100 passes the bounds [0, 10]. */
  lemma CheckBoundsAboveMax()
    ensures CheckBoundsInclusive((a: int, b: int) => a <= b, 100, Some(0), Some(10))
  {
  }

  /** Whether a parsed or downcast value is stored: always, except a clamped value outside its bounds. */
  predicate Admits<T>(kind: Kind<T>, v: T): (r: bool)
    ensures !kind.Clamped? ==> r
    ensures kind.Clamped? ==> (r <==> CheckBoundsInclusive(kind.le, v, kind.min, kind.max))
  {
    !kind.Clamped? || CheckBoundsInclusive(kind.le, v, kind.min, kind.max)
  }

  /**
   * `set(val, writer)` of each kind. A read-only property refuses with a
   * fixed message. Otherwise a parse failure writes the error text and
   * changes nothing; a successful parse returns true and stores the value,
   * except that a clamped property drops (does not clamp) a value outside
   * its bounds while still returning true.
   */
  function AfterSet<T>(spec: PropSpec<T>, variable: T, val: string): (o: Outcome<T>)
    ensures o.ok <==> !spec.kind.ReadOnly? && spec.parse(val).Ok?
    ensures !o.ok ==> o.variable == variable
    ensures spec.kind.ReadOnly? ==> o.written == ReadOnlyMessage
    ensures !spec.kind.ReadOnly? && spec.parse(val).Err? ==> o.written == spec.parse(val).error
    ensures o.ok ==> o.written == ""
    ensures o.ok && (spec.kind.Standard? || spec.kind.Owned?) ==> o.variable == spec.parse(val).value
    ensures o.ok && spec.kind.Clamped? ==>
      o.variable == if Admits(spec.kind, spec.parse(val).value) then spec.parse(val).value else variable
  {
    if spec.kind.ReadOnly? then Outcome(false, variable, ReadOnlyMessage)
    else
      match spec.parse(val)
      case Err(e) => Outcome(false, variable, e)
      case Ok(v) => Outcome(true, if Admits(spec.kind, v) then v else variable, "")
  }

  /**
   * `set_value(val, writer)` of each kind: a read-only property refuses; a
   * value of another runtime type is refused with "mismatched types";
   * otherwise true is returned and the value copied in (a clamped property
   * drops it when out of bounds).
   */
  function AfterSetValue<T>(spec: PropSpec<T>, variable: T, val: Dyn<T>): (o: Outcome<T>)
    ensures o.ok <==> !spec.kind.ReadOnly? && val.tag == spec.tag
    ensures !o.ok ==> o.variable == variable
    ensures spec.kind.ReadOnly? ==> o.written == ReadOnlyMessage
    ensures !spec.kind.ReadOnly? && val.tag != spec.tag ==> o.written == MismatchMessage
    ensures o.ok ==> o.written == ""
    ensures o.ok && (spec.kind.Standard? || spec.kind.Owned?) ==> o.variable == val.payload
    ensures o.ok && spec.kind.Clamped? ==>
      o.variable == if Admits(spec.kind, val.payload) then val.payload else variable
  {
    if spec.kind.ReadOnly? then Outcome(false, variable, ReadOnlyMessage)
    else if val.tag == spec.tag then Outcome(true, if Admits(spec.kind, val.payload) then val.payload else variable, "")
    else Outcome(false, variable, MismatchMessage)
  }

  /** `reset()`: the default is copied in, unchecked against any bounds; a read-only property ignores it. */
  function AfterReset<T>(spec: PropSpec<T>, variable: T): (r: T)
    ensures spec.kind.ReadOnly? ==> r == variable
    ensures !spec.kind.ReadOnly? ==> r == spec.default
  {
    if spec.kind.ReadOnly? then variable else spec.default
  }

  /** `state()`: a comparison with the default, never `Invalid`. */
  function StateOf<T(==)>(spec: PropSpec<T>, variable: T): (s: PropState)
    ensures s != Invalid
    ensures s == Default <==> variable == spec.default
  {
    if variable == spec.default then Default else UserSet
  }

  /** Resetting twice is resetting once, and a settable property then reports `Default`. */
  lemma ResetIdempotent<T>(spec: PropSpec<T>, variable: T)
    ensures AfterReset(spec, AfterReset(spec, variable)) == AfterReset(spec, variable)
    ensures !spec.kind.ReadOnly? ==> StateOf(spec, AfterReset(spec, variable)) == Default
  {
  }

  /**
   * Setting the same text twice is setting it once: the flag and the stored
   * value of the second call are those of the first.
   */
  lemma SetIdempotent<T>(spec: PropSpec<T>, variable: T, val: string)
    ensures AfterSet(spec, AfterSet(spec, variable, val).variable, val).ok == AfterSet(spec, variable, val).ok
    ensures AfterSet(spec, AfterSet(spec, variable, val).variable, val).variable == AfterSet(spec, variable, val).variable
  {
  }

  /**
   * Round trip of a standard or owned property: when the type's `FromStr`
   * reads back its own `Display`, setting the displayed text of `x` stores `x`.
   */
  lemma SetDisplayedRoundTrip<T>(spec: PropSpec<T>, variable: T, x: T)
    requires spec.kind.Standard? || spec.kind.Owned?
    requires spec.parse(spec.show(x)) == Ok(x)
    ensures AfterSet(spec, variable, spec.show(x)) == Outcome(true, x, "")
  {
  }

  /** Property and OwnedProp differ only in who owns the storage: they set, reset and report alike. */
  lemma OwnedBehavesAsStandard<T>(spec: PropSpec<T>, variable: T, val: string, dv: Dyn<T>)
    requires spec.kind.Owned?
    ensures AfterSet(spec, variable, val) == AfterSet(spec.(kind := Standard), variable, val)
    ensures AfterSetValue(spec, variable, dv) == AfterSetValue(spec.(kind := Standard), variable, dv)
    ensures AfterReset(spec, variable) == AfterReset(spec.(kind := Standard), variable)
    ensures StateOf(spec, variable) == StateOf(spec.(kind := Standard), variable)
  {
  }

  /** The `String` sink (`impl IWrite for String`): text is only ever appended. */
  class Writer {
    var text: string

    constructor ()
      ensures text == ""
    {
      text := "";
    }

    method WriteStr(s: string)
      modifies this
      ensures text == old(text) + s
    {
      text := text + s;
    }
  }

  /**
   * A property node bound to its variable. Kept as a class because every
   * kind's `set`, `set_value` and `reset` overwrite the variable in place.
   */
  class Property<T(==)> {
    const name: string
    const spec: PropSpec<T>
    var variable: T

    constructor (name: string, spec: PropSpec<T>, variable: T)
      ensures this.name == name && this.spec == spec && this.variable == variable
    {
      this.name, this.spec, this.variable := name, spec, variable;
    }

    /** `get_value()`: the current value. */
    function GetValue(): (v: T)
      reads this
      ensures v == variable
      ensures State() == Default <==> v == DefaultValue()
    {
      variable
    }

    /** `default_value()`. */
    function DefaultValue(): (v: T)
      ensures v == spec.default
      ensures StateOf(spec, v) == Default
    {
      spec.default
    }

    /** `state()`. */
    function State(): (s: PropState)
      reads this
      ensures s == StateOf(spec, variable)
      ensures s != Invalid
    {
      StateOf(spec, variable)
    }

    /** `set(val, writer)`. */
    method Set(val: string, writer: Writer) returns (ok: bool)
      modifies this, writer
      ensures ok == AfterSet(spec, old(variable), val).ok
      ensures variable == AfterSet(spec, old(variable), val).variable
      ensures writer.text == old(writer.text) + AfterSet(spec, old(variable), val).written
    {
      if spec.kind.ReadOnly? {
        writer.WriteStr(ReadOnlyMessage);
        return false;
      }
      match spec.parse(val) {
        case Ok(v) =>
          if Admits(spec.kind, v) {
            variable := v;
          }
          ok := true;
        case Err(e) =>
          writer.WriteStr(e);
          ok := false;
      }
    }

    /** `set_value(val, writer)`. */
    method SetValue(val: Dyn<T>, writer: Writer) returns (ok: bool)
      modifies this, writer
      ensures ok == AfterSetValue(spec, old(variable), val).ok
      ensures variable == AfterSetValue(spec, old(variable), val).variable
      ensures writer.text == old(writer.text) + AfterSetValue(spec, old(variable), val).written
    {
      if spec.kind.ReadOnly? {
        writer.WriteStr(ReadOnlyMessage);
        return false;
      }
      if val.tag == spec.tag {
        if Admits(spec.kind, val.payload) {
          variable := val.payload;
        }
        ok := true;
      } else {
        writer.WriteStr(MismatchMessage);
        ok := false;
      }
    }

    /** `reset()`. */
    method Reset()
      modifies this
      ensures variable == AfterReset(spec, old(variable))
      ensures !spec.kind.ReadOnly? ==> State() == Default
    {
      if !spec.kind.ReadOnly? {
        variable := spec.default;
      }
    }
  }
}
