/** Small value types shared by every module of the model. */
module Common {

  /** A nullable column or an optional argument. */
  datatype Option<T> = None | Some(value: T)

  /**
   * A request key as a validated Laravel request sees it, after the global
   * middleware has trimmed strings and turned empty strings into null: the
   * key is absent, present with null, present with a value of the expected
   * kind, or present with something else (text where a number or a date is
   * expected). `$validated` holds only the keys that were present, so
   * `Absent` and `Null` behave differently.
   */
  datatype Field<T> = Absent | Null | Given(value: T) | Malformed
  {
    /** `$data['key'] ?? default` on a validated key: absent and null both fall back. */
    function OrElse(default: T): (r: T)
      requires !Malformed?
      ensures Given? ==> r == value
      ensures !Given? ==> r == default
    {
      if Given? then value else default
    }

    /** The column value a nullable key stores when it is present. */
    function AsOption(): (r: Option<T>)
      requires Null? || Given?
      ensures Null? <==> r.None?
      ensures Given? ==> r == Some(value)
    {
      if Given? then Some(value) else None
    }

    /** A sent nullable key overwrites its column, null included; an absent one keeps it. */
    function OverNullable(current: Option<T>): (r: Option<T>)
      requires !Malformed?
      ensures Absent? ==> r == current
      ensures Null? ==> r.None?
      ensures Given? ==> r == Some(value)
    {
      if Absent? then current else AsOption()
    }

    /** A `nullable` rule: anything but a malformed value passes. */
    predicate NullableOk()
    {
      !Malformed?
    }
  }

  /** The `required|string|max:n` rule on a text key. */
  predicate RequiredText(f: Field<string>, max: nat)
  {
    f.Given? && 0 < |f.value| <= max
  }

  /** The `nullable|string|max:n` rule on a text key. */
  predicate OptionalText(f: Field<string>, max: nat)
  {
    f.Absent? || f.Null? || (f.Given? && |f.value| <= max)
  }

  /** The `in:a,b,...` rule on a required key. */
  predicate RequiredIn(f: Field<string>, allowed: seq<string>)
  {
    f.Given? && f.value in allowed
  }

  /** The `required|numeric|min:lo` rule. */
  predicate RequiredAtLeast(f: Field<real>, lo: real)
  {
    f.Given? && f.value >= lo
  }

  /** The `nullable|numeric|min:lo` rule. */
  predicate OptionalAtLeast(f: Field<real>, lo: real)
  {
    f.Absent? || f.Null? || (f.Given? && f.value >= lo)
  }

  /** `sometimes|required|string|max:n`: absent is fine, present must pass the rest. */
  predicate SometimesText(f: Field<string>, max: nat)
  {
    f.Absent? || RequiredText(f, max)
  }

  /** `sometimes|in:a,b,...`: absent is fine, present must be one of the values (null is not). */
  predicate SometimesIn(f: Field<string>, allowed: seq<string>)
  {
    f.Absent? || RequiredIn(f, allowed)
  }

  /** `nullable|in:a,b,...`. */
  predicate OptionalIn(f: Field<string>, allowed: seq<string>)
  {
    f.Absent? || f.Null? || RequiredIn(f, allowed)
  }

  /** `nullable|exists:table,id`. */
  predicate OptionalRef(f: Field<nat>, ids: set<nat>)
  {
    f.Absent? || f.Null? || (f.Given? && f.value in ids)
  }

  /** `nullable|integer|min:0|max:100` on a progress key. */
  predicate OptionalPercent(f: Field<int>)
  {
    f.Absent? || f.Null? || (f.Given? && 0 <= f.value <= 100)
  }

  /** `sometimes|integer|min:0|max:100` on a progress key. */
  predicate SometimesPercent(f: Field<int>)
  {
    f.Absent? || (f.Given? && 0 <= f.value <= 100)
  }
}
