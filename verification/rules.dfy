/**
  The Laravel validation rules the controllers use, each as a predicate over
  one request field. A field is an `Option`: `None` when the request does not
  carry it. Type rules (`string`, `integer`, `numeric`, `date`) hold by
  construction, because every field already has its declared type.
 */
module Rules {
  import opened Wrappers
  import opened Text

  /** `required` on a string: present and not blank once trimmed. */
  predicate Required(v: Option<string>) {
    v.Some? && !Blank(v.value)
  }

  /** `required|string|min:lo|max:hi`, lengths counted in characters, bounds inclusive. */
  predicate RequiredLength(v: Option<string>, lo: nat, hi: nat) {
    Required(v) && lo <= |v.value| <= hi
  }

  /** `sometimes|required|string|min:lo|max:hi`: checked only when the field is sent. */
  predicate SometimesRequiredLength(v: Option<string>, lo: nat, hi: nat) {
    v.None? || RequiredLength(v, lo, hi)
  }

  /**
    `sometimes|string|min:lo|max:hi` without `required`: Laravel skips every
    rule that is not implicit when the value is blank, so a blank string passes.
   */
  predicate SometimesLength(v: Option<string>, lo: nat, hi: nat) {
    v.None? || Blank(v.value) || lo <= |v.value| <= hi
  }

  /** `required|max:hi` or `required|string|max:hi`. */
  predicate RequiredMax(v: Option<string>, hi: nat) {
    Required(v) && |v.value| <= hi
  }

  /** `sometimes|required|string|max:hi`. */
  predicate SometimesRequiredMax(v: Option<string>, hi: nat) {
    v.None? || RequiredMax(v, hi)
  }

  /** `required|integer|between:lo,hi`, inclusive at both ends. */
  predicate RequiredIntBetween(v: Option<int>, lo: int, hi: int) {
    v.Some? && lo <= v.value <= hi
  }

  /** `sometimes|integer|between:lo,hi`. */
  predicate SometimesIntBetween(v: Option<int>, lo: int, hi: int) {
    v.None? || RequiredIntBetween(v, lo, hi)
  }

  /** `required|numeric|between:lo,hi`, inclusive at both ends. */
  predicate RequiredBetween(v: Option<real>, lo: real, hi: real) {
    v.Some? && lo <= v.value <= hi
  }

  /** `sometimes|required|numeric|between:lo,hi`. */
  predicate SometimesBetween(v: Option<real>, lo: real, hi: real) {
    v.None? || RequiredBetween(v, lo, hi)
  }

  /** `required|date|before_or_equal:today`, dates as day numbers. */
  predicate RequiredNotAfter(v: Option<int>, today: int) {
    v.Some? && v.value <= today
  }

  /** `sometimes|required|date|before_or_equal:today`. */
  predicate SometimesNotAfter(v: Option<int>, today: int) {
    v.None? || RequiredNotAfter(v, today)
  }

  /** `required|integer|exists:table,id`. */
  predicate RequiredExists(v: Option<int>, ids: set<int>) {
    v.Some? && v.value in ids
  }

  /** `sometimes|required|integer|exists:table,id`. */
  predicate SometimesExists(v: Option<int>, ids: set<int>) {
    v.None? || RequiredExists(v, ids)
  }
}
