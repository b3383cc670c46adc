/** Optional values and the JavaScript truthiness tests the handlers apply to them. */
module Wrappers {

  datatype Option<+T> = None | Some(value: T) {
    /** The value, or `default` when there is none (JavaScript's `x || default` on an absent field). */
    function GetOr(default: T): T {
      match this
      case Some(v) => v
      case None => default
    }
  }

  /** A numeric field JavaScript treats as true: present and not 0. */
  predicate TruthyId(x: Option<int>) {
    x.Some? && x.value != 0
  }

  /** A text field JavaScript treats as true: present and not the empty string. */
  predicate TruthyText(x: Option<string>) {
    x.Some? && x.value != ""
  }
}
