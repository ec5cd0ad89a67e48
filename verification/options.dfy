/** Optional values: a JSON field that may be absent, a lookup that may miss. */
module Options {

  datatype Option<+T> = None | Some(value: T)

  /** JavaScript's `x || fallback` on a string that may be absent: an absent
      field and the (falsy) empty string both give the fallback. */
  function OrElse(o: Option<string>, fallback: string): (r: string)
    ensures o.None? ==> r == fallback
    ensures o.Some? && o.value == "" ==> r == fallback
    ensures o.Some? && o.value != "" ==> r == o.value
  {
    if o.Some? && o.value != "" then o.value else fallback
  }

  /** `||` as JavaScript's truthiness reads it: the result is one of the two
      operands, a truthy (non-empty) value wins, and the result is falsy
      only when both operands are. */
  lemma OrElseTruthiness(o: Option<string>, fallback: string)
    ensures var r := OrElse(o, fallback);
      && (r == fallback || (o.Some? && r == o.value))
      && (o.Some? && o.value != "" ==> r == o.value)
      && (r == "" <==> (o.None? || o.value == "") && fallback == "")
  {
  }
}
