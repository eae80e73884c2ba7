/** Shared vocabulary of the two request handlers: optional JSON fields and
    JavaScript truthiness of string-valued fields. */
module Common {

  /** A JSON field that may be absent from the request body. */
  datatype Option<+T> = None | Some(value: T)

  /** `!!x` for a field that is a string or undefined: absent and the empty
      string are falsy, every other string (whitespace included) is truthy. */
  predicate Truthy(field: Option<string>)
  {
    field.Some? && field.value != ""
  }

  /** `needle` occurs in `hay` starting at position `i`. */
  predicate OccursAt(hay: string, needle: string, i: int)
  {
    0 <= i <= |hay| - |needle| && hay[i..i + |needle|] == needle
  }

  /** `needle` occurs as a contiguous piece of `hay`. */
  ghost predicate Contains(hay: string, needle: string)
  {
    exists i :: OccursAt(hay, needle, i)
  }

  lemma {:induction false} ContainsMiddle(a: string, needle: string, b: string)
    ensures Contains(a + needle + b, needle)
  {
    var hay := a + needle + b;
    assert hay[|a|..|a| + |needle|] == needle;
    assert OccursAt(hay, needle, |a|);
  }
}
