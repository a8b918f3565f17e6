/**
 * The first-match search that every `convert` of the enum tables performs:
 * walk `values()` in declaration order and stop at the first constant whose
 * `toString()` equals the given code.
 */
module Lookup {

  /** Index of the first constant named `code`, or -1 when no constant is. */
  function FirstMatch<E>(values: seq<E>, name: E -> string, code: string): (i: int)
    ensures -1 <= i < |values|
    ensures 0 <= i ==> name(values[i]) == code
    ensures forall j :: 0 <= j < |values| && (i < 0 || j < i) ==> name(values[j]) != code
  {
    if values == [] then -1
    else if name(values[0]) == code then 0
    else
      var k := FirstMatch(values[1..], name, code);
      if k < 0 then -1 else k + 1
  }

  /** No two constants share a name, so the first match is the only match. */
  predicate Distinct<E>(values: seq<E>, name: E -> string)
  {
    forall i, j :: 0 <= i < j < |values| ==> name(values[i]) != name(values[j])
  }

  /** With distinct names, looking up the name of the k-th constant finds k. */
  lemma FirstMatchOfName<E>(values: seq<E>, name: E -> string, k: int)
    requires Distinct(values, name)
    requires 0 <= k < |values|
    ensures FirstMatch(values, name, name(values[k])) == k
  {
  }
}
