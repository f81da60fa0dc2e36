/** Optional values, error results, and the `a || b` fallback idiom the page
    scripts use on string fields (a field is "falsy" when it is missing or empty). */
module Values {

  datatype Option<+T> = None | Some(value: T)

  datatype Result<+T, +E> = Ok(value: T) | Err(error: E)

  /** A string field is truthy in JavaScript when it is present and non-empty. */
  predicate Truthy(o: Option<string>) {
    o.Some? && o.value != ""
  }

  /** `o || fallback` for an optional string field. */
  function Or(o: Option<string>, fallback: string): string {
    if Truthy(o) then o.value else fallback
  }

  /** `a || b || ... || ''` over optional string fields: the first truthy
      value of the chain, or the empty string when there is none. */
  function FirstTruthy(chain: seq<Option<string>>): (r: string)
    ensures r == "" <==> forall k :: 0 <= k < |chain| ==> !Truthy(chain[k])
    ensures r != "" ==> exists k :: 0 <= k < |chain| && Truthy(chain[k]) && chain[k].value == r
                                    && forall j :: 0 <= j < k ==> !Truthy(chain[j])
    decreases |chain|
  {
    if |chain| == 0 then ""
    else if Truthy(chain[0]) then chain[0].value
    else
      var r := FirstTruthy(chain[1..]);
      assert r != "" ==> exists k :: 1 <= k < |chain| && Truthy(chain[k]) && chain[k].value == r
                                     && forall j :: 0 <= j < k ==> !Truthy(chain[j]);
      r
  }

  /** A two-link chain is the nested `||` the scripts write. */
  lemma {:induction false} FirstTruthyPair(a: Option<string>, b: Option<string>)
    ensures FirstTruthy([a, b]) == Or(a, Or(b, ""))
  {
    assert [a, b][1..] == [b];
    assert [b][1..] == [];
  }
}
