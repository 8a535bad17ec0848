/** The locality choice of `get_location_name` (extract_metadata.py lines
    12-22). The network lookup itself is reduced to its outcome. */
module Geocode {
  import opened Outcomes

  /** What the reverse lookup gave: a result with its address fields (an
      empty map when the result has no address), no result, or an error or
      timeout. */
  datatype Lookup = Found(address: map<string, string>) | NoMatch | LookupError

  /** The address fields tried, in priority order. */
  const LocalityKeys: seq<string> := ["city", "town", "village", "hamlet", "county"]

  /** `address.get(key)`. */
  function Get(address: map<string, string>, key: string): Option<string>
  {
    if key in address then Some(address[key]) else None
  }

  predicate Truthy(o: Option<string>)
  {
    o.Some? && o.value != ""
  }

  /** `address.get(k0) or address.get(k1) or ...`: the first truthy operand,
      or the last operand when none is truthy. */
  function FirstTruthy(address: map<string, string>, keys: seq<string>): (r: Option<string>)
    requires |keys| > 0
    ensures Truthy(r) <==> exists i :: 0 <= i < |keys| && Truthy(Get(address, keys[i]))
    ensures Truthy(r) ==>
      exists i :: 0 <= i < |keys| && r == Get(address, keys[i]) && forall j :: 0 <= j < i ==> !Truthy(Get(address, keys[j]))
    ensures !Truthy(r) ==> r == Get(address, keys[|keys| - 1])
  {
    if |keys| == 1 || Truthy(Get(address, keys[0])) then Get(address, keys[0])
    else
      var r := FirstTruthy(address, keys[1..]);
      assert forall i :: 1 <= i < |keys| ==> keys[i] == keys[1..][i - 1];
      r
  }

  /** `get_location_name` given the lookup's outcome. */
  function LocationName(outcome: Lookup): (r: Option<string>)
    ensures !outcome.Found? ==> r.None?
    ensures r.Some? ==> exists k :: k in LocalityKeys && k in outcome.address && r.value == outcome.address[k]
  {
    match outcome
    case Found(address) => FirstTruthy(address, LocalityKeys)
    case _ => None
  }

  /** The locality is the first non-empty of city, town, village, hamlet and
      county, in that order. */
  lemma LocationNameFirstNonEmpty(address: map<string, string>, i: nat)
    requires i < |LocalityKeys| && Truthy(Get(address, LocalityKeys[i]))
    requires forall j :: 0 <= j < i ==> !Truthy(Get(address, LocalityKeys[j]))
    ensures LocationName(Found(address)) == Get(address, LocalityKeys[i])
  {
    var r := FirstTruthy(address, LocalityKeys);
    var k :| 0 <= k < |LocalityKeys| && r == Get(address, LocalityKeys[k]) &&
      forall j :: 0 <= j < k ==> !Truthy(Get(address, LocalityKeys[j]));
    assert k == i;
  }

  /** There is no locality when the lookup failed or found nothing, or when
      none of the five fields is set; when only the last one, "county", is
      present but empty, the empty string is returned. */
  lemma LocationNameAbsent(outcome: Lookup)
    ensures LocationName(outcome).None? <==>
      (!outcome.Found? || forall k :: k in LocalityKeys ==> !Truthy(Get(outcome.address, k))) && !(outcome.Found? && "county" in outcome.address)
    ensures !Truthy(LocationName(outcome)) <==> !outcome.Found? || forall k :: k in LocalityKeys ==> !Truthy(Get(outcome.address, k))
  {
    if outcome.Found? {
      var a := outcome.address;
      var r := FirstTruthy(a, LocalityKeys);
      if forall k :: k in LocalityKeys ==> !Truthy(Get(a, k)) {
        assert !Truthy(r);
      } else {
        var k :| k in LocalityKeys && Truthy(Get(a, k));
        var i :| 0 <= i < |LocalityKeys| && LocalityKeys[i] == k;
        assert Truthy(r);
      }
    }
  }
}
