/** JSON documents as Python's `json` module sees them: the values `json.loads` builds and
    `json.dumps` accepts. The text syntax is not modelled; serializing and parsing are
    function values, and the one fact the code relies on, that parsing what was serialized
    gives the value back, is a named hypothesis. */
module Json {
  import opened Outcomes

  /** None, bool, int, float, str, list and dict; a dict keeps its members in order. */
  datatype Value =
    | Null
    | Boolean(b: bool)
    | Integer(i: int)
    | Float(f: real)
    | Text(s: string)
    | List(items: seq<Value>)
    | Object(members: seq<(string, Value)>)

  /** No dict holds a key twice, at any depth: the values a Python dict can stand for. */
  predicate WellFormed(v: Value) {
    match v
    case List(items) => forall i :: 0 <= i < |items| ==> WellFormed(items[i])
    case Object(members) =>
      DistinctKeys(members) && forall i :: 0 <= i < |members| ==> WellFormed(members[i].1)
    case _ => true
  }

  predicate DistinctKeys(members: seq<(string, Value)>) {
    forall i, j :: 0 <= i < j < |members| ==> members[i].0 != members[j].0
  }

  /** Keys that differ in their k-th character are distinct. */
  lemma DistinctByChar(members: seq<(string, Value)>, k: nat)
    requires forall i :: 0 <= i < |members| ==> |members[i].0| > k
    requires forall i, j :: 0 <= i < j < |members| ==> members[i].0[k] != members[j].0[k]
    ensures DistinctKeys(members)
  {
  }

  /** A key that differs from every member's key in its k-th character is missing. */
  lemma AbsentByChar(members: seq<(string, Value)>, key: string, k: nat)
    requires |key| > k
    requires forall i :: 0 <= i < |members| ==> |members[i].0| > k && members[i].0[k] != key[k]
    ensures LookupIn(members, key) == None
  {
  }

  /** `d[key]` on a dict `json.loads` built, where a later duplicate key overrides an earlier
      one; None stands for the KeyError. */
  function LookupIn(members: seq<(string, Value)>, key: string): (r: Option<Value>)
    ensures r.None? <==> forall i :: 0 <= i < |members| ==> members[i].0 != key
    ensures r.Some? ==> exists i :: 0 <= i < |members| && members[i] == (key, r.value)
  {
    if members == [] then None
    else if members[|members| - 1].0 == key then
      assert members[|members| - 1] == (key, members[|members| - 1].1);
      Some(members[|members| - 1].1)
    else
      var r := LookupIn(members[..|members| - 1], key);
      assert forall i :: 0 <= i < |members| - 1 ==> members[..|members| - 1][i] == members[i];
      r
  }

  /** `v[key]`: a KeyError when the key is absent, a TypeError when v is not a dict. */
  function Lookup(v: Value, key: string): (r: Option<Value>)
    ensures r.Some? ==> v.Object?
    ensures v.Object? ==> r == LookupIn(v.members, key)
  {
    if v.Object? then LookupIn(v.members, key) else None
  }

  /** With distinct keys, a lookup finds the member that carries the key. */
  lemma {:induction false} LookupDistinct(members: seq<(string, Value)>, i: int)
    requires DistinctKeys(members) && 0 <= i < |members|
    ensures LookupIn(members, members[i].0) == Some(members[i].1)
    decreases |members|
  {
    var last := |members| - 1;
    if i < last {
      assert members[last].0 != members[i].0;
      var front := members[..last];
      assert front[i] == members[i];
      LookupDistinct(front, i);
    }
  }

  /** `json.dumps` with fixed options. */
  type Serializer = Value -> string

  /** `json.loads`; None stands for the JSONDecodeError. */
  type Parser = string -> Option<Value>

  /** Parsing serialized text gives back every value a Python dict or list can hold. */
  ghost predicate Inverse(dumps: Serializer, loads: Parser) {
    forall v :: WellFormed(v) ==> loads(dumps(v)) == Some(v)
  }
}
