/** The browser's JSON-RPC client (frontend/src/api/HttpRpcClient.ts): the response
    validator, the `groupBy` helper used to match batched responses, and the request-id
    counter. Network calls, batching and token refresh are not part of this model. */
module RpcClient {
  import opened Common
  import opened Sorting

  // ---------------------------------------------------------------------------------
  // Parsed JSON values.

  /** A value produced by `JSON.parse` (numbers are modelled as integers). */
  datatype Json =
    | JNull
    | JBool(b: bool)
    | JNumber(n: int)
    | JString(s: string)
    | JArray(items: seq<Json>)
    | JObject(fields: map<string, Json>)

  /** `obj.<name>`: the member of an object, `None` for `undefined`. An array has none of
      the members the validator reads. */
  function Field(obj: Json, name: string): (r: Option<Json>)
    ensures r.Some? <==> obj.JObject? && name in obj.fields
  {
    if obj.JObject? && name in obj.fields then Some(obj.fields[name]) else None
  }

  /** `typeof v === 'object' && v !== null`: objects and arrays. */
  predicate IsObjectValue(v: Json)
  {
    v.JObject? || v.JArray?
  }

  /** `typeof id === 'string' || typeof id === 'number' || id === null`. */
  predicate IsIdValue(v: Json)
  {
    v.JString? || v.JNumber? || v.JNull?
  }

  /** `isValidRpcResponse`: the early-return chain of checks, in the order written. */
  function IsValidRpcResponse(obj: Json): bool
  {
    if !IsObjectValue(obj) then false
    else if Field(obj, "jsonrpc") != Some(JString("2.0")) then false
    else if !(Field(obj, "id").Some? && IsIdValue(Field(obj, "id").value)) then false
    else if Field(obj, "result").None? && Field(obj, "error").None? then false
    else if Field(obj, "error").Some? && !IsObjectValue(Field(obj, "error").value) then false
    else true
  }

  /** What the chain accepts, stated as one condition: an object (never an array, which
      has no "jsonrpc" member) whose "jsonrpc" is the string "2.0", whose "id" is a
      string, number or null, that has a "result" (null included) or an "error", and whose
      "error", when present, is an object or array; nothing else is checked. */
  lemma {:induction false} ValidResponseMeaning(obj: Json)
    ensures IsValidRpcResponse(obj) <==>
      obj.JObject? &&
      "jsonrpc" in obj.fields && obj.fields["jsonrpc"] == JString("2.0") &&
      "id" in obj.fields && IsIdValue(obj.fields["id"]) &&
      ("result" in obj.fields || "error" in obj.fields) &&
      ("error" in obj.fields ==> IsObjectValue(obj.fields["error"]))
  {
  }

  /** The error object of section 5.1 of the JSON-RPC 2.0 Specification: an integer
      "code" and a string "message". */
  predicate IsErrorObject(e: Json)
  {
    e.JObject? && "code" in e.fields && e.fields["code"].JNumber? &&
    "message" in e.fields && e.fields["message"].JString?
  }

  /** A response object as section 5 of the JSON-RPC 2.0 Specification describes it:
      "jsonrpc" is "2.0", "id" is a string, number or null, and exactly one of "result"
      and "error" is present, the error being an error object. */
  predicate ConformsToSection5(obj: Json)
  {
    obj.JObject? &&
    "jsonrpc" in obj.fields && obj.fields["jsonrpc"] == JString("2.0") &&
    "id" in obj.fields && IsIdValue(obj.fields["id"]) &&
    (("result" in obj.fields) != ("error" in obj.fields)) &&
    ("error" in obj.fields ==> IsErrorObject(obj.fields["error"]))
  }

  /** Every conforming response passes the validator. */
  lemma {:induction false} ConformingIsValid(obj: Json)
    requires ConformsToSection5(obj)
    ensures IsValidRpcResponse(obj)
  {
  }

  const BothResultAndError: Json :=
    JObject(map["jsonrpc" := JString("2.0"), "id" := JNumber(1), "result" := JNull, "error" := JObject(map[])])

  const NullResult: Json :=
    JObject(map["jsonrpc" := JString("2.0"), "id" := JNull, "result" := JNull])

  /** The validator is more lenient than section 5: it accepts a response carrying both a
      result and an error, whose error lacks code and message. A null result counts as
      present, as section 5 allows. */
  lemma {:induction false} ValidatorIsLenient()
    ensures IsValidRpcResponse(BothResultAndError) && !ConformsToSection5(BothResultAndError)
    ensures IsValidRpcResponse(NullResult) && ConformsToSection5(NullResult)
  {
  }

  /** The rejections listed in the order the validator makes them. */
  lemma {:induction false} ValidatorRejects(obj: Json)
    ensures obj.JNull? || obj.JString? || obj.JNumber? || obj.JBool? ==> !IsValidRpcResponse(obj)
    ensures obj.JArray? ==> !IsValidRpcResponse(obj)
    ensures Field(obj, "jsonrpc") != Some(JString("2.0")) ==> !IsValidRpcResponse(obj)
    ensures Field(obj, "id").None? ==> !IsValidRpcResponse(obj)
    ensures Field(obj, "error") == Some(JNull) ==> !IsValidRpcResponse(obj)
  {
  }

  // ---------------------------------------------------------------------------------
  // groupBy.

  function KeyEquals<T>(key: T -> string, k: string): T -> bool
  {
    (x: T) => key(x) == k
  }

  /** `result[k]`, the empty list when no item had key `k`. */
  function Bucket<T>(m: map<string, seq<T>>, k: string): seq<T>
  {
    if k in m then m[k] else []
  }

  /** `groupBy(arr, key)`, with `key` standing for `String(item[key])`: the keys of the
      result are exactly the keys of the items, and each bucket holds, in input order,
      the items with its key. */
  method GroupBy<T>(arr: seq<T>, key: T -> string) returns (result: map<string, seq<T>>)
    ensures forall k :: k in result <==> exists i :: 0 <= i < |arr| && key(arr[i]) == k
    ensures forall k :: Bucket(result, k) == Filter(arr, KeyEquals(key, k))
  {
    result := map[];
    for i := 0 to |arr|
      invariant forall k :: k in result <==> exists j :: 0 <= j < i && key(arr[j]) == k
      invariant forall k :: Bucket(result, k) == Filter(arr[..i], KeyEquals(key, k))
    {
      var item := arr[i];
      var k := key(item);
      if k !in result {
        result := result[k := []];
      }
      result := result[k := result[k] + [item]];
      forall k' ensures Bucket(result, k') == Filter(arr[..i + 1], KeyEquals(key, k')) {
        assert arr[..i + 1] == arr[..i] + [item];
        FilterAppend(arr[..i], [item], KeyEquals(key, k'));
      }
    }
    assert arr[..|arr|] == arr;
  }

  /** The total size of the buckets of the listed keys. */
  function SumBuckets<T>(m: map<string, seq<T>>, ks: seq<string>): nat
  {
    if |ks| == 0 then 0 else |Bucket(m, ks[0])| + SumBuckets(m, ks[1..])
  }

  /** The total size of the items of each listed key. */
  function SumKeyed<T>(arr: seq<T>, key: T -> string, ks: seq<string>): nat
  {
    if |ks| == 0 then 0 else |Filter(arr, KeyEquals(key, ks[0]))| + SumKeyed(arr, key, ks[1..])
  }

  /** How often `k` is listed. */
  function Occurrences(ks: seq<string>, k: string): nat
  {
    if |ks| == 0 then 0 else (if ks[0] == k then 1 else 0) + Occurrences(ks[1..], k)
  }

  predicate Distinct(ks: seq<string>)
  {
    forall i, j :: 0 <= i < j < |ks| ==> ks[i] != ks[j]
  }

  lemma {:induction false} OccursOnce(ks: seq<string>, k: string)
    requires Distinct(ks) && k in ks
    ensures Occurrences(ks, k) == 1
    decreases |ks|
  {
    if ks[0] == k {
      NotListed(ks[1..], k);
    } else {
      OccursOnce(ks[1..], k);
    }
  }

  lemma {:induction false} NotListed(ks: seq<string>, k: string)
    requires k !in ks
    ensures Occurrences(ks, k) == 0
    decreases |ks|
  {
    if |ks| > 0 {
      NotListed(ks[1..], k);
    }
  }

  /** Removing the first item removes it from the one bucket of its key, as often as that
      key is listed. */
  lemma {:induction false} SumKeyedStep<T>(arr: seq<T>, key: T -> string, ks: seq<string>)
    requires |arr| > 0
    ensures SumKeyed(arr, key, ks) == SumKeyed(arr[1..], key, ks) + Occurrences(ks, key(arr[0]))
    decreases |ks|
  {
    if |ks| > 0 {
      SumKeyedStep(arr, key, ks[1..]);
    }
  }

  lemma {:induction false} SumKeyedTotal<T>(arr: seq<T>, key: T -> string, ks: seq<string>)
    requires Distinct(ks)
    requires forall i :: 0 <= i < |arr| ==> key(arr[i]) in ks
    ensures SumKeyed(arr, key, ks) == |arr|
    decreases |arr|
  {
    if |arr| == 0 {
      EmptySumKeyed(key, ks);
    } else {
      SumKeyedStep(arr, key, ks);
      OccursOnce(ks, key(arr[0]));
      SumKeyedTotal(arr[1..], key, ks);
    }
  }

  lemma {:induction false} EmptySumKeyed<T>(key: T -> string, ks: seq<string>)
    ensures SumKeyed([], key, ks) == 0
    decreases |ks|
  {
    if |ks| > 0 {
      EmptySumKeyed(key, ks[1..]);
    }
  }

  lemma {:induction false} SumBucketsIsSumKeyed<T>(m: map<string, seq<T>>, arr: seq<T>, key: T -> string, ks: seq<string>)
    requires forall k :: Bucket(m, k) == Filter(arr, KeyEquals(key, k))
    ensures SumBuckets(m, ks) == SumKeyed(arr, key, ks)
    decreases |ks|
  {
    if |ks| > 0 {
      SumBucketsIsSumKeyed(m, arr, key, ks[1..]);
    }
  }

  /** The buckets partition the input: over any duplicate-free list naming every key of
      the result, the bucket sizes sum to the number of items. */
  lemma {:induction false} BucketSizesSum<T>(arr: seq<T>, key: T -> string, result: map<string, seq<T>>, ks: seq<string>)
    requires forall k :: k in result <==> exists i :: 0 <= i < |arr| && key(arr[i]) == k
    requires forall k :: Bucket(result, k) == Filter(arr, KeyEquals(key, k))
    requires Distinct(ks) && forall k :: k in result ==> k in ks
    ensures SumBuckets(result, ks) == |arr|
  {
    forall i | 0 <= i < |arr| ensures key(arr[i]) in ks {
      assert key(arr[i]) in result;
    }
    SumKeyedTotal(arr, key, ks);
    SumBucketsIsSumKeyed(result, arr, key, ks);
  }

  // ---------------------------------------------------------------------------------
  // Requests and the id counter.

  /** A request object; `id` is absent on a notification. */
  datatype RpcRequest = RpcRequest(jsonrpc: string, id: Option<int>, methodName: string, params: Json)

  /** A notification in the sense of section 4.1 of the JSON-RPC 2.0 Specification: a
      request without an "id" member. */
  predicate IsNotification(r: RpcRequest)
  {
    r.jsonrpc == "2.0" && r.id.None?
  }

  /** The id counter of `HttpRpcClient`. `issued` records the ids handed out so far. */
  class HttpRpcClient {
    var nextIdRequest: int
    ghost var issued: seq<int>

    /** The ids handed out are 1, 2, ... up to the counter. */
    ghost predicate Valid()
      reads this
    {
      nextIdRequest == |issued| && forall i :: 0 <= i < |issued| ==> issued[i] == i + 1
    }

    constructor()
      ensures Valid() && nextIdRequest == 0 && issued == []
    {
      nextIdRequest := 0;
      issued := [];
    }

    /** `#generateId`: the counter plus one, which is also the new counter. */
    method GenerateId() returns (id: int)
      requires Valid()
      modifies this
      ensures Valid()
      ensures id == old(nextIdRequest) + 1 && nextIdRequest == id
      ensures issued == old(issued) + [id] && id !in old(issued)
    {
      nextIdRequest := nextIdRequest + 1;
      id := nextIdRequest;
      issued := issued + [id];
    }

    /** `#createRpcRequest`: a "2.0" request carrying a fresh id. */
    method CreateRpcRequest(methodName: string, params: Json) returns (r: RpcRequest)
      requires Valid()
      modifies this
      ensures Valid()
      ensures r == RpcRequest("2.0", Some(old(nextIdRequest) + 1), methodName, params)
      ensures issued == old(issued) + [r.id.value] && r.id.value !in old(issued)
    {
      var id := GenerateId();
      r := RpcRequest("2.0", Some(id), methodName, params);
    }

    /** `#createRpcNotify`: a notification; the counter is not touched. */
    method CreateRpcNotify(methodName: string, params: Json) returns (r: RpcRequest)
      ensures IsNotification(r) && r.methodName == methodName && r.params == params
    {
      r := RpcRequest("2.0", None, methodName, params);
    }
  }

  /** Ids are never reused: every id handed out is distinct from the others. */
  lemma {:induction false} IssuedIdsDistinct(c: HttpRpcClient)
    requires c.Valid()
    ensures forall i, j :: 0 <= i < j < |c.issued| ==> c.issued[i] < c.issued[j]
  {
  }
}
