/** The HTTP request builder (`components/request-builder.tsx`): the editable list of header
    pairs, the header object sent to the proxy, and the choice of body. The fetch itself is
    outside the model. */
module RequestBuilder {
  import opened Results

  datatype Header = Header(key: string, value: string)

  datatype Field = Key | Value

  /** The initial list: one empty pair, which sends no header at all. */
  function InitialHeaders(): (hs: seq<Header>)
    ensures |hs| == 1 && hs[0].key == "" && hs[0].value == ""
    ensures HeaderObject(hs) == []
  {
    [Header("", "")]
  }

  /** `addHeader`: one empty pair at the end. */
  function AddHeader(hs: seq<Header>): (r: seq<Header>)
    ensures |r| == |hs| + 1 && r[..|hs|] == hs && r[|hs|] == Header("", "")
  {
    hs + [Header("", "")]
  }

  /** `removeHeader(index)`: `splice(index, 1)`, which removes nothing for an index past
      the end. */
  function RemoveHeader(hs: seq<Header>, index: nat): (r: seq<Header>)
    ensures index < |hs| ==> |r| == |hs| - 1
    ensures index < |hs| ==> forall i :: 0 <= i < |r| ==> r[i] == (if i < index then hs[i] else hs[i + 1])
    ensures index >= |hs| ==> r == hs
  {
    if index < |hs| then hs[..index] + hs[index + 1..] else hs
  }

  /** `updateHeader(index, field, val)` for an index in range. */
  function UpdateHeader(hs: seq<Header>, index: nat, field: Field, val: string): (r: seq<Header>)
    requires index < |hs|
    ensures |r| == |hs|
    ensures forall i :: 0 <= i < |hs| && i != index ==> r[i] == hs[i]
    ensures field == Key ==> r[index].key == val && r[index].value == hs[index].value
    ensures field == Value ==> r[index].value == val && r[index].key == hs[index].key
  {
    var h := hs[index];
    hs[index := match field case Key => h.(key := val) case Value => h.(value := val)]
  }

  /** Adding and then removing the new pair gives the list back. */
  lemma AddRemove(hs: seq<Header>)
    ensures RemoveHeader(AddHeader(hs), |hs|) == hs
  {
  }

  /** Writing back a field's old value changes nothing. */
  lemma UpdateSame(hs: seq<Header>, index: nat, field: Field)
    requires index < |hs|
    ensures UpdateHeader(hs, index, field, if field == Key then hs[index].key else hs[index].value) == hs
  {
  }

  // ---------------------------------------------------------------- the header object

  /** Assigning a property of the header object, kept as a list of properties: an existing
      property is overwritten and a new one is added. The list's order is not the order in
      which the object serialises its properties. */
  function Put(obj: seq<Header>, h: Header): (r: seq<Header>)
  {
    if |obj| == 0 then [h]
    else if obj[0].key == h.key then [h] + obj[1..]
    else [obj[0]] + Put(obj[1..], h)
  }

  /** The one key whose assignment on a plain object does not create a property: it runs
      the prototype setter, which ignores a string. */
  const ProtoKey: string := "__proto__"

  /** The `forEach` that fills `headerObj`, skipping pairs with an empty key; a pair with the
      prototype key is assigned but leaves the object as it was. */
  function HeaderObject(hs: seq<Header>): (obj: seq<Header>)
  {
    if |hs| == 0 then []
    else
      var obj := HeaderObject(hs[..|hs| - 1]);
      var h := hs[|hs| - 1];
      if h.key == "" || h.key == ProtoKey then obj else Put(obj, h)
  }

  /** The property lookup of an object. */
  function Get(obj: seq<Header>, key: string): (r: Option<string>)
  {
    if |obj| == 0 then None
    else if obj[0].key == key then Some(obj[0].value)
    else Get(obj[1..], key)
  }

  /** Pair `i` is the last one with the key. */
  predicate LastWith(hs: seq<Header>, key: string, i: int)
  {
    0 <= i < |hs| && hs[i].key == key && forall j :: i < j < |hs| ==> hs[j].key != key
  }

  /** The value of the last pair with the key, if any. */
  function LastValue(hs: seq<Header>, key: string): (r: Option<string>)
    ensures r.None? <==> forall i :: 0 <= i < |hs| ==> hs[i].key != key
    ensures r.Some? ==> exists i :: LastWith(hs, key, i) && hs[i].value == r.value
  {
    if |hs| == 0 then None
    else if hs[|hs| - 1].key == key then
      assert LastWith(hs, key, |hs| - 1);
      Some(hs[|hs| - 1].value)
    else
      var r := LastValue(hs[..|hs| - 1], key);
      LastSkips(hs, hs[..|hs| - 1], key);
      r
  }

  /** A pair with another key at the end changes neither which pair is last for the key
      nor whether there is one. */
  lemma LastSkips(hs: seq<Header>, p: seq<Header>, key: string)
    requires |hs| > 0 && hs[|hs| - 1].key != key && p == hs[..|hs| - 1]
    ensures forall i :: LastWith(p, key, i) ==> LastWith(hs, key, i) && p[i] == hs[i]
    ensures (forall i :: 0 <= i < |p| ==> p[i].key != key) <==> (forall i :: 0 <= i < |hs| ==> hs[i].key != key)
  {
    assert forall i :: 0 <= i < |p| ==> p[i] == hs[i];
  }

  lemma {:induction false} PutGet(obj: seq<Header>, h: Header, key: string)
    ensures Get(Put(obj, h), key) == if key == h.key then Some(h.value) else Get(obj, key)
    decreases |obj|
  {
    if |obj| > 0 && obj[0].key != h.key {
      PutGet(obj[1..], h, key);
    }
  }

  /** The header object maps each key other than the empty and the prototype key to the
      value of its last pair, and has no property for those two. */
  lemma {:induction false} HeaderObjectLookup(hs: seq<Header>, key: string)
    ensures Get(HeaderObject(hs), key) == if key == "" || key == ProtoKey then None else LastValue(hs, key)
    decreases |hs|
  {
    if |hs| > 0 {
      var p := hs[..|hs| - 1];
      var h := hs[|hs| - 1];
      HeaderObjectLookup(p, key);
      if h.key != "" && h.key != ProtoKey {
        PutGet(HeaderObject(p), h, key);
      }
    } else if key == "" || key == ProtoKey {
      assert Get([], key) == None;
    }
  }

  /** `Put` keeps keys unique. */
  predicate UniqueKeys(obj: seq<Header>)
  {
    forall i, j :: 0 <= i < j < |obj| ==> obj[i].key != obj[j].key
  }

  lemma {:induction false} PutKeys(obj: seq<Header>, h: Header)
    requires UniqueKeys(obj)
    ensures UniqueKeys(Put(obj, h))
    ensures forall i :: 0 <= i < |Put(obj, h)| ==> Put(obj, h)[i].key == h.key || exists j :: 0 <= j < |obj| && obj[j].key == Put(obj, h)[i].key
    decreases |obj|
  {
    if |obj| > 0 && obj[0].key != h.key {
      PutKeys(obj[1..], h);
      var r := Put(obj[1..], h);
      forall i | 0 <= i < |r|
        ensures r[i].key != obj[0].key
      {
        if r[i].key != h.key {
          var j :| 0 <= j < |obj[1..]| && obj[1..][j].key == r[i].key;
          assert obj[j + 1].key == r[i].key;
        }
      }
    }
  }

  /** No property is written twice and none has the empty or the prototype name. */
  lemma {:induction false} HeaderObjectKeys(hs: seq<Header>)
    ensures UniqueKeys(HeaderObject(hs))
    ensures forall i :: 0 <= i < |HeaderObject(hs)| ==>
              HeaderObject(hs)[i].key != "" && HeaderObject(hs)[i].key != ProtoKey
    decreases |hs|
  {
    if |hs| > 0 {
      var p := hs[..|hs| - 1];
      HeaderObjectKeys(p);
      if hs[|hs| - 1].key != "" && hs[|hs| - 1].key != ProtoKey {
        PutKeys(HeaderObject(p), hs[|hs| - 1]);
      }
    }
  }

  // ---------------------------------------------------------------- the body

  /** `method !== "GET" ? body : undefined`: the body is left out of GET requests only. */
  function RequestBody(verb: string, body: string): (r: Option<string>)
    ensures r.None? <==> verb == "GET"
    ensures r.Some? ==> r.value == body
  {
    if verb != "GET" then Some(body) else None
  }

  /** What is typed in the body field reaches the request exactly when the method is not
      GET: two bodies give the same request iff the method is GET or they are equal. */
  lemma BodyReachesRequest(verb: string, b1: string, b2: string)
    ensures RequestBody(verb, b1) == RequestBody(verb, b2) <==> verb == "GET" || b1 == b2
  {
  }
}
