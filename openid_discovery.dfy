/**
 * The service list and the iterator of Brvr_OpenId_Consumer_Discovery
 * (OpenId/Consumer/Discovery.php). Discovered services are kept grouped by
 * their XRDS priority; the flat service list takes the groups in ascending
 * priority, each group in a random order, and the services without a
 * priority (the `last` group) at the end. The object iterates over that list
 * with a position counter.
 */
module OpenIdDiscovery {
  import opened Wrappers
  import opened PhpValue

  /** A key of the grouped services: a numeric priority, or `last` for services that have none. */
  datatype Key = Priority(p: int) | Last

  /** The order `ksort` gives the keys: priorities numerically, `last` after every priority. */
  predicate KeyLe(a: Key, b: Key) {
    match (a, b)
    case (Priority(x), Priority(y)) => x <= y
    case (_, Last) => true
    case (Last, Priority(_)) => false
  }

  predicate StrictlyAscending(keys: seq<Key>) {
    forall i, j :: 0 <= i < j < |keys| ==> KeyLe(keys[i], keys[j]) && keys[i] != keys[j]
  }

  lemma KeyLeOrder(a: Key, b: Key, c: Key)
    ensures KeyLe(a, a)
    ensures KeyLe(a, b) || KeyLe(b, a)
    ensures KeyLe(a, b) && KeyLe(b, a) ==> a == b
    ensures KeyLe(a, b) && KeyLe(b, c) ==> KeyLe(a, c)
  {
  }

  /** Every non-empty set of keys has a least key. */
  lemma {:induction false} LeastKeyExists(keys: set<Key>)
    requires keys != {}
    ensures exists m :: m in keys && forall k :: k in keys ==> KeyLe(m, k)
    decreases keys
  {
    hide KeyLe;
    var x :| x in keys;
    if keys - {x} == {} {
      forall k | k in keys
        ensures KeyLe(x, k)
      {
        assert k !in keys - {x};
        KeyLeOrder(x, k, k);
      }
    } else {
      LeastKeyExists(keys - {x});
      var m :| m in keys - {x} && forall k :: k in keys - {x} ==> KeyLe(m, k);
      var least := if KeyLe(x, m) then x else m;
      forall k | k in keys
        ensures KeyLe(least, k)
      {
        KeyLeOrder(x, m, k);
        KeyLeOrder(least, k, k);
        if k != x {
          assert k in keys - {x};
        }
      }
      assert least in keys;
    }
  }

  /** The keys of a set in ascending order, as `ksort` leaves them. */
  ghost function SortedKeys(keys: set<Key>): seq<Key>
    decreases keys
  {
    if keys == {} then []
    else
      LeastKeyExists(keys);
      var m :| m in keys && forall k :: k in keys ==> KeyLe(m, k);
      [m] + SortedKeys(keys - {m})
  }

  /** The sorted keys are the set's keys, each once, in ascending order. */
  lemma {:induction false} SortedKeysSorted(keys: set<Key>)
    ensures StrictlyAscending(SortedKeys(keys))
    ensures forall k :: k in SortedKeys(keys) <==> k in keys
    decreases keys
  {
    if keys != {} {
      LeastKeyExists(keys);
      var m :| m in keys && forall k :: k in keys ==> KeyLe(m, k);
      SortedKeysHead(keys, m);
      SortedKeysSorted(keys - {m});
      var rest := SortedKeys(keys - {m});
      assert forall j :: 0 <= j < |rest| ==> KeyLe(m, rest[j]) && m != rest[j];
    }
  }

  /** The sorted keys start with the least key, whichever way it was found. */
  lemma SortedKeysHead(keys: set<Key>, m: Key)
    requires m in keys && forall k :: k in keys ==> KeyLe(m, k)
    ensures SortedKeys(keys) == [m] + SortedKeys(keys - {m})
  {
    LeastKeyExists(keys);
    var first :| first in keys && forall k :: k in keys ==> KeyLe(first, k);
    KeyLeOrder(m, first, first);
    assert m == first;
    assert SortedKeys(keys) == [first] + SortedKeys(keys - {first});
  }

  /** The least of a non-empty set of keys. */
  method LeastKey(keys: set<Key>) returns (m: Key)
    requires keys != {}
    ensures m in keys && forall k :: k in keys ==> KeyLe(m, k)
  {
    LeastKeyExists(keys);
    m :| m in keys && forall k :: k in keys ==> KeyLe(m, k);
  }

  /** `ksort` on the keys of an array: take the least remaining key until none is left. */
  method KSort(keys: set<Key>) returns (sorted: seq<Key>)
    ensures sorted == SortedKeys(keys)
  {
    sorted := [];
    var rest := keys;
    while rest != {}
      invariant sorted + SortedKeys(rest) == SortedKeys(keys)
      decreases rest
    {
      hide SortedKeys, StrictlyAscending, KeyLe;
      var m := LeastKey(rest);
      SortedKeysHead(rest, m);
      assert sorted + SortedKeys(rest) == (sorted + [m]) + SortedKeys(rest - {m});
      sorted := sorted + [m];
      rest := rest - {m};
    }
    assert SortedKeys(rest) == [];
    assert sorted + [] == sorted;
  }

  /** The values of an array in order, its keys dropped, as `shuffle` and `$a[] = $v` renumber them. */
  function Values(entries: seq<(string, Value)>): (r: seq<Value>)
    ensures |r| == |entries|
    ensures forall i :: 0 <= i < |entries| ==> r[i] == entries[i].1
  {
    seq(|entries|, i requires 0 <= i < |entries| => entries[i].1)
  }

  /** `r` is `receiver` followed by the values of `group` in some order. */
  predicate AppendsShuffled(r: seq<Value>, receiver: seq<Value>, group: seq<Value>) {
    |r| == |receiver| + |group| && r[..|receiver|] == receiver && multiset(r[|receiver|..]) == multiset(group)
  }

  /** `r` is the groups one after the other, each in some order of its own. */
  predicate Shuffled(r: seq<Value>, groups: seq<seq<Value>>)
    decreases |groups|
  {
    if groups == [] then r == []
    else
      var g := groups[|groups| - 1];
      |g| <= |r| && multiset(r[|r| - |g|..]) == multiset(g) && Shuffled(r[..|r| - |g|], groups[..|groups| - 1])
  }

  /** The groups one after the other, in their own order. */
  function Flatten(groups: seq<seq<Value>>): seq<Value> {
    if groups == [] then [] else Flatten(groups[..|groups| - 1]) + groups[|groups| - 1]
  }

  /** Appending one more shuffled group to a shuffled list gives a shuffled list of one more group. */
  lemma ShuffledAppend(r: seq<Value>, groups: seq<seq<Value>>, group: seq<Value>, appended: seq<Value>)
    requires Shuffled(r, groups)
    requires AppendsShuffled(appended, r, group)
    ensures Shuffled(appended, groups + [group])
  {
    var all := groups + [group];
    assert all[|all| - 1] == group && all[..|all| - 1] == groups;
    assert appended[..|appended| - |group|] == r;
  }

  /** A shuffled list holds exactly the services of its groups, each as often. */
  lemma {:induction false} ShuffledPermutes(r: seq<Value>, groups: seq<seq<Value>>)
    requires Shuffled(r, groups)
    ensures multiset(r) == multiset(Flatten(groups))
    ensures |r| == |Flatten(groups)|
    decreases |groups|
  {
    if groups != [] {
      var g := groups[|groups| - 1];
      ShuffledPermutes(r[..|r| - |g|], groups[..|groups| - 1]);
      assert r == r[..|r| - |g|] + r[|r| - |g|..];
    }
  }

  /** The arrays of `priorityArray` under `keys`, in that order; values that are not arrays are skipped. */
  function GroupsIn(priorityArray: map<Key, Value>, keys: seq<Key>): seq<seq<Value>>
    requires forall k :: k in keys ==> k in priorityArray
  {
    if keys == [] then []
    else
      var group := priorityArray[keys[|keys| - 1]];
      GroupsIn(priorityArray, keys[..|keys| - 1]) + (if group.Arr? then [Values(group.entries)] else [])
  }

  /** Whether the `last` group is set aside: it is present and not empty in PHP's sense. */
  predicate LastSetAside(raw: map<Key, Value>) {
    Last in raw && !Empty(raw[Last])
  }

  /** The groups sorted by `ksort`: all of them, less the `last` group when it is set aside. */
  function SortedPart(raw: map<Key, Value>): (part: map<Key, Value>)
    ensures LastSetAside(raw) ==> Last !in part
    ensures forall k :: k != Last ==> (k in part <==> k in raw) && (k in raw ==> part[k] == raw[k])
  {
    if LastSetAside(raw) then raw - {Last} else raw
  }

  /**
   * The groups `getServiceArray` appends, in order: the arrays among the
   * sorted groups in ascending key order, then the `last` group when it was
   * set aside and is an array.
   */
  ghost function ServiceGroups(raw: map<Key, Value>): seq<seq<Value>> {
    var part := SortedPart(raw);
    SortedKeysSorted(part.Keys);
    GroupsIn(part, SortedKeys(part.Keys)) +
    (if LastSetAside(raw) && raw[Last].Arr? then [Values(raw[Last].entries)] else [])
  }

  /** Services without a priority come last: a non-empty `last` array fills the end of the list. */
  lemma LastGroupAtEnd(raw: map<Key, Value>, r: seq<Value>)
    requires Shuffled(r, ServiceGroups(raw))
    requires Last in raw && raw[Last].Arr? && raw[Last].entries != []
    ensures |raw[Last].entries| <= |r|
    ensures multiset(r[|r| - |raw[Last].entries|..]) == multiset(Values(raw[Last].entries))
  {
    var groups := ServiceGroups(raw);
    assert groups[|groups| - 1] == Values(raw[Last].entries);
  }

  /**
   * `appendShuffledArray($reciever, $shuffleAppend)`: a non-array to
   * append is refused; otherwise its values, shuffled, go after the
   * receiver's. The order `shuffle` picks is any permutation.
   */
  method AppendShuffledArray(receiver: seq<Value>, shuffleAppend: Value) returns (r: Result<seq<Value>>)
    ensures r.Success? <==> shuffleAppend.Arr?
    ensures !shuffleAppend.Arr? ==> r == Failure("Non-array passed to _appendShuffledArray method")
    ensures r.Success? ==> AppendsShuffled(r.value, receiver, Values(shuffleAppend.entries))
  {
    if !shuffleAppend.Arr? {
      return Failure("Non-array passed to _appendShuffledArray method");
    }
    var values := Values(shuffleAppend.entries);
    var shuffled: seq<Value> :| multiset(shuffled) == multiset(values);
    var returnArray := receiver;
    for i := 0 to |shuffled|
      invariant returnArray == receiver + shuffled[..i]
    {
      assert shuffled[..i + 1] == shuffled[..i] + [shuffled[i]];
      returnArray := returnArray + [shuffled[i]];
    }
    assert shuffled[..|shuffled|] == shuffled;
    assert returnArray[|receiver|..] == shuffled;
    r := Success(returnArray);
  }

  /** The `foreach` of `getServiceArray`: append each array under `keys`, in that order, shuffled. */
  method AppendGroups(priorityArray: map<Key, Value>, keys: seq<Key>) returns (ordered: seq<Value>)
    requires forall k :: k in keys ==> k in priorityArray
    ensures Shuffled(ordered, GroupsIn(priorityArray, keys))
  {
    ordered := [];
    for i := 0 to |keys|
      invariant Shuffled(ordered, GroupsIn(priorityArray, keys[..i]))
    {
      hide Shuffled, AppendsShuffled, Values;
      assert keys[..i + 1][..i] == keys[..i];
      var serviceArray := priorityArray[keys[i]];
      if serviceArray.Arr? {
        assert GroupsIn(priorityArray, keys[..i + 1]) == GroupsIn(priorityArray, keys[..i]) + [Values(serviceArray.entries)];
        var appended := AppendShuffledArray(ordered, serviceArray);
        ShuffledAppend(ordered, GroupsIn(priorityArray, keys[..i]), Values(serviceArray.entries), appended.value);
        ordered := appended.value;
      } else {
        var before := GroupsIn(priorityArray, keys[..i]);
        assert GroupsIn(priorityArray, keys[..i + 1]) == before + [] == before;
      }
    }
    assert keys[..|keys|] == keys;
  }

  /** What discovery information read back from storage holds. */
  datatype DiscoveryInfo = DiscoveryInfo(uri: Value, expire: Value, services: map<Key, Value>)

  class Discovery {
    /** `_uri`. */
    var uri: Value
    /** `_expire`. */
    var expire: Value
    /** `_rawServices`: the services grouped by priority. */
    var rawServices: map<Key, Value>
    /** `_services`: the flat list the iterator walks. */
    var services: seq<Value>
    /** `_position`. */
    var position: nat

    /** `__construct`: nothing discovered yet, the iterator at the start. */
    constructor ()
      ensures position == 0 && services == [] && rawServices == map[]
      ensures uri == Null && expire == Null
    {
      uri := Null;
      expire := Null;
      rawServices := map[];
      services := [];
      position := 0;
    }

    /**
     * `getServiceArray()`: the groups in ascending priority, each shuffled,
     * then the `last` group; values that are not arrays contribute nothing.
     */
    method GetServiceArray() returns (ordered: seq<Value>)
      ensures Shuffled(ordered, ServiceGroups(rawServices))
    {
      var priorityArray := rawServices;
      var last: Option<Value> := None;
      if Last in priorityArray && !Empty(priorityArray[Last]) {
        last := Some(priorityArray[Last]);
        priorityArray := priorityArray - {Last};
      }
      assert priorityArray == SortedPart(rawServices);
      var keys := KSort(priorityArray.Keys);
      SortedKeysSorted(priorityArray.Keys);
      ordered := AppendGroups(priorityArray, keys);
      var sortedGroups := GroupsIn(priorityArray, keys);
      if last.Some? && last.value.Arr? {
        var appended := AppendShuffledArray(ordered, last.value);
        ShuffledAppend(ordered, sortedGroups, Values(last.value.entries), appended.value);
        ordered := appended.value;
      } else {
        assert sortedGroups + [] == sortedGroups;
      }
    }

    /**
     * `loadDiscoveryInfo($uri)` with the storage's answer as `info`: nothing
     * changes when there is none; otherwise the URI, the expiry and the
     * grouped services are taken over and the flat list rebuilt from them.
     */
    method LoadDiscoveryInfo(info: Option<DiscoveryInfo>) returns (ok: bool)
      modifies this
      ensures ok <==> info.Some?
      ensures !ok ==> uri == old(uri) && expire == old(expire) && rawServices == old(rawServices) && services == old(services)
      ensures ok ==> uri == info.value.uri && expire == info.value.expire && rawServices == info.value.services
      ensures ok ==> Shuffled(services, ServiceGroups(rawServices))
      ensures position == old(position)
    {
      if info.None? {
        return false;
      }
      uri := info.value.uri;
      expire := info.value.expire;
      rawServices := info.value.services;
      services := GetServiceArray();
      ok := true;
    }

    /** Whether a service is stored at position `p`: `isset` is false past the end and for null. */
    predicate ServiceAt(p: nat)
      reads this
    {
      p < |services| && services[p] != Null
    }

    /** `valid()`: a service is stored at the current position. */
    function Valid(): (b: bool)
      reads this
      ensures b <==> position < |services| && services[position] != Null
    {
      ServiceAt(position)
    }

    /** `key()`: the current position. */
    function Key(): (k: nat)
      reads this
      ensures k == position
    {
      position
    }

    /** `next()`: one position further, whether or not a service is there. */
    method Next()
      modifies this
      ensures position == old(position) + 1
      ensures services == old(services) && rawServices == old(rawServices) && uri == old(uri) && expire == old(expire)
    {
      position := position + 1;
    }

    /** `rewind()`: back to the first position. */
    method Rewind()
      modifies this
      ensures position == 0
      ensures services == old(services) && rawServices == old(rawServices) && uri == old(uri) && expire == old(expire)
    {
      position := 0;
    }

    /** The array the current position holds, or an empty one when there is none. */
    function CurrentService(): (entries: seq<(string, Value)>)
      reads this
      ensures position < |services| && services[position].Arr? ==> entries == services[position].entries
      ensures !(position < |services| && services[position].Arr?) ==> entries == []
    {
      if position < |services| && services[position].Arr? then services[position].entries else []
    }

    /**
     * `current()`: the current service's array with `expire` and `uri` set
     * to the object's own; every other key is the service's.
     */
    function Current(): (current: seq<(string, Value)>)
      reads this
      ensures HasKey(current, "expire") && Lookup(current, "expire") == expire
      ensures HasKey(current, "uri") && Lookup(current, "uri") == uri
      ensures forall k :: k != "expire" && k != "uri" ==>
        (HasKey(current, k) <==> HasKey(CurrentService(), k)) && Lookup(current, k) == Lookup(CurrentService(), k)
    {
      Assign(Assign(CurrentService(), "expire", expire), "uri", uri)
    }

    /** `__get($property)`: the property of `current()`, null when it has none. */
    function Get(property: string): (v: Value)
      reads this
      ensures property == "uri" ==> v == uri
      ensures property == "expire" ==> v == expire
      ensures property != "uri" && property != "expire" ==> v == Lookup(CurrentService(), property)
      ensures !HasKey(Current(), property) ==> v == Null
    {
      var current := Current();
      if !HasKey(current, property) then Null else Lookup(current, property)
    }
  }
}
